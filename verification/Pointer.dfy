// JSON Pointer: the path texts of cJSON_Utils and the locations they name, against RFC 6901.
module Pointer {
  import opened CStrings
  import opened Json
  import opened Seqs

  const SIZE_MAX1: nat := 0x1_0000_0000_0000_0000 // one more than the largest size_t

  // encode_string_as_pointer(): '~' and '/' become "~0" and "~1".
  function Encode(key: string): string {
    if key == "" then "" else EncodeChar(key[0]) + Encode(key[1..])
  }

  function EncodeChar(c: char): string {
    if c == '/' then "~1" else if c == '~' then "~0" else [c]
  }

  // The path text of a list of reference tokens.
  function Render(tokens: seq<string>): string {
    if tokens == [] then "" else "/" + Encode(tokens[0]) + Render(tokens[1..])
  }

  // compare_pointers(): does the first token of the text p name this key?
  predicate MatchToken(name: string, p: string, caseSensitive: bool) {
    if name == "" || p == "" || p[0] == '/' then (p != "" && p[0] != '/') == (name != "")
    else if p[0] == '~' then
      && |p| > 1
      && ((p[1] == '0' && name[0] == '~') || (p[1] == '1' && name[0] == '/'))
      && MatchToken(name[1..], p[2..], caseSensitive)
    else Fold(name[0], caseSensitive) == Fold(p[0], caseSensitive) && MatchToken(name[1..], p[1..], caseSensitive)
  }

  // The text from the next '/' on.
  function SkipToken(p: string): (r: string)
    ensures |r| <= |p| && (r == "" || r[0] == '/')
  {
    if p == "" || p[0] == '/' then p else SkipToken(p[1..])
  }

  function DigitPrefix(p: string): (d: string)
    ensures forall c <- d :: IsDigit(c)
    ensures d <= p
  {
    if p == "" || !IsDigit(p[0]) then "" else [p[0]] + DigitPrefix(p[1..])
  }

  // decode_array_index_from_pointer(): no digits at all read as 0, and size_t wraps around.
  function DecodeIndex(p: string): Option<nat> {
    if |p| > 1 && p[0] == '0' && p[1] != '/' then None
    else
      var d := DigitPrefix(p);
      if |d| < |p| && p[|d|] != '/' then None else Some(DecimalValue(d) % SIZE_MAX1)
  }

  function ChildCount(v: Json): nat {
    match v
    case Array(es) => |es|
    case Object(ms) => |ms|
    case _ => 0
  }

  function ChildAt(v: Json, i: nat): (c: Json)
    requires i < ChildCount(v)
    ensures c < v
  {
    if v.Array? then v.elems[i] else v.members[i].value
  }

  function FindToken(ms: seq<Member>, p: string, caseSensitive: bool): (i: nat)
    ensures i <= |ms|
  {
    if ms == [] || MatchToken(ms[0].key, p, caseSensitive) then 0 else 1 + FindToken(ms[1..], p, caseSensitive)
  }

  // The position of the child that the first token of p names, past the end if there is none.
  function ChildFor(v: Json, p: string, caseSensitive: bool): nat {
    match v
    case Array(es) => (match DecodeIndex(p) case Some(n) => n case None => |es|)
    case Object(ms) => FindToken(ms, p, caseSensitive)
    case _ => 0
  }

  // get_item_from_pointer(): the location that a path text names, as child positions from
  // the root. A text that does not start with '/' names the node it is applied to.
  function Locate(v: Json, p: string, caseSensitive: bool): (loc: Option<seq<nat>>)
    ensures loc.Some? ==> ValidLocation(v, loc.value)
    decreases |p|
  {
    if p == "" || p[0] != '/' then Some([])
    else
      var q := p[1..];
      var i := ChildFor(v, q, caseSensitive);
      if i < ChildCount(v) then Below([i], Locate(ChildAt(v, i), SkipToken(q), caseSensitive)) else None
  }

  function Below(path: seq<nat>, loc: Option<seq<nat>>): Option<seq<nat>> {
    if loc.Some? then Some(path + loc.value) else None
  }

  predicate ValidLocation(v: Json, loc: seq<nat>) {
    loc == [] || (loc[0] < ChildCount(v) && ValidLocation(ChildAt(v, loc[0]), loc[1..]))
  }

  function At(v: Json, loc: seq<nat>): Json
    requires ValidLocation(v, loc)
  {
    if loc == [] then v else At(ChildAt(v, loc[0]), loc[1..])
  }

  function WithChild(v: Json, i: nat, w: Json): Json
    requires i < ChildCount(v)
  {
    if v.Array? then Array(v.elems[i := w]) else Object(v.members[i := Member(v.members[i].key, w)])
  }

  // The tree with the node at a location exchanged.
  function Put(v: Json, loc: seq<nat>, w: Json): Json
    requires ValidLocation(v, loc)
  {
    if loc == [] then w else WithChild(v, loc[0], Put(ChildAt(v, loc[0]), loc[1..], w))
  }

  // cJSONUtils_FindPointerFromObjectTo(): a depth-first search for a node, known by its
  // location, that builds the path text on the way back.
  function FindPointer(v: Json, here: seq<nat>, target: seq<nat>): Option<string>
    decreases v, 1, 0
  {
    if here == target then Some("") else FindBelow(v, 0, here, target)
  }

  function FindBelow(v: Json, i: nat, here: seq<nat>, target: seq<nat>): Option<string>
    requires i <= ChildCount(v)
    decreases v, 0, ChildCount(v) - i
  {
    if i == ChildCount(v) then None
    else
      match FindPointer(ChildAt(v, i), here + [i], target)
      case Some(rest) =>
        if v.Object? then Some("/" + Encode(v.members[i].key) + rest)
        else if i > ULONG_MAX then None
        else Some("/" + Decimal(i) + rest)
      case None => FindBelow(v, i + 1, here, target)
  }

  // ---------- Reference: evaluation as in section 4 of RFC 6901, on values ----------

  // "0", or digits without a leading zero.
  function ArrayIndex(token: string): Option<nat> {
    if token != "" && DigitPrefix(token) == token && (|token| > 1 ==> token[0] != '0')
    then Some(DecimalValue(token)) else None
  }

  ghost function Step(x: Value, token: string): Option<Value> {
    match x
    case VObject(m) => if token in m then Some(m[token]) else None
    case VArray(s) =>
      (match ArrayIndex(token)
       case Some(i) => if i < |s| then Some(s[i]) else None
       case None => None)
    case _ => None
  }

  ghost function Get(x: Value, tokens: seq<string>): Option<Value> {
    if tokens == [] then Some(x)
    else match Step(x, tokens[0]) case Some(y) => Get(y, tokens[1..]) case None => None
  }

  ghost function SetChild(x: Value, token: string, y: Value): Value
    requires Step(x, token).Some?
  {
    if x.VObject? then VObject(x.members[token := y]) else VArray(x.elems[ArrayIndex(token).value := y])
  }

  ghost function Set(x: Value, tokens: seq<string>, y: Value): Value
    requires Get(x, tokens).Some?
  {
    if tokens == [] then y else SetChild(x, tokens[0], Set(Step(x, tokens[0]).value, tokens[1..], y))
  }

  // Every token that meets an array is non-empty and, if a number, fits size_t.
  ghost predicate PlainPath(x: Value, tokens: seq<string>) {
    tokens != [] ==>
      && (x.VArray? ==> tokens[0] != "" && (ArrayIndex(tokens[0]).Some? ==> ArrayIndex(tokens[0]).value < SIZE_MAX1))
      && (Step(x, tokens[0]).Some? ==> PlainPath(Step(x, tokens[0]).value, tokens[1..]))
  }

  // ---------- Texts and tokens ----------

  ghost predicate TokenEnd(rest: string) {
    rest == "" || rest[0] == '/'
  }

  lemma EncodeFront(t: string, rest: string)
    requires t != ""
    ensures var p, q := Encode(t) + rest, Encode(t[1..]) + rest;
      if t[0] == '/' || t[0] == '~'
      then |p| >= 2 && p[0] == '~' && p[1] == (if t[0] == '/' then '1' else '0') && p[2..] == q && p[1..][1..] == q
      else p != "" && p[0] == t[0] && p[1..] == q
  {
    var e := Encode(t[1..]);
    var h := EncodeChar(t[0]);
    Assoc(h, e, rest);
    Parts(h, e + rest);
    if |h| == 2 {
      DropDrop(h + (e + rest), 1, 1);
    }
  }

  lemma {:induction false} MatchEncoded(name: string, t: string, rest: string, caseSensitive: bool)
    requires TokenEnd(rest)
    ensures MatchToken(name, Encode(t) + rest, caseSensitive) <==> SameName(name, t, caseSensitive)
  {
    if t == "" {
      assert Encode(t) + rest == rest;
      assert |FoldString(name, caseSensitive)| == |name|;
    } else if name == "" {
      EncodeFront(t, rest);
      assert |FoldString(t, caseSensitive)| == |t|;
    } else {
      EncodeFront(t, rest);
      MatchEncoded(name[1..], t[1..], rest, caseSensitive);
      SameNameFront(name, t, caseSensitive);
    }
  }

  lemma SameNameFront(a: string, b: string, caseSensitive: bool)
    requires a != "" && b != ""
    ensures SameName(a, b, caseSensitive) <==>
      Fold(a[0], caseSensitive) == Fold(b[0], caseSensitive) && SameName(a[1..], b[1..], caseSensitive)
  {
    var f, g := FoldString(a, caseSensitive), FoldString(b, caseSensitive);
    assert FoldString(a[1..], caseSensitive) == f[1..] && FoldString(b[1..], caseSensitive) == g[1..];
    assert f == [f[0]] + f[1..] && g == [g[0]] + g[1..];
  }

  lemma {:induction false} SkipEncoded(t: string, rest: string)
    requires TokenEnd(rest)
    ensures SkipToken(Encode(t) + rest) == rest
  {
    if t == "" {
      assert Encode(t) + rest == rest;
    } else {
      EncodeFront(t, rest);
      SkipEncoded(t[1..], rest);
    }
  }

  lemma {:induction false} DigitsEncoded(t: string, rest: string)
    requires TokenEnd(rest)
    ensures DigitPrefix(Encode(t) + rest) == DigitPrefix(t)
    ensures var n, p := |DigitPrefix(t)|, Encode(t) + rest;
      n <= |p| && (n == |t| <==> n == |p| || p[n] == '/')
  {
    if t == "" {
      assert Encode(t) + rest == rest;
    } else {
      EncodeFront(t, rest);
      if IsDigit(t[0]) {
        DigitsEncoded(t[1..], rest);
      }
    }
  }

  // What the array index decoder makes of any token: the index of RFC 6901, taken modulo
  // the size of size_t, except that the empty token reads as 0.
  lemma IndexToken(t: string, rest: string)
    requires TokenEnd(rest)
    ensures DecodeIndex(Encode(t) + rest) ==
      if t == "" then Some(0)
      else match ArrayIndex(t) case Some(n) => Some(n % SIZE_MAX1) case None => None
  {
    DigitsEncoded(t, rest);
    if t != "" {
      EncodeFront(t, rest);
      if |t| > 1 {
        EncodeFront(t[1..], rest);
      }
    } else {
      assert Encode(t) + rest == rest;
    }
  }

  lemma {:induction false} EncodeDigits(t: string)
    requires forall c <- t :: c != '~' && c != '/'
    ensures Encode(t) == t
  {
    if t != "" {
      assert forall c <- t[1..] :: c in t;
      assert t[0] in t;
      EncodeDigits(t[1..]);
    }
  }

  lemma RenderEnds(tokens: seq<string>)
    ensures TokenEnd(Render(tokens))
  {
  }

  lemma {:induction false} RenderAppend(a: seq<string>, b: seq<string>)
    ensures Render(a + b) == Render(a) + Render(b)
  {
    if a == [] {
      assert a + b == b;
      assert "" + Render(b) == Render(b);
    } else {
      RenderAppend(a[1..], b);
      assert (a + b)[1..] == a[1..] + b;
      Assoc("/" + Encode(a[0]), Render(a[1..]), Render(b));
    }
  }

  lemma DecimalToken(i: nat)
    ensures ArrayIndex(Decimal(i)) == Some(i) && Encode(Decimal(i)) == Decimal(i)
  {
    DecimalRoundTrip(i);
    EncodeDigits(Decimal(i));
    AllDigits(Decimal(i));
  }

  lemma {:induction false} AllDigits(s: string)
    requires forall c <- s :: IsDigit(c)
    ensures DigitPrefix(s) == s
  {
    if s != "" {
      assert forall c <- s[1..] :: c in s;
      AllDigits(s[1..]);
    }
  }

  // ---------- One step of the walk ----------

  lemma {:induction false} FindTokenIs(ms: seq<Member>, t: string, rest: string, caseSensitive: bool)
    requires TokenEnd(rest)
    ensures FindToken(ms, Encode(t) + rest, caseSensitive) == FindName(ms, t, caseSensitive)
  {
    if ms != [] {
      MatchEncoded(ms[0].key, t, rest, caseSensitive);
      FindTokenIs(ms[1..], t, rest, caseSensitive);
    }
  }

  // The position that an unescaped token leads to.
  function ChildOf(v: Json, t: string, caseSensitive: bool): nat {
    match v
    case Array(es) => if t == "" then 0 else (match ArrayIndex(t) case Some(n) => n % SIZE_MAX1 case None => |es|)
    case Object(ms) => FindName(ms, t, caseSensitive)
    case _ => 0
  }

  lemma LocateStep(v: Json, tokens: seq<string>, caseSensitive: bool)
    requires tokens != []
    ensures var i := ChildOf(v, tokens[0], caseSensitive);
      Locate(v, Render(tokens), caseSensitive) ==
        if i < ChildCount(v) then Below([i], Locate(ChildAt(v, i), Render(tokens[1..]), caseSensitive)) else None
  {
    var t, rest := tokens[0], Render(tokens[1..]);
    RenderEnds(tokens[1..]);
    Assoc("/", Encode(t), rest);
    Parts("/", Encode(t) + rest);
    SkipEncoded(t, rest);
    IndexToken(t, rest);
    if v.Object? {
      FindTokenIs(v.members, t, rest, caseSensitive);
    }
  }

  // On a well-formed tree one step of the code is one step of RFC 6901.
  lemma StepIs(v: Json, t: string, exact: bool)
    requires Formed(v, exact) && PlainPath(Denote(v), [t])
    ensures var i := ChildOf(v, t, true);
      && (i < ChildCount(v) <==> Step(Denote(v), t).Some?)
      && (i < ChildCount(v) ==>
            && Formed(ChildAt(v, i), exact) && Step(Denote(v), t) == Some(Denote(ChildAt(v, i)))
            && if v.Object? then v.members[i].key == t else ArrayIndex(t) == Some(i))
  {
    var i := ChildOf(v, t, true);
    if v.Object? {
      FindInMap(v.members, t);
      FindNameFirst(v.members, t, true);
      if i < |v.members| {
        SameNameExact(v.members[i].key, t);
        MembersMap(v.members);
      }
    }
  }

  lemma WithChildDenotes(v: Json, t: string, i: nat, w: Json, exact: bool)
    requires Formed(v, exact) && i < ChildCount(v) && Step(Denote(v), t).Some?
    requires if v.Object? then v.members[i].key == t else ArrayIndex(t) == Some(i)
    ensures Denote(WithChild(v, i, w)) == SetChild(Denote(v), t, Denote(w))
    ensures Formed(w, exact) ==> Formed(WithChild(v, i, w), exact)
  {
    if v.Object? {
      UpdateMember(v.members, i, w);
    } else {
      assert Denote(WithChild(v, i, w)).elems == Denote(v).elems[i := Denote(w)];
    }
  }

  // ---------- Main results ----------

  // On a well-formed tree the code finds a node for a path exactly when RFC 6901 finds a
  // value, the node denotes that value, and exchanging the node exchanges the value.
  lemma {:induction false} LocateAgrees(v: Json, tokens: seq<string>, w: Json, exact: bool)
    requires Formed(v, exact) && PlainPath(Denote(v), tokens)
    ensures Locate(v, Render(tokens), true).Some? <==> Get(Denote(v), tokens).Some?
    ensures Locate(v, Render(tokens), true).Some? ==>
      var loc := Locate(v, Render(tokens), true).value;
      && ValidLocation(v, loc) && Formed(At(v, loc), exact)
      && Get(Denote(v), tokens) == Some(Denote(At(v, loc)))
      && Denote(Put(v, loc, w)) == Set(Denote(v), tokens, Denote(w))
      && (Formed(w, exact) ==> Formed(Put(v, loc, w), exact))
    decreases |tokens|
  {
    if tokens != [] {
      var t := tokens[0];
      LocateStep(v, tokens, true);
      var i := ChildOf(v, t, true);
      StepIs(v, t, exact);
      if i < ChildCount(v) {
        LocateAgrees(ChildAt(v, i), tokens[1..], w, exact);
        var sub := Locate(ChildAt(v, i), Render(tokens[1..]), true);
        if sub.Some? {
          assert ([i] + sub.value)[1..] == sub.value;
          WithChildDenotes(v, t, i, Put(ChildAt(v, i), sub.value, w), exact);
        }
      }
    }
  }

  lemma {:induction false} FoundIsPlain(v: Json, tokens: seq<string>, exact: bool)
    requires Formed(v, exact) && Get(Denote(v), tokens).Some?
    ensures PlainPath(Denote(v), tokens)
    decreases |tokens|
  {
    if tokens != [] {
      var t := tokens[0];
      assert PlainPath(Denote(v), [t]);
      var i := ChildOf(v, t, true);
      StepIs(v, t, exact);
      FoundIsPlain(ChildAt(v, i), tokens[1..], exact);
    }
  }

  // The tokens of the path to a location.
  function TokensTo(v: Json, loc: seq<nat>): seq<string>
    requires ValidLocation(v, loc)
  {
    if loc == [] then []
    else [if v.Object? then v.members[loc[0]].key else Decimal(loc[0])] + TokensTo(ChildAt(v, loc[0]), loc[1..])
  }

  ghost predicate SmallArrays(v: Json) {
    && (v.Array? ==> |v.elems| <= ULONG_MAX + 1)
    && forall i :: 0 <= i < ChildCount(v) ==> SmallArrays(ChildAt(v, i))
  }

  // No key on the way down is hidden by an earlier one that it matches.
  ghost predicate FirstAlong(v: Json, loc: seq<nat>, caseSensitive: bool)
    requires ValidLocation(v, loc)
  {
    loc != [] ==>
      && (v.Object? ==> forall i :: 0 <= i < loc[0] ==>
            !SameName(v.members[i].key, v.members[loc[0]].key, caseSensitive))
      && FirstAlong(ChildAt(v, loc[0]), loc[1..], caseSensitive)
  }

  // The search finds every node of a tree and returns the path of its location.
  lemma {:induction false} FindPointerIs(v: Json, here: seq<nat>, loc: seq<nat>)
    requires ValidLocation(v, loc) && SmallArrays(v)
    ensures FindPointer(v, here, here + loc) == Some(Render(TokensTo(v, loc)))
    decreases |loc|, 0
  {
    if loc == [] {
      assert here + loc == here;
    } else {
      assert here != here + loc;
      FindBelowIs(v, 0, here, loc);
    }
  }

  lemma {:induction false} FindBelowIs(v: Json, i: nat, here: seq<nat>, loc: seq<nat>)
    requires ValidLocation(v, loc) && SmallArrays(v) && loc != [] && i <= loc[0]
    ensures FindBelow(v, i, here, here + loc) == Some(Render(TokensTo(v, loc)))
    decreases |loc| - 1, loc[0] - i + 1
  {
    var target := here + loc;
    if i < loc[0] {
      assert target[|here|] == loc[0] && (here + [i])[|here|] == i;
      Elsewhere(ChildAt(v, i), here + [i], target);
      FindBelowIs(v, i + 1, here, loc);
    } else {
      assert target == (here + [i]) + loc[1..];
      FindPointerIs(ChildAt(v, i), here + [i], loc[1..]);
      DecimalToken(i);
    }
  }

  lemma {:induction false} Elsewhere(v: Json, here: seq<nat>, target: seq<nat>)
    requires !(here <= target)
    ensures FindPointer(v, here, target) == None
    decreases v, 1, 0
  {
    ElsewhereBelow(v, 0, here, target);
  }

  lemma {:induction false} ElsewhereBelow(v: Json, i: nat, here: seq<nat>, target: seq<nat>)
    requires !(here <= target) && i <= ChildCount(v)
    ensures FindBelow(v, i, here, target) == None
    decreases v, 0, ChildCount(v) - i
  {
    if i < ChildCount(v) {
      assert !(here + [i] <= target);
      Elsewhere(ChildAt(v, i), here + [i], target);
      ElsewhereBelow(v, i + 1, here, target);
    }
  }

  // Looking a path up again leads back to the node it was made for exactly when no key on
  // the way down is hidden by an earlier sibling.
  lemma {:induction false} LocateTokens(v: Json, loc: seq<nat>, caseSensitive: bool)
    requires ValidLocation(v, loc) && SmallArrays(v)
    ensures Locate(v, Render(TokensTo(v, loc)), caseSensitive) == Some(loc) <==> FirstAlong(v, loc, caseSensitive)
    decreases |loc|
  {
    if loc != [] {
      var i, tokens := loc[0], TokensTo(v, loc);
      var j := ChildOf(v, tokens[0], caseSensitive);
      DecimalToken(i);
      if v.Object? {
        FirstIs(v.members, i, caseSensitive);
      }
      assert FirstAlong(v, loc, caseSensitive) <==> j == i && FirstAlong(ChildAt(v, i), loc[1..], caseSensitive);
      LocateStep(v, tokens, caseSensitive);
      assert tokens[1..] == TokensTo(ChildAt(v, i), loc[1..]);
      LocateTokens(ChildAt(v, i), loc[1..], caseSensitive);
      if j < ChildCount(v) {
        var sub := Locate(ChildAt(v, j), Render(tokens[1..]), caseSensitive);
        if sub.Some? {
          ConsIs(j, sub.value, loc);
        }
      }
    }
  }

  lemma ConsIs(j: nat, sub: seq<nat>, loc: seq<nat>)
    requires loc != []
    ensures [j] + sub == loc <==> j == loc[0] && sub == loc[1..]
  {
    assert ([j] + sub)[1..] == sub;
    assert loc == [loc[0]] + loc[1..];
  }

  lemma FirstIs(ms: seq<Member>, i: nat, caseSensitive: bool)
    requires i < |ms|
    ensures FindName(ms, ms[i].key, caseSensitive) == i <==>
      forall j :: 0 <= j < i ==> !SameName(ms[j].key, ms[i].key, caseSensitive)
  {
    var k := ms[i].key;
    FindNameFirst(ms, k, caseSensitive);
    SameNameExact(k, k);
    assert SameName(k, k, caseSensitive);
    if forall j :: 0 <= j < i ==> !SameName(ms[j].key, k, caseSensitive) {
      FindNameIs(ms, k, caseSensitive, i);
    }
  }

  // GetPointer(root, FindPointerFromObjectTo(root, node)) is node, for every node, exactly
  // when no key above the node is hidden.
  lemma PointerRoundTrip(root: Json, loc: seq<nat>, caseSensitive: bool)
    requires ValidLocation(root, loc) && SmallArrays(root)
    ensures FindPointer(root, [], loc).Some?
    ensures Locate(root, FindPointer(root, [], loc).value, caseSensitive) == Some(loc) <==> FirstAlong(root, loc, caseSensitive)
  {
    assert [] + loc == loc;
    FindPointerIs(root, [], loc);
    LocateTokens(root, loc, caseSensitive);
  }

  // ---------- Escaping, as in section 4 of RFC 6901 ----------

  // Every tilde in front of this digit, with the digit, replaced.
  function Replaced(s: string, digit: char, into: char): string {
    if |s| < 2 then s
    else if s[0] as int == 0x7E && s[1] == digit then [into] + Replaced(s[2..], digit, into)
    else [s[0]] + Replaced(s[1..], digit, into)
  }

  // First ~1 for a slash, and then ~0 for a tilde.
  function Unescaped(token: string): string {
    Replaced(Replaced(token, '1', 0x2F as char), '0', 0x7E as char)
  }

  lemma ReplacedPasses(c: char, rest: string, digit: char, into: char)
    requires c as int != 0x7E
    ensures Replaced([c] + rest, digit, into) == [c] + Replaced(rest, digit, into)
  {
    assert ([c] + rest)[1..] == rest;
  }

  // With its tildes still escaped.
  function HalfEscaped(key: string): string {
    if key == "" then "" else (if key[0] == '~' then "~0" else [key[0]]) + HalfEscaped(key[1..])
  }

  lemma {:induction false} FirstPass(key: string)
    ensures Replaced(Encode(key), '1', '/') == HalfEscaped(key)
  {
    if key != "" {
      var rest := Encode(key[1..]);
      FirstPass(key[1..]);
      if key[0] == '/' {
        assert ("~1" + rest)[2..] == rest;
      } else if key[0] == '~' {
        assert ("~0" + rest)[1..] == ['0'] + rest;
        ReplacedPasses('0', rest, '1', '/');
        assert "~0" + HalfEscaped(key[1..]) == ['~'] + (['0'] + HalfEscaped(key[1..]));
      } else {
        ReplacedPasses(key[0], rest, '1', '/');
      }
    }
  }

  lemma {:induction false} SecondPass(key: string)
    ensures Replaced(HalfEscaped(key), '0', '~') == key
  {
    if key != "" {
      var rest := HalfEscaped(key[1..]);
      SecondPass(key[1..]);
      assert key == [key[0]] + key[1..];
      if key[0] == '~' {
        assert ("~0" + rest)[2..] == rest;
      } else {
        ReplacedPasses(key[0], rest, '0', '~');
      }
    }
  }

  // An encoded key is unescaped to that key.
  lemma EncodedUnescapes(key: string)
    ensures Unescaped(Encode(key)) == key
  {
    FirstPass(key);
    SecondPass(key);
  }
}
