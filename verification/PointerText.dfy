// The loops of the path-text code, each against its function, and what the in-place
// unescaping really does.
module PointerText {
  import opened CStrings
  import opened Json
  import opened Pointer
  import opened Seqs

  // compare_pointers()
  method ComparePointers(name: string, pointer: string, caseSensitive: bool) returns (same: bool)
    ensures same == MatchToken(name, pointer, caseSensitive)
  {
    var n, p := 0, 0;
    while n < |name| && p < |pointer| && pointer[p] != '/'
      invariant 0 <= n <= |name| && 0 <= p <= |pointer|
      invariant MatchToken(name, pointer, caseSensitive) == MatchToken(name[n..], pointer[p..], caseSensitive)
      decreases |name| - n
    {
      ghost var a, b := name[n..], pointer[p..];
      assert a[1..] == name[n + 1..] && b[1..] == pointer[p + 1..];
      if pointer[p] == '~' {
        if p + 1 == |pointer|
           || ((pointer[p + 1] != '0' || name[n] != '~') && (pointer[p + 1] != '1' || name[n] != '/')) {
          return false;
        }
        assert b[2..] == pointer[p + 2..];
        p := p + 1;
      } else if Fold(name[n], caseSensitive) != Fold(pointer[p], caseSensitive) {
        return false;
      }
      n, p := n + 1, p + 1;
    }
    return (p < |pointer| && pointer[p] != '/') == (n < |name|);
  }

  // decode_array_index_from_pointer(), with the wrap-around of size_t at every digit
  method DecodeArrayIndex(pointer: string) returns (index: Option<nat>)
    ensures index == DecodeIndex(pointer)
  {
    if |pointer| > 1 && pointer[0] == '0' && pointer[1] != '/' {
      return None;
    }
    var parsed, position := 0, 0;
    ghost var digits := DigitPrefix(pointer);
    DigitPrefixIs(pointer);
    Whole(digits);
    while position < |pointer| && IsDigit(pointer[position])
      invariant 0 <= position <= |digits|
      invariant AllDigits(digits[..position]) && parsed == DecimalValue(digits[..position]) % SIZE_MAX1
    {
      DigitStep(digits, position);
      WrapStep(DecimalValue(digits[..position]), DigitValue(pointer[position]));
      parsed := (10 * parsed + DigitValue(pointer[position])) % SIZE_MAX1;
      position := position + 1;
    }
    if position < |pointer| && pointer[position] != '/' {
      return None;
    }
    return Some(parsed);
  }

  ghost predicate AllDigits(s: string) {
    forall c <- s :: IsDigit(c)
  }

  lemma {:induction false} DigitPrefixIs(p: string)
    ensures var n := |DigitPrefix(p)|;
      && n <= |p| && (forall i :: 0 <= i < n ==> IsDigit(p[i]) && DigitPrefix(p)[i] == p[i])
      && (n < |p| ==> !IsDigit(p[n]))
  {
    if p != "" && IsDigit(p[0]) {
      DigitPrefixIs(p[1..]);
      forall i | 0 <= i < |DigitPrefix(p)| ensures IsDigit(p[i]) && DigitPrefix(p)[i] == p[i] {
        assert i > 0 ==> p[i] == p[1..][i - 1];
      }
    }
  }

  lemma DigitStep(d: string, i: nat)
    requires i < |d| && AllDigits(d)
    ensures AllDigits(d[..i]) && AllDigits(d[..i + 1])
    ensures DecimalValue(d[..i + 1]) == 10 * DecimalValue(d[..i]) + DigitValue(d[i])
  {
    Next(d, i);
    Parts(d[..i], [d[i]]);
    assert forall c <- d[..i + 1] :: c in d;
    assert forall c <- d[..i] :: c in d;
  }

  lemma WrapStep(n: nat, d: nat)
    ensures (10 * (n % SIZE_MAX1) + d) % SIZE_MAX1 == (10 * n + d) % SIZE_MAX1
  {
    assert n == SIZE_MAX1 * (n / SIZE_MAX1) + n % SIZE_MAX1;
    assert 10 * n + d == SIZE_MAX1 * (10 * (n / SIZE_MAX1)) + (10 * (n % SIZE_MAX1) + d);
  }

  // get_item_from_pointer(): the loop over the tokens of the path.
  method GetItemFromPointer(v: Json, pointer: string, caseSensitive: bool) returns (loc: Option<seq<nat>>)
    ensures loc == Locate(v, pointer, caseSensitive)
    ensures loc.Some? ==> ValidLocation(v, loc.value)
  {
    var current, p := v, 0;
    var path: seq<nat> := [];
    assert pointer[0..] == pointer;
    BelowNothing(Locate(v, pointer, caseSensitive));
    while p < |pointer| && pointer[p] == '/'
      invariant 0 <= p <= |pointer|
      invariant ValidLocation(v, path) && At(v, path) == current
      invariant Locate(v, pointer, caseSensitive) == Below(path, Locate(current, pointer[p..], caseSensitive))
      decreases |pointer| - p
    {
      Next(pointer, p);
      p := p + 1;
      var i := FindChild(current, pointer[p..], caseSensitive);
      if i >= ChildCount(current) {
        return None;
      }
      p := SkipPathToken(pointer, p);
      ExtendLocation(v, path, i);
      BelowTwice(path, i, Locate(ChildAt(current, i), pointer[p..], caseSensitive));
      current, path := ChildAt(current, i), path + [i];
    }
    assert path + [] == path;
    return Some(path);
  }

  // The branches on the type of the element: a place past the children when there is none.
  method FindChild(v: Json, pointer: string, caseSensitive: bool) returns (i: nat)
    ensures i == ChildFor(v, pointer, caseSensitive)
  {
    match v {
      case Array(es) =>
        var index := DecodeArrayIndex(pointer);
        return if index == None then |es| else index.value;
      case Object(ms) =>
        i := FindMember(ms, pointer, caseSensitive);
      case _ =>
        return 0;
    }
  }

  // The inner loop of get_item_from_pointer(): on to the next path token or the end.
  method SkipPathToken(pointer: string, start: nat) returns (p: nat)
    requires start <= |pointer|
    ensures start <= p <= |pointer| && pointer[p..] == SkipToken(pointer[start..])
  {
    p := start;
    while p < |pointer| && pointer[p] != '/'
      invariant start <= p <= |pointer| && SkipToken(pointer[start..]) == SkipToken(pointer[p..])
    {
      assert pointer[p..][1..] == pointer[p + 1..];
      p := p + 1;
    }
  }

  lemma BelowNothing(loc: Option<seq<nat>>)
    ensures Below([], loc) == loc
  {
    if loc.Some? {
      assert [] + loc.value == loc.value;
    }
  }

  lemma BelowTwice(path: seq<nat>, i: nat, loc: Option<seq<nat>>)
    ensures Below(path, Below([i], loc)) == Below(path + [i], loc)
  {
    if loc.Some? {
      assert path + ([i] + loc.value) == (path + [i]) + loc.value;
    }
  }

  lemma {:induction false} ExtendLocation(v: Json, path: seq<nat>, i: nat)
    requires ValidLocation(v, path) && i < ChildCount(At(v, path))
    ensures ValidLocation(v, path + [i]) && At(v, path + [i]) == ChildAt(At(v, path), i)
    decreases |path|
  {
    if path == [] {
      assert (path + [i])[1..] == [];
    } else {
      ExtendLocation(ChildAt(v, path[0]), path[1..], i);
      assert (path + [i])[1..] == path[1..] + [i];
    }
  }

  method FindMember(ms: seq<Member>, token: string, caseSensitive: bool) returns (i: nat)
    ensures i == FindToken(ms, token, caseSensitive)
  {
    i := 0;
    while i < |ms|
      invariant i <= |ms| && FindToken(ms, token, caseSensitive) == i + FindToken(ms[i..], token, caseSensitive)
    {
      var same := ComparePointers(ms[i].key, token, caseSensitive);
      if same {
        return;
      }
      assert ms[i..][1..] == ms[i + 1..];
      i := i + 1;
    }
  }

  // cJSONUtils_FindPointerFromObjectTo()
  method FindPointerFromObjectTo(v: Json, here: seq<nat>, target: seq<nat>) returns (path: Option<string>)
    ensures path == FindPointer(v, here, target)
    decreases v
  {
    if here == target {
      return Some("");
    }
    var i := 0;
    while i < ChildCount(v)
      invariant i <= ChildCount(v) && FindPointer(v, here, target) == FindBelow(v, i, here, target)
    {
      var rest := FindPointerFromObjectTo(ChildAt(v, i), here + [i], target);
      if rest.Some? {
        if v.Array? {
          if i > ULONG_MAX {
            return None;
          }
          return Some("/" + Decimal(i) + rest.value);
        }
        return Some("/" + Encode(v.members[i].key) + rest.value);
      }
      i := i + 1;
    }
    return None;
  }

  // pointer_encoded_length()
  method PointerEncodedLength(source: string) returns (length: nat)
    ensures length == |Encode(source)|
  {
    length := 0;
    for i := 0 to |source|
      invariant length + |Encode(source[i..])| == |Encode(source)|
    {
      assert source[i..][1..] == source[i + 1..];
      if source[i] == '~' || source[i] == '/' {
        length := length + 1;
      }
      length := length + 1;
    }
  }

  // encode_string_as_pointer(): fills exactly the bytes that the length above reserves.
  method EncodeStringAsPointer(destination: array<char>, start: nat, source: string)
    requires start + |Encode(source)| < destination.Length
    modifies destination
    ensures destination[..start + |Encode(source)|] == old(destination[..start]) + Encode(source)
    ensures destination[start + |Encode(source)|] == '\0'
    ensures destination[start + |Encode(source)| + 1..] == old(destination[start + |Encode(source)| + 1..])
  {
    var d := start;
    ghost var end := start + |Encode(source)|;
    ghost var head, rest := destination[..start], destination[end + 1..];
    assert source[0..] == source;
    for i := 0 to |source|
      invariant start <= d && d + |Encode(source[i..])| == end
      invariant destination[..d] + Encode(source[i..]) == head + Encode(source)
      invariant destination[end + 1..] == rest
    {
      ghost var written, c := destination[..d], EncodeChar(source[i]);
      Next(source, i);
      Assoc(written, c, Encode(source[i + 1..]));
      if source[i] == '/' {
        destination[d] := '~';
        destination[d + 1] := '1';
        d := d + 1;
      } else if source[i] == '~' {
        destination[d] := '~';
        destination[d + 1] := '0';
        d := d + 1;
      } else {
        destination[d] := source[i];
      }
      d := d + 1;
      assert destination[..d] == written + c;
    }
    destination[d] := '\0';
  }

  // ---------- decode_pointer_inplace() ----------

  // The buffer after the loop, from read position src and write position dst on. Ordinary
  // characters are not moved, and an escaped '/' is written one place too far.
  function DecodeFrom(b: seq<char>, src: nat, dst: nat): seq<char>
    requires dst <= src < |b| && b[|b| - 1] == '\0'
    decreases |b| - src
  {
    if b[src] == '\0' then b[dst := '\0']
    else if b[src] == '~' then
      if b[src + 1] == '0' then DecodeFrom(b[dst := '~'], src + 2, dst + 1)
      else if b[src + 1] == '1' then DecodeFrom(b[dst + 1 := '/'], src + 2, dst + 1)
      else b
    else DecodeFrom(b, src + 1, dst + 1)
  }

  method DecodePointerInPlace(buffer: array<char>)
    requires buffer.Length > 0 && buffer[buffer.Length - 1] == '\0'
    modifies buffer
    ensures buffer[..] == DecodeFrom(old(buffer[..]), 0, 0)
  {
    var src, dst := 0, 0;
    while buffer[src] != '\0'
      invariant 0 <= dst <= src < buffer.Length && buffer[buffer.Length - 1] == '\0'
      invariant DecodeFrom(buffer[..], src, dst) == DecodeFrom(old(buffer[..]), 0, 0)
      decreases buffer.Length - src
    {
      ghost var b := buffer[..];
      if buffer[src] == '~' {
        if buffer[src + 1] == '0' {
          buffer[dst] := '~';
          assert buffer[..] == b[dst := '~'];
        } else if buffer[src + 1] == '1' {
          buffer[dst + 1] := '/';
          assert buffer[..] == b[dst + 1 := '/'];
        } else {
          return;
        }
        src := src + 1;
      }
      src, dst := src + 1, dst + 1;
    }
    ghost var b := buffer[..];
    buffer[dst] := '\0';
    assert buffer[..] == b[dst := '\0'];
  }

  // The token text after decode_pointer_inplace().
  function Decoded(token: string): string {
    CString(DecodeFrom(token + "\0", 0, 0))
  }

  // The keys that come back unchanged from their encoded form: every character is a '~' or
  // is found at its own place in the encoded text.
  predicate SurvivesPointer(key: string) {
    forall i :: 0 <= i < |key| ==> key[i] == '~' || (i < |Encode(key)| && Encode(key)[i] == key[i])
  }

  lemma {:induction false} EncodeHasNoSlash(key: string)
    ensures forall i :: 0 <= i < |Encode(key)| ==> Encode(key)[i] != '/' && (NulFree(key) ==> Encode(key)[i] != '\0')
    ensures |Encode(key)| >= |key|
  {
    if key != "" {
      EncodeHasNoSlash(key[1..]);
    }
  }

  // What the run over an encoded key leaves in the buffer, from the key's position j on.
  ghost predicate LeftBehind(key: string, j: nat, b: seq<char>, r: seq<char>) {
    && |r| == |b| > |key| >= j && r[|key|] == '\0'
    && (forall q :: 0 <= q < j ==> r[q] == b[q])
    && (forall q :: j <= q < |key| ==> r[q] == LeftAt(key, j, b, q))
  }

  ghost function LeftAt(key: string, j: nat, b: seq<char>, q: nat): char
    requires q < |key| < |b|
  {
    if key[q] == '~' then '~' else if q > j && key[q - 1] == '/' then '/' else b[q]
  }

  lemma LeftBehindStep(key: string, j: nat, b: seq<char>, next: seq<char>, r: seq<char>)
    requires j < |key| < |b| == |next| && LeftBehind(key, j + 1, next, r)
    requires next == if key[j] == '~' then b[j := '~'] else if key[j] == '/' then b[j + 1 := '/'] else b
    ensures LeftBehind(key, j, b, r)
  {
    forall q | j <= q < |key| ensures r[q] == LeftAt(key, j, b, q) {
      if q > j {
        assert r[q] == LeftAt(key, j + 1, next, q);
      } else {
        assert r[q] == next[q];
      }
    }
    forall q | 0 <= q < j ensures r[q] == b[q] {
      assert r[q] == next[q];
    }
  }

  lemma {:induction false} DecodeRun(key: string, j: nat, b: seq<char>, src: nat)
    requires j <= |key| && j <= src && NulFree(key)
    requires src <= |b| && b[src..] == Encode(key[j..]) + "\0"
    ensures b[|b| - 1] == '\0' && src < |b|
    ensures LeftBehind(key, j, b, DecodeFrom(b, src, j))
    decreases |key| - j
  {
    var rest := b[src..];
    EncodeHasNoSlash(key[j..]);
    assert b[src] == rest[0] && b[|b| - 1] == rest[|rest| - 1];
    if j < |key| {
      var next := if key[j] == '~' then b[j := '~'] else if key[j] == '/' then b[j + 1 := '/'] else b;
      var more := if key[j] == '~' || key[j] == '/' then 2 else 1;
      DecodeTurn(key, j, b, src, next, more);
      DecodeRun(key, j + 1, next, src + more);
      LeftBehindStep(key, j, b, next, DecodeFrom(b, src, j));
    }
  }

  lemma DecodeTurn(key: string, j: nat, b: seq<char>, src: nat, next: seq<char>, more: nat)
    requires j < |key| && j <= src && NulFree(key)
    requires src < |b| && b[src..] == Encode(key[j..]) + "\0"
    requires next == if key[j] == '~' then b[j := '~'] else if key[j] == '/' && j + 1 < |b| then b[j + 1 := '/'] else b
    requires more == if key[j] == '~' || key[j] == '/' then 2 else 1
    ensures src + more <= |b| == |next| && next[src + more..] == Encode(key[j + 1..]) + "\0"
    ensures DecodeFrom(b, src, j) == DecodeFrom(next, src + more, j + 1)
    ensures key[j] == '/' ==> j + 1 < |b|
  {
    var rest := b[src..];
    Next(key, j);
    EncodeFront(key[j..], "\0");
    DropDrop(b, src, more);
    assert b[src] == rest[0] && (more == 2 ==> b[src + 1] == rest[1]);
    assert next[src + more..] == b[src + more..];
  }

  // Unescaping in place gives an encoded key back exactly when the key survives: a '/' in
  // it never does, a '~' only in the company of the right characters.
  lemma DecodeUndoesEncode(key: string)
    requires NulFree(key)
    ensures Decoded(Encode(key)) == key <==> SurvivesPointer(key)
  {
    var b := Encode(key) + "\0";
    EncodeHasNoSlash(key);
    assert key[0..] == key && b[0..] == b;
    DecodeRun(key, 0, b, 0);
    var r := DecodeFrom(b, 0, 0);
    CStringIs(r, key);
    if r[..|key|] == key {
      NoSlashFrom(key, b, r);
      forall i | 0 <= i < |key| ensures key[i] == '~' || Encode(key)[i] == key[i] {
        assert key[i] == r[..|key|][i] == r[i] == LeftAt(key, 0, b, i);
      }
    }
    if SurvivesPointer(key) {
      forall i | 0 <= i < |key| ensures r[i] == key[i] {
        assert r[i] == LeftAt(key, 0, b, i);
        assert i > 0 ==> Encode(key)[i - 1] != '/';
      }
      assert r[..|key|] == key;
    }
  }

  lemma NoSlashFrom(key: string, b: seq<char>, r: seq<char>)
    requires LeftBehind(key, 0, b, r) && r[..|key|] == key && b == Encode(key) + "\0"
    ensures forall q :: 0 <= q < |key| ==> key[q] != '/'
  {
    EncodeHasNoSlash(key);
    for i := 0 to |key|
      invariant forall q :: 0 <= q < i ==> key[q] != '/'
    {
      assert key[i] == r[..|key|][i] == r[i] == LeftAt(key, 0, b, i);
      assert b[i] == Encode(key)[i];
    }
  }

  // Keys without '~' and '/' survive; the lone slash does not.
  lemma PlainSurvives(key: string)
    requires forall c <- key :: c != '~' && c != '/'
    ensures SurvivesPointer(key) && Encode(key) == key
  {
    EncodeDigits(key);
  }

  lemma SlashDoesNotSurvive()
    ensures !SurvivesPointer("a/b") && !SurvivesPointer("~x") && SurvivesPointer("x~")
  {
    assert Encode("a/b")[1] == '~';
    assert Encode("~x")[1] == '0';
    assert Encode("x~") == "x~0";
  }
}
