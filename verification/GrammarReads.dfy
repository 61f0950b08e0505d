// Every well-written value is read, whatever stands around it.
module GrammarReads {
  import opened CStrings
  import opened Json
  import opened JsonGrammar
  import opened ParseText
  import opened Seqs
  import opened StrictString
  import opened StringCode
  import opened Unicode

  // ---------- Strings at any place ----------

  // A piece of a text is read alone as it is read within.
  lemma {:induction false} EndWithin(text: string, p: nat, tok: string, i: nat)
    requires AtWord(text, p, tok)
    ensures StringEnd(tok, i).Some? ==> StringEnd(text, p + i) == Some(p + StringEnd(tok, i).value)
    ensures var e := StringEnd(text, p + i); e.Some? && e.value < p + |tok| ==> StringEnd(tok, i).Some?
    decreases if i < |tok| then |tok| - i else 0
  {
    if i < |tok| {
      WordChar(text, p, tok, i);
      if tok[i] == '\\' {
        EndWithin(text, p, tok, i + 2);
      } else if tok[i] != '"' {
        EndWithin(text, p, tok, i + 1);
      }
    }
  }

  lemma LiteralWithin(text: string, p: nat, tok: string, i: nat, end: nat)
    requires AtWord(text, p, tok) && end <= |tok|
    ensures var l := Utf16Literal(tok, i, end);
      Utf16Literal(text, p + i, p + end) == if l.Some? then Some(Parsed(l.value.value, p + l.value.next)) else None
  {
    if i + 6 <= end {
      SameSlice(text, p, tok, i + 2, i + 6);
    }
    if i + 12 <= end {
      SameSlice(text, p, tok, i + 8, i + 12);
      WordChar(text, p, tok, i + 6);
      WordChar(text, p, tok, i + 7);
    }
  }

  lemma SameSlice(text: string, p: nat, tok: string, i: nat, j: nat)
    requires AtWord(text, p, tok) && i <= j <= |tok|
    ensures text[p + i..p + j] == tok[i..j]
  {
    var a, b := text[p + i..p + j], tok[i..j];
    forall k | 0 <= k < |b| ensures a[k] == b[k] {
      WordChar(text, p, tok, i + k);
    }
  }

  lemma {:induction false} DecodeWithin(text: string, p: nat, tok: string, i: nat, end: nat)
    requires AtWord(text, p, tok) && end < |tok|
    ensures DecodeString(text, p + i, p + end) == DecodeString(tok, i, end)
    decreases if i < end then end - i else 0
  {
    hide Utf16Literal;
    if i < end {
      WordChar(text, p, tok, i);
      WordChar(text, p, tok, i + 1);
      LiteralWithin(text, p, tok, i, end);
      if tok[i] != '\\' {
        DecodeWithin(text, p, tok, i + 1, end);
      } else if IsSimpleEscape(tok[i + 1]) {
        DecodeWithin(text, p, tok, i + 2, end);
      } else if Utf16Literal(tok, i, end).Some? {
        DecodeWithin(text, p, tok, Utf16Literal(tok, i, end).value.next, end);
      }
    }
  }

  lemma TokenReads(text: string, p: nat, token: string, content: string)
    requires GoodToken(token, content, false) && AtWord(text, p, token)
    ensures At(text, p, '"') && ParseString(text, p) == Some(Parsed(content, p + |token|))
  {
    WordChar(text, p, token, 0);
    EndWithin(text, p, token, 1);
    var end := StringEnd(token, 1).value;
    DecodeWithin(text, p, token, 1, end);
  }

  lemma TokenOf(text: string, p: nat)
    requires ParseString(text, p).Some?
    ensures var r := ParseString(text, p).value; GoodToken(text[p..r.next], r.value, false)
  {
    var r := ParseString(text, p).value;
    var token := text[p..r.next];
    EndWithin(text, p, token, 1);
    DecodeWithin(text, p, token, 1, StringEnd(token, 1).value);
  }

  // What the RFC reads, without a NUL, the code reads.
  lemma StrictToken(token: string, content: string)
    requires GoodToken(token, content, true)
    ensures GoodToken(token, content, false)
  {
    RfcIsRead(token, 1);
    StringsAgree(token, 1, StringEnd(token, 1).value);
    CStringNulFree(content);
  }

  lemma {:induction false} StrictIsTaken(s: Syntax)
    requires Good(s, true)
    ensures Good(s, false)
  {
    match s {
      case Quoted(token, content) => StrictToken(token, content);
      case Listed(_, items) =>
        forall i | 0 <= i < |items| ensures GoodItem(items[i], false) && Good(items[i].value, false) {
          StrictIsTaken(items[i].value);
        }
      case Keyed(_, fields) =>
        forall i | 0 <= i < |fields| ensures GoodField(fields[i], false) && Good(fields[i].value, false) {
          StrictToken(fields[i].token, fields[i].key);
          StrictIsTaken(fields[i].value);
        }
      case _ =>
    }
  }

  // ---------- Space and words ----------

  // Only space up to there.
  ghost predicate SpaceBetween(text: string, p: nat, q: nat) {
    p <= q <= |text| && forall i :: p <= i < q ==> IsSpace(text[i])
  }

  lemma {:induction false} SkipTo(text: string, p: nat, q: nat)
    requires SpaceBetween(text, p, q) && q < |text| && !IsSpace(text[q])
    ensures p <= |text| && SkipWhitespace(text, p) == q
    decreases q - p
  {
    if p < q {
      SkipTo(text, p + 1, q);
    }
  }

  lemma BlanksAt(text: string, p: nat, s: string, from: nat)
    requires Blanks(s, false) && AtWord(text, p, s) && p <= from <= p + |s|
    ensures SpaceBetween(text, from, p + |s|)
  {
    forall i | from <= i < p + |s| ensures IsSpace(text[i]) {
      WordChar(text, p, s, i - p);
    }
  }

  lemma FirstOfWord(text: string, p: nat, word: string)
    requires p < |text| && word != ""
    ensures AtWord(text, p, word) ==> text[p] == word[0]
  {
    if AtWord(text, p, word) {
      WordChar(text, p, word, 0);
    }
  }

  // A value begins with none of the characters that are skipped, nor with one that closes or separates.
  predicate Begins(c: char) {
    c > ' ' && c != ']' && c != '}' && c != ',' && c != ':'
  }

  predicate BeginsLike(s: Syntax, c: char) {
    match s
    case NullWord => c == 'n'
    case TrueWord => c == 't'
    case FalseWord => c == 'f'
    case Digits(_, _, _) => c == '-' || IsDigit(c)
    case Quoted(_, _) => c == '"'
    case Listed(_, _) => c == '['
    case Keyed(_, _) => c == '{'
  }

  lemma WrittenBegins(s: Syntax)
    requires Good(s, false)
    ensures Written(s) != "" && Begins(Written(s)[0]) && BeginsLike(s, Written(s)[0])
  {
    if s.Digits? {
      assert s.digits[0] in s.digits;
    }
  }

  // ---------- Numbers ----------

  // A number ends here: no digit, no fraction and no exponent follows.
  predicate Stops(text: string, p: nat) {
    (p < |text| ==> !IsDigit(text[p])) && !GoesOn(text, p)
  }

  lemma {:induction false} DigitsRead(text: string, p: nat, d: string)
    requires AtWord(text, p, d) && (forall c <- d :: IsDigit(c)) && Stops(text, p + |d|)
    ensures DigitsEnd(text, p) == p + |d|
    decreases |d|
  {
    hide AtWord;
    if d != "" {
      WordChar(text, p, d, 0);
      assert d[0] in d;
      Next(d, 0);
      Whole(d);
      WordSplit(text, p, [d[0]], d[1..]);
      DigitsRead(text, p + 1, d[1..]);
    } else {
      WordIs(text, p, d);
    }
  }

  lemma WordIs(text: string, p: nat, s: string)
    requires AtWord(text, p, s)
    ensures p + |s| <= |text| && text[p..p + |s|] == s
  {
  }

  lemma NumberIsRead(text: string, p: nat, s: Syntax)
    requires s.Digits? && Good(s, false) && AtWord(text, p, Written(s)) && Stops(text, p + |Written(s)|)
    ensures p <= |text| && ParseNumber(text, p) == Some(Parsed(Number(s.n), p + |Written(s)|))
  {
    hide AtWord, Stops, GoesOn;
    var sign := if s.minus then "-" else "";
    WordSplit(text, p, sign, s.digits);
    WordChar(text, p, Written(s), 0);
    assert s.digits[0] in s.digits;
    WordIs(text, p + |sign|, s.digits);
    DigitsRead(text, p + |sign|, s.digits);
    StopsHere(text, p + |Written(s)|);
  }

  lemma StopsHere(text: string, p: nat)
    requires Stops(text, p)
    ensures !GoesOn(text, p)
  {
  }

  // ---------- What is well written is read ----------

  ghost predicate Fits(s: Syntax, depth: nat) {
    depth <= 1000 && Nested(s, 1000 - depth)
  }

  function Result<T>(fits: bool, value: T, next: nat): Option<Parsed<T>> {
    if fits then Some(Parsed(value, next)) else None
  }

  // Any well-written value is read to its end, whatever stands around it, unless it is nested too deeply.
  lemma {:induction false} WrittenIsRead(text: string, p: nat, s: Syntax, depth: nat)
    requires Good(s, false) && depth <= NESTING_LIMIT && AtWord(text, p, Written(s))
    requires s.Digits? ==> Stops(text, p + |Written(s)|)
    ensures p < |text| && ParseValue(text, p, depth) == Result(Fits(s, depth), Tree(s), p + |Written(s)|)
    decreases s, 2
  {
    hide AtWord, Stops, ParseNumber, ParseString, ParseArray, ParseObject, Good, Result, Tree, Nested;
    WrittenBegins(s);
    WordChar(text, p, Written(s), 0);
    FirstOfWord(text, p, "null");
    FirstOfWord(text, p, "false");
    FirstOfWord(text, p, "true");
    match s {
      case Digits(_, _, _) =>
        NumberIsRead(text, p, s);
        SingleFits(s, depth);
      case Quoted(token, content) =>
        TokenIs(s);
        TokenReads(text, p, token, content);
        SingleFits(s, depth);
      case Listed(_, _) => ListIsRead(text, p, s, depth);
      case Keyed(_, _) => ObjectIsRead(text, p, s, depth);
      case _ => SingleFits(s, depth);
    }
  }

  lemma SingleFits(s: Syntax, depth: nat)
    requires !s.Listed? && !s.Keyed? && depth <= NESTING_LIMIT
    ensures Fits(s, depth) && forall value: Json, next: nat :: Result(true, value, next) == Some(Parsed(value, next))
    ensures match s
      case NullWord => Tree(s) == Null
      case TrueWord => Tree(s) == True
      case FalseWord => Tree(s) == False
      case Digits(_, _, n) => Tree(s) == Number(n)
      case Quoted(_, content) => Tree(s) == String(content)
      case _ => true
  {
  }

  lemma TokenIs(s: Syntax)
    requires s.Quoted? && Good(s, false)
    ensures GoodToken(s.token, s.content, false)
  {
  }

  lemma ListIs(s: Syntax)
    requires s.Listed? && Good(s, false)
    ensures Blanks(s.inner, false) && (s.items != [] ==> s.inner == "")
    ensures forall i :: 0 <= i < |s.items| ==> GoodItem(s.items[i], false) && Good(s.items[i].value, false) && s.items[i].value < s
  {
  }

  lemma ObjectIs(s: Syntax)
    requires s.Keyed? && Good(s, false)
    ensures Blanks(s.inner, false) && (s.fields != [] ==> s.inner == "")
    ensures forall i :: 0 <= i < |s.fields| ==> GoodField(s.fields[i], false) && Good(s.fields[i].value, false) && s.fields[i].value < s
  {
  }

  ghost predicate ItemsFit(items: seq<Item>, depth: nat) {
    forall i :: 0 <= i < |items| ==> Fits(items[i].value, depth)
  }

  ghost predicate FieldsFit(fields: seq<Field>, depth: nat) {
    forall i :: 0 <= i < |fields| ==> Fits(fields[i].value, depth)
  }

  lemma ListedParts(text: string, p: nat, s: Syntax, depth: nat)
    requires s.Listed? && AtWord(text, p, Written(s)) && depth <= NESTING_LIMIT
    ensures |Written(s)| == 2 + |s.inner| + |ItemsWritten(s, s.items)|
    ensures AtWord(text, p + 1, s.inner) && AtWord(text, p + 1 + |s.inner|, ItemsWritten(s, s.items) + "]")
    ensures Fits(s, depth) <==> depth < 1000 && ItemsFit(s.items, depth + 1)
    ensures Tree(s) == Array(Trees(s.items)) && (s.items == [] ==> Tree(s) == Array([]) && ItemsFit(s.items, depth + 1))
  {
    hide AtWord, ItemsWritten;
    var inner, body := s.inner, ItemsWritten(s, s.items);
    Assoc("[" + inner, body, "]");
    WordSplit(text, p, "[" + inner, body + "]");
    WordSplit(text, p, "[", inner);
    assert Tree(s).elems == Trees(s.items);
  }

  lemma {:induction false} ListIsRead(text: string, p: nat, s: Syntax, depth: nat)
    requires s.Listed? && Good(s, false) && depth <= NESTING_LIMIT && AtWord(text, p, Written(s)) && At(text, p, '[')
    ensures ParseArray(text, p, depth) == Result(Fits(s, depth), Tree(s), p + |Written(s)|)
    decreases s, 1
  {
    hide AtWord, ParseElements, SkipWhitespace, Good, GoodItem, Blanks, ItemsWritten, SpaceBetween,
      Written, Fits, Tree, ItemsFit, Trees;
    ListIs(s);
    ListedParts(text, p, s, depth);
    var inner, items, body := s.inner, s.items, ItemsWritten(s, s.items);
    var start := p + 1 + |inner|;
    if items == [] {
      NothingWritten(s);
      assert body + "]" == "]";
      BlanksAt(text, p + 1, inner, p + 1);
      WordChar(text, start, "]", 0);
      SkipTo(text, p + 1, start);
    } else {
      FirstItem(text, start, s, items);
      var m := start + |items[0].before|;
      SkipTo(text, p + 1, m);
      if depth < NESTING_LIMIT {
        ItemsAreRead(text, start, m, s, items, depth + 1);
      }
    }
  }

  // The pieces of an item or a field, and what comes behind it.
  lemma PieceSplit(text: string, at: nat, front: string, v: string, after: string, more: bool, rest: string, close: char)
    requires more || rest == ""
    requires AtWord(text, at, front + v + after + (if more then "," else "") + rest + [close])
    ensures var m := at + |front|; var q := m + |v|; var e := q + |after|;
      && AtWord(text, at, front) && AtWord(text, m, v) && AtWord(text, q, after)
      && At(text, e, if more then ',' else close) && (more ==> AtWord(text, e + 1, rest + [close]))
  {
    hide AtWord;
    var sep, e := if more then "," else "", at + |front| + |v| + |after|;
    Assoc(front + v + after + sep, rest, [close]);
    WordSplit(text, at, front + v + after + sep, rest + [close]);
    WordSplit(text, at, front + v + after, sep);
    WordSplit(text, at, front + v, after);
    WordSplit(text, at, front, v);
    if more {
      WordChar(text, e, ",", 0);
    } else {
      assert rest + [close] == [close];
      WordChar(text, e, [close], 0);
    }
  }

  lemma ItemSplit(text: string, at: nat, whole: Syntax, items: seq<Item>)
    requires items != [] && forall i :: 0 <= i < |items| ==> items[i].value < whole
    requires AtWord(text, at, ItemsWritten(whole, items) + "]")
    ensures var x := items[0];
      var m := at + |x.before|; var q := m + |Written(x.value)|; var e := q + |x.after|;
      && AtWord(text, at, x.before) && AtWord(text, m, Written(x.value)) && AtWord(text, q, x.after)
      && At(text, e, if |items| > 1 then ',' else ']')
      && (|items| > 1 ==> AtWord(text, e + 1, ItemsWritten(whole, items[1..]) + "]"))
      && |ItemsWritten(whole, items)| == |x.before| + |Written(x.value)| + |x.after|
           + (if |items| > 1 then 1 + |ItemsWritten(whole, items[1..])| else 0)
  {
    hide AtWord, Written, KeyWritten, ItemsWritten;
    var x, rest := items[0], ItemsWritten(whole, items[1..]);
    ItemsStep(whole, items);
    if |items| == 1 {
      NothingWritten(whole);
      assert items[1..] == [];
    }
    PieceSplit(text, at, x.before, Written(x.value), x.after, |items| > 1, rest, ']');
  }

  lemma FirstItem(text: string, at: nat, whole: Syntax, items: seq<Item>)
    requires items != [] && (forall i :: 0 <= i < |items| ==> items[i].value < whole)
    requires GoodItem(items[0], false) && Good(items[0].value, false)
    requires AtWord(text, at, ItemsWritten(whole, items) + "]")
    ensures var m := at + |items[0].before|;
      SpaceBetween(text, at, m) && m < |text| && Begins(text[m]) && !IsSpace(text[m])
  {
    hide AtWord, Written, ItemsWritten, Good;
    ItemSplit(text, at, whole, items);
    BlanksAt(text, at, items[0].before, at);
    WrittenBegins(items[0].value);
    WordChar(text, at + |items[0].before|, Written(items[0].value), 0);
  }

  // Behind a value stands space or what separates or closes.
  lemma StopsAfter(text: string, q: nat, e: nat)
    requires SpaceBetween(text, q, e) && (At(text, e, ',') || At(text, e, ']') || At(text, e, '}'))
    ensures Stops(text, q)
  {
    if q < e {
      assert IsSpace(text[q]);
    }
  }

  lemma {:induction false} ItemsAreRead(text: string, at: nat, p: nat, whole: Syntax, items: seq<Item>, depth: nat)
    requires items != [] && depth <= NESTING_LIMIT
    requires forall i :: 0 <= i < |items| ==> GoodItem(items[i], false) && Good(items[i].value, false) && items[i].value < whole
    requires AtWord(text, at, ItemsWritten(whole, items) + "]") && at <= p <= at + |items[0].before|
    ensures p <= |text|
    ensures ParseElements(text, p, depth)
      == Result(ItemsFit(items, depth), Trees(items), at + |ItemsWritten(whole, items)| + 1)
    decreases whole, 0, |items|
  {
    hide AtWord, Written, ItemsWritten, Good, ParseElements, ParseValue, SkipWhitespace, Stops, Fits, SpaceBetween, Blanks, Tree;
    var x := items[0];
    var m := at + |x.before|;
    var q := m + |Written(x.value)|;
    var e := q + |x.after|;
    ItemSplit(text, at, whole, items);
    FirstItem(text, at, whole, items);
    BlanksAt(text, at, x.before, p);
    BlanksAt(text, q, x.after, q);
    StopsAfter(text, q, e);
    SkipTo(text, p, m);
    SkipTo(text, q, e);
    WrittenIsRead(text, m, x.value, depth);
    ElementsStep(text, p, depth);
    if |items| > 1 {
      ItemsAreRead(text, e + 1, e + 1, whole, items[1..], depth);
    }
    ItemsSplit(items, depth);
  }

  lemma ItemsSplit(items: seq<Item>, depth: nat)
    requires items != []
    ensures Trees(items) == [Tree(items[0].value)] + Trees(items[1..])
    ensures ItemsFit(items, depth) <==> Fits(items[0].value, depth) && ItemsFit(items[1..], depth)
    ensures |items| == 1 ==> items[1..] == [] && Trees(items) == [Tree(items[0].value)]
  {
    hide Fits;
    if Fits(items[0].value, depth) && ItemsFit(items[1..], depth) {
      forall i | 0 <= i < |items| ensures Fits(items[i].value, depth) {
        assert i > 0 ==> items[i] == items[1..][i - 1];
      }
    }
  }

  // ---------- Objects ----------

  lemma KeyedParts(text: string, p: nat, s: Syntax, depth: nat)
    requires s.Keyed? && AtWord(text, p, Written(s)) && depth <= NESTING_LIMIT
    ensures |Written(s)| == 2 + |s.inner| + |FieldsWritten(s, s.fields)|
    ensures AtWord(text, p + 1, s.inner) && AtWord(text, p + 1 + |s.inner|, FieldsWritten(s, s.fields) + "}")
    ensures Fits(s, depth) <==> depth < 1000 && FieldsFit(s.fields, depth + 1)
    ensures Tree(s) == Object(Members(s.fields)) && (s.fields == [] ==> Tree(s) == Object([]) && FieldsFit(s.fields, depth + 1))
  {
    hide AtWord, FieldsWritten;
    var inner, body := s.inner, FieldsWritten(s, s.fields);
    Assoc("{" + inner, body, "}");
    WordSplit(text, p, "{" + inner, body + "}");
    WordSplit(text, p, "{", inner);
    assert Tree(s).members == Members(s.fields);
  }

  lemma {:induction false} ObjectIsRead(text: string, p: nat, s: Syntax, depth: nat)
    requires s.Keyed? && Good(s, false) && depth <= NESTING_LIMIT && AtWord(text, p, Written(s)) && At(text, p, '{')
    ensures ParseObject(text, p, depth) == Result(Fits(s, depth), Tree(s), p + |Written(s)|)
    decreases s, 1
  {
    hide AtWord, ParseMembers, SkipWhitespace, Good, GoodField, Blanks, FieldsWritten, SpaceBetween,
      Written, Fits, Tree, FieldsFit, Members;
    ObjectIs(s);
    KeyedParts(text, p, s, depth);
    var inner, fields, body := s.inner, s.fields, FieldsWritten(s, s.fields);
    var start := p + 1 + |inner|;
    if fields == [] {
      NothingWritten(s);
      assert body + "}" == "}";
      BlanksAt(text, p + 1, inner, p + 1);
      WordChar(text, start, "}", 0);
      SkipTo(text, p + 1, start);
    } else {
      FirstField(text, start, s, fields);
      var m := start + |fields[0].before|;
      SkipTo(text, p + 1, m);
      if depth < NESTING_LIMIT {
        FieldsAreRead(text, start, m, s, fields, depth + 1);
      }
    }
  }

  // The pieces of a member, and what comes behind it.
  lemma FieldSplit(text: string, at: nat, whole: Syntax, fields: seq<Field>)
    requires fields != [] && forall i :: 0 <= i < |fields| ==> fields[i].value < whole
    requires AtWord(text, at, FieldsWritten(whole, fields) + "}")
    ensures var x := fields[0];
      var v := at + |KeyWritten(x)|; var q := v + |Written(x.value)|; var e := q + |x.after|;
      && AtWord(text, at, KeyWritten(x)) && AtWord(text, v, Written(x.value)) && AtWord(text, q, x.after)
      && At(text, e, if |fields| > 1 then ',' else '}')
      && (|fields| > 1 ==> AtWord(text, e + 1, FieldsWritten(whole, fields[1..]) + "}"))
      && |FieldsWritten(whole, fields)| == |KeyWritten(x)| + |Written(x.value)| + |x.after|
           + (if |fields| > 1 then 1 + |FieldsWritten(whole, fields[1..])| else 0)
  {
    hide AtWord, Written, KeyWritten, FieldsWritten;
    var x, rest := fields[0], FieldsWritten(whole, fields[1..]);
    FieldsStep(whole, fields);
    if |fields| == 1 {
      NothingWritten(whole);
      assert fields[1..] == [];
    }
    PieceSplit(text, at, KeyWritten(x), Written(x.value), x.after, |fields| > 1, rest, '}');
  }

  // The key, the colon and the blanks around them.
  lemma KeySplit(text: string, at: nat, x: Field)
    requires GoodField(x, false) && AtWord(text, at, KeyWritten(x))
    ensures var k := at + |x.before|; var l := k + |x.token|; var c := l + |x.left|; var v := c + 1 + |x.right|;
      && v == at + |KeyWritten(x)| && At(text, c, ':') && At(text, k, '"')
      && SpaceBetween(text, at, k) && SpaceBetween(text, l, c) && SpaceBetween(text, c + 1, v)
      && ParseString(text, k) == Some(Parsed(x.key, l))
  {
    hide AtWord, ParseString, GoodToken, Blanks, SpaceBetween;
    var k, l, c := at + |x.before|, at + |x.before| + |x.token|, at + |x.before| + |x.token| + |x.left|;
    WordSplit(text, at, x.before + x.token + x.left + ":", x.right);
    WordSplit(text, at, x.before + x.token + x.left, ":");
    WordSplit(text, at, x.before + x.token, x.left);
    WordSplit(text, at, x.before, x.token);
    WordChar(text, c, ":", 0);
    BlanksAt(text, at, x.before, at);
    BlanksAt(text, l, x.left, l);
    BlanksAt(text, c + 1, x.right, c + 1);
    TokenReads(text, k, x.token, x.key);
  }

  lemma FirstField(text: string, at: nat, whole: Syntax, fields: seq<Field>)
    requires fields != [] && (forall i :: 0 <= i < |fields| ==> fields[i].value < whole) && GoodField(fields[0], false)
    requires AtWord(text, at, FieldsWritten(whole, fields) + "}")
    ensures var m := at + |fields[0].before|; SpaceBetween(text, at, m) && At(text, m, '"')
  {
    hide AtWord, Written, FieldsWritten, KeyWritten;
    FieldSplit(text, at, whole, fields);
    KeySplit(text, at, fields[0]);
  }

  lemma {:induction false} FieldIsRead(text: string, at: nat, p: nat, x: Field, depth: nat)
    requires GoodField(x, false) && Good(x.value, false) && depth <= NESTING_LIMIT && at <= p <= at + |x.before|
    requires AtWord(text, at, KeyWritten(x)) && AtWord(text, at + |KeyWritten(x)|, Written(x.value))
    requires Stops(text, at + |KeyWritten(x)| + |Written(x.value)|)
    ensures p <= |text|
    ensures ParseMember(text, p, depth)
      == Result(Fits(x.value, depth), Member(x.key, Tree(x.value)), at + |KeyWritten(x)| + |Written(x.value)|)
    decreases x.value, 3
  {
    hide AtWord, Written, KeyWritten, Good, GoodField, ParseValue, ParseString, SkipWhitespace, Stops, Fits, SpaceBetween, Tree,
      Begins, BeginsLike;
    KeySplit(text, at, x);
    SpaceWithin(text, at, at + |x.before|, p);
    var k, l := at + |x.before|, at + |x.before| + |x.token|;
    var c, v := l + |x.left|, at + |KeyWritten(x)|;
    WrittenBegins(x.value);
    WordChar(text, v, Written(x.value), 0);
    assert !IsSpace(text[v]) by { BeginsIsNoSpace(text[v]); }
    SkipTo(text, p, k);
    SkipTo(text, l, c);
    SkipTo(text, c + 1, v);
    WrittenIsRead(text, v, x.value, depth);
    MemberRead(text, p, k, l, c, v, x, depth);
  }

  lemma BeginsIsNoSpace(c: char)
    requires Begins(c)
    ensures !IsSpace(c)
  {
  }

  // The steps of the member reader, put together.
  lemma MemberRead(text: string, p: nat, k: nat, l: nat, c: nat, v: nat, x: Field, depth: nat)
    requires p < |text| && k < |text| && l <= |text| && c < |text| && v < |text|
    requires SkipWhitespace(text, p) == k && ParseString(text, k) == Some(Parsed(x.key, l)) && l <= |text|
    requires SkipWhitespace(text, l) == c && At(text, c, ':') && SkipWhitespace(text, c + 1) == v
    ensures ParseMember(text, p, depth) == match ParseValue(text, v, depth)
      case None => None
      case Some(r) => Some(Parsed(Member(x.key, r.value), r.next))
  {
    hide ParseValue, ParseString, SkipSpaces;
    var key := ParseString(text, SkipWhitespace(text, p));
    assert key.value.next == l && key.value.value == x.key;
  }

  lemma SpaceWithin(text: string, p: nat, q: nat, from: nat)
    requires SpaceBetween(text, p, q) && p <= from <= q
    ensures SpaceBetween(text, from, q)
  {
  }

  lemma {:induction false} FieldsAreRead(text: string, at: nat, p: nat, whole: Syntax, fields: seq<Field>, depth: nat)
    requires fields != [] && depth <= NESTING_LIMIT
    requires forall i :: 0 <= i < |fields| ==> GoodField(fields[i], false) && Good(fields[i].value, false) && fields[i].value < whole
    requires AtWord(text, at, FieldsWritten(whole, fields) + "}") && at <= p <= at + |fields[0].before|
    ensures p <= |text|
    ensures ParseMembers(text, p, depth)
      == Result(FieldsFit(fields, depth), Members(fields), at + |FieldsWritten(whole, fields)| + 1)
    decreases whole, 0, |fields|
  {
    hide AtWord, Written, FieldsWritten, KeyWritten, Good, ParseMembers, ParseMember, SkipWhitespace, Stops, Fits, SpaceBetween,
      Blanks, Tree;
    var x := fields[0];
    var q := at + |KeyWritten(x)| + |Written(x.value)|;
    var e := q + |x.after|;
    FieldSplit(text, at, whole, fields);
    BlanksAt(text, q, x.after, q);
    StopsAfter(text, q, e);
    FieldIsRead(text, at, p, x, depth);
    SkipTo(text, q, e);
    MembersStep(text, p, depth);
    if |fields| > 1 {
      FieldsAreRead(text, e + 1, e + 1, whole, fields[1..], depth);
    }
    FieldsSplit(fields, depth);
  }

  lemma FieldsSplit(fields: seq<Field>, depth: nat)
    requires fields != []
    ensures Members(fields) == [Member(fields[0].key, Tree(fields[0].value))] + Members(fields[1..])
    ensures FieldsFit(fields, depth) <==> Fits(fields[0].value, depth) && FieldsFit(fields[1..], depth)
    ensures |fields| == 1 ==> fields[1..] == [] && Members(fields) == [Member(fields[0].key, Tree(fields[0].value))]
  {
    hide Fits;
    if Fits(fields[0].value, depth) && FieldsFit(fields[1..], depth) {
      forall i | 0 <= i < |fields| ensures Fits(fields[i].value, depth) {
        assert i > 0 ==> fields[i] == fields[1..][i - 1];
      }
    }
  }
}
