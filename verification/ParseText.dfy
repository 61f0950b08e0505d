// What parse_value() and its helpers make of a text, from a place in it on.
module ParseText {
  import opened CStrings
  import opened Json
  import opened PrintText
  import opened Unicode

  const NESTING_LIMIT: nat := 1000

  predicate IsSpace(c: char) {
    c <= ' '
  }

  function SkipSpaces(text: string, p: nat): (q: nat)
    requires p <= |text|
    ensures p <= q <= |text|
    decreases |text| - p
  {
    if p < |text| && IsSpace(text[p]) then SkipSpaces(text, p + 1) else p
  }

  // buffer_skip_whitespace(): of nothing but space up to the end it leaves the last character.
  function SkipWhitespace(text: string, p: nat): (q: nat)
    requires p <= |text|
    ensures p <= q <= |text| && (p < |text| ==> q < |text|)
  {
    var q := SkipSpaces(text, p);
    if p < |text| && q == |text| then q - 1 else q
  }

  predicate At(text: string, p: nat, c: char) {
    p < |text| && text[p] == c
  }

  predicate AtWord(text: string, p: nat, word: string) {
    p + |word| <= |text| && text[p..p + |word|] == word
  }

  // ---------- Numbers ----------

  function DigitsEnd(text: string, p: nat): (q: nat)
    requires p <= |text|
    ensures p <= q <= |text|
    ensures forall i :: p <= i < q ==> IsDigit(text[i])
    ensures q < |text| ==> !IsDigit(text[q])
    decreases |text| - p
  {
    if p < |text| && IsDigit(text[p]) then DigitsEnd(text, p + 1) else p
  }

  // strtod() would go on behind the digits: with a fraction or with an exponent.
  predicate GoesOn(text: string, p: nat) {
    || At(text, p, '.')
    || ((At(text, p, 'e') || At(text, p, 'E')) && p + 1 < |text| &&
        (IsDigit(text[p + 1]) || ((text[p + 1] == '+' || text[p + 1] == '-') && p + 2 < |text| && IsDigit(text[p + 2]))))
  }

  // Integers only: a number with a fraction or an exponent is not part of this model.
  function ParseNumber(text: string, p: nat): (r: Option<Parsed<Json>>)
    requires p <= |text|
    ensures r.Some? ==> p < r.value.next <= |text|
  {
    var negative := At(text, p, '-');
    var start := if negative then p + 1 else p;
    var end := DigitsEnd(text, start);
    if end == start || GoesOn(text, end) then None
    else
      var n: int := DecimalValue(text[start..end]);
      Some(Parsed(Number(if negative then -n else n), end))
  }

  // ---------- Strings ----------

  // The sizing pass: the place of the closing quote, each backslash taking one character along.
  function StringEnd(text: string, p: nat): (end: Option<nat>)
    ensures end.Some? ==> p <= end.value < |text| && text[end.value] == '"'
    decreases |text| - p
  {
    if p >= |text| then None
    else if text[p] == '"' then Some(p)
    else if text[p] == '\\' then (if p + 1 >= |text| then None else StringEnd(text, p + 2))
    else StringEnd(text, p + 1)
  }

  // The characters and escapes that the sizing pass counts between two places.
  function Units(text: string, p: nat, end: nat): nat
    requires end <= |text|
    decreases if p < end then end - p else 0
  {
    if p >= end then 0 else 1 + Units(text, if text[p] == '\\' then p + 2 else p + 1, end)
  }

  predicate IsSimpleEscape(c: char) {
    c == 'b' || c == 'f' || c == 'n' || c == 'r' || c == 't' || c == '"' || c == '\\' || c == '/'
  }

  function Unescape(c: char): char
    requires IsSimpleEscape(c)
  {
    if c == 'b' then BACKSPACE
    else if c == 'f' then FORM_FEED
    else if c == 'n' then '\n'
    else if c == 'r' then '\r'
    else if c == 't' then '\t'
    else c
  }

  // The decoding pass, up to the closing quote or past it.
  function DecodeString(text: string, p: nat, end: nat): Option<string>
    requires end < |text|
    decreases if p < end then end - p else 0
  {
    if p >= end then Some("")
    else if text[p] != '\\' then Prefixed([text[p]], DecodeString(text, p + 1, end))
    else if IsSimpleEscape(text[p + 1]) then Prefixed([Unescape(text[p + 1])], DecodeString(text, p + 2, end))
    else if text[p + 1] == 'u' then
      (match Utf16Literal(text, p, end)
       case Some(u) => Prefixed(Utf8(u.value), DecodeString(text, u.next, end))
       case None => None)
    else None
  }

  function Prefixed(s: string, rest: Option<string>): Option<string> {
    if rest.Some? then Some(s + rest.value) else None
  }

  lemma PrefixedNothing(rest: Option<string>)
    ensures Prefixed("", rest) == rest
  {
    if rest.Some? {
      assert "" + rest.value == rest.value;
    }
  }

  lemma PrefixedTwice(a: string, b: string, rest: Option<string>)
    ensures Prefixed(a, Prefixed(b, rest)) == Prefixed(a + b, rest)
  {
    if rest.Some? {
      assert (a + b) + rest.value == a + (b + rest.value);
    }
  }

  // parse_string(): the value is a C string, so it ends at the first NUL that was decoded.
  function ParseString(text: string, p: nat): (r: Option<Parsed<string>>)
    ensures r.Some? ==> p < r.value.next <= |text|
  {
    if !At(text, p, '"') then None
    else match StringEnd(text, p + 1)
      case None => None
      case Some(end) =>
        match DecodeString(text, p + 1, end)
        case None => None
        case Some(s) => Some(Parsed(CString(s), end + 1))
  }

  // ---------- Values ----------

  function ParseValue(text: string, p: nat, depth: nat): (r: Option<Parsed<Json>>)
    requires p <= |text|
    ensures r.Some? ==> p < r.value.next <= |text|
    decreases |text| - p, 2
  {
    if AtWord(text, p, "null") then Some(Parsed(Null, p + 4))
    else if AtWord(text, p, "false") then Some(Parsed(False, p + 5))
    else if AtWord(text, p, "true") then Some(Parsed(True, p + 4))
    else if At(text, p, '"') then
      (match ParseString(text, p) case Some(s) => Some(Parsed(String(s.value), s.next)) case None => None)
    else if p < |text| && (text[p] == '-' || IsDigit(text[p])) then ParseNumber(text, p)
    else if At(text, p, '[') then ParseArray(text, p, depth)
    else if At(text, p, '{') then ParseObject(text, p, depth)
    else None
  }

  function ParseArray(text: string, p: nat, depth: nat): (r: Option<Parsed<Json>>)
    requires At(text, p, '[')
    ensures r.Some? ==> p < r.value.next <= |text|
    decreases |text| - p, 1
  {
    if depth >= NESTING_LIMIT then None
    else
      var q := SkipWhitespace(text, p + 1);
      if At(text, q, ']') then Some(Parsed(Array([]), q + 1))
      else if q >= |text| then None
      else match ParseElements(text, q, depth + 1)
        case Some(es) => Some(Parsed(Array(es.value), es.next))
        case None => None
  }

  // One turn of the loop after another, from where the bracket or the comma was passed.
  function ParseElements(text: string, p: nat, depth: nat): (r: Option<Parsed<seq<Json>>>)
    requires p <= |text|
    ensures r.Some? ==> p < r.value.next <= |text|
    decreases |text| - p, 3
  {
    match ParseValue(text, SkipWhitespace(text, p), depth)
    case None => None
    case Some(v) =>
      var q := SkipWhitespace(text, v.next);
      if At(text, q, ',') then
        (match ParseElements(text, q + 1, depth)
         case Some(es) => Some(Parsed([v.value] + es.value, es.next))
         case None => None)
      else if At(text, q, ']') then Some(Parsed([v.value], q + 1))
      else None
  }

  function ParseObject(text: string, p: nat, depth: nat): (r: Option<Parsed<Json>>)
    requires At(text, p, '{')
    ensures r.Some? ==> p < r.value.next <= |text|
    decreases |text| - p, 1
  {
    if depth >= NESTING_LIMIT then None
    else
      var q := SkipWhitespace(text, p + 1);
      if At(text, q, '}') then Some(Parsed(Object([]), q + 1))
      else if q >= |text| then None
      else match ParseMembers(text, q, depth + 1)
        case Some(ms) => Some(Parsed(Object(ms.value), ms.next))
        case None => None
  }

  function ParseMembers(text: string, p: nat, depth: nat): (r: Option<Parsed<seq<Member>>>)
    requires p <= |text|
    ensures r.Some? ==> p < r.value.next <= |text|
    decreases |text| - p, 4
  {
    match ParseMember(text, p, depth)
    case None => None
    case Some(m) =>
      var q := SkipWhitespace(text, m.next);
      if At(text, q, ',') then
        (match ParseMembers(text, q + 1, depth)
         case Some(ms) => Some(Parsed([m.value] + ms.value, ms.next))
         case None => None)
      else if At(text, q, '}') then Some(Parsed([m.value], q + 1))
      else None
  }

  function ParseMember(text: string, p: nat, depth: nat): (r: Option<Parsed<Member>>)
    requires p <= |text|
    ensures r.Some? ==> p < r.value.next <= |text|
    decreases |text| - p, 3
  {
    if p >= |text| then None
    else match ParseString(text, SkipWhitespace(text, p))
      case None => None
      case Some(key) =>
        var colon := SkipWhitespace(text, key.next);
        if !At(text, colon, ':') then None
        else match ParseValue(text, SkipWhitespace(text, colon + 1), depth)
          case Some(v) => Some(Parsed(Member(key.value, v.value), v.next))
          case None => None
  }

  // skip_utf8_bom(): only in front of at least two more characters.
  function SkipBom(text: string): (p: nat)
    ensures p <= |text|
  {
    if |text| > 4 && text[..3] == BOM then 3 else 0
  }

  const BOM: string := [0xEF as char, 0xBB as char, 0xBF as char]

  // cJSON_ParseWithLengthOpts(): the tree and the place where the parse ended.
  function Parse(text: string, requireTerminated: bool): Option<Parsed<Json>> {
    if text == "" then None
    else match ParseValue(text, SkipWhitespace(text, SkipBom(text)), 0)
      case None => None
      case Some(r) =>
        if !requireTerminated then Some(r)
        else
          var q := SkipWhitespace(text, r.next);
          if At(text, q, '\0') then Some(Parsed(r.value, q)) else None
  }

  // ---------- One turn of the loops ----------

  function PrependTo<T>(done: seq<T>, rest: Option<Parsed<seq<T>>>): Option<Parsed<seq<T>>> {
    if rest.Some? then Some(Parsed(done + rest.value.value, rest.value.next)) else None
  }

  // The end of the list, if the closing bracket is here.
  function Closing<T>(text: string, p: nat, bracket: char): Option<Parsed<seq<T>>> {
    if At(text, p, bracket) then Some(Parsed([], p + 1)) else None
  }

  // What the loop still reads once an element, or a member, is done.
  function ElementsAfter(text: string, p: nat, depth: nat): Option<Parsed<seq<Json>>> {
    if At(text, p, ',') then ParseElements(text, p + 1, depth) else Closing(text, p, ']')
  }

  function MembersAfter(text: string, p: nat, depth: nat): Option<Parsed<seq<Member>>> {
    if At(text, p, ',') then ParseMembers(text, p + 1, depth) else Closing(text, p, '}')
  }

  lemma ElementsStep(text: string, p: nat, depth: nat)
    requires p <= |text|
    ensures ParseElements(text, p, depth) == match ParseValue(text, SkipWhitespace(text, p), depth)
      case None => None
      case Some(v) => PrependTo([v.value], ElementsAfter(text, SkipWhitespace(text, v.next), depth))
  {
    var v := ParseValue(text, SkipWhitespace(text, p), depth);
    if v.Some? {
      assert [v.value.value] + [] == [v.value.value];
    }
  }

  lemma MembersStep(text: string, p: nat, depth: nat)
    requires p <= |text|
    ensures ParseMembers(text, p, depth) == match ParseMember(text, p, depth)
      case None => None
      case Some(m) => PrependTo([m.value], MembersAfter(text, SkipWhitespace(text, m.next), depth))
  {
    var m := ParseMember(text, p, depth);
    if m.Some? {
      assert [m.value.value] + [] == [m.value.value];
    }
  }
}
