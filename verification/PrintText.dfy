// The text that printing gives a tree.
module PrintText {
  import opened CStrings
  import opened Json

  const INT_MAX: int := 0x7FFF_FFFF
  const INT_MIN: int := -0x8000_0000
  const BACKSPACE: char := 8 as char
  const FORM_FEED: char := 12 as char

  // What a tree in memory always is: its strings end at a NUL and its numbers are ints.
  ghost predicate IsTree(j: Json) {
    match j
    case Number(n) => INT_MIN <= n <= INT_MAX
    case String(s) => NulFree(s)
    case Array(es) => forall i :: 0 <= i < |es| ==> IsTree(es[i])
    case Object(ms) => forall i :: 0 <= i < |ms| ==> NulFree(ms[i].key) && IsTree(ms[i].value)
    case _ => true
  }

  // Nothing in the tree is of a type that cannot be printed.
  ghost predicate Printable(j: Json) {
    match j
    case Invalid => false
    case Array(es) => forall i :: 0 <= i < |es| ==> Printable(es[i])
    case Object(ms) => forall i :: 0 <= i < |ms| ==> Printable(ms[i].value)
    case _ => true
  }

  // sprintf("%d")
  function IntText(n: int): string {
    if n < 0 then "-" + Decimal(-n) else Decimal(n)
  }

  // A digit of sprintf("%04x").
  function HexChar(d: nat): char
    requires d < 16
  {
    if d < 10 then DigitChar(d) else ('a' as int + d - 10) as char
  }

  predicate HasShortEscape(c: char) {
    c == '"' || c == '\\' || c == BACKSPACE || c == FORM_FEED || c == '\n' || c == '\r' || c == '\t'
  }

  function ShortEscape(c: char): char
    requires HasShortEscape(c)
  {
    if c == BACKSPACE then 'b'
    else if c == FORM_FEED then 'f'
    else if c == '\n' then 'n'
    else if c == '\r' then 'r'
    else if c == '\t' then 't'
    else c
  }

  function EscapeOne(c: char): string {
    if HasShortEscape(c) then ['\\', ShortEscape(c)]
    else if c < ' ' then "\\u00" + [HexChar(c as int / 16), HexChar(c as int % 16)]
    else [c]
  }

  function Escape(s: string): string {
    if s == "" then "" else EscapeOne(s[0]) + Escape(s[1..])
  }

  function StringText(s: string): string {
    "\"" + Escape(s) + "\""
  }

  function Tabs(n: nat): (s: string)
    ensures |s| == n && forall i :: 0 <= i < n ==> s[i] == '\t'
  {
    seq(n, i => '\t')
  }

  // The piece of text, if the print is a formatted one.
  function Layout(format: bool, s: string): string {
    if format then s else ""
  }

  function ObjectOpen(format: bool): string {
    "{" + Layout(format, "\n")
  }

  function ObjectClose(format: bool, depth: nat): string {
    Layout(format, Tabs(depth)) + "}"
  }

  function ValueText(j: Json, format: bool, depth: nat): string
    decreases j, 1
  {
    match j
    case Invalid => ""
    case Null => "null"
    case False => "false"
    case True => "true"
    case Number(n) => IntText(n)
    case String(s) => StringText(s)
    case Array(_) => ArrayText(j, format, depth)
    case Object(_) => ObjectText(j, format, depth)
  }

  function ArrayText(j: Json, format: bool, depth: nat): string
    requires j.Array?
    decreases j, 0, |j.elems| + 1
  {
    "[" + ElemsText(j, j.elems, format, depth + 1) + "]"
  }

  function ObjectText(j: Json, format: bool, depth: nat): string
    requires j.Object?
    decreases j, 0, |j.members| + 1
  {
    ObjectOpen(format) + MembersText(j, j.members, format, depth + 1) + ObjectClose(format, depth)
  }

  function ElemsText(ghost whole: Json, es: seq<Json>, format: bool, depth: nat): string
    requires forall i :: 0 <= i < |es| ==> es[i] < whole
    decreases whole, 0, |es|
  {
    if es == [] then "" else ElemText(es[0], |es| > 1, format, depth) + ElemsText(whole, es[1..], format, depth)
  }

  function ElemText(e: Json, more: bool, format: bool, depth: nat): string
    decreases e, 2
  {
    ValueText(e, format, depth) + ElemTail(more, format)
  }

  // What follows an element, or a member.
  function ElemTail(more: bool, format: bool): string {
    if more then "," + Layout(format, " ") else ""
  }

  function MemberHead(key: string, format: bool, depth: nat): string {
    Layout(format, Tabs(depth)) + StringText(key) + (":" + Layout(format, "\t"))
  }

  function MemberTail(more: bool, format: bool): string {
    (if more then "," else "") + Layout(format, "\n")
  }

  function MembersText(ghost whole: Json, ms: seq<Member>, format: bool, depth: nat): string
    requires forall i :: 0 <= i < |ms| ==> ms[i].value < whole
    decreases whole, 0, |ms|
  {
    if ms == [] then ""
    else MemberText(ms[0], |ms| > 1, format, depth) + MembersText(whole, ms[1..], format, depth)
  }

  function MemberText(m: Member, more: bool, format: bool, depth: nat): string
    decreases m.value, 2
  {
    MemberHead(m.key, format, depth) + ValueText(m.value, format, depth) + MemberTail(more, format)
  }

  // ---------- No NUL within the text ----------

  lemma NulFreeAppend(a: string, b: string)
    requires NulFree(a) && NulFree(b)
    ensures NulFree(a + b)
  {
  }

  lemma IntNulFree(n: int)
    ensures NulFree(IntText(n))
  {
    var d := Decimal(if n < 0 then -n else n);
    assert forall i :: 0 <= i < |d| ==> d[i] in d;
  }

  lemma {:induction false} EscapeNulFree(s: string)
    requires NulFree(s)
    ensures NulFree(Escape(s)) && NulFree(StringText(s))
  {
    if s != "" {
      EscapeNulFree(s[1..]);
      NulFreeAppend(EscapeOne(s[0]), Escape(s[1..]));
    }
  }

  lemma {:induction false} ValueNulFree(j: Json, format: bool, depth: nat)
    requires IsTree(j)
    ensures NulFree(ValueText(j, format, depth))
    decreases j, 1
  {
    match j {
      case Number(n) => IntNulFree(n);
      case String(s) => EscapeNulFree(s);
      case Array(es) => ElemsNulFree(j, es, format, depth + 1);
      case Object(ms) => MembersNulFree(j, ms, format, depth + 1);
      case _ =>
    }
  }

  lemma {:induction false} ElemsNulFree(whole: Json, es: seq<Json>, format: bool, depth: nat)
    requires forall i :: 0 <= i < |es| ==> es[i] < whole && IsTree(es[i])
    ensures NulFree(ElemsText(whole, es, format, depth))
    decreases whole, 0, |es|
  {
    if es != [] {
      ValueNulFree(es[0], format, depth);
      ElemsNulFree(whole, es[1..], format, depth);
    }
  }

  lemma {:induction false} MembersNulFree(whole: Json, ms: seq<Member>, format: bool, depth: nat)
    requires forall i :: 0 <= i < |ms| ==> ms[i].value < whole && NulFree(ms[i].key) && IsTree(ms[i].value)
    ensures NulFree(MembersText(whole, ms, format, depth))
    decreases whole, 0, |ms|
  {
    if ms != [] {
      EscapeNulFree(ms[0].key);
      ValueNulFree(ms[0].value, format, depth);
      MembersNulFree(whole, ms[1..], format, depth);
    }
  }
}
