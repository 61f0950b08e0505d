// JSON texts with all their blanks (sections 2 to 7 of RFC 8259), and what the parser takes besides.
module JsonGrammar {
  import opened CStrings
  import opened Json
  import opened ParseText
  import opened Rfc8259
  import opened StrictString

  // A value as it is written: the blanks stand around the structural characters, inner between the
  // brackets of an empty array or object.
  datatype Syntax =
    | NullWord
    | TrueWord
    | FalseWord
    | Digits(minus: bool, digits: string, n: int)
    | Quoted(token: string, content: string)
    | Listed(inner: string, items: seq<Item>)
    | Keyed(inner: string, fields: seq<Field>)

  datatype Item = Item(before: string, value: Syntax, after: string)

  datatype Field = Field(before: string, token: string, key: string, left: string, right: string, value: Syntax, after: string)

  // ---------- The text ----------

  function Written(s: Syntax): string
    decreases s, 1
  {
    match s
    case NullWord => "null"
    case TrueWord => "true"
    case FalseWord => "false"
    case Digits(minus, digits, _) => (if minus then "-" else "") + digits
    case Quoted(token, _) => token
    case Listed(inner, items) => "[" + inner + ItemsWritten(s, items) + "]"
    case Keyed(inner, fields) => "{" + inner + FieldsWritten(s, fields) + "}"
  }

  function ItemsWritten(ghost whole: Syntax, items: seq<Item>): string
    requires forall i :: 0 <= i < |items| ==> items[i].value < whole
    decreases whole, 0, |items|
  {
    if items == [] then ""
    else
      var x := items[0];
      x.before + Written(x.value) + x.after + (if |items| > 1 then "," else "") + ItemsWritten(whole, items[1..])
  }

  function FieldsWritten(ghost whole: Syntax, fields: seq<Field>): string
    requires forall i :: 0 <= i < |fields| ==> fields[i].value < whole
    decreases whole, 0, |fields|
  {
    if fields == [] then ""
    else
      var x := fields[0];
      KeyWritten(x) + Written(x.value) + x.after + (if |fields| > 1 then "," else "") + FieldsWritten(whole, fields[1..])
  }

  function KeyWritten(x: Field): string {
    x.before + x.token + x.left + ":" + x.right
  }

  lemma ItemsStep(whole: Syntax, items: seq<Item>)
    requires items != [] && forall i :: 0 <= i < |items| ==> items[i].value < whole
    ensures var x := items[0];
      ItemsWritten(whole, items)
        == x.before + Written(x.value) + x.after + (if |items| > 1 then "," else "") + ItemsWritten(whole, items[1..])
  {
    hide Written;
  }

  lemma FieldsStep(whole: Syntax, fields: seq<Field>)
    requires fields != [] && forall i :: 0 <= i < |fields| ==> fields[i].value < whole
    ensures var x := fields[0];
      FieldsWritten(whole, fields)
        == KeyWritten(x) + Written(x.value) + x.after + (if |fields| > 1 then "," else "") + FieldsWritten(whole, fields[1..])
  {
    hide Written, KeyWritten;
  }

  lemma NothingWritten(whole: Syntax)
    ensures ItemsWritten(whole, []) == "" && FieldsWritten(whole, []) == ""
  {
  }

  lemma SameKey(x: Field, y: Field)
    requires x.before == y.before && x.token == y.token && x.left == y.left && x.right == y.right
    ensures KeyWritten(x) == KeyWritten(y)
  {
  }

  // ---------- The tree ----------

  function Tree(s: Syntax): Json {
    match s
    case NullWord => Null
    case TrueWord => True
    case FalseWord => False
    case Digits(_, _, n) => Number(n)
    case Quoted(_, content) => String(content)
    case Listed(_, items) => Array(seq(|items|, i requires 0 <= i < |items| => Tree(items[i].value)))
    case Keyed(_, fields) => Object(seq(|fields|, i requires 0 <= i < |fields| => Member(fields[i].key, Tree(fields[i].value))))
  }

  function Trees(items: seq<Item>): (r: seq<Json>)
    ensures |r| == |items| && forall i :: 0 <= i < |items| ==> r[i] == Tree(items[i].value)
  {
    Tree(Listed("", items)).elems
  }

  function Members(fields: seq<Field>): (r: seq<Member>)
    ensures |r| == |fields| && forall i :: 0 <= i < |fields| ==> r[i] == Member(fields[i].key, Tree(fields[i].value))
  {
    Tree(Keyed("", fields)).members
  }

  // ---------- What is well written ----------

  // As the RFC has it, or as the code takes it: every control character for a blank, leading zeros, and
  // the strings of parse_string().
  ghost predicate Good(s: Syntax, strict: bool) {
    match s
    case Digits(minus, digits, n) => GoodDigits(minus, digits, n, strict)
    case Quoted(token, content) => GoodToken(token, content, strict)
    case Listed(inner, items) =>
      && Blanks(inner, strict) && (items != [] ==> inner == "")
      && forall i :: 0 <= i < |items| ==> GoodItem(items[i], strict) && Good(items[i].value, strict)
    case Keyed(inner, fields) =>
      && Blanks(inner, strict) && (fields != [] ==> inner == "")
      && forall i :: 0 <= i < |fields| ==> GoodField(fields[i], strict) && Good(fields[i].value, strict)
    case _ => true
  }

  ghost predicate Blanks(s: string, strict: bool) {
    forall i :: 0 <= i < |s| ==> if strict then IsBlank(s[i]) else s[i] as int <= 0x20
  }

  ghost predicate GoodDigits(minus: bool, digits: string, n: int, strict: bool) {
    && digits != "" && (forall c <- digits :: 0x30 <= c as int <= 0x39)
    && n == (if minus then -1 else 1) * DecimalValue(digits)
    && (strict && |digits| > 1 ==> digits[0] != '0')
  }

  ghost predicate GoodToken(token: string, content: string, strict: bool) {
    if strict then RfcReads(token, 0) == Some(Parsed(content, |token|)) && NulFree(content)
    else ParseString(token, 0) == Some(Parsed(content, |token|))
  }

  ghost predicate GoodItem(x: Item, strict: bool) {
    Blanks(x.before, strict) && Blanks(x.after, strict)
  }

  ghost predicate GoodField(x: Field, strict: bool) {
    && Blanks(x.before, strict) && Blanks(x.left, strict) && Blanks(x.right, strict) && Blanks(x.after, strict)
    && GoodToken(x.token, x.key, strict)
  }

  // At most so many arrays and objects within each other.
  ghost predicate Nested(s: Syntax, room: nat) {
    match s
    case Listed(_, items) => room > 0 && forall i :: 0 <= i < |items| ==> Nested(items[i].value, room - 1)
    case Keyed(_, fields) => room > 0 && forall i :: 0 <= i < |fields| ==> Nested(fields[i].value, room - 1)
    case _ => true
  }
}
