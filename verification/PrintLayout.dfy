// Where a print puts its blanks: the printed text as a JSON text with each blank named.
module PrintLayout {
  import opened CStrings
  import opened Json
  import opened JsonFilter
  import opened JsonGrammar
  import opened PrintText
  import opened Rfc8259
  import opened Seqs
  import opened StrictString

  // A line feed and so many tabs.
  function NewLine(tabs: nat): (s: string)
    ensures |s| == tabs + 1 && s[0] == '\n' && forall i :: 0 < i <= tabs ==> s[i] == '\t'
  {
    ['\n'] + seq(tabs, i => '\t')
  }

  // The formatted print begins a new line for every member and for the closing brace, with a tab for each
  // array and object around; a tab stands behind the colon and a space behind the comma of an array. The
  // other print has no blanks.
  ghost function Printed(j: Json, format: bool, around: nat): Syntax
    requires Printable(j)
  {
    match j
    case Null => NullWord
    case True => TrueWord
    case False => FalseWord
    case Number(n) => Digits(n < 0, Decimal(if n < 0 then -n else n), n)
    case String(s) => Quoted(StringText(s), s)
    case Array(es) => Listed("", seq(|es|, i requires 0 <= i < |es| =>
        Item(if format && i > 0 then " " else "", Printed(es[i], format, around + 1), "")))
    case Object(ms) =>
      Keyed(if format && ms == [] then NewLine(around) else "", seq(|ms|, i requires 0 <= i < |ms| =>
        Field(if format then NewLine(around + 1) else "", StringText(ms[i].key), ms[i].key,
              "", if format then "\t" else "", Printed(ms[i].value, format, around + 1),
              if format && i == |ms| - 1 then NewLine(around) else "")))
  }

  // ---------- The text is this one ----------

  lemma {:induction false} PrintedIs(j: Json, format: bool, around: nat)
    requires Printable(j)
    ensures Written(Printed(j, format, around)) == ValueText(j, format, around)
    decreases j, 1
  {
    match j {
      case Array(_) => ArrayPrinted(j, format, around);
      case Object(_) => ObjectPrinted(j, format, around);
      case _ =>
    }
  }

  ghost predicate ItemPrinted(x: Item, e: Json, first: bool, format: bool, around: nat)
    requires Printable(e)
  {
    x.before == (if format && !first then " " else "") && x.value == Printed(e, format, around) && x.after == ""
  }

  ghost predicate FieldPrinted(x: Field, m: Member, last: bool, format: bool, around: nat)
    requires Printable(m.value)
  {
    && x.before == (if format then NewLine(around + 1) else "") && x.token == StringText(m.key) && x.left == ""
    && x.right == (if format then "\t" else "") && x.value == Printed(m.value, format, around + 1)
    && x.after == if format && last then NewLine(around) else ""
  }

  ghost predicate ItemsPrinted(whole: Syntax, items: seq<Item>, j: Json, es: seq<Json>, format: bool, around: nat) {
    |items| == |es| && forall i :: 0 <= i < |es| ==>
      (items[i].value < whole && es[i] < j && Printable(es[i]) && ItemPrinted(items[i], es[i], i == 0, format, around))
  }

  ghost predicate FieldsPrinted(whole: Syntax, fields: seq<Field>, j: Json, ms: seq<Member>, format: bool, around: nat) {
    |fields| == |ms| && forall i :: 0 <= i < |ms| ==>
      (fields[i].value < whole && ms[i].value < j && Printable(ms[i].value)
        && FieldPrinted(fields[i], ms[i], i == |ms| - 1, format, around))
  }

  lemma PiecesPrinted(j: Json, format: bool, around: nat)
    requires Printable(j)
    ensures var s := Printed(j, format, around);
      && (j.Array? ==> s.Listed? && s.inner == "" && ItemsPrinted(s, s.items, j, j.elems, format, around + 1))
      && (j.Object? ==>
            && s.Keyed? && s.inner == (if format && j.members == [] then NewLine(around) else "")
            && FieldsPrinted(s, s.fields, j, j.members, format, around))
  {
  }

  lemma {:induction false} ArrayPrinted(j: Json, format: bool, around: nat)
    requires j.Array? && Printable(j)
    ensures Written(Printed(j, format, around)) == ValueText(j, format, around)
    decreases j, 0, |j.elems| + 1
  {
    hide Printed, ItemsPrinted, ElemsText, ItemsWritten;
    var s, es := Printed(j, format, around), j.elems;
    PiecesPrinted(j, format, around);
    SameCount(s, s.items, j, es, format, around + 1);
    ItemsAsPrinted(s, s.items, j, es, 0, format, around + 1);
    Whole(es);
    Whole(s.items);
    assert "[" + "" == "[" && "" + ElemsText(j, es, format, around + 1) == ElemsText(j, es, format, around + 1);
  }

  lemma SameCount(whole: Syntax, items: seq<Item>, j: Json, es: seq<Json>, format: bool, around: nat)
    requires ItemsPrinted(whole, items, j, es, format, around)
    ensures |items| == |es| && (forall i :: 0 <= i < |es| ==> es[i] < j) && forall i :: 0 <= i < |items| ==> items[i].value < whole
  {
  }

  lemma ElemsStep(j: Json, es: seq<Json>, format: bool, around: nat)
    requires es != [] && forall i :: 0 <= i < |es| ==> es[i] < j
    ensures ElemsText(j, es, format, around)
      == ValueText(es[0], format, around) + ElemTail(|es| > 1, format) + ElemsText(j, es[1..], format, around)
  {
    hide ValueText, ElemTail;
  }

  lemma NoneLeft(whole: Syntax, j: Json, format: bool, around: nat)
    ensures ItemsWritten(whole, []) == "" && ElemsText(j, [], format, around) == ""
  {
  }

  lemma Glue(v: string, more: bool, format: bool, before: string, rest: string)
    ensures before + v + "" + (if more then "," else "") + ((if format && more then " " else "") + rest)
      == before + (v + ElemTail(more, format) + rest)
  {
    var comma, gap := if more then "," else "", if format && more then " " else "";
    assert ElemTail(more, format) == comma + gap;
  }

  lemma {:induction false} ItemsAsPrinted(whole: Syntax, items: seq<Item>, j: Json, es: seq<Json>, k: nat, format: bool, around: nat)
    requires ItemsPrinted(whole, items, j, es, format, around) && k <= |es|
    ensures |items| == |es| && (forall i :: 0 <= i < |es| ==> es[i] < j) && forall i :: 0 <= i < |items| ==> items[i].value < whole
    ensures ItemsWritten(whole, items[k..]) ==
      (if format && 0 < k < |es| then " " else "") + ElemsText(j, es[k..], format, around)
    decreases j, 0, |es| - k
  {
    hide ValueText, Printed, Written, ItemsWritten, ElemsText, ElemTail;
    if k < |es| {
      var more := k + 1 < |es|;
      Next(es, k);
      Next(items, k);
      PrintedIs(es[k], format, around);
      ItemsAsPrinted(whole, items, j, es, k + 1, format, around);
      ItemsStep(whole, items[k..]);
      ElemsStep(j, es[k..], format, around);
      Glue(ValueText(es[k], format, around), more, format, items[k].before, ElemsText(j, es[k + 1..], format, around));
    } else {
      Whole(es);
      Whole(items);
      NoneLeft(whole, j, format, around);
    }
  }

  lemma NewLineIs(tabs: nat)
    ensures NewLine(tabs) == "\n" + Tabs(tabs)
  {
  }

  lemma {:induction false} ObjectPrinted(j: Json, format: bool, around: nat)
    requires j.Object? && Printable(j)
    ensures Written(Printed(j, format, around)) == ValueText(j, format, around)
    decreases j, 0, |j.members| + 1
  {
    hide Printed, FieldsPrinted, MembersText, FieldsWritten;
    var s, ms := Printed(j, format, around), j.members;
    PiecesPrinted(j, format, around);
    SameFields(s, s.fields, j, ms, format, around);
    NewLineIs(around);
    var line, tabs := if format then "\n" else "", if format then Tabs(around) else "";
    if ms == [] {
      NoFields(s, j, format, around + 1);
      assert s.fields == [];
      assert "{" + (line + tabs) + "" + "}" == ("{" + line) + "" + (tabs + "}");
    } else {
      FieldsAsPrinted(s, s.fields, j, ms, 0, format, around);
      Whole(ms);
      Whole(s.fields);
      Braces(line, MembersText(j, ms, format, around + 1), tabs);
    }
  }

  lemma Braces(line: string, body: string, tabs: string)
    ensures "{" + "" + (line + body + tabs) + "}" == ("{" + line) + body + (tabs + "}")
  {
  }

  lemma NoFields(whole: Syntax, j: Json, format: bool, around: nat)
    ensures FieldsWritten(whole, []) == "" && MembersText(j, [], format, around) == ""
  {
  }

  lemma SameFields(whole: Syntax, fields: seq<Field>, j: Json, ms: seq<Member>, format: bool, around: nat)
    requires FieldsPrinted(whole, fields, j, ms, format, around)
    ensures |fields| == |ms| && (forall i :: 0 <= i < |ms| ==> ms[i].value < j)
    ensures forall i :: 0 <= i < |fields| ==> fields[i].value < whole
  {
  }

  lemma MembersStep(j: Json, ms: seq<Member>, format: bool, around: nat)
    requires ms != [] && forall i :: 0 <= i < |ms| ==> ms[i].value < j
    ensures MembersText(j, ms, format, around)
      == MemberHead(ms[0].key, format, around) + ValueText(ms[0].value, format, around) + MemberTail(|ms| > 1, format)
           + MembersText(j, ms[1..], format, around)
  {
    hide ValueText, MemberHead, MemberTail;
  }

  // The line feed stands in front of a member on the one side, and behind it on the other.
  lemma HeadAs(x: Field, m: Member, last: bool, format: bool, around: nat)
    requires Printable(m.value) && FieldPrinted(x, m, last, format, around)
    ensures KeyWritten(x) == (if format then "\n" else "") + MemberHead(m.key, format, around + 1)
  {
    hide StringText, Printed, NewLine, Tabs;
    NewLineIs(around + 1);
    var t := StringText(m.key);
    if format {
      assert ("\n" + Tabs(around + 1)) + t + "" + ":" + "\t" == "\n" + (Tabs(around + 1) + t + (":" + "\t"));
    } else {
      assert "" + t + "" + ":" + "" == "" + ("" + t + (":" + ""));
    }
  }

  lemma LastGlue(line: string, head: string, v: string, tabs: string)
    ensures (line + head) + v + (line + tabs) + "" + "" == line + (head + v + ("" + line) + "") + tabs
  {
  }

  lemma NextGlue(line: string, head: string, v: string, rest: string, tabs: string)
    ensures (line + head) + v + "" + "," + (line + rest + tabs) == line + (head + v + ("," + line) + rest) + tabs
  {
  }

  lemma {:induction false} FieldsAsPrinted(whole: Syntax, fields: seq<Field>, j: Json, ms: seq<Member>, k: nat, format: bool, around: nat)
    requires FieldsPrinted(whole, fields, j, ms, format, around) && k < |ms|
    ensures |fields| == |ms| && (forall i :: 0 <= i < |ms| ==> ms[i].value < j)
    ensures forall i :: 0 <= i < |fields| ==> fields[i].value < whole
    ensures FieldsWritten(whole, fields[k..]) ==
      (if format then "\n" else "") + MembersText(j, ms[k..], format, around + 1) + (if format then Tabs(around) else "")
    decreases j, 0, |ms| - k
  {
    hide ValueText, Printed, Written, FieldsWritten, MembersText, MemberHead, KeyWritten, StringText;
    var line, tabs := if format then "\n" else "", if format then Tabs(around) else "";
    var x, m := fields[k], ms[k];
    Next(ms, k);
    Next(fields, k);
    NewLineIs(around);
    PrintedIs(m.value, format, around + 1);
    FieldsStep(whole, fields[k..]);
    MembersStep(j, ms[k..], format, around + 1);
    HeadAs(x, m, k == |ms| - 1, format, around);
    var head, v := MemberHead(m.key, format, around + 1), ValueText(m.value, format, around + 1);
    if k + 1 < |ms| {
      FieldsAsPrinted(whole, fields, j, ms, k + 1, format, around);
      NextGlue(line, head, v, MembersText(j, ms[k + 1..], format, around + 1), tabs);
      assert MemberTail(true, format) == "," + line;
    } else {
      assert fields[k + 1..] == [] && ms[k + 1..] == [];
      NoFields(whole, j, format, around + 1);
      LastGlue(line, head, v, tabs);
      assert MemberTail(false, format) == "" + line;
      assert x.after == line + tabs;
    }
  }

  // ---------- It is a text of the RFC for the tree ----------

  lemma {:induction false} PrintedGood(j: Json, format: bool, around: nat)
    requires IsTree(j) && Printable(j)
    ensures Good(Printed(j, format, around), true) && Tree(Printed(j, format, around)) == j
    decreases j, 1
  {
    hide RfcString, DecimalValue, Decimal, StringText;
    match j {
      case Number(n) => DecimalRoundTrip(if n < 0 then -n else n);
      case String(t) => PrintedIsStrict(t);
      case Array(_) => ArrayGood(j, format, around);
      case Object(_) => ObjectGood(j, format, around);
      case _ =>
    }
  }

  lemma {:induction false} ArrayGood(j: Json, format: bool, around: nat)
    requires j.Array? && IsTree(j) && Printable(j)
    ensures Good(Printed(j, format, around), true) && Tree(Printed(j, format, around)) == j
    decreases j, 0
  {
    hide GoodDigits, GoodToken, StringText;
    var s, es := Printed(j, format, around), j.elems;
    forall i | 0 <= i < |es| ensures GoodItem(s.items[i], true) && Good(s.items[i].value, true) && Tree(s.items[i].value) == es[i] {
      PrintedGood(es[i], format, around + 1);
    }
    assert Tree(s).elems == es;
  }

  lemma {:induction false} ObjectGood(j: Json, format: bool, around: nat)
    requires j.Object? && IsTree(j) && Printable(j)
    ensures Good(Printed(j, format, around), true) && Tree(Printed(j, format, around)) == j
    decreases j, 0
  {
    hide GoodDigits, GoodToken, StringText;
    var s, ms := Printed(j, format, around), j.members;
    forall i | 0 <= i < |ms|
      ensures GoodField(s.fields[i], true) && Good(s.fields[i].value, true) && Tree(s.fields[i].value) == ms[i].value
    {
      PrintedGood(ms[i].value, format, around + 1);
      KeyGood(ms[i].key);
    }
    assert Tree(s).members == ms;
  }

  lemma KeyGood(key: string)
    requires NulFree(key)
    ensures GoodToken(StringText(key), key, true)
  {
    hide RfcString, StringText;
    PrintedIsStrict(key);
  }

  // ---------- The two formats ----------

  lemma {:induction false} PrintedBare(j: Json, format: bool, around: nat, elsewhere: nat)
    requires Printable(j)
    ensures Bare(Printed(j, format, around)) == Printed(j, false, elsewhere)
  {
    var s, t := Printed(j, format, around), Printed(j, false, elsewhere);
    match j {
      case Array(es) =>
        forall i | 0 <= i < |es| ensures Bare(s).items[i] == t.items[i] {
          PrintedBare(es[i], format, around + 1, elsewhere + 1);
        }
        assert Bare(s).items == t.items;
      case Object(ms) =>
        forall i | 0 <= i < |ms| ensures Bare(s).fields[i] == t.fields[i] {
          PrintedBare(ms[i].value, format, around + 1, elsewhere + 1);
        }
        assert Bare(s).fields == t.fields;
      case _ =>
    }
  }

  // The text without the blanks that stand outside strings.
  function Squeeze(text: string, inside: bool): string {
    if text == "" then ""
    else if inside && text[0] == '\\' && |text| > 1 then text[..2] + Squeeze(text[2..], true)
    else if inside then [text[0]] + Squeeze(text[1..], text[0] != '"')
    else if IsBlank(text[0]) then Squeeze(text[1..], false)
    else [text[0]] + Squeeze(text[1..], text[0] == '"')
  }

  lemma SqueezeOne(c: char, rest: string, inside: bool)
    requires !(inside && c == '\\')
    ensures Squeeze([c] + rest, inside) ==
      if inside then [c] + Squeeze(rest, c != '"')
      else if IsBlank(c) then Squeeze(rest, false) else [c] + Squeeze(rest, c == '"')
  {
    assert ([c] + rest)[1..] == rest;
  }

  lemma {:induction false} SqueezeInside(s: string, rest: string)
    requires forall i :: 0 <= i < |s| ==> s[i] != '\\' && s[i] != '"'
    ensures Squeeze(s + rest, true) == s + Squeeze(rest, true)
  {
    if s == "" {
      assert s + rest == rest && s + Squeeze(rest, true) == Squeeze(rest, true);
    } else {
      assert s + rest == [s[0]] + (s[1..] + rest);
      SqueezeOne(s[0], s[1..] + rest, true);
      SqueezeInside(s[1..], rest);
      assert s + Squeeze(rest, true) == [s[0]] + (s[1..] + Squeeze(rest, true));
    }
  }

  lemma SqueezeEscape(letter: char, rest: string)
    ensures Squeeze(['\\', letter] + rest, true) == ['\\', letter] + Squeeze(rest, true)
  {
    var text := ['\\', letter] + rest;
    assert text[..2] == ['\\', letter] && text[2..] == rest;
  }

  // A string stays as it is, up to its closing quote.
  lemma {:induction false} SqueezeString(token: string, p: nat, rest: string)
    requires p <= |token| && RfcString(token, p).Some? && RfcString(token, p).value.next == |token|
    ensures Squeeze(token[p..] + rest, true) == token[p..] + Squeeze(rest, false)
    decreases |token| - p
  {
    hide Squeeze;
    Next(token, p);
    var c := token[p];
    if c == '"' {
      assert token[p..] == ['"'];
      SqueezeOne('"', rest, true);
    } else if c != '\\' {
      SqueezeString(token, p + 1, rest);
      SqueezeFurther(token, p, p + 1, rest);
    } else if EscapedAs(token[p + 1]).Some? {
      SqueezeString(token, p + 2, rest);
      SqueezeFurther(token, p, p + 2, rest);
    } else {
      var next := RfcLiteral(token, p).value.next;
      SqueezeString(token, next, rest);
      HexDigitsAt(token, p + 2);
      if next == p + 12 {
        HexDigitsAt(token, p + 8);
        SqueezeFurther(token, p + 8, p + 12, rest);
        SqueezeFurther(token, p + 6, p + 8, rest);
      }
      SqueezeFurther(token, p + 2, p + 6, rest);
      SqueezeFurther(token, p, p + 2, rest);
    }
  }

  // Over plain characters, or over a backslash and what it takes along.
  lemma SqueezeFurther(token: string, p: nat, q: nat, rest: string)
    requires p <= q <= |token| && Squeeze(token[q..] + rest, true) == token[q..] + Squeeze(rest, false)
    requires (q == p + 2 && token[p] == '\\') || forall i :: p <= i < q ==> token[i] != '\\' && token[i] != '"'
    ensures Squeeze(token[p..] + rest, true) == token[p..] + Squeeze(rest, false)
  {
    hide Squeeze;
    var s, t := token[p..q], token[q..];
    assert token[p..] == s + t;
    Assoc(s, t, rest);
    Assoc(s, t, Squeeze(rest, false));
    if q == p + 2 && token[p] == '\\' {
      assert s == ['\\', token[p + 1]];
      SqueezeEscape(token[p + 1], t + rest);
    } else {
      SqueezeInside(s, t + rest);
    }
  }

  lemma SqueezeToken(token: string, content: string, rest: string)
    requires GoodToken(token, content, true)
    ensures Squeeze(token + rest, false) == token + Squeeze(rest, false)
  {
    hide Squeeze, RfcString;
    assert token[0] == '"';
    Next(token, 0);
    Whole(token);
    Assoc([token[0]], token[1..], rest);
    Assoc([token[0]], token[1..], Squeeze(rest, false));
    SqueezeOne('"', token[1..] + rest, false);
    SqueezeString(token, 1, rest);
  }

  // So this is a filter of blanks.
  function Unblanked(text: string): string {
    Squeeze(text, false)
  }

  lemma UnblankedFilters()
    ensures IsFilter(Unblanked)
  {
    hide Squeeze, GoodToken;
    forall c: char | IsBlank(c) ensures Drops(Unblanked, [c]) {
      forall rest: string ensures Unblanked([c] + rest) == Unblanked(rest) {
        SqueezeOne(c, rest, false);
      }
    }
    forall c: char | IsPlain(c) ensures Keeps(Unblanked, [c]) {
      forall rest: string ensures Unblanked([c] + rest) == [c] + Unblanked(rest) {
        SqueezeOne(c, rest, false);
      }
    }
    forall token: string, content: string | GoodToken(token, content, true) ensures Keeps(Unblanked, token) {
      forall rest: string ensures Unblanked(token + rest) == token + Unblanked(rest) {
        SqueezeToken(token, content, rest);
      }
    }
  }

  // Taking the blanks outside strings out of either print gives the unformatted one.
  lemma PrintsSqueezed(j: Json, format: bool, around: nat, elsewhere: nat)
    requires IsTree(j) && Printable(j)
    ensures Unblanked(ValueText(j, format, around)) == ValueText(j, false, elsewhere)
  {
    hide IsFilter, Printed, Good, Written, ValueText, Bare;
    var s := Printed(j, format, around);
    PrintedGood(j, format, around);
    UnblankedFilters();
    FilterWritten(Unblanked, s, "");
    PrintedIs(j, format, around);
    PrintedIs(j, false, elsewhere);
    PrintedBare(j, format, around, elsewhere);
    assert Written(s) + "" == Written(s) && Written(Bare(s)) + "" == Written(Bare(s));
  }
}
