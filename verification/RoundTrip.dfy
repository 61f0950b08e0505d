// Parsing what was printed gives the tree back.
module RoundTrip {
  import opened CStrings
  import opened GrammarReads
  import opened Json
  import opened JsonDocument
  import opened JsonGrammar
  import opened ParseText
  import opened PrintLayout
  import opened PrintText
  import opened StringCode

  // How deeply arrays and objects are nested.
  function Nesting(j: Json): nat
    decreases j, 1
  {
    match j
    case Array(es) => 1 + ElemsNesting(j, es)
    case Object(ms) => 1 + MembersNesting(j, ms)
    case _ => 0
  }

  function ElemsNesting(ghost whole: Json, es: seq<Json>): nat
    requires forall i :: 0 <= i < |es| ==> es[i] < whole
    decreases whole, 0, |es|
  {
    if es == [] then 0 else Max(Nesting(es[0]), ElemsNesting(whole, es[1..]))
  }

  function MembersNesting(ghost whole: Json, ms: seq<Member>): nat
    requires forall i :: 0 <= i < |ms| ==> ms[i].value < whole
    decreases whole, 0, |ms|
  {
    if ms == [] then 0 else Max(Nesting(ms[0].value), MembersNesting(whole, ms[1..]))
  }

  function Max(a: nat, b: nat): nat {
    if a < b then b else a
  }

  lemma {:induction false} ElemsDeepest(whole: Json, es: seq<Json>, room: nat)
    requires forall i :: 0 <= i < |es| ==> es[i] < whole
    ensures ElemsNesting(whole, es) <= room <==> forall i :: 0 <= i < |es| ==> Nesting(es[i]) <= room
  {
    hide Nesting;
    if es != [] {
      ElemsDeepest(whole, es[1..], room);
      assert forall i :: 0 < i < |es| ==> es[i] == es[1..][i - 1];
    }
  }

  lemma {:induction false} MembersDeepest(whole: Json, ms: seq<Member>, room: nat)
    requires forall i :: 0 <= i < |ms| ==> ms[i].value < whole
    ensures MembersNesting(whole, ms) <= room <==> forall i :: 0 <= i < |ms| ==> Nesting(ms[i].value) <= room
  {
    hide Nesting;
    if ms != [] {
      MembersDeepest(whole, ms[1..], room);
      assert forall i :: 0 < i < |ms| ==> ms[i] == ms[1..][i - 1];
    }
  }

  // The printed text is nested as the tree is.
  lemma {:induction false} PrintedNested(j: Json, format: bool, around: nat, room: nat)
    requires Printable(j)
    ensures Nested(Printed(j, format, around), room) <==> Nesting(j) <= room
  {
    hide ElemsNesting, MembersNesting;
    var s := Printed(j, format, around);
    match j {
      case Array(es) =>
        if room > 0 {
          ElemsDeepest(j, es, room - 1);
          forall i | 0 <= i < |es|
            ensures Nested(s.items[i].value, room - 1) <==> Nesting(es[i]) <= room - 1
          {
            PrintedNested(es[i], format, around + 1, room - 1);
          }
        }
      case Object(ms) =>
        if room > 0 {
          MembersDeepest(j, ms, room - 1);
          forall i | 0 <= i < |ms|
            ensures Nested(s.fields[i].value, room - 1) <==> Nesting(ms[i].value) <= room - 1
          {
            PrintedNested(ms[i].value, format, around + 1, room - 1);
          }
        }
      case _ =>
    }
  }

  lemma PrintedDigits(j: Json, format: bool, around: nat)
    requires Printable(j)
    ensures Printed(j, format, around).Digits? <==> j.Number?
  {
  }

  lemma PrintedFits(j: Json, format: bool, around: nat, depth: nat)
    requires Printable(j) && depth <= 1000
    ensures Fits(Printed(j, format, around), depth) <==> depth + Nesting(j) <= 1000
  {
    PrintedNested(j, format, around, 1000 - depth);
  }

  lemma NumberReads(text: string, p: nat, n: int)
    requires AtWord(text, p, IntText(n)) && Stops(text, p + |IntText(n)|)
    ensures p < |text| && (text[p] == '-' || IsDigit(text[p]))
    ensures ParseNumber(text, p) == Some(Parsed(Number(n), p + |IntText(n)|))
  {
    hide AtWord, Stops, ParseNumber, DecimalValue;
    var s := Printed(Number(n), false, 0);
    DecimalRoundTrip(if n < 0 then -n else n);
    assert IntText(n) == Written(s);
    WrittenBegins(s);
    WordChar(text, p, Written(s), 0);
    NumberIsRead(text, p, s);
  }

  // Reading the print of a tree, whatever stands around it, gives the tree; a tree that is nested too
  // deeply is the one that fails.
  lemma ValueReads(text: string, p: nat, j: Json, format: bool, indent: nat, depth: nat)
    requires IsTree(j) && Printable(j) && depth <= 1000
    requires var v := ValueText(j, format, indent);
      AtWord(text, p, v) && (j.Number? ==> Stops(text, p + |v|))
    ensures p < |text| && ParseValue(text, p, depth)
      == Result(depth + Nesting(j) <= 1000, j, p + |ValueText(j, format, indent)|)
  {
    hide Good, Printed, Printable, IsTree, Written, Nesting, AtWord, Fits, Tree, Stops, ValueText, ParseValue;
    var s := Printed(j, format, indent);
    PrintedIs(j, format, indent);
    PrintedGood(j, format, indent);
    PrintedDigits(j, format, indent);
    PrintedFits(j, format, indent, depth);
    StrictIsTaken(s);
    WrittenIsRead(text, p, s, depth);
  }

  // ---------- The round trip ----------

  // Parsing the print of a tree, whether formatted or not, gives the same tree and ends where the
  // text ends; a tree that is nested more deeply than the limit is the one that fails. A NUL
  // behind the text may be there, and may be asked for.
  lemma PrintThenParse(j: Json, format: bool, requireTerminated: bool)
    requires IsTree(j) && Printable(j)
    ensures var t := ValueText(j, format, 0);
      && Parse(t + "\0", requireTerminated) == Result(Nesting(j) <= 1000, j, |t|)
      && Parse(t, false) == Result(Nesting(j) <= 1000, j, |t|)
  {
    hide Good, Printed, Printable, Written, Nesting, AtWord, Blanks, Parse, Fits, Tree, Mark, Stops, ValueText;
    var s, t := Printed(j, format, 0), ValueText(j, format, 0);
    PrintedIs(j, format, 0);
    PrintedGood(j, format, 0);
    PrintedFits(j, format, 0, 0);
    StrictIsTaken(s);
    WrittenBegins(s);
    Alone(t);
    NoMark(t + "\0", t);
    NoMark(t, t);
    DocumentIsRead(t + "\0", "", s, "", requireTerminated);
    DocumentIsRead(t, "", s, "", false);
  }

  lemma NoMark(text: string, t: string)
    requires t != "" && text != "" && text[0] == t[0] && t[0] as int < 0x80
    ensures Mark(text) == 0
  {
  }

  lemma Alone(t: string)
    requires t != ""
    ensures AtWord(t, 0, "") && AtWord(t, 0, t) && AtWord(t + "\0", 0, "") && AtWord(t + "\0", 0, t)
    ensures Blanks("", false) && (t + "\0")[|t|..] == "" + "\0" && (t + "\0")[0] == t[0]
    ensures Stops(t, |t|) && Stops(t + "\0", |t|)
  {
  }
}
