// Minifying a text does not change what it is parsed as.
module MinifyMeaning {
  import opened GrammarReads
  import opened Json
  import opened JsonDocument
  import opened JsonFilter
  import opened JsonGrammar
  import opened Minify
  import opened ParseText
  import opened PrintLayout
  import opened PrintText
  import opened Seqs
  import opened StrictString

  import Rfc8259

  // ---------- The filter with the strings of the RFC ----------

  lemma {:induction false} PlainPassed(token: string, p: nat, q: nat, rest: string)
    requires p <= q <= |token| && forall i :: p <= i < q ==> token[i] != '\\' && token[i] != '"'
    ensures RfcStringLength(token[p..] + rest) == q - p + RfcStringLength(token[q..] + rest)
    decreases q - p
  {
    hide RfcStringLength;
    if p < q {
      var s := token[p..] + rest;
      assert s[0] == token[p] && s[1..] == token[p + 1..] + rest;
      RfcLengthStep(s);
      PlainPassed(token, p + 1, q, rest);
    }
  }

  lemma EscapePassed(token: string, p: nat, rest: string)
    requires p + 2 <= |token| && token[p] == '\\'
    ensures RfcStringLength(token[p..] + rest) == 2 + RfcStringLength(token[p + 2..] + rest)
  {
    hide RfcStringLength;
    var s := token[p..] + rest;
    assert s[0] == '\\' && s[2..] == token[p + 2..] + rest;
    RfcLengthStep(s);
  }

  // Its strings end where the RFC ends them.
  lemma {:induction false} RfcLength(token: string, p: nat, rest: string)
    requires p <= |token| && RfcString(token, p).Some? && RfcString(token, p).value.next == |token|
    ensures RfcStringLength(token[p..] + rest) == |token| - p
    decreases |token| - p
  {
    hide RfcStringLength;
    var c := token[p];
    if c == '"' {
      var s := token[p..] + rest;
      assert s[0] == '"';
      RfcLengthStep(s);
    } else if c != '\\' {
      RfcLength(token, p + 1, rest);
      PlainPassed(token, p, p + 1, rest);
    } else if Rfc8259.EscapedAs(token[p + 1]).Some? {
      RfcLength(token, p + 2, rest);
      EscapePassed(token, p, rest);
    } else {
      var next := RfcLiteral(token, p).value.next;
      RfcLength(token, next, rest);
      HexDigitsAt(token, p + 2);
      EscapePassed(token, p, rest);
      PlainPassed(token, p + 2, p + 6, rest);
      if next == p + 12 {
        HexDigitsAt(token, p + 8);
        EscapePassed(token, p + 6, rest);
        PlainPassed(token, p + 8, p + 12, rest);
      }
    }
  }

  lemma TokenKept(token: string, content: string, rest: string)
    requires GoodToken(token, content, true)
    ensures RfcMinified(token + rest) == token + RfcMinified(rest)
  {
    hide RfcMinified, RfcStringLength, RfcString;
    var s := token + rest;
    assert s[0] == '"' && s[1..] == token[1..] + rest;
    RfcLength(token, 1, rest);
    RfcQuoteStep(s);
    Parts(token, rest);
  }

  lemma OneRead(c: char, rest: string)
    ensures Rfc8259.IsBlank(c) ==> RfcMinified([c] + rest) == RfcMinified(rest)
    ensures IsPlain(c) ==> RfcMinified([c] + rest) == [c] + RfcMinified(rest)
  {
    var s := [c] + rest;
    assert s[1..] == rest;
    assert IsBlank(c) <==> Rfc8259.IsBlank(c);
  }

  // It is a filter of blanks.
  lemma RfcMinifiedFilters()
    ensures IsFilter(RfcMinified)
  {
    hide RfcMinified, GoodToken;
    forall c: char | Rfc8259.IsBlank(c) ensures Drops(RfcMinified, [c]) {
      forall rest: string ensures RfcMinified([c] + rest) == RfcMinified(rest) {
        OneRead(c, rest);
      }
    }
    forall c: char | IsPlain(c) ensures Keeps(RfcMinified, [c]) {
      forall rest: string ensures RfcMinified([c] + rest) == [c] + RfcMinified(rest) {
        OneRead(c, rest);
      }
    }
    forall token: string, content: string | GoodToken(token, content, true) ensures Keeps(RfcMinified, token) {
      forall rest: string ensures RfcMinified(token + rest) == token + RfcMinified(rest) {
        TokenKept(token, content, rest);
      }
    }
  }

  // ---------- The same text without its blanks ----------

  lemma {:induction false} BareGood(s: Syntax)
    requires Good(s, true)
    ensures Good(Bare(s), true) && Tree(Bare(s)) == Tree(s)
  {
    hide GoodToken, GoodDigits;
    match s {
      case Listed(_, items) =>
        forall i | 0 <= i < |items| ensures Good(Bare(items[i].value), true) && Tree(Bare(items[i].value)) == Tree(items[i].value) {
          BareGood(items[i].value);
        }
        assert Tree(Bare(s)).elems == Tree(s).elems;
      case Keyed(_, fields) =>
        forall i | 0 <= i < |fields|
          ensures Good(Bare(fields[i].value), true) && Tree(Bare(fields[i].value)) == Tree(fields[i].value)
        {
          BareGood(fields[i].value);
        }
        assert Tree(Bare(s)).members == Tree(s).members;
      case _ =>
    }
  }

  lemma {:induction false} BareNested(s: Syntax, room: nat)
    ensures Nested(Bare(s), room) <==> Nested(s, room)
  {
    var t := Bare(s);
    match s {
      case Listed(_, items) =>
        if room > 0 {
          forall i | 0 <= i < |items| ensures Nested(t.items[i].value, room - 1) <==> Nested(items[i].value, room - 1) {
            BareNested(items[i].value, room - 1);
          }
        }
      case Keyed(_, fields) =>
        if room > 0 {
          forall i | 0 <= i < |fields| ensures Nested(t.fields[i].value, room - 1) <==> Nested(fields[i].value, room - 1) {
            BareNested(fields[i].value, room - 1);
          }
        }
      case _ =>
    }
  }

  // ---------- What is parsed ----------

  lemma RfcMinifiedIsBare(lead: string, s: Syntax, trail: string)
    requires Good(s, true) && Blanks(lead, true) && Blanks(trail, true)
    ensures RfcMinified(lead + Written(s) + trail) == Written(Bare(s))
  {
    hide Good, Written, RfcMinified, Bare, IsFilter;
    RfcMinifiedFilters();
    NothingMinified();
    FilterBlanks(RfcMinified, trail, "");
    FilterWritten(RfcMinified, s, trail + "");
    FilterBlanks(RfcMinified, lead, Written(s) + (trail + ""));
    assert lead + Written(s) + trail == lead + (Written(s) + (trail + ""));
    Around(Written(Bare(s)));
  }

  // Minifying a text of the RFC takes its blanks out, and nothing else, exactly when it reads the strings as
  // the RFC does. What is parsed is then the same tree, or the same failure.
  lemma MinifyKeepsMeaning(lead: string, s: Syntax, trail: string)
    requires Good(s, true) && Blanks(lead, true) && Blanks(trail, true)
    ensures var text := lead + Written(s) + trail; var m := Minified(text);
      && (m == Written(Bare(s)) <==> ReadAlike(text, Outside, Outside))
      && (ReadAlike(text, Outside, Outside) ==> Parse(m + "\0", true) == Result(Fits(s, 0), Tree(s), |m|))
      && Parse(text + "\0", true) == Result(Fits(s, 0), Tree(s), |text|)
  {
    hide Good, Written, Minified, RfcMinified, ReadAlike, Parse, Fits, Tree, Bare;
    MinifyFollowsRfc(lead + Written(s) + trail);
    RfcMinifiedIsBare(lead, s, trail);
    BareGood(s);
    BareFits(s);
    StrictDocumentIsRead(lead, s, trail);
    StrictDocumentIsRead("", Bare(s), "");
    Around(Written(Bare(s)));
  }

  lemma NothingMinified()
    ensures RfcMinified("") == ""
  {
  }

  lemma BareFits(s: Syntax)
    ensures Fits(Bare(s), 0) <==> Fits(s, 0)
  {
    BareNested(s, 1000);
  }

  lemma Around(w: string)
    ensures "" + w + "" + "\0" == w + "\0" && w + "" == w
  {
  }

  // So the minified print of a tree is its unformatted print.
  lemma MinifiedPrint(j: Json, format: bool, around: nat, elsewhere: nat)
    requires IsTree(j) && Printable(j)
    ensures var text := ValueText(j, format, around);
      Minified(text) == ValueText(j, false, elsewhere) <==> ReadAlike(text, Outside, Outside)
  {
    hide Good, Written, Printed, Minified, RfcMinified, ReadAlike, Bare, ValueText;
    var s := Printed(j, format, around);
    PrintedIs(j, format, around);
    PrintedIs(j, false, elsewhere);
    PrintedGood(j, format, around);
    PrintedBare(j, format, around, elsewhere);
    MinifyFollowsRfc(Written(s));
    RfcMinifiedIsBare("", s, "");
    assert "" + Written(s) + "" == Written(s);
  }
}
