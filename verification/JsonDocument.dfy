// Whole JSON texts: a value between blanks, as cJSON_ParseWithLengthOpts() reads it.
module JsonDocument {
  import opened GrammarReads
  import opened GrammarWritten
  import opened JsonGrammar
  import opened ParseText
  import opened Rfc8259
  import opened Seqs
  import opened StrictString
  import opened StringCode

  // A byte order mark is passed over in front of at least two more characters.
  function Mark(text: string): nat {
    if |text| > 4 && text[0] as int == 0xEF && text[1] as int == 0xBB && text[2] as int == 0xBF then 3 else 0
  }

  lemma MarkIs(text: string)
    ensures SkipBom(text) == Mark(text) <= |text|
  {
    if |text| > 4 {
      assert text[..3] == [text[0], text[1], text[2]];
    }
  }

  // A well-written value between blanks, and a NUL behind it, is read to the NUL, unless it is nested too
  // deeply. Without the demand for a NUL anything may stand behind the value.
  lemma DocumentIsRead(text: string, lead: string, s: Syntax, trail: string, requireTerminated: bool)
    requires Good(s, false) && Blanks(lead, false) && Blanks(trail, false)
    requires var v := Mark(text) + |lead|; var e := v + |Written(s)|;
      && AtWord(text, Mark(text), lead) && AtWord(text, v, Written(s))
      && (requireTerminated ==> text[e..] == trail + "\0")
      && (!requireTerminated ==> trail == "" && (s.Digits? ==> Stops(text, e)))
    ensures Parse(text, requireTerminated)
      == Result(Fits(s, 0), Tree(s), Mark(text) + |lead| + |Written(s)| + |trail|)
  {
    hide AtWord, Good, Blanks, ParseValue, SkipWhitespace, SpaceBetween, Stops, Fits, Tree;
    MarkIs(text);
    var b, v := Mark(text), Mark(text) + |lead|;
    var e := v + |Written(s)|;
    WrittenBegins(s);
    WordChar(text, v, Written(s), 0);
    BlanksAt(text, b, lead, b);
    SkipTo(text, b, v);
    if requireTerminated {
      EndsWithNul(text, e, trail);
    }
    WrittenIsRead(text, v, s, 0);
  }

  // Blanks up to a last NUL are passed over, but not the NUL.
  lemma EndsWithNul(text: string, e: nat, trail: string)
    requires e <= |text| && text[e..] == trail + "\0" && Blanks(trail, false)
    ensures SkipWhitespace(text, e) == e + |trail| == |text| - 1 && At(text, |text| - 1, '\0') && Stops(text, e)
  {
    var q := e + |trail|;
    assert forall i :: e <= i < |text| ==> text[i] == text[e..][i - e];
    assert text[q] == '\0' && |text| == q + 1;
    SpacesToEnd(text, e);
    assert IsSpace(text[e]);
  }

  lemma {:induction false} SpacesToEnd(text: string, p: nat)
    requires p <= |text| && forall i :: p <= i < |text| ==> IsSpace(text[i])
    ensures SkipSpaces(text, p) == |text|
    decreases |text| - p
  {
    if p < |text| {
      SpacesToEnd(text, p + 1);
    }
  }

  // Whatever text is taken is a well-written value behind blanks, and behind more blanks there is the NUL
  // that was asked for.
  lemma DocumentIsWritten(text: string, requireTerminated: bool) returns (lead: string, s: Syntax, trail: string)
    requires Parse(text, requireTerminated).Some?
    ensures Blanks(lead, false) && Good(s, false) && Blanks(trail, false) && Fits(s, 0)
    ensures var r := Parse(text, requireTerminated).value;
      && Mark(text) <= r.next <= |text| && text[Mark(text)..r.next] == lead + Written(s) + trail && r.value == Tree(s)
      && (if requireTerminated then At(text, r.next, '\0') else trail == "")
  {
    MarkIs(text);
    var b := Mark(text);
    var v := SkipWhitespace(text, b);
    var r := ParseValue(text, v, 0).value;
    var end := Parse(text, requireTerminated).value.next;
    Skipped(text, b);
    Skipped(text, r.next);
    s := ReadIsWritten(text, v, 0);
    lead, trail := text[b..v], text[r.next..end];
    Further(text, b, v, r.next);
    Further(text, b, r.next, end);
    NoBlanks();
  }

  // So every text that the RFC lets stand for a tree, within the nesting limit and without \u0000, is read.
  lemma StrictDocumentIsRead(lead: string, s: Syntax, trail: string)
    requires Good(s, true) && Blanks(lead, true) && Blanks(trail, true)
    ensures var text := lead + Written(s) + trail + "\0";
      Parse(text, true) == Result(Fits(s, 0), Tree(s), |text| - 1)
  {
    hide Good, Written, Parse, Fits, Tree, Stops;
    var text := lead + Written(s) + trail + "\0";
    StrictIsTaken(s);
    WrittenBegins(s);
    assert Blanks(lead, false) && Blanks(trail, false);
    assert text[0] == if lead != "" then lead[0] else Written(s)[0];
    Pieces(lead, Written(s), trail);
    DocumentIsRead(text, lead, s, trail, true);
  }

  lemma Pieces(lead: string, word: string, trail: string)
    ensures var text := lead + word + trail + "\0"; var e := |lead| + |word|;
      AtWord(text, 0, lead) && AtWord(text, |lead|, word) && e <= |text| && text[e..] == trail + "\0"
  {
    var text := lead + word + trail + "\0";
    assert text[0..|lead|] == lead && text[|lead|..|lead| + |word|] == word && text[|lead| + |word|..] == trail + "\0";
  }

  // ---------- What is taken besides the RFC ----------

  ghost predicate OnlyBlanks(s: string) {
    forall i :: 0 <= i < |s| ==> IsBlank(s[i])
  }

  // Every blank is a space, a tab, a line feed or a carriage return, no number has leading zeros, and no
  // string or key has a bare control character, \u0000, or a \u without four digits.
  ghost predicate OnlyRfc(s: Syntax) {
    match s
    case Digits(_, digits, _) => |digits| > 1 ==> digits[0] != '0'
    case Quoted(token, _) => |token| > 0 && MeetsNone(token, 1, |token| - 1)
    case Listed(inner, items) =>
      && OnlyBlanks(inner)
      && forall i :: 0 <= i < |items| ==>
           OnlyBlanks(items[i].before) && OnlyBlanks(items[i].after) && OnlyRfc(items[i].value)
    case Keyed(inner, fields) =>
      && OnlyBlanks(inner)
      && forall i :: 0 <= i < |fields| ==> OnlyRfcField(fields[i]) && OnlyRfc(fields[i].value)
    case _ => true
  }

  ghost predicate OnlyRfcField(x: Field) {
    && OnlyBlanks(x.before) && OnlyBlanks(x.left) && OnlyBlanks(x.right) && OnlyBlanks(x.after)
    && |x.token| > 0 && MeetsNone(x.token, 1, |x.token| - 1)
  }

  lemma StrictTokenExactly(token: string, content: string)
    requires GoodToken(token, content, false)
    ensures GoodToken(token, content, true) <==> |token| > 0 && MeetsNone(token, 1, |token| - 1)
  {
    hide RfcString, MeetsNone, DecodeString, StringEnd;
    ParseFollowsRfc(token, 0);
    CStringNulFree(DecodeString(token, 1, StringEnd(token, 1).value).value);
  }

  // What the code takes is a text of the RFC exactly when none of these is in it.
  lemma {:induction false} StrictExactly(s: Syntax)
    requires Good(s, false)
    ensures Good(s, true) <==> OnlyRfc(s)
  {
    hide GoodToken, MeetsNone;
    match s {
      case Quoted(token, content) => StrictTokenExactly(token, content);
      case Listed(_, items) =>
        forall i | 0 <= i < |items| ensures Good(items[i].value, true) <==> OnlyRfc(items[i].value) {
          StrictExactly(items[i].value);
        }
      case Keyed(_, fields) =>
        forall i | 0 <= i < |fields|
          ensures Good(fields[i].value, true) <==> OnlyRfc(fields[i].value)
          ensures GoodField(fields[i], true) <==> OnlyRfcField(fields[i])
        {
          StrictTokenExactly(fields[i].token, fields[i].key);
          StrictExactly(fields[i].value);
        }
      case _ =>
    }
  }
}
