// How far parse_string() is the reader of section 7 of RFC 8259.
module StrictString {
  import opened CStrings
  import opened ParseText
  import opened PrintText
  import opened Rfc8259
  import opened Seqs
  import opened StringCode
  import opened Unicode

  // ---------- Reference: one pass, unit by unit ----------

  // Four digits, or a surrogate pair of twice four; a lone surrogate is no character.
  function RfcLiteral(text: string, p: nat): (r: Option<Parsed<nat>>)
    ensures r.Some? ==> p + 6 <= r.value.next <= |text| && r.value.value <= 0x10FFFF
  {
    if p + 6 > |text| || !IsHex4(text[p + 2..p + 6]) then None
    else
      HexValue4(text[p + 2..p + 6]);
      var first := HexValue(text[p + 2..p + 6]);
      if IsLowSurrogate(first) then None
      else if !IsHighSurrogate(first) then Some(Parsed(first, p + 6))
      else if p + 12 > |text| || text[p + 6] != '\\' || text[p + 7] != 'u' || !IsHex4(text[p + 8..p + 12]) then None
      else
        var second := HexValue(text[p + 8..p + 12]);
        if !IsLowSurrogate(second) then None else Some(Parsed(PairValue(first, second), p + 12))
  }

  // From behind the opening quote: the string, and the place behind the closing quote. Control
  // characters have to be escaped.
  function RfcString(text: string, p: nat): (r: Option<Parsed<string>>)
    decreases |text| - p
  {
    if p >= |text| || text[p] < ' ' then None
    else if text[p] == '"' then Some(Parsed("", p + 1))
    else if text[p] != '\\' then Put([text[p]], RfcString(text, p + 1))
    else if p + 1 >= |text| then None
    else if EscapedAs(text[p + 1]).Some? then Put([EscapedAs(text[p + 1]).value], RfcString(text, p + 2))
    else if text[p + 1] != 'u' then None
    else match RfcLiteral(text, p)
      case None => None
      case Some(u) => Put(Utf8(u.value), RfcString(text, u.next))
  }

  function Put(s: string, rest: Option<Parsed<string>>): Option<Parsed<string>> {
    if rest.Some? then Some(Parsed(s + rest.value.value, rest.value.next)) else None
  }

  function RfcReads(text: string, p: nat): Option<Parsed<string>> {
    if At(text, p, '"') then RfcString(text, p + 1) else None
  }

  // ---------- What the code meets ----------

  // On its way to the closing quote the code meets no bare control character, and no \u whose four
  // digits write zero or are not digits.
  predicate MeetsNone(text: string, p: nat, end: nat)
    requires end < |text|
    decreases if p < end then end - p else 0
  {
    p >= end ||
    if text[p] != '\\' then text[p] >= ' ' && MeetsNone(text, p + 1, end)
    else if IsSimpleEscape(text[p + 1]) then MeetsNone(text, p + 2, end)
    else match Utf16Literal(text, p, end)
      case None => false
      case Some(u) => Hex4(text[p + 2..p + 6]) != 0 && MeetsNone(text, u.next, end)
  }

  // ---------- One unit ----------

  lemma Utf8NulFree(c: nat)
    requires 0 < c <= 0x10FFFF
    ensures NulFree(Utf8(c))
  {
    assert (0x80 as char) != '\0';
  }

  lemma NulFreeJoin(a: string, b: string)
    ensures NulFree(a + b) <==> NulFree(a) && NulFree(b)
  {
    if NulFree(a + b) {
      forall i | 0 <= i < |a| ensures a[i] != '\0' {
        assert (a + b)[i] == a[i];
      }
      forall i | 0 <= i < |b| ensures b[i] != '\0' {
        assert (a + b)[|a| + i] == b[i];
      }
    }
  }

  // Where the four digits write a number, both readers take the literal for the same.
  lemma SameLiteral(text: string, p: nat, end: nat)
    requires p + 6 <= end < |text| && Utf16Literal(text, p, end).Some? && Hex4(text[p + 2..p + 6]) != 0
    ensures RfcLiteral(text, p) == Utf16Literal(text, p, end) && Utf16Literal(text, p, end).value.value > 0
  {
    HexValue4(text[p + 2..p + 6]);
  }

  // Where they write zero or are none, the reference refuses, or reads a NUL.
  lemma ZeroLiteral(text: string, p: nat)
    requires p + 6 <= |text| && Hex4(text[p + 2..p + 6]) == 0
    ensures RfcLiteral(text, p) == None || RfcLiteral(text, p) == Some(Parsed(0, p + 6))
  {
  }

  // The sizing pass goes over a literal that is one.
  lemma LiteralSized(text: string, p: nat, end: nat)
    requires p + 6 <= end < |text| && text[p] == '\\' && text[p + 1] == 'u'
    requires Utf16Literal(text, p, end).Some? && Hex4(text[p + 2..p + 6]) != 0
    ensures StringEnd(text, Utf16Literal(text, p, end).value.next) == StringEnd(text, p)
  {
    hide StringEnd;
    HexHasNoEscape(text, p + 2);
    EscapeSized(text, p);
    EndFurther(text, p + 2, p + 6);
    if IsHighSurrogate(Hex4(text[p + 2..p + 6])) {
      HexHasNoEscape(text, p + 8);
      EscapeSized(text, p + 6);
      EndFurther(text, p + 8, p + 12);
    }
  }

  lemma EscapeSized(text: string, p: nat)
    requires p + 2 <= |text| && text[p] == '\\'
    ensures StringEnd(text, p) == StringEnd(text, p + 2)
  {
  }

  lemma HexHasNoEscape(text: string, p: nat)
    requires p + 4 <= |text| && Hex4(text[p..p + 4]) != 0
    ensures forall i :: p <= i < p + 4 ==> text[i] != '\\' && text[i] != '"'
  {
    assert IsHex4(text[p..p + 4]);
    forall i | p <= i < p + 4 ensures IsHexDigit(text[i]) {
      assert text[i] == text[p..p + 4][i - p];
    }
  }

  // ---------- The whole string ----------

  // r is what the code reads as well: the same octets, none of them NUL.
  ghost predicate Reads(r: Option<Parsed<string>>, s: string, next: nat) {
    r == Some(Parsed(s, next)) && NulFree(s)
  }

  // The reference refuses, or reads a NUL.
  ghost predicate Differs(r: Option<Parsed<string>>) {
    r == None || !NulFree(r.value.value)
  }

  lemma PutReads(a: string, r: Option<Parsed<string>>, s: string, next: nat)
    requires NulFree(a)
    ensures Reads(r, s, next) ==> Reads(Put(a, r), a + s, next)
    ensures Differs(r) ==> Differs(Put(a, r))
  {
    NulFreeJoin(a, s);
    if r.Some? {
      NulFreeJoin(a, r.value.value);
    }
  }

  lemma PutNul(a: string, r: Option<Parsed<string>>)
    requires !NulFree(a)
    ensures Differs(Put(a, r))
  {
    if r.Some? {
      NulFreeJoin(a, r.value.value);
    }
  }

  lemma {:induction false} StringsAgree(text: string, p: nat, end: nat)
    requires p <= end < |text| && StringEnd(text, p) == Some(end) && DecodeString(text, p, end).Some?
    ensures if MeetsNone(text, p, end) then Reads(RfcString(text, p), DecodeString(text, p, end).value, end + 1)
            else Differs(RfcString(text, p))
    decreases end - p
  {
    hide Reads, Differs, NulFree;
    if p == end {
      NothingReads(end + 1);
    } else if text[p] != '\\' {
      PlainAgrees(text, p, end);
    } else if IsSimpleEscape(text[p + 1]) {
      SimpleAgrees(text, p, end);
    } else {
      LiteralAgrees(text, p, end);
    }
  }

  lemma NothingReads(next: nat)
    ensures Reads(Some(Parsed("", next)), "", next)
  {
  }

  lemma {:induction false} PlainAgrees(text: string, p: nat, end: nat)
    requires p < end < |text| && StringEnd(text, p) == Some(end) && DecodeString(text, p, end).Some? && text[p] != '\\'
    ensures if MeetsNone(text, p, end) then Reads(RfcString(text, p), DecodeString(text, p, end).value, end + 1)
            else Differs(RfcString(text, p))
    decreases end - p, 0
  {
    hide Reads;
    StringsAgree(text, p + 1, end);
    if text[p] >= ' ' {
      PutReads([text[p]], RfcString(text, p + 1), DecodeString(text, p + 1, end).value, end + 1);
    }
  }

  lemma {:induction false} SimpleAgrees(text: string, p: nat, end: nat)
    requires p < end < |text| && StringEnd(text, p) == Some(end) && DecodeString(text, p, end).Some?
    requires text[p] == '\\' && IsSimpleEscape(text[p + 1])
    ensures if MeetsNone(text, p, end) then Reads(RfcString(text, p), DecodeString(text, p, end).value, end + 1)
            else Differs(RfcString(text, p))
    decreases end - p, 0
  {
    hide Reads, Differs;
    EscapeSized(text, p);
    StringsAgree(text, p + 2, end);
    EscapesAgree(text[p + 1]);
    PutReads([Unescape(text[p + 1])], RfcString(text, p + 2), DecodeString(text, p + 2, end).value, end + 1);
  }

  lemma {:induction false} LiteralAgrees(text: string, p: nat, end: nat)
    requires p < end < |text| && StringEnd(text, p) == Some(end) && DecodeString(text, p, end).Some?
    requires text[p] == '\\' && !IsSimpleEscape(text[p + 1])
    ensures if MeetsNone(text, p, end) then Reads(RfcString(text, p), DecodeString(text, p, end).value, end + 1)
            else Differs(RfcString(text, p))
    decreases end - p, 0
  {
    hide Reads, NulFree, Utf8, Utf16Literal, RfcLiteral, Hex4;
    var u := Utf16Literal(text, p, end).value;
    if Hex4(text[p + 2..p + 6]) == 0 {
      ZeroLiteral(text, p);
      NulIsThere();
      PutNul(Utf8(0), RfcString(text, p + 6));
    } else {
      SameLiteral(text, p, end);
      LiteralSized(text, p, end);
      Utf8NulFree(u.value);
      StringsAgree(text, u.next, end);
      PutReads(Utf8(u.value), RfcString(text, u.next), DecodeString(text, u.next, end).value, end + 1);
    }
  }

  lemma NulIsThere()
    ensures !NulFree(Utf8(0))
  {
    assert Utf8(0)[0] == '\0';
  }

  // What the reference reads, the code reads too.
  lemma {:induction false} RfcIsRead(text: string, p: nat)
    requires p <= |text| && RfcString(text, p).Some?
    ensures StringEnd(text, p).Some? && p <= StringEnd(text, p).value
    ensures DecodeString(text, p, StringEnd(text, p).value).Some?
    decreases |text| - p
  {
    if text[p] == '"' {
    } else if text[p] != '\\' {
      RfcIsRead(text, p + 1);
    } else if IsSimpleEscape(text[p + 1]) {
      RfcIsRead(text, p + 2);
    } else {
      LiteralIsRead(text, p);
    }
  }

  lemma {:induction false} LiteralIsRead(text: string, p: nat)
    requires p + 2 <= |text| && RfcString(text, p).Some? && text[p] == '\\' && text[p + 1] == 'u'
    ensures StringEnd(text, p).Some? && p <= StringEnd(text, p).value
    ensures DecodeString(text, p, StringEnd(text, p).value).Some?
    decreases |text| - p, 0
  {
    hide StringEnd, Utf8;
    var u := RfcLiteral(text, p).value;
    RfcIsRead(text, u.next);
    HexDigitsAt(text, p + 2);
    EscapeSized(text, p);
    EndFurther(text, p + 2, p + 6);
    if u.next == p + 12 {
      HexDigitsAt(text, p + 8);
      EscapeSized(text, p + 6);
      EndFurther(text, p + 8, p + 12);
    }
    var end := StringEnd(text, p).value;
    assert Utf16Literal(text, p, end) == Some(u);
  }

  lemma HexDigitsAt(text: string, p: nat)
    requires p + 4 <= |text| && IsHex4(text[p..p + 4])
    ensures forall i :: p <= i < p + 4 ==> text[i] != '\\' && text[i] != '"'
  {
    forall i | p <= i < p + 4 ensures IsHexDigit(text[i]) {
      assert text[i] == text[p..p + 4][i - p];
    }
  }

  lemma {:induction false} CStringNulFree(s: string)
    ensures NulFree(CString(s)) && (NulFree(s) ==> CString(s) == s)
  {
    if s != "" && s[0] != '\0' {
      CStringNulFree(s[1..]);
    }
  }

  // parse_string() reads what section 7 of RFC 8259 lets a reader read exactly when it fails, or when
  // it meets no bare control character, no \u0000, and no \u without four digits.
  lemma ParseFollowsRfc(text: string, p: nat)
    ensures ParseString(text, p) == RfcReads(text, p) <==>
      ParseString(text, p) == None || MeetsNone(text, p + 1, StringEnd(text, p + 1).value)
  {
    hide StringEnd, DecodeString, RfcString, MeetsNone;
    if At(text, p, '"') {
      var end := StringEnd(text, p + 1);
      if RfcString(text, p + 1).Some? {
        RfcIsRead(text, p + 1);
      }
      if end.Some? && DecodeString(text, p + 1, end.value).Some? {
        StringsAgree(text, p + 1, end.value);
        CStringNulFree(DecodeString(text, p + 1, end.value).value);
      }
    }
  }

  // So a \u with letters that are no digits is taken for the end of the string.
  lemma BadDigitsAreTaken()
    ensures ParseString("\"\\uZZZZ\"", 0) == Some(Parsed("", 8)) && RfcReads("\"\\uZZZZ\"", 0) == None
  {
    var text := "\"\\uZZZZ\"";
    assert text[3..7] == "ZZZZ" && "ZZZZ"[0] == 'Z' && !IsHexDigit('Z');
    EscapeSized(text, 1);
    EndFurther(text, 3, 7);
    EndHere(text, 7);
    assert TextOf([]) == "" && "\"" + "" + ("\\u" + "ZZZZ") == "\"\\uZZZZ";
    assert text[0..7] == "\"\\uZZZZ";
    BadDigitsEndTheString(text, 0, [], "ZZZZ", 7);
    assert Meaning([]) == "";
  }

  // ---------- What the reference reads, and what printing writes for it ----------

  // No control character stands for itself.
  predicate Escaped(us: seq<Unit>) {
    forall i :: 0 <= i < |us| ==> us[i].Plain? ==> us[i].c >= ' '
  }

  lemma UnitStrict(text: string, p: nat, u: Unit)
    requires GoodUnit(u) && (u.Plain? ==> u.c >= ' ') && AtWord(text, p, UnitText(u))
    ensures RfcString(text, p) == Put(UnitMeaning(u), RfcString(text, p + |UnitText(u)|))
  {
    match u {
      case Plain(c) => WordChar(text, p, [c], 0);
      case Simple(letter) =>
        WordChar(text, p, ['\\', letter], 0);
        WordChar(text, p, ['\\', letter], 1);
      case Literal(h) => HexAt(text, p, h);
      case Pair(high, low) =>
        WordSplit(text, p, "\\u" + high, "\\u" + low);
        HexAt(text, p, high);
        HexAt(text, p + 6, low);
    }
  }

  lemma PutTwice(a: string, b: string, r: Option<Parsed<string>>)
    ensures Put(a, Put(b, r)) == Put(a + b, r) && Put("", r) == r
  {
    if r.Some? {
      Assoc(a, b, r.value.value);
      assert "" + r.value.value == r.value.value;
    }
  }

  lemma {:induction false} UnitsStrict(text: string, p: nat, us: seq<Unit>)
    requires GoodUnits(us) && Escaped(us) && AtWord(text, p, TextOf(us))
    ensures RfcString(text, p) == Put(Meaning(us), RfcString(text, p + |TextOf(us)|))
    decreases |us|
  {
    hide UnitText, UnitMeaning, RfcString, AtWord, Put, GoodUnit;
    if us == [] {
      PutTwice("", "", RfcString(text, p));
    } else {
      var q := p + |UnitText(us[0])|;
      assert q + |TextOf(us[1..])| == p + |TextOf(us)|;
      WordSplit(text, p, UnitText(us[0]), TextOf(us[1..]));
      UnitStrict(text, p, us[0]);
      UnitsStrict(text, q, us[1..]);
      PutTwice(UnitMeaning(us[0]), Meaning(us[1..]), RfcString(text, q + |TextOf(us[1..])|));
    }
  }

  lemma {:induction false} PrintedUnits(s: string)
    ensures Escaped(UnitsOf(s))
  {
    if s != "" {
      PrintedUnits(s[1..]);
      assert forall i :: 0 < i < |UnitsOf(s)| ==> UnitsOf(s)[i] == UnitsOf(s[1..])[i - 1];
    }
  }

  // A printed string is one that the RFC reads, and as that string.
  lemma PrintedIsStrict(s: string)
    ensures RfcReads(StringText(s), 0) == Some(Parsed(s, |StringText(s)|))
  {
    hide RfcString, Escape, UnitsOf, Meaning, TextOf;
    var text, us := StringText(s), UnitsOf(s);
    UnitsOfIs(s);
    PrintedUnits(s);
    assert text[1..1 + |TextOf(us)|] == TextOf(us);
    UnitsStrict(text, 1, us);
    ClosesHere(text, |text| - 1);
    assert s + "" == s;
  }

  lemma ClosesHere(text: string, p: nat)
    requires At(text, p, '"')
    ensures RfcString(text, p) == Some(Parsed("", p + 1))
  {
  }
}
