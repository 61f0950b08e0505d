// What parse_string() makes of the escapes of section 7 of RFC 8259.
module StringCode {
  import opened CStrings
  import opened ParseText
  import opened PrintText
  import opened Rfc8259
  import opened Seqs
  import opened Unicode

  // One unit of a string's text: a character as it is, an escape of one letter, a \uXXXX
  // for a character of the basic plane, or a surrogate pair of two of them.
  datatype Unit = Plain(c: char) | Simple(letter: char) | Literal(h: string) | Pair(high: string, low: string)

  ghost predicate GoodUnit(u: Unit) {
    match u
    case Plain(c) => c != '"' && c != '\\'
    case Simple(letter) => EscapedAs(letter).Some?
    case Literal(h) => IsHex4(h) && !IsHighSurrogate(HexValue(h)) && !IsLowSurrogate(HexValue(h))
    case Pair(high, low) =>
      IsHex4(high) && IsHex4(low) && IsHighSurrogate(HexValue(high)) && IsLowSurrogate(HexValue(low))
  }

  function UnitText(u: Unit): string {
    match u
    case Plain(c) => [c]
    case Simple(letter) => ['\\', letter]
    case Literal(h) => "\\u" + h
    case Pair(high, low) => "\\u" + high + ("\\u" + low)
  }

  ghost function UnitMeaning(u: Unit): string
    requires GoodUnit(u)
  {
    match u
    case Plain(c) => [c]
    case Simple(letter) => [EscapedAs(letter).value]
    case Literal(h) => LiteralMeaning(h)
    case Pair(high, low) => PairMeaning(high, low)
  }

  ghost function LiteralMeaning(h: string): string
    requires IsHex4(h)
  {
    HexValue4(h);
    Utf8(HexValue(h))
  }

  ghost function PairMeaning(high: string, low: string): string
    requires IsHex4(high) && IsHex4(low)
  {
    Utf8(PairValue(HexValue(high), HexValue(low)))
  }

  function TextOf(us: seq<Unit>): string {
    if us == [] then "" else UnitText(us[0]) + TextOf(us[1..])
  }

  ghost predicate GoodUnits(us: seq<Unit>) {
    forall i :: 0 <= i < |us| ==> GoodUnit(us[i])
  }

  ghost function Meaning(us: seq<Unit>): string
    requires GoodUnits(us)
  {
    if us == [] then "" else UnitMeaning(us[0]) + Meaning(us[1..])
  }

  // The letters that the code takes, and what it makes of them, are those of the RFC.
  lemma EscapesAgree(c: char)
    ensures IsSimpleEscape(c) <==> EscapedAs(c).Some?
    ensures IsSimpleEscape(c) ==> EscapedAs(c) == Some(Unescape(c))
  {
  }

  // So are the digits of \u and their values.
  lemma DigitsAgree(c: char)
    ensures IsHexDigit(c) <==> c in LOWER_DIGITS || c in UPPER_DIGITS
    ensures IsHexDigit(c) ==>
      var d := HexDigitValue(c); d < 16 && (c == LOWER_DIGITS[d] || c == UPPER_DIGITS[d])
  {
    if IsHexDigit(c) {
      var d := HexDigitValue(c);
      assert LOWER_DIGITS[d] in LOWER_DIGITS && UPPER_DIGITS[d] in UPPER_DIGITS;
    }
  }

  // The code points beyond the basic plane are written as pairs (section 2.1 of RFC 2781), each half from
  // its own range, and every pair of such halves writes one.
  lemma PairsAgree(c: nat)
    requires 0x10000 <= c <= 0x10FFFF
    ensures var high, low := 0xD800 + (c - 0x10000) / 0x400, 0xDC00 + (c - 0x10000) % 0x400;
      IsHighSurrogate(high) && IsLowSurrogate(low) && PairValue(high, low) == c
  {
  }

  lemma HalvesAgree(h: nat, low: nat)
    ensures IsHighSurrogate(h) || IsLowSurrogate(h) <==> 0xD800 <= h < 0xE000
    ensures IsHighSurrogate(h) && IsLowSurrogate(low) ==>
      var c := PairValue(h, low);
      0x10000 <= c <= 0x10FFFF && h == 0xD800 + (c - 0x10000) / 0x400 && low == 0xDC00 + (c - 0x10000) % 0x400
  {
  }

  // What printing writes for one character: the seven short escapes, \u00 and two digits for the other
  // control characters, and every other character as it is.
  lemma EscapeOneIs(c: char)
    ensures var n := c as int;
      EscapeOne(c) ==
        if n == 0x22 || n == 0x5C then [0x5C as char, c]
        else if n == 0x08 then [0x5C as char, 'b']
        else if n == 0x0C then [0x5C as char, 'f']
        else if n == 0x0A then [0x5C as char, 'n']
        else if n == 0x0D then [0x5C as char, 'r']
        else if n == 0x09 then [0x5C as char, 't']
        else if n < 0x20 then "\\u00" + [LOWER_DIGITS[n / 16], LOWER_DIGITS[n % 16]]
        else [c]
  {
  }

  // ---------- Words in a text ----------

  lemma WordSplit(text: string, p: nat, a: string, b: string)
    requires AtWord(text, p, a + b)
    ensures AtWord(text, p, a) && AtWord(text, p + |a|, b)
  {
    var w := text[p..p + |a| + |b|];
    assert text[p..p + |a|] == w[..|a|] && text[p + |a|..p + |a| + |b|] == w[|a|..];
    Parts(a, b);
  }

  lemma WordChar(text: string, p: nat, s: string, i: nat)
    requires AtWord(text, p, s) && i < |s|
    ensures p + |s| <= |text| && text[p + i] == s[i]
  {
    assert text[p..p + |s|][i] == s[i];
  }

  lemma HexAt(text: string, p: nat, h: string)
    requires IsHex4(h) && AtWord(text, p, "\\u" + h)
    ensures text[p] == '\\' && text[p + 1] == 'u' && text[p + 2..p + 6] == h
    ensures forall i :: p + 2 <= i < p + 6 ==> text[i] != '\\' && text[i] != '"'
  {
    WordSplit(text, p, "\\u", h);
    WordChar(text, p, "\\u", 0);
    WordChar(text, p, "\\u", 1);
    forall i | p + 2 <= i < p + 6 ensures text[i] != '\\' && text[i] != '"' {
      WordChar(text, p + 2, h, i - p - 2);
    }
  }

  // ---------- One unit ----------

  // The sizing pass goes over the plain characters.
  lemma {:induction false} EndFurther(text: string, p: nat, q: nat)
    requires p <= q <= |text| && forall i :: p <= i < q ==> text[i] != '\\' && text[i] != '"'
    ensures StringEnd(text, p) == StringEnd(text, q)
    decreases q - p
  {
    if p < q {
      EndFurther(text, p + 1, q);
    }
  }

  lemma UnitSized(text: string, p: nat, u: Unit)
    requires GoodUnit(u) && AtWord(text, p, UnitText(u))
    ensures StringEnd(text, p) == StringEnd(text, p + |UnitText(u)|)
  {
    match u {
      case Plain(c) => WordChar(text, p, [c], 0);
      case Simple(letter) =>
        WordChar(text, p, ['\\', letter], 0);
      case Literal(h) =>
        HexAt(text, p, h);
        EndFurther(text, p + 2, p + 6);
      case Pair(high, low) =>
        WordSplit(text, p, "\\u" + high, "\\u" + low);
        HexAt(text, p, high);
        HexAt(text, p + 6, low);
        EndFurther(text, p + 2, p + 6);
        EndFurther(text, p + 8, p + 12);
    }
  }

  lemma UnitDecoded(text: string, p: nat, u: Unit, end: nat)
    requires GoodUnit(u) && AtWord(text, p, UnitText(u)) && p + |UnitText(u)| <= end < |text|
    ensures DecodeString(text, p, end) == Prefixed(UnitMeaning(u), DecodeString(text, p + |UnitText(u)|, end))
  {
    match u {
      case Plain(c) => WordChar(text, p, [c], 0);
      case Simple(letter) =>
        EscapesAgree(letter);
        WordChar(text, p, ['\\', letter], 0);
        WordChar(text, p, ['\\', letter], 1);
      case Literal(h) => HexAt(text, p, h);
      case Pair(high, low) =>
        WordSplit(text, p, "\\u" + high, "\\u" + low);
        HexAt(text, p, high);
        HexAt(text, p + 6, low);
    }
  }

  // ---------- Any mix of them ----------

  lemma {:induction false} UnitsSized(text: string, p: nat, us: seq<Unit>)
    requires GoodUnits(us) && AtWord(text, p, TextOf(us))
    ensures StringEnd(text, p) == StringEnd(text, p + |TextOf(us)|)
    decreases |us|
  {
    hide UnitText, StringEnd, AtWord;
    if us != [] {
      var q := p + |UnitText(us[0])|;
      WordSplit(text, p, UnitText(us[0]), TextOf(us[1..]));
      UnitSized(text, p, us[0]);
      UnitsSized(text, q, us[1..]);
      assert q + |TextOf(us[1..])| == p + |TextOf(us)|;
    }
  }

  lemma {:induction false} UnitsDecoded(text: string, p: nat, us: seq<Unit>, end: nat)
    requires GoodUnits(us) && AtWord(text, p, TextOf(us)) && p + |TextOf(us)| <= end < |text|
    ensures DecodeString(text, p, end) == Prefixed(Meaning(us), DecodeString(text, p + |TextOf(us)|, end))
    decreases |us|
  {
    hide UnitText, UnitMeaning, DecodeString, AtWord, Prefixed;
    if us == [] {
      PrefixedNothing(DecodeString(text, p, end));
    } else {
      var q := p + |UnitText(us[0])|;
      assert q + |TextOf(us[1..])| == p + |TextOf(us)|;
      WordSplit(text, p, UnitText(us[0]), TextOf(us[1..]));
      UnitDecoded(text, p, us[0], end);
      UnitsDecoded(text, q, us[1..], end);
      PrefixedTwice(UnitMeaning(us[0]), Meaning(us[1..]), DecodeString(text, p + |TextOf(us)|, end));
    }
  }

  lemma EndHere(text: string, end: nat)
    requires At(text, end, '"')
    ensures StringEnd(text, end) == Some(end) && DecodeString(text, end, end) == Some("")
  {
  }

  // A string of any such units reads as their meaning, which is a C string.
  lemma EscapedTextDecodes(text: string, p: nat, us: seq<Unit>)
    requires GoodUnits(us) && AtWord(text, p, "\"" + TextOf(us) + "\"")
    ensures ParseString(text, p) == Some(Parsed(CString(Meaning(us)), p + |TextOf(us)| + 2))
  {
    var end := p + 1 + |TextOf(us)|;
    hide TextOf, Meaning, UnitText, StringEnd, DecodeString, CString;
    WordSplit(text, p, "\"" + TextOf(us), "\"");
    WordSplit(text, p, "\"", TextOf(us));
    WordChar(text, p, "\"", 0);
    WordChar(text, end, "\"", 0);
    EndHere(text, end);
    UnitsSized(text, p + 1, us);
    UnitsDecoded(text, p + 1, us, end);
    assert Meaning(us) + "" == Meaning(us);
  }

  // A low surrogate, or a high one that no low one follows.
  ghost predicate Lone(text: string, q: nat, h: string, end: nat)
    requires IsHex4(h) && end < |text|
  {
    || IsLowSurrogate(HexValue(h))
    || (IsHighSurrogate(HexValue(h)) &&
        !(q + 12 <= end && AtWord(text, q + 6, "\\u") && IsLowSurrogate(Hex4(text[q + 8..q + 12]))))
  }

  lemma LoneDecodesNot(text: string, q: nat, h: string, end: nat)
    requires IsHex4(h) && AtWord(text, q, "\\u" + h) && q < end < |text| && Lone(text, q, h, end)
    ensures DecodeString(text, q, end) == None
  {
    HexAt(text, q, h);
    if q + 12 <= end {
      assert AtWord(text, q + 6, "\\u") <==> text[q + 6] == '\\' && text[q + 7] == 'u';
    }
  }

  // A lone surrogate makes the string fail, whatever surrounds it.
  lemma LoneSurrogateFails(text: string, p: nat, us: seq<Unit>, h: string, end: nat)
    requires GoodUnits(us) && IsHex4(h) && AtWord(text, p, "\"" + TextOf(us) + ("\\u" + h))
    requires StringEnd(text, p + 1) == Some(end) && Lone(text, p + 1 + |TextOf(us)|, h, end)
    ensures ParseString(text, p) == None
  {
    hide TextOf, Meaning, UnitText, StringEnd, DecodeString, Lone, IsHex4;
    var q := p + 1 + |TextOf(us)|;
    WordSplit(text, p, "\"" + TextOf(us), "\\u" + h);
    WordSplit(text, p, "\"", TextOf(us));
    WordChar(text, p, "\"", 0);
    UnitsSized(text, p + 1, us);
    EndBehind(text, q, h, end);
    UnitsDecoded(text, p + 1, us, end);
    LoneDecodesNot(text, q, h, end);
  }

  lemma EndBehind(text: string, q: nat, h: string, end: nat)
    requires IsHex4(h) && AtWord(text, q, "\\u" + h) && StringEnd(text, q) == Some(end)
    ensures q + 6 <= end < |text|
  {
    HexAt(text, q, h);
    EndFurther(text, q + 2, q + 6);
  }

  // Digits that are none do not make it fail: they read as zero, where the C string ends. What
  // follows them matters only if it makes the string fail itself.
  lemma BadDigitsEndTheString(text: string, p: nat, us: seq<Unit>, h: string, end: nat)
    requires GoodUnits(us) && |h| == 4 && !IsHex4(h) && AtWord(text, p, "\"" + TextOf(us) + ("\\u" + h))
    requires StringEnd(text, p + 1) == Some(end) && p + |TextOf(us)| + 7 <= end
    ensures ParseString(text, p) ==
      if DecodeString(text, p + |TextOf(us)| + 7, end) == None then None
      else Some(Parsed(CString(Meaning(us)), end + 1))
  {
    hide TextOf, Meaning, UnitText, StringEnd, DecodeString, CString;
    var q := p + 1 + |TextOf(us)|;
    WordSplit(text, p, "\"" + TextOf(us), "\\u" + h);
    WordSplit(text, p, "\"", TextOf(us));
    WordSplit(text, q, "\\u", h);
    WordChar(text, p, "\"", 0);
    UnitsDecoded(text, p + 1, us, end);
    BadDigitsDecode(text, q, h, end);
    var rest := DecodeString(text, q + 6, end);
    if rest.Some? {
      CutAtNul(Meaning(us), rest.value);
    }
  }

  lemma BadDigitsDecode(text: string, q: nat, h: string, end: nat)
    requires |h| == 4 && !IsHex4(h) && AtWord(text, q, "\\u") && AtWord(text, q + 2, h) && q + 6 <= end < |text|
    ensures DecodeString(text, q, end) == Prefixed(['\0'], DecodeString(text, q + 6, end))
  {
    WordChar(text, q, "\\u", 0);
    WordChar(text, q, "\\u", 1);
    assert Utf8(0) == ['\0'];
  }

  lemma {:induction false} CutAtNul(s: string, rest: string)
    ensures CString(s + (['\0'] + rest)) == CString(s)
  {
    var all := s + (['\0'] + rest);
    if s == "" {
      assert all[0] == '\0';
    } else {
      assert all[0] == s[0] && all[1..] == s[1..] + (['\0'] + rest);
      CutAtNul(s[1..], rest);
    }
  }

  // ---------- What printing writes ----------

  function UnitOf(c: char): Unit {
    if HasShortEscape(c) then Simple(ShortEscape(c))
    else if c < ' ' then Literal("00" + [HexChar(c as int / 16), HexChar(c as int % 16)])
    else Plain(c)
  }

  function UnitsOf(s: string): seq<Unit> {
    if s == "" then [] else [UnitOf(s[0])] + UnitsOf(s[1..])
  }

  lemma UnitOfIs(c: char)
    ensures GoodUnit(UnitOf(c)) && UnitText(UnitOf(c)) == EscapeOne(c) && UnitMeaning(UnitOf(c)) == [c]
  {
    if !HasShortEscape(c) && c < ' ' {
      var h := "00" + [HexChar(c as int / 16), HexChar(c as int % 16)];
      assert HexDigitValue(HexChar(c as int / 16)) == c as int / 16 && HexDigitValue(HexChar(c as int % 16)) == c as int % 16;
      HexValue4(h);
    }
  }

  lemma {:induction false} UnitsOfIs(s: string)
    ensures GoodUnits(UnitsOf(s)) && TextOf(UnitsOf(s)) == Escape(s) && Meaning(UnitsOf(s)) == s
  {
    if s != "" {
      UnitOfIs(s[0]);
      UnitsOfIs(s[1..]);
      assert UnitsOf(s)[1..] == UnitsOf(s[1..]);
      Next(s, 0);
      Whole(s);
    }
  }

  lemma {:induction false} CStringWhole(s: string)
    requires NulFree(s)
    ensures CString(s) == s
  {
    if s != "" {
      CStringWhole(s[1..]);
      Next(s, 0);
      Whole(s);
    }
  }

  // Reading a printed string gives it back.
  lemma StringReads(text: string, p: nat, s: string)
    requires NulFree(s) && AtWord(text, p, StringText(s))
    ensures At(text, p, '"')
    ensures ParseString(text, p) == Some(Parsed(s, p + |StringText(s)|))
  {
    UnitsOfIs(s);
    CStringWhole(s);
    EscapedTextDecodes(text, p, UnitsOf(s));
  }
}
