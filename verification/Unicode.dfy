// UTF-16 literals in a text and the UTF-8 that they are turned into.
module Unicode {
  import opened CStrings

  predicate IsHexDigit(c: char) {
    '0' <= c <= '9' || 'A' <= c <= 'F' || 'a' <= c <= 'f'
  }

  function HexDigitValue(c: char): (d: nat)
    requires IsHexDigit(c)
    ensures d < 16
  {
    if '0' <= c <= '9' then c as int - '0' as int
    else if 'A' <= c <= 'F' then c as int - 'A' as int + 10
    else c as int - 'a' as int + 10
  }

  // The number that a string of hexadecimal digits writes.
  function HexValue(s: string): nat
    requires forall i :: 0 <= i < |s| ==> IsHexDigit(s[i])
  {
    if s == "" then 0 else 16 * HexValue(s[..|s| - 1]) + HexDigitValue(s[|s| - 1])
  }

  lemma HexValue4(s: string)
    requires IsHex4(s)
    ensures HexValue(s) == 4096 * HexDigitValue(s[0]) + 256 * HexDigitValue(s[1]) + 16 * HexDigitValue(s[2]) + HexDigitValue(s[3])
  {
    var a, b, c := s[..1], s[..2], s[..3];
    assert s[..4] == s && c[..2] == b && b[..1] == a && a[..0] == "";
    assert HexValue(a) == HexDigitValue(s[0]);
    assert HexValue(b) == 16 * HexValue(a) + HexDigitValue(s[1]);
    assert HexValue(c) == 16 * HexValue(b) + HexDigitValue(s[2]);
  }

  predicate IsHex4(s: string) {
    |s| == 4 && forall i :: 0 <= i < 4 ==> IsHexDigit(s[i])
  }

  // parse_hex4(): zero when one of the four is no digit.
  function Hex4(s: string): (h: nat)
    requires |s| == 4
    ensures h <= 0xFFFF
  {
    if IsHex4(s) then HexValue4(s); HexValue(s) else 0
  }

  predicate IsHighSurrogate(h: nat) {
    0xD800 <= h <= 0xDBFF
  }

  predicate IsLowSurrogate(h: nat) {
    0xDC00 <= h <= 0xDFFF
  }

  function PairValue(high: nat, low: nat): nat {
    0x10000 + high % 0x400 * 0x400 + low % 0x400
  }

  // utf16_literal_to_utf8(): the code point of one literal or of a surrogate pair, and the
  // place behind it.
  function Utf16Literal(text: string, p: nat, end: nat): (r: Option<Parsed<nat>>)
    requires end <= |text|
    ensures r.Some? ==> p + 6 <= r.value.next <= end && r.value.value <= 0x10FFFF
  {
    if p + 6 > end then None
    else
      var first := Hex4(text[p + 2..p + 6]);
      if IsLowSurrogate(first) then None
      else if !IsHighSurrogate(first) then Some(Parsed(first, p + 6))
      else if p + 12 > end || text[p + 6] != '\\' || text[p + 7] != 'u' then None
      else
        var second := Hex4(text[p + 8..p + 12]);
        if !IsLowSurrogate(second) then None else Some(Parsed(PairValue(first, second), p + 12))
  }

  // A continuation octet, from the bits above so many.
  function Continuation(c: nat, unit: nat): char
    requires unit > 0
  {
    (0x80 + c / unit % 64) as char
  }

  function Utf8(c: nat): (s: string)
    requires c <= 0x10FFFF
    ensures 1 <= |s| <= 4
  {
    if c < 0x80 then [c as char]
    else if c < 0x800 then [(0xC0 + c / 64) as char, Continuation(c, 1)]
    else if c < 0x10000 then [(0xE0 + c / 4096) as char, Continuation(c, 64), Continuation(c, 1)]
    else [(0xF0 + c / 262144) as char, Continuation(c, 4096), Continuation(c, 64), Continuation(c, 1)]
  }

  // parse_hex4() itself: a shift after each digit but the last.
  method ParseHex4(text: string, p: nat) returns (h: nat)
    requires p + 4 <= |text|
    ensures h == Hex4(text[p..p + 4])
  {
    ghost var s := text[p..p + 4];
    h := 0;
    for i := 0 to 4
      invariant forall k :: 0 <= k < i ==> IsHexDigit(s[k])
      invariant h == HexValue(s[..i]) * if 0 < i < 4 then 16 else 1
    {
      var c := text[p + i];
      assert c == s[i] && s[..i + 1][..i] == s[..i];
      if '0' <= c <= '9' {
        h := h + (c as int - '0' as int);
      } else if 'A' <= c <= 'F' {
        h := h + (10 + c as int - 'A' as int);
      } else if 'a' <= c <= 'f' {
        h := h + (10 + c as int - 'a' as int);
      } else {
        return 0;
      }
      if i < 3 {
        h := h * 16;
      }
    }
    assert s[..4] == s;
  }

  // The tail of utf16_literal_to_utf8(): the octets from the last to the first, six bits each.
  method EncodeUtf8(codepoint: nat, output: array<char>, at: nat) returns (length: nat)
    requires codepoint <= 0x10FFFF && at + |Utf8(codepoint)| <= output.Length
    modifies output
    ensures length == |Utf8(codepoint)| && output[..at + length] == old(output[..at]) + Utf8(codepoint)
  {
    var mark;
    if codepoint < 0x80 {
      length, mark := 1, 0;
    } else if codepoint < 0x800 {
      length, mark := 2, 0xC0;
    } else if codepoint < 0x10000 {
      length, mark := 3, 0xE0;
    } else {
      length, mark := 4, 0xF0;
    }
    var rest, position := codepoint, length - 1;
    while position > 0
      invariant 0 <= position < length
      invariant output[..at] == old(output[..at])
      invariant forall k :: position < k < length ==> output[at + k] == Utf8(codepoint)[k]
      invariant rest == codepoint / match length - 1 - position { case 0 => 1 case 1 => 64 case 2 => 4096 case _ => 262144 }
    {
      output[at + position] := (0x80 + rest % 64) as char;
      rest := rest / 64;
      position := position - 1;
    }
    output[at] := (mark + rest) as char;
    assert forall k :: 0 <= k < length ==> output[at + k] == Utf8(codepoint)[k];
    assert output[at..at + length] == Utf8(codepoint);
    assert output[..at + length] == output[..at] + output[at..at + length];
  }

  // utf16_literal_to_utf8(): how far to go on in the text and in the output, or zero.
  method Utf16LiteralToUtf8(text: string, p: nat, end: nat, output: array<char>, at: nat) returns (sequence: nat, length: nat)
    requires end <= |text|
    requires var u := Utf16Literal(text, p, end); u.Some? ==> at + |Utf8(u.value.value)| <= output.Length
    modifies output
    ensures var u := Utf16Literal(text, p, end);
      if u.None? then sequence == 0
      else
        && sequence == u.value.next - p && length == |Utf8(u.value.value)|
        && output[..at + length] == old(output[..at]) + Utf8(u.value.value)
  {
    length := 0;
    if end < p + 6 {
      return 0, 0;
    }
    var first := ParseHex4(text, p + 2);
    if 0xDC00 <= first <= 0xDFFF {
      return 0, 0;
    }
    var codepoint := first;
    sequence := 6;
    if 0xD800 <= first <= 0xDBFF {
      sequence := 12;
      if end < p + 12 || text[p + 6] != '\\' || text[p + 7] != 'u' {
        return 0, 0;
      }
      var second := ParseHex4(text, p + 8);
      if second < 0xDC00 || second > 0xDFFF {
        return 0, 0;
      }
      codepoint := 0x10000 + (first % 0x400 * 0x400 + second % 0x400);
    }
    length := EncodeUtf8(codepoint, output, at);
  }

  // ---------- Reference: section 3 of RFC 3629 ----------

  // The bits of a continuation octet.
  function Payload(c: char): Option<nat> {
    if 0x80 <= c as int < 0xC0 then Some(c as int - 0x80) else None
  }

  // The character number that a sequence of octets stands for, by the number of octets in the
  // first one. It must not fit a shorter sequence.
  function CharacterNumber(s: string): Option<nat> {
    if |s| == 1 then (if s[0] as int < 0x80 then Some(s[0] as int) else None)
    else if |s| == 2 && 0xC0 <= s[0] as int < 0xE0 && Payload(s[1]).Some? then
      AtLeast(0x80, (s[0] as int - 0xC0) * 0x40 + Payload(s[1]).value)
    else if |s| == 3 && 0xE0 <= s[0] as int < 0xF0 && Payload(s[1]).Some? && Payload(s[2]).Some? then
      AtLeast(0x800, (s[0] as int - 0xE0) * 0x1000 + Payload(s[1]).value * 0x40 + Payload(s[2]).value)
    else if |s| == 4 && 0xF0 <= s[0] as int < 0xF8 && Payload(s[1]).Some? && Payload(s[2]).Some? && Payload(s[3]).Some? then
      AtLeast(0x10000, (s[0] as int - 0xF0) * 0x40000 + Payload(s[1]).value * 0x1000 + Payload(s[2]).value * 0x40
                       + Payload(s[3]).value)
    else None
  }

  function AtLeast(bound: nat, n: nat): Option<nat> {
    if bound <= n <= 0x10FFFF then Some(n) else None
  }

  lemma Utf8IsRfc3629(c: nat)
    requires c <= 0x10FFFF
    ensures CharacterNumber(Utf8(c)) == Some(c)
  {
    assert c / 4096 / 64 == c / 262144 && c / 64 / 64 == c / 4096;
    assert c == c / 64 * 64 + c % 64;
  }
}
