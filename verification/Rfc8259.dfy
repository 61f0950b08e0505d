// The characters of RFC 8259 by their numbers: blanks, escapes and digits.
module Rfc8259 {
  import opened CStrings

  // Section 2: space, tab, line feed, carriage return.
  predicate IsBlank(c: char) {
    c as int == 0x20 || c as int == 0x09 || c as int == 0x0A || c as int == 0x0D
  }

  // Section 7: what a backslash and this character stand for. An escape of four digits is none of these.
  function EscapedAs(letter: char): Option<char> {
    var l := letter as int;
    if l == 0x22 then Some(0x22 as char)
    else if l == 0x5C then Some(0x5C as char)
    else if l == 0x2F then Some(0x2F as char)
    else if l == 0x62 then Some(0x08 as char)
    else if l == 0x66 then Some(0x0C as char)
    else if l == 0x6E then Some(0x0A as char)
    else if l == 0x72 then Some(0x0D as char)
    else if l == 0x74 then Some(0x09 as char)
    else None
  }

  const LOWER_DIGITS: string := "0123456789abcdef"
  const UPPER_DIGITS: string := "0123456789ABCDEF"
}
