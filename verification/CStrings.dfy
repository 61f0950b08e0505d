// The C string comparisons and conversions that the JSON code relies on.
// A C string is a sequence of characters without its terminating NUL.
module CStrings {

  datatype Option<+T> = None | Some(value: T)

  // What every C string is.
  ghost predicate NulFree(s: string) {
    forall i :: 0 <= i < |s| ==> s[i] != '\0'
  }

  // The string that a buffer holds, up to its first NUL.
  function CString(b: seq<char>): string {
    if b == [] || b[0] == '\0' then "" else [b[0]] + CString(b[1..])
  }

  lemma {:induction false} CStringIs(r: seq<char>, key: string)
    requires |r| > |key| && r[|key|] == '\0' && NulFree(key)
    ensures CString(r) == key <==> r[..|key|] == key
  {
    if key == "" {
      assert r[..0] == key;
    } else if r[0] == key[0] {
      CStringIs(r[1..], key[1..]);
      assert r[..|key|] == [r[0]] + r[1..][..|key| - 1];
      assert key == [key[0]] + key[1..];
    }
  }

  // What was read from a text, and the place behind it.
  datatype Parsed<+T> = Parsed(value: T, next: nat)

  // tolower() in the "C" locale.
  function ToLower(c: char): char {
    if 'A' <= c <= 'Z' then (c as int + 32) as char else c
  }

  function Fold(c: char, caseSensitive: bool): char {
    if caseSensitive then c else ToLower(c)
  }

  function FoldString(s: string, caseSensitive: bool): (r: string)
    ensures |r| == |s|
    ensures forall i :: 0 <= i < |s| ==> r[i] == Fold(s[i], caseSensitive)
  {
    seq(|s|, i requires 0 <= i < |s| => Fold(s[i], caseSensitive))
  }

  // strcmp() when case matters, the folding loop of compare_strings() when it does not.
  function CompareStrings(a: string, b: string, caseSensitive: bool): int {
    if a == [] && b == [] then 0
    else if a == [] then -1
    else if b == [] then 1
    else
      var x, y := Fold(a[0], caseSensitive), Fold(b[0], caseSensitive);
      if x == y then CompareStrings(a[1..], b[1..], caseSensitive) else x as int - y as int
  }

  predicate Before(a: string, b: string, caseSensitive: bool) {
    CompareStrings(a, b, caseSensitive) < 0
  }

  predicate SameName(a: string, b: string, caseSensitive: bool) {
    FoldString(a, caseSensitive) == FoldString(b, caseSensitive)
  }

  lemma {:induction false} CompareZero(a: string, b: string, caseSensitive: bool)
    ensures CompareStrings(a, b, caseSensitive) == 0 <==> SameName(a, b, caseSensitive)
  {
    var f, g := FoldString(a, caseSensitive), FoldString(b, caseSensitive);
    if a != [] && b != [] {
      if f[0] == g[0] {
        CompareZero(a[1..], b[1..], caseSensitive);
        assert FoldString(a[1..], caseSensitive) == f[1..];
        assert FoldString(b[1..], caseSensitive) == g[1..];
        assert f == [f[0]] + f[1..] && g == [g[0]] + g[1..];
      } else {
        assert f != g;
      }
    } else if a != [] || b != [] {
      assert |f| != |g|;
    }
  }

  lemma CompareExact(a: string, b: string)
    ensures CompareStrings(a, b, true) == 0 <==> a == b
  {
    CompareZero(a, b, true);
    assert FoldString(a, true) == a && FoldString(b, true) == b;
  }

  lemma {:induction false} CompareFlip(a: string, b: string, caseSensitive: bool)
    ensures CompareStrings(a, b, caseSensitive) < 0 <==> CompareStrings(b, a, caseSensitive) > 0
  {
    if a != [] && b != [] && Fold(a[0], caseSensitive) == Fold(b[0], caseSensitive) {
      CompareFlip(a[1..], b[1..], caseSensitive);
    }
  }

  // Neither string before the other, or the first before the second: this relation is transitive.
  lemma {:induction false} CompareTransitive(a: string, b: string, c: string, caseSensitive: bool)
    requires CompareStrings(a, b, caseSensitive) <= 0 && CompareStrings(b, c, caseSensitive) <= 0
    ensures CompareStrings(a, c, caseSensitive) <= 0
    ensures Before(a, b, caseSensitive) || Before(b, c, caseSensitive) ==> Before(a, c, caseSensitive)
  {
    if a != [] && b != [] && c != [] {
      var x, y, z := Fold(a[0], caseSensitive), Fold(b[0], caseSensitive), Fold(c[0], caseSensitive);
      if x == y && y == z {
        CompareTransitive(a[1..], b[1..], c[1..], caseSensitive);
      }
    }
  }

  // The code of a character, with those of A to Z as those of a to z when case does not matter.
  function Code(c: char, caseSensitive: bool): int {
    if !caseSensitive && 0x41 <= c as int <= 0x5A then c as int + 0x20 else c as int
  }

  // Alike up to there, and then the one ends, or has the smaller character.
  ghost predicate FirstAt(a: string, b: string, n: nat, caseSensitive: bool) {
    && n <= |a| && n < |b| && (forall i :: 0 <= i < n ==> Code(a[i], caseSensitive) == Code(b[i], caseSensitive))
    && (n < |a| ==> Code(a[n], caseSensitive) < Code(b[n], caseSensitive))
  }

  // The order of the dictionary: a proper prefix comes first, or else the first difference decides.
  lemma {:induction false} BeforeExactly(a: string, b: string, caseSensitive: bool)
    ensures Before(a, b, caseSensitive) <==> exists n: nat :: FirstAt(a, b, n, caseSensitive)
  {
    if a == [] || b == [] || Fold(a[0], caseSensitive) != Fold(b[0], caseSensitive) {
      if Before(a, b, caseSensitive) {
        assert FirstAt(a, b, 0, caseSensitive);
      }
    } else {
      BeforeExactly(a[1..], b[1..], caseSensitive);
      if Before(a, b, caseSensitive) {
        var n: nat :| FirstAt(a[1..], b[1..], n, caseSensitive);
        assert forall i :: 1 <= i <= n ==> a[i] == a[1..][i - 1] && b[i] == b[1..][i - 1];
        assert FirstAt(a, b, n + 1, caseSensitive);
      }
      forall n: nat | FirstAt(a, b, n, caseSensitive) ensures FirstAt(a[1..], b[1..], n - 1, caseSensitive) {
      }
    }
  }

  // sprintf("%lu") and the digits of sprintf("%d").
  function Decimal(n: nat): (s: string)
    ensures s != "" && forall c <- s :: IsDigit(c)
    ensures |s| > 1 ==> s[0] != '0'
    decreases n
  {
    if n < 10 then [DigitChar(n)] else Decimal(n / 10) + [DigitChar(n % 10)]
  }

  predicate IsDigit(c: char) {
    '0' <= c <= '9'
  }

  function DigitChar(d: nat): (c: char)
    requires d < 10
    ensures IsDigit(c) && DigitValue(c) == d
  {
    ('0' as int + d) as char
  }

  function DigitValue(c: char): (d: nat)
    requires IsDigit(c)
    ensures d < 10
  {
    c as int - '0' as int
  }

  // The number that a string of digits writes in base ten.
  function DecimalValue(s: string): nat
    requires forall c <- s :: IsDigit(c)
  {
    if s == [] then 0 else 10 * DecimalValue(s[..|s| - 1]) + DigitValue(s[|s| - 1])
  }

  lemma {:induction false} DecimalRoundTrip(n: nat)
    ensures DecimalValue(Decimal(n)) == n
  {
    var s := Decimal(n);
    if n >= 10 {
      DecimalRoundTrip(n / 10);
      assert s[..|s| - 1] == Decimal(n / 10);
    } else {
      assert s[..0] == [];
    }
  }

  function Tens(n: nat): nat {
    if n == 0 then 1 else 10 * Tens(n - 1)
  }

  // In base ten: each digit counts for as many powers of ten as digits follow it.
  lemma {:induction false} DecimalFromFront(s: string)
    requires s != "" && forall c <- s :: IsDigit(c)
    ensures DecimalValue(s) == (s[0] as int - 0x30) * Tens(|s| - 1) + DecimalValue(s[1..])
  {
    var init, rest := s[..|s| - 1], s[1..];
    if |s| > 1 {
      DecimalFromFront(init);
      assert rest[..|rest| - 1] == init[1..];
      var c, t := s[0] as int - 0x30, Tens(|s| - 2);
      assert 10 * (c * t) == c * (10 * t);
    }
  }
}
