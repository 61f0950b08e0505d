// cJSON_Minify(): white space and comments taken out of a text, in place.
module Minify {
  import opened CStrings
  import opened Seqs

  predicate IsBlank(c: char) {
    c == ' ' || c == '\t' || c == '\r' || c == '\n'
  }

  // Behind the end of the line, or at the end of the text.
  function SkipLine(s: string): (r: string)
    ensures |r| <= |s|
  {
    if s == "" then "" else if s[0] == '\n' then s[1..] else SkipLine(s[1..])
  }

  function SkipBlock(s: string): (r: string)
    ensures |r| <= |s|
  {
    if s == "" then ""
    else if s[0] == '*' && |s| > 1 && s[1] == '/' then s[2..]
    else SkipBlock(s[1..])
  }

  // What follows the opening quote, up to the closing one. A backslash counts as the start of
  // an escape only in front of a quote.
  function StringLength(s: string): (n: nat)
    ensures n <= |s|
  {
    if s == "" then 0
    else if s[0] == '"' then 1
    else if s[0] == '\\' && |s| > 1 && s[1] == '"' then 2 + StringLength(s[2..])
    else 1 + StringLength(s[1..])
  }

  // The filter, from a text that is left alone.
  function Minified(s: string): (m: string)
    ensures |m| <= |s|
    decreases |s|
  {
    if s == "" then ""
    else if IsBlank(s[0]) then Minified(s[1..])
    else if s[0] == '/' then
      if |s| > 1 && s[1] == '/' then Minified(SkipLine(s[2..]))
      else if |s| > 1 && s[1] == '*' then Minified(SkipBlock(s[2..]))
      else Minified(s[1..])
    else if s[0] == '"' then
      var n := 1 + StringLength(s[1..]);
      s[..n] + Minified(s[n..])
    else [s[0]] + Minified(s[1..])
  }

  // ---------- In place ----------

  // From p on the buffer still holds what it held.
  ghost predicate Unread(b: array<char>, p: nat, text: string)
    reads b
  {
    p <= |text| < b.Length && NulFree(text) && b[p..|text|] == text[p..] && b[|text|] == '\0'
  }

  lemma UnreadAt(b: array<char>, p: nat, text: string)
    requires Unread(b, p, text)
    ensures p <= |text| < b.Length && (b[p] == '\0' <==> p == |text|)
    ensures p < |text| ==>
      b[p] == text[p] && text[p..] == [text[p]] + text[p + 1..] && text[p..][1..] == text[p + 1..] && Unread(b, p + 1, text)
    ensures p + 1 < |text| ==> b[p + 1] == text[p + 1] && text[p..][2..] == text[p + 2..]
    ensures p + 1 == |text| ==> b[p + 1] == '\0'
  {
    if p < |text| {
      assert b[p..|text|][0] == text[p..][0];
      assert b[p + 1..|text|] == b[p..|text|][1..];
      if p + 1 < |text| {
        assert b[p..|text|][1] == text[p..][1];
      }
    }
  }

  // The character at p and the one behind it, which may be the NUL.
  method NextTwo(b: array<char>, p: nat, ghost text: string) returns (c: char, next: char)
    requires Unread(b, p, text) && b[p] != '\0'
    ensures p < |text| && c == text[p] && next == if p + 1 < |text| then text[p + 1] else '\0'
  {
    UnreadAt(b, p, text);
    return b[p], b[p + 1];
  }

  lemma SkipLineStep(text: string, p: nat)
    requires p <= |text|
    ensures SkipLine(text[p..]) == if p == |text| then "" else if text[p] == '\n' then text[p + 1..] else SkipLine(text[p + 1..])
    ensures p == |text| ==> text[p..] == ""
  {
    if p < |text| {
      Next(text, p);
    }
  }

  method SkipOnelineComment(b: array<char>, start: nat, ghost text: string) returns (p: nat)
    requires Unread(b, start, text) && start + 2 <= |text|
    ensures start < p <= |text| && Unread(b, p, text) && text[p..] == SkipLine(text[start + 2..])
  {
    hide Unread, SkipLine;
    UnreadAt(b, start, text);
    UnreadAt(b, start + 1, text);
    p := start + 2;
    while b[p] != '\0'
      invariant start < p <= |text| < b.Length && Unread(b, p, text) && SkipLine(text[start + 2..]) == SkipLine(text[p..])
      decreases |text| - p
    {
      UnreadAt(b, p, text);
      SkipLineStep(text, p);
      if b[p] == '\n' {
        return p + 1;
      }
      p := p + 1;
    }
    UnreadAt(b, p, text);
    SkipLineStep(text, p);
  }

  lemma SkipBlockStep(text: string, p: nat)
    requires p <= |text|
    ensures SkipBlock(text[p..]) ==
      if p == |text| then ""
      else if text[p] == '*' && p + 1 < |text| && text[p + 1] == '/' then text[p + 2..]
      else SkipBlock(text[p + 1..])
    ensures p == |text| ==> text[p..] == ""
  {
    if p < |text| {
      Next(text, p);
      if p + 1 < |text| {
        Next(text, p + 1);
      }
    }
  }

  method SkipMultilineComment(b: array<char>, start: nat, ghost text: string) returns (p: nat)
    requires Unread(b, start, text) && start + 2 <= |text|
    ensures start < p <= |text| && Unread(b, p, text) && text[p..] == SkipBlock(text[start + 2..])
  {
    hide Unread, SkipBlock;
    UnreadAt(b, start, text);
    UnreadAt(b, start + 1, text);
    p := start + 2;
    while b[p] != '\0'
      invariant start < p <= |text| < b.Length && Unread(b, p, text) && SkipBlock(text[start + 2..]) == SkipBlock(text[p..])
      decreases |text| - p
    {
      UnreadAt(b, p, text);
      SkipBlockStep(text, p);
      if b[p] == '*' && b[p + 1] == '/' {
        UnreadAt(b, p + 1, text);
        return p + 2;
      }
      p := p + 1;
    }
    UnreadAt(b, p, text);
    SkipBlockStep(text, p);
  }

  // One character moved down, or left where it is.
  method Move(b: array<char>, p: nat, o: nat, ghost text: string, ghost done: string)
    requires Unread(b, p, text) && p < |text| && o <= p && b[..o] == done
    modifies b
    ensures Unread(b, p + 1, text) && b[..o + 1] == done + [text[p]]
  {
    UnreadAt(b, p, text);
    b[o] := b[p];
    assert b[p + 1..|text|] == old(b[p + 1..|text|]);
  }

  lemma StringStep(text: string, p: nat)
    requires p < |text|
    ensures StringLength(text[p..]) ==
      if text[p] == '"' then 1
      else if text[p] == '\\' && p + 1 < |text| && text[p + 1] == '"' then 2 + StringLength(text[p + 2..])
      else 1 + StringLength(text[p + 1..])
  {
    Next(text, p);
    if p + 1 < |text| {
      Next(text, p + 1);
    }
  }

  // One turn of the loop of minify_string(): a character, or an escaped quote.
  method CopyUnit(b: array<char>, p: nat, o: nat, ghost text: string, ghost kept: string) returns (k: nat, closed: bool)
    requires Unread(b, p, text) && b[p] != '\0' && o <= p && b[..o] == kept
    modifies b
    ensures 1 <= k <= 2 && p + k <= |text| < b.Length && Unread(b, p + k, text) && b[..o + k] == kept + text[p..p + k]
    ensures StringLength(text[p..]) == if closed then k else k + StringLength(text[p + k..])
  {
    hide StringLength;
    var c, next := NextTwo(b, p, text);
    StringStep(text, p);
    Move(b, p, o, text, kept);
    assert text[p..p + 1] == [text[p]];
    if c == '"' {
      return 1, true;
    } else if c == '\\' && next == '"' {
      Move(b, p + 1, o + 1, text, kept + [text[p]]);
      assert text[p..p + 2] == [text[p], text[p + 1]];
      Assoc(kept, [text[p]], [text[p + 1]]);
      return 2, false;
    }
    return 1, false;
  }

  // The same, as a step through the string that begins at start.
  method CopyNext(b: array<char>, ghost start: nat, p: nat, o: nat, ghost text: string, ghost done: string)
    returns (k: nat, closed: bool)
    requires Unread(b, p, text) && b[p] != '\0' && o <= p && start <= p <= |text| && b[..o] == With(done, text, start, p)
    requires StringFrom(text, start, p)
    modifies b
    ensures 1 <= k <= 2 && p + k <= |text| < b.Length && Unread(b, p + k, text) && b[..o + k] == With(done, text, start, p + k)
    ensures if closed then 1 + StringLength(text[start + 1..]) == p + k - start else StringFrom(text, start, p + k)
  {
    hide StringLength, Unread, StringFrom, With;
    k, closed := CopyUnit(b, p, o, text, With(done, text, start, p));
    LongerCopy(done, text, start, p, p + k);
    StringGoesOn(text, start, p, k, closed);
  }

  // The loop of minify_string().
  method CopyString(b: array<char>, ghost start: nat, p0: nat, o0: nat, ghost text: string, ghost done: string)
    returns (p: nat, o: nat)
    requires start < p0 <= |text| < b.Length && o0 <= p0 && Unread(b, p0, text) && b[..o0] == With(done, text, start, p0)
    requires StringFrom(text, start, p0)
    modifies b
    ensures p0 <= p <= |text| && o == o0 + (p - p0) && p == start + 1 + StringLength(text[start + 1..])
    ensures Unread(b, p, text) && b[..o] == With(done, text, start, p)
  {
    hide StringLength, Unread, StringFrom, With;
    p, o := p0, o0;
    while b[p] != '\0'
      invariant p0 <= p <= |text| < b.Length && o == o0 + (p - p0)
      invariant Unread(b, p, text) && b[..o] == With(done, text, start, p) && StringFrom(text, start, p)
      decreases |text| - p
    {
      UnreadAt(b, p, text);
      var k, closed := CopyNext(b, start, p, o, text, done);
      p, o := p + k, o + k;
      if closed {
        return;
      }
    }
    UnreadAt(b, p, text);
    StringIsOpen(text, start);
  }

  method MinifyString(b: array<char>, start: nat, into: nat, ghost text: string, ghost done: string) returns (p: nat, o: nat)
    requires Unread(b, start, text) && start < |text| && text[start] == '"' && into <= start && b[..into] == done
    modifies b
    ensures p == start + 1 + StringLength(text[start + 1..]) && o == into + (p - start)
    ensures Unread(b, p, text) && b[..o] == With(done, text, start, p)
  {
    hide StringLength, Unread, StringFrom, With;
    UnreadAt(b, start, text);
    StringBegins(text, start);
    WithFirst(done, text, start);
    Move(b, start, into, text, done);
    p, o := CopyString(b, start, start + 1, into + 1, text, done);
  }

  // How long the string is, from the middle of it.
  ghost predicate StringFrom(text: string, start: nat, p: nat) {
    start < p <= |text| && 1 + StringLength(text[start + 1..]) == p - start + StringLength(text[p..])
  }

  lemma StringBegins(text: string, start: nat)
    requires start < |text|
    ensures StringFrom(text, start, start + 1)
  {
  }

  lemma StringGoesOn(text: string, start: nat, p: nat, k: nat, closed: bool)
    requires StringFrom(text, start, p) && p + k <= |text|
    requires StringLength(text[p..]) == if closed then k else k + StringLength(text[p + k..])
    ensures closed ==> 1 + StringLength(text[start + 1..]) == p + k - start
    ensures !closed ==> StringFrom(text, start, p + k)
  {
  }

  lemma StringIsOpen(text: string, start: nat)
    requires StringFrom(text, start, |text|)
    ensures 1 + StringLength(text[start + 1..]) == |text| - start
  {
    assert text[|text|..] == "";
    NoLength();
  }

  // What is done, with a piece of the text behind it.
  function With(done: string, text: string, i: nat, j: nat): string
    requires i <= j <= |text|
  {
    done + text[i..j]
  }

  lemma WithFirst(done: string, text: string, i: nat)
    requires i < |text|
    ensures With(done, text, i, i + 1) == done + [text[i]]
  {
    assert text[i..i + 1] == [text[i]];
  }

  lemma LongerCopy(done: string, text: string, i: nat, j: nat, k: nat)
    requires i <= j <= k <= |text|
    ensures With(done, text, i, j) + text[j..k] == With(done, text, i, k)
  {
    Assoc(done, text[i..j], text[j..k]);
    Further(text, i, j, k);
  }

  lemma NoLength()
    ensures StringLength("") == 0
  {
  }

  // The write cursor never passes the read cursor, so the result is what the filter gives on a
  // copy of the text.
  method MinifyInPlace(b: array<char>, ghost text: string)
    requires Unread(b, 0, text)
    modifies b
    ensures var m := Minified(text); b[..|m|] == m && b[|m|] == '\0'
  {
    var p, o := 0, 0;
    ghost var done := "";
    Whole(text);
    UnreadAt(b, p, text);
    while b[p] != '\0'
      invariant o == |done| <= p <= |text| && Unread(b, p, text) && b[..o] == done
      invariant Minified(text) == done + Minified(text[p..])
      decreases |text| - p
    {
      UnreadAt(b, p, text);
      if IsBlank(b[p]) {
        p := p + 1;
      } else if b[p] == '/' {
        if b[p + 1] == '/' {
          p := SkipOnelineComment(b, p, text);
        } else if b[p + 1] == '*' {
          p := SkipMultilineComment(b, p, text);
        } else {
          p := p + 1;
        }
      } else if b[p] == '"' {
        ghost var start := p;
        p, o := MinifyString(b, p, o, text, done);
        StringKept(text, start, p, done);
        done := done + text[start..p];
      } else {
        Assoc(done, [text[p]], Minified(text[p + 1..]));
        Move(b, p, o, text, done);
        done := done + [text[p]];
        p, o := p + 1, o + 1;
      }
    }
    UnreadAt(b, p, text);
    assert text[p..] == "" && done + "" == done;
    b[o] := '\0';
  }

  lemma StringKept(text: string, start: nat, p: nat, done: string)
    requires start < |text| && text[start] == '"' && p == start + 1 + StringLength(text[start + 1..])
    ensures done + Minified(text[start..]) == done + text[start..p] + Minified(text[p..])
  {
    Next(text, start);
    DropDrop(text, start, p - start);
    assert text[start..][..p - start] == text[start..p];
    Assoc(done, text[start..p], Minified(text[p..]));
  }

  // ---------- What the filter leaves alone ----------

  // Outside strings there is neither a blank nor a slash.
  predicate Compact(s: string)
    decreases |s|
  {
    s == "" ||
    if s[0] == '"' then Compact(s[1 + StringLength(s[1..])..])
    else !IsBlank(s[0]) && s[0] != '/' && Compact(s[1..])
  }

  // Exactly such a text is what the filter gives back unchanged.
  lemma {:induction false} CompactStays(s: string)
    ensures Minified(s) == s <==> Compact(s)
    decreases |s|
  {
    if s != "" {
      Next(s, 0);
      Whole(s);
      if s[0] == '"' {
        var n := 1 + StringLength(s[1..]);
        CompactStays(s[n..]);
        QuoteStep(s);
        SameRest(s, n, Minified(s[n..]));
      } else if !IsBlank(s[0]) && s[0] != '/' {
        CompactStays(s[1..]);
        assert Minified(s)[1..] == Minified(s[1..]);
      } else {
        MinifiedShrinks(s);
      }
    }
  }

  lemma SameRest(s: string, n: nat, rest: string)
    requires n <= |s|
    ensures s[..n] + rest == s <==> rest == s[n..]
  {
    Parts(s[..n], rest);
    assert s == s[..n] + s[n..];
  }

  lemma MinifiedShrinks(s: string)
    requires s != "" && (IsBlank(s[0]) || s[0] == '/')
    ensures |Minified(s)| < |s|
  {
  }

  // ---------- Once is enough ----------

  // The string has a closing quote.
  predicate Closed(s: string) {
    s != "" && (s[0] == '"' || Closed(s[if s[0] == '\\' && |s| > 1 && s[1] == '"' then 2 else 1..]))
  }

  // The length of a string does not depend on what follows its closing quote.
  lemma {:induction false} StringStays(s: string, rest: string)
    ensures var n := StringLength(s);
      if Closed(s) then StringLength(s[..n] + rest) == n else n == |s|
    decreases |s|
  {
    if s != "" && s[0] != '"' {
      var k := if s[0] == '\\' && |s| > 1 && s[1] == '"' then 2 else 1;
      var t, n := s[k..], StringLength(s[k..]);
      StringStays(t, rest);
      if Closed(t) {
        var all := s[..k + n] + rest;
        assert all[k..] == t[..n] + rest;
        assert n > 0 && all[0] == s[0] && all[1] == s[1];
      }
    }
  }

  lemma {:induction false} MinifiedIsCompact(s: string)
    ensures Compact(Minified(s))
    decreases |s|
  {
    if s == "" {
    } else if IsBlank(s[0]) {
      MinifiedIsCompact(s[1..]);
    } else if s[0] == '/' {
      MinifiedIsCompact(
        if |s| > 1 && s[1] == '/' then SkipLine(s[2..]) else if |s| > 1 && s[1] == '*' then SkipBlock(s[2..]) else s[1..]);
    } else if s[0] == '"' {
      var n := 1 + StringLength(s[1..]);
      MinifiedIsCompact(s[n..]);
      StringInFront(s, Minified(s[n..]));
    } else {
      MinifiedIsCompact(s[1..]);
      assert Minified(s)[1..] == Minified(s[1..]);
    }
  }

  lemma StringInFront(s: string, rest: string)
    requires s != "" && s[0] == '"' && Compact(rest) && (StringLength(s[1..]) == |s| - 1 ==> rest == "" || Closed(s[1..]))
    ensures Compact(s[..1 + StringLength(s[1..])] + rest)
  {
    var n := StringLength(s[1..]);
    var all := s[..1 + n] + rest;
    StringStays(s[1..], rest);
    assert all[1..] == s[1..][..n] + rest;
    if !Closed(s[1..]) {
      assert all == s;
      assert s[1 + n..] == "";
    } else {
      assert all[1 + n..] == rest;
    }
  }

  // A second run changes nothing.
  lemma MinifyIsIdempotent(s: string)
    ensures Minified(Minified(s)) == Minified(s)
  {
    MinifiedIsCompact(s);
    CompactStays(Minified(s));
  }

  // ---------- Comments ----------

  lemma {:induction false} LineSkipped(c: string, rest: string)
    requires '\n' !in c
    ensures SkipLine(c + "\n" + rest) == rest && SkipLine(c) == ""
  {
    var s := c + "\n" + rest;
    if c == "" {
      assert s == "\n" + rest && s[1..] == rest;
    } else {
      assert s[1..] == c[1..] + "\n" + rest && c == [c[0]] + c[1..];
      LineSkipped(c[1..], rest);
    }
  }

  // No closing mark in it.
  ghost predicate Unclosed(c: string) {
    forall i :: 0 <= i < |c| - 1 ==> !(c[i] == '*' && c[i + 1] == '/')
  }

  lemma {:induction false} BlockSkipped(c: string, rest: string)
    requires Unclosed(c)
    ensures SkipBlock(c + "*/" + rest) == rest && SkipBlock(c) == ""
  {
    var s := c + "*/" + rest;
    if c == "" {
      assert s == "*/" + rest && s[2..] == rest;
    } else {
      assert s[1..] == c[1..] + "*/" + rest;
      assert |c| > 1 ==> !(c[0] == '*' && c[0 + 1] == '/') && s[1] == c[1];
      assert |c| == 1 ==> s[1] == '*';
      assert forall i :: 0 <= i < |c[1..]| ==> c[1..][i] == c[i + 1];
      BlockSkipped(c[1..], rest);
    }
  }

  // A comment up to the end of its line goes, line feed and all, and so does one between the marks; one
  // without an end takes the rest of the text along.
  lemma CommentsGo(c: string, rest: string)
    ensures '\n' !in c ==> Minified("//" + c + "\n" + rest) == Minified(rest) && Minified("//" + c) == ""
    ensures Unclosed(c) ==> Minified("/*" + c + "*/" + rest) == Minified(rest) && Minified("/*" + c) == ""
  {
    hide Minified, SkipLine, SkipBlock;
    if '\n' !in c {
      LineSkipped(c, rest);
      CommentIs("//" + c + "\n" + rest);
      CommentIs("//" + c);
      assert ("//" + c + "\n" + rest)[2..] == c + "\n" + rest && ("//" + c)[2..] == c;
    }
    if Unclosed(c) {
      BlockSkipped(c, rest);
      CommentIs("/*" + c + "*/" + rest);
      CommentIs("/*" + c);
      assert ("/*" + c + "*/" + rest)[2..] == c + "*/" + rest && ("/*" + c)[2..] == c;
    }
    CommentIs("");
  }

  lemma CommentIs(s: string)
    ensures |s| > 1 && s[0] == '/' && s[1] == '/' ==> Minified(s) == Minified(SkipLine(s[2..]))
    ensures |s| > 1 && s[0] == '/' && s[1] == '*' ==> Minified(s) == Minified(SkipBlock(s[2..]))
    ensures s == "" ==> Minified(s) == ""
  {
  }

  // ---------- Reference: the strings of section 7 of RFC 8259 ----------

  // There a backslash takes the next character along, whatever it is.
  function RfcStringLength(s: string): (n: nat)
    ensures n <= |s|
  {
    if s == "" then 0
    else if s[0] == '"' then 1
    else if s[0] == '\\' && |s| > 1 then 2 + RfcStringLength(s[2..])
    else 1 + RfcStringLength(s[1..])
  }

  function RfcMinified(s: string): string
    decreases |s|
  {
    if s == "" then ""
    else if IsBlank(s[0]) then RfcMinified(s[1..])
    else if s[0] == '/' then
      if |s| > 1 && s[1] == '/' then RfcMinified(SkipLine(s[2..]))
      else if |s| > 1 && s[1] == '*' then RfcMinified(SkipBlock(s[2..]))
      else RfcMinified(s[1..])
    else if s[0] == '"' then
      var n := 1 + RfcStringLength(s[1..]);
      s[..n] + RfcMinified(s[n..])
    else [s[0]] + RfcMinified(s[1..])
  }

  // No quote directly behind an escaped backslash.
  predicate Legible(s: string) {
    s == "" || s[0] == '"' ||
    if s[0] == '\\' && |s| > 1 then
      (s[1] == '\\' ==> |s| == 2 || s[2] != '"') && Legible(s[2..])
    else Legible(s[1..])
  }

  predicate AllLegible(s: string)
    decreases |s|
  {
    s == "" ||
    if s[0] == '/' && |s| > 1 && s[1] == '/' then AllLegible(SkipLine(s[2..]))
    else if s[0] == '/' && |s| > 1 && s[1] == '*' then AllLegible(SkipBlock(s[2..]))
    else if s[0] == '"' then Legible(s[1..]) && AllLegible(s[1 + RfcStringLength(s[1..])..])
    else AllLegible(s[1..])
  }

  lemma {:induction false} LegibleLength(s: string)
    requires Legible(s)
    ensures StringLength(s) == RfcStringLength(s)
    decreases |s|
  {
    if s != "" && s[0] != '"' {
      if s[0] == '\\' && |s| > 1 {
        LegibleLength(s[2..]);
        assert s[1..][1..] == s[2..];
      } else {
        LegibleLength(s[1..]);
      }
    }
  }

  // The two readings of a string are of one length exactly when it is legible, or when by the
  // rules it has no end.
  lemma {:induction false} SameLengthExactly(s: string)
    ensures StringLength(s) == RfcStringLength(s) <==> Legible(s) || RfcStringLength(s) == |s|
    ensures StringLength(s) >= RfcStringLength(s)
    decreases |s|
  {
    if s != "" && s[0] != '"' {
      if s[0] == '\\' && |s| > 1 {
        SameLengthExactly(s[2..]);
        assert s[1..][1..] == s[2..];
        if s[1] == '\\' && |s| > 2 && s[2] == '"' {
          var t, u := s[1..], s[2..];
          assert u[0] == '"' && t[0] == '\\' && t[1] == '"' && t[2..] == s[3..];
          NoneLeft(s[3..]);
        }
      } else {
        SameLengthExactly(s[1..]);
      }
    }
  }

  lemma NoneLeft(s: string)
    ensures StringLength(s) == 0 <==> s == ""
  {
  }

  // Where no string has its closing quote behind an escaped backslash, nothing in a string is
  // taken for blank and nothing between two strings for text.
  lemma {:induction false} LegibleFollowsRfc(s: string)
    requires AllLegible(s)
    ensures Minified(s) == RfcMinified(s)
    decreases |s|
  {
    if s == "" {
    } else if s[0] == '/' && |s| > 1 && s[1] == '/' {
      LegibleFollowsRfc(SkipLine(s[2..]));
    } else if s[0] == '/' && |s| > 1 && s[1] == '*' {
      LegibleFollowsRfc(SkipBlock(s[2..]));
    } else if s[0] == '"' {
      LegibleLength(s[1..]);
      LegibleFollowsRfc(s[1 + RfcStringLength(s[1..])..]);
    } else {
      LegibleFollowsRfc(s[1..]);
    }
  }

  // ---------- Both readings at once ----------

  // Outside strings, in one, or behind a backslash that takes the next character along.
  datatype Mode = Outside | Inside | Escaped

  function CodeNext(m: Mode, s: string): Mode
    requires s != ""
  {
    match m
    case Outside => if s[0] == '"' then Inside else Outside
    case Inside => if s[0] == '"' then Outside else if s[0] == '\\' && |s| > 1 && s[1] == '"' then Escaped else Inside
    case Escaped => Inside
  }

  function RfcNext(m: Mode, s: string): Mode
    requires s != ""
  {
    match m
    case Outside => if s[0] == '"' then Inside else Outside
    case Inside => if s[0] == '"' then Outside else if s[0] == '\\' then Escaped else Inside
    case Escaped => Inside
  }

  // Where one reading is in a string and the other is not, there is neither a blank nor a slash.
  predicate ReadAlike(s: string, code: Mode, rfc: Mode)
    decreases |s|
  {
    s == "" ||
    if code.Outside? && rfc.Outside? && s[0] == '/' && |s| > 1 && s[1] == '/' then ReadAlike(SkipLine(s[2..]), Outside, Outside)
    else if code.Outside? && rfc.Outside? && s[0] == '/' && |s| > 1 && s[1] == '*' then ReadAlike(SkipBlock(s[2..]), Outside, Outside)
    else
      && (code.Outside? != rfc.Outside? ==> !IsBlank(s[0]) && s[0] != '/')
      && ReadAlike(s[1..], CodeNext(code, s), RfcNext(rfc, s))
  }

  // What is written from here on.
  function CodeRest(s: string, m: Mode): string {
    match m
    case Outside => Minified(s)
    case Inside => s[..StringLength(s)] + Minified(s[StringLength(s)..])
    case Escaped => if s == "" then "" else [s[0]] + CodeRest(s[1..], Inside)
  }

  function RfcRest(s: string, m: Mode): string {
    match m
    case Outside => RfcMinified(s)
    case Inside => s[..RfcStringLength(s)] + RfcMinified(s[RfcStringLength(s)..])
    case Escaped => if s == "" then "" else [s[0]] + RfcRest(s[1..], Inside)
  }

  // Outside strings blanks and slashes are dropped; everything else is written.
  predicate Dropped(s: string, m: Mode)
    requires s != ""
  {
    m.Outside? && (IsBlank(s[0]) || s[0] == '/')
  }

  lemma CodeStep(s: string, m: Mode)
    requires s != "" && !Dropped(s, m)
    ensures CodeRest(s, m) == [s[0]] + CodeRest(s[1..], CodeNext(m, s))
  {
    hide Minified, StringLength, CodeRest;
    CodeRestIs(s);
    CodeRestIs(s[1..]);
    if m.Outside? && s[0] == '"' {
      var n := StringLength(s[1..]);
      QuoteStep(s);
      OneFirst(s, n, Minified(s[1 + n..]));
      DropDrop(s, 1, n);
    } else if m.Outside? {
      PlainStep(s);
    } else if m.Inside? {
      CodeInside(s);
    }
  }

  lemma CodeInside(s: string)
    requires s != ""
    ensures CodeRest(s, Inside) == [s[0]] + CodeRest(s[1..], CodeNext(Inside, s))
  {
    hide Minified, StringLength, CodeRest;
    StringStep(s, 0);
    Whole(s);
    if s[0] == '"' {
      CodeRestIs(s);
      CodeRestIs(s[1..]);
      assert s[..1] == [s[0]];
    } else if s[0] == '\\' && |s| > 1 && s[1] == '"' {
      CodeEscapes(s);
    } else {
      CodeGoesOn(s);
    }
  }

  lemma CodeEscapes(s: string)
    requires |s| > 1 && StringLength(s) == 2 + StringLength(s[2..])
    ensures CodeRest(s, Inside) == [s[0]] + CodeRest(s[1..], Escaped)
  {
    hide Minified, StringLength, CodeRest;
    var t, n := s[2..], StringLength(s[2..]);
    calc {
      CodeRest(s, Inside);
      { CodeRestIs(s); }
      s[..2 + n] + Minified(s[2 + n..]);
      { DropDrop(s, 2, n); }
      s[..2 + n] + Minified(t[n..]);
      { TwoFirst(s, n, Minified(t[n..])); }
      [s[0]] + ([s[1]] + (t[..n] + Minified(t[n..])));
      { CodeRestIs(t); }
      [s[0]] + ([s[1]] + CodeRest(t, Inside));
      { CodeRestIs(s[1..]); DropDrop(s, 1, 1); }
      [s[0]] + CodeRest(s[1..], Escaped);
    }
  }

  lemma CodeGoesOn(s: string)
    requires s != "" && StringLength(s) == 1 + StringLength(s[1..])
    ensures CodeRest(s, Inside) == [s[0]] + CodeRest(s[1..], Inside)
  {
    hide Minified, StringLength, CodeRest;
    var t, n := s[1..], StringLength(s[1..]);
    calc {
      CodeRest(s, Inside);
      { CodeRestIs(s); }
      s[..1 + n] + Minified(s[1 + n..]);
      { DropDrop(s, 1, n); }
      s[..1 + n] + Minified(t[n..]);
      { OneFirst(s, n, Minified(t[n..])); }
      [s[0]] + (t[..n] + Minified(t[n..]));
      { CodeRestIs(t); }
      [s[0]] + CodeRest(t, Inside);
    }
  }

  lemma CodeRestIs(s: string)
    ensures CodeRest(s, Outside) == Minified(s)
    ensures CodeRest(s, Inside) == s[..StringLength(s)] + Minified(s[StringLength(s)..])
    ensures s != "" ==> CodeRest(s, Escaped) == [s[0]] + CodeRest(s[1..], Inside)
  {
  }

  lemma OneFirst(s: string, n: nat, rest: string)
    requires 1 + n <= |s|
    ensures s[..1 + n] + rest == [s[0]] + (s[1..][..n] + rest)
  {
    assert s[..1 + n] == [s[0]] + s[1..][..n];
  }

  lemma TwoFirst(s: string, n: nat, rest: string)
    requires 2 + n <= |s|
    ensures s[..2 + n] + rest == [s[0]] + ([s[1]] + (s[2..][..n] + rest))
  {
    assert s[..2 + n] == [s[0]] + ([s[1]] + s[2..][..n]);
  }

  lemma RfcStep(s: string, m: Mode)
    requires s != "" && !Dropped(s, m)
    ensures RfcRest(s, m) == [s[0]] + RfcRest(s[1..], RfcNext(m, s))
  {
    hide RfcMinified, RfcStringLength, RfcRest;
    RfcRestIs(s);
    RfcRestIs(s[1..]);
    if m.Outside? && s[0] == '"' {
      var n := RfcStringLength(s[1..]);
      RfcQuoteStep(s);
      OneFirst(s, n, RfcMinified(s[1 + n..]));
      DropDrop(s, 1, n);
    } else if m.Outside? {
      RfcPlainStep(s);
    } else if m.Inside? {
      RfcInside(s);
    }
  }

  lemma RfcInside(s: string)
    requires s != ""
    ensures RfcRest(s, Inside) == [s[0]] + RfcRest(s[1..], RfcNext(Inside, s))
  {
    hide RfcMinified, RfcStringLength, RfcRest;
    RfcLengthStep(s);
    if s[0] == '"' {
      RfcRestIs(s);
      RfcRestIs(s[1..]);
      assert s[..1] == [s[0]];
    } else if s[0] == '\\' && |s| > 1 {
      RfcEscapes(s);
    } else {
      RfcGoesOn(s);
      NothingLeft(s[1..]);
    }
  }

  lemma RfcEscapes(s: string)
    requires |s| > 1 && RfcStringLength(s) == 2 + RfcStringLength(s[2..])
    ensures RfcRest(s, Inside) == [s[0]] + RfcRest(s[1..], Escaped)
  {
    hide RfcMinified, RfcStringLength, RfcRest;
    var t, n := s[2..], RfcStringLength(s[2..]);
    calc {
      RfcRest(s, Inside);
      { RfcRestIs(s); }
      s[..2 + n] + RfcMinified(s[2 + n..]);
      { DropDrop(s, 2, n); }
      s[..2 + n] + RfcMinified(t[n..]);
      { TwoFirst(s, n, RfcMinified(t[n..])); }
      [s[0]] + ([s[1]] + (t[..n] + RfcMinified(t[n..])));
      { RfcRestIs(t); }
      [s[0]] + ([s[1]] + RfcRest(t, Inside));
      { RfcRestIs(s[1..]); DropDrop(s, 1, 1); }
      [s[0]] + RfcRest(s[1..], Escaped);
    }
  }

  lemma RfcGoesOn(s: string)
    requires s != "" && RfcStringLength(s) == 1 + RfcStringLength(s[1..])
    ensures RfcRest(s, Inside) == [s[0]] + RfcRest(s[1..], Inside)
  {
    hide RfcMinified, RfcStringLength, RfcRest;
    var t, n := s[1..], RfcStringLength(s[1..]);
    calc {
      RfcRest(s, Inside);
      { RfcRestIs(s); }
      s[..1 + n] + RfcMinified(s[1 + n..]);
      { DropDrop(s, 1, n); }
      s[..1 + n] + RfcMinified(t[n..]);
      { OneFirst(s, n, RfcMinified(t[n..])); }
      [s[0]] + (t[..n] + RfcMinified(t[n..]));
      { RfcRestIs(t); }
      [s[0]] + RfcRest(t, Inside);
    }
  }

  lemma RfcRestIs(s: string)
    ensures RfcRest(s, Outside) == RfcMinified(s)
    ensures RfcRest(s, Inside) == s[..RfcStringLength(s)] + RfcMinified(s[RfcStringLength(s)..])
    ensures s != "" ==> RfcRest(s, Escaped) == [s[0]] + RfcRest(s[1..], Inside)
  {
  }

  // At the end of the text it does not matter any more what was read.
  lemma NothingLeft(s: string)
    ensures s == "" ==> RfcRest(s, Inside) == "" && RfcRest(s, Escaped) == ""
  {
  }

  lemma RfcLengthStep(s: string)
    requires s != ""
    ensures RfcStringLength(s) ==
      if s[0] == '"' then 1
      else if s[0] == '\\' && |s| > 1 then 2 + RfcStringLength(s[2..])
      else 1 + RfcStringLength(s[1..])
  {
  }

  lemma RfcQuoteStep(s: string)
    requires s != "" && s[0] == '"'
    ensures var n := 1 + RfcStringLength(s[1..]); RfcMinified(s) == s[..n] + RfcMinified(s[n..])
  {
  }

  lemma RfcPlainStep(s: string)
    requires s != "" && !IsBlank(s[0]) && s[0] != '/' && s[0] != '"'
    ensures RfcMinified(s) == [s[0]] + RfcMinified(s[1..])
  {
  }

  // Outside strings nothing is written that begins with a blank or a slash.
  lemma {:induction false} NoBlankFirst(s: string)
    ensures var m, r := Minified(s), RfcMinified(s);
      && (m != "" ==> !IsBlank(m[0]) && m[0] != '/')
      && (r != "" ==> !IsBlank(r[0]) && r[0] != '/')
    decreases |s|
  {
    if s == "" {
    } else if IsBlank(s[0]) {
      NoBlankFirst(s[1..]);
    } else if s[0] == '/' {
      NoBlankFirst(
        if |s| > 1 && s[1] == '/' then SkipLine(s[2..]) else if |s| > 1 && s[1] == '*' then SkipBlock(s[2..]) else s[1..]);
    }
  }

  lemma SameHead(c: char, a: string, b: string)
    ensures [c] + a == [c] + b <==> a == b
  {
    assert ([c] + a)[1..] == a && ([c] + b)[1..] == b;
  }

  // Both readings write the same from here on exactly when they read alike.
  lemma {:induction false} RestsAgree(s: string, code: Mode, rfc: Mode)
    ensures CodeRest(s, code) == RfcRest(s, rfc) <==> ReadAlike(s, code, rfc)
    decreases |s|
  {
    hide CodeRest, RfcRest;
    if s == "" {
      NothingWritten(code, rfc);
    } else if Dropped(s, code) && Dropped(s, rfc) {
      BothDrop(s);
      RestsAgree(SkipDropped(s), Outside, Outside);
    } else if Dropped(s, code) {
      RfcStep(s, rfc);
      OutsideWrites(s);
    } else if Dropped(s, rfc) {
      CodeStep(s, code);
      OutsideWrites(s);
    } else {
      CodeStep(s, code);
      RfcStep(s, rfc);
      SameHead(s[0], CodeRest(s[1..], CodeNext(code, s)), RfcRest(s[1..], RfcNext(rfc, s)));
      RestsAgree(s[1..], CodeNext(code, s), RfcNext(rfc, s));
    }
  }

  lemma NothingWritten(code: Mode, rfc: Mode)
    ensures CodeRest("", code) == "" == RfcRest("", rfc)
  {
  }

  lemma OutsideWrites(s: string)
    ensures CodeRest(s, Outside) == Minified(s) && RfcRest(s, Outside) == RfcMinified(s)
    ensures var m, r := Minified(s), RfcMinified(s);
      (m != "" ==> !IsBlank(m[0]) && m[0] != '/') && (r != "" ==> !IsBlank(r[0]) && r[0] != '/')
  {
    NoBlankFirst(s);
  }

  // What stands behind a blank, a slash or a comment.
  function SkipDropped(s: string): (r: string)
    requires s != "" && Dropped(s, Outside)
    ensures |r| < |s|
  {
    if s[0] == '/' && |s| > 1 && s[1] == '/' then SkipLine(s[2..])
    else if s[0] == '/' && |s| > 1 && s[1] == '*' then SkipBlock(s[2..])
    else s[1..]
  }

  lemma BothDrop(s: string)
    requires s != "" && Dropped(s, Outside)
    ensures CodeRest(s, Outside) == CodeRest(SkipDropped(s), Outside)
    ensures RfcRest(s, Outside) == RfcRest(SkipDropped(s), Outside)
    ensures ReadAlike(s, Outside, Outside) == ReadAlike(SkipDropped(s), Outside, Outside)
  {
  }

  // The result is that of a filter with the strings of RFC 8259 exactly when no blank and no slash
  // stands where one of the two readings is in a string and the other is not.
  lemma MinifyFollowsRfc(s: string)
    ensures Minified(s) == RfcMinified(s) <==> ReadAlike(s, Outside, Outside)
  {
    RestsAgree(s, Outside, Outside);
  }

  // An escaped backslash in front of the closing quote is taken for an escaped quote: in
  // ["\\", "a b"] the second string is taken for what stands between two, and loses its space.
  lemma EscapedBackslashMisreads()
    ensures Minified("[\"\\\\\", \"a b\"]") == "[\"\\\\\", \"ab\"]"
    ensures RfcMinified("[\"\\\\\", \"a b\"]") != Minified("[\"\\\\\", \"a b\"]")
  {
    hide Minified, StringLength, RfcMinified;
    var s := "[\"\\\\\", \"a b\"]";
    var q := s[1..];
    assert q == "\"\\\\\", \"a b\"]" && q[1..] == "\\\\\", \"a b\"]";
    StringEnds(q[1..]);
    QuoteStep(q);
    RestMinified();
    assert q[..7] == "\"\\\\\", \"" && q[7..] == "a b\"]";
    PlainStep(s);
    assert "[" + ("\"\\\\\", \"" + "ab\"]") == "[\"\\\\\", \"ab\"]";
    MisreadAt(s);
    MinifyFollowsRfc(s);
  }

  // Behind the comma one reading is still in the first string, and there is the blank.
  lemma MisreadAt(s: string)
    requires |s| > 6 && s[0] == '[' && s[1] == '"' && s[2] == '\\' && s[3] == '\\' && s[4] == '"' && s[5] == ',' && s[6] == ' '
    ensures !ReadAlike(s, Outside, Outside)
  {
    hide SkipLine, SkipBlock;
    var a, b, c, d, e, f := s[1..], s[2..], s[3..], s[4..], s[5..], s[6..];
    assert a[1..] == b && b[1..] == c && c[1..] == d && d[1..] == e && e[1..] == f;
    assert !ReadAlike(f, Inside, Outside);
    assert !ReadAlike(e, Inside, Outside);
    assert !ReadAlike(d, Escaped, Inside);
    assert !ReadAlike(c, Inside, Escaped);
    assert !ReadAlike(b, Inside, Inside);
    assert !ReadAlike(a, Outside, Outside);
  }

  lemma QuoteStep(s: string)
    requires s != "" && s[0] == '"'
    ensures var n := 1 + StringLength(s[1..]); Minified(s) == s[..n] + Minified(s[n..])
  {
  }

  lemma PlainStep(s: string)
    requires s != "" && !IsBlank(s[0]) && s[0] != '/' && s[0] != '"'
    ensures Minified(s) == [s[0]] + Minified(s[1..])
  {
  }

  lemma RestMinified()
    ensures Minified("a b\"]") == "ab\"]"
  {
    var t := "a b\"]";
    assert t[1..] == " b\"]" && t[1..][1..] == "b\"]" && t[1..][1..][1..] == "\"]";
    assert Minified("\"]") == "\"]" by {
      assert "\"]"[1..] == "]" && StringLength("]") == 1;
    }
    assert Minified(t) == "ab\"]";
  }

  lemma StringEnds(s: string)
    requires s == "\\\\\", \"a b\"]"
    ensures StringLength(s) == 6
  {
    var t := s[1..];
    assert t[0] == '\\' && t[1] == '"' && t[2..] == ", \"a b\"]";
    var u := t[2..];
    assert u[1..] == " \"a b\"]" && u[1..][1..] == "\"a b\"]";
    assert StringLength(u[1..][1..]) == 1;
    assert StringLength(u) == 3;
  }
}
