// Filters that take the blanks out of JSON texts and leave everything else.
module JsonFilter {
  import opened JsonGrammar
  import opened Rfc8259

  // The same without its blanks.
  function Bare(s: Syntax): Syntax {
    match s
    case Listed(_, items) =>
      Listed("", seq(|items|, i requires 0 <= i < |items| => Item("", Bare(items[i].value), "")))
    case Keyed(_, fields) =>
      Keyed("", seq(|fields|, i requires 0 <= i < |fields| =>
        Field("", fields[i].token, fields[i].key, "", "", Bare(fields[i].value), "")))
    case _ => s
  }

  // Of a character that is neither blank, nor a quote, nor a slash.
  predicate IsPlain(c: char) {
    !IsBlank(c) && c != '"' && c != '/'
  }

  ghost predicate Drops(f: string -> string, word: string) {
    forall rest: string {:trigger f(word + rest)} :: f(word + rest) == f(rest)
  }

  ghost predicate Keeps(f: string -> string, word: string) {
    forall rest: string {:trigger f(word + rest)} :: f(word + rest) == word + f(rest)
  }

  // It drops a blank in front, and keeps a plain character and a whole string.
  ghost predicate IsFilter(f: string -> string) {
    && (forall c: char :: IsBlank(c) ==> Drops(f, [c]))
    && (forall c: char :: IsPlain(c) ==> Keeps(f, [c]))
    && (forall token: string, content: string :: GoodToken(token, content, true) ==> Keeps(f, token))
  }

  lemma {:induction false} FilterBlanks(f: string -> string, s: string, rest: string)
    requires IsFilter(f) && Blanks(s, true)
    ensures f(s + rest) == f(rest)
  {
    hide GoodToken;
    if s == "" {
      assert s + rest == rest;
    } else {
      assert s + rest == [s[0]] + (s[1..] + rest);
      assert Drops(f, [s[0]]);
      FilterBlanks(f, s[1..], rest);
    }
  }

  lemma {:induction false} FilterPlain(f: string -> string, s: string, rest: string)
    requires IsFilter(f) && forall i :: 0 <= i < |s| ==> IsPlain(s[i])
    ensures f(s + rest) == s + f(rest)
  {
    hide GoodToken;
    if s == "" {
      assert s + rest == rest && s + f(rest) == f(rest);
    } else {
      assert s + rest == [s[0]] + (s[1..] + rest);
      assert Keeps(f, [s[0]]);
      FilterPlain(f, s[1..], rest);
      assert s + f(rest) == [s[0]] + (s[1..] + f(rest));
    }
  }

  lemma FilterToken(f: string -> string, token: string, content: string, rest: string)
    requires IsFilter(f) && GoodToken(token, content, true)
    ensures f(token + rest) == token + f(rest)
  {
    hide GoodToken;
    assert Keeps(f, token);
  }

  // Taking the blanks outside strings out of a text of the RFC leaves the same text without its blanks.
  // What is left of a text of the RFC is the same text without its blanks.
  lemma {:induction false} FilterWritten(f: string -> string, s: Syntax, rest: string)
    requires IsFilter(f)
    requires Good(s, true)
    ensures f(Written(s) + rest) == Written(Bare(s)) + f(rest)
    decreases s, 1
  {
    hide IsFilter, GoodToken;
    match s {
      case Digits(minus, digits, _) =>
        assert forall i :: 0 <= i < |digits| ==> digits[i] in digits;
        FilterPlain(f, Written(s), rest);
      case Quoted(token, content) => FilterToken(f, token, content, rest);
      case Listed(_, _) => FilterList(f, s, rest);
      case Keyed(_, _) => FilterObject(f, s, rest);
      case _ => FilterPlain(f, Written(s), rest);
    }
  }

  lemma {:induction false} FilterList(f: string -> string, s: Syntax, rest: string)
    requires IsFilter(f)
    requires s.Listed? && Good(s, true)
    ensures f(Written(s) + rest) == Written(Bare(s)) + f(rest)
    decreases s, 0, |s.items| + 1
  {
    hide IsFilter, ItemsWritten;
    var t := Bare(s);
    var body, bare := ItemsWritten(s, s.items), ItemsWritten(t, t.items);
    FilterPlain(f, "[", s.inner + (body + ("]" + rest)));
    FilterBlanks(f, s.inner, body + ("]" + rest));
    FilterItems(f, s, s.items, t, t.items, "]" + rest);
    FilterPlain(f, "]", rest);
    Enclosed("[", s.inner, body, "]", rest);
    Enclosed("[", "", bare, "]", f(rest));
  }

  lemma Enclosed(opening: string, inner: string, body: string, close: string, rest: string)
    ensures (opening + inner + body + close) + rest == opening + (inner + (body + (close + rest)))
    ensures inner == "" ==> (opening + inner + body + close) + rest == opening + (body + (close + rest))
  {
  }

  lemma {:induction false} FilterItems(f: string -> string, whole: Syntax, items: seq<Item>, t: Syntax, bare: seq<Item>, rest: string)
    requires IsFilter(f)
    requires |bare| == |items|
    requires forall i :: 0 <= i < |items| ==>
      (items[i].value < whole && bare[i].value < t && GoodItem(items[i], true) && Good(items[i].value, true)
        && bare[i] == Item("", Bare(items[i].value), ""))
    ensures f(ItemsWritten(whole, items) + rest) == ItemsWritten(t, bare) + f(rest)
    decreases whole, 0, |items|
  {
    hide IsFilter, Written, Good, ItemsWritten, Bare;
    if items == [] {
      NothingWritten(whole);
      NothingWritten(t);
      assert "" + rest == rest && "" + f(rest) == f(rest);
    } else {
      var x, sep := items[0], if |items| > 1 then "," else "";
      var tail, bareTail := ItemsWritten(whole, items[1..]), ItemsWritten(t, bare[1..]);
      ItemsStep(whole, items);
      ItemsStep(t, bare);
      FilterItems(f, whole, items[1..], t, bare[1..], rest);
      FilterPlain(f, sep, tail + rest);
      FilterBlanks(f, x.after, sep + (tail + rest));
      FilterWritten(f, x.value, x.after + (sep + (tail + rest)));
      FilterBlanks(f, x.before, Written(x.value) + (x.after + (sep + (tail + rest))));
      Five(x.before, Written(x.value), x.after, sep, tail, rest);
      Five("", Written(Bare(x.value)), "", sep, bareTail, f(rest));
    }
  }

  lemma Five(a: string, b: string, c: string, d: string, e: string, f: string)
    ensures (a + b + c + d + e) + f == a + (b + (c + (d + (e + f))))
    ensures a == "" && c == "" ==> (a + b + c + d + e) + f == b + (d + (e + f))
  {
  }

  lemma {:induction false} FilterObject(f: string -> string, s: Syntax, rest: string)
    requires IsFilter(f)
    requires s.Keyed? && Good(s, true)
    ensures f(Written(s) + rest) == Written(Bare(s)) + f(rest)
    decreases s, 0, |s.fields| + 1
  {
    hide IsFilter, FieldsWritten, GoodToken;
    var t := Bare(s);
    var body, bare := FieldsWritten(s, s.fields), FieldsWritten(t, t.fields);
    FilterPlain(f, "{", s.inner + (body + ("}" + rest)));
    FilterBlanks(f, s.inner, body + ("}" + rest));
    FilterFields(f, s, s.fields, t, t.fields, "}" + rest);
    FilterPlain(f, "}", rest);
    Enclosed("{", s.inner, body, "}", rest);
    Enclosed("{", "", bare, "}", f(rest));
  }

  lemma FilterKey(f: string -> string, x: Field, rest: string)
    requires IsFilter(f)
    requires GoodField(x, true)
    ensures f(KeyWritten(x) + rest) == KeyWritten(x.(before := "", left := "", right := "")) + f(rest)
  {
    hide IsFilter, GoodToken;
    FilterBlanks(f, x.before, x.token + (x.left + (":" + (x.right + rest))));
    FilterToken(f, x.token, x.key, x.left + (":" + (x.right + rest)));
    FilterBlanks(f, x.left, ":" + (x.right + rest));
    FilterPlain(f, ":", x.right + rest);
    FilterBlanks(f, x.right, rest);
    Five(x.before, x.token, x.left, ":", x.right, rest);
    Five("", x.token, "", ":", "", f(rest));
    assert "" + f(rest) == f(rest);
  }

  lemma {:induction false} FilterFields(f: string -> string, whole: Syntax, fields: seq<Field>, t: Syntax, bare: seq<Field>, rest: string)
    requires IsFilter(f)
    requires |bare| == |fields|
    requires forall i :: 0 <= i < |fields| ==>
      (fields[i].value < whole && bare[i].value < t && GoodField(fields[i], true) && Good(fields[i].value, true)
        && bare[i] == Field("", fields[i].token, fields[i].key, "", "", Bare(fields[i].value), ""))
    ensures f(FieldsWritten(whole, fields) + rest) == FieldsWritten(t, bare) + f(rest)
    decreases whole, 0, |fields|
  {
    hide IsFilter, Written, Good, FieldsWritten, KeyWritten, Bare, GoodToken;
    if fields == [] {
      NothingWritten(whole);
      NothingWritten(t);
      assert "" + rest == rest && "" + f(rest) == f(rest);
    } else {
      var x, sep := fields[0], if |fields| > 1 then "," else "";
      var tail, bareTail := FieldsWritten(whole, fields[1..]), FieldsWritten(t, bare[1..]);
      FieldsStep(whole, fields);
      FieldsStep(t, bare);
      FilterFields(f, whole, fields[1..], t, bare[1..], rest);
      FilterPlain(f, sep, tail + rest);
      FilterBlanks(f, x.after, sep + (tail + rest));
      FilterWritten(f, x.value, x.after + (sep + (tail + rest)));
      FilterKey(f, x, Written(x.value) + (x.after + (sep + (tail + rest))));
      SameKey(bare[0], x.(before := "", left := "", right := ""));
      Five(KeyWritten(x), Written(x.value), x.after, sep, tail, rest);
      Five(KeyWritten(bare[0]), Written(Bare(x.value)), "", sep, bareTail, f(rest));
      Nothing(sep + (bareTail + f(rest)));
    }
  }

  lemma Nothing(s: string)
    ensures "" + s == s
  {
  }
}
