// Whatever the parser takes is well written.
module GrammarWritten {
  import opened CStrings
  import opened GrammarReads
  import opened Json
  import opened JsonGrammar
  import opened ParseText
  import opened Seqs

  lemma {:induction false} AnyWhole(v: Syntax, w: Syntax, items: seq<Item>)
    requires forall i :: 0 <= i < |items| ==> items[i].value < v && items[i].value < w
    ensures ItemsWritten(v, items) == ItemsWritten(w, items)
    decreases |items|
  {
    if items != [] {
      AnyWhole(v, w, items[1..]);
    }
  }

  lemma {:induction false} AnyWholeOfFields(v: Syntax, w: Syntax, fields: seq<Field>)
    requires forall i :: 0 <= i < |fields| ==> fields[i].value < v && fields[i].value < w
    ensures FieldsWritten(v, fields) == FieldsWritten(w, fields)
    decreases |fields|
  {
    if fields != [] {
      AnyWholeOfFields(v, w, fields[1..]);
    }
  }

  lemma {:induction false} Skipped(text: string, p: nat)
    requires p <= |text|
    ensures var q := SkipWhitespace(text, p);
      p <= q <= |text| && Blanks(text[p..q], false)
    decreases |text| - p
  {
    SpacesSkipped(text, p);
    var q := SkipWhitespace(text, p);
    forall i | 0 <= i < q - p ensures text[p..q][i] as int <= 0x20 {
      assert text[p..q][i] == text[p + i];
    }
  }

  lemma {:induction false} SpacesSkipped(text: string, p: nat)
    requires p <= |text|
    ensures SpaceBetween(text, p, SkipSpaces(text, p))
    decreases |text| - p
  {
    if p < |text| && IsSpace(text[p]) {
      SpacesSkipped(text, p + 1);
    }
  }

  lemma NumberOf(text: string, p: nat) returns (s: Syntax)
    requires p <= |text| && ParseNumber(text, p).Some?
    ensures var r := ParseNumber(text, p).value;
      s.Digits? && Good(s, false) && text[p..r.next] == Written(s) && Tree(s) == r.value && Stops(text, r.next)
  {
    var minus := At(text, p, '-');
    var start := if minus then p + 1 else p;
    var end := DigitsEnd(text, start);
    var digits := text[start..end];
    s := Digits(minus, digits, (if minus then -1 else 1) * DecimalValue(digits));
    assert text[p..end] == (if minus then "-" else "") + digits;
  }

  // Whatever the parser takes is a well-written value, with that tree and that end, and not nested too
  // deeply.
  lemma {:induction false} ReadIsWritten(text: string, p: nat, depth: nat) returns (s: Syntax)
    requires p <= |text| && depth <= NESTING_LIMIT && ParseValue(text, p, depth).Some?
    ensures var r := ParseValue(text, p, depth).value;
      Good(s, false) && text[p..r.next] == Written(s) && Tree(s) == r.value && Fits(s, depth)
    ensures s.Digits? ==> Stops(text, ParseValue(text, p, depth).value.next)
    decreases |text| - p, 2
  {
    if AtWord(text, p, "null") {
      s := NullWord;
    } else if AtWord(text, p, "false") {
      s := FalseWord;
    } else if AtWord(text, p, "true") {
      s := TrueWord;
    } else if At(text, p, '"') {
      TokenOf(text, p);
      var r := ParseString(text, p).value;
      s := Quoted(text[p..r.next], r.value);
    } else if p < |text| && (text[p] == '-' || IsDigit(text[p])) {
      s := NumberOf(text, p);
    } else if At(text, p, '[') {
      s := ListOf(text, p, depth);
    } else {
      s := ObjectOf(text, p, depth);
    }
  }

  // The elements that were read, as the loop goes on from one to the next.
  ghost predicate ItemsFrom(text: string, p: nat, end: nat, items: seq<Item>, depth: nat) {
    && p <= end <= |text| && items != [] && ItemsFit(items, depth)
    && (forall i :: 0 <= i < |items| ==> GoodItem(items[i], false) && Good(items[i].value, false))
    && text[p..end] == ItemsWritten(Listed("", items), items) + "]"
  }

  lemma ItemsJoin(text: string, p: nat, m: nat, n: nat, q: nat, end: nat, x: Item, rest: seq<Item>, depth: nat)
    requires p <= m <= n <= q < end <= |text| && x.before == text[p..m] && Written(x.value) == text[m..n] && x.after == text[n..q]
    requires GoodItem(x, false) && Good(x.value, false) && Fits(x.value, depth)
    requires if rest == [] then At(text, q, ']') && end == q + 1
      else At(text, q, ',') && ItemsFrom(text, q + 1, end, rest, depth)
    ensures ItemsFrom(text, p, end, [x] + rest, depth) && Trees([x] + rest) == [Tree(x.value)] + Trees(rest)
  {
    hide Good, GoodItem, Written, Tree, ItemsWritten, Fits;
    var items, whole := [x] + rest, Listed("", [x] + rest);
    ItemsStep(whole, items);
    ItemsSplit(items, depth);
    assert items[1..] == rest;
    assert forall i :: 0 <= i < |items| ==> items[i] == if i == 0 then x else rest[i - 1];
    Further(text, p, m, n);
    Further(text, p, n, q);
    Further(text, p, q, q + 1);
    Further(text, p, q + 1, end);
    NothingWritten(whole);
    if rest != [] {
      AnyWhole(whole, Listed("", rest), rest);
      assert text[q..q + 1] == ",";
      Assoc(text[p..q + 1], ItemsWritten(whole, rest), "]");
    } else {
      assert text[q..q + 1] == "]" && text[p..q] + "" + "" == text[p..q];
    }
  }

  lemma {:induction false} ItemsOf(text: string, p: nat, depth: nat) returns (items: seq<Item>)
    requires p <= |text| && depth <= NESTING_LIMIT && ParseElements(text, p, depth).Some?
    ensures var r := ParseElements(text, p, depth).value;
      ItemsFrom(text, p, r.next, items, depth) && Trees(items) == r.value
    decreases |text| - p, 3
  {
    hide ItemsFrom, Good, Written, ItemsWritten, Blanks, Fits, ParseValue, SkipWhitespace;
    var m := SkipWhitespace(text, p);
    var v := ParseValue(text, m, depth).value;
    var q := SkipWhitespace(text, v.next);
    var s := ReadIsWritten(text, m, depth);
    Skipped(text, p);
    Skipped(text, v.next);
    var x := Item(text[p..m], s, text[v.next..q]);
    if At(text, q, ',') {
      var rest := ItemsOf(text, q + 1, depth);
      ItemsAre(text, q + 1, ParseElements(text, q + 1, depth).value.next, rest, depth);
      items := [x] + rest;
      ItemsJoin(text, p, m, v.next, q, ParseElements(text, p, depth).value.next, x, rest, depth);
    } else {
      items := [x];
      assert [x] + [] == [x];
      ItemsJoin(text, p, m, v.next, q, q + 1, x, [], depth);
    }
  }

  lemma ItemsAre(text: string, p: nat, end: nat, items: seq<Item>, depth: nat)
    requires ItemsFrom(text, p, end, items, depth)
    ensures items != []
  {
  }

  // More blanks in front of the first element.
  lemma ItemsAfterBlanks(text: string, p: nat, q: nat, end: nat, items: seq<Item>, depth: nat) returns (more: seq<Item>)
    requires p <= q <= |text| && Blanks(text[p..q], false) && ItemsFrom(text, q, end, items, depth)
    ensures ItemsFrom(text, p, end, more, depth) && Trees(more) == Trees(items)
  {
    hide Good, Written, Fits, Tree;
    var x, blank := items[0], text[p..q];
    more := [x.(before := blank + x.before)] + items[1..];
    var v, w := Listed("", items), Listed("", more);
    ItemsSplit(items, depth);
    ItemsSplit(more, depth);
    assert more[1..] == items[1..];
    assert forall i :: 0 <= i < |more| ==> more[i].value == items[i].value && (i > 0 ==> more[i] == items[i]);
    AnyWhole(v, w, items[1..]);
    Further(text, p, q, end);
    PutInFront(blank, x.before, Written(x.value) + x.after + (if |items| > 1 then "," else "") + ItemsWritten(v, items[1..]), "]");
    ItemsWrittenAs(v, items);
    ItemsWrittenAs(w, more);
  }

  lemma PutInFront(blank: string, before: string, tail: string, close: string)
    ensures blank + ((before + tail) + close) == ((blank + before) + tail) + close
  {
  }

  lemma ItemsWrittenAs(whole: Syntax, items: seq<Item>)
    requires items != [] && forall i :: 0 <= i < |items| ==> items[i].value < whole
    ensures var x := items[0];
      ItemsWritten(whole, items)
        == x.before + (Written(x.value) + x.after + (if |items| > 1 then "," else "") + ItemsWritten(whole, items[1..]))
  {
  }

  lemma FieldsWrittenAs(whole: Syntax, fields: seq<Field>)
    requires fields != [] && forall i :: 0 <= i < |fields| ==> fields[i].value < whole
    ensures var x := fields[0];
      FieldsWritten(whole, fields)
        == x.before + (x.token + x.left + ":" + x.right + Written(x.value) + x.after
             + (if |fields| > 1 then "," else "") + FieldsWritten(whole, fields[1..]))
  {
    hide Written;
    var x := fields[0];
    assert KeyWritten(x) == x.before + (x.token + x.left + ":" + x.right);
  }

  lemma {:induction false} ListOf(text: string, p: nat, depth: nat) returns (s: Syntax)
    requires At(text, p, '[') && depth <= NESTING_LIMIT && ParseArray(text, p, depth).Some?
    ensures var r := ParseArray(text, p, depth).value;
      s.Listed? && Good(s, false) && text[p..r.next] == Written(s) && Tree(s) == r.value && Fits(s, depth)
    decreases |text| - p, 1
  {
    hide Blanks, SkipWhitespace, ItemsFrom, ParseElements;
    var q, r := SkipWhitespace(text, p + 1), ParseArray(text, p, depth).value;
    Skipped(text, p + 1);
    if At(text, q, ']') {
      s := Listed(text[p + 1..q], []);
      NothingWritten(s);
      assert text[p..q + 1] == "[" + text[p + 1..q] + "" + "]";
      assert Tree(s).elems == [];
    } else {
      var items := ItemsOf(text, q, depth + 1);
      items := ItemsAfterBlanks(text, p + 1, q, r.next, items, depth + 1);
      s := ListFrom(text, p, r.next, items, depth);
    }
  }

  lemma ListFrom(text: string, p: nat, end: nat, items: seq<Item>, depth: nat) returns (s: Syntax)
    requires At(text, p, '[') && depth < NESTING_LIMIT && ItemsFrom(text, p + 1, end, items, depth + 1)
    ensures s.Listed? && Good(s, false) && text[p..end] == Written(s) && Tree(s) == Array(Trees(items)) && Fits(s, depth)
  {
    s := Listed("", items);
    assert text[p..end] == ["["[0]] + text[p + 1..end];
    assert "[" + "" == "[";
    Assoc("[", ItemsWritten(s, items), "]");
    assert Tree(s).elems == Trees(items);
  }

  ghost predicate FieldsFrom(text: string, p: nat, end: nat, fields: seq<Field>, depth: nat) {
    && p <= end <= |text| && fields != [] && FieldsFit(fields, depth)
    && (forall i :: 0 <= i < |fields| ==> GoodField(fields[i], false) && Good(fields[i].value, false))
    && text[p..end] == FieldsWritten(Keyed("", fields), fields) + "}"
  }

  lemma FieldsJoin(text: string, p: nat, m: nat, n: nat, q: nat, end: nat, x: Field, rest: seq<Field>, depth: nat)
    requires p <= m <= n <= q < end <= |text| && KeyWritten(x) == text[p..m] && Written(x.value) == text[m..n] && x.after == text[n..q]
    requires GoodField(x, false) && Good(x.value, false) && Fits(x.value, depth)
    requires if rest == [] then At(text, q, '}') && end == q + 1
      else At(text, q, ',') && FieldsFrom(text, q + 1, end, rest, depth)
    ensures FieldsFrom(text, p, end, [x] + rest, depth)
    ensures Members([x] + rest) == [Member(x.key, Tree(x.value))] + Members(rest)
  {
    hide Good, GoodField, Written, KeyWritten, Tree;
    var fields, whole := [x] + rest, Keyed("", [x] + rest);
    FieldsSplit(fields, depth);
    assert fields[1..] == rest;
    assert forall i :: 0 <= i < |fields| ==> fields[i] == if i == 0 then x else rest[i - 1];
    Further(text, p, m, n);
    Further(text, p, n, q);
    Further(text, p, q, q + 1);
    Further(text, p, q + 1, end);
    NothingWritten(whole);
    if rest != [] {
      AnyWholeOfFields(whole, Keyed("", rest), rest);
      assert text[q..q + 1] == ",";
      Assoc(text[p..q + 1], FieldsWritten(whole, rest), "}");
    } else {
      assert text[q..q + 1] == "}" && text[p..q] + "" + "" == text[p..q];
    }
  }

  lemma {:induction false} FieldOf(text: string, p: nat, depth: nat) returns (x: Field, v: nat)
    requires p <= |text| && depth <= NESTING_LIMIT && ParseMember(text, p, depth).Some?
    ensures var r := ParseMember(text, p, depth).value;
      && GoodField(x, false) && Good(x.value, false) && Fits(x.value, depth) && x.after == ""
      && p <= v <= r.next <= |text| && KeyWritten(x) == text[p..v] && Written(x.value) == text[v..r.next]
      && r.value == Member(x.key, Tree(x.value))
    decreases |text| - p, 3
  {
    var k := SkipWhitespace(text, p);
    var key := ParseString(text, k).value;
    var c := SkipWhitespace(text, key.next);
    v := SkipWhitespace(text, c + 1);
    hide Good, Written, Blanks, Fits, ParseValue, ParseString, SkipWhitespace, GoodToken;
    Skipped(text, p);
    Skipped(text, key.next);
    Skipped(text, c + 1);
    TokenOf(text, k);
    var s := ReadIsWritten(text, v, depth);
    x := Field(text[p..k], text[k..key.next], key.value, text[key.next..c], text[c + 1..v], s, "");
    KeyJoin(text, p, k, key.next, c, v, x);
    NoBlanks();
  }

  lemma KeyJoin(text: string, p: nat, k: nat, l: nat, c: nat, v: nat, x: Field)
    requires p <= k <= l <= c < v <= |text| && text[c] == ':'
    requires x.before == text[p..k] && x.token == text[k..l] && x.left == text[l..c] && x.right == text[c + 1..v]
    ensures KeyWritten(x) == text[p..v]
  {
    Further(text, p, k, l);
    Further(text, p, l, c);
    Further(text, p, c, c + 1);
    Further(text, p, c + 1, v);
    assert text[c..c + 1] == ":";
  }

  lemma NoBlanks()
    ensures Blanks("", false)
  {
  }

  lemma {:induction false} FieldsOf(text: string, p: nat, depth: nat) returns (fields: seq<Field>)
    requires p <= |text| && depth <= NESTING_LIMIT && ParseMembers(text, p, depth).Some?
    ensures var r := ParseMembers(text, p, depth).value;
      FieldsFrom(text, p, r.next, fields, depth) && Members(fields) == r.value
    decreases |text| - p, 4
  {
    hide FieldsFrom, Good, Written, KeyWritten, FieldsWritten, Blanks, Fits, ParseMember, SkipWhitespace, GoodToken;
    var m := ParseMember(text, p, depth).value;
    var q := SkipWhitespace(text, m.next);
    var x, v := FieldOf(text, p, depth);
    Skipped(text, m.next);
    x := x.(after := text[m.next..q]);
    assert KeyWritten(x) == text[p..v] by { SameKey(x, x.(after := "")); }
    if At(text, q, ',') {
      var rest := FieldsOf(text, q + 1, depth);
      FieldsAre(text, q + 1, ParseMembers(text, q + 1, depth).value.next, rest, depth);
      fields := [x] + rest;
      FieldsJoin(text, p, v, m.next, q, ParseMembers(text, p, depth).value.next, x, rest, depth);
    } else {
      fields := [x];
      assert [x] + [] == [x];
      FieldsJoin(text, p, v, m.next, q, q + 1, x, [], depth);
    }
  }

  lemma FieldsAre(text: string, p: nat, end: nat, fields: seq<Field>, depth: nat)
    requires FieldsFrom(text, p, end, fields, depth)
    ensures fields != []
  {
  }

  lemma FieldsAfterBlanks(text: string, p: nat, q: nat, end: nat, fields: seq<Field>, depth: nat) returns (more: seq<Field>)
    requires p <= q <= |text| && Blanks(text[p..q], false) && FieldsFrom(text, q, end, fields, depth)
    ensures FieldsFrom(text, p, end, more, depth) && Members(more) == Members(fields)
  {
    hide Good, Written, Fits, Tree, GoodToken;
    var x, blank := fields[0], text[p..q];
    more := [x.(before := blank + x.before)] + fields[1..];
    var v, w := Keyed("", fields), Keyed("", more);
    FieldsSplit(fields, depth);
    FieldsSplit(more, depth);
    assert more[1..] == fields[1..];
    assert forall i :: 0 <= i < |more| ==> more[i].value == fields[i].value && (i > 0 ==> more[i] == fields[i]);
    AnyWholeOfFields(v, w, fields[1..]);
    Further(text, p, q, end);
    PutInFront(blank, x.before, x.token + x.left + ":" + x.right + Written(x.value) + x.after
                 + (if |fields| > 1 then "," else "") + FieldsWritten(v, fields[1..]), "}");
    FieldsWrittenAs(v, fields);
    FieldsWrittenAs(w, more);
  }

  lemma {:induction false} ObjectOf(text: string, p: nat, depth: nat) returns (s: Syntax)
    requires At(text, p, '{') && depth <= NESTING_LIMIT && ParseObject(text, p, depth).Some?
    ensures var r := ParseObject(text, p, depth).value;
      s.Keyed? && Good(s, false) && text[p..r.next] == Written(s) && Tree(s) == r.value && Fits(s, depth)
    decreases |text| - p, 1
  {
    hide Blanks, SkipWhitespace, FieldsFrom, ParseMembers;
    var q, r := SkipWhitespace(text, p + 1), ParseObject(text, p, depth).value;
    Skipped(text, p + 1);
    if At(text, q, '}') {
      s := Keyed(text[p + 1..q], []);
      NothingWritten(s);
      assert text[p..q + 1] == "{" + text[p + 1..q] + "" + "}";
      assert Tree(s).members == [];
    } else {
      var fields := FieldsOf(text, q, depth + 1);
      fields := FieldsAfterBlanks(text, p + 1, q, r.next, fields, depth + 1);
      s := ObjectFrom(text, p, r.next, fields, depth);
    }
  }

  lemma ObjectFrom(text: string, p: nat, end: nat, fields: seq<Field>, depth: nat) returns (s: Syntax)
    requires At(text, p, '{') && depth < NESTING_LIMIT && FieldsFrom(text, p + 1, end, fields, depth + 1)
    ensures s.Keyed? && Good(s, false) && text[p..end] == Written(s) && Tree(s) == Object(Members(fields)) && Fits(s, depth)
  {
    s := Keyed("", fields);
    assert text[p..end] == ["{"[0]] + text[p + 1..end];
    assert "{" + "" == "{";
    Assoc("{", FieldsWritten(s, fields), "}");
    assert Tree(s).members == Members(fields);
  }
}
