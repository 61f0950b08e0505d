// The buffer that parse_value() and its helpers read from.
module ParseBuffer {
  import opened CStrings
  import opened Json
  import opened ParseText
  import opened Seqs
  import opened Unicode

  // ---------- The size of a decoded string ----------

  // Starting to count one character later gains one unit at most, and loses none.
  lemma {:induction false} UnitsMonotone(text: string, p: nat, end: nat)
    requires p < end <= |text|
    ensures Units(text, p + 1, end) <= Units(text, p, end) <= 1 + Units(text, p + 1, end)
    decreases end - p
  {
    if text[p] == '\\' && p + 1 < end {
      UnitsMonotone(text, p + 1, end);
    }
  }

  lemma {:induction false} UnitsShrink(text: string, p: nat, q: nat, end: nat)
    requires p <= q && end <= |text|
    ensures Units(text, q, end) <= Units(text, p, end)
    decreases q - p
  {
    if p < q && p < end {
      UnitsMonotone(text, p, end);
      UnitsShrink(text, p + 1, q, end);
    }
  }

  // Each character that is no backslash counts for one.
  lemma {:induction false} UnitsPlain(text: string, p: nat, q: nat, end: nat)
    requires p <= q <= end <= |text| && forall i :: p <= i < q ==> text[i] != '\\'
    ensures Units(text, p, end) == q - p + Units(text, q, end)
    decreases q - p
  {
    if p < q {
      UnitsPlain(text, p + 1, q, end);
    }
  }

  // One \uXXXX of proper digits counts for five.
  lemma UnitsHex(text: string, p: nat, end: nat)
    requires p + 6 <= end <= |text| && text[p] == '\\' && IsHex4(text[p + 2..p + 6])
    ensures Units(text, p, end) == 5 + Units(text, p + 6, end)
  {
    var h := text[p + 2..p + 6];
    forall i | p + 2 <= i < p + 6 ensures text[i] != '\\' {
      assert text[i] == h[i - p - 2];
    }
    UnitsPlain(text, p + 2, p + 6, end);
  }

  // The octets of a literal fit what the sizing pass counted for its place in the text, even
  // where the two passes do not agree on where an escape begins.
  lemma Utf16Fits(text: string, p: nat, end: nat)
    requires p + 1 < end <= |text| && text[p] == '\\'
    requires Utf16Literal(text, p, end).Some?
    ensures var u := Utf16Literal(text, p, end).value;
      |Utf8(u.value)| + Units(text, u.next, end) <= Units(text, p, end)
  {
    var h := text[p + 2..p + 6];
    if IsHex4(h) {
      UnitsHex(text, p, end);
      if IsHighSurrogate(Hex4(h)) {
        UnitsHex(text, p + 6, end);
      }
    } else {
      UnitsShrink(text, p + 2, p + 6, end);
    }
  }

  // ---------- The buffer ----------

  ghost predicate Agrees<T>(spec: Option<Parsed<T>>, r: Option<T>, next: nat) {
    match spec
    case None => r.None?
    case Some(v) => r == Some(v.value) && next == v.next
  }

  lemma PrependTwice<T>(a: seq<T>, b: seq<T>, rest: Option<Parsed<seq<T>>>)
    ensures PrependTo(a, PrependTo(b, rest)) == PrependTo(a + b, rest)
  {
    if rest.Some? {
      Assoc(a, b, rest.value.value);
    }
  }

  class Parser {
    const content: string
    var offset: nat
    var depth: nat

    constructor (text: string)
      ensures content == text && offset == 0 && depth == 0
    {
      content, offset, depth := text, 0, 0;
    }

    method Skip()
      requires offset <= |content|
      modifies this`offset
      ensures offset == SkipWhitespace(content, old(offset))
    {
      if offset >= |content| {
        return;
      }
      while offset < |content| && content[offset] <= ' '
        invariant offset <= |content| && SkipSpaces(content, offset) == SkipSpaces(content, old(offset))
        decreases |content| - offset
      {
        offset := offset + 1;
      }
      if offset == |content| {
        offset := offset - 1;
      }
    }

    // The sizing loop of parse_string()
    method Measure(start: nat) returns (end: Option<nat>, skipped: nat)
      requires start <= |content|
      ensures end == StringEnd(content, start)
      ensures end.Some? ==> end.value == start + skipped + Units(content, start, end.value)
    {
      ghost var goal := StringEnd(content, start);
      var e := start;
      skipped := 0;
      while e < |content| && content[e] != '"'
        invariant start <= e && StringEnd(content, e) == goal
        invariant goal.Some? ==>
          e <= goal.value && Units(content, start, goal.value) + skipped == e - start + Units(content, e, goal.value)
        decreases |content| - e
      {
        if content[e] == '\\' {
          if e + 1 >= |content| {
            return None, skipped;
          }
          skipped := skipped + 1;
          e := e + 1;
        }
        e := e + 1;
      }
      end := if e < |content| then Some(e) else None;
    }

    // The decoding loop of parse_string(): no write passes the memory that was asked for, for
    // any text at all.
    method Decode(start: nat, end: nat, output: array<char>) returns (length: Option<nat>)
      requires start <= end < |content| && output.Length >= Units(content, start, end) + 1
      modifies output
      ensures match DecodeString(content, start, end)
        case None => length == None
        case Some(s) => length == Some(|s|) && |s| < output.Length && output[..|s|] == s && output[|s|] == '\0'
    {
      var p, o := start, 0;
      ghost var all, done := DecodeString(content, start, end), "";
      PrefixedNothing(all);
      while p < end
        invariant start <= p && o == |done| && o + Units(content, p, end) <= Units(content, start, end)
        invariant output[..o] == done
        invariant all == Prefixed(done, DecodeString(content, p, end))
        decreases end - p
      {
        ghost var rest, one := DecodeString(content, p, end), "";
        if content[p] != '\\' {
          output[o] := content[p];
          one := [content[p]];
          PrefixedTwice(done, one, DecodeString(content, p + 1, end));
          p, o := p + 1, o + 1;
        } else if IsSimpleEscape(content[p + 1]) {
          output[o] := Unescape(content[p + 1]);
          one := [Unescape(content[p + 1])];
          PrefixedTwice(done, one, DecodeString(content, p + 2, end));
          p, o := p + 2, o + 1;
        } else if content[p + 1] == 'u' {
          ghost var u := Utf16Literal(content, p, end);
          if u.Some? {
            Utf16Fits(content, p, end);
          }
          var sequence, more := Utf16LiteralToUtf8(content, p, end, output, o);
          if sequence == 0 {
            return None;
          }
          one := Utf8(u.value.value);
          PrefixedTwice(done, one, DecodeString(content, u.value.next, end));
          p, o := p + sequence, o + more;
        } else {
          return None;
        }
        done := done + one;
      }
      output[o] := '\0';
      length := Some(o);
      assert done + "" == done;
    }

    // parse_string()
    method ParseString() returns (r: Option<string>)
      requires offset < |content|
      modifies this`offset
      ensures offset <= |content| && Agrees(ParseText.ParseString(content, old(offset)), r, offset)
    {
      if content[offset] != '"' {
        return None;
      }
      var end, skipped := Measure(offset + 1);
      if end == None {
        return None;
      }
      var output := new char[end.value - offset - skipped + 1];
      var length := Decode(offset + 1, end.value, output);
      if length == None {
        return None;
      }
      CStringOf(output[..], output[..length.value]);
      offset := end.value + 1;
      return Some(CString(output[..]));
    }

    // parse_value()
    method ParseValue() returns (r: Option<Json>)
      requires offset <= |content|
      modifies this`offset, this`depth
      ensures offset <= |content| && (r.Some? ==> depth == old(depth))
      ensures Agrees(ParseText.ParseValue(content, old(offset), old(depth)), r, offset)
      decreases |content| - offset, 2
    {
      if AtWord(content, offset, "null") {
        offset := offset + 4;
        return Some(Null);
      }
      if AtWord(content, offset, "false") {
        offset := offset + 5;
        return Some(False);
      }
      if AtWord(content, offset, "true") {
        offset := offset + 4;
        return Some(True);
      }
      if At(content, offset, '"') {
        var s := ParseString();
        return if s.Some? then Some(String(s.value)) else None;
      }
      if offset < |content| && (content[offset] == '-' || IsDigit(content[offset])) {
        var number := ParseNumber(content, offset);
        if number == None {
          return None;
        }
        offset := number.value.next;
        return Some(number.value.value);
      }
      if At(content, offset, '[') {
        r := ParseArray();
        return;
      }
      if At(content, offset, '{') {
        r := ParseObject();
        return;
      }
      return None;
    }

    // parse_array()
    method ParseArray() returns (r: Option<Json>)
      requires At(content, offset, '[')
      modifies this`offset, this`depth
      ensures offset <= |content| && (r.Some? ==> depth == old(depth))
      ensures Agrees(ParseText.ParseArray(content, old(offset), old(depth)), r, offset)
      decreases |content| - offset, 1
    {
      if depth >= NESTING_LIMIT {
        return None;
      }
      depth := depth + 1;
      offset := offset + 1;
      Skip();
      if !At(content, offset, ']') {
        if offset >= |content| {
          offset := offset - 1;
          return None;
        }
        offset := offset - 1;
        var es := ParseElements();
        if es == None {
          return None;
        }
        depth := depth - 1;
        return Some(Array(es.value));
      }
      depth := depth - 1;
      offset := offset + 1;
      return Some(Array([]));
    }

    // The loop of parse_array(), from the character in front of the first element.
    method ParseElements() returns (r: Option<seq<Json>>)
      requires offset < |content|
      modifies this`offset, this`depth
      ensures offset <= |content| && (r.Some? ==> depth == old(depth))
      ensures Agrees(ParseText.ParseElements(content, old(offset) + 1, old(depth)), r, offset)
      decreases |content| - offset - 1, 4
    {
      hide ParseText.ParseElements;
      ghost var start, goal := offset, ParseText.ParseElements(content, offset + 1, depth);
      var element, more := ParseElement();
      if element == None {
        return None;
      }
      var es := [element.value];
      while more
        invariant start < offset <= |content| && depth == old(depth) && more == At(content, offset, ',')
        invariant goal == PrependTo(es, ElementsAfter(content, offset, depth))
        decreases |content| - offset
      {
        element, more := ParseElement();
        if element == None {
          return None;
        }
        PrependTwice(es, [element.value], ElementsAfter(content, offset, depth));
        es := es + [element.value];
      }
      if !At(content, offset, ']') {
        return None;
      }
      offset := offset + 1;
      assert es + [] == es;
      return Some(es);
    }

    // One turn of it, which ends on the comma when there is one.
    method ParseElement() returns (element: Option<Json>, more: bool)
      requires offset < |content|
      modifies this`offset, this`depth
      ensures offset <= |content| && (element.Some? ==> depth == old(depth) && old(offset) < offset)
      ensures var goal := ParseText.ParseElements(content, old(offset) + 1, old(depth));
        if element.None? then goal == None
        else more == At(content, offset, ',') && goal == PrependTo([element.value], ElementsAfter(content, offset, depth))
      decreases |content| - offset - 1, 3
    {
      hide ParseText.ParseValue, ParseText.ParseElements, SkipWhitespace;
      ElementsStep(content, offset + 1, depth);
      offset := offset + 1;
      more := false;
      Skip();
      element := ParseValue();
      if element.Some? {
        Skip();
        more := At(content, offset, ',');
      }
    }

    // parse_object()
    method ParseObject() returns (r: Option<Json>)
      requires At(content, offset, '{')
      modifies this`offset, this`depth
      ensures offset <= |content| && (r.Some? ==> depth == old(depth))
      ensures Agrees(ParseText.ParseObject(content, old(offset), old(depth)), r, offset)
      decreases |content| - offset, 1
    {
      if depth >= NESTING_LIMIT {
        return None;
      }
      depth := depth + 1;
      offset := offset + 1;
      Skip();
      if !At(content, offset, '}') {
        if offset >= |content| {
          offset := offset - 1;
          return None;
        }
        offset := offset - 1;
        var ms := ParseMembers();
        if ms == None {
          return None;
        }
        depth := depth - 1;
        return Some(Object(ms.value));
      }
      depth := depth - 1;
      offset := offset + 1;
      return Some(Object([]));
    }

    // The loop of parse_object(), from the character in front of the first key.
    method ParseMembers() returns (r: Option<seq<Member>>)
      requires offset < |content|
      modifies this`offset, this`depth
      ensures offset <= |content| && (r.Some? ==> depth == old(depth))
      ensures Agrees(ParseText.ParseMembers(content, old(offset) + 1, old(depth)), r, offset)
      decreases |content| - offset - 1, 5
    {
      hide ParseText.ParseMembers;
      ghost var start, goal := offset, ParseText.ParseMembers(content, offset + 1, depth);
      var member, more := ParseNextMember();
      if member == None {
        return None;
      }
      var ms := [member.value];
      while more
        invariant start < offset <= |content| && depth == old(depth) && more == At(content, offset, ',')
        invariant goal == PrependTo(ms, MembersAfter(content, offset, depth))
        decreases |content| - offset
      {
        member, more := ParseNextMember();
        if member == None {
          return None;
        }
        PrependTwice(ms, [member.value], MembersAfter(content, offset, depth));
        ms := ms + [member.value];
      }
      if !At(content, offset, '}') {
        return None;
      }
      offset := offset + 1;
      assert ms + [] == ms;
      return Some(ms);
    }

    // One turn of it, which ends on the comma when there is one.
    method ParseNextMember() returns (member: Option<Member>, more: bool)
      requires offset < |content|
      modifies this`offset, this`depth
      ensures offset <= |content| && (member.Some? ==> depth == old(depth) && old(offset) < offset)
      ensures var goal := ParseText.ParseMembers(content, old(offset) + 1, old(depth));
        if member.None? then goal == None
        else more == At(content, offset, ',') && goal == PrependTo([member.value], MembersAfter(content, offset, depth))
      decreases |content| - offset - 1, 4
    {
      hide ParseText.ParseMember, ParseText.ParseMembers, SkipWhitespace;
      MembersStep(content, offset + 1, depth);
      more := false;
      member := ParseMember();
      if member.Some? {
        Skip();
        more := At(content, offset, ',');
      }
    }

    // One key, its colon and its value.
    method ParseMember() returns (r: Option<Member>)
      requires offset < |content|
      modifies this`offset, this`depth
      ensures offset <= |content| && (r.Some? ==> depth == old(depth))
      ensures Agrees(ParseText.ParseMember(content, old(offset) + 1, old(depth)), r, offset)
      decreases |content| - offset - 1, 3
    {
      hide ParseText.ParseValue, ParseText.ParseString, SkipWhitespace;
      if offset + 1 >= |content| {
        return None;
      }
      offset := offset + 1;
      Skip();
      var key := ParseString();
      if key == None {
        return None;
      }
      Skip();
      if !At(content, offset, ':') {
        return None;
      }
      offset := offset + 1;
      Skip();
      var value := ParseValue();
      if value == None {
        return None;
      }
      return Some(Member(key.value, value.value));
    }
  }

  // cJSON_ParseWithLengthOpts(), and with a terminated text cJSON_Parse().
  method ParseWithLength(text: string, requireTerminated: bool) returns (item: Option<Json>, end: nat)
    ensures Agrees(Parse(text, requireTerminated), item, end)
  {
    if text == "" {
      return None, 0;
    }
    var buffer := new Parser(text);
    buffer.offset := SkipBom(text);
    buffer.Skip();
    item := buffer.ParseValue();
    if item == None {
      return None, buffer.offset;
    }
    if requireTerminated {
      buffer.Skip();
      if !At(text, buffer.offset, '\0') {
        return None, buffer.offset;
      }
    }
    end := buffer.offset;
  }

  // What follows the terminator does not matter.
  lemma {:induction false} CStringOf(b: seq<char>, s: string)
    requires |s| < |b| && b[..|s|] == s && b[|s|] == '\0'
    ensures CString(b) == CString(s)
  {
    if s != "" {
      assert b[0] == b[..|s|][0] && b[1..][..|s| - 1] == b[..|s|][1..];
      CStringOf(b[1..], s[1..]);
    }
  }
}
