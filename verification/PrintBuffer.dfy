// The growing buffer that print_value() and its helpers write to.
module PrintBuffer {
  import opened CStrings
  import opened Json
  import opened PrintText
  import opened Seqs

  const DEFAULT_BUFFER_SIZE: nat := 256

  class Printer {
    var buffer: array<char>
    var offset: nat
    var depth: nat
    const noalloc: bool
    const format: bool
    // Whether a realloc() is there to grow the buffer with.
    const reallocate: bool
    // The end of the region that the last call of Ensure granted.
    ghost var granted: nat

    // A buffer without room is only grown by realloc(): copying by hand takes along the byte
    // at the offset.
    ghost predicate Valid()
      reads this`buffer, this`offset
    {
      && buffer.Length <= INT_MAX
      && (offset < buffer.Length || (offset == buffer.Length == 0 && (noalloc || reallocate)))
    }

    ghost function Capacity(): int
      reads this`buffer
    {
      if noalloc then buffer.Length else INT_MAX
    }

    ghost function Contents(): string
      requires Valid()
      reads this`buffer, this`offset, buffer
    {
      buffer[..offset]
    }

    // The text follows the base and ends at a NUL; the offset is still somewhere on it.
    ghost predicate Printed(base: string, text: string)
      reads this`buffer, this`offset, buffer
    {
      && |base| <= offset <= |base| + |text| < buffer.Length <= INT_MAX
      && buffer[..|base| + |text|] == base + text && buffer[|base| + |text|] == '\0'
    }

    // The buffer is the one from before or a larger one of this printer's own.
    twostate predicate Kept()
      reads this`buffer, this`offset
    {
      Valid() && (buffer == old(buffer) || (fresh(buffer) && !noalloc))
    }

    constructor (start: array<char>, noalloc: bool, format: bool, reallocate: bool)
      requires start.Length <= INT_MAX && (start.Length > 0 || noalloc || reallocate)
      ensures Valid() && buffer == start && offset == 0 && depth == 0
      ensures this.noalloc == noalloc && this.format == format && this.reallocate == reallocate
    {
      buffer, offset, depth := start, 0, 0;
      this.noalloc, this.format, this.reallocate := noalloc, format, reallocate;
    }

    // ensure(): room for so many more bytes and one besides, in this buffer or in a larger one
    // with the same text.
    method Ensure(needed: nat) returns (ok: bool)
      requires Valid()
      modifies this`buffer, this`granted
      ensures Kept()
      ensures Contents() == old(Contents())
      ensures ok <==> offset + needed + 1 <= Capacity()
      ensures ok ==> granted == offset + needed < buffer.Length
    {
      if buffer.Length > 0 && offset >= buffer.Length {
        return false;
      }
      if needed > INT_MAX {
        return false;
      }
      var total: nat := needed + offset + 1;
      granted := offset + needed;
      if total <= buffer.Length {
        return true;
      }
      if noalloc {
        return false;
      }
      var newSize;
      if total > INT_MAX / 2 {
        if total > INT_MAX {
          return false;
        }
        newSize := INT_MAX;
      } else {
        newSize := total * 2;
      }
      var newBuffer := new char[newSize];
      var kept := if reallocate then buffer.Length else offset + 1;
      forall i | 0 <= i < kept {
        newBuffer[i] := buffer[i];
      }
      assert newBuffer[..offset] == buffer[..offset];
      buffer := newBuffer;
      return true;
    }

    // Bytes written one after the other, all of them inside the granted region.
    method Write(at: nat, s: string)
      requires at + |s| <= granted <= buffer.Length
      modifies buffer
      ensures buffer[..at + |s|] == old(buffer[..at]) + s
      ensures buffer[at + |s|..] == old(buffer[at + |s|..])
    {
      for i := 0 to |s|
        invariant buffer[..at + i] == old(buffer[..at]) + s[..i]
        invariant buffer[at + i..] == old(buffer[at + i..])
      {
        buffer[at + i] := s[i];
      }
    }

    // A piece of text with the offset moved behind it.
    method Append(needed: nat, s: string, terminate: bool) returns (ok: bool)
      requires Valid() && |s| + (if terminate then 1 else 0) <= needed
      modifies this`buffer, this`granted, this`offset, buffer
      ensures Kept()
      ensures ok <==> old(offset) + needed + 1 <= Capacity()
      ensures ok ==> Contents() == old(Contents()) + s
    {
      ok := Ensure(needed);
      if ok {
        Write(offset, s);
        if terminate {
          Write(offset + |s|, ['\0']);
        }
        offset := offset + |s|;
      }
    }

    // The last piece of a text: the offset stays in front of it.
    method Leave(needed: nat, s: string) returns (ok: bool)
      requires Valid() && |s| + 1 <= needed
      modifies this`buffer, this`granted, buffer
      ensures Kept()
      ensures ok <==> offset + needed + 1 <= Capacity()
      ensures ok ==> Printed(old(Contents()), s)
    {
      ok := Ensure(needed);
      if ok {
        Write(offset, s + ['\0']);
        assert buffer[..offset + |s|] == buffer[..offset + |s + ['\0']|][..offset + |s|];
      }
    }

    // update_offset(): on to the NUL.
    method UpdateOffset(ghost base: string, ghost text: string)
      requires Printed(base, text) && NulFree(text)
      modifies this`offset
      ensures Valid() && Contents() == base + text && buffer[offset] == '\0'
    {
      var n := offset;
      forall k | |base| <= k < |base| + |text| ensures buffer[k] != '\0' {
        assert buffer[..|base| + |text|][k] == text[k - |base|];
      }
      while buffer[n] != '\0'
        invariant |base| <= n <= |base| + |text|
        decreases |base| + |text| - n
      {
        n := n + 1;
      }
      offset := n;
    }

    // The opening bracket goes one level down, the closing one comes back up.
    method Open(needed: nat, s: string) returns (ok: bool)
      requires Valid() && |s| <= needed
      modifies this`buffer, this`granted, this`offset, this`depth, buffer
      ensures Kept()
      ensures ok <==> old(offset) + needed + 1 <= Capacity()
      ensures ok ==> depth == old(depth) + 1 && Contents() == old(Contents()) + s
    {
      ok := Append(needed, s, false);
      depth := depth + 1;
    }

    method Close(needed: nat, s: string, ghost base: string, ghost done: string) returns (ok: bool)
      requires Valid() && |s| + 1 <= needed && Contents() == base + done && depth > 0
      modifies this`buffer, this`granted, this`depth, buffer
      ensures Kept()
      ensures ok <==> offset + needed + 1 <= Capacity()
      ensures ok ==> depth == old(depth) - 1 && Printed(base, done + s)
    {
      ok := Leave(needed, s);
      depth := depth - 1;
      Assoc(base, done, s);
    }

    method PrintNumber(n: int) returns (ok: bool)
      requires Valid()
      modifies this`buffer, this`granted, this`offset, buffer
      ensures Kept()
      ensures ok <==> old(offset) + |IntText(n)| + 2 <= Capacity()
      ensures ok ==> Printed(old(Contents()), IntText(n))
    {
      var s := IntText(n);
      ok := Leave(|s| + 1, s);
      if ok {
        offset := offset + |s|;
      }
    }

    // The first loop of print_string_ptr()
    method CountEscapes(input: string) returns (extra: nat)
      ensures |input| + extra == |Escape(input)|
      ensures extra == 0 ==> Escape(input) == input
    {
      extra := 0;
      Whole(input);
      ghost var done := "";
      for i := 0 to |input|
        invariant |Escape(input)| == i + extra + |Escape(input[i..])|
        invariant extra == 0 ==> Escape(input) == input[..i] + Escape(input[i..])
      {
        Next(input, i);
        Assoc(input[..i], [input[i]], Escape(input[i + 1..]));
        if HasShortEscape(input[i]) {
          extra := extra + 1;
        } else if input[i] < ' ' {
          extra := extra + 5;
        }
      }
    }

    // The second loop: every character in its escaped form.
    method CopyEscaped(at: nat, input: string)
      requires at + |Escape(input)| <= granted <= buffer.Length
      modifies buffer
      ensures buffer[..at + |Escape(input)|] == old(buffer[..at]) + Escape(input)
    {
      var p: nat := at;
      ghost var done := "";
      Whole(input);
      for i := 0 to |input|
        invariant p == at + |done| <= granted
        invariant Escape(input) == done + Escape(input[i..])
        invariant buffer[..p] == old(buffer[..at]) + done
      {
        Next(input, i);
        var one := EscapeOne(input[i]);
        Assoc(done, one, Escape(input[i + 1..]));
        Write(p, one);
        Assoc(old(buffer[..at]), done, one);
        p := p + |one|;
        done := done + one;
      }
    }

    // print_string_ptr()
    method PrintString(input: string) returns (ok: bool)
      requires Valid()
      modifies this`buffer, this`granted, buffer
      ensures Kept()
      ensures ok <==> offset + |StringText(input)| + 2 <= Capacity()
      ensures ok ==> Printed(old(Contents()), StringText(input))
    {
      var extra := CountEscapes(input);
      var length := |input| + extra;
      ok := Ensure(length + 3);
      if !ok {
        return;
      }
      WriteString(input, extra);
    }

    method WriteString(input: string, extra: nat)
      requires Valid() && granted == offset + |input| + extra + 3 <= buffer.Length
      requires |input| + extra == |Escape(input)| && (extra == 0 ==> Escape(input) == input)
      modifies buffer
      ensures Printed(old(Contents()), StringText(input))
    {
      var end := offset + |input| + extra + 1;
      Write(offset, "\"");
      if extra == 0 {
        Write(offset + 1, input);
      } else {
        CopyEscaped(offset + 1, input);
      }
      assert buffer[..end] == old(Contents()) + "\"" + Escape(input);
      Write(end, "\"" + ['\0']);
      ghost var all := buffer[..end + 2];
      TextEnds(old(Contents()), Escape(input), all);
      assert all[..end + 1] == buffer[..end + 1] && all[end + 1] == buffer[end + 1];
    }

    // print_value(): it succeeds exactly when every node can be printed and the text fits with
    // two bytes to spare, and the text does not depend on the buffer it started with.
    method PrintValue(j: Json) returns (ok: bool)
      requires Valid() && IsTree(j)
      modifies this`buffer, this`granted, this`offset, this`depth, buffer
      ensures Kept()
      ensures ok <==> Printable(j) && old(offset) + |ValueText(j, format, old(depth))| + 2 <= Capacity()
      ensures ok ==> depth == old(depth) && Printed(old(Contents()), ValueText(j, format, old(depth)))
      decreases j, 1
    {
      match j {
        case Null => ok := Leave(5, "null");
        case False => ok := Leave(6, "false");
        case True => ok := Leave(5, "true");
        case Number(n) => ok := PrintNumber(n);
        case String(s) => ok := PrintString(s);
        case Array(_) => ok := PrintArray(j);
        case Object(_) => ok := PrintObject(j);
        case _ => ok := false;
      }
    }

    method PrintArray(j: Json) returns (ok: bool)
      requires Valid() && IsTree(j) && j.Array?
      modifies this`buffer, this`granted, this`offset, this`depth, buffer
      ensures Kept()
      ensures ok <==> Printable(j) && old(offset) + |ArrayText(j, format, old(depth))| + 2 <= Capacity()
      ensures ok ==> depth == old(depth) && Printed(old(Contents()), ArrayText(j, format, old(depth)))
      decreases j, 0, 2
    {
      ghost var base, elems := Contents(), ElemsText(j, j.elems, format, depth + 1);
      hide ElemsText, Layout, Printable, IsTree;
      ok := Open(1, "[");
      if !ok {
        return;
      }
      ok := PrintElements(j);
      if !ok {
        return;
      }
      Assoc(base, "[", elems);
      ok := Close(2, "]", base, "[" + elems);
    }

    // The loop of print_array()
    method PrintElements(j: Json) returns (ok: bool)
      requires Valid() && IsTree(j) && j.Array?
      modifies this`buffer, this`granted, this`offset, this`depth, buffer
      ensures Kept()
      ensures ok <==> (Printable(j) &&
        (j.elems == [] || old(offset) + |ElemsText(j, j.elems, format, old(depth))| + 2 <= Capacity()))
      ensures ok ==>
        depth == old(depth) && Contents() == old(Contents()) + ElemsText(j, j.elems, format, old(depth))
      decreases j, 0, 1
    {
      var es := j.elems;
      ghost var base, done := Contents(), "";
      ghost var text := ElemsText(j, es, format, depth);
      Whole(es);
      for i := 0 to |es|
        invariant Kept()
        invariant depth == old(depth) && Contents() == base + done
        invariant text == done + ElemsText(j, es[i..], format, depth)
        invariant i > 0 ==> offset + 2 <= Capacity()
        invariant forall k :: 0 <= k < i ==> Printable(es[k])
      {
        ElemsNext(j, es, i, format, depth);
        ghost var t := ElemText(es[i], i + 1 < |es|, format, depth);
        Assoc(base, done, t);
        Assoc(done, t, ElemsText(j, es[i + 1..], format, depth));
        ok := PrintElement(es[i], i + 1 < |es|);
        if !ok {
          return;
        }
        done := done + t;
      }
      return true;
    }

    // One turn of the loop of print_array()
    method PrintElement(e: Json, more: bool) returns (ok: bool)
      requires Valid() && IsTree(e)
      modifies this`buffer, this`granted, this`offset, this`depth, buffer
      ensures Kept()
      ensures ok <==> Printable(e) && old(offset) + |ElemText(e, more, format, old(depth))| + 2 <= Capacity()
      ensures ok ==> depth == old(depth) && Contents() == old(Contents()) + ElemText(e, more, format, old(depth))
      decreases e, 2
    {
      ghost var base, t := Contents(), ValueText(e, format, depth);
      ok := PrintValue(e);
      if !ok {
        return;
      }
      ValueNulFree(e, format, depth);
      UpdateOffset(base, t);
      if more {
        var separator := ElemTail(true, format);
        ok := Append(|separator| + 1, separator, true);
        Assoc(base, t, separator);
      }
    }

    method PrintObject(j: Json) returns (ok: bool)
      requires Valid() && IsTree(j) && j.Object?
      modifies this`buffer, this`granted, this`offset, this`depth, buffer
      ensures Kept()
      ensures ok <==> Printable(j) && old(offset) + |ObjectText(j, format, old(depth))| + 2 <= Capacity()
      ensures ok ==> depth == old(depth) && Printed(old(Contents()), ObjectText(j, format, old(depth)))
      decreases j, 0, 2
    {
      var open, close := ObjectOpen(format), ObjectClose(format, depth);
      ghost var base, members := Contents(), MembersText(j, j.members, format, depth + 1);
      assert |close| == if format then depth + 1 else 1;
      hide MembersText, Layout, ObjectOpen, ObjectClose, Printable, IsTree;
      ok := Open(|open| + 1, open);
      if !ok {
        return;
      }
      ok := PrintMembers(j);
      if !ok {
        return;
      }
      Assoc(base, open, members);
      ok := Close(if format then depth + 1 else 2, close, base, open + members);
    }

    // The loop of print_object()
    method PrintMembers(j: Json) returns (ok: bool)
      requires Valid() && IsTree(j) && j.Object?
      modifies this`buffer, this`granted, this`offset, this`depth, buffer
      ensures Kept()
      ensures ok <==> (Printable(j) &&
        (j.members == [] || old(offset) + |MembersText(j, j.members, format, old(depth))| + 2 <= Capacity()))
      ensures ok ==>
        depth == old(depth) && Contents() == old(Contents()) + MembersText(j, j.members, format, old(depth))
      decreases j, 0, 1
    {
      hide MemberText, StringText;
      var ms := j.members;
      ghost var base, done := Contents(), "";
      ghost var text := MembersText(j, ms, format, depth);
      Whole(ms);
      for i := 0 to |ms|
        invariant Kept()
        invariant depth == old(depth) && Contents() == base + done
        invariant text == done + MembersText(j, ms[i..], format, depth)
        invariant i > 0 ==> offset + 2 <= Capacity()
        invariant forall k :: 0 <= k < i ==> Printable(ms[k].value)
      {
        MembersNext(j, ms, i, format, depth);
        ghost var t := MemberText(ms[i], i + 1 < |ms|, format, depth);
        Assoc(base, done, t);
        Assoc(done, t, MembersText(j, ms[i + 1..], format, depth));
        ok := PrintMember(ms[i], i + 1 < |ms|);
        if !ok {
          return;
        }
        done := done + t;
      }
      return true;
    }

    // One turn of the loop of print_object()
    method PrintMember(m: Member, more: bool) returns (ok: bool)
      requires Valid() && NulFree(m.key) && IsTree(m.value)
      modifies this`buffer, this`granted, this`offset, this`depth, buffer
      ensures Kept()
      ensures ok <==> Printable(m.value) && old(offset) + |MemberText(m, more, format, old(depth))| + 2 <= Capacity()
      ensures ok ==> depth == old(depth) && Contents() == old(Contents()) + MemberText(m, more, format, old(depth))
      decreases m.value, 2
    {
      ghost var base, head, t := Contents(), MemberHead(m.key, format, depth), ValueText(m.value, format, depth);
      ok := PrintKey(m.key);
      if !ok {
        return;
      }
      ok := PrintValue(m.value);
      if !ok {
        return;
      }
      ValueNulFree(m.value, format, depth);
      UpdateOffset(base + head, t);
      var tail := MemberTail(more, format);
      ok := Append(|tail| + 1, tail, true);
      Pieces(base, head, t, tail);
    }

    method PrintKey(key: string) returns (ok: bool)
      requires Valid() && NulFree(key)
      modifies this`buffer, this`granted, this`offset, buffer
      ensures Kept()
      ensures ok <==> old(offset) + |MemberHead(key, format, depth)| + 1 <= Capacity()
      ensures ok ==> Contents() == old(Contents()) + MemberHead(key, format, depth)
    {
      ghost var base, tabs, text := Contents(), Layout(format, Tabs(depth)), StringText(key);
      if format {
        ok := Append(depth, Tabs(depth), false);
        if !ok {
          return;
        }
      }
      assert Contents() == base + tabs;
      ok := PrintString(key);
      if !ok {
        return;
      }
      EscapeNulFree(key);
      UpdateOffset(base + tabs, text);
      var colon := ":" + Layout(format, "\t");
      ok := Append(|colon|, colon, false);
      Pieces(base, tabs, text, colon);
    }
  }

  // A print that found memory, as a NUL-terminated array.
  ghost predicate IsText(printed: array<char>, text: string)
    reads printed
  {
    |text| < printed.Length && printed[..|text|] == text && printed[|text|] == '\0'
  }

  // cJSON_Print() and cJSON_PrintUnformatted(): an array of just the size that the text needs.
  method Print(item: Json, format: bool, reallocate: bool) returns (printed: array?<char>)
    requires IsTree(item)
    ensures printed != null <==> Printable(item) && |ValueText(item, format, 0)| + 2 <= INT_MAX
    ensures printed != null ==>
      printed.Length == |ValueText(item, format, 0)| + 1 && IsText(printed, ValueText(item, format, 0))
  {
    var start := new char[DEFAULT_BUFFER_SIZE];
    var p := new Printer(start, false, format, reallocate);
    var ok := p.PrintValue(item);
    if !ok {
      return null;
    }
    ghost var text := ValueText(item, format, 0);
    ValueNulFree(item, format, 0);
    p.UpdateOffset("", text);
    assert "" + text == text;
    printed := CutToSize(p, text, reallocate);
  }

  method CutToSize(p: Printer, ghost text: string, reallocate: bool) returns (printed: array<char>)
    requires p.Valid() && p.offset < p.buffer.Length && p.Contents() == text && p.buffer[p.offset] == '\0'
    ensures fresh(printed) && printed.Length == |text| + 1 && IsText(printed, text)
  {
    printed := new char[p.offset + 1];
    forall i | 0 <= i < p.offset + 1 {
      printed[i] := p.buffer[i];
    }
    if !reallocate {
      printed[p.offset] := '\0';
    }
    assert printed[..p.offset] == p.buffer[..p.offset];
  }

  // cJSON_PrintBuffered(): the printer's own buffer, of whatever size it came to.
  method PrintBuffered(item: Json, prebuffer: int, format: bool, reallocate: bool) returns (printed: array?<char>)
    requires IsTree(item) && prebuffer <= INT_MAX && (prebuffer == 0 ==> reallocate)
    ensures printed != null <==> prebuffer >= 0 && Printable(item) && |ValueText(item, format, 0)| + 2 <= INT_MAX
    ensures printed != null ==> IsText(printed, ValueText(item, format, 0))
  {
    if prebuffer < 0 {
      return null;
    }
    var start := new char[prebuffer];
    var p := new Printer(start, false, format, reallocate);
    var ok := p.PrintValue(item);
    if !ok {
      return null;
    }
    assert "" + ValueText(item, format, 0) == ValueText(item, format, 0);
    return p.buffer;
  }

  // cJSON_PrintPreallocated(), for a buffer of the length that is handed over.
  method PrintPreallocated(item: Json, buffer: array<char>, length: int, format: bool, reallocate: bool) returns (ok: bool)
    requires IsTree(item) && length <= INT_MAX && (length >= 0 ==> length == buffer.Length)
    modifies buffer
    ensures ok <==> Printable(item) && |ValueText(item, format, 0)| + 2 <= length
    ensures ok ==> IsText(buffer, ValueText(item, format, 0))
  {
    if length < 0 {
      return false;
    }
    var p := new Printer(buffer, true, format, reallocate);
    ok := p.PrintValue(item);
    assert "" + ValueText(item, format, 0) == ValueText(item, format, 0);
  }

  lemma Pieces(base: string, a: string, b: string, c: string)
    ensures base + a + b + c == base + (a + b + c)
  {
  }

  lemma ElemsNext(whole: Json, es: seq<Json>, i: nat, format: bool, depth: nat)
    requires i < |es| && forall k :: 0 <= k < |es| ==> es[k] < whole
    ensures ElemsText(whole, es[i..], format, depth) ==
      ElemText(es[i], i + 1 < |es|, format, depth) + ElemsText(whole, es[i + 1..], format, depth)
  {
    Next(es, i);
  }

  lemma MembersNext(whole: Json, ms: seq<Member>, i: nat, format: bool, depth: nat)
    requires i < |ms| && forall k :: 0 <= k < |ms| ==> ms[k].value < whole
    ensures MembersText(whole, ms[i..], format, depth) ==
      MemberText(ms[i], i + 1 < |ms|, format, depth) + MembersText(whole, ms[i + 1..], format, depth)
  {
    Next(ms, i);
  }

  lemma TextEnds(base: string, body: string, all: string)
    requires all == base + "\"" + body + ("\"" + ['\0'])
    ensures |all| == |base| + |body| + 3
    ensures all[..|all| - 1] == base + ("\"" + body + "\"") && all[|all| - 1] == '\0'
  {
  }
}
