/** The string and list helpers of the bot's common functions: the left-to-right mark,
    removing an element from a list in place, and the line filter of `file_read`. */
module Commons {
  import opened Wrappers
  import opened PyLists
  import Utf8

  /** U+200E LEFT-TO-RIGHT MARK. */
  const Lrm: char := '\U{200E}'

  /** The UTF-8 bytes of the mark, as the source writes them out (`b"\xe2\x80\x8e"`). */
  const LrmBytes: seq<Utf8.byte> := [0xE2, 0x80, 0x8E]

  lemma LrmBytesEncodeLrm()
    ensures Utf8.Encode([Lrm]) == LrmBytes
  {
  }

  /** `add_lrm`: starts from the mark's bytes, appends the UTF-8 bytes of `s` one by one and
      decodes the result. */
  method AddLrm(s: string) returns (r: string)
    ensures r == [Lrm] + s
  {
    var barray := LrmBytes;
    var encoded := Utf8.Encode(s);
    var i := 0;
    while i < |encoded|
      invariant 0 <= i <= |encoded|
      invariant barray == LrmBytes + encoded[..i]
    {
      barray := barray + [encoded[i]];
      i := i + 1;
    }
    assert encoded[..i] == encoded;
    LrmBytesEncodeLrm();
    Utf8.EncodeAppend([Lrm], s);
    Utf8.DecodeEncode([Lrm] + s);
    // The decode cannot fail, so the source's exception handler is never reached.
    r := Utf8.Decode(barray).value;
  }

  /** `rm_lrm`: drops one leading mark; a string without one, the empty string included
      (the source catches its IndexError), comes back unchanged. */
  function RmLrm(s: string): (r: string)
    ensures |s| > 0 && s[0] == Lrm ==> [Lrm] + r == s
    ensures !(|s| > 0 && s[0] == Lrm) ==> r == s
  {
    if |s| > 0 && s[0] == Lrm then s[1..] else s
  }

  /** Round trip: removing the mark that `add_lrm` put in front gives back the string,
      even when the string itself starts with a mark. */
  lemma RmLrmAfterAddLrm(s: string)
    ensures RmLrm([Lrm] + s) == s
  {
  }

  /** The other direction: a string that starts with the mark is rebuilt by adding it back. */
  lemma AddLrmAfterRmLrm(s: string)
    requires |s| > 0 && s[0] == Lrm
    ensures [Lrm] + RmLrm(s) == s
  {
  }

  /** `list_remove_element`: `the_list.index(the_element)` then `del the_list[i]` on the
      caller's list; False (and no change) when the element is not there. */
  method ListRemoveElement<T(==)>(theList: PyList<T>, theElement: T) returns (removed: bool)
    modifies theList
    ensures removed == (theElement in old(theList.elems))
    ensures removed ==> theList.elems == RemoveFirst(old(theList.elems), theElement)
    ensures !removed ==> theList.elems == old(theList.elems)
  {
    var found := IndexOf(theList.elems, theElement);
    match found
    case None =>
      removed := false;
    case Some(i) =>
      theList.elems := RemoveAt(theList.elems, i);
      removed := true;
  }

  // ---- the line filter of file_read ----

  /** The lines `file_read` skips. */
  predicate IsBlankLine(line: string) {
    line == "" || line == "\r\n" || line == "\r" || line == "\n"
  }

  /** `line.replace(ch, "")`: every occurrence of `ch` removed, the other characters kept in order. */
  function RemoveAll(line: string, ch: char): (r: string)
    ensures ch !in r
    ensures |r| <= |line|
    ensures forall x :: x in r ==> x in line
    ensures ch !in line ==> r == line
  {
    if line == [] then []
    else (if line[0] == ch then [] else [line[0]]) + RemoveAll(line[1..], ch)
  }

  /** `replace(ch, "")` removes every copy of `ch` and keeps every copy of every other
      character. */
  lemma {:induction false} RemoveAllKeepsOthers(line: string, ch: char)
    ensures multiset(RemoveAll(line, ch)) == multiset(line)[ch := 0]
  {
    if line != [] {
      assert line == [line[0]] + line[1..];
      RemoveAllKeepsOthers(line[1..], ch);
    }
  }

  /** `replace` works character by character: removing from a concatenation concatenates the
      results, so the characters other than `ch` keep their order. With `RemoveAllKeepsOthers`
      this determines the result: a single character is kept unless it is `ch`. */
  lemma {:induction false} RemoveAllAppend(a: string, b: string, ch: char)
    ensures RemoveAll(a + b, ch) == RemoveAll(a, ch) + RemoveAll(b, ch)
  {
    if a == [] {
      assert a + b == b;
    } else {
      assert (a + b)[1..] == a[1..] + b;
      RemoveAllAppend(a[1..], b, ch);
    }
  }

  /** Both replacements of `file_read`: first every `\r`, then every `\n`. */
  function StripLineBreaks(line: string): (r: string)
    ensures '\r' !in r && '\n' !in r
  {
    RemoveAll(RemoveAll(line, '\r'), '\n')
  }

  /** Stripping the line breaks works character by character and keeps every copy of every
      character other than `\r` and `\n`: the rest of each line survives, in order. */
  lemma StripLineBreaksKeepsOthers(a: string, b: string)
    ensures multiset(StripLineBreaks(a)) == multiset(a)['\r' := 0]['\n' := 0]
    ensures StripLineBreaks(a + b) == StripLineBreaks(a) + StripLineBreaks(b)
  {
    RemoveAllKeepsOthers(a, '\r');
    RemoveAllKeepsOthers(RemoveAll(a, '\r'), '\n');
    RemoveAllAppend(a, b, '\r');
    RemoveAllAppend(RemoveAll(a, '\r'), RemoveAll(b, '\r'), '\n');
  }

  /** The lines `file_read` returns for the lines of a file, in order. */
  function KeptLines(lines: seq<string>): seq<string>
  {
    if lines == [] then []
    else (if IsBlankLine(lines[0]) then [] else [StripLineBreaks(lines[0])]) + KeptLines(lines[1..])
  }

  /** The filter treats the lines one at a time: filtering a concatenation concatenates the
      filtered parts, so the input order is kept. */
  lemma {:induction false} KeptLinesAppend(a: seq<string>, b: seq<string>)
    ensures KeptLines(a + b) == KeptLines(a) + KeptLines(b)
  {
    if a == [] {
      assert a + b == b;
    } else {
      assert (a + b)[1..] == a[1..] + b;
      KeptLinesAppend(a[1..], b);
    }
  }

  /** The filter never produces more lines than it was given, and no line it produces
      holds a carriage return or a line feed. */
  lemma {:induction false} KeptLinesShape(lines: seq<string>)
    ensures |KeptLines(lines)| <= |lines|
    ensures forall k :: 0 <= k < |KeptLines(lines)| ==>
      '\r' !in KeptLines(lines)[k] && '\n' !in KeptLines(lines)[k]
  {
    if lines != [] {
      KeptLinesShape(lines[1..]);
    }
  }

  /** Lines that are not blank and carry no line break pass through unchanged. */
  lemma {:induction false} KeptLinesOfCleanLines(lines: seq<string>)
    requires forall k :: 0 <= k < |lines| ==>
      !IsBlankLine(lines[k]) && '\r' !in lines[k] && '\n' !in lines[k]
    ensures KeptLines(lines) == lines
  {
    if lines != [] {
      KeptLinesOfCleanLines(lines[1..]);
    }
  }

  /** The loop of `file_read` over the lines of the file (reading the file is not modelled). */
  method FileReadLines(lines: seq<string>) returns (listReadLines: seq<string>)
    ensures listReadLines == KeptLines(lines)
  {
    listReadLines := [];
    for i := 0 to |lines|
      invariant listReadLines == KeptLines(lines[..i])
    {
      var line := lines[i];
      KeptLinesAppend(lines[..i], [line]);
      assert lines[..i + 1] == lines[..i] + [line];
      if IsBlankLine(line) {
        continue;
      }
      line := RemoveAll(line, '\r');
      line := RemoveAll(line, '\n');
      listReadLines := listReadLines + [line];
    }
    assert lines[..|lines|] == lines;
  }
}
