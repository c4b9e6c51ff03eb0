/** Reading the log file backwards in chunks. */
module BackwardReader {
  import opened Sequences

  /** The pieces between line ends: one more than there are line ends. */
  function Split(s: string): (lines: seq<string>)
    ensures lines != []
  {
    if s == [] then [[]]
    else
      var rest := Split(s[1..]);
      if s[0] == '\n' then [[]] + rest else [[s[0]] + rest[0]] + rest[1..]
  }

  /** The lines from the last to the first, but for an empty first line. */
  function Backward(s: string): seq<string> {
    var lines := Split(s);
    Reverse(lines[1..]) + if lines[0] == [] then [] else [lines[0]]
  }

  lemma {:induction false} SplitAfter(a: string, t: string)
    ensures Split(a + t) == Split(a + Split(t)[0]) + Split(t)[1..]
  {
    if a == [] {
      assert a + t == t && a + Split(t)[0] == Split(t)[0];
      FirstLineWhole(t);
    } else {
      assert (a + t)[1..] == a[1..] + t && (a + Split(t)[0])[1..] == a[1..] + Split(t)[0];
      SplitAfter(a[1..], t);
    }
  }

  lemma {:induction false} FirstLineWhole(t: string)
    ensures Split(Split(t)[0]) == [Split(t)[0]]
  {
    if t != [] && t[0] != '\n' {
      FirstLineWhole(t[1..]);
      assert Split(t)[0][1..] == Split(t[1..])[0];
    }
  }

  /** What a chunk adds at the front. */
  lemma ChunkBefore(chunk: string, tail: string)
    ensures var lines := Split(chunk + Split(tail)[0]);
            && Split(chunk + tail)[0] == lines[0]
            && Reverse(Split(chunk + tail)[1..]) == Reverse(Split(tail)[1..]) + Reverse(lines[1..])
  {
    hide Split, Reverse;
    var lines := Split(chunk + Split(tail)[0]);
    SplitAfter(chunk, tail);
    assert (lines + Split(tail)[1..])[1..] == lines[1..] + Split(tail)[1..];
    ReverseJoin(lines[1..], Split(tail)[1..]);
  }

  lemma NothingRead(s: string)
    requires |s| == 0
    ensures Split(s)[0] == "" && Reverse(Split(s)[1..]) == []
  {
  }

  /** For any file and any chunk size the lines come out as if the file had been split at once. */
  method IterFileBackward(content: string, bufSize: nat) returns (yielded: seq<string>)
    requires bufSize >= 1
    ensures yielded == Backward(content)
  {
    hide Split, Reverse;
    yielded := [];
    var filePos, remainder := |content|, "";
    NothingRead(content[filePos..]);
    while filePos > 0
      invariant filePos <= |content|
      invariant remainder == Split(content[filePos..])[0] && yielded == Reverse(Split(content[filePos..])[1..])
    {
      ghost var tail := content[filePos..];
      var readSize := if bufSize < filePos then bufSize else filePos;
      filePos := filePos - readSize;
      var chunk := content[filePos..filePos + readSize];
      var lines := Split(chunk + remainder);
      assert content[filePos..] == chunk + tail;
      ChunkBefore(chunk, tail);
      remainder := lines[0];
      yielded := yielded + Reverse(lines[1..]);
    }
    assert content[0..] == content;
    if remainder != "" {
      yielded := yielded + [remainder];
    }
  }

  // ---- what the log manager wrote ----

  /** The file after writing lines, each with its line end. */
  function Written(lines: seq<string>): string {
    if lines == [] then "" else lines[0] + "\n" + Written(lines[1..])
  }

  lemma {:induction false} SplitLine(line: string, rest: string)
    requires '\n' !in line
    ensures Split(line + "\n" + rest) == [line] + Split(rest)
  {
    var s := line + "\n" + rest;
    if line == [] {
      assert s == "\n" + rest && s[1..] == rest;
    } else {
      assert s[1..] == line[1..] + "\n" + rest;
      SplitLine(line[1..], rest);
      assert [line[0]] + line[1..] == line;
    }
  }

  lemma {:induction false} SplitWritten(lines: seq<string>)
    requires forall i | 0 <= i < |lines| :: '\n' !in lines[i]
    ensures Split(Written(lines)) == lines + [""]
  {
    if lines != [] {
      SplitLine(lines[0], Written(lines[1..]));
      SplitWritten(lines[1..]);
    }
  }

  lemma BackwardOf(s: string, lines: seq<string>)
    requires Split(s) == lines && lines[0] != ""
    ensures Backward(s) == Reverse(lines[1..]) + [lines[0]]
  {
  }

  /** The entries read back are those written, the last first, after one empty line. */
  lemma ReadsBackWritten(lines: seq<string>)
    requires lines != [] && forall i | 0 <= i < |lines| :: '\n' !in lines[i] && lines[i] != ""
    ensures Backward(Written(lines)) == [""] + Reverse(lines)
  {
    hide Split, Reverse, Written, Backward;
    var first, more := lines[0], lines[1..];
    SplitWritten(lines);
    BackwardOf(Written(lines), lines + [""]);
    assert (lines + [""])[1..] == more + [""];
    ReverseEnds(first, more, "");
    assert lines == [first] + more;
  }

  lemma ReverseEnds<T>(a: T, mid: seq<T>, z: T)
    ensures Reverse(mid + [z]) + [a] == [z] + Reverse([a] + mid)
  {
    hide Reverse;
    ReverseFew(a);
    ReverseFew(z);
    ReverseJoin(mid, [z]);
    ReverseJoin([a], mid);
    assert [z] + Reverse(mid) + [a] == [z] + (Reverse(mid) + [a]);
  }
}
