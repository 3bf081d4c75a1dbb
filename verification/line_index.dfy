/** The offset index `LineFileCache` builds over its file, and the
    seek-and-read it serves a cache miss with.

    A file is a string; one character stands for one byte (the source measures
    lines with `String#length` and cached values with `bytesize`, which agree
    on ASCII text). */
module LineIndex {
  import opened Results

  /** Characters the reader drops from the end of every line but the last:
      the width of a CR LF terminator. */
  const TerminatorWidth: nat := 2

  /** The file a sequence of lines makes up. */
  function Concat(lines: seq<string>): string
  {
    if |lines| == 0 then [] else lines[0] + Concat(lines[1..])
  }

  /** Length of the first line `IO.foreach` yields from `f`: up to and
      including the first LF, or all of `f` when it holds none. */
  function FirstLineLength(f: string): (n: nat)
    requires |f| > 0
    ensures 0 < n <= |f|
    ensures n == |f| || f[n - 1] == '\n'
    ensures forall j :: 0 <= j < n - 1 ==> f[j] != '\n'
    decreases |f|
  {
    if f[0] == '\n' || |f| == 1 then 1 else 1 + FirstLineLength(f[1..])
  }

  /** The lines `IO.foreach` yields, in order: each keeps its LF, and a
      final line without one is yielded too. An empty file has no lines,
      and no file has more lines than characters. */
  function Lines(f: string): (r: seq<string>)
    ensures r == [] <==> |f| == 0
    ensures |r| <= |f|
    decreases |f|
  {
    if |f| == 0 then []
    else
      var n := FirstLineLength(f);
      [f[..n]] + Lines(f[n..])
  }

  lemma {:induction false} ConcatSplit(a: seq<string>, b: seq<string>)
    ensures Concat(a + b) == Concat(a) + Concat(b)
  {
    if |a| == 0 {
      assert a + b == b;
    } else {
      assert (a + b)[1..] == a[1..] + b;
      ConcatSplit(a[1..], b);
    }
  }

  /** Splitting loses nothing: the lines put back together are the file. */
  lemma {:induction false} LinesConcat(f: string)
    ensures Concat(Lines(f)) == f
    decreases |f|
  {
    if |f| > 0 {
      var n := FirstLineLength(f);
      var rest := Lines(f[n..]);
      assert Lines(f) == [f[..n]] + rest;
      LinesConcat(f[n..]);
      assert ([f[..n]] + rest)[1..] == rest;
      assert f == f[..n] + f[n..];
    }
  }

  /** The lines are what `IO.foreach` yields: none is empty, an LF can only be
      a line's last character, and every line but the last ends with one. */
  lemma {:induction false} LinesShape(f: string)
    ensures forall k :: 0 <= k < |Lines(f)| ==> |Lines(f)[k]| > 0
    ensures forall k, j :: 0 <= k < |Lines(f)| && 0 <= j < |Lines(f)[k]| - 1 ==> Lines(f)[k][j] != '\n'
    ensures forall k :: 0 <= k < |Lines(f)| - 1 ==> Lines(f)[k][|Lines(f)[k]| - 1] == '\n'
    decreases |f|
  {
    if |f| > 0 {
      var n := FirstLineLength(f);
      var ls := Lines(f);
      var tail := Lines(f[n..]);
      LinesShape(f[n..]);
      assert ls == [f[..n]] + tail;
      forall k | 0 <= k < |ls|
        ensures |ls[k]| > 0
        ensures forall j :: 0 <= j < |ls[k]| - 1 ==> ls[k][j] != '\n'
        ensures k < |ls| - 1 ==> ls[k][|ls[k]| - 1] == '\n'
      {
        if k == 0 {
          assert ls[0] == f[..n];
          if k < |ls| - 1 {
            assert |tail| > 0;
            assert n < |f|;
          }
        } else {
          assert ls[k] == tail[k - 1];
        }
      }
    }
  }

  /** The reference offset index: line `i` starts after everything before it. */
  function Offsets(lines: seq<string>): seq<nat>
  {
    seq(|lines|, i requires 0 <= i < |lines| => |Concat(lines[..i])|)
  }

  /** The index loop of `initialize`: walk the lines once, recording the
      running position before adding each line's length. */
  method BuildIndex(lines: seq<string>) returns (off: seq<nat>)
    ensures off == Offsets(lines)
  {
    off := [];
    var pos: nat := 0;
    var k := 0;
    while k < |lines|
      invariant 0 <= k <= |lines|
      invariant |off| == k
      invariant forall j :: 0 <= j < k ==> off[j] == |Concat(lines[..j])|
      invariant pos == |Concat(lines[..k])|
    {
      assert lines[..k + 1] == lines[..k] + [lines[k]];
      ConcatSplit(lines[..k], [lines[k]]);
      assert Concat([lines[k]]) == lines[k];
      off := off + [pos];
      pos := pos + |lines[k]|;
      k := k + 1;
    }
  }

  /** Each offset adds the previous line's length, terminator included. */
  lemma NextOffset(lines: seq<string>, i: nat)
    requires i + 1 < |lines|
    ensures Offsets(lines)[i + 1] == Offsets(lines)[i] + |lines[i]|
  {
    assert lines[..i + 1] == lines[..i] + [lines[i]];
    ConcatSplit(lines[..i], [lines[i]]);
    assert Concat([lines[i]]) == lines[i];
  }

  /** The index is a prefix sum: it starts at 0 and each entry adds the
      previous line's length, terminator included. */
  lemma OffsetsArePrefixSums(lines: seq<string>)
    ensures |Offsets(lines)| == |lines|
    ensures |lines| > 0 ==> Offsets(lines)[0] == 0
    ensures forall i :: 0 <= i < |lines| - 1 ==> Offsets(lines)[i + 1] == Offsets(lines)[i] + |lines[i]|
  {
    if |lines| > 0 {
      assert lines[..0] == [];
    }
    forall i | 0 <= i < |lines| - 1
      ensures Offsets(lines)[i + 1] == Offsets(lines)[i] + |lines[i]|
    {
      NextOffset(lines, i);
    }
  }

  /** Line `i` sits in the file at its offset. */
  lemma {:induction false} LineAtOffset(lines: seq<string>, i: nat)
    requires i < |lines|
    ensures Offsets(lines)[i] + |lines[i]| <= |Concat(lines)|
    ensures Concat(lines)[Offsets(lines)[i]..Offsets(lines)[i] + |lines[i]|] == lines[i]
    ensures i == |lines| - 1 ==> Concat(lines)[Offsets(lines)[i]..] == lines[i]
  {
    assert lines == lines[..i] + lines[i..];
    ConcatSplit(lines[..i], lines[i..]);
    assert lines[i..][0] == lines[i];
    assert lines[i..][1..] == lines[i + 1..];
    if i == |lines| - 1 {
      assert lines[i + 1..] == [];
    }
  }

  /** `IO#read(n)` after a seek to `pos`: the next `n` characters, or all
      that are left when fewer remain; a negative length raises. Ruby answers
      nil when `n > 0` and nothing is left; the miss path never reads there,
      since it only reads at the offset of a non-empty line. */
  function Read(file: string, pos: nat, n: int): (r: Result<string>)
    requires pos <= |file|
    ensures r.Failure? <==> n < 0
    ensures r.Failure? ==> r.error == NegativeReadLength
    ensures r.Success? ==> r.value <= file[pos..] && |r.value| <= n
    ensures r.Success? ==> |r.value| == n || pos + |r.value| == |file|
  {
    if n < 0 then Failure(NegativeReadLength)
    else Success(file[pos..if pos + n <= |file| then pos + n else |file|])
  }

  /** The miss path of `[]`: seek to line `i`'s offset, then read up to the
      next offset less the terminator, or to the end of the file for the last
      line. It raises exactly when the next offset is less than a terminator
      past this one. */
  function ReadLine(file: string, off: seq<nat>, i: nat): (r: Result<string>)
    requires i < |off| && off[i] <= |file|
    ensures r.Failure? <==> i < |off| - 1 && off[i + 1] < off[i] + TerminatorWidth
    ensures r.Failure? ==> r.error == NegativeReadLength
    ensures r.Success? ==> r.value <= file[off[i]..]
    ensures r.Success? && i < |off| - 1 ==> |r.value| <= off[i + 1] - off[i] - TerminatorWidth
    ensures i == |off| - 1 ==> r == Success(file[off[i]..])
  {
    if i < |off| - 1 then Read(file, off[i], off[i + 1] - off[i] - TerminatorWidth)
    else Success(file[off[i]..])
  }

  /** What line `i` is served as: without its terminator, except the last
      line, which is served whole. */
  function Content(lines: seq<string>, i: nat): string
    requires i < |lines|
    requires i < |lines| - 1 ==> |lines[i]| >= TerminatorWidth
  {
    if i < |lines| - 1 then lines[i][..|lines[i]| - TerminatorWidth] else lines[i]
  }

  /** Every offset of a file's index lies before the file's end: a miss
      never reads at the end of the file. */
  lemma OffsetInFile(file: string, i: nat)
    requires i < |Lines(file)|
    ensures Offsets(Lines(file))[i] < |file|
  {
    LinesConcat(file);
    LinesShape(file);
    LineAtOffset(Lines(file), i);
  }

  /** Reading fewer characters from the same position reads a prefix. */
  lemma SlicePrefix(s: string, pos: nat, m: nat, n: nat)
    requires pos + m <= |s| && n <= m
    ensures s[pos..pos + n] == s[pos..pos + m][..n]
  {
  }

  /** Reading line `i` out of any file that holds each line at its offset. */
  lemma ReadLineFrom(file: string, off: seq<nat>, lines: seq<string>, i: nat)
    requires i < |lines| == |off|
    requires off[i] + |lines[i]| <= |file| && file[off[i]..off[i] + |lines[i]|] == lines[i]
    requires i == |lines| - 1 ==> file[off[i]..] == lines[i]
    requires i < |lines| - 1 ==> off[i + 1] == off[i] + |lines[i]|
    ensures ReadLine(file, off, i).Failure? <==> i < |lines| - 1 && |lines[i]| < TerminatorWidth
    ensures ReadLine(file, off, i).Failure? ==> ReadLine(file, off, i).error == NegativeReadLength
    ensures ReadLine(file, off, i).Success? ==> ReadLine(file, off, i).value == Content(lines, i)
  {
    if i < |lines| - 1 && |lines[i]| >= TerminatorWidth {
      SlicePrefix(file, off[i], |lines[i]|, |lines[i]| - TerminatorWidth);
    }
  }

  /** Reading line `i` of a sequence of lines, through their offsets, out
      of the file they make up. */
  lemma ReadLineAt(lines: seq<string>, i: nat)
    requires i < |lines|
    ensures Offsets(lines)[i] <= |Concat(lines)|
    ensures ReadLine(Concat(lines), Offsets(lines), i).Failure?
        <==> i < |lines| - 1 && |lines[i]| < TerminatorWidth
    ensures ReadLine(Concat(lines), Offsets(lines), i).Failure?
        ==> ReadLine(Concat(lines), Offsets(lines), i).error == NegativeReadLength
    ensures ReadLine(Concat(lines), Offsets(lines), i).Success?
        ==> ReadLine(Concat(lines), Offsets(lines), i).value == Content(lines, i)
  {
    LineAtOffset(lines, i);
    if i < |lines| - 1 {
      NextOffset(lines, i);
    }
    ReadLineFrom(Concat(lines), Offsets(lines), lines, i);
  }

  /** Index and read round trip: reading line `i` through the index gives the
      line without its terminator (the whole line when it is the last), and
      raises exactly when a line before the last is shorter than a
      terminator. */
  lemma ReadLineRoundTrip(file: string, i: nat)
    requires i < |Lines(file)|
    ensures Offsets(Lines(file))[i] <= |file|
    ensures ReadLine(file, Offsets(Lines(file)), i).Failure?
        <==> i < |Lines(file)| - 1 && |Lines(file)[i]| < TerminatorWidth
    ensures ReadLine(file, Offsets(Lines(file)), i).Failure?
        ==> ReadLine(file, Offsets(Lines(file)), i).error == NegativeReadLength
    ensures ReadLine(file, Offsets(Lines(file)), i).Success?
        ==> ReadLine(file, Offsets(Lines(file)), i).value == Content(Lines(file), i)
  {
    LinesConcat(file);
    ReadLineAt(Lines(file), i);
  }

  /** On a CR LF file a line before the last reads back as exactly its text:
      the characters before the terminator, holding no LF. */
  lemma CrLfLineReadsItsText(file: string, i: nat)
    requires i < |Lines(file)| - 1
    requires |Lines(file)[i]| >= 2 && Lines(file)[i][|Lines(file)[i]| - 2] == '\r'
    ensures Offsets(Lines(file))[i] <= |file|
    ensures ReadLine(file, Offsets(Lines(file)), i).Success?
    ensures ReadLine(file, Offsets(Lines(file)), i).value + "\r\n" == Lines(file)[i]
    ensures '\n' !in ReadLine(file, Offsets(Lines(file)), i).value
  {
    var line := Lines(file)[i];
    ReadLineRoundTrip(file, i);
    LinesShape(file);
    var text := line[..|line| - 2];
    assert line == text + [line[|line| - 2], line[|line| - 1]];
    assert forall j :: 0 <= j < |text| ==> text[j] == line[j];
  }

  /** A three-line CR LF file whose last line has no terminator. */
  const ExampleFile: string := "abc\r\nde\r\nfghij"

  /** The first line ends at the first LF. */
  lemma FirstLineEndsAtLf(f: string, n: nat)
    requires 0 < n <= |f|
    requires n == |f| || f[n - 1] == '\n'
    requires forall j :: 0 <= j < n - 1 ==> f[j] != '\n'
    ensures FirstLineLength(f) == n
    ensures Lines(f) == [f[..n]] + Lines(f[n..])
  {
  }

  /** The last two lines of the example file. This lemma and the next take
      the text as a parameter equal to it, so that `Lines` is unfolded only
      where the proof asks for it rather than on the whole literal. */
  lemma ExampleTailLines(g: string)
    requires g == "de\r\nfghij"
    ensures Lines(g) == ["de\r\n", "fghij"]
  {
    var h := g[4..];
    FirstLineEndsAtLf(g, 4);
    FirstLineEndsAtLf(h, 5);
    assert h[5..] == [] && h[..5] == h;
    assert Lines(h) == [h];
    assert g[..4] == "de\r\n" && h == "fghij";
  }

  /** The example file splits into its three lines. */
  lemma ExampleFileLines(f: string)
    requires f == ExampleFile
    ensures Lines(f) == ["abc\r\n", "de\r\n", "fghij"]
  {
    var g: string := "de\r\nfghij";
    assert f[..5] == "abc\r\n" && f[5..] == g;
    FirstLineEndsAtLf(f, 5);
    ExampleTailLines(g);
  }

  /** Three lines of 5, 4 and 5 characters are indexed at 0, 5 and 9. */
  lemma ThreeLineOffsets(lines: seq<string>)
    requires |lines| == 3 && |lines[0]| == 5 && |lines[1]| == 4
    ensures Offsets(lines) == [0, 5, 9]
  {
    OffsetsArePrefixSums(lines);
  }

  /** The example file is indexed at 0, 5 and 9. */
  lemma ExampleFileOffsets()
    ensures Offsets(Lines(ExampleFile)) == [0, 5, 9]
  {
    ExampleFileLines(ExampleFile);
    ThreeLineOffsets(Lines(ExampleFile));
  }

  /** Reading the example file through its index gives `abc`, `de` and the
      whole last line. */
  lemma ExampleFileReads()
    ensures ReadLine(ExampleFile, [0, 5, 9], 0) == Success("abc")
    ensures ReadLine(ExampleFile, [0, 5, 9], 1) == Success("de")
    ensures ReadLine(ExampleFile, [0, 5, 9], 2) == Success("fghij")
  {
    var f := ExampleFile;
    assert f[0..3] == "abc";
    assert f[5..7] == "de";
    assert f[9..] == "fghij";
  }
}
