/**
 Saving and loading a whole UAE configuration file. A save keeps the lines the debugger does not
 manage and appends one regenerated block; a load reads the managed lines.
 */
module UaeFile {
  import opened Text
  import opened UaeLine

  // ---------- Reading lines with a fixed buffer ----------

  const LINE_MAX := 8191

  predicate EndsLine(s: string) {
    s != "" && s[|s| - 1] == '\n'
  }

  /** How much of a non-empty text one read takes: up to a line break, and at most a full buffer. */
  function ChunkLength(s: string): (n: nat)
    requires s != ""
    ensures 0 < n <= |s| && n <= LINE_MAX
  {
    var nl := IndexOf(s, '\n');
    var whole := if nl < |s| then nl + 1 else |s|;
    if whole <= LINE_MAX then whole else LINE_MAX
  }

  function Chunks(s: string): seq<string>
    decreases |s|
  {
    if s == "" then [] else [s[..ChunkLength(s)]] + Chunks(s[ChunkLength(s)..])
  }

  function Concat(lines: seq<string>): string {
    if lines == [] then "" else lines[0] + Concat(lines[1..])
  }

  /** A chunk whose end does not depend on what follows it. */
  predicate Closed(line: string) {
    && 0 < |line| <= LINE_MAX
    && (forall i :: 0 <= i < |line| - 1 ==> line[i] != '\n')
    && (EndsLine(line) || |line| == LINE_MAX)
  }

  /** Any chunk: a closed one, or the unterminated end of the file. */
  predicate IsChunk(line: string) {
    0 < |line| <= LINE_MAX && forall i :: 0 <= i < |line| - 1 ==> line[i] != '\n'
  }

  lemma ChunkOfClosed(line: string, rest: string)
    requires Closed(line)
    ensures ChunkLength(line + rest) == |line|
  {
    var s := line + rest;
    if EndsLine(line) {
      assert s[|line| - 1] == '\n';
      IndexOfAt(s, '\n', |line| - 1);
    } else {
      var nl := IndexOf(s, '\n');
      assert nl < |s| ==> s[nl] == '\n';
      assert forall i :: 0 <= i < |line| - 1 ==> s[i] == line[i];
      assert s[|line| - 1] == line[|line| - 1];
    }
  }

  lemma FirstChunk(line: string, rest: string)
    requires Closed(line)
    ensures Chunks(line + rest) == [line] + Chunks(rest)
  {
    ChunkOfClosed(line, rest);
    SliceAppend(line, rest, |line|);
    assert line[..|line|] == line && line[|line|..] + rest == rest;
  }

  lemma {:induction false} ChunksOfClosed(lines: seq<string>, rest: string)
    requires forall l :: l in lines ==> Closed(l)
    ensures Chunks(Concat(lines) + rest) == lines + Chunks(rest)
  {
    hide Chunks, Closed;
    if lines == [] {
      assert Concat(lines) + rest == rest;
    } else {
      var more := Concat(lines[1..]) + rest;
      assert Concat(lines) + rest == lines[0] + more;
      FirstChunk(lines[0], more);
      ChunksOfClosed(lines[1..], rest);
      assert [lines[0]] + (lines[1..] + Chunks(rest)) == lines + Chunks(rest);
    }
  }

  /** A text that ends its line is read apart from what follows it. */
  lemma {:induction false} ChunksSplit(a: string, b: string)
    requires a == "" || EndsLine(a)
    ensures Chunks(a + b) == Chunks(a) + Chunks(b)
    decreases |a|
  {
    hide ChunkLength;
    if a == "" {
      assert a + b == b;
    } else {
      ChunkLengthKept(a, b);
      var n := ChunkLength(a);
      SliceAppend(a, b, n);
      assert a[n..] == "" || EndsLine(a[n..]);
      ChunksSplit(a[n..], b);
      assert [a[..n]] + (Chunks(a[n..]) + Chunks(b)) == ([a[..n]] + Chunks(a[n..])) + Chunks(b);
    }
  }

  lemma ChunkLengthKept(a: string, b: string)
    requires EndsLine(a)
    ensures ChunkLength(a + b) == ChunkLength(a)
  {
    var nl := IndexOf(a, '\n');
    IndexOfAt(a + b, '\n', nl);
  }

  lemma {:induction false} LinesEndTheText(lines: seq<string>)
    requires forall l :: l in lines ==> EndsLine(l)
    ensures Concat(lines) == "" || EndsLine(Concat(lines))
  {
    if lines != [] {
      assert lines[0] in lines;
      LinesEndTheText(lines[1..]);
    }
  }

  lemma {:induction false} ChunksAreClosed(s: string)
    ensures forall i :: 0 <= i < |Chunks(s)| ==> IsChunk(Chunks(s)[i])
    ensures forall i :: 0 <= i < |Chunks(s)| - 1 ==> Closed(Chunks(s)[i])
    decreases |s|
  {
    if s != "" {
      ChunksAreClosed(s[ChunkLength(s)..]);
    }
  }

  // ---------- The lines that are kept ----------

  function Unmanaged(lines: seq<string>): (r: seq<string>)
    ensures forall l :: l in r ==> l in lines && !IsManaged(l)
  {
    if lines == [] then []
    else (if IsManaged(lines[0]) then [] else [lines[0]]) + Unmanaged(lines[1..])
  }

  lemma {:induction false} UnmanagedSplits(a: seq<string>, b: seq<string>)
    ensures Unmanaged(a + b) == Unmanaged(a) + Unmanaged(b)
  {
    if a == [] {
      assert a + b == b;
    } else {
      assert (a + b)[1..] == a[1..] + b;
      UnmanagedSplits(a[1..], b);
    }
  }

  lemma {:induction false} UnmanagedAll(a: seq<string>)
    requires forall l :: l in a ==> !IsManaged(l)
    ensures Unmanaged(a) == a
  {
    if a != [] {
      UnmanagedAll(a[1..]);
    }
  }

  lemma {:induction false} UnmanagedNone(a: seq<string>)
    requires forall l :: l in a ==> IsManaged(l)
    ensures Unmanaged(a) == []
  {
    if a != [] {
      UnmanagedNone(a[1..]);
    }
  }

  /** The line break the writer adds when the last kept line has none. */
  function MissingBreak(kept: seq<string>): string {
    if kept == [] || EndsLine(kept[|kept| - 1]) then "" else "\n"
  }

  /** The kept lines as a later read sees them: the last one is closed by the added break. */
  function Reread(kept: seq<string>): seq<string> {
    if MissingBreak(kept) == "" then kept
    else if |kept[|kept| - 1]| == LINE_MAX then kept + ["\n"]
    else kept[..|kept| - 1] + [kept[|kept| - 1] + "\n"]
  }

  /** The file a save writes, given the lines of its generated block. */
  function SaveText(file: string, block: seq<string>): string {
    var kept := Unmanaged(Chunks(file));
    Concat(kept) + MissingBreak(kept) + Concat(block)
  }

  lemma {:induction false} ConcatSplits(a: seq<string>, b: seq<string>)
    ensures Concat(a + b) == Concat(a) + Concat(b)
  {
    if a == [] {
      assert a + b == b;
    } else {
      assert (a + b)[1..] == a[1..] + b;
      ConcatSplits(a[1..], b);
    }
  }

  lemma RereadConcat(kept: seq<string>)
    ensures Concat(Reread(kept)) == Concat(kept) + MissingBreak(kept)
  {
    if MissingBreak(kept) != "" {
      var init, last := kept[..|kept| - 1], kept[|kept| - 1];
      assert kept == init + [last];
      ConcatSplits(init, [last]);
      ConcatSplits(init, [last + "\n"]);
      ConcatSplits(kept, ["\n"]);
      assert Concat([last]) == last && Concat([last + "\n"]) == last + "\n" && Concat(["\n"]) == "\n";
    }
  }

  lemma LineBreakUnmanaged()
    ensures !IsManaged("\n")
  {
  }

  lemma {:induction false} UnmanagedOrder(lines: seq<string>)
    ensures forall i :: 0 <= i < |Unmanaged(lines)| ==> Unmanaged(lines)[i] in lines
    ensures (forall j :: 0 <= j < |lines| - 1 ==> Closed(lines[j])) ==>
              forall i :: 0 <= i < |Unmanaged(lines)| - 1 ==> Closed(Unmanaged(lines)[i])
  {
    if lines != [] {
      UnmanagedOrder(lines[1..]);
    }
  }

  lemma ClosedByBreak(line: string)
    requires IsChunk(line) && !EndsLine(line)
    ensures Closed(line + "\n") || |line| == LINE_MAX
    ensures |line| == LINE_MAX ==> Closed(line)
  {
  }

  /** The kept lines, reread, are closed lines that are not managed, and the last ends the line. */
  lemma RereadIsClosed(kept: seq<string>)
    requires forall l :: l in kept ==> IsChunk(l) && !IsManaged(l)
    requires forall i :: 0 <= i < |kept| - 1 ==> Closed(kept[i])
    ensures forall l :: l in Reread(kept) ==> Closed(l) && !IsManaged(l)
    ensures MissingBreak(Reread(kept)) == ""
  {
    hide IsManaged;
    LineBreakUnmanaged();
    if kept != [] {
      var init, last := kept[..|kept| - 1], kept[|kept| - 1];
      assert last in kept;
      assert forall l :: l in init ==> Closed(l) && l in kept;
      BreakKeepsUnmanaged(last);
      if !EndsLine(last) {
        ClosedByBreak(last);
      }
      assert kept == init + [last];
    }
  }

  lemma BreakKeepsUnmanaged(line: string)
    requires !IsManaged(line)
    ensures !IsManaged(line + "\n")
  {
    ParseWithNewline(line);
  }

  lemma RereadIsKept(file: string)
    ensures var again := Reread(Unmanaged(Chunks(file)));
            && (forall l :: l in again ==> Closed(l) && !IsManaged(l))
            && MissingBreak(again) == ""
  {
    hide IsManaged, Reread;
    ChunksAreClosed(file);
    UnmanagedOrder(Chunks(file));
    assert forall l :: l in Chunks(file) ==> IsChunk(l);
    RereadIsClosed(Unmanaged(Chunks(file)));
  }

  /** A block that survives: every piece it is read back in is recognised as managed. */
  ghost predicate Recognised(block: seq<string>) {
    forall c :: c in Chunks(Concat(block)) ==> IsManaged(c)
  }

  lemma {:induction false} UnmanagedIsNone(lines: seq<string>)
    ensures Unmanaged(lines) == [] <==> forall l :: l in lines ==> IsManaged(l)
  {
    hide IsManaged;
    if lines != [] {
      UnmanagedIsNone(lines[1..]);
      assert forall l :: l in lines <==> l == lines[0] || l in lines[1..];
    }
  }

  /** Blocks of whole lines survive together exactly if they survive one by one. */
  lemma RecognisedJoin(a: seq<string>, b: seq<string>)
    requires forall l :: l in a ==> EndsLine(l)
    ensures Recognised(a + b) <==> Recognised(a) && Recognised(b)
  {
    hide IsManaged, Chunks, Concat, EndsLine;
    ConcatSplits(a, b);
    LinesEndTheText(a);
    ChunksSplit(Concat(a), Concat(b));
  }

  /** What a later read sees in a saved file: the kept lines in order, then the block, in whatever pieces. */
  lemma SavedLines(file: string, block: seq<string>)
    ensures Chunks(SaveText(file, block)) == Reread(Unmanaged(Chunks(file))) + Chunks(Concat(block))
    ensures Unmanaged(Chunks(SaveText(file, block))) == Reread(Unmanaged(Chunks(file))) + Unmanaged(Chunks(Concat(block)))
  {
    hide Reread, MissingBreak, Chunks, Unmanaged, Concat;
    var again := Reread(Unmanaged(Chunks(file)));
    RereadIsKept(file);
    RereadConcat(Unmanaged(Chunks(file)));
    ChunksOfClosed(again, Concat(block));
    UnmanagedSplits(again, Chunks(Concat(block)));
    UnmanagedAll(again);
  }

  lemma NoChunks()
    ensures Chunks("") == []
  {
  }

  /**
   How a text is read: in pieces that make it up, none longer than 8191 characters, none with a line break but
   at its end, and each but the last with one there or of full length.
   */
  lemma {:induction false} ChunksAre(s: string)
    ensures Concat(Chunks(s)) == s
    ensures forall c :: c in Chunks(s) ==> 0 < |c| <= 8191 && '\n' !in c[..|c| - 1]
    ensures forall i :: 0 <= i < |Chunks(s)| - 1 ==> var c := Chunks(s)[i]; c != "" && (c[|c| - 1] == '\n' || |c| == 8191)
    decreases |s|
  {
    if s != "" {
      var n := ChunkLength(s);
      ChunksAre(s[n..]);
      assert s == s[..n] + s[n..];
      assert forall i :: 0 <= i < |Chunks(s[n..])| ==> Chunks(s)[i + 1] == Chunks(s[n..])[i];
    }
  }

  lemma ConcatIsEmpty(lines: seq<string>)
    requires forall l :: l in lines ==> l != ""
    ensures Concat(lines) == "" <==> lines == []
  {
    if lines != [] {
      assert lines[0] in lines;
    }
  }

  /** Saving a saved file again, with the same block, changes nothing if and only if the block survives. */
  lemma SaveIsIdempotentIff(file: string, block: seq<string>)
    ensures SaveText(SaveText(file, block), block) == SaveText(file, block) <==> Recognised(block)
  {
    hide Reread, MissingBreak, Chunks, Unmanaged, Concat, IsManaged;
    var again, left := Reread(Unmanaged(Chunks(file))), Unmanaged(Chunks(Concat(block)));
    SavedLines(file, block);
    RereadIsKept(file);
    RereadConcat(Unmanaged(Chunks(file)));
    ConcatSplits(again, left);
    UnmanagedIsNone(Chunks(Concat(block)));
    ChunksAreClosed(Concat(block));
    ConcatIsEmpty(left);
    assert Concat(again) + "" + Concat(block) == Concat(again) + Concat(block);
    if left == [] {
      assert again + left == again;
    } else {
      var b := MissingBreak(again + left);
      assert |Concat(again + left) + b + Concat(block)| > |Concat(again) + Concat(block)|;
    }
  }

  /**
   The buffer size matters: a managed line that is one character too long, line break included, is
   read back in two pieces, and every save leaves the second piece behind as an empty line.
   */
  lemma OneTooLong(line: string)
    requires |line| == 8192 && EndsLine(line) && IsManaged(line)
    requires forall i :: 0 <= i < 8191 ==> line[i] != '\n'
    ensures SaveText("", [line]) == line
    ensures SaveText(line, [line]) == "\n" + line
  {
    hide IsManaged, ChunkLength, ParseKeyValue, Closed;
    var piece := line[..LINE_MAX];
    assert line == piece + "\n" && "\n" + "" == "\n";
    ParseWithNewline(piece);
    SameManaged(piece, line);
    LineBreakUnmanaged();
    assert Closed(piece) && Closed("\n") by { PiecesAreClosed(piece); }
    FirstChunk(piece, "\n");
    FirstChunk("\n", "");
    NoChunks();
    TwoPieces(piece, "\n");
    assert Concat([line]) == line && Concat(["\n"]) == "\n";
  }

  lemma PiecesAreClosed(piece: string)
    requires |piece| == LINE_MAX && forall i :: 0 <= i < LINE_MAX ==> piece[i] != '\n'
    ensures Closed(piece) && Closed("\n")
  {
  }

  lemma TwoPieces(a: string, b: string)
    requires IsManaged(a) && !IsManaged(b)
    ensures Unmanaged([a] + ([b] + [])) == [b]
  {
    hide IsManaged;
    UnmanagedSplits([a], [b]);
    UnmanagedNone([a]);
    UnmanagedAll([b]);
    assert [b] + [] == [b];
  }

  lemma SameManaged(a: string, b: string)
    requires ParseKeyValue(a) == ParseKeyValue(b)
    ensures IsManaged(a) == IsManaged(b)
  {
  }

  /** The lines kept are those of the file, character for character; at most one line break is added. */
  lemma KeptVerbatim(file: string, block: seq<string>)
    requires Recognised(block)
    ensures var kept, text := Unmanaged(Chunks(file)), SaveText(file, block);
            Concat(Unmanaged(Chunks(text))) == Concat(kept) + MissingBreak(kept)
  {
    hide IsManaged, Chunks;
    SavedLines(file, block);
    UnmanagedIsNone(Chunks(Concat(block)));
    RereadConcat(Unmanaged(Chunks(file)));
    assert Reread(Unmanaged(Chunks(file))) + [] == Reread(Unmanaged(Chunks(file)));
  }
}
