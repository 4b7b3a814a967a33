/** Drives that do not come back from a saved file at all: their lines are read in pieces none of which is recognised. */
module UaeLost {
  import opened Text
  import opened UaeLine
  import opened UaeFile
  import opened UaeState
  import opened UaeStable

  ghost predicate Lost(lines: seq<string>) {
    forall c :: c in Chunks(Concat(lines)) ==> !IsManaged(c)
  }

  lemma {:induction false} ConcatEnds(lines: seq<string>)
    requires forall l :: l in lines ==> EndsLine(l)
    ensures Concat(lines) == "" || EndsLine(Concat(lines))
  {
    hide EndsLine;
    if lines != [] {
      ConcatEnds(lines[1..]);
      EndsJoin(lines[0], Concat(lines[1..]));
    }
  }

  lemma EndsJoin(a: string, b: string)
    requires EndsLine(a) && (b == "" || EndsLine(b))
    ensures EndsLine(a + b)
  {
  }

  /** Loading two groups of lines one after the other, in the pieces they are read in. */
  lemma LoadJoins(t: State, a: seq<string>, b: seq<string>, host: Host)
    requires forall l :: l in a ==> EndsLine(l)
    ensures LoadLines(t, Chunks(Concat(a + b)), host) ==
            LoadLines(LoadLines(t, Chunks(Concat(a)), host), Chunks(Concat(b)), host)
  {
    hide LoadLines, Chunks, EndsLine;
    ConcatEnds(a);
    ConcatSplits(a, b);
    ChunksSplit(Concat(a), Concat(b));
    LoadSplits(t, Chunks(Concat(a)), Chunks(Concat(b)), host);
  }

  lemma LoadsNothing(t: State, lines: seq<string>, host: Host)
    requires Lost(lines)
    ensures LoadLines(t, Chunks(Concat(lines)), host) == t
  {
    hide LoadLines, Chunks;
    LoadUnmanaged(t, Chunks(Concat(lines)), host);
  }

  /** What is loaded of a file just saved is the same without a group of lines that is lost. */
  lemma LoadsWithout(file: string, before: seq<string>, lost: seq<string>, after: seq<string>, host: Host)
    requires (forall l :: l in before ==> EndsLine(l)) && (forall l :: l in lost ==> EndsLine(l)) && Lost(lost)
    ensures LoadText(SaveText(file, before + (lost + after)), host) == LoadText(SaveText(file, before + after), host)
  {
    hide LoadLines, LoadText, SaveText, Chunks, EndsLine, Lost;
    LoadSeesBlock(file, before + (lost + after), host);
    LoadSeesBlock(file, before + after, host);
    LoadJoins(EMPTY, before, lost + after, host);
    LoadJoins(EMPTY, before, after, host);
    var t := LoadLines(EMPTY, Chunks(Concat(before)), host);
    LoadJoins(t, lost, after, host);
    LoadsNothing(t, lost, host);
  }

  /** A drive whose line is lost loads as no drive, whatever else is in the file and the options. */
  lemma DriveIsLost(file: string, s: State, unit: nat, host: Host)
    requires unit < 2 && Writable(s) && Lost(DriveLines(DriveOf(s, unit), unit, host))
    ensures LoadText(SaveText(file, Block(s, host)), host) ==
            LoadText(SaveText(file, Block(WithDrive(s, unit, NO_DRIVE), host)), host)
  {
    hide LoadText, SaveText, DriveLines, EntryLines, FloppyLines, EndsLine, Lost, Writable, Sort;
    var f, a, b := FloppyLines(s), DriveLines(s.drive0, 0, host), DriveLines(s.drive1, 1, host);
    var c := EntryLines(Sort(s.entries));
    LinesEnd(s, host);
    SameFloppies(s, unit);
    NoDriveLines(host);
    FourParts(f, a, b, c);
    if unit == 0 {
      LoadsWithout(file, f, a, b + c, host);
    } else {
      EndJoined(f, a);
      LoadsWithout(file, f + a, b, c, host);
    }
  }

  lemma FourParts(f: seq<string>, a: seq<string>, b: seq<string>, c: seq<string>)
    ensures f + a + b + c == f + (a + (b + c)) == (f + a) + (b + c)
    ensures f + [] + b + c == f + (b + c) && f + a + [] + c == (f + a) + c
  {
  }

  lemma EndJoined(f: seq<string>, a: seq<string>)
    requires (forall l :: l in f ==> EndsLine(l)) && forall l :: l in a ==> EndsLine(l)
    ensures forall l :: l in f + a ==> EndsLine(l)
  {
  }

  lemma LinesEnd(s: State, host: Host)
    requires Writable(s)
    ensures forall l :: l in FloppyLines(s) ==> EndsLine(l)
    ensures forall l :: l in DriveLines(s.drive0, 0, host) ==> EndsLine(l)
    ensures forall l :: l in DriveLines(s.drive1, 1, host) ==> EndsLine(l)
  {
    hide FloppyLines, DriveLines, EndsLine, WritableDrive, IsEntry, IsPath;
    FloppiesEnd(s);
    DriveSurvives(s.drive0, 0, host);
    DriveSurvives(s.drive1, 1, host);
  }

  lemma SameFloppies(s: State, unit: nat)
    requires unit < 2
    ensures FloppyLines(WithDrive(s, unit, NO_DRIVE)) == FloppyLines(s)
  {
  }

  lemma NoDriveLines(host: Host)
    ensures DriveLines(NO_DRIVE, 0, host) == [] && DriveLines(NO_DRIVE, 1, host) == []
  {
  }

  /** A line is lost if what is read of it is not recognised and no further piece can be. */
  lemma LineIsLost(key: string, value: string)
    requires IsPrintedKey(key) && '\n' !in value && '=' !in value && value != "" && !IsBlank(value[0])
    requires |key| + 1 + VALUE_MAX <= LINE_MAX && !IsManagedValue(KeyValue(key, ReadBack(value)))
    ensures Lost([Line(key, value)])
  {
    hide ParseKeyValue, IsManagedValue, ReadBack, Chunks, OneBreak;
    var l := Line(key, value);
    LineHasOneBreak(key, value);
    PiecesOfLine(l);
    assert Concat([l]) == l;
    if |l| <= LINE_MAX {
      ParsePrinted(key, value);
      ReadBackIsParsed(value);
      InFirstOrRest(l, []);
      assert [l] + [] == [l];
    } else {
      FirstPieceParsed(key, value);
      LongEnough(value, LINE_MAX - |key| - 1);
      RestOfLine(key, value);
      PiecesKeepOut(UaeStable.Rest(l), '=');
      forall c | c in Chunks(UaeStable.Rest(l)) ensures !IsManaged(c) {
        NoEqualsNoKey(c);
      }
      InFirstOrRest(l[..LINE_MAX], Chunks(UaeStable.Rest(l)));
    }
  }

  /** An image of unit 1 whose value does not fit is lost. */
  lemma LongImageIsLost(path: string, tail: string)
    requires path != "" && IsPath(path) && IsTail(tail) && '"' !in path && '=' !in path
    requires |HdfValue(1, path, tail)| > 7167
    ensures Lost([Line("hardfile2", HdfValue(1, path, tail))])
  {
    hide IsTail, HdfValue, ReadBack, IsManagedHdf, IsManagedValue, Lost, Line;
    var value := HdfValue(1, path, tail);
    PlainKeys();
    HdfValueIsClean(1, path, tail);
    ImageValueBegins(1, path, tail);
    ImageHasNoEquals(path, tail);
    CutImageUnmanaged(path, tail);
    ImageTaken(1, path, tail);
    ManagedDriveValue(ReadBack(value));
    LineIsLost("hardfile2", value);
  }

  lemma ImageHasNoEquals(path: string, tail: string)
    requires IsTail(tail) && '=' !in path
    ensures '=' !in HdfValue(1, path, tail)
  {
    hide IsTail;
    EscapeKeepsOut(path, '=');
    TailHasNoEquals(tail);
    assert HdfValue(1, path, tail) == "rw,DH1:\"" + Escape(path) + "\"" + tail;
  }

  /** A folder whose value does not fit is lost. */
  lemma LongFolderIsLost(unit: nat, volume: string, folder: string)
    requires unit < 2 && IsVolume(volume) && folder != "" && '\n' !in folder && ',' !in volume && ',' !in folder
    requires '=' !in volume && '=' !in folder && |FolderValue(unit, volume, folder)| > 7167
    ensures Lost([Line("filesystem2", FolderValue(unit, volume, folder))])
  {
    hide FolderValue, ReadBack, IsManagedFolder, IsManagedValue, Lost, Line, IsVolume;
    var value := FolderValue(unit, volume, folder);
    PlainKeys();
    FolderValueIsClean(unit, volume, folder);
    FolderBegins(unit, volume, folder);
    CutFolderUnmanaged(unit, volume, folder);
    FolderTaken(unit, volume, folder);
    ManagedDriveValue(ReadBack(value));
    LineIsLost("filesystem2", value);
  }

  lemma FolderBegins(unit: nat, volume: string, folder: string)
    requires unit < 2 && '=' !in volume && '=' !in folder
    ensures var value := FolderValue(unit, volume, folder); value != "" && !IsBlank(value[0]) && '=' !in value
  {
    EscapeKeepsOut(folder, '=');
    assert FolderValue(unit, volume, folder) == "rw," + (Device(unit) + volume + ":" + QuotedPath(folder)) + ",0";
  }

  /** An image of 3600 backslashes on unit 1 is loaded, saved, and gone at the next load. */
  lemma Image1IsLost(file: string, host: Host)
    ensures var s := EMPTY.(drive1 := Drive("", Repeated('\\', 3600), ""));
            LoadText(SaveText(file, Block(s, host)), host) == EMPTY
  {
    hide HdfTail, IsTail, Block, SaveText, LoadText, HdfValue, Lost;
    var path := Repeated('\\', 3600);
    var s := EMPTY.(drive1 := Drive("", path, ""));
    ImageLength(1, 3600, HdfTail(path, host));
    LongImageIsLost(path, HdfTail(path, host));
    DriveIsLost(file, s, 1, host);
    EmptyRoundTrip(file, host);
  }

  lemma EmptyRoundTrip(file: string, host: Host)
    ensures LoadText(SaveText(file, Block(EMPTY, host)), host) == EMPTY
  {
    hide Block, SaveText, LoadText;
    RoundTrip(file, EMPTY, host);
    assert Normal(EMPTY) == EMPTY by {
      ReadBackNothing();
    }
  }
}
