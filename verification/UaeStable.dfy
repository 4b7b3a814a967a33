/**
 When saving twice gives the same file as saving once. A printed line that does not fit the buffers it
 is read with may not be recognised any more, and is then kept beside its new copy at every save.
 */
module UaeStable {
  import opened Optional
  import opened Sequences
  import opened Text
  import opened UaeLine
  import opened UaeFile
  import opened UaeState

  // ---------- One line ----------

  /** What is left of a printed line after the first read. */
  function Rest(line: string): string
    requires |line| > LINE_MAX
  {
    line[LINE_MAX..]
  }

  /** All the pieces after the first are recognised. */
  ghost predicate RestIsManaged(line: string) {
    |line| > LINE_MAX ==> forall c :: c in Chunks(Rest(line)) ==> IsManaged(c)
  }

  predicate OneBreak(line: string) {
    EndsLine(line) && forall i :: 0 <= i < |line| - 1 ==> line[i] != '\n'
  }

  lemma PiecesOfLine(line: string)
    requires OneBreak(line)
    ensures Chunks(line) == if |line| <= LINE_MAX then [line] else [line[..LINE_MAX]] + Chunks(Rest(line))
  {
    hide ChunkLength, Closed;
    NoChunks();
    if |line| <= LINE_MAX {
      assert Closed(line) by { ShortIsClosed(line); }
      FirstChunk(line, "");
      assert line + "" == line;
    } else {
      assert Closed(line[..LINE_MAX]) by { PrefixIsClosed(line); }
      FirstChunk(line[..LINE_MAX], Rest(line));
      assert line[..LINE_MAX] + Rest(line) == line;
    }
  }

  lemma ShortIsClosed(line: string)
    requires OneBreak(line) && |line| <= LINE_MAX
    ensures Closed(line)
  {
  }

  lemma PrefixIsClosed(line: string)
    requires OneBreak(line) && |line| > LINE_MAX
    ensures Closed(line[..LINE_MAX])
  {
  }

  lemma LineHasOneBreak(key: string, value: string)
    requires '\n' !in key && '\n' !in value
    ensures OneBreak(Line(key, value))
    ensures |Line(key, value)| == |key| + |value| + 2
  {
    var l := Line(key, value);
    assert l == key + ['='] + value + ['\n'];
    forall i | 0 <= i < |l| - 1 ensures l[i] != '\n' {
      assert l[i] == if i < |key| then key[i] else if i == |key| then '=' else value[i - |key| - 1];
    }
  }

  /** The first piece of a printed line has its key, and as much of its value as a whole line would give. */
  lemma FirstPieceParsed(key: string, value: string)
    requires IsPrintedKey(key) && '\n' !in value && |Line(key, value)| > LINE_MAX
    ensures var n := LINE_MAX - |key| - 1;
            ParseKeyValue(Line(key, value)[..LINE_MAX]) == Some(KeyValue(key, ReadBack(Take(value, n))))
  {
    hide ParseKeyValue;
    var n := LINE_MAX - |key| - 1;
    var piece := Line(key, value)[..LINE_MAX];
    assert piece == key + "=" + Take(value, n);
    ParsePrinted(key, Take(value, n));
    ParseWithNewline(piece);
  }

  lemma LongEnough(value: string, n: nat)
    requires n >= VALUE_MAX && (value == "" || !IsBlank(value[0]))
    ensures ReadBack(Take(value, n)) == ReadBack(value)
  {
    TrimLeftClean(value);
    TrimLeftClean(Take(value, n));
    assert Take(Take(value, n), VALUE_MAX) == Take(value, VALUE_MAX);
  }

  lemma InFirstOrRest(first: string, rest: seq<string>)
    ensures forall c :: c in [first] + rest <==> c == first || c in rest
  {
  }

  /** A printed line survives exactly if its first piece and all the others are recognised. */
  lemma LineSurvives(key: string, value: string)
    requires IsPrintedKey(key) && '\n' !in value
    ensures Recognised([Line(key, value)]) <==>
            && IsManagedValue(KeyValue(key, ReadBack(Take(value, LINE_MAX - |key| - 1))))
            && RestIsManaged(Line(key, value))
  {
    hide ParseKeyValue, IsManagedValue, ReadBack, Chunks, OneBreak;
    var l := Line(key, value);
    LineHasOneBreak(key, value);
    PiecesOfLine(l);
    assert Concat([l]) == l;
    if |l| <= LINE_MAX {
      ParsePrinted(key, value);
      ReadBackIsParsed(value);
      assert Take(value, LINE_MAX - |key| - 1) == value;
      assert IsManaged(l) == IsManagedValue(KeyValue(key, ReadBack(value)));
      InFirstOrRest(l, []);
      assert [l] + [] == [l];
    } else {
      FirstPieceParsed(key, value);
      var first, rest := l[..LINE_MAX], Chunks(Rest(l));
      assert IsManaged(first) == IsManagedValue(KeyValue(key, ReadBack(Take(value, LINE_MAX - |key| - 1))));
      InFirstOrRest(first, rest);
    }
  }

  // ---------- Option lines ----------

  /** An option line survives exactly if it fits the line buffer or every further piece looks managed. */
  lemma EntrySurvives(e: Entry)
    requires IsEntry(e)
    ensures Recognised([Line(e.key, e.value)]) <==> RestIsManaged(Line(e.key, e.value))
  {
    hide ReadBack, RestIsManaged;
    PuaeKeyIsPrinted(e);
    LineSurvives(e.key, e.value);
  }

  lemma NoEqualsNoKey(c: string)
    requires '=' !in c
    ensures !IsManaged(c)
  {
    TrimLeftIsSuffix(c);
  }

  lemma {:induction false} PiecesKeepOut(s: string, c: char)
    requires c !in s
    ensures forall p :: p in Chunks(s) ==> c !in p
    decreases |s|
  {
    hide ChunkLength;
    if s != "" {
      PiecesKeepOut(s[ChunkLength(s)..], c);
    }
  }

  /** Without a second '=' nothing after the first piece can be recognised: only the length counts. */
  lemma RestWithoutEquals(line: string)
    requires OneBreak(line) && |line| > LINE_MAX && '=' !in Rest(line)
    ensures !RestIsManaged(line)
  {
    hide IsManaged, ChunkLength;
    var rest := Rest(line);
    assert rest != "";
    PiecesKeepOut(rest, '=');
    NoEqualsNoKey(Chunks(rest)[0]);
  }

  lemma PlainEntrySurvives(e: Entry)
    requires IsEntry(e) && '=' !in e.value
    ensures Recognised([Line(e.key, e.value)]) <==> |Line(e.key, e.value)| <= LINE_MAX
  {
    hide Recognised;
    var l := Line(e.key, e.value);
    EntrySurvives(e);
    LineHasOneBreak(e.key, e.value);
    if |l| > LINE_MAX {
      RestOfLine(e.key, e.value);
      RestWithoutEquals(l);
    }
  }

  /** Among the options a load can produce only those whose key and value both fill their buffers fail. */
  lemma LoadedEntrySurvives(e: Entry)
    requires IsEntry(e) && |e.value| <= VALUE_MAX
    ensures Recognised([Line(e.key, e.value)]) <==> |e.key| < 1023 || |e.value| < 7167
  {
    hide Recognised, IsManaged;
    var l := Line(e.key, e.value);
    EntrySurvives(e);
    LineHasOneBreak(e.key, e.value);
    if |l| > LINE_MAX {
      assert Rest(l) == "\n";
      NoChunks();
      LineBreakUnmanaged();
      PiecesOfLine("\n");
      assert "\n" in Chunks(Rest(l));
    }
  }

  // ---------- Image lines ----------

  /** The exact condition: the tail of unit 1 must be read whole, and a second piece must look managed. */
  ghost predicate ImageStable(unit: nat, path: string, tail: string)
    requires unit < 2
  {
    var value := HdfValue(unit, path, tail);
    && (unit == 1 && |value| > VALUE_MAX ==> IsManagedHdf(ReadBack(value), 1))
    && RestIsManaged(Line("hardfile2", value))
  }

  /** The part of an image value that is read keeps its device and the opening quote. */
  lemma ImageValueStarts(unit: nat, path: string, tail: string)
    requires unit < 2 && path != "" && IsTail(tail)
    ensures var value := HdfValue(unit, path, tail);
            |ReadBack(value)| >= 8 && ReadBack(value) == "rw" + [','] + (Device(unit) + (['"'] + ReadBack(value)[8..]))
  {
    hide IsTail, TrimRight, TrimLeft, Escape, ReadBack;
    var value := HdfValue(unit, path, tail);
    assert value[0] == 'r' && value[..8] == "rw" + [','] + (Device(unit) + ['"']);
    TrimLeftClean(value);
    ReadBackIsParsed(value);
    KeepsStart(value, 7);
    var r := ReadBack(value);
    assert r == r[..8] + r[8..] && r[..8] == value[..8];
  }

  /** Trimming on the right stops at a character that is not white space. */
  lemma KeepsStart(value: string, i: nat)
    requires i < |value| && i < VALUE_MAX && !IsTrailing(value[i])
    ensures i < |TrimRight(Take(value, VALUE_MAX))|
    ensures TrimRight(Take(value, VALUE_MAX))[..i + 1] == value[..i + 1]
  {
    var u := Take(value, VALUE_MAX);
    TrimRightStops(u, i);
    TrimRightIsPrefix(u);
  }

  lemma {:induction false} TrimRightStops(s: string, i: nat)
    requires i < |s| && !IsTrailing(s[i])
    ensures i < |TrimRight(s)|
  {
    if IsTrailing(s[|s| - 1]) {
      TrimRightStops(s[..|s| - 1], i);
    }
  }

  /** Whatever follows the opening quote, unit 0 takes the line as its own and unit 1 decides by the tail. */
  lemma QuotedImage(unit: nat, s: string)
    requires unit < 2
    ensures var v := "rw" + [','] + (Device(unit) + (['"'] + s));
            && ParseHdf(v, unit).Some? && ParseHdf(v, 1 - unit) == None
            && (unit == 0 ==> !IsManagedHdf(v, 1))
  {
    hide IndexOf, Quoted, Device, StartsWith;
    FirstComma(Device(unit) + (['"'] + s));
    DeviceOnly(unit, unit, ['"'] + s);
    DeviceOnly(unit, 1 - unit, ['"'] + s);
    DriveOne(unit, ['"'] + s);
  }

  /** Which unit takes what is read of a printed image value. */
  lemma ImageTaken(unit: nat, path: string, tail: string)
    requires unit < 2 && path != "" && IsPath(path) && IsTail(tail)
    ensures var value := HdfValue(unit, path, tail);
            IsManagedHdf(ReadBack(value), 0) || IsManagedHdf(ReadBack(value), 1) <==>
            (unit == 1 && |value| > VALUE_MAX ==> IsManagedHdf(ReadBack(value), 1))
  {
    hide ReadBack, HdfValue, ParseHdf, IsTail, Device, IsManagedHdf;
    var value := HdfValue(unit, path, tail);
    ImageValueStarts(unit, path, tail);
    QuotedImage(unit, ReadBack(value)[8..]);
    ImageManaged(ReadBack(value));
    HdfRead(unit, path, tail);
    HdfValueIsClean(unit, path, tail);
    ShortReadBack(value);
  }

  lemma ImageSurvives(unit: nat, path: string, tail: string)
    requires unit < 2 && path != "" && IsPath(path) && IsTail(tail)
    ensures Recognised([Line("hardfile2", HdfValue(unit, path, tail))]) <==> ImageStable(unit, path, tail)
  {
    hide Recognised, RestIsManaged, ReadBack, HdfValue, IsTail, IsManagedHdf, IsManagedValue, Line;
    var value := HdfValue(unit, path, tail);
    PlainKeys();
    HdfValueIsClean(unit, path, tail);
    ImageValueBegins(unit, path, tail);
    LineSurvives("hardfile2", value);
    LongEnough(value, LINE_MAX - 10);
    ManagedDriveValue(ReadBack(value));
    ImageTaken(unit, path, tail);
  }

  /** A drive line is managed exactly if one of the units takes it. */
  lemma ManagedDriveValue(value: string)
    ensures IsManagedValue(KeyValue("hardfile2", value)) <==> IsManagedHdf(value, 0) || IsManagedHdf(value, 1)
    ensures IsManagedValue(KeyValue("filesystem2", value)) <==> IsManagedFolder(value, 0) || IsManagedFolder(value, 1)
  {
    hide IsManagedHdf, IsManagedFolder;
    assert "hardfile2"[0] != 'p' && "hardfile2"[0] != 'f' && "filesystem2"[0] != 'p' && "filesystem2"[1] != 'l';
  }

  lemma ImageValueBegins(unit: nat, path: string, tail: string)
    requires unit < 2
    ensures HdfValue(unit, path, tail) != "" && !IsBlank(HdfValue(unit, path, tail)[0])
  {
    assert HdfValue(unit, path, tail)[0] == 'r';
  }

  lemma ImageManaged(value: string)
    ensures IsManagedHdf(value, 0) == ParseHdf(value, 0).Some?
  {
  }

  lemma ShortReadBack(value: string)
    requires Clean(value)
    ensures |value| <= VALUE_MAX ==> ReadBack(value) == value
  {
    if |value| <= VALUE_MAX {
      ValueRead(value);
    }
  }

  // ---------- Folder lines ----------

  /** The exact condition: what the buffer takes of the value must still look managed, and so must a second piece. */
  ghost predicate FolderStable(unit: nat, volume: string, folder: string)
    requires unit < 2
  {
    var value := FolderValue(unit, volume, folder);
    && (|value| > VALUE_MAX ==> IsManagedFolder(ReadBack(value), unit))
    && RestIsManaged(Line("filesystem2", value))
  }

  lemma FolderValueStarts(unit: nat, volume: string, folder: string)
    requires unit < 2 && IsVolume(volume)
    ensures var value := FolderValue(unit, volume, folder);
            && value != "" && !IsBlank(value[0])
            && |ReadBack(value)| >= 7 && ReadBack(value) == "rw" + [','] + (Device(unit) + ReadBack(value)[7..])
  {
    hide TrimRight, TrimLeft, Escape, ReadBack;
    var value := FolderValue(unit, volume, folder);
    assert value[0] == 'r' && value[..7] == "rw" + [','] + Device(unit) && value[6] == ':';
    TrimLeftClean(value);
    ReadBackIsParsed(value);
    KeepsStart(value, 6);
    var r := ReadBack(value);
    assert r == r[..7] + r[7..] && r[..7] == value[..7];
  }

  /** A folder line of one unit is never taken for the other's. */
  lemma OtherUnit(unit: nat, s: string)
    requires unit < 2
    ensures ParseFolder("rw" + [','] + (Device(unit) + s), 1 - unit) == None
  {
    hide IndexOf, Device, ParseVolume, StartsWith;
    var rest := Device(unit) + s;
    FirstComma(rest);
    var last := LastIndexOf(rest, ',');
    DeviceHasNoComma(unit, s);
    var m := Take(rest[..last], MIDDLE_MAX);
    assert m == Device(unit) + m[4..];
    assert m[0] == 'D' by { DeviceStarts(unit); }
    TrimLeftClean(m);
    DeviceOnly(unit, 1 - unit, m[4..]);
  }

  lemma DeviceHasNoComma(unit: nat, s: string)
    requires unit < 2
    ensures LastIndexOf(Device(unit) + s, ',') >= 4
  {
    var rest := Device(unit) + s;
    assert forall i :: 0 <= i < 4 ==> rest[i] == Device(unit)[i] && rest[i] != ',';
  }

  lemma FolderTaken(unit: nat, volume: string, folder: string)
    requires unit < 2 && IsVolume(volume) && folder != "" && '\n' !in folder
    ensures var value := FolderValue(unit, volume, folder);
            IsManagedFolder(ReadBack(value), 0) || IsManagedFolder(ReadBack(value), 1) <==>
            (|value| > VALUE_MAX ==> IsManagedFolder(ReadBack(value), unit))
  {
    hide ReadBack, FolderValue, ParseFolder, Device, IsManagedFolder;
    var value := FolderValue(unit, volume, folder);
    FolderValueStarts(unit, volume, folder);
    OtherUnit(unit, ReadBack(value)[7..]);
    Unparsed(ReadBack(value), 1 - unit);
    FolderRead(unit, volume, folder);
    FolderValueIsClean(unit, volume, folder);
    ShortReadBack(value);
  }

  lemma FolderSurvives(unit: nat, volume: string, folder: string)
    requires unit < 2 && IsVolume(volume) && folder != "" && '\n' !in folder
    ensures Recognised([Line("filesystem2", FolderValue(unit, volume, folder))]) <==> FolderStable(unit, volume, folder)
  {
    hide Recognised, RestIsManaged, ReadBack, FolderValue, IsManagedFolder, IsManagedValue, Line;
    var value := FolderValue(unit, volume, folder);
    PlainKeys();
    FolderValueIsClean(unit, volume, folder);
    FolderValueStarts(unit, volume, folder);
    LineSurvives("filesystem2", value);
    LongEnough(value, LINE_MAX - 12);
    ManagedDriveValue(ReadBack(value));
    FolderTaken(unit, volume, folder);
  }

  lemma Unparsed(value: string, unit: nat)
    requires unit < 2 && ParseFolder(value, unit) == None
    ensures !IsManagedFolder(value, unit)
  {
  }

  // ---------- The whole block ----------

  ghost predicate DriveStable(d: Drive, unit: nat, host: Host)
    requires unit < 2
  {
    if d.hdf != "" then ImageStable(unit, d.hdf, HdfTail(d.hdf, host))
    else d.folder != "" ==> FolderStable(unit, VolumeOf(d, unit), PrintedFolder(d))
  }

  ghost predicate Stable(s: State, host: Host) {
    && DriveStable(s.drive0, 0, host) && DriveStable(s.drive1, 1, host)
    && forall e :: e in s.entries ==> RestIsManaged(Line(e.key, e.value))
  }

  lemma NoneRecognised()
    ensures Recognised([])
  {
  }

  lemma DriveSurvives(d: Drive, unit: nat, host: Host)
    requires unit < 2 && WritableDrive(d)
    ensures Recognised(DriveLines(d, unit, host)) <==> DriveStable(d, unit, host)
    ensures forall l :: l in DriveLines(d, unit, host) ==> EndsLine(l)
  {
    hide Recognised, ImageStable, FolderStable, HdfValue, FolderValue, HdfTail, IsTail, IsVolume, VolumeOf, WithSeparator;
    NoneRecognised();
    if d.hdf != "" {
      ImageSurvives(unit, d.hdf, HdfTail(d.hdf, host));
    } else if d.folder != "" {
      VolumeIsVolume(d, unit);
      SeparatorKeeps(d.folder);
      FolderSurvives(unit, VolumeOf(d, unit), PrintedFolder(d));
    }
  }

  lemma {:induction false} EntriesSurvive(entries: seq<Entry>)
    requires forall e :: e in entries ==> IsEntry(e)
    ensures Recognised(EntryLines(entries)) <==> forall e :: e in entries ==> RestIsManaged(Line(e.key, e.value))
  {
    hide Recognised, RestIsManaged, IsEntry, ReadEntries;
    if entries == [] {
      NoneRecognised();
      assert EntryLines(entries) == [];
    } else {
      var e, rest := entries[0], entries[1..];
      assert [e] + rest == entries && e in entries;
      EntriesSurvive(rest);
      EntryLinesStep(e, rest);
      EntrySurvives(e);
      RecognisedJoin([Line(e.key, e.value)], EntryLines(rest));
      assert forall x :: x in entries <==> x == e || x in rest;
    }
  }

  lemma FloppiesEnd(s: State)
    ensures forall l :: l in FloppyLines(s) ==> EndsLine(l)
  {
  }

  /** The generated block survives exactly if its drives and options do; the floppy lines always do. */
  lemma BlockSurvives(s: State, host: Host)
    requires Writable(s)
    ensures Recognised(Block(s, host)) <==> Stable(s, host)
  {
    hide Recognised, FloppyLines, DriveLines, EntryLines, WritableDrive, DriveStable, RestIsManaged, IsEntry, IsPath, Whole, EndsLine;
    var f, a, b, c := FloppyLines(s), DriveLines(s.drive0, 0, host), DriveLines(s.drive1, 1, host), EntryLines(Sort(s.entries));
    FloppyLinesRead(s, host);
    WholeIsRecognised(f);
    FloppiesEnd(s);
    DriveSurvives(s.drive0, 0, host);
    DriveSurvives(s.drive1, 1, host);
    SortKeepsEntries(s.entries);
    EntriesSurvive(Sort(s.entries));
    RecognisedJoin(f, a);
    RecognisedJoin(f + a, b);
    RecognisedJoin(f + a + b, c);
  }

  /** Saving twice with the same options gives the same file as saving once, if and only if they are stable. */
  lemma SaveTwice(file: string, s: State, host: Host)
    requires Writable(s)
    ensures SaveText(SaveText(file, Block(s, host)), Block(s, host)) == SaveText(file, Block(s, host)) <==> Stable(s, host)
  {
    hide Stable, Recognised, Block, SaveText, Writable;
    SaveIsIdempotentIff(file, Block(s, host));
    BlockSurvives(s, host);
  }

  // ---------- The condition as lengths ----------

  /** An image of unit 0 without '=' is stable exactly if its line fits the line buffer. */
  lemma PlainImage0(path: string, tail: string)
    requires path != "" && IsPath(path) && IsTail(tail) && '=' !in path
    ensures ImageStable(0, path, tail) <==> |HdfValue(0, path, tail)| <= 8180
  {
    hide RestIsManaged, IsTail, HdfValue, OneBreak, Line;
    var value := HdfValue(0, path, tail);
    HdfValueIsClean(0, path, tail);
    LineHasOneBreak("hardfile2", value);
    if |value| > LINE_MAX - 11 {
      NoEqualsInImage(path, tail);
      RestOfLine("hardfile2", value);
      RestWithoutEquals(Line("hardfile2", value));
    } else {
      ShortRest(Line("hardfile2", value));
    }
  }

  lemma NoEqualsInImage(path: string, tail: string)
    requires IsTail(tail) && '=' !in path
    ensures '=' !in HdfValue(0, path, tail)
  {
    hide IsTail;
    EscapeKeepsOut(path, '=');
    TailHasNoEquals(tail);
    assert HdfValue(0, path, tail) == "rw,DH0:\"" + Escape(path) + "\"" + tail;
  }

  lemma RestOfLine(key: string, value: string)
    requires |Line(key, value)| > LINE_MAX && |key| < LINE_MAX && '=' !in value
    ensures '=' !in Rest(Line(key, value))
  {
    assert Rest(Line(key, value)) == (value + "\n")[LINE_MAX - |key| - 1..];
  }

  lemma ShortRest(line: string)
    requires |line| <= LINE_MAX
    ensures RestIsManaged(line)
  {
  }

  lemma TailHasNoEquals(tail: string)
    requires IsTail(tail)
    ensures '=' !in tail
  {
  }

  /** An image of unit 1 without quotes is stable exactly if its value fits the value buffer. */
  lemma PlainImage1(path: string, tail: string)
    requires path != "" && IsPath(path) && IsTail(tail) && '"' !in path
    ensures ImageStable(1, path, tail) <==> |HdfValue(1, path, tail)| <= 7167
  {
    hide RestIsManaged, IsTail, IsManagedHdf, ReadBack;
    var value := HdfValue(1, path, tail);
    HdfValueIsClean(1, path, tail);
    LineHasOneBreak("hardfile2", value);
    if |value| <= VALUE_MAX {
      ShortRest(Line("hardfile2", value));
    } else {
      CutImageUnmanaged(path, tail);
    }
  }

  /** What the value buffer leaves of a long image line of unit 1 is taken by neither unit. */
  lemma CutImageUnmanaged(path: string, tail: string)
    requires path != "" && IsPath(path) && IsTail(tail) && '"' !in path && |HdfValue(1, path, tail)| > VALUE_MAX
    ensures !IsManagedHdf(ReadBack(HdfValue(1, path, tail)), 1)
  {
    hide IsTail, IsManagedHdf, ReadBack;
    if |HdfValue(1, path, "")| <= VALUE_MAX {
      ImageValueCut(1, path, tail);
      HdfLength(1, path, tail);
      CutTailUnmanaged(path, tail, VALUE_MAX - |HdfValue(1, path, "")|);
    } else {
      CutPathUnmanaged(path, tail);
    }
  }

  /** A tail that lost its end is not a generated one. */
  lemma CutTailUnmanaged(path: string, tail: string, n: nat)
    requires path != "" && |path| <= PATH_LIMIT && IsTail(tail) && n < |tail|
    ensures !IsManagedHdf(HdfValue(1, path, Take(tail, n)), 1)
  {
    hide IsTail, ParseHdf, TailAfterPath, IsGeneratedTail, Device, QuotedPath;
    var t := Take(tail, n);
    CutTail(tail, n);
    QuotedRead(path, t);
    DriveOne(1, QuotedPath(path) + t);
    TailNeedsItsEnd(tail, n);
  }

  lemma TailNeedsItsEnd(tail: string, n: nat)
    requires IsTail(tail) && n < |tail|
    ensures !IsGeneratedTail(tail[..n])
  {
    var t := tail[..n];
    if IsGeneratedTail(t) {
      GeneratedTailEnds(t);
      assert t[n - 1] == '0' && t[n - 2] == 'e' && t[n - 3] == 'a' && t[n - 4] == 'u';
      OneEnd(tail, n);
    }
  }

  lemma GeneratedTailEnds(t: string)
    requires IsGeneratedTail(t)
    ensures |t| >= 4 && t[|t| - 4..] == "uae0"
  {
    if t != TAIL_RDB {
      SkipDigitsIsSuffix(t[4..]);
      var e := SkipDigits(t[4..]);
      assert e[|e| - 4..] == "uae0";
      assert t[4..][|t[4..]| - |e|..] == e;
      assert t[|t| - 4..] == e[|e| - 4..];
    }
  }

  lemma {:induction false} SkipDigitsIsSuffix(s: string)
    ensures |SkipDigits(s)| <= |s| && SkipDigits(s) == s[|s| - |SkipDigits(s)|..]
  {
    if s != "" && IsDigit(s[0]) {
      SkipDigitsIsSuffix(s[1..]);
    }
  }

  /** The letter u stands in a printed tail only at its end. */
  lemma OneEnd(tail: string, n: nat)
    requires IsTail(tail) && 4 <= n < |tail|
    ensures tail[n - 4] != 'u'
  {
  }

  /** A quote-free path that lost its closing quote has no tail at all. */
  lemma CutPathUnmanaged(path: string, tail: string)
    requires path != "" && IsTail(tail) && '"' !in path && |HdfValue(1, path, "")| > VALUE_MAX
    ensures !IsManagedHdf(ReadBack(HdfValue(1, path, tail)), 1)
  {
    hide IsTail, TrimRight, TrimLeft, Escape, ReadBack, ParseHdf, IsGeneratedTail, Device;
    var value := HdfValue(1, path, tail);
    var r := ReadBack(value);
    EscapeKeepsOut(path, '"');
    ImageValueStarts(1, path, tail);
    DriveOne(1, ['"'] + r[8..]);
    assert value[0] == 'r';
    TrimLeftClean(value);
    ReadBackIsParsed(value);
    TrimRightIsPrefix(Take(value, VALUE_MAX));
    assert forall i :: 0 <= i < |r| ==> r[i] == value[i];
    assert forall i :: 8 <= i < 8 + |Escape(path)| ==> value[i] == Escape(path)[i - 8];
    assert '"' !in r[8..];
    assert (['"'] + r[8..])[1..] == r[8..];
  }

  /** A folder whose path and volume have no comma is stable exactly if its value fits the value buffer. */
  lemma PlainFolder(unit: nat, volume: string, folder: string)
    requires unit < 2 && IsVolume(volume) && folder != "" && '\n' !in folder && ',' !in volume && ',' !in folder
    requires |folder| <= PATH_LIMIT + 1
    ensures FolderStable(unit, volume, folder) <==> |FolderValue(unit, volume, folder)| <= 7167
  {
    hide RestIsManaged, IsManagedFolder, ReadBack;
    var value := FolderValue(unit, volume, folder);
    FolderValueIsClean(unit, volume, folder);
    LineHasOneBreak("filesystem2", value);
    if |value| <= VALUE_MAX {
      ShortRest(Line("filesystem2", value));
    } else {
      CutFolderUnmanaged(unit, volume, folder);
    }
  }

  lemma CutFolderUnmanaged(unit: nat, volume: string, folder: string)
    requires unit < 2 && IsVolume(volume) && ',' !in volume && ',' !in folder
    requires |FolderValue(unit, volume, folder)| > VALUE_MAX
    ensures !IsManagedFolder(ReadBack(FolderValue(unit, volume, folder)), unit)
  {
    hide TrimRight, TrimLeft, Escape, ReadBack, ParseFolder;
    var value := FolderValue(unit, volume, folder);
    var r := ReadBack(value);
    EscapeKeepsOut(folder, ',');
    FolderValueStarts(unit, volume, folder);
    TrimLeftClean(value);
    ReadBackIsParsed(value);
    TrimRightIsPrefix(Take(value, VALUE_MAX));
    var q := QuotedPath(folder);
    assert value == "rw," + (Device(unit) + volume + ":" + q) + ",0";
    var n := |value| - 2;
    assert forall i :: 3 <= i < n ==> value[i] == (Device(unit) + volume + ":" + q)[i - 3];
    assert forall i :: 3 <= i < n ==> value[i] != ',';
    assert |r| < |value| && forall i :: 0 <= i < |r| ==> r[i] == value[i];
    var last := LastIndexOf(r, ',');
    assert r[2] == ',';
    if last == 2 {
      assert r[last..][1] == r[3] == 'D';
    } else {
      assert last == n && |r[last..]| == 1;
    }
  }

  // ---------- Inputs that fail ----------

  lemma {:induction false} EscapeDoubles(n: nat)
    ensures Escape(Repeated('\\', n)) == Repeated('\\', 2 * n)
  {
    if n > 0 {
      assert Repeated('\\', n)[1..] == Repeated('\\', n - 1);
      EscapeDoubles(n - 1);
      assert ['\\', '\\'] + Repeated('\\', 2 * n - 2) == Repeated('\\', 2 * n);
    }
  }

  lemma ImageLength(unit: nat, n: nat, tail: string)
    requires unit < 2
    ensures |HdfValue(unit, Repeated('\\', n), tail)| == 2 * n + 9 + |tail|
  {
    EscapeDoubles(n);
  }

  lemma Accumulates(s: State, host: Host)
    requires Writable(s) && !Stable(s, host)
    ensures SaveText(SaveText("", Block(s, host)), Block(s, host)) != SaveText("", Block(s, host))
  {
    SaveTwice("", s, host);
  }

  /** An image of unit 1 with 3600 backslashes: its value is cut, and a copy of the line is kept at every save. */
  lemma Image1Accumulates(host: Host)
    ensures var s := EMPTY.(drive1 := Drive("", Repeated('\\', 3600), ""));
            && Writable(s)
            && SaveText(SaveText("", Block(s, host)), Block(s, host)) != SaveText("", Block(s, host))
  {
    hide HdfTail, IsTail, ImageStable, Block, SaveText, HdfValue;
    var path := Repeated('\\', 3600);
    var s := EMPTY.(drive1 := Drive("", path, ""));
    PlainImage1(path, HdfTail(path, host));
    ImageLength(1, 3600, HdfTail(path, host));
    Accumulates(s, host);
  }

  /** An image of unit 0 with 4095 backslashes: its line is read in two pieces. */
  lemma Image0Accumulates(host: Host)
    ensures var s := EMPTY.(drive0 := Drive("", Repeated('\\', 4095), ""));
            && Writable(s)
            && SaveText(SaveText("", Block(s, host)), Block(s, host)) != SaveText("", Block(s, host))
  {
    hide HdfTail, IsTail, ImageStable, Block, SaveText, HdfValue;
    var path := Repeated('\\', PATH_LIMIT);
    var s := EMPTY.(drive0 := Drive("", path, ""));
    PlainImage0(path, HdfTail(path, host));
    ImageLength(0, PATH_LIMIT, HdfTail(path, host));
    Accumulates(s, host);
  }

  /** A folder of 3600 backslashes, which a setter accepts as it is. */
  lemma FolderAccumulates(host: Host)
    ensures var s := EMPTY.(drive0 := Drive(Repeated('\\', 3600), "", ""));
            && Writable(s)
            && SaveText(SaveText("", Block(s, host)), Block(s, host)) != SaveText("", Block(s, host))
  {
    hide FolderStable, Block, SaveText, FolderValue, WithSeparator, IsVolume;
    var folder := Repeated('\\', 3600);
    var s := EMPTY.(drive0 := Drive(folder, "", ""));
    WorkIsVolume();
    EndsWithSeparator(folder);
    LongFolderValue();
    PlainFolder(0, "Work", folder);
    Accumulates(s, host);
  }

  lemma WorkIsVolume()
    ensures IsVolume("Work") && ',' !in "Work" && DefaultVolume(0) == "Work"
  {
  }

  lemma EndsWithSeparator(folder: string)
    requires folder != "" && folder[|folder| - 1] == '\\'
    ensures WithSeparator(folder) == folder
  {
  }

  lemma LongFolderValue()
    ensures |FolderValue(0, "Work", Repeated('\\', 3600))| > VALUE_MAX
  {
    EscapeDoubles(3600);
  }

  /** The image can come from a file: unquoted, the same path loads from a line that is not too long. */
  lemma LongImageIsLoaded(host: Host)
    requires !host.isDirectory(Repeated('\\', 3600))
    ensures var path := Repeated('\\', 3600);
            LoadLine(EMPTY, Line("hardfile2", "rw,DH1:" + path + SurfacesTail("1")), host) ==
            EMPTY.(drive1 := Drive("", path, ""))
  {
    hide ParseKeyValue, SurfacesTail, ParseHdf, IsManagedHdf, ReadBack, Clean;
    var path := Repeated('\\', 3600);
    var tail := SurfacesTail("1");
    var value := "rw,DH1:" + path + tail;
    assert value == "rw" + [','] + (Device(1) + (path + tail));
    TailsAreGenerated(tail);
    UnquotedIsClean(path, tail);
    PlainKeys();
    ParsePrinted("hardfile2", value);
    UnquotedImage(path, tail);
  }

  lemma UnquotedIsClean(path: string, tail: string)
    requires '\n' !in path && '\n' !in tail && tail != "" && tail[|tail| - 1] == '0'
    ensures Clean("rw,DH1:" + path + tail)
  {
    var value := "rw,DH1:" + path + tail;
    assert value[0] == 'r' && value[|value| - 1] == '0';
  }

  lemma UnquotedImage(path: string, tail: string)
    requires path != "" && !IsQuote(path[0]) && ',' !in path && |path| <= PATH_LIMIT && IsTail(tail)
    ensures var v := "rw" + [','] + (Device(1) + (path + tail));
            IsManagedHdf(v, 1) && !IsManagedHdf(v, 0) && ParseHdf(v, 1) == Some(path)
  {
    hide Device, StartsWith, IsGeneratedTail, IsTail, IndexOf;
    var s := path + tail;
    TailsAreGenerated(tail);
    FirstComma(Device(1) + s);
    DeviceOnly(1, 1, s);
    DeviceOnly(1, 0, s);
    DriveOne(1, s);
    assert s[|path|] == ',' && s[0] == path[0] && forall j :: 0 <= j < |path| ==> s[j] == path[j];
    IndexOfAt(s, ',', |path|);
    assert s[..|path|] == path && s[|path|..] == tail;
  }
}
