/** The option store itself: setters, load and save, updating their fields in place. */
module UaeOptions {
  import opened Optional
  import opened Sequences
  import opened Text
  import opened UaeLine
  import opened UaeFile
  import opened UaeState

  datatype DirtyBit = Floppy0 | Floppy1 | Hd0 | Puae | Hd1

  /** The table without the entry of a key. */
  function WithoutKey(entries: seq<Entry>, key: string): seq<Entry> {
    var i := KeyIndex(entries, key);
    if i < |entries| then entries[..i] + entries[i + 1..] else entries
  }

  ghost predicate GoodTable(entries: seq<Entry>) {
    DistinctKeys(entries) && forall e :: e in entries ==> IsPuaeKey(e.key)
  }

  ghost predicate GoodDrive(d: Drive) {
    |d.folder| <= PATH_LIMIT && |d.hdf| <= PATH_LIMIT && |d.volume| <= VOLUME_LIMIT && (d.hdf == "" || d.folder == "")
  }

  /** What every operation keeps: one entry a key, only managed keys, and no drive with two images. */
  ghost predicate GoodState(s: State) {
    && |s.floppy0| <= PATH_LIMIT && |s.floppy1| <= PATH_LIMIT
    && GoodDrive(s.drive0) && GoodDrive(s.drive1) && GoodTable(s.entries)
  }

  lemma SetEntryKeepsTable(entries: seq<Entry>, key: string, value: string)
    requires GoodTable(entries) && IsPuaeKey(key)
    ensures GoodTable(SetEntry(entries, key, value))
  {
    var i := KeyIndex(entries, key);
    var r := SetEntry(entries, key, value);
    forall e | e in r ensures IsPuaeKey(e.key) {
    }
  }

  lemma WithoutKeyKeepsTable(entries: seq<Entry>, key: string)
    requires GoodTable(entries)
    ensures GoodTable(WithoutKey(entries, key))
    ensures forall e :: e in WithoutKey(entries, key) <==> e in entries && e.key != key
    ensures var r := WithoutKey(entries, key);
            r == entries || exists i :: 0 <= i < |entries| && entries[i].key == key && r == entries[..i] + entries[i + 1..]
  {
  }

  lemma ParsedSizes(value: string, unit: nat)
    requires unit < 2
    ensures ParseFolder(value, unit).Some? ==>
              |ParseFolder(value, unit).value.path| <= PATH_LIMIT && |ParseFolder(value, unit).value.volume| <= VOLUME_LIMIT
    ensures ParseHdf(value, unit).Some? ==> |ParseHdf(value, unit).value| <= PATH_LIMIT
  {
  }

  lemma LoadLineKeepsGood(s: State, line: string, host: Host)
    requires GoodState(s)
    ensures GoodState(LoadLine(s, line, host))
  {
    hide ParseKeyValue, IsManagedFolder, IsManagedHdf, ParseFolder, ParseHdf, SetEntry, GoodTable;
    match ParseKeyValue(line)
    case None =>
    case Some(KeyValue(key, value)) =>
      ParsedSizes(value, 0);
      ParsedSizes(value, 1);
      ManagedParses(value);
      if IsPuaeKey(key) {
        SetEntryKeepsTable(s.entries, key, value);
      }
  }

  lemma ManagedParses(value: string)
    ensures forall unit: nat :: unit < 2 && IsManagedFolder(value, unit) ==> ParseFolder(value, unit).Some?
    ensures forall unit: nat :: unit < 2 && IsManagedHdf(value, unit) ==> ParseHdf(value, unit).Some?
  {
  }

  class UaeOptions {
    var entries: seq<Entry>
    var floppy0: string
    var floppy1: string
    var drive0: Drive
    var drive1: Drive
    var dirty: set<DirtyBit>

    ghost function Options(): State
      reads this
    {
      State(floppy0, floppy1, drive0, drive1, entries)
    }

    ghost predicate Valid()
      reads this
    {
      GoodState(Options())
    }

    constructor ()
      ensures Valid() && Options() == EMPTY && dirty == {}
    {
      entries, floppy0, floppy1, drive0, drive1, dirty := [], "", "", NO_DRIVE, NO_DRIVE, {};
    }

    method Clear()
      modifies this
      ensures Valid() && Options() == EMPTY && dirty == {}
    {
      entries, floppy0, floppy1, drive0, drive1, dirty := [], "", "", NO_DRIVE, NO_DRIVE, {};
    }

    method FindEntry(key: string) returns (i: nat)
      ensures i == KeyIndex(entries, key)
    {
      i := 0;
      assert entries[0..] == entries;
      while i < |entries| && entries[i].key != key
        invariant i <= |entries|
        invariant KeyIndex(entries, key) == i + KeyIndex(entries[i..], key)
      {
        assert entries[i..][1..] == entries[i + 1..];
        i := i + 1;
      }
    }

    method GetPuae(key: string) returns (value: Option<string>)
      requires Valid()
      ensures value.Some? <==> exists e :: e in entries && e.key == key
      ensures value.Some? ==> Entry(key, value.value) in entries
    {
      var i := FindEntry(key);
      if i < |entries| {
        assert entries[i] in entries;
        return Some(entries[i].value);
      }
      return None;
    }

    method PutEntry(key: string, value: string)
      modifies this`entries
      ensures entries == SetEntry(old(entries), key, value)
    {
      var i := FindEntry(key);
      if i < |entries| {
        entries := entries[i := Entry(key, value)];
      } else {
        entries := entries + [Entry(key, value)];
      }
    }

    /** Sets or, given no value, removes an option; keys of another kind are ignored. */
    method SetPuae(key: string, value: Option<string>)
      requires Valid()
      modifies this`entries, this`dirty
      ensures Valid()
      ensures !IsPuaeKey(key) ==> entries == old(entries) && dirty == old(dirty)
      ensures IsPuaeKey(key) ==> dirty == old(dirty) + {Puae}
      ensures IsPuaeKey(key) ==>
                entries == (match value
                            case Some(v) => SetEntry(old(entries), key, v)
                            case None => WithoutKey(old(entries), key))
      ensures IsPuaeKey(key) ==>
                forall e :: e in entries <==> (value.Some? && e == Entry(key, value.value)) || (e in old(entries) && e.key != key)
      ensures IsPuaeKey(key) && value.Some? ==>
                |entries| >= |old(entries)| &&
                forall i :: 0 <= i < |old(entries)| && old(entries)[i].key != key ==> entries[i] == old(entries)[i]
    {
      if !IsPuaeKey(key) {
        return;
      }
      match value {
        case Some(v) =>
          SetEntryKeepsTable(entries, key, v);
          SetEntryIs(entries, key, v);
          PutEntry(key, v);
        case None =>
          WithoutKeyKeepsTable(entries, key);
          var i := FindEntry(key);
          if i < |entries| {
            entries := entries[..i] + entries[i + 1..];
          }
      }
      dirty := dirty + {Puae};
    }

    method SetFloppy(drive: int, path: string)
      requires Valid()
      modifies this`floppy0, this`floppy1, this`dirty
      ensures Valid()
      ensures floppy0 == (if drive == 0 then Take(path, 4095) else old(floppy0))
      ensures floppy1 == (if drive == 1 then Take(path, 4095) else old(floppy1))
      ensures dirty == old(dirty) + (if drive == 0 then {Floppy0} else if drive == 1 then {Floppy1} else {})
    {
      if drive == 0 {
        floppy0, dirty := Take(path, PATH_LIMIT), dirty + {Floppy0};
      } else if drive == 1 {
        floppy1, dirty := Take(path, PATH_LIMIT), dirty + {Floppy1};
      }
    }

    method PutDrive(unit: nat, d: Drive)
      requires Valid() && GoodDrive(d) && unit < 2
      modifies this`drive0, this`drive1, this`dirty
      ensures Valid() && Options() == WithDrive(old(Options()), unit, d)
      ensures dirty == old(dirty) + {if unit == 0 then Hd0 else Hd1}
    {
      if unit == 0 {
        drive0, dirty := d, dirty + {Hd0};
      } else {
        drive1, dirty := d, dirty + {Hd1};
      }
    }

    /** A folder replaces the drive's image and gives an unnamed drive its default volume. */
    method SetFolderPath(unit: int, path: string)
      requires Valid()
      modifies this`drive0, this`drive1, this`dirty
      ensures Valid()
      ensures !(0 <= unit < 2) ==> Options() == old(Options())
      ensures 0 <= unit < 2 ==>
                var d := DriveOf(old(Options()), unit);
                Options() == WithDrive(old(Options()), unit,
                                       if path == "" then d.(folder := "")
                                       else Drive(Take(path, 4095), "",
                                                  if d.volume != "" then d.volume else if unit == 0 then "Work" else "Work1"))
      ensures dirty == old(dirty) + (if unit == 0 then {Hd0} else if unit == 1 then {Hd1} else {})
    {
      if unit < 0 || unit >= 2 {
        return;
      }
      var d := if unit == 0 then drive0 else drive1;
      d := d.(folder := Take(path, PATH_LIMIT));
      if path != "" {
        d := d.(hdf := "");
        if d.volume == "" {
          d := d.(volume := DefaultVolume(unit));
        }
      }
      PutDrive(unit, d);
    }

    /** An image replaces the drive's folder; the volume stays. */
    method SetHdfPath(unit: int, path: string)
      requires Valid()
      modifies this`drive0, this`drive1, this`dirty
      ensures Valid()
      ensures !(0 <= unit < 2) ==> Options() == old(Options())
      ensures 0 <= unit < 2 ==>
                var d := DriveOf(old(Options()), unit);
                Options() == WithDrive(old(Options()), unit,
                                       if path == "" then d.(hdf := "") else Drive("", Take(path, 4095), d.volume))
      ensures dirty == old(dirty) + (if unit == 0 then {Hd0} else if unit == 1 then {Hd1} else {})
    {
      if unit < 0 || unit >= 2 {
        return;
      }
      var d := if unit == 0 then drive0 else drive1;
      d := d.(hdf := Take(path, PATH_LIMIT));
      if path != "" {
        d := d.(folder := "");
      }
      PutDrive(unit, d);
    }

    /** Reads the managed lines of a file; a missing file leaves everything cleared. */
    method Load(file: Option<string>, host: Host)
      modifies this
      ensures Valid() && dirty == {}
      ensures Options() == (if file.Some? then LoadText(file.value, host) else EMPTY)
    {
      hide LoadLine, ChunkLength, GoodState;
      Clear();
      if file.None? {
        return;
      }
      var rest := file.value;
      while rest != ""
        invariant Valid() && dirty == {}
        invariant LoadLines(Options(), Chunks(rest), host) == LoadText(file.value, host)
        decreases |rest|
      {
        var n := ChunkLength(rest);
        ghost var lines := Chunks(rest);
        assert lines[0] == rest[..n] && lines[1..] == Chunks(rest[n..]);
        LoadLineKeepsGood(Options(), rest[..n], host);
        var s := LoadLine(State(floppy0, floppy1, drive0, drive1, entries), rest[..n], host);
        floppy0, floppy1, drive0, drive1, entries := s.floppy0, s.floppy1, s.drive0, s.drive1, s.entries;
        rest := rest[n..];
      }
    }

    /** Copies the lines that are not managed and closes the last one. */
    static method CopyUnmanaged(file: string) returns (out: string)
      ensures var kept := Unmanaged(Chunks(file)); out == Concat(kept) + MissingBreak(kept)
    {
      hide IsManaged, ChunkLength, Chunks, Unmanaged, Concat;
      out := "";
      assert Concat([]) == "" by { ConcatNone(); }
      var rest, lastHadBreak := file, true;
      ghost var kept: seq<string> := [];
      while rest != ""
        invariant out == Concat(kept) && kept + Unmanaged(Chunks(rest)) == Unmanaged(Chunks(file))
        invariant lastHadBreak <==> MissingBreak(kept) == ""
        decreases |rest|
      {
        var n := ChunkLength(rest);
        var line := rest[..n];
        UnmanagedStep(rest);
        if !IsManaged(line) {
          ConcatMore(kept, line);
          assert kept + ([line] + Unmanaged(Chunks(rest[n..]))) == (kept + [line]) + Unmanaged(Chunks(rest[n..]));
          out := out + line;
          kept := kept + [line];
          lastHadBreak := EndsLine(line);
        }
        rest := rest[n..];
      }
      UnmanagedStep("");
      assert kept + [] == kept;
      if !lastHadBreak {
        out := out + "\n";
      }
    }

    /** Sorts the entries and appends the generated block, line by line. */
    method WriteBlock(text: string, host: Host) returns (out: string)
      modifies this`entries
      ensures out == text + Concat(Block(old(Options()), host))
      ensures Options() == old(Options()).(entries := Sort(old(entries)))
    {
      hide Line, DriveLines, FloppyLines, Sort, Concat, EntryLines;
      ghost var s := Options();
      ghost var d0, d1 := DriveLines(drive0, 0, host), DriveLines(drive1, 1, host);
      out := WriteFloppies(text);
      out := WriteDrive(out, drive0, 0, host);
      out := WriteDrive(out, drive1, 1, host);
      entries := Sort(entries);
      out := WriteEntries(out);
      ConcatSplits(FloppyLines(s), d0);
      ConcatSplits(FloppyLines(s) + d0, d1);
      ConcatSplits(FloppyLines(s) + d0 + d1, EntryLines(entries));
    }

    /** The line of one drive: its image if it has one, else its folder. */
    static method WriteDrive(text: string, d: Drive, unit: nat, host: Host) returns (out: string)
      requires unit < 2
      ensures out == text + Concat(DriveLines(d, unit, host))
    {
      hide HdfValue, FolderValue, HdfTail, WithSeparator, Line, VolumeOf;
      if d.hdf != "" {
        out := WriteImage(text, d.hdf, unit, host);
        ConcatOne(Line("hardfile2", HdfValue(unit, d.hdf, HdfTail(d.hdf, host))));
      } else if d.folder != "" {
        out := WriteFolder(text, d, unit);
        ConcatOne(Line("filesystem2", FolderValue(unit, VolumeOf(d, unit), WithSeparator(d.folder))));
      } else {
        out := text;
        ConcatNone();
        assert text + "" == text;
      }
    }

    static method WriteImage(text: string, path: string, unit: nat, host: Host) returns (out: string)
      requires unit < 2
      ensures out == text + Line("hardfile2", HdfValue(unit, path, HdfTail(path, host)))
    {
      hide Escape, HdfTail, HdfValue, Line;
      out := WriteQuoted(text + "hardfile2=rw," + Device(unit), path);
      if host.isRdb(path) {
        ImageText(text, path, unit, TAIL_RDB);
        assert HdfTail(path, host) == TAIL_RDB by { RdbTail(path, host); }
        out := out + TAIL_RDB + "\n";
      } else {
        var surfaces := GuessSurfaces(path, host);
        ImageText(text, path, unit, SurfacesTail(surfaces));
        assert out + (",32," + (surfaces + TAIL_END)) == out + ",32," + surfaces + TAIL_END;
        out := out + ",32," + surfaces + TAIL_END + "\n";
      }
    }

    /** A folder is printed with a separator at its end, of the kind it already has. */
    static method WriteFolder(text: string, d: Drive, unit: nat) returns (out: string)
      requires unit < 2 && d.folder != ""
      ensures out == text + Line("filesystem2", FolderValue(unit, VolumeOf(d, unit), WithSeparator(d.folder)))
    {
      hide Escape, FolderValue, Line;
      var sep := if '\\' in d.folder then "\\" else "/";
      var folder, last := d.folder, d.folder[|d.folder| - 1];
      if last != '/' && last != '\\' {
        folder := folder + sep;
      }
      var volume := d.volume;
      if volume == "" {
        volume := if unit == 0 then "Work" else "Work1";
      }
      FolderText(text, volume, folder, unit);
      out := WriteQuoted(text + "filesystem2=rw," + Device(unit) + volume + ":", folder);
      out := out + ",0\n";
    }

    static method GuessSurfaces(path: string, host: Host) returns (surfaces: string)
      ensures !host.isRdb(path) ==> HdfTail(path, host) == SurfacesTail(surfaces)
    {
      match host.size(path)
      case Some(n) =>
        surfaces := if n / 1024 >= 1024 * 1024 then "16" else "1";
      case None =>
        surfaces := "1";
    }

    method WriteEntries(text: string) returns (out: string)
      ensures out == text + Concat(EntryLines(entries))
    {
      hide Line, Concat;
      out := text;
      assert Concat(EntryLines(entries[..0])) == "" by { ConcatNone(); }
      for i := 0 to |entries|
        invariant out == text + Concat(EntryLines(entries[..i]))
      {
        var line := Line(entries[i].key, entries[i].value);
        assert EntryLines(entries[..i + 1]) == EntryLines(entries[..i]) + [line];
        ConcatMore(EntryLines(entries[..i]), line);
        out := out + line;
      }
      assert entries[..|entries|] == entries;
    }

    method WriteFloppies(text: string) returns (out: string)
      ensures out == text + Concat(FloppyLines(Options()))
    {
      hide Line;
      var n := "1";
      if floppy1 != "" {
        n := "2";
      }
      out := text + Line("nr_floppies", n);
      ghost var first := [Line("nr_floppies", n)];
      assert Concat(first) == Line("nr_floppies", n);
      ghost var second := if floppy0 != "" then [Line("floppy0", floppy0)] else [];
      if floppy0 != "" {
        out := out + Line("floppy0", floppy0);
      }
      ghost var third := if floppy1 != "" then [Line("floppy1", floppy1), Line("floppy1type", "0")] else [];
      if floppy1 != "" {
        out := out + Line("floppy1", floppy1);
        out := out + Line("floppy1type", "0");
      }
      ConcatSplits(first, second);
      ConcatSplits(first + second, third);
      ConcatTwo(Line("floppy1", floppy1), Line("floppy1type", "0"));
    }

    /** The text of the saved file. The store's entries end up sorted and nothing is dirty any more. */
    method Save(file: string, host: Host) returns (text: string)
      requires Valid()
      modifies this`entries, this`dirty
      ensures text == SaveText(file, Block(old(Options()), host))
      ensures Valid() && dirty == {} && Options() == old(Options()).(entries := Sort(old(entries)))
    {
      hide Block;
      SortKeepsEntries(entries);
      text := CopyUnmanaged(file);
      text := WriteBlock(text, host);
      dirty := {};
    }
  }

  lemma ConcatNone()
    ensures Concat([]) == ""
  {
  }

  lemma ConcatMore(lines: seq<string>, line: string)
    ensures Concat(lines + [line]) == Concat(lines) + line
  {
    ConcatSplits(lines, [line]);
    assert Concat([line]) == line;
  }

  lemma UnmanagedStep(s: string)
    ensures s == "" ==> Unmanaged(Chunks(s)) == []
    ensures s != "" ==>
              var n := ChunkLength(s);
              Unmanaged(Chunks(s)) == (if IsManaged(s[..n]) then [] else [s[..n]]) + Unmanaged(Chunks(s[n..]))
  {
    hide IsManaged, ChunkLength;
    if s != "" {
      var n := ChunkLength(s);
      assert Chunks(s)[1..] == Chunks(s[n..]);
    }
  }

  lemma ImageText(text: string, path: string, unit: nat, tail: string)
    requires unit < 2
    ensures text + "hardfile2=rw," + Device(unit) + "\"" + Escape(path) + "\"" + tail + "\n" ==
            text + Line("hardfile2", HdfValue(unit, path, tail))
  {
    hide Escape, Device;
    var line := "hardfile2=rw," + Device(unit) + "\"" + Escape(path) + "\"" + tail + "\n";
    assert Line("hardfile2", HdfValue(unit, path, tail)) == line;
  }

  lemma FolderText(text: string, volume: string, folder: string, unit: nat)
    requires unit < 2
    ensures text + "filesystem2=rw," + Device(unit) + volume + ":" + "\"" + Escape(folder) + "\"" + ",0\n" ==
            text + Line("filesystem2", FolderValue(unit, volume, folder))
  {
    hide Escape, Device;
    var line := "filesystem2=rw," + Device(unit) + volume + ":" + "\"" + Escape(folder) + "\"" + ",0\n";
    assert Line("filesystem2", FolderValue(unit, volume, folder)) == line;
  }

  lemma RdbTail(path: string, host: Host)
    requires host.isRdb(path)
    ensures HdfTail(path, host) == TAIL_RDB
  {
  }

  lemma ConcatOne(line: string)
    ensures Concat([line]) == line
  {
  }

  lemma ConcatTwo(a: string, b: string)
    ensures Concat([a, b]) == a + b
  {
    assert [a, b][1..] == [b];
    assert Concat([b]) == b;
  }
}
