/** The options the debugger manages: the block of lines they are saved as, and how lines are loaded. */
module UaeState {
  import opened Optional
  import opened Sequences
  import opened Text
  import opened UaeLine
  import opened UaeFile
  import Sorting

  datatype Entry = Entry(key: string, value: string)

  /** A hard drive: a disk image if `hdf` is set, else a folder if `folder` is set, else none. */
  datatype Drive = Drive(folder: string, hdf: string, volume: string)

  const NO_DRIVE := Drive("", "", "")

  datatype State = State(floppy0: string, floppy1: string, drive0: Drive, drive1: Drive, entries: seq<Entry>)

  const EMPTY := State("", "", NO_DRIVE, NO_DRIVE, [])

  /** What the file system answers about a path. */
  datatype Host = Host(isDirectory: string -> bool, isRdb: string -> bool, size: string -> Option<nat>)

  // ---------- Sorting entries by key ----------

  /** strcmp(a, b) <= 0 */
  predicate KeyLe(a: string, b: string) {
    a == "" || (b != "" && (a[0] < b[0] || (a[0] == b[0] && KeyLe(a[1..], b[1..]))))
  }

  /** The order is that of the first characters that differ; a key comes before every longer one that begins with it. */
  lemma {:induction false} KeyLeIs(a: string, b: string, c: char, d: char, s: string, t: string)
    ensures KeyLe(a, a + b)
    ensures c < d ==> KeyLe(a + ([c] + s), a + ([d] + t)) && !KeyLe(a + ([d] + t), a + ([c] + s))
    ensures !KeyLe(a + [c], a)
  {
    if a == "" {
      assert a + b == b && a + ([c] + s) == [c] + s && a + ([d] + t) == [d] + t && a + [c] == [c];
    } else {
      KeyLeIs(a[1..], b, c, d, s, t);
      assert (a + b)[1..] == a[1..] + b && (a + [c])[1..] == a[1..] + [c];
      assert (a + ([c] + s))[1..] == a[1..] + ([c] + s) && (a + ([d] + t))[1..] == a[1..] + ([d] + t);
    }
  }

  predicate EntryLe(a: Entry, b: Entry) {
    KeyLe(a.key, b.key)
  }

  function KeyOf(e: Entry): string {
    e.key
  }

  /** The table in key order, as qsort leaves it. */
  function Sort(entries: seq<Entry>): (r: seq<Entry>)
    ensures |r| == |entries|
  {
    Sorting.Sort(EntryLe, entries)
  }

  lemma {:induction false} KeyLeTransitive(a: string, b: string, c: string)
    requires KeyLe(a, b) && KeyLe(b, c)
    ensures KeyLe(a, c)
  {
    if a != "" && a[0] == b[0] == c[0] {
      KeyLeTransitive(a[1..], b[1..], c[1..]);
    }
  }

  lemma {:induction false} KeyLeTotal(a: string, b: string)
    ensures KeyLe(a, b) || KeyLe(b, a)
  {
    if a != "" && b != "" && a[0] == b[0] {
      KeyLeTotal(a[1..], b[1..]);
    }
  }

  lemma EntryOrder()
    ensures Sorting.TotalPreorder(EntryLe)
  {
    forall a: Entry, b: Entry ensures EntryLe(a, b) || EntryLe(b, a) {
      KeyLeTotal(a.key, b.key);
    }
    forall a: Entry, b: Entry, c: Entry | EntryLe(a, b) && EntryLe(b, c) ensures EntryLe(a, c) {
      KeyLeTransitive(a.key, b.key, c.key);
    }
  }

  lemma SortIsSorted(entries: seq<Entry>)
    ensures Sorting.Sorted(EntryLe, Sort(entries))
    ensures Sort(Sort(entries)) == Sort(entries)
  {
    EntryOrder();
    Sorting.SortSorts(EntryLe, entries);
    Sorting.SortOfSorted(EntryLe, Sort(entries));
  }

  // ---------- The generated block ----------

  function Line(key: string, value: string): string {
    key + "=" + value + "\n"
  }

  function WithSeparator(folder: string): string
    requires folder != ""
  {
    var last := folder[|folder| - 1];
    if last == '/' || last == '\\' then folder
    else folder + (if '\\' in folder then "\\" else "/")
  }

  function DefaultVolume(unit: nat): string {
    if unit == 0 then "Work" else "Work1"
  }

  function VolumeOf(d: Drive, unit: nat): string {
    if d.volume == "" then DefaultVolume(unit) else d.volume
  }

  /** The geometry text of a disk image: none for a partitioned one, 16 surfaces from one gigabyte on. */
  function HdfTail(path: string, host: Host): (t: string)
    ensures IsTail(t)
  {
    if host.isRdb(path) then TAIL_RDB
    else
      match host.size(path)
      case Some(n) => if n / 1024 >= 1024 * 1024 then SurfacesTail("16") else SurfacesTail("1")
      case None => SurfacesTail("1")
  }

  function DriveLines(d: Drive, unit: nat, host: Host): seq<string>
    requires unit < 2
  {
    if d.hdf != "" then [Line("hardfile2", HdfValue(unit, d.hdf, HdfTail(d.hdf, host)))]
    else if d.folder != "" then [Line("filesystem2", FolderValue(unit, VolumeOf(d, unit), WithSeparator(d.folder)))]
    else []
  }

  function EntryLines(entries: seq<Entry>): (r: seq<string>)
    ensures |r| == |entries| && forall i :: 0 <= i < |r| ==> r[i] == Line(entries[i].key, entries[i].value)
  {
    seq(|entries|, i requires 0 <= i < |entries| => Line(entries[i].key, entries[i].value))
  }

  function FloppyLines(s: State): seq<string> {
    [Line("nr_floppies", if s.floppy1 != "" then "2" else "1")]
    + (if s.floppy0 != "" then [Line("floppy0", s.floppy0)] else [])
    + (if s.floppy1 != "" then [Line("floppy1", s.floppy1), Line("floppy1type", "0")] else [])
  }

  function Block(s: State, host: Host): seq<string> {
    FloppyLines(s) + DriveLines(s.drive0, 0, host) + DriveLines(s.drive1, 1, host) + EntryLines(Sort(s.entries))
  }

  // ---------- Loading ----------

  function KeyIndex(entries: seq<Entry>, key: string): (i: nat)
    ensures i <= |entries| && (i < |entries| ==> entries[i].key == key)
    ensures forall j :: 0 <= j < i ==> entries[j].key != key
  {
    if entries == [] || entries[0].key == key then 0 else 1 + KeyIndex(entries[1..], key)
  }

  function SetEntry(entries: seq<Entry>, key: string, value: string): seq<Entry> {
    var i := KeyIndex(entries, key);
    if i < |entries| then entries[i := Entry(key, value)] else entries + [Entry(key, value)]
  }

  /** The key's value is replaced where it stands, or added at the end; every other entry keeps its place. */
  lemma SetEntryIs(entries: seq<Entry>, key: string, value: string)
    requires DistinctKeys(entries)
    ensures var r := SetEntry(entries, key, value);
            && (forall e :: e in r <==> e == Entry(key, value) || (e in entries && e.key != key))
            && DistinctKeys(r)
            && |entries| <= |r| <= |entries| + 1
            && (forall i :: 0 <= i < |entries| ==> r[i] == if entries[i].key == key then Entry(key, value) else entries[i])
  {
    var i, r := KeyIndex(entries, key), SetEntry(entries, key, value);
    if i < |entries| {
      forall j | 0 <= j < |entries| && j != i ensures entries[j].key != key {
        assert KeyOf(entries[j]) != KeyOf(entries[i]);
      }
      forall e | e in entries && e.key != key ensures e in r {
        var j :| 0 <= j < |entries| && entries[j] == e;
        assert r[j] == e;
      }
      assert r[i] == Entry(key, value);
    } else {
      assert r == entries + [Entry(key, value)];
    }
    forall j, k | 0 <= j < k < |r| ensures KeyOf(r[j]) != KeyOf(r[k]) {
      if k < |entries| {
        assert KeyOf(entries[j]) != KeyOf(entries[k]);
      }
    }
  }

  function DriveOf(s: State, unit: nat): Drive {
    if unit == 0 then s.drive0 else s.drive1
  }

  function WithDrive(s: State, unit: nat, d: Drive): State {
    if unit == 0 then s.(drive0 := d) else s.(drive1 := d)
  }

  /** The first unit that recognises a folder line takes it. */
  function LoadFolder(s: State, value: string): State {
    if IsManagedFolder(value, 0) then SetFolder(s, 0, ParseFolder(value, 0).value)
    else if IsManagedFolder(value, 1) then SetFolder(s, 1, ParseFolder(value, 1).value)
    else s
  }

  function SetFolder(s: State, unit: nat, f: Folder): State {
    WithDrive(s, unit, Drive(f.path, "", f.volume))
  }

  function LoadHdf(s: State, value: string, host: Host): State {
    if IsManagedHdf(value, 0) then SetHdf(s, 0, ParseHdf(value, 0).value, host)
    else if IsManagedHdf(value, 1) then SetHdf(s, 1, ParseHdf(value, 1).value, host)
    else s
  }

  function SetHdf(s: State, unit: nat, path: string, host: Host): State {
    var d := DriveOf(s, unit);
    WithDrive(s, unit, if path != "" && host.isDirectory(path) then d.(folder := path, hdf := "") else d.(hdf := path, folder := ""))
  }

  function LoadLine(s: State, line: string, host: Host): State {
    match ParseKeyValue(line)
    case None => s
    case Some(KeyValue(key, value)) =>
      if key == "floppy0" then s.(floppy0 := Take(value, PATH_LIMIT))
      else if key == "floppy1" then s.(floppy1 := Take(value, PATH_LIMIT))
      else if key == "filesystem2" then LoadFolder(s, value)
      else if key == "hardfile2" then LoadHdf(s, value, host)
      else if IsPuaeKey(key) then s.(entries := SetEntry(s.entries, key, value))
      else s
  }

  function LoadLines(s: State, lines: seq<string>, host: Host): State
    decreases |lines|
  {
    if lines == [] then s else LoadLines(LoadLine(s, lines[0], host), lines[1..], host)
  }

  function LoadText(file: string, host: Host): State {
    LoadLines(EMPTY, Chunks(file), host)
  }

  /** Lines the writer would keep never influence a load. */
  lemma UnmanagedIgnored(s: State, line: string, host: Host)
    requires !IsManaged(line)
    ensures LoadLine(s, line, host) == s
  {
  }

  lemma {:induction false} LoadSplits(s: State, a: seq<string>, b: seq<string>, host: Host)
    ensures LoadLines(s, a + b, host) == LoadLines(LoadLines(s, a, host), b, host)
    decreases |a|
  {
    if a == [] {
      assert a + b == b;
    } else {
      assert (a + b)[1..] == a[1..] + b;
      LoadSplits(LoadLine(s, a[0], host), a[1..], b, host);
    }
  }

  lemma {:induction false} LoadUnmanaged(s: State, lines: seq<string>, host: Host)
    requires forall l :: l in lines ==> !IsManaged(l)
    ensures LoadLines(s, lines, host) == s
    decreases |lines|
  {
    if lines != [] {
      UnmanagedIgnored(s, lines[0], host);
      LoadUnmanaged(s, lines[1..], host);
    }
  }

  /** A load of a saved file sees the generated block, in the pieces it is read in, and nothing else. */
  lemma LoadSeesBlock(file: string, block: seq<string>, host: Host)
    ensures LoadText(SaveText(file, block), host) == LoadLines(EMPTY, Chunks(Concat(block)), host)
  {
    hide LoadLine, IsManaged, SaveText, Reread, Unmanaged, Chunks;
    SavedLines(file, block);
    RereadIsKept(file);
    var again := Reread(Unmanaged(Chunks(file)));
    LoadSplits(EMPTY, again, Chunks(Concat(block)), host);
    LoadUnmanaged(EMPTY, again, host);
  }

  // ---------- Which options are written, and which come back ----------

  predicate IsPath(p: string) {
    '\n' !in p && |p| <= PATH_LIMIT
  }

  predicate IsEntry(e: Entry) {
    IsPuaeKey(e.key) && Clean(e.key) && '=' !in e.key && |e.key| <= KEY_MAX && '\n' !in e.value
  }

  predicate WritableDrive(d: Drive) {
    IsPath(d.folder) && IsPath(d.hdf) && (d.volume == "" || IsVolume(d.volume))
  }

  ghost predicate DistinctKeys(entries: seq<Entry>) {
    Sorting.Apart(KeyOf, entries)
  }

  /** Newline-free options in their own buffers. */
  ghost predicate Writable(s: State) {
    && IsPath(s.floppy0) && IsPath(s.floppy1) && WritableDrive(s.drive0) && WritableDrive(s.drive1)
    && DistinctKeys(s.entries) && forall e :: e in s.entries ==> IsEntry(e)
  }

  function PrintedFolder(d: Drive): string {
    if d.folder == "" then "" else WithSeparator(d.folder)
  }

  /** The reader's value buffer takes the drive's line, or all of it that the reader needs. */
  predicate DriveFits(d: Drive, unit: nat, host: Host)
    requires unit < 2
  {
    if d.hdf != "" then |HdfValue(unit, d.hdf, if unit == 0 then "" else HdfTail(d.hdf, host))| <= VALUE_MAX
    else d.folder != "" ==> |FolderValue(unit, VolumeOf(d, unit), PrintedFolder(d))| <= VALUE_MAX
  }

  /** How long a path may be for that: of a first unit's image the geometry may be cut off. */
  lemma DriveFitsIs(d: Drive, unit: nat, host: Host)
    requires unit < 2
    ensures d.hdf != "" ==>
              (DriveFits(d, unit, host) <==> 9 + |Escape(d.hdf)| + (if unit == 0 then 0 else |HdfTail(d.hdf, host)|) <= 7167)
    ensures d.hdf == "" && d.folder != "" ==>
              (DriveFits(d, unit, host) <==> 12 + |VolumeOf(d, unit)| + |Escape(WithSeparator(d.folder))| <= 7167)
    ensures d.hdf == "" && d.folder == "" ==> DriveFits(d, unit, host)
  {
    hide Escape, HdfTail, WithSeparator, VolumeOf;
  }

  /** Every printed line fits the buffers it is read with. */
  ghost predicate Fits(s: State, host: Host) {
    && Writable(s) && DriveFits(s.drive0, 0, host) && DriveFits(s.drive1, 1, host)
    && forall e :: e in s.entries ==> |Line(e.key, e.value)| <= LINE_MAX
  }

  /**
   The drive survives a save and a load: its image is not a directory, and its folder line fits the buffer
   of the middle part or loses nothing but the closing quote there.
   */
  predicate ComesBack(d: Drive, unit: nat, host: Host)
    requires unit < 2
  {
    if d.hdf != "" then !host.isDirectory(d.hdf)
    else
      var folder, volume := PrintedFolder(d), VolumeOf(d, unit);
      d.folder != "" && |FolderMiddle(unit, volume, folder)| > MIDDLE_MAX ==>
        |volume| + 6 <= MIDDLE_MAX && Take(Escape(folder), MIDDLE_MAX - 6 - |volume|) == folder && '"' !in folder[1..]
  }

  /** Nothing in the options would be trimmed. */
  ghost predicate IsTrimmed(s: State) {
    && Clean(s.floppy0) && Clean(s.floppy1) && |s.floppy0| <= VALUE_MAX && |s.floppy1| <= VALUE_MAX
    && forall e :: e in s.entries ==> Clean(e.value) && |e.value| <= VALUE_MAX
  }

  lemma LineIsClosed(key: string, value: string)
    requires '\n' !in key && '\n' !in value && |Line(key, value)| <= LINE_MAX
    ensures Closed(Line(key, value))
  {
    var l := Line(key, value);
    assert l == key + ['='] + value + ['\n'];
    forall i | 0 <= i < |l| - 1
      ensures l[i] != '\n'
    {
      if i < |key| {
        assert l[i] == key[i];
      } else if i > |key| {
        assert l[i] == value[i - |key| - 1];
      }
    }
  }

  /** The keys the writer prints. */
  predicate IsPrintedKey(key: string) {
    && key != "" && Clean(key) && '=' !in key && key[0] != ';' && key[0] != '#' && |key| <= KEY_MAX
  }

  lemma PlainKeys()
    ensures IsPrintedKey("nr_floppies") && IsPrintedKey("floppy0") && IsPrintedKey("floppy1")
    ensures IsPrintedKey("floppy1type") && IsFloppyTypeKey("floppy1type")
    ensures IsPrintedKey("filesystem2") && IsPrintedKey("hardfile2")
    ensures !IsPuaeKey("nr_floppies") && !IsPuaeKey("floppy1type")
  {
    assert "nr_floppies"[0] != 'p' && "floppy1type"[0] != 'p';
    assert "floppy1type"[7..] == "type" && "floppy1type"[..6] == "floppy";
  }

  lemma PuaeKeyIsPrinted(e: Entry)
    requires IsEntry(e)
    ensures IsPrintedKey(e.key)
    ensures e.key != "floppy0" && e.key != "floppy1" && e.key != "filesystem2" && e.key != "hardfile2"
  {
    assert e.key[0] == "puae_"[0];
  }

  lemma FolderValueIsClean(unit: nat, volume: string, folder: string)
    requires unit < 2 && IsVolume(volume) && '\n' !in folder
    ensures Clean(FolderValue(unit, volume, folder))
  {
    EscapeKeepsOut(folder, '\n');
    var v := FolderValue(unit, volume, folder);
    assert v[0] == 'r' && v[|v| - 1] == '0';
  }

  lemma HdfValueIsClean(unit: nat, path: string, tail: string)
    requires unit < 2 && '\n' !in path && IsTail(tail)
    ensures Clean(HdfValue(unit, path, tail))
  {
    hide IsTail;
    EscapeKeepsOut(path, '\n');
    TailsAreGenerated(tail);
    var v := HdfValue(unit, path, tail);
    assert v[0] == 'r' && v[|v| - 1] == tail[|tail| - 1];
  }

  lemma VolumeIsVolume(d: Drive, unit: nat)
    requires d.volume == "" || IsVolume(d.volume)
    ensures IsVolume(VolumeOf(d, unit))
  {
  }

  /** What is left of a value after a save and a load. */
  function ReadBack(value: string): (r: string)
    ensures |r| <= |value| && |r| <= VALUE_MAX
  {
    TrimRight(Take(TrimLeft(value), VALUE_MAX))
  }

  function ReadEntries(entries: seq<Entry>): (r: seq<Entry>)
    ensures |r| == |entries| && forall i :: 0 <= i < |r| ==> r[i] == Entry(entries[i].key, ReadBack(entries[i].value))
  {
    seq(|entries|, i requires 0 <= i < |entries| => Entry(entries[i].key, ReadBack(entries[i].value)))
  }

  /** Every line of a block is read back in one piece and recognised. */
  ghost predicate Whole(lines: seq<string>) {
    forall l :: l in lines ==> Closed(l) && IsManaged(l)
  }

  lemma WholeJoin(a: seq<string>, b: seq<string>)
    requires Whole(a) && Whole(b)
    ensures Whole(a + b)
  {
  }

  lemma WholeIsRecognised(block: seq<string>)
    requires Whole(block)
    ensures Chunks(Concat(block)) == block && Recognised(block)
  {
    hide Closed, IsManaged;
    ChunksOfClosed(block, "");
    NoChunks();
    assert Concat(block) + "" == Concat(block) && block + [] == block;
  }

  /** What a load makes of the line a drive is printed as. */
  function ReadDrive(d: Drive, unit: nat, host: Host): Drive
    requires unit < 2
  {
    if d.hdf != "" then (if host.isDirectory(d.hdf) then Drive(d.hdf, "", "") else Drive("", d.hdf, ""))
    else if d.folder == "" then NO_DRIVE
    else
      match ParseFolder(FolderValue(unit, VolumeOf(d, unit), PrintedFolder(d)), unit)
      case Some(f) => Drive(f.path, "", f.volume)
      case None => NO_DRIVE
  }

  lemma CutTail(tail: string, n: nat)
    requires IsTail(tail)
    ensures '"' !in Take(tail, n) && '\n' !in Take(tail, n) && |Take(tail, n)| <= 20
    ensures Take(tail, n) == "" || !IsTrailing(Take(tail, n)[|Take(tail, n)| - 1])
  {
    TailsAreGenerated(tail);
    TailChars(tail);
  }

  lemma TailChars(tail: string)
    requires IsTail(tail)
    ensures forall i :: 0 <= i < |tail| ==> !IsTrailing(tail[i])
  {
  }

  /** The part of an image value that the reader's buffer takes: the tail may be cut short. */
  lemma ImageValueCut(unit: nat, path: string, tail: string)
    requires unit < 2 && path != "" && IsTail(tail) && |HdfValue(unit, path, "")| <= VALUE_MAX
    ensures var t := Take(tail, VALUE_MAX - |HdfValue(unit, path, "")|);
            ReadBack(HdfValue(unit, path, tail)) == HdfValue(unit, path, t)
  {
    hide IsTail, Device, TrimRight, TrimLeft, Escape;
    var n := VALUE_MAX - |HdfValue(unit, path, "")|;
    var t, value := Take(tail, n), HdfValue(unit, path, tail);
    CutTail(tail, n);
    assert value == HdfValue(unit, path, "") + tail;
    assert HdfValue(unit, path, t) == HdfValue(unit, path, "") + t;
    assert value[0] == 'r';
    TrimLeftClean(value);
    assert Take(value, VALUE_MAX) == HdfValue(unit, path, t);
    var v := HdfValue(unit, path, t);
    assert v[|v| - 1] == if t == "" then '"' else t[|t| - 1];
    TrimRightClean(v);
  }

  /** An image line whose path fits the value buffer is recognised by its unit and read back. */
  lemma ImageLineRead(s: State, unit: nat, d: Drive, host: Host)
    requires unit < 2 && WritableDrive(d) && d.hdf != "" && DriveFits(d, unit, host)
    ensures Whole(DriveLines(d, unit, host))
    ensures DriveOf(s, unit) == NO_DRIVE ==>
              LoadLines(s, DriveLines(d, unit, host), host) == WithDrive(s, unit, ReadDrive(d, unit, host))
  {
    hide IsManagedFolder, ParseHdf, ParseFolder, HdfValue, HdfTail, IsTail, Closed, ParseKeyValue, ReadBack;
    PlainKeys();
    var tail := HdfTail(d.hdf, host);
    var value := HdfValue(unit, d.hdf, tail);
    HdfLength(unit, d.hdf, tail);
    TailsAreGenerated(tail);
    HdfValueIsClean(unit, d.hdf, tail);
    ParsePrinted("hardfile2", value);
    LineIsClosed("hardfile2", value);
    ImageValueCut(unit, d.hdf, tail);
    ReadBackIsParsed(value);
    var t := Take(tail, VALUE_MAX - |HdfValue(unit, d.hdf, "")|);
    CutTail(tail, VALUE_MAX - |HdfValue(unit, d.hdf, "")|);
    HdfPathRead(unit, d.hdf, t);
    if unit == 1 {
      HdfRead(1, d.hdf, tail);
    }
    LoadOne(s, Line("hardfile2", value), host);
  }

  lemma HdfLength(unit: nat, path: string, tail: string)
    requires unit < 2
    ensures |HdfValue(unit, path, tail)| == |HdfValue(unit, path, "")| + |tail|
  {
  }

  lemma ReadBackIsParsed(value: string)
    ensures TrimRight(Take(TrimLeft(value), VALUE_MAX)) == ReadBack(value)
  {
  }

  lemma FolderLineRead(s: State, unit: nat, d: Drive, host: Host)
    requires unit < 2 && WritableDrive(d) && d.hdf == "" && d.folder != "" && DriveFits(d, unit, host)
    ensures Whole(DriveLines(d, unit, host))
    ensures DriveOf(s, unit) == NO_DRIVE ==>
              LoadLines(s, DriveLines(d, unit, host), host) == WithDrive(s, unit, ReadDrive(d, unit, host))
  {
    hide IsManagedFolder, IsManagedHdf, ParseFolder, ParseHdf, FolderValue, WithSeparator, VolumeOf, Closed, ParseKeyValue;
    PlainKeys();
    var folder, volume := PrintedFolder(d), VolumeOf(d, unit);
    VolumeIsVolume(d, unit);
    SeparatorKeeps(d.folder);
    var value := FolderValue(unit, volume, folder);
    FolderRead(unit, volume, folder);
    FolderValueIsClean(unit, volume, folder);
    ParsePrinted("filesystem2", value);
    LineIsClosed("filesystem2", value);
    ManagedIsParsed(value, unit);
    LoadOne(s, Line("filesystem2", value), host);
  }

  lemma ManagedIsParsed(value: string, unit: nat)
    requires unit < 2 && IsManagedFolder(value, unit)
    ensures ParseFolder(value, unit).Some?
  {
  }

  /** The line printed for a drive is read in one piece, recognised, and loads as `ReadDrive` says. */
  lemma DriveLineRead(s: State, d: Drive, unit: nat, host: Host)
    requires unit < 2 && WritableDrive(d) && DriveFits(d, unit, host)
    ensures Whole(DriveLines(d, unit, host))
    ensures DriveOf(s, unit) == NO_DRIVE ==>
              LoadLines(s, DriveLines(d, unit, host), host) == WithDrive(s, unit, ReadDrive(d, unit, host))
  {
    if d.hdf != "" {
      ImageLineRead(s, unit, d, host);
    } else if d.folder != "" {
      FolderLineRead(s, unit, d, host);
    }
  }

  /** What comes back is the drive's normal form exactly if the drive comes back. */
  lemma DriveComesBack(d: Drive, unit: nat, host: Host)
    requires unit < 2 && WritableDrive(d)
    ensures ReadDrive(d, unit, host) == NormalDrive(d, unit) <==> ComesBack(d, unit, host)
  {
    hide ParseFolder, FolderMiddle, FolderValue, VolumeOf, WithSeparator;
    if d.hdf == "" && d.folder != "" {
      var folder, volume := PrintedFolder(d), VolumeOf(d, unit);
      VolumeIsVolume(d, unit);
      SeparatorKeeps(d.folder);
      FolderRead(unit, volume, folder);
      if |FolderMiddle(unit, volume, folder)| > MIDDLE_MAX {
        LongFolderRead(unit, volume, folder);
      }
    }
  }

  lemma SeparatorKeeps(folder: string)
    requires folder != "" && '\n' !in folder
    ensures WithSeparator(folder) != "" && '\n' !in WithSeparator(folder)
  {
  }

  /** What is left of a drive after a save and a load. */
  function NormalDrive(d: Drive, unit: nat): Drive {
    if d.hdf != "" then Drive("", d.hdf, "")
    else if d.folder != "" then Drive(WithSeparator(d.folder), "", VolumeOf(d, unit))
    else NO_DRIVE
  }

  /** What is left of the options after a save and a load. */
  function Normal(s: State): State {
    State(ReadBack(s.floppy0), ReadBack(s.floppy1), NormalDrive(s.drive0, 0), NormalDrive(s.drive1, 1), ReadEntries(Sort(s.entries)))
  }

  lemma FloppyLineRead(s: State, key: string, value: string, host: Host)
    requires IsPrintedKey(key) && IsPath(value) && |key| <= 16
    requires IsFloppyKey(key) || (!IsPuaeKey(key) && (key == "nr_floppies" || IsFloppyTypeKey(key)))
    ensures Closed(Line(key, value)) && IsManaged(Line(key, value))
    ensures LoadLine(s, Line(key, value), host) == (if key == "floppy0" then s.(floppy0 := ReadBack(value))
                                                    else if key == "floppy1" then s.(floppy1 := ReadBack(value))
                                                    else s)
  {
    hide ParseKeyValue, Closed, IsManagedFolder, IsManagedHdf;
    ParsePrinted(key, value);
    assert Take(ReadBack(value), PATH_LIMIT) == ReadBack(value);
    LineIsClosed(key, value);
    if !IsFloppyKey(key) {
      NotDriveKey(key);
    }
  }

  lemma NotDriveKey(key: string)
    requires key == "nr_floppies" || IsFloppyTypeKey(key)
    ensures key != "filesystem2" && key != "hardfile2"
  {
    if IsFloppyTypeKey(key) {
      assert key[1] == "floppy"[1];
    }
  }

  lemma FloppyLinesRead(s: State, host: Host)
    requires IsPath(s.floppy0) && IsPath(s.floppy1)
    ensures Whole(FloppyLines(s))
    ensures LoadLines(EMPTY, FloppyLines(s), host) == EMPTY.(floppy0 := ReadBack(s.floppy0), floppy1 := ReadBack(s.floppy1))
  {
    hide LoadLine, Closed, IsManaged, IsFloppyTypeKey, IsPrintedKey, Line, ReadBack;
    PlainKeys();
    var n := if s.floppy1 != "" then "2" else "1";
    var a, b := EMPTY, EMPTY.(floppy0 := ReadBack(s.floppy0));
    FloppyLineRead(a, "nr_floppies", n, host);
    FloppyLineRead(a, "floppy0", s.floppy0, host);
    FloppyLineRead(b, "floppy1", s.floppy1, host);
    var c := b.(floppy1 := ReadBack(s.floppy1));
    FloppyLineRead(c, "floppy1type", "0", host);
    var l0, l1, l2, l3 := Line("nr_floppies", n), Line("floppy0", s.floppy0), Line("floppy1", s.floppy1), Line("floppy1type", "0");
    var first := if s.floppy0 != "" then [l1] else [];
    var second := if s.floppy1 != "" then [l2, l3] else [];
    assert ReadBack("") == "" by { ReadBackNothing(); }
    LoadSplits(a, [l0] + first, second, host);
    LoadSplits(a, [l0], first, host);
    LoadOne(a, l0, host);
    LoadOne(a, l1, host);
    LoadSplits(b, [l2], [l3], host);
    LoadOne(b, l2, host);
    LoadOne(c, l3, host);
    assert [l2] + [l3] == [l2, l3];
  }

  lemma ReadBackNothing()
    ensures ReadBack("") == ""
  {
  }

  lemma LoadOne(s: State, line: string, host: Host)
    ensures LoadLines(s, [line], host) == LoadLine(s, line, host)
  {
  }

  lemma EntryLineRead(s: State, e: Entry, host: Host)
    requires IsEntry(e) && |Line(e.key, e.value)| <= LINE_MAX
    ensures Closed(Line(e.key, e.value)) && IsManaged(Line(e.key, e.value))
    ensures LoadLine(s, Line(e.key, e.value), host) == s.(entries := SetEntry(s.entries, e.key, ReadBack(e.value)))
  {
    hide ParseKeyValue, Closed, IsManagedFolder, IsManagedHdf;
    PuaeKeyIsPrinted(e);
    ParsePrinted(e.key, e.value);
    LineIsClosed(e.key, e.value);
  }

  /** Entries with distinct keys are appended one by one. */
  lemma {:induction false} EntryLinesRead(s: State, entries: seq<Entry>, host: Host)
    requires forall e :: e in entries ==> IsEntry(e) && |Line(e.key, e.value)| <= LINE_MAX
    requires DistinctKeys(s.entries + entries)
    ensures LoadLines(s, EntryLines(entries), host) == s.(entries := s.entries + ReadEntries(entries))
    decreases |entries|
  {
    hide LoadLine, LoadLines, EntryLines, ReadEntries, ReadBack, Line, IsEntry, DistinctKeys, SetEntry, IsManaged, Closed;
    if entries == [] {
      NoEntries(s, host);
      assert s.entries + [] == s.entries;
    } else {
      var e, rest := entries[0], entries[1..];
      assert [e] + rest == entries;
      var read := Entry(e.key, ReadBack(e.value));
      EntryLinesStep(e, rest);
      FirstEntryRead(s, e, rest, host);
      KeysStayDistinct(s.entries, e, read, rest);
      EntryLinesRead(s.(entries := s.entries + [read]), rest, host);
      Sorting.Reassociate(s.entries, read, ReadEntries(rest));
    }
  }

  lemma FirstEntryRead(s: State, e: Entry, rest: seq<Entry>, host: Host)
    requires IsEntry(e) && |Line(e.key, e.value)| <= LINE_MAX && DistinctKeys(s.entries + ([e] + rest))
    ensures LoadLines(s, [Line(e.key, e.value)] + EntryLines(rest), host) ==
            LoadLines(s.(entries := s.entries + [Entry(e.key, ReadBack(e.value))]), EntryLines(rest), host)
  {
    hide LoadLine, LoadLines, EntryLines, ReadBack, Line, IsEntry, DistinctKeys, SetEntry, IsManaged, Closed;
    EntryLineRead(s, e, host);
    NewKeyAppends(s.entries, e, rest, ReadBack(e.value));
    LoadSplits(s, [Line(e.key, e.value)], EntryLines(rest), host);
    LoadOne(s, Line(e.key, e.value), host);
  }

  lemma NoEntries(s: State, host: Host)
    ensures EntryLines([]) == [] && ReadEntries([]) == [] && LoadLines(s, [], host) == s
  {
  }

  lemma EntryLinesStep(e: Entry, rest: seq<Entry>)
    ensures EntryLines([e] + rest) == [Line(e.key, e.value)] + EntryLines(rest)
    ensures ReadEntries([e] + rest) == [Entry(e.key, ReadBack(e.value))] + ReadEntries(rest)
  {
  }

  lemma NewKeyAppends(before: seq<Entry>, e: Entry, rest: seq<Entry>, value: string)
    requires DistinctKeys(before + ([e] + rest))
    ensures SetEntry(before, e.key, value) == before + [Entry(e.key, value)]
  {
    var all := before + ([e] + rest);
    assert KeyOf(all[|before|]) == e.key;
    assert forall i :: 0 <= i < |before| ==> KeyOf(all[i]) == before[i].key;
  }

  lemma KeysStayDistinct(before: seq<Entry>, e: Entry, read: Entry, rest: seq<Entry>)
    requires DistinctKeys(before + ([e] + rest)) && read.key == e.key
    ensures DistinctKeys(before + [read] + rest)
  {
    var a, b := before + ([e] + rest), before + [read] + rest;
    forall i, j | 0 <= i < j < |b| ensures KeyOf(b[i]) != KeyOf(b[j]) {
      assert KeyOf(a[i]) == KeyOf(b[i]) && KeyOf(a[j]) == KeyOf(b[j]);
    }
  }

  lemma EntriesRecognised(entries: seq<Entry>)
    requires forall e :: e in entries ==> IsEntry(e) && |Line(e.key, e.value)| <= LINE_MAX
    ensures Whole(EntryLines(entries))
  {
    hide Closed, IsManaged, Line, LoadLine, IsEntry;
    forall l | l in EntryLines(entries)
      ensures Closed(l) && IsManaged(l)
    {
      var i :| 0 <= i < |entries| && EntryLines(entries)[i] == l;
      var h := Host((p: string) => false, (p: string) => false, (p: string) => None);
      EntryLineRead(EMPTY, entries[i], h);
    }
  }

  lemma SortKeepsEntries(entries: seq<Entry>)
    ensures forall e :: e in Sort(entries) <==> e in entries
    ensures DistinctKeys(entries) ==> DistinctKeys(Sort(entries))
  {
    Sorting.SortMembers(EntryLe, entries);
    if DistinctKeys(entries) {
      Sorting.SortKeepsApart(EntryLe, KeyOf, entries);
    }
  }

  /** Every generated line that fits the buffers is read back in one piece and recognised as managed. */
  lemma BlockIsWhole(s: State, host: Host)
    requires Fits(s, host)
    ensures Whole(Block(s, host))
  {
    hide Whole, FloppyLines, DriveLines, EntryLines, IsPath, WritableDrive, DriveFits, IsEntry, Line;
    FloppyLinesRead(s, host);
    DriveLineRead(EMPTY, s.drive0, 0, host);
    DriveLineRead(EMPTY, s.drive1, 1, host);
    SortKeepsEntries(s.entries);
    EntriesRecognised(Sort(s.entries));
    WholeJoin(FloppyLines(s), DriveLines(s.drive0, 0, host));
    WholeJoin(FloppyLines(s) + DriveLines(s.drive0, 0, host), DriveLines(s.drive1, 1, host));
    WholeJoin(FloppyLines(s) + DriveLines(s.drive0, 0, host) + DriveLines(s.drive1, 1, host), EntryLines(Sort(s.entries)));
  }

  lemma BlockRead(s: State, host: Host)
    requires Fits(s, host)
    ensures LoadLines(EMPTY, Block(s, host), host) ==
            Normal(s).(drive0 := ReadDrive(s.drive0, 0, host), drive1 := ReadDrive(s.drive1, 1, host))
  {
    hide FloppyLines, DriveLines, EntryLines, IsPath, WritableDrive, DriveFits, IsEntry, Line, LoadLines,
      NormalDrive, ReadDrive, ReadBack, ReadEntries, Whole;
    var a, b, c, d := FloppyLines(s), DriveLines(s.drive0, 0, host), DriveLines(s.drive1, 1, host), EntryLines(Sort(s.entries));
    var s1 := EMPTY.(floppy0 := ReadBack(s.floppy0), floppy1 := ReadBack(s.floppy1));
    var s2 := s1.(drive0 := ReadDrive(s.drive0, 0, host));
    var s3 := s2.(drive1 := ReadDrive(s.drive1, 1, host));
    FloppyLinesRead(s, host);
    DriveLineRead(s1, s.drive0, 0, host);
    DriveLineRead(s2, s.drive1, 1, host);
    SortKeepsEntries(s.entries);
    assert s3.entries + Sort(s.entries) == Sort(s.entries);
    assert s3.entries + ReadEntries(Sort(s.entries)) == ReadEntries(Sort(s.entries));
    EntryLinesRead(s3, Sort(s.entries), host);
    LoadSplits(EMPTY, a + b + c, d, host);
    LoadSplits(EMPTY, a + b, c, host);
    LoadSplits(EMPTY, a, b, host);
  }

  /** Loading a file just saved gives the saved options back, normalised, if and only if both drives come back. */
  lemma RoundTrip(file: string, s: State, host: Host)
    requires Fits(s, host)
    ensures LoadText(SaveText(file, Block(s, host)), host) == Normal(s) <==>
            ComesBack(s.drive0, 0, host) && ComesBack(s.drive1, 1, host)
  {
    hide Whole, Block, LoadLines, Chunks, ReadDrive, ComesBack, NormalDrive, WritableDrive, DriveFits;
    BlockIsWhole(s, host);
    WholeIsRecognised(Block(s, host));
    LoadSeesBlock(file, Block(s, host), host);
    BlockRead(s, host);
    DriveComesBack(s.drive0, 0, host);
    DriveComesBack(s.drive1, 1, host);
  }

  function Repeated(c: char, n: nat): (s: string)
    ensures |s| == n && forall i :: 0 <= i < n ==> s[i] == c
  {
    seq(n, i => c)
  }

  /** A folder of 1100 letters does not come back: the middle part is cut. */
  lemma LongFolderIsLost(file: string, host: Host)
    ensures var s := EMPTY.(drive0 := Drive(Repeated('a', 1100), "", ""));
            Fits(s, host) && LoadText(SaveText(file, Block(s, host)), host) != Normal(s)
  {
    hide Block, SaveText, LoadText, FolderMiddle, FolderValue, WithSeparator, Escape;
    var d := Drive(Repeated('a', 1100), "", "");
    var s := EMPTY.(drive0 := d);
    LongMiddle();
    RoundTrip(file, s, host);
  }

  lemma LongMiddle()
    ensures var d := Drive(Repeated('a', 1100), "", "");
            var f := PrintedFolder(d);
            && |FolderMiddle(0, VolumeOf(d, 0), f)| > MIDDLE_MAX && |FolderValue(0, VolumeOf(d, 0), f)| <= VALUE_MAX
            && |f| == 1101 && |VolumeOf(d, 0)| == 4
  {
    var f := PrintedFolder(Drive(Repeated('a', 1100), "", ""));
    PlainEscape(f);
  }

  lemma {:induction false} PlainEscape(s: string)
    requires '\\' !in s
    ensures Escape(s) == s
  {
    if s != "" {
      PlainEscape(s[1..]);
    }
  }

  lemma NormalDriveStable(d: Drive, unit: nat, host: Host)
    requires unit < 2
    ensures NormalDrive(NormalDrive(d, unit), unit) == NormalDrive(d, unit)
    ensures DriveLines(NormalDrive(d, unit), unit, host) == DriveLines(d, unit, host)
  {
    hide HdfTail, HdfValue, FolderValue, Line;
  }

  lemma NothingToTrim(s: State)
    requires IsTrimmed(s)
    ensures ReadBack(s.floppy0) == s.floppy0 && ReadBack(s.floppy1) == s.floppy1
    ensures ReadEntries(Sort(s.entries)) == Sort(s.entries)
  {
    SortKeepsEntries(s.entries);
    ValueRead(s.floppy0);
    ValueRead(s.floppy1);
    forall i | 0 <= i < |s.entries| ensures ReadEntries(Sort(s.entries))[i] == Sort(s.entries)[i] {
      assert Sort(s.entries)[i] in Sort(s.entries);
      ValueRead(Sort(s.entries)[i].value);
    }
  }

  /** When there is nothing to trim, only the drives' normal forms and the order of the entries are new. */
  lemma TrimmedRoundTrip(file: string, s: State, host: Host)
    requires Fits(s, host) && ComesBack(s.drive0, 0, host) && ComesBack(s.drive1, 1, host) && IsTrimmed(s)
    ensures LoadText(SaveText(file, Block(s, host)), host) ==
            s.(drive0 := NormalDrive(s.drive0, 0), drive1 := NormalDrive(s.drive1, 1), entries := Sort(s.entries))
  {
    RoundTrip(file, s, host);
    NothingToTrim(s);
  }

  lemma ReadBackTwice(value: string)
    requires '\n' !in value
    ensures ReadBack(ReadBack(value)) == ReadBack(value)
  {
    BackIsClean(value);
    ValueRead(ReadBack(value));
  }

  lemma BackIsClean(value: string)
    requires '\n' !in value
    ensures Clean(ReadBack(value))
  {
    TrimLeftIsSuffix(value);
    TrimRightIsPrefix(Take(TrimLeft(value), VALUE_MAX));
  }

  lemma ReadEntriesSorted(entries: seq<Entry>)
    requires forall e :: e in entries ==> '\n' !in e.value
    ensures ReadEntries(Sort(ReadEntries(Sort(entries)))) == ReadEntries(Sort(entries))
  {
    hide ReadBack;
    var sorted := Sort(entries);
    var read := ReadEntries(sorted);
    SortIsSorted(entries);
    SortKeepsEntries(entries);
    assert Sorting.Sorted(EntryLe, read) by {
      forall i, j | 0 <= i < j < |read| ensures EntryLe(read[i], read[j]) {
        assert EntryLe(sorted[i], sorted[j]);
      }
    }
    EntryOrder();
    Sorting.SortOfSorted(EntryLe, read);
    forall i | 0 <= i < |read| ensures ReadEntries(read)[i] == read[i] {
      assert sorted[i] in sorted;
      ReadBackTwice(sorted[i].value);
    }
  }

  /** The normal form is its own normal form. */
  lemma NormalIsNormal(s: State)
    requires Writable(s)
    ensures Normal(Normal(s)) == Normal(s)
  {
    hide NormalDrive, Sort, ReadBack, ReadEntries;
    var anyHost := Host((p: string) => false, (p: string) => false, (p: string) => None);
    ReadBackTwice(s.floppy0);
    ReadBackTwice(s.floppy1);
    NormalDriveStable(s.drive0, 0, anyHost);
    NormalDriveStable(s.drive1, 1, anyHost);
    ReadEntriesSorted(s.entries);
  }

  /** The normal form of trimmed options prints the same block: a second save and load changes nothing. */
  lemma NormalPrintsTheSame(s: State, host: Host)
    requires IsTrimmed(s)
    ensures Block(Normal(s), host) == Block(s, host)
  {
    hide NormalDrive, DriveLines, Sort, Clean, ReadBack, ReadEntries;
    SortIsSorted(s.entries);
    NothingToTrim(s);
    NormalDriveStable(s.drive0, 0, host);
    NormalDriveStable(s.drive1, 1, host);
  }

  /** An image path that names a directory comes back as a folder: why such paths are outside the round trip. */
  lemma DirectoryImageBecomesFolder(s: State, d: Drive, unit: nat, host: Host)
    requires unit < 2 && WritableDrive(d) && DriveFits(d, unit, host) && DriveOf(s, unit) == NO_DRIVE
    requires d.hdf != "" && host.isDirectory(d.hdf)
    ensures LoadLines(s, DriveLines(d, unit, host), host) == WithDrive(s, unit, Drive(d.hdf, "", ""))
  {
    ImageLineRead(s, unit, d, host);
  }
}
