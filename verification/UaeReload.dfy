/** What any file loads to can be saved and loaded again: only the buffer sizes can get in the way. */
module UaeReload {
  import opened Sequences
  import opened Text
  import opened UaeLine
  import opened UaeFile
  import opened UaeState

  // ---------- What a line parses to ----------

  /** Only the last character can be a line break. */
  predicate BreaksLast(s: string) {
    forall i :: 0 <= i < |s| - 1 ==> s[i] != '\n'
  }

  lemma TrimmedIsClean(s: string, n: nat)
    requires BreaksLast(s)
    ensures Clean(TrimRight(Take(TrimLeft(s), n)))
  {
    hide TrimLeft, TrimRight;
    TrimLeftIsSuffix(s);
    TrimRightIsPrefix(Take(TrimLeft(s), n));
    PartIsClean(s, |s| - |TrimLeft(s)|, TrimRight(Take(TrimLeft(s), n)));
  }

  lemma PartIsClean(s: string, from: nat, r: string)
    requires BreaksLast(s) && from + |r| <= |s| && r == s[from..from + |r|]
    requires r == "" || (!IsBlank(r[0]) && !IsTrailing(r[|r| - 1]))
    ensures Clean(r)
  {
    assert forall i :: 0 <= i < |r| ==> r[i] == s[from + i];
  }

  lemma TrimmedKeyIsClean(s: string)
    requires '\n' !in s
    ensures Clean(TrimLeft(TrimRight(s)))
    ensures forall c :: c in TrimLeft(TrimRight(s)) ==> c in s
    ensures |TrimLeft(TrimRight(s))| <= |s|
  {
    var t := TrimRight(s);
    TrimRightIsPrefix(s);
    TrimLeftIsSuffix(t);
    var r := TrimLeft(t);
    assert r != "" ==> r[|r| - 1] == t[|t| - 1];
  }

  /** Key and value of any line read from a file are clean and fit their buffers. */
  lemma ParsedIsClean(line: string)
    requires IsChunk(line) && ParseKeyValue(line).Some?
    ensures var kv := ParseKeyValue(line).value;
            && Clean(kv.key) && '=' !in kv.key && |kv.key| <= KEY_MAX
            && Clean(kv.value) && |kv.value| <= VALUE_MAX
  {
    hide TrimLeft, TrimRight, IndexOf, Clean;
    var p := TrimLeft(line);
    TrimLeftIsSuffix(line);
    assert forall i :: 0 <= i < |p| ==> p[i] == line[|line| - |p| + i];
    assert BreaksLast(p);
    var eq := IndexOf(p, '=');
    BreaksLastAfter(p, eq);
    TrimmedKeyIsClean(Take(p[..eq], KEY_MAX));
    TrimmedIsClean(p[eq + 1..], VALUE_MAX);
  }

  lemma BreaksLastAfter(p: string, eq: nat)
    requires BreaksLast(p) && eq < |p|
    ensures BreaksLast(p[eq + 1..]) && '\n' !in Take(p[..eq], KEY_MAX)
  {
  }

  // ---------- What a drive line parses to ----------

  lemma {:induction false} UnescapeKeepsOut(s: string, c: char)
    requires c !in s
    ensures c !in Unescape(s)
  {
    if s != "" {
      if s[0] == '\\' && |s| > 1 {
        UnescapeKeepsOut(s[2..], c);
      } else {
        UnescapeKeepsOut(s[1..], c);
      }
    }
  }

  lemma QuotedKeepsOut(path: string, c: char)
    requires path != "" && c !in path
    ensures Quoted(path).Some? ==> c !in Quoted(path).value && |Quoted(path).value| <= PATH_LIMIT
    ensures c !in Unquoted(path)
  {
    if IsQuote(path[0]) {
      var body := path[1..];
      UnescapeKeepsOut(body[..LastIndexOf(body, path[0])], c);
    }
  }

  lemma VolumePartIsClean(s: string)
    requires '\n' !in s && ParseVolume(s).Some?
    ensures IsPath(ParseVolume(s).value.path) && IsVolume(ParseVolume(s).value.volume)
  {
    hide Quoted, Unquoted;
    QuotedKeepsOut(s[IndexOf(s, ':') + 1..], '\n');
  }

  lemma FolderIsClean(value: string, unit: nat)
    requires unit < 2 && '\n' !in value && ParseFolder(value, unit).Some?
    ensures IsPath(ParseFolder(value, unit).value.path) && IsVolume(ParseFolder(value, unit).value.volume)
  {
    hide ParseVolume, TrimLeft, IndexOf, LastIndexOf, Device;
    var rest := value[IndexOf(value, ',') + 1..];
    var cut := Take(rest[..LastIndexOf(rest, ',')], MIDDLE_MAX);
    TrimLeftIsSuffix(cut);
    VolumePartIsClean(TrimLeft(cut)[4..]);
  }

  lemma HdfIsClean(value: string, unit: nat)
    requires unit < 2 && '\n' !in value && ParseHdf(value, unit).Some?
    ensures IsPath(ParseHdf(value, unit).value)
  {
    hide Quoted, Unquoted, IndexOf, Device;
    QuotedKeepsOut(value[IndexOf(value, ',') + 1..][4..], '\n');
  }

  // ---------- What a file loads to ----------

  predicate CleanDrive(d: Drive, host: Host) {
    && IsPath(d.folder) && IsPath(d.hdf) && (d.volume == "" || IsVolume(d.volume))
    && (d.hdf != "" ==> !host.isDirectory(d.hdf))
  }

  predicate CleanEntry(e: Entry) {
    IsEntry(e) && Clean(e.value) && |e.value| <= VALUE_MAX
  }

  /** What every file loads to: clean paths, no image path that names a directory, clean entries with distinct keys. */
  ghost predicate Loaded(s: State, host: Host) {
    && IsPath(s.floppy0) && IsPath(s.floppy1)
    && CleanDrive(s.drive0, host) && CleanDrive(s.drive1, host)
    && DistinctKeys(s.entries) && forall e :: e in s.entries ==> CleanEntry(e)
  }

  lemma SetEntryKeepsClean(entries: seq<Entry>, key: string, value: string)
    requires DistinctKeys(entries) && forall e :: e in entries ==> CleanEntry(e)
    requires CleanEntry(Entry(key, value))
    ensures DistinctKeys(SetEntry(entries, key, value))
    ensures forall e :: e in SetEntry(entries, key, value) ==> CleanEntry(e)
  {
    hide CleanEntry;
  }

  lemma PathCut(value: string)
    requires '\n' !in value
    ensures IsPath(Take(value, PATH_LIMIT))
  {
  }

  lemma LoadLineKeepsLoaded(s: State, line: string, host: Host)
    requires Loaded(s, host) && IsChunk(line)
    ensures Loaded(LoadLine(s, line, host), host)
  {
    hide ParseKeyValue, IsManagedFolder, IsManagedHdf, ParseFolder, ParseHdf, SetEntry, DistinctKeys, IsVolume, IsChunk, CleanEntry;
    match ParseKeyValue(line)
    case None =>
    case Some(KeyValue(key, value)) =>
      ParsedIsClean(line);
      PathCut(value);
      LoadDriveKeepsLoaded(s, value, host);
      if IsPuaeKey(key) {
        PuaeEntryIsClean(key, value);
        SetEntryKeepsClean(s.entries, key, value);
      }
  }

  lemma PuaeEntryIsClean(key: string, value: string)
    requires IsPuaeKey(key) && Clean(key) && '=' !in key && |key| <= KEY_MAX && Clean(value) && |value| <= VALUE_MAX
    ensures CleanEntry(Entry(key, value))
  {
  }

  lemma LoadDriveKeepsLoaded(s: State, value: string, host: Host)
    requires Loaded(s, host) && '\n' !in value
    ensures Loaded(LoadFolder(s, value), host) && Loaded(LoadHdf(s, value, host), host)
  {
    hide IsManagedFolder, IsManagedHdf, ParseFolder, ParseHdf, DistinctKeys, IsVolume, CleanEntry;
    ManagedFolderIsClean(value);
    ManagedHdfIsClean(value);
  }

  lemma ManagedFolderIsClean(value: string)
    requires '\n' !in value
    ensures forall unit: nat :: unit < 2 && IsManagedFolder(value, unit) ==>
              && ParseFolder(value, unit).Some?
              && IsPath(ParseFolder(value, unit).value.path) && IsVolume(ParseFolder(value, unit).value.volume)
  {
    hide ParseFolder, IsPath, IsVolume;
    forall unit: nat | unit < 2 && IsManagedFolder(value, unit)
      ensures IsPath(ParseFolder(value, unit).value.path) && IsVolume(ParseFolder(value, unit).value.volume)
    {
      FolderIsClean(value, unit);
    }
  }

  lemma ManagedHdfIsClean(value: string)
    requires '\n' !in value
    ensures forall unit: nat :: unit < 2 && IsManagedHdf(value, unit) ==>
              ParseHdf(value, unit).Some? && IsPath(ParseHdf(value, unit).value)
  {
    hide ParseHdf, IsPath;
    forall unit: nat | unit < 2 && IsManagedHdf(value, unit) ensures IsPath(ParseHdf(value, unit).value) {
      HdfIsClean(value, unit);
    }
  }

  lemma {:induction false} LoadLinesKeepLoaded(s: State, lines: seq<string>, host: Host)
    requires Loaded(s, host) && forall l :: l in lines ==> IsChunk(l)
    ensures Loaded(LoadLines(s, lines, host), host)
    decreases |lines|
  {
    hide Loaded, IsChunk, LoadLine;
    if lines != [] {
      LoadLineKeepsLoaded(s, lines[0], host);
      LoadLinesKeepLoaded(LoadLine(s, lines[0], host), lines[1..], host);
    }
  }

  lemma LoadedFromFile(file: string, host: Host)
    ensures Loaded(LoadText(file, host), host)
  {
    hide IsChunk;
    ChunksAreClosed(file);
    LoadLinesKeepLoaded(EMPTY, Chunks(file), host);
  }

  // ---------- Loading, saving and loading again ----------

  lemma LoadedIsWritable(s: State, host: Host)
    requires Loaded(s, host)
    ensures Writable(s)
    ensures forall e :: e in s.entries ==> |Line(e.key, e.value)| <= 8191 || (|e.key| == 1023 && |e.value| == 7167)
  {
    hide DistinctKeys, Clean, IsPuaeKey, IsPath, IsVolume;
    forall e | e in s.entries
      ensures IsEntry(e) && (|Line(e.key, e.value)| <= LINE_MAX || (|e.key| == KEY_MAX && |e.value| == VALUE_MAX))
    {
      assert CleanEntry(e);
    }
  }

  /** The printed lines fit the buffers they will be read with. */
  predicate LoadedFits(s: State, host: Host) {
    && DriveFits(s.drive0, 0, host) && DriveFits(s.drive1, 1, host)
    && forall e :: e in s.entries ==> |e.key| < KEY_MAX || |e.value| < VALUE_MAX
  }

  /**
   Whatever is in a file, as long as the printed lines fit the buffers: loading it, saving and loading
   again gives the normal form of what was loaded, if and only if no folder is cut. Images always come back.
   */
  lemma ReloadIsNormal(file: string, host: Host)
    requires LoadedFits(LoadText(file, host), host)
    ensures var s := LoadText(file, host);
            && (LoadText(SaveText(file, Block(s, host)), host) == Normal(s) <==>
                ComesBack(s.drive0, 0, host) && ComesBack(s.drive1, 1, host))
            && (s.drive0.hdf != "" ==> ComesBack(s.drive0, 0, host))
            && (s.drive1.hdf != "" ==> ComesBack(s.drive1, 1, host))
  {
    hide DriveFits, Writable, SaveText, Block;
    var s := LoadText(file, host);
    LoadedFromFile(file, host);
    LoadedIsWritable(s, host);
    RoundTrip(file, s, host);
  }
}
