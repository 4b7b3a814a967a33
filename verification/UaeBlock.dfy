/** The exact text of the block a save appends. */
module UaeBlock {
  import opened Optional
  import opened Text
  import opened UaeLine
  import opened UaeFile
  import opened UaeState

  /** The lines of the floppies: how many there are, each path, and the type of the second. */
  lemma FloppyLinesAre(s: State)
    ensures Concat(FloppyLines(s)) ==
            (if s.floppy1 == "" then "nr_floppies=1\n" else "nr_floppies=2\n")
            + (if s.floppy0 == "" then "" else "floppy0=" + s.floppy0 + "\n")
            + (if s.floppy1 == "" then "" else "floppy1=" + s.floppy1 + "\nfloppy1type=0\n")
  {
    var n, a, b := Line("nr_floppies", if s.floppy1 != "" then "2" else "1"), Line("floppy0", s.floppy0), Line("floppy1", s.floppy1);
    var first := if s.floppy0 != "" then [a] else [];
    var second := if s.floppy1 != "" then [b, Line("floppy1type", "0")] else [];
    ConcatSplits([n] + first, second);
    ConcatSplits([n], first);
    ConcatOfOne(n);
    ConcatOfOne(a);
    ConcatOfTwo(b, Line("floppy1type", "0"));
    FloppyTexts(s);
  }

  lemma FloppyTexts(s: State)
    ensures Line("nr_floppies", "1") == "nr_floppies=1\n" && Line("nr_floppies", "2") == "nr_floppies=2\n"
    ensures Line("floppy0", s.floppy0) == "floppy0=" + s.floppy0 + "\n"
    ensures Line("floppy1", s.floppy1) + Line("floppy1type", "0") == "floppy1=" + s.floppy1 + "\nfloppy1type=0\n"
  {
    assert Line("floppy1type", "0") == "floppy1type=0\n";
    assert Line("floppy1", s.floppy1) == "floppy1=" + s.floppy1 + "\n";
    assert ("floppy1=" + s.floppy1 + "\n") + "floppy1type=0\n" == "floppy1=" + s.floppy1 + "\nfloppy1type=0\n";
  }

  lemma ConcatOfOne(l: string)
    ensures Concat([l]) == l && Concat([]) == ""
  {
    assert [l][1..] == [];
    assert l + "" == l;
  }

  lemma ConcatOfTwo(l: string, m: string)
    ensures Concat([l, m]) == l + m
  {
    ConcatOfOne(m);
    assert [l, m][1..] == [m];
  }

  /**
   The line of a drive: an image with its geometry, which a partitioned one has not and which has 16 surfaces
   from one gigabyte on; else a folder that ends in a separator, the one it uses, under its volume or Work, Work1.
   */
  lemma DriveLineIs(d: Drive, unit: nat, host: Host)
    requires unit < 2
    ensures var n := if unit == 0 then "0" else "1";
            Concat(DriveLines(d, unit, host)) ==
            if d.hdf != "" then
              var surfaces := if host.size(d.hdf).Some? && host.size(d.hdf).value >= 0x4000_0000 then "16" else "1";
              "hardfile2=rw,DH" + n + ":\"" + Escape(d.hdf) + "\""
              + (if host.isRdb(d.hdf) then ",0,0,0,512,0,,uae0\n" else ",32," + surfaces + ",2,512,0,,uae0\n")
            else if d.folder != "" then
              var volume := if d.volume != "" then d.volume else if unit == 0 then "Work" else "Work1";
              var last := d.folder[|d.folder| - 1];
              var end := if last == '/' || last == '\\' then "" else if '\\' in d.folder then "\\" else "/";
              "filesystem2=rw,DH" + n + ":" + volume + ":\"" + Escape(d.folder + end) + "\",0\n"
            else ""
  {
    hide Escape;
    if d.hdf != "" {
      ConcatOfOne(DriveLines(d, unit, host)[0]);
      SurfacesAre(d.hdf, host);
      ImageLineIs(unit, d.hdf, HdfTail(d.hdf, host));
    } else if d.folder != "" {
      ConcatOfOne(DriveLines(d, unit, host)[0]);
      assert d.folder + "" == d.folder;
      FolderLineIs(unit, VolumeOf(d, unit), WithSeparator(d.folder));
    }
  }

  lemma SurfacesAre(path: string, host: Host)
    ensures HdfTail(path, host) ==
            if host.isRdb(path) then ",0,0,0,512,0,,uae0"
            else if host.size(path).Some? && host.size(path).value >= 0x4000_0000 then ",32,16,2,512,0,,uae0"
            else ",32,1,2,512,0,,uae0"
  {
    assert SurfacesTail("16") == ",32,16,2,512,0,,uae0" && SurfacesTail("1") == ",32,1,2,512,0,,uae0";
  }

  lemma ImageLineIs(unit: nat, path: string, tail: string)
    requires unit < 2
    ensures Line("hardfile2", HdfValue(unit, path, tail)) ==
            "hardfile2=rw,DH" + (if unit == 0 then "0" else "1") + ":\"" + Escape(path) + "\"" + (tail + "\n")
  {
    hide Escape;
    assert Device(unit) == "DH" + (if unit == 0 then "0" else "1") + ":";
  }

  lemma FolderLineIs(unit: nat, volume: string, folder: string)
    requires unit < 2
    ensures Line("filesystem2", FolderValue(unit, volume, folder)) ==
            "filesystem2=rw,DH" + (if unit == 0 then "0" else "1") + ":" + volume + ":\"" + Escape(folder) + "\",0\n"
  {
    hide Escape;
    var n := if unit == 0 then "0" else "1";
    assert Device(unit) == "DH" + n + ":";
    FolderPieces(n, volume, Escape(folder));
    assert "filesystem2" + "=" == "filesystem2=";
  }

  lemma FolderPieces(n: string, volume: string, path: string)
    ensures "rw" + [','] + (("DH" + n + ":") + (volume + [':'] + (['"'] + path + ['"'])) + [','] + "0") ==
            "rw,DH" + n + ":" + volume + ":\"" + path + "\",0"
    ensures "filesystem2=" + ("rw,DH" + n + ":" + volume + ":\"" + path + "\",0") + "\n" ==
            "filesystem2=rw,DH" + n + ":" + volume + ":\"" + path + "\",0\n"
  {
  }

  lemma EntryLineIs(entries: seq<Entry>, i: nat)
    requires i < |entries|
    ensures EntryLines(entries)[i] == entries[i].key + "=" + entries[i].value + "\n"
  {
  }

  /** The block: the floppies, the two drives, and the options by key. */
  lemma BlockIs(s: State, host: Host)
    ensures Concat(Block(s, host)) ==
            Concat(FloppyLines(s)) + Concat(DriveLines(s.drive0, 0, host)) + Concat(DriveLines(s.drive1, 1, host))
            + Concat(EntryLines(Sort(s.entries)))
  {
    hide FloppyLines, DriveLines, EntryLines, Sort;
    var f, a, b, c := FloppyLines(s), DriveLines(s.drive0, 0, host), DriveLines(s.drive1, 1, host), EntryLines(Sort(s.entries));
    ConcatSplits(f + a + b, c);
    ConcatSplits(f + a, b);
    ConcatSplits(f, a);
  }
}
