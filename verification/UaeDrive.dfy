/** What the drive lines of any file say, however they were written: with either quote, with none, cut or not. */
module UaeDrive {
  import opened Optional
  import opened Sequences
  import opened Text
  import opened UaeLine
  import opened UaeState

  lemma DeviceText(unit: nat)
    requires unit < 2
    ensures Device(unit) == if unit == 0 then "DH0:" else "DH1:"
  {
  }

  // ---------- Paths ----------

  /** Between two quotes of one kind a path is escaped; nothing but the last such quote closes it. */
  lemma QuotedIs(q: char, body: string, rest: string)
    requires (q == '"' || q == '\'') && body != "" && q !in rest
    ensures var read := Unescape(body);
            var s := [q] + (body + [q] + rest);
            Quoted(s) == Some(if |read| <= 4095 then read else read[..4095]) && TailAfterPath(s) == Some(rest)
  {
    hide Unescape, LastIndexOf;
    var s := [q] + (body + [q] + rest);
    assert s[1..] == body + [q] + rest;
    Around(body, q, rest);
    forall j | |body| < j < |s[1..]| ensures s[1..][j] != q {
      assert s[1..][j] == rest[j - |body| - 1];
    }
    LastIndexOfAt(s[1..], q, |body|);
  }

  /** A path that begins without a quote is what it says; one that no later quote closes only loses its first. */
  lemma UnquotedIs(s: string)
    requires s != "" && ((s[0] != '"' && s[0] != '\'') || s[0] !in s[1..] || (s[1] == s[0] && s[0] !in s[2..]))
    ensures Quoted(s) == None && Unquoted(s) == if s[0] == '"' || s[0] == '\'' then s[1..] else s
    ensures s[0] == '"' || s[0] == '\'' ==> TailAfterPath(s) == None
  {
    hide LastIndexOf;
    if |s| > 1 && s[1] == s[0] {
      assert forall j :: 0 < j < |s[1..]| ==> s[1..][j] == s[2..][j - 1];
    }
  }

  // ---------- Disk images ----------

  lemma AfterMode(mode: string, rest: string)
    requires ',' !in mode
    ensures IndexOf(mode + [','] + rest, ',') == |mode| && (mode + [','] + rest)[|mode| + 1..] == rest
  {
    Around(mode, ',', rest);
    IndexOfAt(mode + [','] + rest, ',', |mode|);
  }

  /** An image line is recognised by what follows its first comma: the device, and anything at all behind it. */
  lemma ImageLineIs(mode: string, rest: string, unit: nat)
    requires unit < 2 && ',' !in mode
    ensures ParseHdf(mode, unit) == None
    ensures ParseHdf(mode + [','] + rest, unit).Some? <==>
            |rest| > 4 && rest[..4] == if unit == 0 then "DH0:" else "DH1:"
  {
    hide IndexOf, Quoted, Unquoted, Device;
    DeviceText(unit);
    AfterMode(mode, rest);
  }

  /** Its path, in quotes or up to the next comma, is read as far as the buffer goes. */
  lemma ImagePathIs(mode: string, unit: nat, q: char, body: string, rest: string)
    requires unit < 2 && ',' !in mode && (q == '"' || q == '\'') && body != "" && q !in rest
    ensures var read := Unescape(body);
            ParseHdf(mode + [','] + ((if unit == 0 then "DH0:" else "DH1:") + ([q] + (body + [q] + rest))), unit)
            == Some(if |read| <= 4095 then read else read[..4095])
  {
    hide IndexOf, Quoted, Unquoted, Device, Unescape, TailAfterPath;
    var path := [q] + (body + [q] + rest);
    DeviceText(unit);
    DeviceOnly(unit, unit, path);
    AfterMode(mode, Device(unit) + path);
    QuotedIs(q, body, rest);
  }

  lemma PlainImagePathIs(mode: string, unit: nat, path: string, rest: string)
    requires unit < 2 && ',' !in mode && ',' !in path && path + rest != "" && (rest == "" || rest[0] == ',')
    requires path == "" || (path[0] != '"' && path[0] != '\'')
    ensures ParseHdf(mode + [','] + ((if unit == 0 then "DH0:" else "DH1:") + (path + rest)), unit)
            == Some(if |path| <= 4095 then path else path[..4095])
  {
    hide IndexOf, Quoted, Unquoted, Device;
    DeviceText(unit);
    DeviceOnly(unit, unit, path + rest);
    AfterMode(mode, Device(unit) + (path + rest));
    UnquotedIs(path + rest);
    UpToComma(path, rest);
  }

  lemma OpenImagePathIs(mode: string, unit: nat, q: char, path: string, rest: string)
    requires unit < 2 && ',' !in mode && ',' !in path && (q == '"' || q == '\'') && (rest == "" || rest[0] == ',')
    requires q !in path + rest || q !in (path + rest)[1..]
    ensures ParseHdf(mode + [','] + ((if unit == 0 then "DH0:" else "DH1:") + ([q] + (path + rest))), unit)
            == Some(if |path| <= 4095 then path else path[..4095])
  {
    hide IndexOf, Quoted, Unquoted, Device;
    var s := [q] + (path + rest);
    DeviceText(unit);
    DeviceOnly(unit, unit, s);
    AfterMode(mode, Device(unit) + s);
    assert s[1..] == path + rest;
    if q in path + rest {
      assert s[2..] == (path + rest)[1..];
    }
    UnquotedIs(s);
    UpToComma(path, rest);
  }

  lemma UpToComma(path: string, rest: string)
    requires ',' !in path && (rest == "" || rest[0] == ',')
    ensures IndexOf(path + rest, ',') == |path| && (path + rest)[..|path|] == path
  {
    hide IndexOf;
    if rest != "" {
      assert rest == [','] + rest[1..];
      assert path + rest == path + [','] + rest[1..];
      IndexOfAt(path + rest, ',', |path|);
    } else {
      assert path + rest == path;
    }
  }

  // ---------- Folders ----------

  /** Of a folder line only the first 1023 characters between the first and the last comma are looked at. */
  lemma FolderMiddleIs(mode: string, middle: string, last: string, unit: nat)
    requires unit < 2 && ',' !in mode && ',' !in last
    ensures ParseFolder(mode, unit) == None
    ensures var m := TrimLeft(if |middle| <= 1023 then middle else middle[..1023]);
            ParseFolder(mode + [','] + (middle + [','] + last), unit) ==
            if |m| >= 4 && m[..4] == (if unit == 0 then "DH0:" else "DH1:") then ParseVolume(m[4..]) else None
    ensures ',' !in middle ==> ParseFolder(mode + [','] + middle, unit) == ParseFolder(mode + [','] + (middle + [','] + last), unit)
  {
    hide IndexOf, LastIndexOf, Device, ParseVolume, TrimLeft;
    DeviceText(unit);
    AfterMode(mode, middle);
    AfterMode(mode, middle + [','] + last);
    Around(middle, ',', last);
    forall j | |middle| < j < |middle + [','] + last| ensures (middle + [','] + last)[j] != ',' {
      assert (middle + [','] + last)[j] == last[j - |middle| - 1];
    }
    LastIndexOfAt(middle + [','] + last, ',', |middle|);
    if ',' !in middle {
      assert LastIndexOf(middle, ',') == |middle| && middle[..|middle|] == middle;
    }
  }

  /** Behind the device stands a volume, which ends at a colon, and a path; neither may be empty. */
  lemma VolumeAndPath(volume: string, path: string)
    requires ':' !in volume
    ensures ParseVolume(volume) == None
    ensures ParseVolume(volume + [':'] + path).Some? <==> volume != "" && path != ""
    ensures volume != "" && path != "" ==>
              ParseVolume(volume + [':'] + path).value.volume == if |volume| <= 63 then volume else volume[..63]
  {
    hide IndexOf, Quoted, Unquoted;
    Around(volume, ':', path);
    IndexOfAt(volume + [':'] + path, ':', |volume|);
  }

  lemma FolderPathIs(volume: string, q: char, body: string, rest: string)
    requires volume != "" && ':' !in volume && (q == '"' || q == '\'') && body != "" && q !in rest
    ensures var read := Unescape(body);
            var r := ParseVolume(volume + [':'] + ([q] + (body + [q] + rest)));
            r.Some? && r.value.path == if |read| <= 4095 then read else read[..4095]
  {
    hide IndexOf, Quoted, Unquoted, Unescape, TailAfterPath;
    var path := [q] + (body + [q] + rest);
    Around(volume, ':', path);
    IndexOfAt(volume + [':'] + path, ':', |volume|);
    QuotedIs(q, body, rest);
  }

  lemma PlainFolderPathIs(volume: string, path: string)
    requires volume != "" && ':' !in volume && path != ""
    requires (path[0] != '"' && path[0] != '\'') || path[0] !in path[1..] || (path[1] == path[0] && path[0] !in path[2..])
    ensures var read := if path[0] == '"' || path[0] == '\'' then path[1..] else path;
            var r := ParseVolume(volume + [':'] + path);
            r.Some? && r.value.path == if |read| <= 4095 then read else read[..4095]
  {
    hide IndexOf, Quoted, Unquoted;
    Around(volume, ':', path);
    IndexOfAt(volume + [':'] + path, ':', |volume|);
    UnquotedIs(path);
  }

  // ---------- Which of them a save replaces and a load takes ----------

  /** A folder line is the debugger's own if its mode is rw, its last part 0, and the reader finds a folder in it. */
  lemma ManagedFolderIs(mode: string, middle: string, last: string, unit: nat)
    requires unit < 2 && ',' !in mode && ',' !in last
    ensures var value := mode + [','] + (middle + [','] + last);
            IsManagedFolder(value, unit) <==> mode == "rw" && last == "0" && ParseFolder(value, unit).Some?
  {
    hide ParseFolder, LastIndexOf;
    var value := mode + [','] + (middle + [','] + last);
    var i := |mode| + 1 + |middle|;
    assert value[i] == ',' && value[i + 1..] == last;
    forall j | i < j < |value| ensures value[j] != ',' {
      assert value[j] == last[j - i - 1];
    }
    LastIndexOfAt(value, ',', i);
    assert value[i..] == [','] + last;
    assert value[i..] == ",0" <==> last == "0" by {
      assert ([','] + last)[1..] == last && ",0"[1..] == "0" && [','] + "0" == ",0";
    }
    assert value == mode + ([','] + (middle + [','] + last));
    ModeIsRw(mode, middle + [','] + last);
  }

  lemma ModeIsRw(mode: string, rest: string)
    requires ',' !in mode
    ensures "rw," <= mode + ([','] + rest) <==> mode == "rw"
  {
    var value := mode + ([','] + rest);
    assert value[|mode|] == ',';
    assert |mode| == 2 ==> value[0] == mode[0] && value[1] == mode[1] && value[2] == ',';
    assert |mode| == 2 && value[0] == 'r' && value[1] == 'w' ==> mode == "rw";
    assert |mode| > 2 ==> value[2] == mode[2];
  }

  /** Every image of the first unit is; of the second only one with a geometry the writer could have printed. */
  lemma ManagedImageIs(value: string, path: string)
    requires value == "rw,DH1:" + path
    ensures IsManagedHdf(value, 0) <==> ParseHdf(value, 0).Some?
    ensures IsManagedHdf(value, 1) <==>
            && path != "" && TailAfterPath(path).Some?
            && (|| TailAfterPath(path).value == ",0,0,0,512,0,,uae0"
                || exists n | 4 < n <= |TailAfterPath(path).value| ::
                     && TailAfterPath(path).value[..4] == ",32,"
                     && TailAfterPath(path).value[n..] == ",2,512,0,,uae0"
                     && forall i :: 4 <= i < n ==> '0' <= TailAfterPath(path).value[i] <= '9')
  {
    hide TailAfterPath, IsGeneratedTail, ParseHdf;
    assert value[7..] == path;
    assert value == "rw" + [','] + ("DH1:" + path);
    assert path != "" ==> ("DH1:" + path)[..4] == "DH1:";
    ImageLineIs("rw", "DH1:" + path, 1);
    if path != "" && TailAfterPath(path).Some? {
      GeneratedTailIs(TailAfterPath(path).value);
    } else {
      NothingFollows();
    }
  }

  lemma NothingFollows()
    ensures TailAfterPath("") == None
  {
  }

  lemma GeneratedTailIs(tail: string)
    ensures IsGeneratedTail(tail) <==>
            || tail == ",0,0,0,512,0,,uae0"
            || exists n | 4 < n <= |tail| ::
                 tail[..4] == ",32," && tail[n..] == ",2,512,0,,uae0" && forall i :: 4 <= i < n ==> '0' <= tail[i] <= '9'
  {
    hide SkipDigits;
    if IsGeneratedTail(tail) && tail != TAIL_RDB {
      assert tail[..4] == ",32,";
      var n := SurfacesEnd(tail);
    }
    if n :| 4 < n <= |tail| && tail[..4] == ",32," && tail[n..] == ",2,512,0,,uae0" && forall i :: 4 <= i < n ==> '0' <= tail[i] <= '9' {
      SkippedTo(tail, n);
    }
  }

  lemma SkippedTo(tail: string, n: nat)
    requires 4 < n < |tail| && tail[n] == ',' && forall i :: 4 <= i < n ==> '0' <= tail[i] <= '9'
    ensures SkipDigits(tail[4..]) == tail[n..]
  {
    assert tail[4..] == tail[4..n] + tail[n..];
    SkipDigitsOver(tail[4..n], tail[n..]);
  }

  lemma SurfacesEnd(tail: string) returns (n: nat)
    requires |tail| > 4 && '0' <= tail[4] <= '9'
    ensures 4 < n <= |tail| && SkipDigits(tail[4..]) == tail[n..] && forall i :: 4 <= i < n ==> '0' <= tail[i] <= '9'
  {
    var k := SkipDigitsIs(tail[4..]);
    assert tail[4..][0] == tail[4] && tail[4..][k..] == tail[4 + k..];
    n := 4 + k;
    forall i | 4 <= i < n ensures '0' <= tail[i] <= '9' {
      assert tail[4..][i - 4] == tail[i];
    }
  }

  lemma {:induction false} SkipDigitsIs(s: string) returns (n: nat)
    ensures n <= |s| && SkipDigits(s) == s[n..] && forall i :: 0 <= i < n ==> '0' <= s[i] <= '9'
    ensures n < |s| ==> !('0' <= s[n] <= '9')
  {
    if s != "" && IsDigit(s[0]) {
      var m := SkipDigitsIs(s[1..]);
      n := m + 1;
    } else {
      n := 0;
    }
  }

  /** No line is for both units. */
  lemma UnitsApart(value: string)
    ensures !(ParseFolder(value, 0).Some? && ParseFolder(value, 1).Some?)
    ensures !(ParseHdf(value, 0).Some? && ParseHdf(value, 1).Some?)
  {
    hide IndexOf, LastIndexOf, TrimLeft, ParseVolume, Quoted, Unquoted;
    assert Device(0)[2] != Device(1)[2];
  }

  /** A floppy line sets its drive to the path it names, whatever was set before; nothing else changes. */
  lemma FloppyLoads(s: State, line: string, unit: nat, path: string, host: Host)
    requires unit < 2 && ParseKeyValue(line) == Some(KeyValue(if unit == 0 then "floppy0" else "floppy1", path))
    ensures var read := if |path| <= 4095 then path else path[..4095];
            LoadLine(s, line, host) == if unit == 0 then s.(floppy0 := read) else s.(floppy1 := read)
  {
    hide ParseKeyValue;
  }

  /** A managed folder line gives its unit the folder and the volume and takes its image away; nothing else changes. */
  lemma FolderLoads(s: State, line: string, value: string, unit: nat, f: Folder, host: Host)
    requires ParseKeyValue(line) == Some(KeyValue("filesystem2", value))
    requires unit < 2 && IsManagedFolder(value, unit) && ParseFolder(value, unit) == Some(f)
    ensures var d := Drive(f.path, "", f.volume);
            LoadLine(s, line, host) == if unit == 0 then s.(drive0 := d) else s.(drive1 := d)
  {
    hide ParseFolder, ParseKeyValue;
    UnitsApart(value);
  }

  /** A managed image line gives its unit the image, or the folder if it names one; the volume and all else stay. */
  lemma ImageLoads(s: State, line: string, value: string, unit: nat, path: string, host: Host)
    requires ParseKeyValue(line) == Some(KeyValue("hardfile2", value))
    requires unit < 2 && IsManagedHdf(value, unit) && ParseHdf(value, unit) == Some(path)
    ensures var volume := (if unit == 0 then s.drive0 else s.drive1).volume;
            var d := if path != "" && host.isDirectory(path) then Drive(path, "", volume) else Drive("", path, volume);
            LoadLine(s, line, host) == if unit == 0 then s.(drive0 := d) else s.(drive1 := d)
  {
    hide ParseHdf, TailAfterPath, IsGeneratedTail, ParseKeyValue;
    UnitsApart(value);
  }
}
