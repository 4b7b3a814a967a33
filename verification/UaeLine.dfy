/**
 One line of a UAE configuration file: splitting it into key and value, deciding whether the debugger
 manages it, and reading the drive lines it manages. Buffer sizes are those of the source.
 */
module UaeLine {
  import opened Optional
  import opened Sequences
  import opened Text

  const KEY_MAX := 1023
  const VALUE_MAX := 7167
  const PATH_LIMIT := 4095
  const VOLUME_LIMIT := 63
  const MIDDLE_MAX := 1023

  datatype KeyValue = KeyValue(key: string, value: string)

  function ParseKeyValue(line: string): (r: Option<KeyValue>)
    ensures r.Some? ==> r.value.key != ""
  {
    var p := TrimLeft(line);
    if p == "" || p[0] == ';' || p[0] == '#' then None
    else
      var eq := IndexOf(p, '=');
      if eq == |p| then None
      else
        var key := TrimLeft(TrimRight(Take(p[..eq], KEY_MAX)));
        var value := TrimRight(Take(TrimLeft(p[eq + 1..]), VALUE_MAX));
        if key == "" then None else Some(KeyValue(key, value))
  }

  function Digit(unit: nat): char
    requires unit < 10
  {
    '0' + unit as char
  }

  /** The text of a device name, DH0: or DH1: */
  function Device(unit: nat): (d: string)
    requires unit < 2
    ensures |d| == 4
  {
    "DH" + [Digit(unit)] + ":"
  }

  predicate IsQuote(c: char) {
    c == '"' || c == '\''
  }

  /** The text between an opening quote and the last such quote, unescaped; None if there is none. */
  function Quoted(path: string): Option<string>
    requires path != ""
  {
    if !IsQuote(path[0]) then None
    else
      var body := path[1..];
      var end := LastIndexOf(body, path[0]);
      if end < |body| && end > 0 then Some(Take(Unescape(body[..end]), PATH_LIMIT)) else None
  }

  /** A quote that opens but is not closed is still skipped. */
  function Unquoted(path: string): string
    requires path != ""
  {
    if IsQuote(path[0]) then path[1..] else path
  }

  // ---------- filesystem2 ----------

  datatype Folder = Folder(path: string, volume: string)

  function ParseFolder(value: string, unit: nat): Option<Folder>
    requires unit < 2
  {
    var comma := IndexOf(value, ',');
    if comma == |value| then None
    else
      var rest := value[comma + 1..];
      var last := LastIndexOf(rest, ',');
      var middle := TrimLeft(Take(rest[..last], MIDDLE_MAX));
      if !StartsWith(middle, Device(unit)) then None
      else ParseVolume(middle[4..])
  }

  /** What follows the device: the volume up to a colon, then the path. */
  function ParseVolume(s: string): Option<Folder> {
    var colon := IndexOf(s, ':');
    if colon == |s| || colon == 0 then None
    else
      var path := s[colon + 1..];
      if path == "" then None
      else
        var folder := match Quoted(path)
          case Some(q) => q
          case None => Take(Unquoted(path), PATH_LIMIT);
        Some(Folder(folder, Take(s[..colon], VOLUME_LIMIT)))
  }

  predicate IsManagedFolder(value: string, unit: nat)
    requires unit < 2
  {
    && StartsWith(value, "rw,")
    && value[LastIndexOf(value, ',')..] == ",0"
    && ParseFolder(value, unit).Some?
  }

  // ---------- hardfile2 ----------

  function ParseHdf(value: string, unit: nat): Option<string>
    requires unit < 2
  {
    var comma := IndexOf(value, ',');
    if comma == |value| then None
    else
      var rest := value[comma + 1..];
      if !StartsWith(rest, Device(unit)) || rest[4..] == "" then None
      else
        var path := rest[4..];
        match Quoted(path)
        case Some(q) => Some(q)
        case None =>
          var p := Unquoted(path);
          Some(Take(p[..IndexOf(p, ',')], PATH_LIMIT))
  }

  function TailAfterPath(path: string): Option<string> {
    if path == "" then None
    else if IsQuote(path[0]) then
      var body := path[1..];
      var end := LastIndexOf(body, path[0]);
      if end == |body| || end == 0 then None else Some(body[end + 1..])
    else
      var comma := IndexOf(path, ',');
      if comma == |path| then None else Some(path[comma..])
  }

  const TAIL_RDB := ",0,0,0,512,0,,uae0"
  const TAIL_END := ",2,512,0,,uae0"

  predicate IsDigit(c: char) {
    '0' <= c <= '9'
  }

  function SkipDigits(s: string): string {
    if s != "" && IsDigit(s[0]) then SkipDigits(s[1..]) else s
  }

  predicate IsGeneratedTail(tail: string) {
    || tail == TAIL_RDB
    || (&& StartsWith(tail, ",32,")
        && |tail| > 4 && IsDigit(tail[4])
        && SkipDigits(tail[4..]) == TAIL_END)
  }

  predicate IsManagedHdf(value: string, unit: nat)
    requires unit < 2
  {
    if unit == 0 then ParseHdf(value, 0).Some?
    else
      && StartsWith(value, "rw,DH1:")
      && TailAfterPath(value[7..]).Some?
      && IsGeneratedTail(TailAfterPath(value[7..]).value)
      && ParseHdf(value, 1).Some?
  }

  // ---------- Which lines are managed ----------

  predicate IsPuaeKey(key: string) {
    StartsWith(key, "puae_")
  }

  predicate IsFloppyKey(key: string) {
    key == "floppy0" || key == "floppy1"
  }

  predicate IsFloppyTypeKey(key: string) {
    StartsWith(key, "floppy") && |key| > 6 && IsDigit(key[6]) && key[7..] == "type"
  }

  predicate IsManagedValue(kv: KeyValue) {
    || IsPuaeKey(kv.key)
    || IsFloppyKey(kv.key)
    || IsFloppyTypeKey(kv.key)
    || kv.key == "nr_floppies"
    || (kv.key == "filesystem2" && (IsManagedFolder(kv.value, 0) || IsManagedFolder(kv.value, 1)))
    || (kv.key == "hardfile2" && (IsManagedHdf(kv.value, 0) || IsManagedHdf(kv.value, 1)))
  }

  /** The lines a save drops. */
  predicate IsManaged(line: string) {
    match ParseKeyValue(line)
    case None => false
    case Some(kv) => IsManagedValue(kv)
  }

  // ---------- The same, in the text's own terms ----------

  /** A line without an equals sign, or whose first character behind the blanks begins a comment, says nothing. */
  lemma CommentSaysNothing(line: string, n: nat)
    requires n < |line| && (forall i :: 0 <= i < n ==> line[i] == ' ' || line[i] == '\t')
    requires line[n] == ';' || line[n] == '#' || '=' !in line
    ensures ParseKeyValue(line) == None
  {
    var m := TrimLeftIs(line);
    if line[n] == ';' || line[n] == '#' {
      assert m == n;
    } else {
      assert '=' !in line[m..];
    }
  }

  /**
   Any other line is split at its first equals sign; each side loses the white space around it, the key is cut
   to 1023 characters and the value to 7167, and a line without a key says nothing.
   */
  lemma ParseIs(before: string, after: string)
    requires '=' !in before
    requires before != "" && before[0] != ' ' && before[0] != '\t' && before[0] != ';' && before[0] != '#'
    ensures var key := TrimRight(if |before| <= 1023 then before else before[..1023]);
            var left := TrimLeft(after);
            var value := TrimRight(if |left| <= 7167 then left else left[..7167]);
            ParseKeyValue(before + "=" + after) == if key == "" then None else Some(KeyValue(key, value))
  {
    hide ParseKeyValue, TrimRight, TrimLeft, IndexOf;
    var line, cut := before + ['='] + after, Take(before, KEY_MAX);
    assert before + "=" + after == line;
    Around(before, '=', after);
    assert line[0] == before[0];
    NoBlankFirst(line);
    IndexOfAt(line, '=', |before|);
    ParseByParts(line, |before|);
    var n := TrimRightIs(cut);
    if n > 0 {
      NoBlankFirst(cut[..n]);
    } else {
      NothingTrimmed();
    }
  }

  lemma NoBlankFirst(s: string)
    requires s != "" && !IsBlank(s[0])
    ensures TrimLeft(s) == s
  {
  }

  lemma NothingTrimmed()
    ensures TrimLeft("") == ""
  {
  }

  /** Which keys are managed. */
  lemma ManagedKeyIs(key: string, value: string)
    ensures IsPuaeKey(key) <==> |key| >= 5 && key[..5] == "puae_"
    ensures key != "filesystem2" && key != "hardfile2" ==>
              (IsManagedValue(KeyValue(key, value)) <==>
               || (|key| >= 5 && key[..5] == "puae_")
               || key in {"floppy0", "floppy1", "nr_floppies"}
               || (exists d :: '0' <= d <= '9' && key == "floppy" + [d] + "type"))
  {
    if IsFloppyTypeKey(key) {
      assert key == "floppy" + [key[6]] + "type";
    }
    if d :| '0' <= d <= '9' && key == "floppy" + [d] + "type" {
      assert key[6] == d && key[7..] == "type" && "floppy" <= key;
    }
  }

  // ---------- Lines of the form the writer prints ----------

  /** Text that survives trimming on both sides and holds no line break. */
  predicate Clean(s: string) {
    '\n' !in s && (s == "" || (!IsBlank(s[0]) && !IsTrailing(s[|s| - 1])))
  }

  lemma TrimLeftClean(s: string)
    requires s == "" || !IsBlank(s[0])
    ensures TrimLeft(s) == s
  {
  }

  lemma TrimRightClean(s: string)
    requires s == "" || !IsTrailing(s[|s| - 1])
    ensures TrimRight(s) == s
  {
  }

  lemma {:induction false} TrimLeftIsSuffix(s: string)
    ensures TrimLeft(s) == s[|s| - |TrimLeft(s)|..]
  {
    if s != "" && IsBlank(s[0]) {
      TrimLeftIsSuffix(s[1..]);
    }
  }

  lemma {:induction false} TrimRightIsPrefix(s: string)
    ensures TrimRight(s) == s[..|TrimRight(s)|]
  {
    if s != "" && IsTrailing(s[|s| - 1]) {
      TrimRightIsPrefix(s[..|s| - 1]);
    }
  }

  lemma TrimTakeNewline(s: string, n: nat)
    ensures TrimRight(Take(s + "\n", n)) == TrimRight(Take(s, n))
  {
    if |s| < n {
      assert Take(s + "\n", n) == s + "\n";
      TrimRightNewline(s);
    } else {
      assert Take(s + "\n", n) == Take(s, n);
    }
  }

  lemma TrimLeftNewline(s: string)
    ensures TrimLeft(s + "\n") == TrimLeft(s) + "\n"
  {
    if s != "" && IsBlank(s[0]) {
      assert (s + "\n")[1..] == s[1..] + "\n";
    }
  }

  /** What is read from a line whose first '=' comes at a known place. */
  function KeyValueAt(p: string, eq: nat): Option<KeyValue>
    requires eq < |p|
  {
    var key := TrimLeft(TrimRight(Take(p[..eq], KEY_MAX)));
    if key == "" then None else Some(KeyValue(key, TrimRight(Take(TrimLeft(p[eq + 1..]), VALUE_MAX))))
  }

  lemma ParseByParts(line: string, eq: nat)
    requires TrimLeft(line) != "" && TrimLeft(line)[0] != ';' && TrimLeft(line)[0] != '#'
    requires IndexOf(TrimLeft(line), '=') == eq < |TrimLeft(line)|
    ensures ParseKeyValue(line) == KeyValueAt(TrimLeft(line), eq)
  {
  }

  /** A printed key=value line is read back as that key and the trimmed value. */
  lemma ParsePrinted(key: string, value: string)
    requires key != "" && Clean(key) && '=' !in key && key[0] != ';' && key[0] != '#' && |key| <= KEY_MAX
    ensures ParseKeyValue(key + "=" + value + "\n") == Some(KeyValue(key, TrimRight(Take(TrimLeft(value), VALUE_MAX))))
    ensures Clean(value) && |value| <= VALUE_MAX ==> ParseKeyValue(key + "=" + value + "\n") == Some(KeyValue(key, value))
  {
    hide ParseKeyValue, TrimLeft, TrimRight, IndexOf, Take;
    var line := key + ['='] + (value + "\n");
    assert key + "=" + value + "\n" == line;
    Around(key, '=', value + "\n");
    assert line[0] == key[0];
    TrimLeftClean(line);
    IndexOfAt(line, '=', |key|);
    ParseByParts(line, |key|);
    TrimLeftNewline(value);
    TrimTakeNewline(TrimLeft(value), VALUE_MAX);
    TrimRightClean(key);
    TrimLeftClean(key);
    if Clean(value) && |value| <= VALUE_MAX {
      ValueRead(value);
    }
  }

  lemma ValueRead(value: string)
    requires Clean(value) && |value| <= VALUE_MAX
    ensures TrimRight(Take(TrimLeft(value), VALUE_MAX)) == value
  {
    hide TrimLeft, TrimRight;
    TrimLeftClean(value);
    TrimRightClean(value);
  }

  lemma IndexOfNewline(s: string)
    ensures IndexOf(s, '=') < |s| ==> IndexOf(s + "\n", '=') == IndexOf(s, '=')
    ensures IndexOf(s, '=') == |s| ==> IndexOf(s + "\n", '=') == |s| + 1
  {
    var i := IndexOf(s, '=');
    if i < |s| {
      IndexOfAt(s + "\n", '=', i);
    }
  }

  /** Adding the missing line break at the end of a file does not change what a line means. */
  lemma ParseWithNewline(line: string)
    ensures ParseKeyValue(line + "\n") == ParseKeyValue(line)
  {
    hide TrimLeft, TrimRight, IndexOf, Take;
    TrimLeftNewline(line);
    var p := TrimLeft(line);
    IndexOfNewline(p);
    if p == "" {
      assert p + "\n" == "\n";
    } else {
      assert (p + "\n")[0] == p[0];
      var eq := IndexOf(p, '=');
      if eq < |p| {
        SliceAppend(p, "\n", eq);
        SliceAppend(p, "\n", eq + 1);
        TrimLeftNewline(p[eq + 1..]);
        TrimTakeNewline(TrimLeft(p[eq + 1..]), VALUE_MAX);
      }
    }
  }

  // ---------- The drive lines the writer prints ----------

  function QuotedPath(path: string): string {
    ['"'] + Escape(path) + ['"']
  }

  function FolderMiddle(unit: nat, volume: string, folder: string): string
    requires unit < 2
  {
    Device(unit) + (volume + [':'] + QuotedPath(folder))
  }

  function FolderValue(unit: nat, volume: string, folder: string): string
    requires unit < 2
  {
    "rw" + [','] + (FolderMiddle(unit, volume, folder) + [','] + "0")
  }

  function HdfValue(unit: nat, path: string, tail: string): string
    requires unit < 2
  {
    "rw" + [','] + (Device(unit) + (QuotedPath(path) + tail))
  }

  /** The tail of a disk image without a partition table, for a number of surfaces. */
  function SurfacesTail(surfaces: string): string {
    ",32," + (surfaces + TAIL_END)
  }

  predicate IsTail(tail: string) {
    tail == TAIL_RDB || tail == SurfacesTail("1") || tail == SurfacesTail("16")
  }

  lemma SkipDigitsOver(digits: string, rest: string)
    requires (forall i :: 0 <= i < |digits| ==> IsDigit(digits[i])) && rest != "" && !IsDigit(rest[0])
    ensures SkipDigits(digits + rest) == rest
  {
    if digits == "" {
      assert digits + rest == rest;
    } else {
      assert (digits + rest)[1..] == digits[1..] + rest;
    }
  }

  lemma SurfacesTailIsGenerated(digits: string)
    requires digits != "" && (forall i :: 0 <= i < |digits| ==> IsDigit(digits[i]))
    ensures IsGeneratedTail(SurfacesTail(digits)) && '"' !in SurfacesTail(digits) && '\n' !in SurfacesTail(digits)
  {
    SkipDigitsOver(digits, TAIL_END);
    assert SurfacesTail(digits)[4..] == digits + TAIL_END;
    assert SurfacesTail(digits)[..4] == ",32,";
  }

  lemma TailsAreGenerated(tail: string)
    requires IsTail(tail)
    ensures IsGeneratedTail(tail) && '"' !in tail && '\n' !in tail
    ensures 0 < |tail| <= 20 && tail[0] == ',' && tail[|tail| - 1] == '0'
  {
    hide SurfacesTail;
    SurfacesTailIsGenerated("1");
    SurfacesTailIsGenerated("16");
    SurfacesTailEnds("1");
    SurfacesTailEnds("16");
  }

  lemma SurfacesTailEnds(digits: string)
    ensures |SurfacesTail(digits)| == |digits| + 18 && SurfacesTail(digits)[0] == ',' && SurfacesTail(digits)[|digits| + 17] == '0'
  {
  }

  /** A quoted path followed by anything without quotes is read back whole. */
  lemma QuotedRead(path: string, tail: string)
    requires path != "" && '"' !in tail
    ensures Quoted(QuotedPath(path) + tail) == Some(Take(path, PATH_LIMIT))
    ensures TailAfterPath(QuotedPath(path) + tail) == Some(tail)
    ensures QuotedPath(path) + tail != "" && (QuotedPath(path) + tail)[0] == '"'
  {
    var esc := Escape(path);
    var s := QuotedPath(path) + tail;
    assert s == ['"'] + (esc + ['"'] + tail);
    var body := s[1..];
    assert body == esc + ['"'] + tail;
    Around(esc, '"', tail);
    forall j | |esc| < j < |body|
      ensures body[j] != '"'
    {
      assert body[j] == tail[j - |esc| - 1];
    }
    LastIndexOfAt(body, '"', |esc|);
    UnescapeEscape(path);
  }

  lemma FirstComma(rest: string)
    ensures var v := "rw" + [','] + rest;
            IndexOf(v, ',') == 2 && v[3..] == rest && StartsWith(v, "rw,")
  {
    var v := "rw" + [','] + rest;
    Around("rw", ',', rest);
    IndexOfAt(v, ',', 2);
  }

  lemma DeviceOnly(unit: nat, other: nat, s: string)
    requires unit < 2 && other < 2
    ensures StartsWith(Device(unit) + s, Device(other)) <==> unit == other
    ensures (Device(unit) + s)[4..] == s
  {
    assert (Device(unit) + s)[2] == Digit(unit);
    assert Device(other)[2] == Digit(other);
    assert (Device(unit) + s)[..4] == Device(unit);
  }

  /** A quoted path is read from an HDF line whatever follows it, as long as that has no quote. */
  lemma HdfPathRead(unit: nat, path: string, rest: string)
    requires unit < 2 && path != "" && |path| <= PATH_LIMIT && '"' !in rest
    ensures ParseHdf(HdfValue(unit, path, rest), unit) == Some(path)
    ensures ParseHdf(HdfValue(unit, path, rest), 1 - unit) == None
  {
    hide IndexOf, Quoted, TailAfterPath, QuotedPath, StartsWith, Device;
    var quoted := QuotedPath(path) + rest;
    QuotedRead(path, rest);
    FirstComma(Device(unit) + quoted);
    DeviceOnly(unit, unit, quoted);
    DeviceOnly(unit, 1 - unit, quoted);
  }

  /** A printed HDF line is read back as its path, by the unit it was printed for and by no other. */
  lemma HdfRead(unit: nat, path: string, tail: string)
    requires unit < 2 && path != "" && |path| <= PATH_LIMIT && IsTail(tail)
    ensures ParseHdf(HdfValue(unit, path, tail), unit) == Some(path)
    ensures IsManagedHdf(HdfValue(unit, path, tail), unit)
    ensures !IsManagedHdf(HdfValue(unit, path, tail), 1 - unit)
  {
    hide ParseHdf, TailAfterPath, IsGeneratedTail, QuotedPath, StartsWith, Device, IsTail;
    TailsAreGenerated(tail);
    HdfPathRead(unit, path, tail);
    QuotedRead(path, tail);
    DriveOne(unit, QuotedPath(path) + tail);
  }

  lemma DriveOne(unit: nat, s: string)
    requires unit < 2
    ensures StartsWith("rw" + [','] + (Device(unit) + s), "rw,DH1:") <==> unit == 1
    ensures ("rw" + [','] + (Device(unit) + s))[7..] == s
  {
    var v := "rw" + [','] + (Device(unit) + s);
    assert v[5] == Digit(unit) && "rw,DH1:"[5] == '1';
    if unit == 1 {
      assert v[..7] == "rw,DH1:";
    }
  }

  predicate IsVolume(volume: string) {
    volume != "" && ':' !in volume && '\n' !in volume && |volume| <= VOLUME_LIMIT
  }

  lemma LastComma(middle: string)
    ensures var rest := middle + [','] + "0";
            LastIndexOf(rest, ',') == |middle| && rest[..|middle|] == middle
    ensures var v := "rw" + [','] + (middle + [','] + "0");
            v[LastIndexOf(v, ',')..] == ",0"
  {
    var rest := middle + [','] + "0";
    Around(middle, ',', "0");
    LastIndexOfAt(rest, ',', |middle|);
    var v := "rw" + [','] + rest;
    LastIndexOfAt(v, ',', 3 + |middle|);
    assert v[3 + |middle|..] == ",0";
  }

  lemma VolumeRead(volume: string, path: string)
    requires IsVolume(volume) && path != ""
    ensures ParseVolume(volume + [':'] + path) ==
            Some(Folder(match Quoted(path) case Some(q) => q case None => Take(Unquoted(path), PATH_LIMIT), volume))
  {
    var s := volume + [':'] + path;
    Around(volume, ':', path);
    IndexOfAt(s, ':', |volume|);
  }

  lemma ParseFolderOfMiddle(unit: nat, other: nat, middle: string)
    requires unit < 2 && other < 2
    requires |middle| >= 4
    requires Take(middle, MIDDLE_MAX) == Device(unit) + middle[4..][..|Take(middle, MIDDLE_MAX)| - 4]
    ensures ParseFolder("rw" + [','] + (middle + [','] + "0"), other) ==
            if other == unit then ParseVolume(Take(middle, MIDDLE_MAX)[4..]) else None
  {
    hide IndexOf, LastIndexOf, Device, ParseVolume;
    FirstComma(middle + [','] + "0");
    LastComma(middle);
    var m := Take(middle, MIDDLE_MAX);
    DeviceOnly(unit, other, middle[4..][..|m| - 4]);
    assert m[0] == 'D' by { DeviceStarts(unit); }
    TrimLeftClean(m);
  }

  lemma DeviceStarts(unit: nat)
    requires unit < 2
    ensures Device(unit)[0] == 'D'
  {
  }

  /**
   A printed folder line is recognised by the unit it was printed for and by no other; it is read
   back whole when the part between its commas fits the reader's buffer.
   */
  lemma FolderRead(unit: nat, volume: string, folder: string)
    requires unit < 2 && IsVolume(volume) && folder != ""
    ensures IsManagedFolder(FolderValue(unit, volume, folder), unit)
    ensures !IsManagedFolder(FolderValue(unit, volume, folder), 1 - unit)
    ensures |FolderMiddle(unit, volume, folder)| <= MIDDLE_MAX ==>
              ParseFolder(FolderValue(unit, volume, folder), unit) == Some(Folder(folder, volume))
  {
    hide ParseVolume, ParseFolder, Device, QuotedPath, LastIndexOf, StartsWith;
    var after := volume + [':'] + QuotedPath(folder);
    var middle := Device(unit) + after;
    var m := Take(middle, MIDDLE_MAX);
    assert middle[4..] == after;
    assert m == Device(unit) + after[..|m| - 4];
    ParseFolderOfMiddle(unit, unit, middle);
    ParseFolderOfMiddle(unit, 1 - unit, middle);
    LastComma(middle);
    FirstComma(middle + [','] + "0");
    assert m[4..] == Take(after, MIDDLE_MAX - 4);
    AfterDeviceRead(volume, folder);
  }

  lemma AfterDeviceRead(volume: string, folder: string)
    requires IsVolume(volume) && folder != ""
    ensures var after := volume + [':'] + QuotedPath(folder);
            && ParseVolume(Take(after, MIDDLE_MAX - 4)).Some?
            && (|after| <= MIDDLE_MAX - 4 ==> ParseVolume(after) == Some(Folder(folder, volume)))
  {
    hide ParseVolume, QuotedPath, Quoted;
    var after := volume + [':'] + QuotedPath(folder);
    QuotedLength(folder);
    var path := Take(QuotedPath(folder), MIDDLE_MAX - 4 - |volume| - 1);
    assert Take(after, MIDDLE_MAX - 4) == volume + [':'] + path;
    VolumeRead(volume, path);
    VolumeRead(volume, QuotedPath(folder));
    QuotedRead(folder, "");
    assert QuotedPath(folder) + "" == QuotedPath(folder);
  }

  lemma QuotedLength(path: string)
    ensures |QuotedPath(path)| == |Escape(path)| + 2
  {
  }

  /** What the reader's buffer holds of a folder line that does not fit it: the closing quote is always lost. */
  lemma CutMiddle(unit: nat, volume: string, folder: string)
    requires unit < 2 && IsVolume(volume) && |FolderMiddle(unit, volume, folder)| > MIDDLE_MAX
    ensures var e := Take(Escape(folder), MIDDLE_MAX - 6 - |volume|);
            && |e| == MIDDLE_MAX - 6 - |volume|
            && Take(FolderMiddle(unit, volume, folder), MIDDLE_MAX) == Device(unit) + (volume + [':'] + (['"'] + e))
  {
    var middle := FolderMiddle(unit, volume, folder);
    assert middle == Device(unit) + (volume + [':'] + (['"'] + Escape(folder) + ['"']));
    assert middle[..MIDDLE_MAX] == Device(unit) + (volume + [':'] + (['"'] + Take(Escape(folder), MIDDLE_MAX - 6 - |volume|)));
  }

  /** A quoted path that has lost its closing quote is read whole exactly if what is left is the path itself. */
  lemma UnclosedRead(folder: string, n: nat)
    requires folder != "" && 0 < n <= |Escape(folder)| && n <= PATH_LIMIT
    ensures var path := ['"'] + Take(Escape(folder), n);
            (match Quoted(path) case Some(q) => q case None => Take(Unquoted(path), PATH_LIMIT)) == folder <==>
            Take(Escape(folder), n) == folder && '"' !in folder[1..]
  {
    hide Unescape, Escape, LastIndexOf;
    var e := Take(Escape(folder), n);
    var path := ['"'] + e;
    assert path[1..] == e;
    var end := LastIndexOf(e, '"');
    if end < |e| && end > 0 {
      assert Escape(folder)[end] == '"' && e[..end] == Escape(folder)[..end];
      UnescapePrefix(folder, end);
      if e == folder {
        assert folder[1..][end - 1] == '"';
      }
    } else if e == folder {
      forall k | 0 <= k < |folder[1..]| ensures folder[1..][k] != '"' {
        assert folder[1..][k] == e[k + 1];
      }
    }
  }

  /**
   A folder line too long for the reader's buffer is read back whole if and only if the escaped path,
   cut where the buffer ends, is the path itself and no quote but a leading one is in it.
   */
  lemma LongFolderRead(unit: nat, volume: string, folder: string)
    requires unit < 2 && IsVolume(volume) && folder != "" && |FolderMiddle(unit, volume, folder)| > 1023
    ensures ParseFolder(FolderValue(unit, volume, folder), unit).Some?
    ensures ParseFolder(FolderValue(unit, volume, folder), unit) == Some(Folder(folder, volume)) <==>
            Take(Escape(folder), 1017 - |volume|) == folder && '"' !in folder[1..]
  {
    hide ParseVolume, ParseFolder, Device, QuotedPath, LastIndexOf, StartsWith, Escape;
    var after := volume + [':'] + QuotedPath(folder);
    var middle := Device(unit) + after;
    var n := MIDDLE_MAX - 6 - |volume|;
    var e := Take(Escape(folder), n);
    var m := Take(middle, MIDDLE_MAX);
    CutMiddle(unit, volume, folder);
    assert middle[4..] == after && m == Device(unit) + after[..|m| - 4];
    ParseFolderOfMiddle(unit, unit, middle);
    assert m[4..] == volume + [':'] + (['"'] + e);
    VolumeRead(volume, ['"'] + e);
    UnclosedRead(folder, n);
  }
}
