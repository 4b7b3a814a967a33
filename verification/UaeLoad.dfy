/** What decides the options a file loads to: for each of them the last line that names it. */
module UaeLoad {
  import opened Optional
  import opened Text
  import opened UaeLine
  import opened UaeFile
  import opened UaeState

  /** The line sets this key. */
  predicate Names(line: string, key: string) {
    ParseKeyValue(line).Some? && ParseKeyValue(line).value.key == key
  }

  lemma {:induction false} OthersLeavePuae(s: State, lines: seq<string>, key: string, host: Host)
    requires IsPuaeKey(key) && DistinctKeys(s.entries) && forall l :: l in lines ==> !Names(l, key)
    ensures var r := LoadLines(s, lines, host);
            DistinctKeys(r.entries) && forall v :: Entry(key, v) in r.entries <==> Entry(key, v) in s.entries
    decreases |lines|
  {
    hide ParseKeyValue, IsManagedFolder, IsManagedHdf, SetEntry, DistinctKeys;
    if lines != [] {
      LineKeepsDistinct(s, lines[0], host);
      OneOtherLine(s, lines[0], key, host);
      OthersLeavePuae(LoadLine(s, lines[0], host), lines[1..], key, host);
    }
  }

  lemma DrivesKeepEntries(s: State, value: string, host: Host)
    ensures LoadFolder(s, value).entries == s.entries && LoadHdf(s, value, host).entries == s.entries
  {
    hide IsManagedFolder, IsManagedHdf, ParseFolder, ParseHdf;
  }

  lemma OneOtherLine(s: State, line: string, key: string, host: Host)
    requires DistinctKeys(s.entries) && !Names(line, key)
    ensures forall v :: Entry(key, v) in LoadLine(s, line, host).entries <==> Entry(key, v) in s.entries
  {
    hide ParseKeyValue, SetEntry, DistinctKeys, LoadFolder, LoadHdf;
    match ParseKeyValue(line)
    case None =>
    case Some(KeyValue(k, v)) =>
      DrivesKeepEntries(s, v, host);
      SetEntryIs(s.entries, k, v);
  }

  lemma LineKeepsDistinct(s: State, line: string, host: Host)
    requires DistinctKeys(s.entries)
    ensures DistinctKeys(LoadLine(s, line, host).entries)
  {
    hide ParseKeyValue, SetEntry, DistinctKeys, LoadFolder, LoadHdf;
    match ParseKeyValue(line)
    case None =>
    case Some(KeyValue(k, v)) =>
      DrivesKeepEntries(s, v, host);
      SetEntryIs(s.entries, k, v);
  }

  lemma PuaeLineSets(s: State, line: string, key: string, value: string, host: Host)
    requires IsPuaeKey(key) && DistinctKeys(s.entries) && ParseKeyValue(line) == Some(KeyValue(key, value))
    ensures LoadLine(s, line, host).entries == SetEntry(s.entries, key, value)
  {
    hide ParseKeyValue, IsManagedFolder, IsManagedHdf, SetEntry, DistinctKeys;
    assert key[0] == 'p';
  }

  lemma {:induction false} LinesKeepDistinct(s: State, lines: seq<string>, host: Host)
    requires DistinctKeys(s.entries)
    ensures DistinctKeys(LoadLines(s, lines, host).entries)
    decreases |lines|
  {
    hide LoadLine, DistinctKeys;
    if lines != [] {
      LineKeepsDistinct(s, lines[0], host);
      LinesKeepDistinct(LoadLine(s, lines[0], host), lines[1..], host);
    }
  }

  /** The last line that names an option decides its value. */
  lemma LastPuaeLineDecides(file: string, key: string, i: nat, host: Host)
    requires IsPuaeKey(key) && i < |Chunks(file)| && Names(Chunks(file)[i], key)
    requires forall j :: i < j < |Chunks(file)| ==> !Names(Chunks(file)[j], key)
    ensures forall v :: Entry(key, v) in LoadText(file, host).entries <==> v == ParseKeyValue(Chunks(file)[i]).value.value
  {
    hide ParseKeyValue, LoadLine, LoadLines, Chunks, Names;
    PuaeLineDecides(Chunks(file), i, key, host);
  }

  /** Without such a line the option is not set. */
  lemma UnnamedIsUnset(file: string, key: string, host: Host)
    requires IsPuaeKey(key) && forall l :: l in Chunks(file) ==> !Names(l, key)
    ensures forall v :: Entry(key, v) !in LoadText(file, host).entries
  {
    hide ParseKeyValue, LoadLine, LoadLines, Chunks, Names;
    EmptyIsDistinct();
    OthersLeavePuae(EMPTY, Chunks(file), key, host);
  }

  lemma PuaeLineDecides(lines: seq<string>, i: nat, key: string, host: Host)
    requires IsPuaeKey(key) && i < |lines| && Names(lines[i], key) && forall j :: i < j < |lines| ==> !Names(lines[j], key)
    ensures forall v :: Entry(key, v) in LoadLines(EMPTY, lines, host).entries <==> v == ParseKeyValue(lines[i]).value.value
  {
    hide ParseKeyValue, LoadLine, SetEntry, DistinctKeys;
    var before, line, after := lines[..i], lines[i], lines[i + 1..];
    assert lines == before + ([line] + after);
    LoadSplits(EMPTY, before, [line] + after, host);
    var s := LoadLines(EMPTY, before, host);
    EmptyIsDistinct();
    LinesKeepDistinct(EMPTY, before, host);
    var value := ParseKeyValue(line).value.value;
    PuaeLineSets(s, line, key, value, host);
    SetEntryIs(s.entries, key, value);
    var t := LoadLine(s, line, host);
    assert ([line] + after)[1..] == after;
    forall l | l in after ensures !Names(l, key) {
      var j :| 0 <= j < |after| && after[j] == l;
      assert lines[i + 1 + j] == l;
    }
    OthersLeavePuae(t, after, key, host);
  }

  lemma EmptyIsDistinct()
    ensures DistinctKeys(EMPTY.entries)
  {
  }
}
