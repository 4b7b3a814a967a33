/** File names for a save that must not overwrite: a number is put before the extension. */
module SaveNames {
  import opened Optional
  import Numerals
  import opened Sequences
  import Text

  const PATH_MAX := 4096
  const LIMIT := 1_000_000

  function Numeral(n: nat): string { Numerals.Numeral(n, 10) }

  // ---------- Parts of a path ----------

  predicate IsSeparator(c: char) { c == '/' || c == '\\' }

  /** The position of the last separator, of either kind; -1 if there is none. */
  function LastSeparator(path: string): (i: int)
    ensures -1 <= i < |path| && (i >= 0 ==> IsSeparator(path[i]))
    ensures forall k :: i < k < |path| ==> !IsSeparator(path[k])
  {
    var slash, backslash := Text.LastIndexOf(path, '/'), Text.LastIndexOf(path, '\\');
    if slash < |path| && backslash < |path| then (if slash > backslash then slash else backslash)
    else if slash < |path| then slash
    else if backslash < |path| then backslash
    else -1
  }

  /** Where the extension begins: at the last dot of the file name, or at the end. */
  function StemLength(path: string): (n: nat)
    ensures LastSeparator(path) < n <= |path| && (n < |path| ==> path[n] == '.')
    ensures forall k :: LastSeparator(path) < k < |path| && (n < k || n == |path|) ==> path[k] != '.'
  {
    var dot := Text.LastIndexOf(path, '.');
    if dot < |path| && dot > LastSeparator(path) then dot else |path|
  }

  function Directory(path: string): string { path[..LastSeparator(path) + 1] }

  function Extension(path: string): string { path[StemLength(path)..] }

  /** The file name without its extension. */
  function BaseName(path: string): string { path[LastSeparator(path) + 1..StemLength(path)] }

  /**
   A path is its directory, the file's name and its extension: the directory ends in the last slash or backslash,
   and the extension begins with the last dot behind it.
   */
  lemma PathParts(path: string)
    ensures path == Directory(path) + BaseName(path) + Extension(path)
    ensures var dir := Directory(path); dir == "" || dir[|dir| - 1] == '/' || dir[|dir| - 1] == '\\'
    ensures var name := BaseName(path) + Extension(path); '/' !in name && '\\' !in name
    ensures var ext := Extension(path); if ext == "" then '.' !in BaseName(path) else ext[0] == '.' && '.' !in ext[1..]
  {
    var sep, n := LastSeparator(path), StemLength(path);
    assert path == path[..sep + 1] + path[sep + 1..n] + path[n..];
    var name := BaseName(path) + Extension(path);
    forall k | 0 <= k < |name| ensures name[k] != '/' && name[k] != '\\' {
      assert name[k] == path[sep + 1 + k];
      assert !IsSeparator(path[sep + 1 + k]);
    }
  }

  /** As it is computed: the last dot is looked for in the file name only. */
  method CopyBasenameNoExt(path: string, cap: nat) returns (r: Option<string>)
    ensures r == if path == "" || BaseName(path) == "" || |BaseName(path)| >= cap then None else Some(BaseName(path))
  {
    if cap == 0 || path == "" {
      return None;
    }
    var base := path[LastSeparator(path) + 1..];
    StemWithinName(path);
    if base == "" {
      return None;
    }
    var len := Text.LastIndexOf(base, '.');
    if len == 0 || len >= cap {
      return None;
    }
    return Some(base[..len]);
  }

  lemma StemWithinName(path: string)
    ensures var base := path[LastSeparator(path) + 1..];
            && Text.LastIndexOf(base, '.') == StemLength(path) - LastSeparator(path) - 1
            && base[..Text.LastIndexOf(base, '.')] == BaseName(path)
  {
    var from, base := LastSeparator(path) + 1, path[LastSeparator(path) + 1..];
    assert forall k :: 0 <= k < |base| ==> base[k] == path[from + k];
    var n := StemLength(path);
    if n < |path| {
      Text.LastIndexOfAt(base, '.', n - from);
    }
    assert base[..n - from] == path[from..n];
  }

  // ---------- Candidates ----------

  /** The path with a suffix put before its extension. */
  function Spliced(path: string, suffix: string): string {
    path[..StemLength(path)] + suffix + Extension(path)
  }

  /** The path with a number put before its extension. */
  function Candidate(path: string, index: nat): string {
    Spliced(path, "-" + Numeral(index))
  }

  method BuildIncrementedPath(path: string, index: nat, cap: nat) returns (r: Option<string>)
    ensures r == if path == "" || |Candidate(path, index)| >= cap then None else Some(Candidate(path, index))
  {
    if cap == 0 || path == "" {
      return None;
    }
    var lastSep, dot := LastSeparator(path), Text.LastIndexOf(path, '.');
    var stemLen := if dot < |path| && dot > lastSep then dot else |path|;
    var suffix, ext := "-" + Numeral(index), path[stemLen..];
    if stemLen + |suffix| + |ext| >= cap {
      return None;
    }
    return Some(path[..stemLen] + suffix + ext);
  }

  /** A suffix is a dash and digits. */
  predicate IsSuffix(s: string) {
    s != "" && forall k :: 0 <= k < |s| ==> !IsSeparator(s[k]) && s[k] != '.'
  }

  lemma SuffixOfIndex(index: nat)
    ensures IsSuffix("-" + Numeral(index))
  {
    var s := "-" + Numeral(index);
    forall k | 0 <= k < |s| ensures !IsSeparator(s[k]) && s[k] != '.' {
      assert k > 0 ==> Numerals.DigitValue(s[k]) < 10 by {
        assert k > 0 ==> s[k] == Numeral(index)[k - 1];
      }
    }
  }

  lemma SeparatorIs(path: string, i: int)
    requires -1 <= i < |path| && (i >= 0 ==> IsSeparator(path[i]))
    requires forall k :: i < k < |path| ==> !IsSeparator(path[k])
    ensures LastSeparator(path) == i
  {
  }

  lemma StemIs(path: string, n: nat)
    requires LastSeparator(path) < n <= |path| && (n < |path| ==> path[n] == '.')
    requires forall k :: LastSeparator(path) < k < |path| && (n < k || n == |path|) ==> path[k] != '.'
    ensures StemLength(path) == n
  {
  }

  lemma SplicedAt(path: string, suffix: string, k: nat)
    requires k < |Spliced(path, suffix)|
    ensures var n, c := StemLength(path), Spliced(path, suffix);
            c[k] == if k < n then path[k] else if k < n + |suffix| then suffix[k - n] else path[k - |suffix|]
  {
  }

  lemma SplicedSeparator(path: string, suffix: string)
    requires IsSuffix(suffix)
    ensures LastSeparator(Spliced(path, suffix)) == LastSeparator(path)
  {
    hide LastSeparator, StemLength, Spliced;
    var sep, c := LastSeparator(path), Spliced(path, suffix);
    SplicedLength(path, suffix);
    forall k | sep < k < |c| ensures !IsSeparator(c[k]) {
      SplicedAt(path, suffix, k);
    }
    if sep >= 0 {
      SplicedAt(path, suffix, sep);
    }
    SeparatorIs(c, sep);
  }

  lemma SplicedLength(path: string, suffix: string)
    ensures |Spliced(path, suffix)| == |path| + |suffix|
  {
  }

  lemma SplicedStem(path: string, suffix: string)
    requires IsSuffix(suffix)
    ensures StemLength(Spliced(path, suffix)) == StemLength(path) + |suffix|
  {
    hide LastSeparator, StemLength, Spliced, IsSeparator;
    var sep, n, c := LastSeparator(path), StemLength(path) + |suffix|, Spliced(path, suffix);
    SplicedLength(path, suffix);
    SplicedSeparator(path, suffix);
    forall k | sep < k < |c| && (n < k || n == |c|) ensures c[k] != '.' {
      SplicedAt(path, suffix, k);
    }
    if n < |c| {
      SplicedAt(path, suffix, n);
    }
    StemIs(c, n);
  }

  lemma Pieces(a: string, s: string, b: string, from: nat)
    requires from <= |a|
    ensures var c := a + s + b;
            c[..from] == a[..from] && c[|a| + |s|..] == b && c[from..|a| + |s|] == a[from..] + s
  {
  }

  lemma SplicedParts(path: string, suffix: string)
    requires IsSuffix(suffix)
    requires LastSeparator(Spliced(path, suffix)) == LastSeparator(path)
    requires StemLength(Spliced(path, suffix)) == StemLength(path) + |suffix|
    ensures var c := Spliced(path, suffix);
            && Directory(c) == Directory(path) && Extension(c) == Extension(path)
            && BaseName(c) == BaseName(path) + suffix
  {
    hide LastSeparator, StemLength, IsSuffix;
    var from, n := LastSeparator(path) + 1, StemLength(path);
    Pieces(path[..n], suffix, path[n..], from);
    assert path[..n][..from] == path[..from] && path[..n][from..] == path[from..n];
  }

  /** A suffix before the extension stays in the file name: directory and extension are those of the path. */
  lemma SuffixStaysInName(path: string, suffix: string)
    requires IsSuffix(suffix)
    ensures var c := Spliced(path, suffix);
            && Directory(c) == Directory(path) && Extension(c) == Extension(path)
            && BaseName(c) == BaseName(path) + suffix
  {
    hide *;
    SplicedSeparator(path, suffix);
    SplicedStem(path, suffix);
    SplicedParts(path, suffix);
  }

  /** Every candidate is a file in the same directory with the same extension, named after the path and the number. */
  lemma CandidateParts(path: string, index: nat)
    ensures Directory(Candidate(path, index)) == Directory(path)
    ensures Extension(Candidate(path, index)) == Extension(path)
    ensures BaseName(Candidate(path, index)) == BaseName(path) + ("-" + Numeral(index))
  {
    SuffixOfIndex(index);
    SuffixStaysInName(path, "-" + Numeral(index));
  }

  /** Candidates for different numbers are different. */
  lemma CandidatesDiffer(path: string, i: nat, j: nat)
    requires i != j
    ensures Candidate(path, i) != Candidate(path, j)
  {
    hide Candidate, BaseName, Directory, Extension;
    CandidateParts(path, i);
    CandidateParts(path, j);
    if Candidate(path, i) == Candidate(path, j) {
      SameTail(BaseName(path), "-" + Numeral(i), "-" + Numeral(j));
      SameTail("-", Numeral(i), Numeral(j));
      Numerals.NumeralsDiffer(i, j, 10);
    }
  }

  lemma SameTail(a: string, s: string, t: string)
    requires a + s == a + t
    ensures s == t
  {
    assert (a + s)[|a|..] == s && (a + t)[|a|..] == t;
  }

  // ---------- The search ----------

  /** Candidate i fits, does not exist, and all before it fit and exist. */
  ghost predicate FirstFree(path: string, files: set<string>, i: nat) {
    && 1 <= i < LIMIT && Candidate(path, i) !in files
    && (forall j :: 1 <= j <= i ==> |Candidate(path, j)| < PATH_MAX)
    && (forall j :: 1 <= j < i ==> Candidate(path, j) in files)
  }

  /** The same with the numbers of the source: paths of at most 4095 characters, and 999,999 attempts. */
  lemma FirstFreeIs(path: string, files: set<string>, i: nat)
    ensures FirstFree(path, files, i) <==>
            && 1 <= i <= 999_999 && Candidate(path, i) !in files
            && (forall j :: 1 <= j < i ==> Candidate(path, j) in files)
            && (forall j :: 1 <= j <= i ==> |Candidate(path, j)| <= 4095)
  {
  }

  /** Looks for the first free candidate, as both the save and its button's label do. */
  method FindFree(path: string, files: set<string>) returns (found: bool, index: nat)
    requires path != ""
    ensures found ==> FirstFree(path, files, index)
    ensures !found ==> forall i :: !FirstFree(path, files, i)
  {
    index := 1;
    while index < LIMIT
      invariant 1 <= index <= LIMIT
      invariant forall j :: 1 <= j < index ==> |Candidate(path, j)| < PATH_MAX && Candidate(path, j) in files
    {
      var candidate := BuildIncrementedPath(path, index, PATH_MAX);
      if candidate == None {
        return false, index;
      }
      if candidate.value !in files {
        return true, index;
      }
      index := index + 1;
    }
    return false, index;
  }

  lemma FirstFreeIsUnique(path: string, files: set<string>, i: nat, j: nat)
    requires FirstFree(path, files, i) && FirstFree(path, files, j)
    ensures i == j
  {
  }

  /** The path a save in sequence uses for a given one. */
  ghost function SequencePath(path: string, files: set<string>): Option<string> {
    if path == "" then None
    else if path !in files then Some(path)
    else if exists i :: FirstFree(path, files, i) then
      var i :| FirstFree(path, files, i);
      Some(Candidate(path, i))
    else None
  }

  predicate IsBeside(path: string, other: string) {
    Directory(other) == Directory(path) && Extension(other) == Extension(path)
  }

  /** The path itself and its candidates. */
  ghost predicate OfFamily(path: string, r: string) {
    r == path || exists i: nat :: r == Candidate(path, i)
  }

  lemma SequencePathIsFree(path: string, files: set<string>)
    ensures var r := SequencePath(path, files); r.Some? ==> r.value !in files && OfFamily(path, r.value)
  {
    hide Candidate;
    if i :| FirstFree(path, files, i) {
      forall j | FirstFree(path, files, j) ensures j == i {
        FirstFreeIsUnique(path, files, i, j);
      }
      assert OfFamily(path, Candidate(path, i));
    }
  }

  lemma FamilyIsBeside(path: string, r: string)
    requires OfFamily(path, r)
    ensures IsBeside(path, r)
  {
    hide Candidate, Directory, Extension, BaseName;
    if r != path {
      var i: nat :| r == Candidate(path, i);
      CandidateParts(path, i);
    }
  }

  /** The choice depends on the files of the family only. */
  lemma SameChoice(path: string, files: set<string>, others: set<string>)
    requires forall r :: OfFamily(path, r) ==> (r in files <==> r in others)
    ensures SequencePath(path, files) == SequencePath(path, others)
  {
    hide Candidate;
    assert OfFamily(path, path);
    forall i ensures FirstFree(path, files, i) <==> FirstFree(path, others, i) {
      SameFirstFree(path, files, others, i);
    }
    if i :| FirstFree(path, files, i) {
      forall j | FirstFree(path, files, j) || FirstFree(path, others, j) ensures j == i {
        FirstFreeIsUnique(path, files, i, j);
      }
    }
  }

  lemma SameFirstFree(path: string, files: set<string>, others: set<string>, i: nat)
    requires forall r :: OfFamily(path, r) ==> (r in files <==> r in others)
    ensures FirstFree(path, files, i) <==> FirstFree(path, others, i)
  {
    hide Candidate;
    forall j: nat ensures Candidate(path, j) in files <==> Candidate(path, j) in others {
      assert OfFamily(path, Candidate(path, j));
    }
  }

  // ---------- Families of different paths ----------

  /** The parts before the extension differ somewhere. */
  predicate Apart(path: string, other: string) {
    exists t :: 0 <= t < StemLength(path) && t < StemLength(other) && path[t] != other[t]
  }

  lemma FamilyKeepsStem(path: string, r: string, t: nat)
    requires OfFamily(path, r) && t < StemLength(path)
    ensures t < |r| && r[t] == path[t]
  {
    hide StemLength;
    if r != path {
      var i: nat :| r == Candidate(path, i);
      SplicedLength(path, "-" + Numeral(i));
      SplicedAt(path, "-" + Numeral(i), t);
    }
  }

  /** Then the paths share no candidate, whatever the numbers. */
  lemma FamiliesApart(path: string, other: string, r: string)
    requires Apart(path, other) && OfFamily(path, r)
    ensures !OfFamily(other, r)
  {
    hide StemLength, OfFamily;
    var t :| 0 <= t < StemLength(path) && t < StemLength(other) && path[t] != other[t];
    FamilyKeepsStem(path, r, t);
    if OfFamily(other, r) {
      FamilyKeepsStem(other, r, t);
    }
  }

  lemma DotEnds(s: string, tail: string)
    requires tail != "" && tail[0] == '.' && forall k :: 0 < k < |tail| ==> tail[k] != '.' && !IsSeparator(tail[k])
    ensures StemLength(s + tail) == |s| && Extension(s + tail) == tail
  {
    hide LastSeparator, StemLength;
    var path := s + tail;
    var sep := LastSeparator(path);
    forall k | |s| <= k < |path| ensures !IsSeparator(path[k]) && (k > |s| ==> path[k] != '.') {
      assert path[k] == tail[k - |s|];
    }
    assert path[|s|] == '.' && sep < |s|;
    StemIs(path, |s|);
    assert path[|s|..] == tail;
  }

  /** A free path is kept; otherwise the result is the first free candidate, if there is one. */
  method ResolveIncrementedPath(path: string, files: set<string>) returns (r: Option<string>)
    ensures path == "" ==> r == None
    ensures path != "" && path !in files ==> r == Some(path)
    ensures path != "" && path in files ==>
              && (forall i :: FirstFree(path, files, i) ==> r == Some(Candidate(path, i)))
              && (r == None <==> forall i :: !FirstFree(path, files, i))
    ensures r == SequencePath(path, files)
  {
    if path == "" {
      return None;
    }
    if path !in files {
      return Some(path);
    }
    var found, index := FindFree(path, files);
    if found {
      forall i | FirstFree(path, files, i) ensures i == index {
        FirstFreeIsUnique(path, files, i, index);
      }
      return Some(Candidate(path, index));
    }
    return None;
  }

  /** The label names the very file the save would then write, unless the label itself is too long. */
  method BuildSequenceButtonLabel(path: string, files: set<string>) returns (text: Option<string>)
    ensures forall i :: path != "" && FirstFree(path, files, i) ==>
              var name := "Save as " + BaseName(Candidate(path, i));
              text == if |name| < PATH_MAX then Some(name) else None
    ensures (path == "" || forall i :: !FirstFree(path, files, i)) ==> text == None
  {
    if path == "" {
      return None;
    }
    var found, index := FindFree(path, files);
    if !found {
      return None;
    }
    forall i | FirstFree(path, files, i) ensures i == index {
      FirstFreeIsUnique(path, files, i, index);
    }
    CandidateParts(path, index);
    var basename := CopyBasenameNoExt(Candidate(path, index), PATH_MAX);
    if |"Save as " + basename.value| >= PATH_MAX {
      return None;
    }
    return Some("Save as " + basename.value);
  }

  // ---------- The search finds something ----------

  function CandidatesTo(path: string, n: nat): set<string> {
    if n == 0 then {} else CandidatesTo(path, n - 1) + {Candidate(path, n)}
  }

  lemma {:induction false} CandidatesToHas(path: string, n: nat, c: string)
    ensures c in CandidatesTo(path, n) <==> exists i: nat :: 1 <= i <= n && c == Candidate(path, i)
  {
    if n > 0 {
      CandidatesToHas(path, n - 1, c);
    }
  }

  lemma {:induction false} CandidatesToSize(path: string, n: nat)
    ensures |CandidatesTo(path, n)| == n
  {
    if n > 0 {
      CandidatesToSize(path, n - 1);
      CandidatesToHas(path, n - 1, Candidate(path, n));
      forall i: nat | 1 <= i <= n - 1 ensures Candidate(path, i) != Candidate(path, n) {
        CandidatesDiffer(path, i, n);
      }
    }
  }

  lemma CandidateFits(path: string, i: nat)
    requires i < LIMIT && |path| + 7 < PATH_MAX
    ensures |Candidate(path, i)| < PATH_MAX
  {
    assert Numerals.Power(10, 3) == 1000 && Numerals.Power(10, 6) == LIMIT;
    Numerals.NumeralLength(i, 10, 6);
  }

  lemma {:induction false} LeastFree(path: string, files: set<string>, n: nat) returns (i: nat)
    requires |path| + 7 < PATH_MAX && 1 <= n < LIMIT && Candidate(path, n) !in files
    ensures FirstFree(path, files, i)
  {
    if j: nat :| 1 <= j < n && Candidate(path, j) !in files {
      i := LeastFree(path, files, j);
    } else {
      i := n;
      forall j | 1 <= j <= i ensures |Candidate(path, j)| < PATH_MAX {
        CandidateFits(path, j);
      }
    }
  }

  /** With fewer files than numbers, and room for one in the path, the search always succeeds. */
  lemma SearchFindsOne(path: string, files: set<string>)
    requires |path| + 7 < PATH_MAX && |files| < 999_999
    ensures exists i :: FirstFree(path, files, i)
  {
    var all := CandidatesTo(path, LIMIT - 1);
    CandidatesToSize(path, LIMIT - 1);
    if all <= files {
      SubsetSize(all, files);
    } else {
      var c :| c in all && c !in files;
      CandidatesToHas(path, LIMIT - 1, c);
      var n: nat :| 1 <= n <= LIMIT - 1 && c == Candidate(path, n);
      var i := LeastFree(path, files, n);
    }
  }
}
