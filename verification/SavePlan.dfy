/** A RAM save: one file for each kind of memory present, then one for the custom registers. */
module SavePlan {
  import opened Optional
  import opened Bits
  import opened MemExport
  import opened SaveNames
  import opened SaveRun
  import opened Sequences

  type Paths = map<Kind, string>

  // ---------- The planned names ----------

  function Tag(kind: Kind): string {
    match kind
    case Chip => "chip"
    case Slow => "slow"
    case Fast => "fast"
    case Other => "other"
  }

  function ExportFileName(configName: string, kind: Kind): string {
    configName + ("-" + Tag(kind) + ".bin")
  }

  function CustomRegsFileName(configName: string): string {
    configName + "-custom-regs.txt"
  }

  function PathJoin(folder: string, name: string): string {
    (if folder != "" && !IsSeparator(folder[|folder| - 1]) then folder + "/" else folder) + name
  }

  function ExportPath(folder: string, configName: string, kind: Kind): string {
    PathJoin(folder, ExportFileName(configName, kind))
  }

  lemma JoinedText(folder: string, configName: string, s: string)
    ensures PathJoin(folder, configName + s) == PathJoin(folder, configName) + s
  {
    var dir := if folder != "" && !IsSeparator(folder[|folder| - 1]) then folder + "/" else folder;
    assert dir + (configName + s) == dir + configName + s;
  }

  /** The two letters that tell a planned file from the others, and its extension. */
  predicate IsPlanned(stem: string, mark: string, path: string) {
    && |mark| == 2 && |stem| + 3 <= StemLength(path)
    && path[|stem| + 1] == mark[0] && path[|stem| + 2] == mark[1]
    && Extension(path) != ".tmp"
  }

  lemma PlannedParts(stem: string, tag: string, ext: string)
    requires |tag| >= 3 && (ext == ".bin" || ext == ".txt")
    ensures IsPlanned(stem, tag[1..3], stem + (tag + ext))
  {
    hide StemLength, Extension;
    DotEnds(stem + tag, ext);
    assert stem + (tag + ext) == (stem + tag) + ext;
    var path := stem + (tag + ext);
    assert path[|stem| + 1] == tag[1] && path[|stem| + 2] == tag[2];
  }

  function Mark(kind: Kind): string {
    Tag(kind)[..2]
  }

  lemma KindIsPlanned(folder: string, configName: string, kind: Kind)
    ensures IsPlanned(PathJoin(folder, configName), Mark(kind), ExportPath(folder, configName, kind))
  {
    hide PathJoin, IsPlanned;
    var tag := "-" + Tag(kind);
    assert "-" + Tag(kind) + ".bin" == tag + ".bin" && tag[1..3] == Mark(kind);
    JoinedText(folder, configName, tag + ".bin");
    PlannedParts(PathJoin(folder, configName), tag, ".bin");
  }

  lemma RegsArePlanned(folder: string, configName: string)
    ensures IsPlanned(PathJoin(folder, configName), "cu", PathJoin(folder, CustomRegsFileName(configName)))
  {
    hide PathJoin, IsPlanned;
    assert "-custom-regs" + ".txt" == "-custom-regs.txt" && "-custom-regs"[1..3] == "cu";
    JoinedText(folder, configName, "-custom-regs.txt");
    PlannedParts(PathJoin(folder, configName), "-custom-regs", ".txt");
  }

  lemma PlannedApart(stem: string, mark: string, path: string, mark': string, path': string)
    requires IsPlanned(stem, mark, path) && IsPlanned(stem, mark', path') && mark != mark'
    ensures Apart(path, path')
  {
    hide StemLength;
    var t := if mark[0] != mark'[0] then |stem| + 1 else |stem| + 2;
    assert mark[0] == mark'[0] && mark[1] == mark'[1] ==> mark == mark';
    assert path[t] != path'[t];
  }

  /** The files of a save share neither a path nor a numbered candidate, and none is a temporary file. */
  lemma PlannedPathsDiffer(folder: string, configName: string, kind: Kind, other: Kind)
    ensures kind != other ==> Apart(ExportPath(folder, configName, kind), ExportPath(folder, configName, other))
    ensures Apart(ExportPath(folder, configName, kind), PathJoin(folder, CustomRegsFileName(configName)))
    ensures Extension(ExportPath(folder, configName, kind)) != ".tmp"
    ensures Extension(PathJoin(folder, CustomRegsFileName(configName))) != ".tmp"
  {
    hide PathJoin, ExportPath, Apart, StemLength, Extension;
    var stem, regs := PathJoin(folder, configName), PathJoin(folder, CustomRegsFileName(configName));
    KindIsPlanned(folder, configName, kind);
    KindIsPlanned(folder, configName, other);
    RegsArePlanned(folder, configName);
    assert Mark(kind) != "cu" && (kind != other ==> Mark(kind) != Mark(other)) by {
      assert Mark(kind)[0] == Tag(kind)[0] && Mark(kind)[1] == Tag(kind)[1] && Mark(other)[0] == Tag(other)[0];
    }
    PlannedApart(stem, Mark(kind), ExportPath(folder, configName, kind), "cu", regs);
    if kind != other {
      PlannedApart(stem, Mark(kind), ExportPath(folder, configName, kind), Mark(other), ExportPath(folder, configName, other));
    }
  }

  /** The names of the files: the folder, a slash unless it ends in a separator, the configuration, and the kind. */
  lemma PlannedNamesAre(folder: string, configName: string, kind: Kind)
    ensures var dir := if folder == "" || folder[|folder| - 1] == '/' || folder[|folder| - 1] == '\\' then folder else folder + "/";
            && PathJoin(folder, CustomRegsFileName(configName)) == dir + configName + "-custom-regs.txt"
            && ExportPath(folder, configName, kind) ==
               dir + configName + (if kind == Chip then "-chip.bin" else if kind == Slow then "-slow.bin"
                                   else if kind == Fast then "-fast.bin" else "-other.bin")
  {
    TagTexts();
    JoinedText(folder, configName, "-" + Tag(kind) + ".bin");
    JoinedText(folder, configName, "-custom-regs.txt");
  }

  lemma TagTexts()
    ensures "-" + Tag(Chip) + ".bin" == "-chip.bin" && "-" + Tag(Slow) + ".bin" == "-slow.bin"
    ensures "-" + Tag(Fast) + ".bin" == "-fast.bin" && "-" + Tag(Other) + ".bin" == "-other.bin"
  {
  }

  // ---------- The jobs of a save ----------

  ghost function Target(path: string, files: set<string>, saveAsSequence: bool): Option<string> {
    if saveAsSequence then SequencePath(path, files) else Some(path)
  }

  ghost function KindJob(m: Memory, ranges: seq<Range>, kind: Kind, path: string, files: set<string>, saveAsSequence: bool): Job {
    Job(Target(path, files, saveAsSequence),
        if CanExport(m, ranges, kind, EXPORT_CHUNK) then Some(Exported(m, ranges, kind, EXPORT_CHUNK)) else None)
  }

  /** The paths of a plan in the order they are written. */
  function PathsOf(types: seq<Kind>, paths: Paths, regsPath: string): (r: seq<string>)
    requires forall kind :: kind in types ==> kind in paths
    ensures |r| == |types| + 1 && r[|types|] == regsPath && forall i :: 0 <= i < |types| ==> r[i] == paths[types[i]]
  {
    seq(|types|, i requires 0 <= i < |types| => paths[types[i]]) + [regsPath]
  }

  /** The writes a save makes, with the paths as they are chosen among the files there are at first. */
  ghost function Jobs(m: Memory, ranges: seq<Range>, types: seq<Kind>, paths: seq<string>, regs: seq<u8>,
                      files: set<string>, saveAsSequence: bool): (jobs: seq<Job>)
    requires |paths| == |types| + 1
    ensures |jobs| == |paths|
    ensures forall i :: 0 <= i < |types| ==> jobs[i] == KindJob(m, ranges, types[i], paths[i], files, saveAsSequence)
    ensures jobs[|types|] == Job(Target(paths[|types|], files, saveAsSequence), Some(regs))
    ensures forall i :: 0 <= i < |paths| ==> jobs[i].target == Target(paths[i], files, saveAsSequence)
  {
    seq(|types|, i requires 0 <= i < |types| => KindJob(m, ranges, types[i], paths[i], files, saveAsSequence))
    + [Job(Target(paths[|types|], files, saveAsSequence), Some(regs))]
  }

  /** The paths share no candidate, and no candidate is a temporary file. */
  predicate Independent(paths: seq<string>) {
    && (forall i, j :: 0 <= i < j < |paths| ==> Apart(paths[i], paths[j]))
    && (forall i :: 0 <= i < |paths| ==> Extension(paths[i]) != ".tmp")
  }

  lemma TargetInFamily(path: string, files: set<string>, saveAsSequence: bool)
    ensures var t := Target(path, files, saveAsSequence); t.Some? ==> OfFamily(path, t.value)
  {
    SequencePathIsFree(path, files);
  }

  lemma TempIsInNoFamily(path: string, r: string, p: string)
    requires Extension(path) != ".tmp" && OfFamily(path, r)
    ensures r != Temp(p)
  {
    hide Extension, OfFamily;
    FamilyIsBeside(path, r);
    DotEnds(p, ".tmp");
  }

  lemma InOneFamily(paths: seq<string>, i: nat, j: nat, r: string)
    requires Independent(paths) && i < |paths| && j < |paths| && i != j && OfFamily(paths[i], r)
    ensures !OfFamily(paths[j], r)
  {
    hide OfFamily, Apart, Extension;
    if i < j {
      FamiliesApart(paths[i], paths[j], r);
    } else if OfFamily(paths[j], r) {
      FamiliesApart(paths[j], paths[i], r);
    }
  }

  /** No write of a save interferes with another. */
  lemma JobsAreClean(m: Memory, ranges: seq<Range>, types: seq<Kind>, paths: seq<string>, regs: seq<u8>,
                     files: set<string>, saveAsSequence: bool)
    requires |paths| == |types| + 1 && Independent(paths)
    ensures Clean(Jobs(m, ranges, types, paths, regs, files, saveAsSequence))
  {
    hide KindJob, Target, OfFamily, Temp, Extension, Apart;
    var jobs := Jobs(m, ranges, types, paths, regs, files, saveAsSequence);
    forall i, j | 0 <= i < |jobs| && 0 <= j < |jobs| && jobs[i].target.Some? && jobs[j].target.Some?
      ensures i != j ==> jobs[i].target.value != jobs[j].target.value
      ensures Temp(jobs[i].target.value) != jobs[j].target.value
    {
      TargetInFamily(paths[i], files, saveAsSequence);
      TargetInFamily(paths[j], files, saveAsSequence);
      TempIsInNoFamily(paths[j], jobs[j].target.value, jobs[i].target.value);
      if i != j {
        InOneFamily(paths, i, j, jobs[i].target.value);
      }
    }
  }

  /** The files of a path's family are the same. */
  ghost predicate SameFamily(path: string, files: set<string>, others: set<string>) {
    forall r :: OfFamily(path, r) ==> (r in files <==> r in others)
  }

  lemma FamilyStays(path: string, files: Files, job: Job, start: set<string>)
    requires Extension(path) != ".tmp" && SameFamily(path, files.Keys, start)
    requires job.target.Some? ==> !OfFamily(path, job.target.value)
    ensures SameFamily(path, Attempt(files, job).Keys, start)
  {
    hide Extension, OfFamily, Temp, FitsTemp;
    forall r | OfFamily(path, r) ensures r in Attempt(files, job) <==> r in start {
      if job.target.Some? {
        TempIsInNoFamily(path, r, job.target.value);
      }
    }
  }

  lemma PlanIsIndependent(folder: string, configName: string, types: seq<Kind>, paths: Paths)
    requires Distinct(types) && forall kind :: kind in types ==> kind in paths && paths[kind] == ExportPath(folder, configName, kind)
    ensures Independent(PathsOf(types, paths, PathJoin(folder, CustomRegsFileName(configName))))
  {
    hide Apart, Extension, ExportPath, PathJoin;
    var all := PathsOf(types, paths, PathJoin(folder, CustomRegsFileName(configName)));
    forall i | 0 <= i < |all| ensures Extension(all[i]) != ".tmp" {
      var kind := if i < |types| then types[i] else Chip;
      PlannedPathsDiffer(folder, configName, kind, kind);
    }
    forall i, j | 0 <= i < j < |all| ensures Apart(all[i], all[j]) {
      PlannedPathsDiffer(folder, configName, types[i], if j < |types| then types[j] else types[i]);
    }
  }

  /** What is still to be written has the same choices as at first. */
  ghost predicate SameLater(paths: seq<string>, i: nat, files: set<string>, start: set<string>) {
    forall j :: i <= j < |paths| ==> SameFamily(paths[j], files, start)
  }

  lemma LaterStays(paths: seq<string>, i: nat, files: Files, job: Job, start: set<string>, saveAsSequence: bool)
    requires Independent(paths) && i < |paths| && SameLater(paths, i, files.Keys, start)
    requires job.target == Target(paths[i], start, saveAsSequence)
    ensures SameLater(paths, i + 1, Attempt(files, job).Keys, start)
  {
    hide Target, OfFamily, SameFamily, Attempt, Apart, Extension;
    TargetInFamily(paths[i], start, saveAsSequence);
    forall j | i + 1 <= j < |paths| ensures SameFamily(paths[j], Attempt(files, job).Keys, start) {
      if job.target.Some? {
        InOneFamily(paths, i, j, job.target.value);
      }
      FamilyStays(paths[j], files, job, start);
    }
  }

  lemma SameTarget(path: string, files: set<string>, start: set<string>, saveAsSequence: bool)
    requires SameFamily(path, files, start)
    ensures Target(path, files, saveAsSequence) == Target(path, start, saveAsSequence)
  {
    hide SequencePath, OfFamily;
    SameChoice(path, files, start);
  }

  // ---------- Which paths a save leaves ----------

  /** The first n kinds have the paths they were given. */
  ghost predicate PathsUpTo(jobs: seq<Job>, types: seq<Kind>, start: Paths, paths: Paths, n: nat)
    requires |types| <= |jobs|
  {
    && paths.Keys == start.Keys && (forall kind :: kind in start && kind !in types ==> paths[kind] == start[kind])
    && forall j :: 0 <= j < |types| ==>
         && types[j] in start
         && paths[types[j]] == if j < n && jobs[j].target.Some? then jobs[j].target.value else start[types[j]]
  }

  /** Every kind that was reached has the path it was given. */
  ghost predicate PathsAfter(jobs: seq<Job>, types: seq<Kind>, start: Paths, paths: Paths)
    requires |types| <= |jobs|
  {
    && paths.Keys == start.Keys && (forall kind :: kind in start && kind !in types ==> paths[kind] == start[kind])
    && forall j :: 0 <= j < |types| ==>
         && types[j] in start
         && paths[types[j]] == if Reached(jobs, j) && jobs[j].target.Some? then jobs[j].target.value else start[types[j]]
  }

  lemma PathsOneMore(jobs: seq<Job>, types: seq<Kind>, start: Paths, paths: Paths, i: nat)
    requires i < |types| <= |jobs| && Distinct(types) && PathsUpTo(jobs, types, start, paths, i)
    ensures PathsUpTo(jobs, types, start, if jobs[i].target.Some? then paths[types[i] := jobs[i].target.value] else paths, i + 1)
  {
    forall j | 0 <= j < |types| && j != i ensures types[j] != types[i] {
      DistinctAt(types, i, j);
    }
  }

  lemma DistinctAt(types: seq<Kind>, i: nat, j: nat)
    requires Distinct(types) && i < |types| && j < |types| && i != j
    ensures types[i] != types[j]
  {
    if i < j {
      assert types[i] != types[j];
    } else {
      assert types[j] != types[i];
    }
  }

  lemma PathsDone(jobs: seq<Job>, types: seq<Kind>, start: Paths, paths: Paths, n: nat)
    requires n <= |types| <= |jobs| && PathsUpTo(jobs, types, start, paths, n)
    requires if n < |types| then n > 0 && Reached(jobs, n - 1) && !Succeeds(jobs[n - 1])
             else n == 0 || Reached(jobs, n - 1)
    ensures PathsAfter(jobs, types, start, paths)
  {
    forall j | 0 <= j < |types| ensures Reached(jobs, j) <==> j < n {
      if j >= n {
        assert !Succeeds(jobs[n - 1]);
      }
    }
  }

  lemma ReachedNext(jobs: seq<Job>, i: nat)
    requires i < |jobs| && Reached(jobs, i)
    ensures Reached(jobs, i + 1) <==> Succeeds(jobs[i])
  {
  }

  lemma RunNext(files: Files, jobs: seq<Job>, i: nat)
    requires i < |jobs|
    ensures Run(files, jobs[i..]) == if Succeeds(jobs[i]) then Run(Attempt(files, jobs[i]), jobs[i + 1..])
                                     else (false, Attempt(files, jobs[i]))
  {
    hide Attempt, Succeeds;
    assert jobs[i..][0] == jobs[i] && jobs[i..][1..] == jobs[i + 1..];
  }

  lemma RunEnds(files: Files, jobs: seq<Job>)
    ensures Run(files, jobs[|jobs|..]) == (true, files)
    ensures Run(files, jobs[0..]) == Run(files, jobs)
  {
    assert jobs[0..] == jobs;
  }

  // ---------- Saving ----------

  class SavePlan {
    var ranges: seq<Range>
    var exportPaths: map<Kind, string>
    var exportTypes: seq<Kind>
    var customRegsPath: string
    /** The files that exist, by path. */
    var files: map<string, seq<u8>>

    /** Every kind that is present is planned once, with a path that no other file of the save can take. */
    ghost predicate Valid()
      reads this
    {
      && exportTypes == Present(ranges, 4)
      && (forall kind :: kind in exportTypes ==> kind in exportPaths)
      && Independent(PathsOf(exportTypes, exportPaths, customRegsPath))
    }

    /** The writes of a save that starts now. */
    ghost function Plan(m: Memory, regs: seq<u8>, saveAsSequence: bool): (jobs: seq<Job>)
      requires Valid()
      reads this
      ensures |jobs| == |exportTypes| + 1
    {
      Jobs(m, ranges, exportTypes, PathsOf(exportTypes, exportPaths, customRegsPath), regs, files.Keys, saveAsSequence)
    }

    /** The plan made when the folder has been chosen; the paths fit their buffers. */
    constructor (ranges: seq<Range>, folder: string, configName: string, files: Files)
      ensures Valid()
      ensures this.ranges == ranges && this.files == files
      ensures customRegsPath == PathJoin(folder, CustomRegsFileName(configName))
      ensures forall kind :: kind in exportTypes ==> exportPaths[kind] == ExportPath(folder, configName, kind)
    {
      hide Present, ExportPath, PathJoin, Independent;
      this.ranges, this.files := ranges, files;
      var types := PlanTypes(ranges);
      exportTypes := types;
      exportPaths := map kind | kind in types :: ExportPath(folder, configName, kind);
      customRegsPath := PathJoin(folder, CustomRegsFileName(configName));
      new;
      PresentKinds(ranges);
      PlanIsIndependent(folder, configName, types, exportPaths);
    }

    /** Writes the memory of one kind beside its final place and moves it there. */
    method WriteExport(m: Memory, kind: Kind, path: string) returns (ok: bool)
      modifies this`files
      ensures ok <==> ranges != [] && FitsTemp(path) && CanExport(m, ranges, kind, EXPORT_CHUNK)
      ensures files ==
              if ranges == [] || !FitsTemp(path) then old(files)
              else if ok && AnySelected(ranges, kind) then
                (old(files) - {Temp(path)})[path := Exported(m, ranges, kind, EXPORT_CHUNK)]
              else old(files) - {Temp(path)}
    {
      hide CanExport, Exported, AnySelected;
      if ranges == [] || path == "" {
        return false;
      }
      var tempPath := path + ".tmp";
      if |tempPath| >= PATH_MAX {
        return false;
      }
      files := files[tempPath := []];
      var wroteAny: bool, content: seq<u8>;
      ok, wroteAny, content := WriteExportType(m, ranges, kind, EXPORT_CHUNK);
      if !ok {
        files := files - {tempPath};
        return;
      }
      files := files[tempPath := content];
      if !wroteAny {
        files := files - {tempPath};
        return;
      }
      files := (files - {tempPath})[path := files[tempPath]];
    }

    /** Writes the custom registers beside their final place and moves them there. */
    method WriteCustomRegs(regs: seq<u8>, path: string) returns (ok: bool)
      modifies this`files
      ensures ok <==> FitsTemp(path)
      ensures files == if ok then (old(files) - {Temp(path)})[path := regs] else old(files)
    {
      if path == "" {
        return false;
      }
      var tempPath := path + ".tmp";
      if |tempPath| >= PATH_MAX {
        return false;
      }
      files := files[tempPath := []];
      files := files[tempPath := regs];
      files := (files - {tempPath})[path := files[tempPath]];
      ok := true;
    }

    /** Writes the file of one kind, under a path that is not in use when saving in sequence. */
    method SaveType(m: Memory, kind: Kind, saveAsSequence: bool) returns (ok: bool)
      requires kind in exportPaths && AnySelected(ranges, kind)
      modifies this`exportPaths, this`files
      ensures var job := KindJob(m, ranges, kind, old(exportPaths[kind]), old(files).Keys, saveAsSequence);
              && (ok <==> Succeeds(job)) && files == Attempt(old(files), job)
              && exportPaths == if job.target.Some? then old(exportPaths)[kind := job.target.value] else old(exportPaths)
    {
      hide CanExport, Exported, FitsTemp, SequencePath;
      if saveAsSequence {
        var resolved := ResolveIncrementedPath(exportPaths[kind], files.Keys);
        if resolved == None {
          return false;
        }
        exportPaths := exportPaths[kind := resolved.value];
      }
      assert !saveAsSequence ==> exportPaths == exportPaths[kind := exportPaths[kind]];
      ok := WriteExport(m, kind, exportPaths[kind]);
    }

    /** The files of all kinds; a failure ends the save. */
    method SaveTypes(m: Memory, ghost regs: seq<u8>, saveAsSequence: bool) returns (ok: bool)
      requires Valid()
      modifies this`exportPaths, this`files
      ensures var jobs, n := old(Plan(m, regs, saveAsSequence)), |exportTypes|;
              && PathsAfter(jobs, exportTypes, old(exportPaths), exportPaths)
              && (ok <==> Reached(jobs, n))
              && Run(old(files), jobs) == (if ok then Run(files, jobs[n..]) else (false, files))
              && (ok ==> SameFamily(customRegsPath, files.Keys, old(files).Keys))
    {
      hide KindJob, Attempt, Succeeds, Run, Independent, Present, Target, SameFamily, SameLater, Reached, PathsUpTo, PathsAfter,
           AnySelected;
      PresentKinds(ranges);
      ghost var jobs, n := Plan(m, regs, saveAsSequence), |exportTypes|;
      ghost var paths, start := PathsOf(exportTypes, exportPaths, customRegsPath), files.Keys;
      Begins(jobs, exportTypes, exportPaths, paths, files);
      for i := 0 to |exportTypes|
        invariant PathsUpTo(jobs, exportTypes, old(exportPaths), exportPaths, i)
        invariant Reached(jobs, i) && Run(old(files), jobs) == Run(files, jobs[i..])
        invariant SameLater(paths, i, files.Keys, start)
      {
        var kind := exportTypes[i];
        ghost var before, given := files, exportPaths;
        StillGiven(jobs, exportTypes, old(exportPaths), exportPaths, i);
        LaterAt(paths, i, files.Keys, start);
        SameJob(m, ranges, kind, paths[i], files.Keys, start, saveAsSequence);
        ok := SaveType(m, kind, saveAsSequence);
        assert files == Attempt(before, jobs[i]);
        RunNext(before, jobs, i);
        ReachedNext(jobs, i);
        PathsOneMore(jobs, exportTypes, old(exportPaths), given, i);
        LaterStays(paths, i, before, jobs[i], start, saveAsSequence);
        if !ok {
          NotReached(jobs, i, n);
          PathsDone(jobs, exportTypes, old(exportPaths), exportPaths, i + 1);
          return;
        }
      }
      ok := true;
      ReachedLess(jobs, n);
      PathsDone(jobs, exportTypes, old(exportPaths), exportPaths, n);
      LaterAt(paths, n, files.Keys, start);
    }

    /**
     A save does exactly its planned writes. It succeeds if and only if each of them would; a save in sequence
     keeps every file there was, even when it fails half-way, if and only if no temporary file it uses existed.
     */
    method FinishSavePlan(m: Memory, regs: seq<u8>, saveAsSequence: bool) returns (ok: bool)
      requires Valid()
      modifies this`exportPaths, this`customRegsPath, this`files
      ensures exportTypes == [] ==> !ok && files == old(files) && exportPaths == old(exportPaths) && customRegsPath == old(customRegsPath)
      ensures var jobs, n := old(Plan(m, regs, saveAsSequence)), |exportTypes|;
              n > 0 ==>
                && (ok, files) == Run(old(files), jobs)
                && (ok <==> old(CanSave(m, ranges, exportTypes, PathsOf(exportTypes, exportPaths, customRegsPath), files.Keys, saveAsSequence)))
                && (ok ==> forall i :: 0 <= i <= n ==> Holds(files, jobs[i].target.value, jobs[i].content.value))
                && (forall p :: p in files && p !in old(files) ==> exists i :: Writes(jobs, i, p))
                && (saveAsSequence ==> (Keeps(old(files), files) <==> LeavesTemps(old(files), jobs)))
                && (saveAsSequence ==> forall p :: p in old(files) ==>
                      (Holds(files, p, old(files)[p]) <==> forall i :: 0 <= i <= n ==> !Borrows(jobs, i, p)))
                && PathsAfter(jobs, exportTypes, old(exportPaths), exportPaths)
                && customRegsPath == if Reached(jobs, n) && jobs[n].target.Some? then jobs[n].target.value else old(customRegsPath)
      ensures forall kind :: kind in exportTypes ==> IsBeside(old(exportPaths[kind]), exportPaths[kind])
      ensures IsBeside(old(customRegsPath), customRegsPath)
      ensures !saveAsSequence ==> exportPaths == old(exportPaths) && customRegsPath == old(customRegsPath)
      ensures ok ==> customRegsPath in files && files[customRegsPath] == regs
      ensures ok ==> forall kind :: kind in exportTypes ==>
                exportPaths[kind] in files && files[exportPaths[kind]] == Exported(m, ranges, kind, 0x1_0000)
      ensures ok && saveAsSequence ==> IsChosen(old(customRegsPath), customRegsPath, old(files).Keys)
      ensures ok && saveAsSequence ==> forall kind :: kind in exportTypes ==>
                IsChosen(old(exportPaths[kind]), exportPaths[kind], old(files).Keys)
    {
      hide Run, Attempt, Succeeds, Independent, Present, SequencePath, KindJob, SameFamily, Reached, PathsAfter, FitsTemp, LeavesTemps,
           Keeps, Holds, CanSave, IsBeside, Writes, Borrows;
      SameIsBeside(exportTypes, exportPaths, customRegsPath);
      if |exportTypes| == 0 {
        return false;
      }
      ghost var jobs, n := Plan(m, regs, saveAsSequence), |exportTypes|;
      ghost var paths, start := PathsOf(exportTypes, exportPaths, customRegsPath), files;
      RunResults(m, ranges, exportTypes, paths, regs, start, saveAsSequence);
      AllBeside(m, ranges, exportTypes, paths, regs, files.Keys, saveAsSequence);
      ghost var given := exportPaths;
      ok := SaveTypes(m, regs, saveAsSequence);
      KindsBeside(jobs, exportTypes, given, exportPaths, customRegsPath);
      if !saveAsSequence {
        SamePaths(jobs, exportTypes, given, exportPaths);
      }
      if !ok {
        NotReachedAfter(jobs, n);
        return;
      }
      SameTarget(customRegsPath, files.Keys, start.Keys, saveAsSequence);
      ghost var before := files;
      RunNext(before, jobs, n);
      RunEnds(Attempt(before, jobs[n]), jobs);
      ReachedNext(jobs, n);
      RegsAttempt(before, jobs[n]);
      if saveAsSequence {
        var resolved := ResolveIncrementedPath(customRegsPath, files.Keys);
        if resolved == None {
          return false;
        }
        customRegsPath := resolved.value;
      }
      ok := WriteCustomRegs(regs, customRegsPath);
      if ok {
        hide Jobs, IsChosen, PathsOf, Target;
        KindsSaved(m, ranges, exportTypes, given, exportPaths, paths, regs, start, files, saveAsSequence);
        TargetIs(paths[n], start.Keys, customRegsPath);
      }
    }
  }

  /** Every kind's file is there, under the path chosen for it, with what was read for it. */
  lemma KindsSaved(m: Memory, ranges: seq<Range>, types: seq<Kind>, given: Paths, after: Paths, paths: seq<string>, regs: seq<u8>,
                   start: Files, files: Files, saveAsSequence: bool)
    requires |paths| == |types| + 1 && forall i :: 0 <= i < |types| ==> types[i] in given && paths[i] == given[types[i]]
    requires var jobs := Jobs(m, ranges, types, paths, regs, start.Keys, saveAsSequence);
             && PathsAfter(jobs, types, given, after) && Reached(jobs, |jobs|)
             && forall i :: 0 <= i < |types| ==> Holds(files, jobs[i].target.value, jobs[i].content.value)
    ensures forall kind :: kind in types ==>
              && kind in after && after[kind] in files && files[after[kind]] == Exported(m, ranges, kind, 0x1_0000)
              && (saveAsSequence ==> IsChosen(given[kind], after[kind], start.Keys))
  {
    hide Exported, CanExport, IsChosen, Target;
    var jobs := Jobs(m, ranges, types, paths, regs, start.Keys, saveAsSequence);
    forall kind | kind in types
      ensures kind in after && after[kind] in files && files[after[kind]] == Exported(m, ranges, kind, 0x1_0000)
      ensures saveAsSequence ==> IsChosen(given[kind], after[kind], start.Keys)
    {
      var i :| 0 <= i < |types| && types[i] == kind;
      assert Reached(jobs, i) && Succeeds(jobs[i]);
      TargetIs(paths[i], start.Keys, after[kind]);
    }
  }

  /** The path a save in sequence takes: the given one if there is no such file, else the first free candidate. */
  ghost predicate IsChosen(path: string, r: string, files: set<string>) {
    && path != "" && r !in files
    && if path !in files then r == path else exists i :: FirstFree(path, files, i) && r == Candidate(path, i)
  }

  lemma TargetIs(path: string, files: set<string>, r: string)
    ensures Target(path, files, false) == Some(path)
    ensures Target(path, files, true) == Some(r) <==> IsChosen(path, r, files)
  {
    hide Candidate, FirstFree, OfFamily;
    SequencePathIsFree(path, files);
    forall i, j | FirstFree(path, files, i) && FirstFree(path, files, j) ensures i == j {
      FirstFreeIsUnique(path, files, i, j);
    }
  }

  /** A save succeeds if all memory can be read and every path, as given or as chosen, has room for ".tmp". */
  lemma CanSaveIs(m: Memory, ranges: seq<Range>, types: seq<Kind>, paths: seq<string>, files: set<string>)
    ensures CanSave(m, ranges, types, paths, files, false) <==>
            && (forall kind :: kind in types ==> CanExport(m, ranges, kind, 0x1_0000))
            && (forall p :: p in paths ==> p != "" && |p| + 4 < 4096)
    ensures CanSave(m, ranges, types, paths, files, true) <==>
            && (forall kind :: kind in types ==> CanExport(m, ranges, kind, 0x1_0000))
            && (forall p :: p in paths ==> exists r :: IsChosen(p, r, files) && |r| + 4 < 4096)
  {
    hide CanExport, IsChosen, Target;
    forall p | p in paths
      ensures HasRoom(Target(p, files, false)) <==> p != "" && |p| + 4 < 4096
      ensures HasRoom(Target(p, files, true)) <==> exists r :: IsChosen(p, r, files) && |r| + 4 < 4096
    {
      RoomIs(p, files);
    }
    assert forall i :: 0 <= i < |paths| ==> paths[i] in paths;
  }

  lemma RoomIs(p: string, files: set<string>)
    ensures HasRoom(Target(p, files, false)) <==> p != "" && |p| + 4 < 4096
    ensures HasRoom(Target(p, files, true)) <==> exists r :: IsChosen(p, r, files) && |r| + 4 < 4096
  {
    hide IsChosen, Target;
    TargetIs(p, files, p);
    forall r ensures Target(p, files, true) == Some(r) <==> IsChosen(p, r, files) {
      TargetIs(p, files, r);
    }
    forall r ensures FitsTemp(r) <==> r != "" && |r| + 4 < 4096 {
      FitsTempIs(r);
    }
    forall r | IsChosen(p, r, files) ensures r != "" {
      ChosenIsSomething(p, r, files);
    }
    if HasRoom(Target(p, files, true)) {
      assert IsChosen(p, Target(p, files, true).value, files);
    }
  }

  lemma ChosenIsSomething(path: string, r: string, files: set<string>)
    requires IsChosen(path, r, files)
    ensures r != ""
  {
  }

  /** All memory can be read, and every file has a path with room for ".tmp". */
  ghost predicate CanSave(m: Memory, ranges: seq<Range>, types: seq<Kind>, paths: seq<string>, files: set<string>, saveAsSequence: bool) {
    && (forall kind :: kind in types ==> CanExport(m, ranges, kind, EXPORT_CHUNK))
    && (forall i :: 0 <= i < |paths| ==> HasRoom(Target(paths[i], files, saveAsSequence)))
  }

  predicate HasRoom(target: Option<string>) {
    target.Some? && FitsTemp(target.value)
  }

  lemma AllSucceedIff(m: Memory, ranges: seq<Range>, types: seq<Kind>, paths: seq<string>, regs: seq<u8>, files: set<string>, saveAsSequence: bool)
    requires |paths| == |types| + 1
    ensures var jobs := Jobs(m, ranges, types, paths, regs, files, saveAsSequence);
            Reached(jobs, |jobs|) <==> CanSave(m, ranges, types, paths, files, saveAsSequence)
  {
    hide CanExport, Exported, Target, FitsTemp;
    var jobs := Jobs(m, ranges, types, paths, regs, files, saveAsSequence);
    if Reached(jobs, |jobs|) {
      forall i | 0 <= i < |paths|
        ensures HasRoom(Target(paths[i], files, saveAsSequence)) && (i < |types| ==> CanExport(m, ranges, types[i], EXPORT_CHUNK))
      {
        assert Succeeds(jobs[i]);
      }
    }
    if CanSave(m, ranges, types, paths, files, saveAsSequence) {
      forall i | 0 <= i < |jobs| ensures Succeeds(jobs[i]) {
        assert HasRoom(Target(paths[i], files, saveAsSequence));
      }
    }
  }

  /** What follows of the files of a save from its being a run of its writes. */
  lemma RunResults(m: Memory, ranges: seq<Range>, types: seq<Kind>, paths: seq<string>, regs: seq<u8>, files: Files, saveAsSequence: bool)
    requires |paths| == |types| + 1 && Independent(paths)
    ensures var jobs := Jobs(m, ranges, types, paths, regs, files.Keys, saveAsSequence);
            var (ok, after) := Run(files, jobs);
            && (ok <==> Reached(jobs, |jobs|))
            && (ok <==> CanSave(m, ranges, types, paths, files.Keys, saveAsSequence))
            && (forall p :: p in after && p !in files ==> exists i :: Writes(jobs, i, p))
            && (ok ==> forall i :: 0 <= i < |jobs| ==>
                  jobs[i].target.Some? && jobs[i].content.Some? && Holds(after, jobs[i].target.value, jobs[i].content.value))
            && (saveAsSequence ==> (Keeps(files, after) <==> LeavesTemps(files, jobs)))
            && (saveAsSequence ==> forall p :: p in files ==>
                  (Holds(after, p, files[p]) <==> forall i :: 0 <= i < |jobs| ==> !Borrows(jobs, i, p)))
  {
    hide KindJob, Run, Clean, Independent, Holds, FitsTemp, Keeps, CanSave, LeavesTemps, Writes;
    var jobs := Jobs(m, ranges, types, paths, regs, files.Keys, saveAsSequence);
    JobsAreClean(m, ranges, types, paths, regs, files.Keys, saveAsSequence);
    SucceedsIff(files, jobs);
    AllSucceedIff(m, ranges, types, paths, regs, files.Keys, saveAsSequence);
    OnlyNewTargets(files, jobs);
    if Run(files, jobs).0 {
      forall i | 0 <= i < |jobs|
        ensures jobs[i].target.Some? && jobs[i].content.Some? && Holds(Run(files, jobs).1, jobs[i].target.value, jobs[i].content.value)
      {
        assert Succeeds(jobs[i]);
        WrittenAt(files, jobs, i);
      }
    }
    if saveAsSequence {
      hide Reached, SequencePath;
      forall i | 0 <= i < |jobs| && jobs[i].target.Some? ensures jobs[i].target.value !in files {
        SequencePathIsFree(paths[i], files.Keys);
      }
      FreshKeepsIff(files, jobs);
      hide Borrows, Jobs;
      forall p | p in files ensures Holds(Run(files, jobs).1, p, files[p]) <==> forall i :: 0 <= i < |jobs| ==> !Borrows(jobs, i, p) {
        SurvivesIff(files, jobs, p);
      }
    }
  }

  lemma OnlyNewTargets(files: Files, jobs: seq<Job>)
    ensures forall p :: p in Run(files, jobs).1 && p !in files ==> exists i :: Writes(jobs, i, p)
  {
    hide Run, Writes;
    forall p | p in Run(files, jobs).1 && p !in files ensures exists i :: Writes(jobs, i, p) {
      OnlyTargetsAreNew(files, jobs, p);
    }
  }

  /** Every path keeps its directory and extension. */
  lemma AllBeside(m: Memory, ranges: seq<Range>, types: seq<Kind>, paths: seq<string>, regs: seq<u8>, files: set<string>, saveAsSequence: bool)
    requires |paths| == |types| + 1
    ensures var jobs := Jobs(m, ranges, types, paths, regs, files, saveAsSequence);
            forall i :: 0 <= i < |jobs| ==> IsBeside(paths[i], if jobs[i].target.Some? then jobs[i].target.value else paths[i])
  {
    hide Directory, Extension, OfFamily, Target;
    var jobs := Jobs(m, ranges, types, paths, regs, files, saveAsSequence);
    forall i | 0 <= i < |jobs| ensures IsBeside(paths[i], if jobs[i].target.Some? then jobs[i].target.value else paths[i]) {
      TargetInFamily(paths[i], files, saveAsSequence);
      if jobs[i].target.Some? {
        FamilyIsBeside(paths[i], jobs[i].target.value);
      }
    }
  }

  lemma KindsBeside(jobs: seq<Job>, types: seq<Kind>, start: Paths, paths: Paths, regsPath: string)
    requires |jobs| == |types| + 1 && (forall kind :: kind in types ==> kind in start) && PathsAfter(jobs, types, start, paths)
    requires forall i :: 0 <= i < |jobs| ==>
               var p := PathsOf(types, start, regsPath)[i];
               IsBeside(p, if jobs[i].target.Some? then jobs[i].target.value else p)
    ensures forall kind :: kind in types ==> IsBeside(start[kind], paths[kind])
  {
    hide Directory, Extension;
    forall i | 0 <= i < |types| ensures IsBeside(start[types[i]], paths[types[i]]) {
      assert PathsOf(types, start, regsPath)[i] == start[types[i]];
    }
  }

  /** Without the sequence the plan's paths stay. */
  lemma SamePaths(jobs: seq<Job>, types: seq<Kind>, start: Paths, paths: Paths)
    requires |types| <= |jobs| && PathsAfter(jobs, types, start, paths)
    requires forall i :: 0 <= i < |types| ==> types[i] in start && jobs[i].target == Some(start[types[i]])
    ensures paths == start
  {
    forall kind | kind in start ensures paths[kind] == start[kind] {
      if kind in types {
        var i :| 0 <= i < |types| && types[i] == kind;
      }
    }
  }

  lemma SameIsBeside(types: seq<Kind>, paths: Paths, regsPath: string)
    requires forall kind :: kind in types ==> kind in paths
    ensures IsBeside(regsPath, regsPath) && forall kind :: kind in types ==> IsBeside(paths[kind], paths[kind])
  {
  }

  lemma NotReachedAfter(jobs: seq<Job>, n: nat)
    requires n < |jobs| && !Reached(jobs, n)
    ensures !Reached(jobs, n + 1)
  {
  }

  lemma RegsAttempt(files: Files, job: Job)
    requires job.content.Some?
    ensures job.target.None? ==> !Succeeds(job) && Attempt(files, job) == files
    ensures job.target.Some? ==>
              && (Succeeds(job) <==> FitsTemp(job.target.value))
              && Attempt(files, job) == if FitsTemp(job.target.value) then
                                          (files - {Temp(job.target.value)})[job.target.value := job.content.value]
                                        else files
  {
  }

  lemma Begins(jobs: seq<Job>, types: seq<Kind>, paths: Paths, all: seq<string>, files: Files)
    requires |types| <= |jobs| && forall kind :: kind in types ==> kind in paths
    ensures PathsUpTo(jobs, types, paths, paths, 0) && Reached(jobs, 0) && Run(files, jobs[0..]) == Run(files, jobs)
    ensures SameLater(all, 0, files.Keys, files.Keys)
  {
    RunEnds(files, jobs);
  }

  lemma StillGiven(jobs: seq<Job>, types: seq<Kind>, start: Paths, paths: Paths, i: nat)
    requires i < |types| <= |jobs| && PathsUpTo(jobs, types, start, paths, i)
    ensures types[i] in start && types[i] in paths && paths[types[i]] == start[types[i]]
  {
  }

  lemma LaterAt(paths: seq<string>, i: nat, files: set<string>, start: set<string>)
    requires i < |paths| && SameLater(paths, i, files, start)
    ensures SameFamily(paths[i], files, start)
  {
  }

  lemma SameJob(m: Memory, ranges: seq<Range>, kind: Kind, path: string, files: set<string>, start: set<string>, saveAsSequence: bool)
    requires SameFamily(path, files, start)
    ensures KindJob(m, ranges, kind, path, files, saveAsSequence) == KindJob(m, ranges, kind, path, start, saveAsSequence)
  {
    hide CanExport, Exported, Target;
    SameTarget(path, files, start, saveAsSequence);
  }

  lemma NotReached(jobs: seq<Job>, i: nat, n: nat)
    requires i < n <= |jobs| && !Succeeds(jobs[i])
    ensures !Reached(jobs, n)
  {
  }

  lemma ReachedLess(jobs: seq<Job>, n: nat)
    requires n <= |jobs| && Reached(jobs, n)
    ensures n == 0 || Reached(jobs, n - 1)
  {
  }

  // ---------- A file that is lost ----------

  const CHIP_PATH := "cfg-chip.bin"
  const REGS_PATH := "cfg-custom-regs.txt"

  /**
   A file named as the temporary file of the save is gone afterwards, in sequence or not, and whether the
   memory could be read or not.
   */
  lemma TempIsLost(m: Memory, ranges: seq<Range>, regs: seq<u8>, saveAsSequence: bool)
    ensures ExportPath("", "cfg", Chip) == CHIP_PATH && PathJoin("", CustomRegsFileName("cfg")) == REGS_PATH
    ensures var files := map["cfg-chip.bin.tmp" := [1]];
            var jobs := Jobs(m, ranges, [Chip], [CHIP_PATH, REGS_PATH], regs, files.Keys, saveAsSequence);
            "cfg-chip.bin.tmp" !in Run(files, jobs).1
  {
    hide Run, Clean, Jobs, KindJob, Independent;
    var files: Files := map["cfg-chip.bin.tmp" := [1]];
    var paths := [CHIP_PATH, REGS_PATH];
    var jobs := Jobs(m, ranges, [Chip], paths, regs, files.Keys, saveAsSequence);
    ChipPlan();
    assert jobs[0].target == Target(paths[0], files.Keys, saveAsSequence) == Some(CHIP_PATH);
    assert Temp(CHIP_PATH) == "cfg-chip.bin.tmp";
    JobsAreClean(m, ranges, [Chip], paths, regs, files.Keys, saveAsSequence);
    BorrowedIsGone(files, jobs, 0, "cfg-chip.bin.tmp");
  }

  lemma ChipPlan()
    ensures ExportPath("", "cfg", Chip) == CHIP_PATH && PathJoin("", CustomRegsFileName("cfg")) == REGS_PATH
    ensures Independent([CHIP_PATH, REGS_PATH])
  {
    hide Independent;
    assert "" + ("cfg" + ("-" + "chip" + ".bin")) == CHIP_PATH && "" + ("cfg" + "-custom-regs.txt") == REGS_PATH;
    var paths: Paths := map[Chip := CHIP_PATH];
    assert PathsOf([Chip], paths, REGS_PATH) == [CHIP_PATH, REGS_PATH];
    PlanIsIndependent("", "cfg", [Chip], paths);
  }
}
