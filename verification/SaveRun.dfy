/**
 A run of file writes: each file is written under its path with ".tmp" added and then moved into place,
 and the run stops at the first write that fails.
 */
module SaveRun {
  import opened Optional
  import opened Bits
  import opened SaveNames

  type Files = map<string, seq<u8>>

  /** Where a file is written before it is moved into place. */
  function Temp(path: string): string {
    path + ".tmp"
  }

  /** There is room for ".tmp" after the path. */
  predicate FitsTemp(path: string) {
    path != "" && |Temp(path)| < PATH_MAX
  }

  lemma FitsTempIs(path: string)
    ensures FitsTemp(path) <==> path != "" && |path| + 4 < 4096
    ensures Temp(path) == path + ".tmp"
  {
  }

  /** One write: the path, if one was found, and the content, if all of it could be read. */
  datatype Job = Job(target: Option<string>, content: Option<seq<u8>>)

  predicate Opens(job: Job) {
    job.target.Some? && FitsTemp(job.target.value)
  }

  predicate Succeeds(job: Job) {
    Opens(job) && job.content.Some?
  }

  function Attempt(files: Files, job: Job): Files {
    if !Opens(job) then files
    else
      var left := files - {Temp(job.target.value)};
      if job.content.Some? then left[job.target.value := job.content.value] else left
  }

  /** Whether all jobs succeed, and the files left. */
  function Run(files: Files, jobs: seq<Job>): (bool, Files)
    decreases |jobs|
  {
    if jobs == [] then (true, files)
    else if Succeeds(jobs[0]) then Run(Attempt(files, jobs[0]), jobs[1..])
    else (false, Attempt(files, jobs[0]))
  }

  // ---------- What a run does ----------

  /** All jobs before this one succeed. */
  predicate Reached(jobs: seq<Job>, i: nat)
    requires i <= |jobs|
  {
    forall j :: 0 <= j < i ==> Succeeds(jobs[j])
  }

  /** Job i moves its file to p. */
  predicate Writes(jobs: seq<Job>, i: nat, p: string) {
    i < |jobs| && Reached(jobs, i) && Succeeds(jobs[i]) && jobs[i].target.value == p
  }

  /** Job i uses p for its temporary file. */
  predicate Borrows(jobs: seq<Job>, i: nat, p: string) {
    i < |jobs| && Reached(jobs, i) && Opens(jobs[i]) && Temp(jobs[i].target.value) == p
  }

  /** The targets differ from each other and from every temporary file. */
  predicate Clean(jobs: seq<Job>) {
    forall i, j :: 0 <= i < |jobs| && 0 <= j < |jobs| && jobs[i].target.Some? && jobs[j].target.Some? ==>
      && (i != j ==> jobs[i].target.value != jobs[j].target.value)
      && Temp(jobs[i].target.value) != jobs[j].target.value
  }

  lemma {:induction false} SucceedsIff(files: Files, jobs: seq<Job>)
    ensures Run(files, jobs).0 <==> Reached(jobs, |jobs|)
    decreases |jobs|
  {
    if jobs != [] {
      SucceedsIff(Attempt(files, jobs[0]), jobs[1..]);
      if Succeeds(jobs[0]) {
        ReachedOneLess(jobs, |jobs|);
      }
    }
  }

  lemma ReachedOneLess(jobs: seq<Job>, i: nat)
    requires 0 < i <= |jobs|
    ensures Reached(jobs, i) <==> Succeeds(jobs[0]) && Reached(jobs[1..], i - 1)
  {
    if Succeeds(jobs[0]) && Reached(jobs[1..], i - 1) {
      forall j | 0 <= j < i ensures Succeeds(jobs[j]) {
        assert j > 0 ==> jobs[j] == jobs[1..][j - 1];
      }
    }
  }

  /** A first job that succeeds leaves the others what they do to p. */
  lemma SameForRest(jobs: seq<Job>, i: nat, p: string)
    requires 0 < i && jobs != []
    ensures Writes(jobs, i, p) <==> Succeeds(jobs[0]) && Writes(jobs[1..], i - 1, p)
    ensures Borrows(jobs, i, p) <==> Succeeds(jobs[0]) && Borrows(jobs[1..], i - 1, p)
  {
    if i < |jobs| {
      ReachedOneLess(jobs, i);
      assert jobs[1..][i - 1] == jobs[i];
    }
  }

  lemma RestIsClean(jobs: seq<Job>)
    requires Clean(jobs) && jobs != []
    ensures Clean(jobs[1..])
  {
  }

  predicate Holds(files: Files, p: string, content: seq<u8>) {
    p in files && files[p] == content
  }

  predicate Same(before: Files, after: Files, p: string) {
    (p in after <==> p in before) && (p in before ==> after[p] == before[p])
  }

  /** What a run leaves at a path: the file a job has written there, nothing, or what was there before. */
  lemma {:induction false} WrittenAt(files: Files, jobs: seq<Job>, i: nat)
    requires Clean(jobs) && i < |jobs| && Reached(jobs, i + 1)
    ensures Holds(Run(files, jobs).1, jobs[i].target.value, jobs[i].content.value)
    decreases |jobs|
  {
    hide Clean, Attempt;
    var p := jobs[i].target.value;
    RestIsClean(jobs);
    ReachedOneLess(jobs, i + 1);
    if i > 0 {
      assert jobs[1..][i - 1] == jobs[i];
      WrittenAt(Attempt(files, jobs[0]), jobs[1..], i - 1);
    } else {
      WritesFirst(files, jobs);
      forall j | 0 <= j < |jobs[1..]| ensures !Writes(jobs[1..], j, p) && !Borrows(jobs[1..], j, p) {
        ApartFromFirst(jobs, j + 1);
      }
      OthersStay(Attempt(files, jobs[0]), jobs[1..], p);
    }
  }

  lemma WritesFirst(files: Files, jobs: seq<Job>)
    requires Clean(jobs) && jobs != [] && Succeeds(jobs[0])
    ensures Holds(Attempt(files, jobs[0]), jobs[0].target.value, jobs[0].content.value)
  {
  }

  lemma ApartFromFirst(jobs: seq<Job>, j: nat)
    requires Clean(jobs) && 0 < j < |jobs| && jobs[0].target.Some?
    ensures jobs[j].target.Some? ==>
              jobs[j].target.value != jobs[0].target.value && Temp(jobs[j].target.value) != jobs[0].target.value
  {
  }

  lemma {:induction false} OthersStay(files: Files, jobs: seq<Job>, p: string)
    requires forall i :: 0 <= i < |jobs| ==> !Writes(jobs, i, p) && !Borrows(jobs, i, p)
    ensures Same(files, Run(files, jobs).1, p)
    decreases |jobs|
  {
    if jobs != [] {
      assert Same(files, Attempt(files, jobs[0]), p) by {
        assert !Writes(jobs, 0, p) && !Borrows(jobs, 0, p);
      }
      if Succeeds(jobs[0]) {
        forall i | 0 <= i < |jobs[1..]| ensures !Writes(jobs[1..], i, p) && !Borrows(jobs[1..], i, p) {
          SameForRest(jobs, i + 1, p);
        }
        OthersStay(Attempt(files, jobs[0]), jobs[1..], p);
      }
    }
  }

  lemma {:induction false} BorrowedIsGone(files: Files, jobs: seq<Job>, i: nat, p: string)
    requires Clean(jobs) && Borrows(jobs, i, p)
    ensures p !in Run(files, jobs).1
    decreases |jobs|
  {
    hide Clean, Attempt;
    RestIsClean(jobs);
    if i > 0 {
      SameForRest(jobs, i, p);
      BorrowedIsGone(Attempt(files, jobs[0]), jobs[1..], i - 1, p);
    } else {
      FirstIsGone(files, jobs, p);
      if Succeeds(jobs[0]) {
        StaysGone(Attempt(files, jobs[0]), jobs, p);
      }
    }
  }

  lemma FirstIsGone(files: Files, jobs: seq<Job>, p: string)
    requires Clean(jobs) && Borrows(jobs, 0, p)
    ensures p !in Attempt(files, jobs[0])
  {
  }

  lemma StaysGone(files: Files, jobs: seq<Job>, p: string)
    requires Clean(jobs) && Borrows(jobs, 0, p) && Succeeds(jobs[0]) && p !in files
    ensures p !in Run(files, jobs[1..]).1
  {
    forall i | 0 <= i < |jobs[1..]| ensures !Writes(jobs[1..], i, p) {
      if jobs[i + 1].target.Some? {
        assert Temp(jobs[0].target.value) != jobs[i + 1].target.value;
      }
    }
    NeverAppears(files, jobs[1..], p);
  }

  lemma {:induction false} NeverAppears(files: Files, jobs: seq<Job>, p: string)
    requires p !in files && forall i :: 0 <= i < |jobs| ==> !Writes(jobs, i, p)
    ensures p !in Run(files, jobs).1
    decreases |jobs|
  {
    if jobs != [] {
      assert !Writes(jobs, 0, p);
      if Succeeds(jobs[0]) {
        forall i | 0 <= i < |jobs[1..]| ensures !Writes(jobs[1..], i, p) {
          SameForRest(jobs, i + 1, p);
        }
        NeverAppears(Attempt(files, jobs[0]), jobs[1..], p);
      }
    }
  }

  // ---------- What survives ----------

  ghost predicate Keeps(before: Files, after: Files) {
    forall p :: p in before ==> Holds(after, p, before[p])
  }

  /** No job that is reached spoils a file that exists. */
  predicate Spares(files: Files, jobs: seq<Job>) {
    forall i :: 0 <= i < |jobs| && Reached(jobs, i) && Opens(jobs[i]) ==>
      && Temp(jobs[i].target.value) !in files
      && (jobs[i].content.Some? && jobs[i].target.value in files ==> files[jobs[i].target.value] == jobs[i].content.value)
  }

  /** A run keeps every file exactly if no temporary file it uses exists and no other content is written over one. */
  lemma KeepsIff(files: Files, jobs: seq<Job>)
    requires Clean(jobs)
    ensures Keeps(files, Run(files, jobs).1) <==> Spares(files, jobs)
  {
    hide Run, Clean;
    if Keeps(files, Run(files, jobs).1) {
      forall i | 0 <= i < |jobs| && Reached(jobs, i) && Opens(jobs[i])
        ensures Temp(jobs[i].target.value) !in files
        ensures jobs[i].content.Some? && jobs[i].target.value in files ==> files[jobs[i].target.value] == jobs[i].content.value
      {
        BorrowedIsGone(files, jobs, i, Temp(jobs[i].target.value));
        if jobs[i].content.Some? {
          WrittenAt(files, jobs, i);
        }
      }
    }
    if Spares(files, jobs) {
      forall p | p in files ensures Holds(Run(files, jobs).1, p, files[p]) {
        Spared(files, jobs, p);
      }
    }
  }

  lemma Spared(files: Files, jobs: seq<Job>, p: string)
    requires Clean(jobs) && Spares(files, jobs) && p in files
    ensures Holds(Run(files, jobs).1, p, files[p])
  {
    hide Run, Clean;
    if i :| 0 <= i < |jobs| && Writes(jobs, i, p) {
      WrittenAt(files, jobs, i);
    } else {
      OthersStay(files, jobs, p);
    }
  }

  /** No temporary file of a job that is reached exists before. */
  predicate LeavesTemps(files: Files, jobs: seq<Job>) {
    forall i :: 0 <= i < |jobs| && Reached(jobs, i) && Opens(jobs[i]) ==> Temp(jobs[i].target.value) !in files
  }

  /** When every target is free, only temporary files matter. */
  lemma FreshKeepsIff(files: Files, jobs: seq<Job>)
    requires Clean(jobs) && forall i :: 0 <= i < |jobs| && jobs[i].target.Some? ==> jobs[i].target.value !in files
    ensures Keeps(files, Run(files, jobs).1) <==> LeavesTemps(files, jobs)
  {
    hide Run, Clean;
    KeepsIff(files, jobs);
  }

  /** Then a file survives exactly if no job that is reached uses its name for a temporary file. */
  lemma SurvivesIff(files: Files, jobs: seq<Job>, p: string)
    requires Clean(jobs) && p in files && forall i :: 0 <= i < |jobs| && jobs[i].target.Some? ==> jobs[i].target.value !in files
    ensures Holds(Run(files, jobs).1, p, files[p]) <==> forall i :: 0 <= i < |jobs| ==> !Borrows(jobs, i, p)
  {
    hide Run, Clean, Reached;
    if i :| 0 <= i < |jobs| && Borrows(jobs, i, p) {
      BorrowedIsGone(files, jobs, i, p);
    } else {
      OthersStay(files, jobs, p);
    }
  }

  /** Every file after a run was there before or is one the run has written. */
  lemma OnlyTargetsAreNew(files: Files, jobs: seq<Job>, p: string)
    requires p in Run(files, jobs).1 && p !in files
    ensures exists i :: Writes(jobs, i, p)
  {
    hide Run;
    if forall i :: 0 <= i < |jobs| ==> !Writes(jobs, i, p) {
      NeverAppears(files, jobs, p);
    }
  }
}
