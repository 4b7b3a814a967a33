/** The profiler's table from program counter to accumulated samples and cycles. */
module ProfileMap {
  import opened Bits
  import opened LinearProbing
  import opened ProfileCounter

  datatype Entry = Entry(used: bool, pc: u32, samples: u64, cycles: u64, lastSamples: u64, lastCycles: u64)

  const FREE := Entry(false, 0, 0, 0, 0, 0)

  const INITIAL_CAP := 1024
  const SMALLEST_CAP := 16

  /** One report of the emulator. */
  datatype Report = Report(pc: u32, samples: u64, cycles: u64)

  /** The key of a slot for the probing lemmas: 0 for a free slot, else one more than its pc. */
  function Key(e: Entry): nat {
    if e.used then e.pc + 1 else 0
  }

  function Keys(entries: seq<Entry>): (keys: seq<nat>)
    ensures |keys| == |entries| && forall i :: 0 <= i < |keys| ==> keys[i] == Key(entries[i])
  {
    seq(|entries|, i requires 0 <= i < |entries| => Key(entries[i]))
  }

  /** pc % capacity */
  function HomeSlot(cap: nat): nat -> nat
    requires cap > 0
  {
    (key: nat) => if key == 0 then 0 else (key - 1) % cap
  }

  lemma HomesInRange(cap: nat)
    requires cap > 0
    ensures HomeInRange(HomeSlot(cap), cap)
  {
  }

  function First(r: Report): Entry {
    Entry(true, r.pc, r.samples, r.cycles, r.samples, r.cycles)
  }

  function Advance(e: Entry, r: Report): Entry {
    Entry(true, e.pc, Add64(e.samples, Growth(e.lastSamples, r.samples)), Add64(e.cycles, Growth(e.lastCycles, r.cycles)),
          r.samples, r.cycles)
  }

  /** The effect of one report on the mathematical map. */
  function Insert(m: map<nat, Entry>, r: Report): map<nat, Entry> {
    m[r.pc + 1 := if r.pc + 1 in m then Advance(m[r.pc + 1], r) else First(r)]
  }

  function InsertAll(m: map<nat, Entry>, rs: seq<Report>): map<nat, Entry> {
    if rs == [] then m else Insert(InsertAll(m, rs[..|rs| - 1]), Last(rs))
  }

  // ---------- What a whole run of reports leaves for one pc ----------

  function Samples(rs: seq<Report>, pc: u32): seq<u64> {
    if rs == [] then []
    else Samples(rs[..|rs| - 1], pc) + if Last(rs).pc == pc then [Last(rs).samples] else []
  }

  function Cycles(rs: seq<Report>, pc: u32): seq<u64> {
    if rs == [] then []
    else Cycles(rs[..|rs| - 1], pc) + if Last(rs).pc == pc then [Last(rs).cycles] else []
  }

  /** For every pc the map holds the totals of its own reports, samples and cycles independently. */
  lemma {:induction false} InsertAllTotals(rs: seq<Report>, pc: u32)
    ensures pc + 1 in InsertAll(map[], rs) <==> Samples(rs, pc) != []
    ensures |Samples(rs, pc)| == |Cycles(rs, pc)|
    ensures pc + 1 in InsertAll(map[], rs) ==>
              var e := InsertAll(map[], rs)[pc + 1];
              && e.used && e.pc == pc
              && e.samples == Total(Samples(rs, pc)) && e.lastSamples == Last(Samples(rs, pc))
              && e.cycles == Total(Cycles(rs, pc)) && e.lastCycles == Last(Cycles(rs, pc))
  {
    if rs != [] {
      var before, r := rs[..|rs| - 1], Last(rs);
      InsertAllTotals(before, pc);
      if r.pc == pc {
        var s, c := Samples(before, pc), Cycles(before, pc);
        assert (s + [r.samples])[..|s|] == s && (c + [r.cycles])[..|c|] == c;
      } else {
        assert Samples(rs, pc) == Samples(before, pc) && Cycles(rs, pc) == Cycles(before, pc);
      }
    }
  }
}
