/** The execution-port map and its scheduler (`schedule_uop`, `schedule_mop`). */
module PortMap {
  import opened Wrappers
  import opened Superscalar

  /** The three ports of one cycle, as a busy map row. */
  type Row = s: seq<Port> | |s| == 3 witness [NULL, NULL, NULL]

  /** Some unit that can run `uop` is idle in `cycle`. */
  ghost predicate Free(g: seq<Row>, cycle: int, uop: Port)
  {
    0 <= cycle < |g| && exists unit :: 0 <= unit < 3 && Runs(uop, unit) && g[cycle][unit] == NULL
  }

  /** All micro-ops of `m` can run in `cycle`; an eliminated macro-op needs no unit at all. */
  ghost predicate Fits(g: seq<Row>, cycle: int, m: MacroOp)
  {
    m.uop1 == NULL || (Free(g, cycle, m.uop1) && (m.uop2 == NULL || Free(g, cycle, m.uop2)))
  }

  /** The cycle from which a macro-op may be scheduled. */
  function StartCycle(m: MacroOp, cycle: nat, depCycle: nat): nat
  {
    if m.dependent && depCycle > cycle then depCycle else cycle
  }

  /** The least cycle from `start` on at which `m` fits, or none. */
  ghost predicate IsEarliest(g: seq<Row>, start: nat, m: MacroOp, r: Option<nat>)
  {
    match r
    case Some(c) => start <= c && Fits(g, c, m) && forall k :: start <= k < c ==> !Fits(g, k, m)
    case None => forall k :: start <= k ==> !Fits(g, k, m)
  }

  /** The search for that cycle, and the only answer to it. */
  ghost function Earliest(g: seq<Row>, start: nat, m: MacroOp): Option<nat>
    decreases |g| - start
  {
    if Fits(g, start, m) then Some(start) else if start >= |g| then None else Earliest(g, start + 1, m)
  }

  lemma {:induction false} EarliestUnique(g: seq<Row>, start: nat, m: MacroOp, r: Option<nat>)
    requires IsEarliest(g, start, m, r)
    ensures r == Earliest(g, start, m)
    decreases |g| - start
  {
    hide Fits;
    if !Fits(g, start, m) && start < |g| {
      EarliestUnique(g, start + 1, m, r);
    } else if !Fits(g, start, m) {
      Beyond(g, m);
    }
  }

  lemma Beyond(g: seq<Row>, m: MacroOp)
    ensures forall c :: c >= |g| ==> (Fits(g, c, m) <==> m.uop1 == NULL)
  {
  }

  // ---------- units ----------

  /** P5 is preferred to P0 and P0 to P1. */
  function Preferred(row: Row, uop: Port): nat
  {
    if Runs(uop, 2) && row[2] == NULL then 2 else if Runs(uop, 0) && row[0] == NULL then 0 else 1
  }

  /** The units that a macro-op takes in a cycle, the first micro-op choosing first. */
  function UnitsOf(row: Row, m: MacroOp): (u: set<nat>)
    ensures forall k :: k in u ==> k < 3
  {
    if m.uop1 == NULL then {}
    else
      var u1 := Preferred(row, m.uop1);
      if m.uop2 == NULL then {u1} else {u1, Preferred(row[u1 := m.uop1], m.uop2)}
  }

  function BookedRow(row: Row, m: MacroOp): Row
  {
    if m.uop1 == NULL then row
    else
      var u1 := Preferred(row, m.uop1);
      var row1 := row[u1 := m.uop1];
      if m.uop2 == NULL then row1 else row1[Preferred(row1, m.uop2) := m.uop2]
  }

  /** The map after committing a macro-op in cycle `c`. */
  function Book(g: seq<Row>, c: nat, m: MacroOp): (h: seq<Row>)
    ensures |h| == |g|
  {
    if c < |g| then g[c := BookedRow(g[c], m)] else g
  }

  /** A macro-op that fits takes one idle unit for each micro-op, each able to run it, and no others. */
  lemma UnitsTaken(g: seq<Row>, c: nat, m: MacroOp)
    requires Fits(g, c, m) && Schedulable(m) && (m.uop1 == NULL || c < |g|)
    ensures c < |g| ==> Takes(m, UnitsOf(g[c], m)) && BusyAfter(g, Book(g, c, m), c, UnitsOf(g[c], m))
  {
    if c < |g| && m.uop1 != NULL {
      var row := g[c];
      var u1 := Preferred(row, m.uop1);
      assert Runs(m.uop1, u1) && row[u1] == NULL;
      if m.uop2 != NULL {
        assert u1 == 1 && Preferred(row[u1 := m.uop1], m.uop2) == 2;
        assert Runs(m.uop2, 2) && 2 in UnitsOf(row, m) && UnitsOf(row, m) == {1, 2};
      }
      assert u1 in UnitsOf(row, m);
      forall k, u | 0 <= k < |g| && 0 <= u < 3
        ensures EntryAfter(g, Book(g, c, m), c, UnitsOf(row, m), k, u)
      {
      }
    }
  }

  /** The units that a macro-op occupies: one for each micro-op, each able to run it. */
  ghost predicate Takes(m: MacroOp, units: set<nat>)
  {
    && (forall u :: u in units ==> u < 3)
    && |units| == (if m.uop1 == NULL then 0 else if m.uop2 == NULL then 1 else 2)
    && (m.uop1 != NULL ==> exists u :: u in units && Runs(m.uop1, u))
    && (m.uop1 != NULL && m.uop2 != NULL ==> exists u :: u in units && Runs(m.uop2, u))
  }

  /** Exactly the idle entries of `units` in cycle `c` become busy. */
  ghost predicate BusyAfter(before: seq<Row>, after: seq<Row>, c: nat, units: set<nat>)
  {
    |after| == |before| && forall k, u :: 0 <= k < |before| && 0 <= u < 3 ==> EntryAfter(before, after, c, units, k, u)
  }

  ghost predicate EntryAfter(before: seq<Row>, after: seq<Row>, c: nat, units: set<nat>, k: int, u: int)
    requires 0 <= k < |before| == |after| && 0 <= u < 3
  {
    if k == c && u in units then before[k][u] == NULL && after[k][u] != NULL else after[k][u] == before[k][u]
  }

  // ---------- the scheduler ----------

  /** The earliest cycle at which one micro-op can run; committing occupies the preferred idle unit there. */
  method ScheduleUop(commit: bool, uop: Port, busy: array<Row>, start: nat) returns (r: Option<nat>)
    requires busy.Length == CYCLE_MAP_SIZE
    modifies busy
    ensures forall k :: start <= k && (r.None? || k < r.value) ==> !Free(old(busy[..]), k, uop)
    ensures r.Some? ==> start <= r.value < CYCLE_MAP_SIZE && Free(old(busy[..]), r.value, uop)
    ensures if commit && r.Some? then
              var row := old(busy[..])[r.value];
              busy[..] == old(busy[..])[r.value :=
                if Runs(uop, 2) && row[2] == NULL then row[2 := uop]
                else if Runs(uop, 0) && row[0] == NULL then row[0 := uop]
                else row[1 := uop]]
            else busy[..] == old(busy[..])
  {
    var cycle := start;
    while cycle < CYCLE_MAP_SIZE
      invariant start <= cycle && busy[..] == old(busy[..])
      invariant forall k :: start <= k < cycle ==> !Free(busy[..], k, uop)
    {
      if Runs(uop, 2) && busy[cycle][2] == NULL {
        if commit { busy[cycle] := busy[cycle][2 := uop]; }
        return Some(cycle);
      }
      if Runs(uop, 0) && busy[cycle][0] == NULL {
        if commit { busy[cycle] := busy[cycle][0 := uop]; }
        return Some(cycle);
      }
      if Runs(uop, 1) && busy[cycle][1] == NULL {
        if commit { busy[cycle] := busy[cycle][1 := uop]; }
        return Some(cycle);
      }
      cycle := cycle + 1;
    }
    r := None;
  }

  /**
   * `schedule_mop`: the least cycle at which all needed ports are free together. Committing takes
   * the preferred units there and leaves every other entry alone.
   */
  method ScheduleMop(commit: bool, m: MacroOp, busy: array<Row>, cycleIn: nat, depCycle: nat) returns (r: Option<nat>)
    requires busy.Length == CYCLE_MAP_SIZE && Schedulable(m)
    modifies busy
    ensures IsEarliest(old(busy[..]), StartCycle(m, cycleIn, depCycle), m, r)
    ensures r == Earliest(old(busy[..]), StartCycle(m, cycleIn, depCycle), m)
    ensures if r.Some? then m.uop1 != NULL ==> r.value < CYCLE_MAP_SIZE else m.uop1 != NULL
    ensures busy[..] == if commit && r.Some? then Book(old(busy[..]), r.value, m) else old(busy[..])
  {
    var cycle := StartCycle(m, cycleIn, depCycle);
    ghost var g := busy[..];
    if m.uop1 == NULL {
      r := Some(cycle);
      assert Book(g, cycle, m) == g;
    } else if m.uop2 == NULL {
      r := ScheduleUop(commit, m.uop1, busy, cycle);
    } else {
      r := SchedulePair(commit, m, busy, cycle);
    }
    EarliestUnique(g, cycle, m, r);
  }

  /** The search for a cycle that suits both micro-ops of a wide multiplication. */
  method SchedulePair(commit: bool, m: MacroOp, busy: array<Row>, start: nat) returns (r: Option<nat>)
    requires busy.Length == CYCLE_MAP_SIZE && m.uop1 == P1 && m.uop2 == P5
    modifies busy
    ensures IsEarliest(old(busy[..]), start, m, r)
    ensures r.Some? ==> r.value < CYCLE_MAP_SIZE
    ensures busy[..] == if commit && r.Some? then Book(old(busy[..]), r.value, m) else old(busy[..])
  {
    var cycle := start;
    ghost var g := busy[..];
    while cycle < CYCLE_MAP_SIZE
      invariant start <= cycle && busy[..] == g
      invariant forall k :: start <= k < cycle ==> !Fits(g, k, m)
    {
      var cycle1 := ScheduleUop(false, m.uop1, busy, cycle);
      var cycle2 := ScheduleUop(false, m.uop2, busy, cycle);
      if cycle1.Some? && cycle1 == cycle2 {
        r := cycle1;
        var c := cycle1.value;
        if commit {
          var c1 := ScheduleUop(true, m.uop1, busy, c);
          assert c1 == Some(c) && busy[..] == g[c := g[c][1 := P1]];
          assert Free(busy[..], c, P5) by { assert busy[..][c][2] == NULL; }
          var c2 := ScheduleUop(true, m.uop2, busy, c);
          assert c2 == Some(c);
        }
        return;
      }
      assert !Fits(g, cycle, m);
      cycle := cycle + 1;
    }
    r := None;
  }
}
