/**
 * The history of a generation (`ScProgram::generate`): every committed macro-op with its decode
 * slot, its cycle and its units, and what a program, a port map and a register table owe to it.
 */
module ScHistory {
  import opened Wrappers
  import opened Superscalar
  import opened ByteStream
  import opened PortMap

  datatype RegisterInfo = RegisterInfo(latency: nat, lastOpGroup: Op, lastOpPar: int)

  /**
   * A macro-op of `op`, decoded in slot `slot` of decode cycle `decodeCycle`, executed in `cycle` on
   * `units`; its instruction was drawn at place `from` of the stream.
   */
  datatype Commit = Commit(op: Op, index: nat, decodeCycle: nat, slot: nat, cycle: nat, units: set<nat>, from: Cursor)

  type Event = e: Commit | e.index < |InfoOf(e.op).macroOps| witness Commit(ISUB_R, 0, 0, 0, 0, {0}, Cursor(0, 0))

  function Mop(e: Event): MacroOp { InfoOf(e.op).macroOps[e.index] }

  // ---------- ports ----------

  /** Some event occupies unit `u` in cycle `c`. */
  ghost predicate Occupied(h: seq<Event>, c: int, u: nat)
  {
    exists k :: 0 <= k < |h| && h[k].cycle == c && u in h[k].units
  }

  ghost predicate OnPorts(e: Event)
  {
    Takes(Mop(e), e.units) && (e.units != {} ==> e.cycle < CYCLE_MAP_SIZE)
  }

  /** The port map that the macro-ops of a history leave, each taking its preferred units. */
  ghost function Replay(h: seq<Event>): (rows: seq<Row>)
    ensures |rows| == CYCLE_MAP_SIZE
  {
    if h == [] then seq(CYCLE_MAP_SIZE, _ => [NULL, NULL, NULL])
    else var n := |h| - 1; Book(Replay(h[..n]), h[n].cycle, Mop(h[n]))
  }

  /** The units are those that the scheduler prefers in the map as it is when the macro-op is committed. */
  ghost predicate PrefersAt(h: seq<Event>, k: int)
    requires 0 <= k < |h|
  {
    var rows := Replay(h[..k]);
    Fits(rows, h[k].cycle, Mop(h[k])) && (h[k].cycle < |rows| ==> h[k].units == UnitsOf(rows[h[k].cycle], Mop(h[k])))
  }

  /**
   * No unit of a cycle is allocated twice, the busy entries of the map are exactly the allocated
   * ones, and every macro-op takes the units that the scheduler prefers.
   */
  ghost predicate Ports(h: seq<Event>, rows: seq<Row>)
  {
    && |rows| == CYCLE_MAP_SIZE && rows == Replay(h)
    && (forall k :: 0 <= k < |h| ==> PrefersAt(h, k))
    && (forall k :: 0 <= k < |h| ==> OnPorts(h[k]))
    && (forall i, j :: 0 <= i < j < |h| && h[i].cycle == h[j].cycle ==> h[i].units !! h[j].units)
    && (forall c, u: nat :: 0 <= c < |rows| && u < 3 ==> (rows[c][u] != NULL <==> Occupied(h, c, u)))
  }

  lemma OccupiedNext(h: seq<Event>, e: Event, c: int, u: nat)
    ensures Occupied(h + [e], c, u) <==> Occupied(h, c, u) || (e.cycle == c && u in e.units)
  {
    var g := h + [e];
    assert forall k :: 0 <= k < |h| ==> g[k] == h[k];
    if e.cycle == c && u in e.units {
      assert g[|h|] == e;
    }
    if Occupied(h, c, u) {
      var k :| 0 <= k < |h| && h[k].cycle == c && u in h[k].units;
      assert g[k] == h[k];
    }
  }

  /** A committed macro-op takes only idle entries, so no entry is ever allocated twice. */
  lemma PortsNext(h: seq<Event>, before: seq<Row>, e: Event, after: seq<Row>)
    requires Ports(h, before) && Fits(before, e.cycle, Mop(e)) && (Mop(e).uop1 != NULL ==> e.cycle < |before|)
    requires e.units == (if e.cycle < |before| then UnitsOf(before[e.cycle], Mop(e)) else {})
    requires after == Book(before, e.cycle, Mop(e))
    ensures Ports(h + [e], after)
  {
    hide OnPorts, Occupied, InfoOf, Book, UnitsOf, Fits, Replay, PrefersAt, BusyAfter, Takes;
    EventTakes(before, e, after);
    PrefersNext(h, e);
    EntriesNext(h, before, e, after);
  }

  lemma EventTakes(before: seq<Row>, e: Event, after: seq<Row>)
    requires Fits(before, e.cycle, Mop(e)) && (Mop(e).uop1 != NULL ==> e.cycle < |before| == CYCLE_MAP_SIZE)
    requires e.units == (if e.cycle < |before| then UnitsOf(before[e.cycle], Mop(e)) else {})
    requires after == Book(before, e.cycle, Mop(e))
    ensures OnPorts(e) && BusyAfter(before, after, e.cycle, e.units)
  {
    hide InfoOf, Fits;
    if e.cycle < |before| {
      UnitsTaken(before, e.cycle, Mop(e));
    }
  }

  lemma PrefersNext(h: seq<Event>, e: Event)
    requires forall k :: 0 <= k < |h| ==> PrefersAt(h, k)
    requires var rows := Replay(h);
      Fits(rows, e.cycle, Mop(e)) && (e.cycle < |rows| ==> e.units == UnitsOf(rows[e.cycle], Mop(e)))
    ensures forall k :: 0 <= k < |h| + 1 ==> PrefersAt(h + [e], k)
    ensures Replay(h + [e]) == Book(Replay(h), e.cycle, Mop(e))
  {
    hide InfoOf, Fits, UnitsOf, Book;
    var g := h + [e];
    assert g[..|h|] == h;
    forall k | 0 <= k < |g|
      ensures PrefersAt(g, k)
    {
      if k < |h| {
        assert PrefersAt(h, k) && g[..k] == h[..k];
      }
    }
  }

  lemma EntriesNext(h: seq<Event>, before: seq<Row>, e: Event, after: seq<Row>)
    requires Ports(h, before) && OnPorts(e) && BusyAfter(before, after, e.cycle, e.units)
    ensures var g := h + [e];
      && |after| == CYCLE_MAP_SIZE
      && (forall k :: 0 <= k < |g| ==> OnPorts(g[k]))
      && (forall i, j :: 0 <= i < j < |g| && g[i].cycle == g[j].cycle ==> g[i].units !! g[j].units)
      && (forall c, u: nat :: 0 <= c < |after| && u < 3 ==> (after[c][u] != NULL <==> Occupied(g, c, u)))
  {
    hide OnPorts, Occupied, Replay, PrefersAt, InfoOf;
    var g := h + [e];
    forall c, u: nat | 0 <= c < |after| && u < 3
      ensures after[c][u] != NULL <==> Occupied(g, c, u)
    {
      OccupiedNext(h, e, c, u);
      assert before[c][u] != NULL <==> Occupied(h, c, u);
      assert EntryAfter(before, after, e.cycle, e.units, c, u);
    }
    forall k | 0 <= k < |h| && h[k].cycle == e.cycle
      ensures h[k].units !! e.units
    {
      DisjointFrom(h, before, e, after, k);
    }
  }

  lemma DisjointFrom(h: seq<Event>, before: seq<Row>, e: Event, after: seq<Row>, k: nat)
    requires Ports(h, before) && OnPorts(e) && BusyAfter(before, after, e.cycle, e.units)
    requires k < |h| && h[k].cycle == e.cycle
    ensures h[k].units !! e.units
  {
    hide InfoOf, Replay, PrefersAt;
    forall u | u in h[k].units
      ensures u !in e.units
    {
      assert OnPorts(h[k]);
      assert Occupied(h, e.cycle, u);
      assert EntryAfter(before, after, e.cycle, e.units, e.cycle, u);
    }
  }

  // ---------- decode slots ----------

  /** The event is decoded in a real slot that is large enough, and executes no earlier than it is decoded. */
  ghost predicate InBuffer(e: Event, buffers: seq<DecoderBuffer>)
  {
    && e.decodeCycle < |buffers| && e.decodeCycle <= e.cycle
    && var b := buffers[e.decodeCycle];
    && IsBuffer(b) && e.slot < |b.counts| && Mop(e).size <= b.counts[e.slot]
  }

  predicate Earlier(e: Event, decodeCycle: int, slot: int)
  {
    e.decodeCycle < decodeCycle || (e.decodeCycle == decodeCycle && e.slot < slot)
  }

  /** Slots are filled in order, each at most once, by macro-ops no larger than the slot. */
  ghost predicate Slots(h: seq<Event>, buffers: seq<DecoderBuffer>)
  {
    && (forall k :: 0 <= k < |h| ==> InBuffer(h[k], buffers))
    && (forall i, j :: 0 <= i < j < |h| ==> Earlier(h[i], h[j].decodeCycle, h[j].slot))
  }

  ghost predicate AllEarlier(h: seq<Event>, decodeCycle: int, slot: int)
  {
    forall k :: 0 <= k < |h| ==> Earlier(h[k], decodeCycle, slot)
  }

  lemma AllEarlierNext(h: seq<Event>, decodeCycle: int, slot: int)
    requires AllEarlier(h, decodeCycle, slot)
    ensures AllEarlier(h, decodeCycle + 1, 0)
  {
  }

  lemma SlotsNext(h: seq<Event>, buffers: seq<DecoderBuffer>, e: Event)
    requires Slots(h, buffers) && InBuffer(e, buffers) && AllEarlier(h, e.decodeCycle, e.slot)
    ensures Slots(h + [e], buffers) && AllEarlier(h + [e], e.decodeCycle, e.slot + 1)
  {
    hide InBuffer;
  }

  lemma SlotsFetched(h: seq<Event>, buffers: seq<DecoderBuffer>, b: DecoderBuffer)
    requires Slots(h, buffers)
    ensures Slots(h, buffers + [b])
  {
    hide IsBuffer, Earlier, InfoOf;
    forall k | 0 <= k < |h|
      ensures InBuffer(h[k], buffers + [b])
    {
      assert InBuffer(h[k], buffers);
    }
  }

  /** The bytes of all committed macro-ops. */
  ghost function CodeBytes(h: seq<Event>): nat
  {
    if h == [] then 0 else CodeBytes(h[..|h| - 1]) + Mop(h[|h| - 1]).size
  }

  /** The code size is that of the history, and bounded by the slots used so far. */
  ghost predicate Sized(codeSize: nat, decodeCycle: nat, h: seq<Event>, counts: seq<nat>, slot: nat)
  {
    && slot <= |counts| && codeSize == CodeBytes(h)
    && codeSize <= 16 * decodeCycle + SlotBytes(counts, slot)
  }

  lemma SizedNext(codeSize: nat, decodeCycle: nat, h: seq<Event>, counts: seq<nat>, slot: nat, e: Event)
    requires Sized(codeSize, decodeCycle, h, counts, slot) && slot < |counts| && Mop(e).size <= counts[slot]
    ensures Sized(codeSize + Mop(e).size, decodeCycle, h + [e], counts, slot + 1)
  {
    hide InfoOf;
    assert (h + [e])[..|h|] == h;
  }

  lemma SizedStart(codeSize: nat, decodeCycle: nat, h: seq<Event>, counts: seq<nat>)
    requires codeSize == CodeBytes(h) && codeSize <= 16 * decodeCycle
    ensures Sized(codeSize, decodeCycle, h, counts, 0)
  {
  }

  lemma SizedFull(codeSize: nat, decodeCycle: nat, h: seq<Event>, b: DecoderBuffer, slot: nat)
    requires IsBuffer(b) && Sized(codeSize, decodeCycle, h, b.counts, slot)
    ensures codeSize == CodeBytes(h) && codeSize <= 16 * (decodeCycle + 1)
  {
    hide CodeBytes;
    BufferHolds16(b, slot);
  }

  // ---------- instructions ----------

  /** An event after the first of its instruction follows the one before it, and its result if it depends on it. */
  ghost predicate Follows(h: seq<Event>, e: Event)
  {
    e.index > 0 ==>
      && h != []
      && var last := h[|h| - 1];
      && last.op == e.op && last.index == e.index - 1 && last.from == e.from
      && (Mop(e).dependent ==> last.cycle + Mop(last).latency <= e.cycle)
  }

  ghost predicate Grouped(h: seq<Event>)
  {
    forall p :: 0 <= p < |h| ==> FollowsAt(h, p)
  }

  ghost predicate FollowsAt(h: seq<Event>, p: int)
    requires 0 <= p < |h|
  {
    Follows(h[..p], h[p])
  }

  lemma GroupedNext(h: seq<Event>, e: Event)
    requires Grouped(h) && Follows(h, e)
    ensures Grouped(h + [e])
  {
    hide Follows;
    var g := h + [e];
    forall p | 0 <= p < |g|
      ensures FollowsAt(g, p)
    {
      assert g[..p] == if p < |h| then h[..p] else h;
      assert p < |h| ==> FollowsAt(h, p);
    }
  }

  predicate Completes(e: Event) { e.index + 1 == |InfoOf(e.op).macroOps| }

  /** The positions of the events that complete an instruction. */
  ghost function Retired(h: seq<Event>): (s: seq<nat>)
    ensures forall k :: 0 <= k < |s| ==> s[k] < |h| && Completes(h[s[k]])
  {
    if h == [] then []
    else var n := |h| - 1; Retired(h[..n]) + if Completes(h[n]) then [n] else []
  }

  /** The position of macro-op `index` of the instruction that event `p` completes. */
  function MacroOpAt(h: seq<Event>, p: nat, index: int): int
    requires p < |h|
  {
    p - (|InfoOf(h[p].op).macroOps| - 1 - index)
  }

  /** All macro-ops of a completed instruction stand in the history, one after the other. */
  lemma {:induction false} WholeInstruction(h: seq<Event>, p: nat, index: nat)
    requires Grouped(h) && p < |h| && index <= h[p].index
    ensures var q := p - (h[p].index - index);
      0 <= q && h[q].op == h[p].op && h[q].index == index
    decreases h[p].index - index
  {
    hide InfoOf;
    if index < h[p].index {
      assert FollowsAt(h, p);
      WholeInstruction(h, p - 1, index);
    }
  }

  /** The cycle of the result macro-op of the instruction that event `p` completes. */
  ghost function IssueAt(h: seq<Event>, p: nat): nat
    requires p < |h|
  {
    var q := MacroOpAt(h, p, InfoOf(h[p].op).resultOp);
    if 0 <= q < |h| then h[q].cycle else 0
  }

  /** The result cycles of the completed instructions. */
  ghost function Issues(h: seq<Event>): (s: seq<nat>)
    ensures |s| == |Retired(h)|
  {
    if h == [] then []
    else var n := |h| - 1; Issues(h[..n]) + if Completes(h[n]) then [IssueAt(h, n)] else []
  }

  /** The instructions of a program are those that the history completes. */
  ghost predicate Emits(h: seq<Event>, prog: seq<ScInstr>)
  {
    |prog| == |Retired(h)| && forall k :: 0 <= k < |prog| ==> prog[k].op == h[Retired(h)[k]].op
  }

  /** Each result cycle is that of an event that is the instruction's result macro-op. */
  lemma {:induction false} IssuesAreEvents(h: seq<Event>, k: nat)
    requires Grouped(h) && k < |Retired(h)|
    ensures var p := Retired(h)[k];
      && p < |h|
      && var q := MacroOpAt(h, p, InfoOf(h[p].op).resultOp);
      && 0 <= q <= p && h[q].op == h[p].op && h[q].index == InfoOf(h[p].op).resultOp && Issues(h)[k] == h[q].cycle
  {
    hide Follows, Grouped, InfoOf, Retired, Issues, IssueAt;
    var n := |h| - 1;
    assert h != [] by { NothingRetired(h); }
    assert h == h[..n] + [h[n]];
    RetiredNext(h[..n], h[n]);
    if k < |Retired(h[..n])| {
      GroupedPrefix(h, n);
      IssuesAreEvents(h[..n], k);
    } else {
      LastIssue(h);
    }
  }

  lemma LastIssue(h: seq<Event>)
    requires Grouped(h) && h != [] && Completes(h[|h| - 1])
    ensures var p := |h| - 1;
      && Retired(h) == Retired(h[..p]) + [p] && |Issues(h)| == |Retired(h)|
      && var q := MacroOpAt(h, p, InfoOf(h[p].op).resultOp);
      && 0 <= q <= p && h[q].op == h[p].op && h[q].index == InfoOf(h[p].op).resultOp
      && Issues(h)[|Issues(h)| - 1] == h[q].cycle
  {
    hide Follows, Grouped, InfoOf;
    var p := |h| - 1;
    HasResult(h[p]);
    WholeInstruction(h, p, InfoOf(h[p].op).resultOp);
  }

  lemma NothingRetired(h: seq<Event>)
    ensures h == [] ==> Retired(h) == []
  {
  }

  lemma HasResult(e: Event)
    ensures e.op != INVALID && 0 <= InfoOf(e.op).resultOp < |InfoOf(e.op).macroOps|
  {
  }

  lemma GroupedPrefix(h: seq<Event>, n: nat)
    requires Grouped(h) && n <= |h|
    ensures Grouped(h[..n])
  {
    hide Follows;
    var g := h[..n];
    forall p | 0 <= p < n
      ensures FollowsAt(g, p)
    {
      assert g[..p] == h[..p] && FollowsAt(h, p);
    }
  }

  /** One more event: an instruction is retired exactly when the event completes it. */
  lemma RetiredNext(h: seq<Event>, e: Event)
    ensures Retired(h + [e]) == Retired(h) + if Completes(e) then [|h|] else []
    ensures Issues(h + [e]) == Issues(h) + if Completes(e) then [IssueAt(h + [e], |h|)] else []
  {
    assert (h + [e])[..|h|] == h;
  }

  lemma EmitsNext(h: seq<Event>, e: Event, prog: seq<ScInstr>, i: ScInstr)
    requires Emits(h, prog) && Completes(e) && i.op == e.op
    ensures Emits(h + [e], prog + [i])
  {
    hide Completes, Retired;
    RetiredNext(h, e);
    var g := h + [e];
    assert forall k :: 0 <= k < |h| ==> g[k] == h[k];
  }

  lemma EmitsMore(h: seq<Event>, e: Event, prog: seq<ScInstr>)
    requires Emits(h, prog) && !Completes(e)
    ensures Emits(h + [e], prog)
  {
    hide Completes, Retired;
    RetiredNext(h, e);
    var g := h + [e];
    assert forall k :: 0 <= k < |h| ==> g[k] == h[k];
  }

  // ---------- the record of a program ----------

  /** The program is the one that the history completes, with these result cycles. */
  ghost predicate Recorded(h: seq<Event>, prog: seq<ScInstr>, issues: seq<nat>)
  {
    Grouped(h) && issues == Issues(h) && Emits(h, prog)
  }

  /** The history ends with macro-op `index - 1` of an unfinished instruction. */
  ghost predicate Tail(h: seq<Event>, op: Op, index: nat, issue: nat, depCycle: nat, from: Cursor)
  {
    index > 0 ==>
      && h != []
      && var last := h[|h| - 1];
      && last.op == op && last.index == index - 1 && depCycle == last.cycle + Mop(last).latency && last.from == from
      && (index > InfoOf(op).resultOp ==> last.index == InfoOf(op).resultOp && issue == last.cycle)
  }

  /** After event `e` the instruction `i` is either retired, with result cycle `issue`, or unfinished. */
  ghost predicate Extends(
      h: seq<Event>, e: Event, prog: seq<ScInstr>, issues: seq<nat>, i: ScInstr, issue: nat, depCycle: nat)
  {
    if Completes(e) then Recorded(h + [e], prog + [i], issues + [issue])
    else Recorded(h + [e], prog, issues) && Tail(h + [e], e.op, e.index + 1, issue, depCycle, e.from)
  }

  lemma RecordNext(
      h: seq<Event>, e: Event, prog: seq<ScInstr>, issues: seq<nat>, i: ScInstr, before: nat, issue: nat, depCycle: nat)
    requires Recorded(h, prog, issues) && i.op == e.op && Tail(h, e.op, e.index, before, depCycle, e.from)
    requires Mop(e).dependent && e.index > 0 ==> depCycle <= e.cycle
    requires issue == if e.index == InfoOf(e.op).resultOp then e.cycle else before
    ensures Extends(h, e, prog, issues, i, issue, e.cycle + Mop(e).latency)
  {
    hide Issues, Retired, Emits, Grouped, InfoOf;
    GroupedNext(h, e);
    RetiredNext(h, e);
    IssueKnown(h, e, before, issue, depCycle);
    if Completes(e) {
      EmitsNext(h, e, prog, i);
    } else {
      EmitsMore(h, e, prog);
    }
  }

  lemma IssueKnown(h: seq<Event>, e: Event, before: nat, issue: nat, depCycle: nat)
    requires Tail(h, e.op, e.index, before, depCycle, e.from)
    requires issue == if e.index == InfoOf(e.op).resultOp then e.cycle else before
    ensures Completes(e) ==> IssueAt(h + [e], |h|) == issue
    ensures !Completes(e) ==> Tail(h + [e], e.op, e.index + 1, issue, e.cycle + Mop(e).latency, e.from)
  {
    hide InfoOf;
    HasResult(e);
    InfoKinds(e.op);
  }

  // ---------- timing ----------

  /** The register that would repeat the operation and operand of its latest writer. */
  predicate Repeats(instr: ScInstr, v: RegisterInfo)
  {
    v.lastOpGroup == instr.opGroup && v.lastOpPar == instr.opGroupPar
  }

  /** What a result does to its destination register. */
  function ResultInfo(i: ScInstr, issue: nat): RegisterInfo
  {
    RegisterInfo(issue + ResultLatency(i.op), i.opGroup, i.opGroupPar)
  }

  /** The latest write to register `r` by a program whose results are issued in the cycles `issues`. */
  ghost function LastWrite(prog: seq<ScInstr>, issues: seq<nat>, r: int): RegisterInfo
    requires |prog| == |issues|
  {
    if prog == [] then RegisterInfo(0, INVALID, -1)
    else
      var n := |prog| - 1;
      if prog[n].dst == r then ResultInfo(prog[n], issues[n]) else LastWrite(prog[..n], issues[..n], r)
  }

  /**
   * The source is not read before it is ready, the result moves its register's ready cycle forward,
   * and the instruction does not repeat the register's latest operation.
   */
  ghost predicate Timely(prog: seq<ScInstr>, issues: seq<nat>, i: ScInstr, issue: nat)
    requires |prog| == |issues|
  {
    && (ReadsSource(i.op) ==> LastWrite(prog, issues, i.src).latency <= issue)
    && LastWrite(prog, issues, i.dst).latency < issue + ResultLatency(i.op)
    && !Repeats(i, LastWrite(prog, issues, i.dst))
  }

  /** A whole program whose instruction `k` issues its result macro-op in cycle `issues[k]`. */
  ghost predicate Scheduled(prog: seq<ScInstr>, issues: seq<nat>)
  {
    && |prog| == |issues|
    && forall k :: 0 <= k < |prog| ==> WellFormed(prog[k]) && Timely(prog[..k], issues[..k], prog[k], issues[k])
  }

  ghost function Multiplications(prog: seq<ScInstr>): nat
  {
    if prog == [] then 0
    else
      var n := |prog| - 1;
      Multiplications(prog[..n]) + if IsMultiplication(prog[n].op) then 1 else 0
  }

  lemma ScheduledNext(prog: seq<ScInstr>, issues: seq<nat>, i: ScInstr, issue: nat)
    requires Scheduled(prog, issues) && WellFormed(i) && Timely(prog, issues, i, issue)
    ensures Scheduled(prog + [i], issues + [issue])
    ensures forall r :: LastWrite(prog + [i], issues + [issue], r) ==
                        if r == i.dst then ResultInfo(i, issue) else LastWrite(prog, issues, r)
    ensures Multiplications(prog + [i]) == Multiplications(prog) + if IsMultiplication(i.op) then 1 else 0
  {
    var p, t := prog + [i], issues + [issue];
    assert p[..|prog|] == prog && t[..|prog|] == issues;
    forall k | 0 <= k < |p|
      ensures WellFormed(p[k]) && Timely(p[..k], t[..k], p[k], t[k])
    {
      if k < |prog| {
        assert p[..k] == prog[..k] && t[..k] == issues[..k];
      }
    }
  }

  /** The register table is that of the program's results and of `latest`, a result not yet in the program. */
  ghost predicate InSync(
      regs: seq<RegisterInfo>, prog: seq<ScInstr>, issues: seq<nat>, latest: Option<(int, RegisterInfo)>)
    requires |prog| == |issues| && |regs| == 8
  {
    forall r :: 0 <= r < 8 ==>
      regs[r] == if latest.Some? && r == latest.value.0 then latest.value.1 else LastWrite(prog, issues, r)
  }

  lemma SyncAppend(regs: seq<RegisterInfo>, prog: seq<ScInstr>, issues: seq<nat>, i: ScInstr, issue: nat)
    requires |regs| == 8 && Scheduled(prog, issues) && WellFormed(i) && Timely(prog, issues, i, issue)
    requires InSync(regs, prog, issues, Some((i.dst, ResultInfo(i, issue))))
    ensures InSync(regs, prog + [i], issues + [issue], None)
  {
    hide Scheduled, Timely, WellFormed, LastWrite, ResultInfo, Multiplications;
    ScheduledNext(prog, issues, i, issue);
  }
}
