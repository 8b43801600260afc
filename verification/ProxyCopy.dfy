/** The two-way proxy: two copy loops between two endpoints, one abort, one waiting
    caller, in every order in which their steps and the outside world's can happen. */
module ProxyCopy {
  import opened Bytes

  datatype End = A | B

  /** Forth copies from A to B, Back from B to A. */
  datatype Side = Forth | Back

  datatype Error = CopyError(side: Side) | CloseError(side: Side)

  /** An endpoint: what has arrived from outside so far and whether that was all; how many
      bytes the outside takes so far; which directions of it are open; whether it was
      aborted; what is out of order on its own account; and whether its CloseWrite closes
      only the write side. */
  datatype Endpoint = Endpoint(
    given: Text,
    ended: bool,
    room: nat,
    readable: bool,
    writable: bool,
    aborted: bool,
    readFault: bool,
    writeFault: bool,
    closeFault: bool,
    halfCloses: bool)

  /** Where a copy loop is: copying, about to half-close its target, about to abort, about
      to report, or done. Later phases carry what went wrong, if anything did. */
  datatype Phase =
    | Copying
    | Closing(copied: Option<Error>)
    | Aborting(error: Error)
    | Reporting(report: Option<Error>)
    | Ended(report: Option<Error>)

  /** One copy loop: how much it read, what it read and has not written yet, and what it
      wrote. */
  datatype Direction = Direction(pos: nat, pending: Text, written: Text, phase: Phase)

  /** The outcome of Proxy is the error it returns, if any. */
  datatype Proxy = Proxy(
    a: Endpoint,
    b: Endpoint,
    forth: Direction,
    back: Direction,
    aborts: nat,
    reports: seq<Option<Error>>,
    closed: bool,
    outcome: Option<Option<Error>>)

  /** The first six are the outside world's, the others are the proxy's own. */
  datatype Step =
    | Give(end: End, data: Text)
    | Finish(end: End)
    | Grant(end: End, n: nat)
    | BreakRead(end: End)
    | BreakWrite(end: End)
    | BreakClose(end: End)
    | Read(side: Side, n: nat)
    | ReadEnd(side: Side)
    | ReadFails(side: Side)
    | Write(side: Side, n: nat)
    | WriteFails(side: Side)
    | HalfClose(side: Side, ok: bool)
    | Abort(side: Side)
    | Report(side: Side)
    | Return

  predicate IsFault(step: Step) {
    step.BreakRead? || step.BreakWrite? || step.BreakClose?
  }

  predicate FromOutside(step: Step) {
    step.Give? || step.Finish? || step.Grant? || IsFault(step)
  }

  function Fresh(halfCloses: bool): Endpoint {
    Endpoint([], false, 0, true, true, false, false, false, false, halfCloses)
  }

  function Start(ha: bool, hb: bool): Proxy {
    Proxy(Fresh(ha), Fresh(hb), Direction(0, [], [], Copying), Direction(0, [], [], Copying), 0, [], false, None)
  }

  function Dir(p: Proxy, side: Side): Direction {
    if side.Forth? then p.forth else p.back
  }

  function Src(p: Proxy, side: Side): Endpoint {
    if side.Forth? then p.a else p.b
  }

  function Dst(p: Proxy, side: Side): Endpoint {
    if side.Forth? then p.b else p.a
  }

  function Put(p: Proxy, side: Side, d: Direction): Proxy {
    if side.Forth? then p.(forth := d) else p.(back := d)
  }

  function Move(p: Proxy, side: Side, phase: Phase): Proxy {
    Put(p, side, Dir(p, side).(phase := phase))
  }

  function PutEnd(p: Proxy, end: End, e: Endpoint): Proxy {
    if end.A? then p.(a := e) else p.(b := e)
  }

  function At(p: Proxy, end: End): Endpoint {
    if end.A? then p.a else p.b
  }

  /** What CloseWrite leaves of an endpoint. */
  function WriteClosed(e: Endpoint): Endpoint {
    e.(writable := false, readable := e.readable && e.halfCloses)
  }

  function CloseTarget(p: Proxy, side: Side): Proxy {
    PutEnd(p, if side.Forth? then B else A, WriteClosed(Dst(p, side)))
  }

  function AbortBoth(p: Proxy): Proxy {
    p.(a := p.a.(aborted := true), b := p.b.(aborted := true), aborts := 1)
  }

  /** What the outside world does to an endpoint. */
  function Outside(e: Endpoint, step: Step): Endpoint
    requires FromOutside(step)
  {
    match step
    case Give(_, data) => if e.ended then e else e.(given := e.given + data)
    case Finish(_) => e.(ended := true)
    case Grant(_, n) => e.(room := e.room + n)
    case BreakRead(_) => e.(readFault := true)
    case BreakWrite(_) => e.(writeFault := true)
    case BreakClose(_) => e.(closeFault := true)
  }

  /** A read returns data only if some has arrived, ends only if the source ended, and
      fails only on a fault, an abort or a closed endpoint; otherwise it waits. */
  function Reads(p: Proxy, step: Step): Proxy
    requires step.Read? || step.ReadEnd? || step.ReadFails?
  {
    var d, e := Dir(p, step.side), Src(p, step.side);
    if d.phase != Copying || d.pending != [] then p
    else match step
      case Read(side, n) =>
        if n == 0 || d.pos + n > |e.given| || !e.readable then p
        else Put(p, side, d.(pos := d.pos + n, pending := e.given[d.pos..d.pos + n]))
      case ReadEnd(side) =>
        if !e.ended || d.pos != |e.given| || !e.readable then p else Move(p, side, Closing(None))
      case ReadFails(side) =>
        if !(e.readFault || e.aborted || !e.readable) then p else Move(p, side, Closing(Some(CopyError(side))))
  }

  /** A write goes as far as the outside takes it, and fails only on a fault, an abort or
      a closed endpoint; otherwise it waits. */
  function Writes(p: Proxy, step: Step): Proxy
    requires step.Write? || step.WriteFails?
  {
    var d, e := Dir(p, step.side), Dst(p, step.side);
    if d.phase != Copying || d.pending == [] then p
    else match step
      case Write(side, n) =>
        if n == 0 || n > |d.pending| || |d.written| + n > e.room || !e.writable || e.aborted then p
        else Put(p, side, d.(pending := d.pending[n..], written := d.written + d.pending[..n]))
      case WriteFails(side) =>
        if !(e.writeFault || e.aborted || !e.writable) then p
        else Put(p, side, d.(pending := [], phase := Closing(Some(CopyError(side)))))
  }

  /** The half-close, which fails only on a fault or an abort; a direction that failed
      before goes on with its first error. */
  function HalfCloses(p: Proxy, side: Side, ok: bool): Proxy {
    var d, e := Dir(p, side), Dst(p, side);
    if !d.phase.Closing? || (!ok && !(e.closeFault || e.aborted || e.writeFault)) then p
    else
      var phase :=
        if d.phase.copied.Some? then Aborting(d.phase.copied.value)
        else if !ok then Aborting(CloseError(side))
        else Reporting(None);
      Move(CloseTarget(p, side), side, phase)
  }

  function Aborts(p: Proxy, side: Side): Proxy {
    var phase := Dir(p, side).phase;
    if !phase.Aborting? then p else Move(AbortBoth(p), side, Reporting(Some(phase.error)))
  }

  function Reports(p: Proxy, side: Side): Proxy {
    var phase := Dir(p, side).phase;
    if !phase.Reporting? then p else Move(p.(reports := p.reports + [phase.report]), side, Ended(phase.report))
  }

  /** The caller waits for both reports, closes both endpoints and returns. */
  function Returns(p: Proxy): Proxy {
    if |p.reports| != 2 || p.closed then p
    else p.(closed := true, outcome := Some(if p.reports[0].Some? then p.reports[0] else p.reports[1]))
  }

  /** One step of the world, of a loop or of the caller; an impossible one changes
      nothing. */
  function Apply(p: Proxy, step: Step): Proxy {
    if FromOutside(step) then PutEnd(p, step.end, Outside(At(p, step.end), step))
    else if step.Read? || step.ReadEnd? || step.ReadFails? then Reads(p, step)
    else if step.Write? || step.WriteFails? then Writes(p, step)
    else if step.HalfClose? then HalfCloses(p, step.side, step.ok)
    else if step.Abort? then Aborts(p, step.side)
    else if step.Report? then Reports(p, step.side)
    else Returns(p)
  }

  function Continue(p: Proxy, steps: seq<Step>): Proxy {
    if steps == [] then p else Apply(Continue(p, steps[..|steps| - 1]), steps[|steps| - 1])
  }

  function Run(ha: bool, hb: bool, steps: seq<Step>): Proxy {
    Continue(Start(ha, hb), steps)
  }

  // ---------- what every interleaving keeps ----------

  predicate Failed(d: Direction) {
    match d.phase
    case Copying => false
    case Closing(e) => e.Some?
    case Aborting(_) => true
    case Reporting(e) => e.Some?
    case Ended(e) => e.Some?
  }

  /** A direction that is past its abort. */
  predicate PastAbort(d: Direction) {
    (d.phase.Reporting? || d.phase.Ended?) && d.phase.report.Some?
  }

  /** A loop has written what it read, in order; it keeps its target open for writing until
      it half-closes it itself; and once it is done without error, it has delivered all. */
  predicate DirectionOk(d: Direction, src: Endpoint, dst: Endpoint) {
    && d.pos <= |src.given|
    && d.written <= src.given[..d.pos] && |d.written| <= dst.room
    && (d.phase == Copying ==> d.written + d.pending == src.given[..d.pos])
    && (d.phase != Copying ==> d.pending == [])
    && (d.phase == Copying || d.phase.Closing? ==> dst.writable)
    && (d.phase != Copying && !Failed(d) ==> src.ended && d.written == src.given)
    && (src.halfCloses ==> src.readable)
  }

  function EndedCount(p: Proxy): nat {
    (if p.forth.phase.Ended? then 1 else 0) + (if p.back.phase.Ended? then 1 else 0)
  }

  /** The reports are those of the directions that ended, in the order they came in. */
  predicate ReportsOk(p: Proxy) {
    && |p.reports| == EndedCount(p)
    && (p.forth.phase.Ended? && !p.back.phase.Ended? ==> p.reports == [p.forth.phase.report])
    && (!p.forth.phase.Ended? && p.back.phase.Ended? ==> p.reports == [p.back.phase.report])
    && (p.forth.phase.Ended? && p.back.phase.Ended? ==>
          || p.reports == [p.forth.phase.report, p.back.phase.report]
          || p.reports == [p.back.phase.report, p.forth.phase.report])
  }

  predicate AbortsOk(p: Proxy) {
    && p.aborts <= 1 && (p.aborts == 1 <==> PastAbort(p.forth) || PastAbort(p.back))
    && p.a.aborted == p.b.aborted == (p.aborts == 1)
  }

  predicate OutcomeOk(p: Proxy) {
    && (p.closed <==> p.outcome.Some?)
    && (p.closed ==> |p.reports| == 2 && p.outcome.value == if p.reports[0].Some? then p.reports[0] else p.reports[1])
  }

  predicate Inv(p: Proxy) {
    && DirectionOk(p.forth, p.a, p.b) && DirectionOk(p.back, p.b, p.a)
    && AbortsOk(p) && ReportsOk(p) && OutcomeOk(p)
  }

  /** What a step of anybody else can do to the two endpoints of a direction. */
  predicate Undisturbed(src: Endpoint, dst: Endpoint, src': Endpoint, dst': Endpoint) {
    && src.given <= src'.given && (src.ended ==> src'.ended && src'.given == src.given)
    && dst.room <= dst'.room && dst'.writable == dst.writable
    && src'.halfCloses == src.halfCloses && (src.halfCloses ==> src'.readable == src.readable)
  }

  lemma UndisturbedOk(d: Direction, src: Endpoint, dst: Endpoint, src': Endpoint, dst': Endpoint)
    requires DirectionOk(d, src, dst) && Undisturbed(src, dst, src', dst')
    ensures DirectionOk(d, src', dst')
  {
    assert src'.given[..d.pos] == src.given[..d.pos];
  }

  lemma ReadsOk(p: Proxy, step: Step)
    requires step.Read? || step.ReadEnd? || step.ReadFails?
    requires DirectionOk(Dir(p, step.side), Src(p, step.side), Dst(p, step.side))
    ensures var q := Reads(p, step);
      DirectionOk(Dir(q, step.side), Src(q, step.side), Dst(q, step.side))
  {
    var d, e := Dir(p, step.side), Src(p, step.side);
    assert d.written + [] == d.written;
    if step.Read? && d.pos + step.n <= |e.given| {
      assert e.given[..d.pos] + e.given[d.pos..d.pos + step.n] == e.given[..d.pos + step.n];
    }
    assert e.given[..|e.given|] == e.given;
  }

  lemma WritesOk(p: Proxy, step: Step)
    requires step.Write? || step.WriteFails?
    requires DirectionOk(Dir(p, step.side), Src(p, step.side), Dst(p, step.side))
    ensures var q := Writes(p, step);
      DirectionOk(Dir(q, step.side), Src(q, step.side), Dst(q, step.side))
  {
    var d := Dir(p, step.side);
    if step.Write? && step.n <= |d.pending| {
      assert (d.written + d.pending[..step.n]) + d.pending[step.n..] == d.written + d.pending;
    }
  }

  lemma HalfClosesOk(p: Proxy, side: Side, ok: bool)
    requires DirectionOk(Dir(p, side), Src(p, side), Dst(p, side))
    ensures var q := HalfCloses(p, side, ok);
      DirectionOk(Dir(q, side), Src(q, side), Dst(q, side))
  {
  }

  lemma LastStepsOk(p: Proxy, side: Side)
    requires DirectionOk(Dir(p, side), Src(p, side), Dst(p, side))
    ensures var q := Aborts(p, side); DirectionOk(Dir(q, side), Src(q, side), Dst(q, side))
    ensures var q := Reports(p, side); DirectionOk(Dir(q, side), Src(q, side), Dst(q, side))
  {
  }

  /** A direction is touched only by its own steps; the world and the other direction leave
      it undisturbed. */
  predicate LeavesAlone(p: Proxy, q: Proxy, side: Side) {
    Dir(q, side) == Dir(p, side) && Undisturbed(Src(p, side), Dst(p, side), Src(q, side), Dst(q, side))
  }

  lemma OutsideLeavesAlone(p: Proxy, step: Step, side: Side)
    requires FromOutside(step)
    ensures LeavesAlone(p, Apply(p, step), side)
  {
    hide Reads, Writes, HalfCloses, Aborts, Reports, Returns;
  }

  lemma CopiesLeaveAlone(p: Proxy, step: Step, side: Side)
    requires step.Read? || step.ReadEnd? || step.ReadFails? || step.Write? || step.WriteFails?
    requires step.side != side
    ensures LeavesAlone(p, Apply(p, step), side)
  {
    hide HalfCloses, Aborts, Reports, Returns;
  }

  lemma LastStepsLeaveAlone(p: Proxy, step: Step, side: Side)
    requires step.Return? || ((step.HalfClose? || step.Abort? || step.Report?) && step.side != side)
    ensures LeavesAlone(p, Apply(p, step), side)
  {
    hide Reads, Writes;
  }

  lemma DirectionStep(p: Proxy, step: Step, side: Side)
    requires DirectionOk(Dir(p, side), Src(p, side), Dst(p, side))
    ensures var q := Apply(p, step);
      DirectionOk(Dir(q, side), Src(q, side), Dst(q, side))
  {
    hide DirectionOk, Reads, Writes, HalfCloses, Aborts, Reports, Returns, Outside;
    if FromOutside(step) || step.Return? || step.side != side {
      if FromOutside(step) {
        OutsideLeavesAlone(p, step, side);
      } else if step.Return? || step.HalfClose? || step.Abort? || step.Report? {
        LastStepsLeaveAlone(p, step, side);
      } else {
        CopiesLeaveAlone(p, step, side);
      }
      var q := Apply(p, step);
      UndisturbedOk(Dir(p, side), Src(p, side), Dst(p, side), Src(q, side), Dst(q, side));
    } else if step.Write? || step.WriteFails? {
      WritesOk(p, step);
    } else if step.HalfClose? {
      HalfClosesOk(p, side, step.ok);
    } else if step.Abort? || step.Report? {
      LastStepsOk(p, side);
    } else {
      ReadsOk(p, step);
    }
  }

  /** Reads, writes and the world do not touch the end of the work. */
  lemma CopiesKeepEnding(p: Proxy, step: Step)
    requires FromOutside(step) || step.Read? || step.ReadEnd? || step.ReadFails? || step.Write? || step.WriteFails?
    ensures var q := Apply(p, step);
      && q.aborts == p.aborts && q.reports == p.reports && q.closed == p.closed && q.outcome == p.outcome
      && q.a.aborted == p.a.aborted && q.b.aborted == p.b.aborted
      && (q.forth.phase == p.forth.phase || (p.forth.phase == Copying && q.forth.phase.Closing?))
      && (q.back.phase == p.back.phase || (p.back.phase == Copying && q.back.phase.Closing?))
  {
    hide HalfCloses, Aborts, Reports, Returns;
  }

  lemma ReportsStep(p: Proxy, step: Step)
    requires ReportsOk(p)
    ensures ReportsOk(Apply(p, step))
  {
    if FromOutside(step) || step.Read? || step.ReadEnd? || step.ReadFails? || step.Write? || step.WriteFails? {
      CopiesKeepEnding(p, step);
      hide Apply;
    } else {
      hide Reads, Writes, Outside;
    }
  }

  lemma AbortsStep(p: Proxy, step: Step)
    requires AbortsOk(p)
    ensures AbortsOk(Apply(p, step))
  {
    if FromOutside(step) || step.Read? || step.ReadEnd? || step.ReadFails? || step.Write? || step.WriteFails? {
      CopiesKeepEnding(p, step);
      hide Apply;
    } else {
      hide Reads, Writes, Outside;
    }
  }

  lemma OutcomeStep(p: Proxy, step: Step)
    requires ReportsOk(p) && OutcomeOk(p)
    ensures OutcomeOk(Apply(p, step))
  {
    if FromOutside(step) || step.Read? || step.ReadEnd? || step.ReadFails? || step.Write? || step.WriteFails? {
      CopiesKeepEnding(p, step);
      hide Apply;
    } else {
      hide Reads, Writes, Outside;
    }
  }

  lemma InvStep(p: Proxy, step: Step)
    requires Inv(p)
    ensures Inv(Apply(p, step))
  {
    hide DirectionOk, ReportsOk, AbortsOk, OutcomeOk, Apply;
    DirectionStep(p, step, Forth);
    DirectionStep(p, step, Back);
    ReportsStep(p, step);
    AbortsStep(p, step);
    OutcomeStep(p, step);
  }

  lemma {:induction false} InvKept(p: Proxy, steps: seq<Step>)
    requires Inv(p)
    ensures Inv(Continue(p, steps))
  {
    hide Inv, Apply;
    if steps != [] {
      InvKept(p, steps[..|steps| - 1]);
      InvStep(Continue(p, steps[..|steps| - 1]), steps[|steps| - 1]);
    }
  }

  lemma InvInEveryRun(ha: bool, hb: bool, steps: seq<Step>)
    ensures Inv(Run(ha, hb, steps))
  {
    InvKept(Start(ha, hb), steps);
  }

  /** In every interleaving: each target got a prefix of what its source gave; abort ran at
      most once, and only after an error; the endpoints are closed only after both
      directions ended; the caller gets nil exactly when neither direction failed, and then
      both sources ended and were delivered completely; otherwise it gets the error of a
      direction. */
  lemma ProxySafety(ha: bool, hb: bool, steps: seq<Step>)
    ensures var p := Run(ha, hb, steps);
      && p.forth.written <= p.a.given && p.back.written <= p.b.given
      && p.aborts <= 1 && (p.aborts == 1 ==> Failed(p.forth) || Failed(p.back))
      && (p.closed ==> p.forth.phase.Ended? && p.back.phase.Ended?)
      && (p.closed <==> p.outcome.Some?)
      && (p.closed ==> (p.outcome.value == None <==> !Failed(p.forth) && !Failed(p.back)))
      && (p.closed && p.outcome.value == None ==>
            p.aborts == 0 && p.a.ended && p.forth.written == p.a.given && p.b.ended && p.back.written == p.b.given)
      && (p.closed && p.outcome.value.Some? ==>
            p.aborts == 1 && (p.outcome.value == p.forth.phase.report || p.outcome.value == p.back.phase.report))
  {
    InvInEveryRun(ha, hb, steps);
    hide Run;
  }

  // ---------- what an error says ----------

  function ErrorOf(d: Direction): Option<Error> {
    match d.phase
    case Copying => None
    case Closing(e) => e
    case Aborting(e) => Some(e)
    case Reporting(e) => e
    case Ended(e) => e
  }

  /** A direction's error names that direction, and is a close error only if all data had
      been delivered and the half-close alone went wrong. */
  predicate ErrorTells(d: Direction, src: Endpoint, side: Side) {
    ErrorOf(d).Some? ==>
      && ErrorOf(d).value.side == side
      && (ErrorOf(d).value.CloseError? ==> src.ended && d.written == src.given && !d.phase.Closing?)
  }

  lemma OwnErrorTells(p: Proxy, step: Step, side: Side)
    requires DirectionOk(Dir(p, side), Src(p, side), Dst(p, side)) && ErrorTells(Dir(p, side), Src(p, side), side)
    requires !FromOutside(step) && !step.Return? && step.side == side
    ensures var q := Apply(p, step); ErrorTells(Dir(q, side), Src(q, side), side)
  {
    if step.HalfClose? {
      hide Reads, Writes, Aborts, Reports;
    } else if step.Abort? || step.Report? {
      hide Reads, Writes, HalfCloses, DirectionOk;
    } else {
      hide HalfCloses, Aborts, Reports, DirectionOk;
    }
  }

  lemma ErrorStep(p: Proxy, step: Step, side: Side)
    requires Inv(p) && ErrorTells(Dir(p, side), Src(p, side), side)
    ensures var q := Apply(p, step); ErrorTells(Dir(q, side), Src(q, side), side)
  {
    hide Apply, DirectionOk;
    if FromOutside(step) {
      OutsideLeavesAlone(p, step, side);
    } else if step.Return? || (step.side != side && (step.HalfClose? || step.Abort? || step.Report?)) {
      LastStepsLeaveAlone(p, step, side);
    } else if step.side != side {
      CopiesLeaveAlone(p, step, side);
    } else {
      OwnErrorTells(p, step, side);
    }
  }

  /** In every interleaving, the caller's error names the direction that failed, and if it is
      a close error that direction had delivered everything. */
  lemma {:induction false} ErrorsTell(ha: bool, hb: bool, steps: seq<Step>)
    ensures var p := Run(ha, hb, steps);
      && ErrorTells(p.forth, p.a, Forth) && ErrorTells(p.back, p.b, Back)
      && (p.outcome.Some? && p.outcome.value.Some? ==>
            var e := p.outcome.value.value;
            ErrorOf(Dir(p, e.side)) == Some(e) && (e.CloseError? ==> Dir(p, e.side).written == Src(p, e.side).given))
  {
    if steps != [] {
      var n := |steps| - 1;
      ErrorsTell(ha, hb, steps[..n]);
      InvInEveryRun(ha, hb, steps[..n]);
      hide Apply, Inv;
      ErrorStep(Run(ha, hb, steps[..n]), steps[n], Forth);
      ErrorStep(Run(ha, hb, steps[..n]), steps[n], Back);
    }
    ProxySafety(ha, hb, steps);
    hide Run;
  }

  // ---------- runs without faults ----------

  predicate Sound(e: Endpoint) {
    !e.readFault && !e.writeFault && !e.closeFault && e.halfCloses
  }

  /** Nothing has gone wrong, and no copy loop has anything to fear: its source can be
      read, its target can be written, and neither was aborted. */
  predicate Calm(p: Proxy) {
    && Sound(p.a) && Sound(p.b) && p.aborts == 0 && !Failed(p.forth) && !Failed(p.back)
  }

  predicate FlagsUp(p: Proxy, side: Side) {
    var src, dst := Src(p, side), Dst(p, side);
    Dir(p, side).phase == Copying ==>
      src.readable && !src.aborted && !src.readFault && dst.writable && !dst.aborted && !dst.writeFault
  }

  lemma CalmFlags(p: Proxy)
    requires Inv(p) && Calm(p)
    ensures FlagsUp(p, Forth) && FlagsUp(p, Back)
  {
  }

  lemma CalmCopies(p: Proxy, step: Step)
    requires Inv(p) && Calm(p)
    requires step.Read? || step.ReadEnd? || step.ReadFails? || step.Write? || step.WriteFails?
    ensures Calm(Apply(p, step))
    ensures step.ReadFails? || step.WriteFails? ==> Apply(p, step) == p
  {
    CalmFlags(p);
    hide Inv, HalfCloses, Aborts, Reports, Returns;
  }

  lemma CalmLastSteps(p: Proxy, step: Step)
    requires Inv(p) && Calm(p)
    requires step.HalfClose? || step.Abort? || step.Report? || step.Return?
    ensures Calm(Apply(p, step))
    ensures (step.HalfClose? && !step.ok) || step.Abort? ==> Apply(p, step) == p
  {
    assert !p.a.aborted && !p.b.aborted;
    hide Inv, Reads, Writes, Outside;
  }

  lemma CalmStep(p: Proxy, step: Step)
    requires Inv(p) && Calm(p) && !IsFault(step)
    ensures Calm(Apply(p, step))
  {
    if FromOutside(step) {
      hide Inv, Reads, Writes, HalfCloses, Aborts, Reports, Returns;
    } else if step.HalfClose? || step.Abort? || step.Report? || step.Return? {
      CalmLastSteps(p, step);
      hide Apply;
    } else {
      CalmCopies(p, step);
      hide Apply;
    }
  }

  predicate FaultFree(steps: seq<Step>) {
    forall k | 0 <= k < |steps| :: !IsFault(steps[k])
  }

  lemma {:induction false} FaultFreeCalm(steps: seq<Step>)
    requires FaultFree(steps)
    ensures Inv(Run(true, true, steps)) && Calm(Run(true, true, steps))
  {
    InvInEveryRun(true, true, steps);
    hide Apply, Inv;
    if steps != [] {
      var n := |steps| - 1;
      InvInEveryRun(true, true, steps[..n]);
      FaultFreeCalm(steps[..n]);
      CalmStep(Run(true, true, steps[..n]), steps[n]);
    }
  }

  /** When CloseWrite closes only the write side and nothing breaks by itself, no copy loop
      ever finds its source closed or its target closed, whatever the other direction has
      done; no read, write or half-close can fail; nothing is aborted; and when the caller
      returns it returns nil with both directions delivered in full. */
  lemma FaultFreeRunsDeliver(steps: seq<Step>, side: Side)
    requires FaultFree(steps)
    ensures var p := Run(true, true, steps);
      && FlagsUp(p, side) && p.aborts == 0 && !Failed(Dir(p, side))
      && Apply(p, ReadFails(side)) == p && Apply(p, WriteFails(side)) == p && Apply(p, HalfClose(side, false)) == p
      && (p.closed ==> p.outcome == Some(None) && Dir(p, side).written == Src(p, side).given && Src(p, side).ended)
  {
    FaultFreeCalm(steps);
    var p := Run(true, true, steps);
    CalmFlags(p);
    CalmCopies(p, ReadFails(side));
    CalmCopies(p, WriteFails(side));
    CalmLastSteps(p, HalfClose(side, false));
    ProxySafety(true, true, steps);
    hide Apply, Run;
  }

  /** The response of one side to a request that the other side has half-closed. */
  function RequestResponse(side: Side): seq<Step> {
    var (from, to) := if side.Forth? then (A, B) else (B, A);
    var other := if side.Forth? then Back else Forth;
    [Finish(from), ReadEnd(side), HalfClose(side, true), Give(to, [0]), ReadFails(other)]
  }

  /** Fault-free runs never fail if and only if both CloseWrites close only the write
      side. The fallback for connections without a write side to close, which closes the
      whole connection, loses the response. */
  lemma NeverFailsExactlyWhen(ha: bool, hb: bool)
    ensures (forall steps: seq<Step> | FaultFree(steps) :: !Failed(Run(ha, hb, steps).forth) && !Failed(Run(ha, hb, steps).back))
       <==> ha && hb
  {
    if ha && hb {
      forall steps: seq<Step> | FaultFree(steps) ensures !Failed(Run(ha, hb, steps).forth) && !Failed(Run(ha, hb, steps).back) {
        FaultFreeCalm(steps);
      }
    } else {
      var side := if hb then Back else Forth;
      assert FaultFree(RequestResponse(side));
      ResponseLost(ha, hb, side);
    }
  }

  lemma ResponseLost(ha: bool, hb: bool, side: Side)
    requires !(if side.Forth? then hb else ha)
    ensures var p := Run(ha, hb, RequestResponse(side)); Failed(p.forth) || Failed(p.back)
  {
    var steps, other := RequestResponse(side), if side.Forth? then Back else Forth;
    RunOfFive(Start(ha, hb), steps);
    RequestClosed(ha, hb, side);
    var p := Apply(Apply(Apply(Start(ha, hb), steps[0]), steps[1]), steps[2]);
    hide Start, Writes, HalfCloses, Aborts, Reports, Returns;
    var q := Apply(p, steps[3]);
    assert !Src(q, other).readable && Dir(q, other) == Direction(0, [], [], Copying);
    assert Failed(Dir(Apply(q, steps[4]), other));
  }

  lemma RequestClosed(ha: bool, hb: bool, side: Side)
    requires !(if side.Forth? then hb else ha)
    ensures var steps, other := RequestResponse(side), if side.Forth? then Back else Forth;
      var p := Apply(Apply(Apply(Start(ha, hb), steps[0]), steps[1]), steps[2]);
      !Src(p, other).readable && Dir(p, other) == Direction(0, [], [], Copying)
  {
    hide Writes, Aborts, Reports, Returns;
    var steps, other := RequestResponse(side), if side.Forth? then Back else Forth;
    var p := Apply(Apply(Start(ha, hb), steps[0]), steps[1]);
    assert Dir(p, side).phase == Closing(None) && !Dst(p, side).halfCloses && Dir(p, other) == Direction(0, [], [], Copying);
  }

  lemma RunOfFive(p: Proxy, steps: seq<Step>)
    requires |steps| == 5
    ensures Continue(p, steps) == Apply(Apply(Apply(Apply(Apply(p, steps[0]), steps[1]), steps[2]), steps[3]), steps[4])
  {
    hide Apply;
    assert steps[..4][..3] == steps[..3] && steps[..3][..2] == steps[..2] && steps[..2][..1] == steps[..1] && steps[..1][..0] == [];
    assert Continue(p, steps[..1]) == Apply(p, steps[0]);
    assert Continue(p, steps[..2]) == Apply(Continue(p, steps[..1]), steps[1]);
    assert Continue(p, steps[..3]) == Apply(Continue(p, steps[..2]), steps[2]);
    assert Continue(p, steps[..4]) == Apply(Continue(p, steps[..3]), steps[3]);
  }

  // ---------- when the caller returns ----------

  /** A loop waits: for data that has not arrived, or for room that is not there. */
  predicate Waits(p: Proxy, side: Side) {
    var d, src, dst := Dir(p, side), Src(p, side), Dst(p, side);
    && d.phase == Copying
    && if d.pending == [] then src.readable && !src.aborted && !src.readFault && !src.ended && d.pos == |src.given|
       else dst.writable && !dst.aborted && !dst.writeFault && |d.written| == dst.room
  }

  /** The proxy can take a step of its own. */
  ghost predicate CanMove(p: Proxy) {
    exists step: Step :: !FromOutside(step) && Apply(p, step) != p
  }

  lemma WaitingMoves(p: Proxy, side: Side)
    requires DirectionOk(Dir(p, side), Src(p, side), Dst(p, side)) && !Dir(p, side).phase.Ended? && !Waits(p, side)
    ensures CanMove(p)
  {
    var d, src, dst := Dir(p, side), Src(p, side), Dst(p, side);
    var step := match d.phase
      case Copying =>
        if d.pending == [] then
          if src.aborted || src.readFault || !src.readable then ReadFails(side)
          else if d.pos < |src.given| then Read(side, 1) else ReadEnd(side)
        else if dst.aborted || dst.writeFault || !dst.writable then WriteFails(side) else Write(side, 1)
      case Closing(_) => HalfClose(side, true)
      case Aborting(_) => Abort(side)
      case _ => Report(side);
    assert Dir(Apply(p, step), side) != d;
    assert !FromOutside(step);
  }

  /** Where the proxy has come to rest without returning, a loop waits. */
  lemma MovesOrWaits(p: Proxy)
    requires Inv(p) && !p.closed
    ensures CanMove(p) || Waits(p, Forth) || Waits(p, Back)
  {
    if p.forth.phase.Ended? && p.back.phase.Ended? {
      assert Apply(p, Return) != p;
    } else if !p.forth.phase.Ended? && !Waits(p, Forth) {
      WaitingMoves(p, Forth);
    } else if !p.back.phase.Ended? && !Waits(p, Back) {
      WaitingMoves(p, Back);
    }
  }

  /** Whatever the outside world has done in whatever order: once the proxy has done all it
      can, the caller has returned if and only if something failed and was aborted, or both
      sources have ended and each target takes all that its source gave. */
  lemma ReturnsExactlyWhen(ha: bool, hb: bool, steps: seq<Step>)
    ensures var p := Run(ha, hb, steps);
      !CanMove(p) ==>
        (p.closed <==> p.aborts > 0 || (p.a.ended && p.b.ended && |p.a.given| <= p.b.room && |p.b.given| <= p.a.room))
  {
    InvInEveryRun(ha, hb, steps);
    var p := Run(ha, hb, steps);
    hide Run;
    if !p.closed {
      MovesOrWaits(p);
    }
    hide CanMove, Apply;
  }

  /** Without faults that is up to the outside world alone: the caller returns if and only
      if both sources end and both targets take everything. */
  lemma FaultFreeReturnsExactlyWhen(steps: seq<Step>)
    requires FaultFree(steps)
    ensures var p := Run(true, true, steps);
      !CanMove(p) ==> (p.closed <==> p.a.ended && p.b.ended && |p.a.given| <= p.b.room && |p.b.given| <= p.a.room)
  {
    ReturnsExactlyWhen(true, true, steps);
    FaultFreeCalm(steps);
    hide Run, CanMove;
  }

  function PhaseWork(phase: Phase): nat {
    match phase
    case Copying => 4
    case Closing(_) => 3
    case Aborting(_) => 2
    case Reporting(_) => 1
    case Ended(_) => 0
  }

  /** What a loop may still do with what has arrived. */
  function DirectionWork(d: Direction, src: Endpoint): nat {
    (if d.pos <= |src.given| then 2 * (|src.given| - d.pos) else 0) + |d.pending| + PhaseWork(d.phase)
  }

  function Work(p: Proxy): nat {
    DirectionWork(p.forth, p.a) + DirectionWork(p.back, p.b) + if p.closed then 0 else 1
  }

  /** What it may still do after an abort: one last read at most, and the way out. */
  function DirectionBudget(d: Direction): nat {
    PhaseWork(d.phase) + if d.phase == Copying && d.pending == [] then 1 else 0
  }

  function Budget(p: Proxy): (n: nat)
    ensures n <= 11
  {
    DirectionBudget(p.forth) + DirectionBudget(p.back) + if p.closed then 0 else 1
  }

  /** One direction's step leaves it less to do, and the other direction no more. */
  predicate Cheaper(p: Proxy, q: Proxy) {
    && Work(q) < Work(p)
    && (p.aborts > 0 ==> Budget(q) < Budget(p))
  }

  lemma ReadCosts(p: Proxy, step: Step)
    requires Inv(p) && (step.Read? || step.ReadEnd? || step.ReadFails?) && Reads(p, step) != p
    ensures Cheaper(p, Reads(p, step))
  {
  }

  lemma WriteCosts(p: Proxy, step: Step)
    requires Inv(p) && (step.Write? || step.WriteFails?) && Writes(p, step) != p
    ensures Cheaper(p, Writes(p, step))
  {
  }

  lemma HalfCloseCosts(p: Proxy, side: Side, ok: bool)
    requires HalfCloses(p, side, ok) != p
    ensures Cheaper(p, HalfCloses(p, side, ok))
  {
  }

  lemma AbortCosts(p: Proxy, side: Side)
    requires Aborts(p, side) != p
    ensures Cheaper(p, Aborts(p, side))
  {
  }

  lemma ReportCosts(p: Proxy, side: Side)
    requires Reports(p, side) != p
    ensures Cheaper(p, Reports(p, side))
  {
  }

  lemma OwnStepCosts(p: Proxy, step: Step)
    requires Inv(p) && !FromOutside(step) && Apply(p, step) != p
    ensures Cheaper(p, Apply(p, step))
  {
    if step.Return? {
      hide Inv;
    } else {
      hide Inv, Cheaper, Reads, Writes, HalfCloses, Aborts, Reports;
      if step.Read? || step.ReadEnd? || step.ReadFails? {
        ReadCosts(p, step);
      } else if step.Write? || step.WriteFails? {
        WriteCosts(p, step);
      } else if step.HalfClose? {
        HalfCloseCosts(p, step.side, step.ok);
      } else if step.Abort? {
        AbortCosts(p, step.side);
      } else {
        ReportCosts(p, step.side);
      }
    }
  }

  /** Every step of the proxy's own costs some of its work, and after an abort some of a
      budget that the outside world cannot change. */
  lemma StepsCost(p: Proxy, step: Step)
    requires Inv(p)
    ensures var q := Apply(p, step);
      && (!FromOutside(step) && q != p ==> Work(q) < Work(p))
      && (p.aborts > 0 ==> q.aborts > 0 && Budget(q) <= Budget(p) && (!FromOutside(step) && q != p ==> Budget(q) < Budget(p)))
  {
    AbortsStep(p, step);
    AbortsKept(p, step);
    if FromOutside(step) {
      hide Inv, Reads, Writes, HalfCloses, Aborts, Reports, Returns;
    } else if Apply(p, step) != p {
      OwnStepCosts(p, step);
      hide Apply, Budget, Work, Inv;
    }
  }

  lemma AbortsKept(p: Proxy, step: Step)
    ensures p.aborts > 0 ==> Apply(p, step).aborts > 0
  {
    if FromOutside(step) || step.Read? || step.ReadEnd? || step.ReadFails? || step.Write? || step.WriteFails? {
      CopiesKeepEnding(p, step);
      hide Apply;
    } else {
      hide Reads, Writes, Outside;
    }
  }

  /** How many of the steps are the proxy's own and do happen. */
  function Happened(p: Proxy, steps: seq<Step>): nat {
    if steps == [] then 0
    else
      var before, step := Continue(p, steps[..|steps| - 1]), steps[|steps| - 1];
      Happened(p, steps[..|steps| - 1]) + if !FromOutside(step) && Apply(before, step) != before then 1 else 0
  }

  /** After an abort the caller needs nobody: whatever the outside world does or leaves
      undone, at most eleven more steps of the proxy's own can happen, and until the caller
      has returned there is always one that can. */
  lemma {:induction false} AbortFreesCaller(p: Proxy, steps: seq<Step>)
    requires Inv(p) && p.aborts > 0
    ensures var q := Continue(p, steps);
      && q.aborts > 0 && Happened(p, steps) + Budget(q) <= Budget(p) <= 11
      && (!q.closed ==> CanMove(q))
  {
    hide Inv, Apply, CanMove, Budget;
    InvKept(p, steps);
    if steps != [] {
      var before := Continue(p, steps[..|steps| - 1]);
      AbortFreesCaller(p, steps[..|steps| - 1]);
      InvKept(p, steps[..|steps| - 1]);
      StepsCost(before, steps[|steps| - 1]);
    }
    if !Continue(p, steps).closed {
      AbortedMoves(Continue(p, steps));
    }
  }

  lemma AbortedMoves(p: Proxy)
    requires Inv(p) && p.aborts > 0 && !p.closed
    ensures CanMove(p)
  {
    MovesOrWaits(p);
    hide CanMove;
  }

  /** Without news from outside, the proxy comes to rest after a bounded number of steps,
      abort or not. */
  lemma {:induction false} ComesToRest(p: Proxy, steps: seq<Step>)
    requires Inv(p) && forall k | 0 <= k < |steps| :: !FromOutside(steps[k])
    ensures Happened(p, steps) + Work(Continue(p, steps)) <= Work(p)
  {
    hide Inv, Apply, Work;
    if steps != [] {
      var n := |steps| - 1;
      ComesToRest(p, steps[..n]);
      InvKept(p, steps[..n]);
      StepsCost(Continue(p, steps[..n]), steps[n]);
    }
  }
}
