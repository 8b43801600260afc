/** The client's reconnecting session to one server. Its mutex is held across the dial,
    so every operation is one step. Times are in milliseconds. */
module UpstreamSession {
  import opened Bytes

  const BACKOFF: seq<int> := [500, 1000, 2000, 4000, 8000, 16000]

  /** The wait after failure number k of a streak, counted from 0. */
  function Delay(k: nat): int {
    if k < |BACKOFF| then BACKOFF[k] else BACKOFF[|BACKOFF| - 1]
  }

  /** A dial: when it started and the connection it gave, if any. */
  datatype Dial = Dial(start: int, result: Option<nat>)

  /** The session's fields, with all dials so far and the connections it has closed. */
  datatype Session = Session(
    conn: Option<nat>,
    closed: bool,
    nextDial: Option<int>,
    failCount: nat,
    dials: seq<Dial>,
    ended: set<nat>)

  datatype Got = Conn(conn: nat) | SessionClosed | BackingOff(until: int) | DialFailed

  /** connection(): `alive` says whether the current connection still works, `outcome`
      what a dial would give. */
  function Connect(s: Session, now: int, alive: bool, outcome: Option<nat>): (Session, Got) {
    if s.closed then (s, SessionClosed)
    else if s.conn.Some? && alive then (s, Conn(s.conn.value))
    else
      var t := End(s);
      if t.nextDial.Some? && now < t.nextDial.value then (t, BackingOff(t.nextDial.value))
      else
        var u := t.(dials := t.dials + [Dial(now, outcome)]);
        match outcome
        case Some(c) => (u.(conn := Some(c), nextDial := None, failCount := 0), Conn(c))
        case None => (u.(nextDial := Some(now + Delay(t.failCount)), failCount := t.failCount + 1), DialFailed)
  }

  /** Closes the current connection, if there is one. */
  function End(s: Session): Session {
    match s.conn
    case None => s
    case Some(c) => s.(conn := None, ended := s.ended + {c})
  }

  datatype Op = Get(now: int, alive: bool, outcome: Option<nat>) | DropConn(conn: nat) | CloseSession

  function Apply(s: Session, op: Op): Session {
    match op
    case Get(now, alive, outcome) => Connect(s, now, alive, outcome).0
    case DropConn(c) => if s.conn == Some(c) then End(s) else s
    case CloseSession => End(s).(closed := true)
  }

  const FRESH := Session(None, false, None, 0, [], {})

  function Run(ops: seq<Op>): Session {
    if ops == [] then FRESH else Apply(Run(ops[..|ops| - 1]), ops[|ops| - 1])
  }

  class ReconnectingSession {
    var conn: Option<nat>
    var closed: bool
    var nextDial: Option<int>
    var failCount: nat
    var ended: set<nat>
    ghost var dials: seq<Dial>

    ghost function State(): Session
      reads this
    {
      Session(conn, closed, nextDial, failCount, dials, ended)
    }

    constructor ()
      ensures State() == FRESH
    {
      conn, closed, nextDial, failCount, ended, dials := None, false, None, 0, {}, [];
    }

    method EndConn()
      modifies this`conn, this`ended
      ensures State() == End(old(State()))
    {
      if conn.Some? {
        ended := ended + {conn.value};
        conn := None;
      }
    }

    method Connection(now: int, alive: bool, outcome: Option<nat>) returns (r: Got)
      modifies this
      ensures (State(), r) == Connect(old(State()), now, alive, outcome)
    {
      if closed {
        return SessionClosed;
      }
      if conn.Some? && alive {
        return Conn(conn.value);
      }
      EndConn();
      if nextDial.Some? && now < nextDial.value {
        return BackingOff(nextDial.value);
      }
      dials := dials + [Dial(now, outcome)];
      if outcome.None? {
        RecordDialFailure(now);
        return DialFailed;
      }
      conn := outcome;
      nextDial, failCount := None, 0;
      r := Conn(outcome.value);
    }

    method RecordDialFailure(now: int)
      modifies this`failCount, this`nextDial
      ensures failCount == old(failCount) + 1 && nextDial == Some(now + Delay(old(failCount)))
    {
      var delay := BACKOFF[|BACKOFF| - 1];
      if failCount < |BACKOFF| {
        delay := BACKOFF[failCount];
      }
      failCount := failCount + 1;
      nextDial := Some(now + delay);
    }

    method Drop(c: nat)
      modifies this
      ensures State() == Apply(old(State()), DropConn(c))
    {
      if conn == Some(c) {
        EndConn();
      }
    }

    method Close()
      modifies this
      ensures State() == Apply(old(State()), CloseSession)
    {
      closed := true;
      EndConn();
    }
  }

  // ---------- what every run keeps ----------

  /** The failures at the end of a list of dials. */
  function Streak(dials: seq<Dial>): nat {
    if dials == [] || dials[|dials| - 1].result.Some? then 0 else 1 + Streak(dials[..|dials| - 1])
  }

  /** A dial after a failed one waited out the delay for the streak so far. */
  ghost predicate SpacedAt(dials: seq<Dial>, k: nat)
    requires 0 < k < |dials|
  {
    dials[k - 1].result.None? ==>
      Streak(dials[..k]) > 0 && dials[k].start >= dials[k - 1].start + Delay(Streak(dials[..k]) - 1)
  }

  ghost predicate Spaced(dials: seq<Dial>) {
    forall k | 0 < k < |dials| :: SpacedAt(dials, k)
  }

  ghost predicate Inv(s: Session) {
    && (forall d | d in s.dials && d.result.Some? :: s.conn == d.result || d.result.value in s.ended)
    && (s.conn.Some? ==> exists d :: d in s.dials && d.result == s.conn)
    && (s.closed ==> s.conn.None?)
    && s.failCount == Streak(s.dials)
    && s.nextDial == (if s.failCount == 0 then None else Some(s.dials[|s.dials| - 1].start + Delay(s.failCount - 1)))
    && Spaced(s.dials)
  }

  lemma SpacedSnoc(dials: seq<Dial>, d: Dial)
    requires Spaced(dials)
    requires Streak(dials) > 0 ==> d.start >= dials[|dials| - 1].start + Delay(Streak(dials) - 1)
    ensures Spaced(dials + [d])
    ensures Streak(dials + [d]) == if d.result.Some? then 0 else 1 + Streak(dials)
  {
    var more := dials + [d];
    assert more[..|dials|] == dials;
    hide Streak, Delay;
    forall k | 0 < k < |more| ensures SpacedAt(more, k) {
      if k < |dials| {
        assert SpacedAt(dials, k);
        assert more[..k] == dials[..k];
      } else {
        StreakPositive(dials);
      }
    }
  }

  lemma StreakPositive(dials: seq<Dial>)
    ensures Streak(dials) > 0 <==> dials != [] && dials[|dials| - 1].result.None?
  {
  }

  lemma InvStep(s: Session, op: Op)
    requires Inv(s)
    ensures Inv(Apply(s, op))
  {
    EndKeeps(s);
    hide Inv;
    if op.Get? {
      GetKeeps(s, op.now, op.alive, op.outcome);
    } else if op.CloseSession? {
      ClosedKeeps(End(s));
    }
  }

  lemma GetKeeps(s: Session, now: int, alive: bool, outcome: Option<nat>)
    requires Inv(s)
    ensures Inv(Connect(s, now, alive, outcome).0)
  {
    EndKeeps(s);
    hide Inv, Delay, End;
    var t := End(s);
    if !s.closed && !(s.conn.Some? && alive) && (t.nextDial.None? || now >= t.nextDial.value) {
      DialKeeps(t, now, outcome);
    }
  }

  lemma EndKeeps(s: Session)
    requires Inv(s)
    ensures Inv(End(s)) && End(s).conn == None && End(s).closed == s.closed
    ensures End(s).nextDial == s.nextDial && End(s).failCount == s.failCount
  {
    hide Spaced, Streak, Delay;
  }

  lemma ClosedKeeps(s: Session)
    requires Inv(s) && s.conn == None
    ensures Inv(s.(closed := true))
  {
    hide Spaced, Streak, Delay;
  }

  lemma DialKeeps(t: Session, now: int, outcome: Option<nat>)
    requires Inv(t) && !t.closed && t.conn == None && (t.nextDial.None? || now >= t.nextDial.value)
    ensures var u := t.(dials := t.dials + [Dial(now, outcome)]);
      Inv(match outcome
          case Some(c) => u.(conn := Some(c), nextDial := None, failCount := 0)
          case None => u.(nextDial := Some(now + Delay(t.failCount)), failCount := t.failCount + 1))
  {
    var d := Dial(now, outcome);
    SpacedSnoc(t.dials, d);
    hide Spaced, Streak, Delay;
    var more := t.dials + [d];
    assert more[|t.dials|] == d && d in more;
    assert forall x | x in more :: x in t.dials || x == d;
  }

  lemma {:induction false} InvInEveryRun(ops: seq<Op>)
    ensures Inv(Run(ops))
  {
    hide Apply, Inv;
    if ops == [] {
      FreshInv();
    } else {
      InvInEveryRun(ops[..|ops| - 1]);
      InvStep(Run(ops[..|ops| - 1]), ops[|ops| - 1]);
    }
  }

  lemma FreshInv()
    ensures Inv(FRESH)
  {
  }

  /** In every run, every connection a dial gave is the current one or was closed by the
      session: none is lost. */
  lemma NoConnectionLost(ops: seq<Op>, d: Dial)
    ensures d in Run(ops).dials && d.result.Some? ==> Run(ops).conn == d.result || d.result.value in Run(ops).ended
  {
    InvInEveryRun(ops);
  }

  // ---------- what a request for a connection gives ----------

  /** The wait after n failing dials in a row: doubling from half a second to 16 seconds. */
  function Wait(n: nat): int
    requires n >= 1
  {
    if n <= 6 then 500 * Pow2(n - 1) else 16000
  }

  lemma WaitIsDelay(n: nat)
    requires n >= 1
    ensures Delay(n - 1) == Wait(n)
  {
    assert Pow2(2) == 4 && Pow2(4) == 16;
  }

  /** A dial is due unless the last one failed and its wait is not over. */
  predicate DialDue(dials: seq<Dial>, now: int) {
    Streak(dials) == 0 || now >= dials[|dials| - 1].start + Wait(Streak(dials))
  }

  /** In every run, a request for a connection
      - on a closed session is refused and changes nothing;
      - with a live connection gives that connection, dials nothing and changes nothing;
      - otherwise gives up the dead connection and, if a dial is due, dials exactly once and
        gives what the dial gave, and if not says until when to wait. */
  lemma GetExactly(ops: seq<Op>, now: int, alive: bool, outcome: Option<nat>)
    ensures var s := Run(ops);
      var (t, r) := Connect(s, now, alive, outcome);
      if s.closed then t == s && r == SessionClosed
      else if s.conn.Some? && alive then t == s && r == Conn(s.conn.value)
      else
        && !t.closed && t.ended == (if s.conn.Some? then s.ended + {s.conn.value} else s.ended)
        && if DialDue(s.dials, now) then
             && t.dials == s.dials + [Dial(now, outcome)] && t.conn == outcome
             && r == (match outcome case Some(c) => Conn(c) case None => DialFailed)
           else
             && t.dials == s.dials && t.conn == None
             && r == BackingOff(s.dials[|s.dials| - 1].start + Wait(Streak(s.dials)))
  {
    InvInEveryRun(ops);
    var s := Run(ops);
    hide Run, Spaced, Delay, Wait;
    StreakPositive(s.dials);
    if Streak(s.dials) > 0 {
      WaitIsDelay(Streak(s.dials));
    }
    hide Streak;
  }

  /** The operation that gives up connection c: a request that finds it dead, a drop that
      names it, or the end of the session. */
  predicate GivesUp(op: Op, c: nat) {
    (op.Get? && !op.alive) || op == DropConn(c) || op.CloseSession?
  }

  /** In every run, a connection is closed only while it is the current one, and only by an
      operation that gives it up. */
  lemma {:induction false} EndedForAReason(ops: seq<Op>, c: nat)
    ensures c in Run(ops).ended ==> exists k :: 0 <= k < |ops| && Run(ops[..k]).conn == Some(c) && GivesUp(ops[k], c)
  {
    if ops != [] && c in Run(ops).ended {
      var n := |ops| - 1;
      EndedForAReason(ops[..n], c);
      if c in Run(ops[..n]).ended {
        var k :| 0 <= k < n && Run(ops[..n][..k]).conn == Some(c) && GivesUp(ops[..n][k], c);
        assert ops[..n][..k] == ops[..k];
      } else {
        EndsCurrent(Run(ops[..n]), ops[n], c);
      }
    }
  }

  lemma EndsCurrent(s: Session, op: Op, c: nat)
    requires c !in s.ended && c in Apply(s, op).ended
    ensures s.conn == Some(c) && GivesUp(op, c)
  {
  }

  /** A drop gives up exactly the connection it names, and only if it is the current one. */
  lemma DropExactly(ops: seq<Op>, c: nat)
    ensures var s := Run(ops);
      var t := Apply(s, DropConn(c));
      if s.conn == Some(c) then t == s.(conn := None, ended := s.ended + {c}) else t == s
  {
  }

  function Continue(s: Session, ops: seq<Op>): Session
    decreases |ops|
  {
    if ops == [] then s else Continue(Apply(s, ops[0]), ops[1..])
  }

  /** After Close nothing is ever dialled again, no connection is held and every request
      for one is refused. */
  lemma {:induction false} NothingAfterClose(before: seq<Op>, after: seq<Op>, now: int, alive: bool, outcome: Option<nat>)
    ensures var closed := Apply(Run(before), CloseSession);
      var s := Continue(closed, after);
      s == closed && s.conn == None && Connect(s, now, alive, outcome) == (s, SessionClosed)
  {
    StaysClosed(Apply(Run(before), CloseSession), after);
  }

  lemma {:induction false} StaysClosed(s: Session, ops: seq<Op>)
    requires s.closed && s.conn == None
    ensures Continue(s, ops) == s
    decreases |ops|
  {
    if ops != [] {
      assert Apply(s, ops[0]) == s;
      StaysClosed(s, ops[1..]);
    }
  }

  // ---------- the spacing of failing dials ----------

  function Pow2(n: nat): nat {
    if n == 0 then 1 else 2 * Pow2(n - 1)
  }

  /** The time from the first to the n-th failing dial of a streak, at least. */
  function StreakTime(n: nat): int
    requires n >= 1
  {
    if n <= 7 then 500 * (Pow2(n - 1) - 1) else 31500 + 16000 * (n - 7)
  }

  lemma StreakTimeStep(n: nat)
    requires n >= 1
    ensures StreakTime(n + 1) == StreakTime(n) + Delay(n - 1)
  {
    assert Pow2(2) == 4 && Pow2(4) == 16 && Pow2(6) == 64;
  }

  lemma {:induction false} StreakSpacing(dials: seq<Dial>, i: nat, j: nat)
    requires Spaced(dials) && i <= j < |dials|
    requires i == 0 || dials[i - 1].result.Some?
    requires forall k | i <= k <= j :: dials[k].result.None?
    ensures Streak(dials[..j + 1]) == j - i + 1
    ensures dials[j].start >= dials[i].start + StreakTime(j - i + 1)
    decreases j
  {
    assert dials[..j + 1][..j] == dials[..j];
    if i < j {
      StreakSpacing(dials, i, j - 1);
      assert dials[..j - 1 + 1] == dials[..j];
      assert SpacedAt(dials, j);
      StreakTimeStep(j - i);
    } else if j > 0 {
      assert dials[..j][|dials[..j]| - 1] == dials[j - 1];
    }
  }

  /** In every run, whatever the clock does: the n-th failing dial in a row starts at
      least 500 * (2^(n-1) - 1) ms after the first for n up to 7, and at least
      31500 + 16000 * (n - 7) ms after it from then on. */
  lemma FailingDialsAreSpaced(ops: seq<Op>, i: nat, n: nat)
    ensures var dials := Run(ops).dials;
      n >= 1 && i + n <= |dials| && (i == 0 || dials[i - 1].result.Some?)
      && (forall k | i <= k < i + n :: dials[k].result.None?)
      ==> dials[i + n - 1].start - dials[i].start >= StreakTime(n)
  {
    InvInEveryRun(ops);
    hide Run, Streak, StreakTime;
    var dials := Run(ops).dials;
    if n >= 1 && i + n <= |dials| && (i == 0 || dials[i - 1].result.Some?) && forall k | i <= k < i + n :: dials[k].result.None? {
      StreakSpacing(dials, i, i + n - 1);
    }
  }
}
