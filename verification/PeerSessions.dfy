/** The server's table of peer sessions. Every section that holds the mutex is one
    method here and one atomic step of the interleaved system below. */
module PeerSessions {
  import opened Bytes
  import U = UpstreamSession

  /** The wait after the k-th failure in a row, in milliseconds. */
  const BACKOFF: seq<int> := [500, 1000, 2000, 4000, 8000, 16000]

  datatype Backoff = Backoff(failCount: nat, nextDial: int)

  /** Connections are numbered; a connection is dead once it was closed or failed. */
  datatype Table = Table(conns: map<Text, nat>, reconnect: map<Text, Backoff>, dead: set<nat>)

  datatype Checked = Found(conn: nat) | NotConfigured | NoAddress | InBackoff(until: int) | MayDial

  /** The configured peers: whether each has an address to dial. */
  type Peers = map<Text, bool>

  predicate Live(t: Table, peer: Text) {
    peer in t.conns && t.conns[peer] !in t.dead
  }

  /** First section of connection(): a live session is used as it is, a dead one is
      removed, and a dial may start unless the peer is in backoff. */
  function Check(peers: Peers, t: Table, peer: Text, now: int): (Table, Checked) {
    if Live(t, peer) then (t, Found(t.conns[peer]))
    else
      var u := t.(conns := t.conns - {peer});
      if peer !in peers then (u, NotConfigured)
      else if !peers[peer] then (u, NoAddress)
      else if peer in t.reconnect && now < t.reconnect[peer].nextDial then (u, InBackoff(t.reconnect[peer].nextDial))
      else (u, MayDial)
  }

  /** Second section of connection(): the first live session wins. */
  function Install(t: Table, peer: Text, dialed: nat): (Table, nat) {
    if Live(t, peer) then (t.(dead := t.dead + {dialed}), t.conns[peer])
    else (t.(conns := t.conns[peer := dialed], reconnect := t.reconnect - {peer}), dialed)
  }

  function Register(peers: Peers, t: Table, peer: Text, conn: nat): (Table, bool) {
    if peer !in peers then (t, false)
    else if Live(t, peer) then (if t.conns[peer] == conn then t else t.(dead := t.dead + {conn}), true)
    else (t.(conns := t.conns[peer := conn], reconnect := t.reconnect - {peer}), true)
  }

  function RecordFailure(t: Table, peer: Text, now: int): Table {
    var count := if peer in t.reconnect then t.reconnect[peer].failCount else 0;
    var delay := if count < |BACKOFF| then BACKOFF[count] else BACKOFF[|BACKOFF| - 1];
    t.(reconnect := t.reconnect[peer := Backoff(count + 1, now + delay)])
  }

  function Drop(t: Table, peer: Text, conn: nat): Table {
    if peer in t.conns && t.conns[peer] == conn
    then t.(conns := t.conns - {peer}, dead := t.dead + {conn}) else t
  }

  function CloseAll(t: Table): Table {
    t.(conns := map[], dead := t.dead + t.conns.Values)
  }

  class PeerTable {
    const peers: Peers
    var conns: map<Text, nat>
    var reconnect: map<Text, Backoff>
    var dead: set<nat>

    ghost function State(): Table
      reads this
    {
      Table(conns, reconnect, dead)
    }

    constructor (peers: Peers)
      ensures this.peers == peers && State() == Table(map[], map[], {})
    {
      this.peers := peers;
      conns, reconnect, dead := map[], map[], {};
    }

    method CheckSession(peer: Text, now: int) returns (r: Checked)
      modifies this
      ensures (State(), r) == Check(peers, old(State()), peer, now)
    {
      if peer in conns && conns[peer] !in dead {
        return Found(conns[peer]);
      }
      if peer in conns {
        dead := dead + {conns[peer]};
        assert dead == old(dead);
        conns := conns - {peer};
      }
      assert conns == old(conns) - {peer};
      if peer !in peers {
        return NotConfigured;
      }
      if !peers[peer] {
        return NoAddress;
      }
      if peer in reconnect && now < reconnect[peer].nextDial {
        return InBackoff(reconnect[peer].nextDial);
      }
      r := MayDial;
    }

    method InstallDialed(peer: Text, dialed: nat) returns (conn: nat)
      modifies this
      ensures (State(), conn) == Install(old(State()), peer, dialed)
    {
      if peer in conns && conns[peer] !in dead {
        dead := dead + {dialed};
        return conns[peer];
      }
      conns := conns[peer := dialed];
      reconnect := reconnect - {peer};
      conn := dialed;
    }

    method RegisterInbound(peer: Text, conn: nat) returns (registered: bool)
      modifies this
      ensures (State(), registered) == Register(peers, old(State()), peer, conn)
    {
      if peer !in peers {
        return false;
      }
      if peer in conns && conns[peer] == conn && conns[peer] !in dead {
        return true;
      }
      if peer in conns && conns[peer] !in dead {
        dead := dead + {conn};
        return true;
      }
      conns := conns[peer := conn];
      reconnect := reconnect - {peer};
      registered := true;
    }

    method RecordDialFailure(peer: Text, now: int)
      modifies this`reconnect
      ensures State() == RecordFailure(old(State()), peer, now)
    {
      var state := if peer in reconnect then reconnect[peer] else Backoff(0, 0);
      var delay := BACKOFF[|BACKOFF| - 1];
      if state.failCount < |BACKOFF| {
        delay := BACKOFF[state.failCount];
      }
      reconnect := reconnect[peer := Backoff(state.failCount + 1, now + delay)];
    }

    method DropConn(peer: Text, conn: nat)
      modifies this
      ensures State() == Drop(old(State()), peer, conn)
    {
      if peer in conns && conns[peer] == conn {
        dead := dead + {conn};
        conns := conns - {peer};
      }
    }

    /** Closes and removes the sessions one by one, in any order. */
    method Close()
      modifies this
      ensures State() == CloseAll(old(State()))
    {
      while conns != map[]
        invariant conns.Keys <= old(conns).Keys && forall id | id in conns :: conns[id] == old(conns)[id]
        invariant dead <= old(dead) + old(conns).Values
        invariant old(dead) <= dead
        invariant forall id | id in old(conns) && id !in conns :: old(conns)[id] in dead
        invariant reconnect == old(reconnect)
        decreases |conns|
      {
        var id :| id in conns;
        ghost var before := conns;
        assert old(conns)[id] in old(conns).Values;
        dead := dead + {conns[id]};
        conns := conns - {id};
        assert before.Keys == conns.Keys + {id};
      }
    }
  }

  // ---------- the interleaved system ----------

  /** The peer has a session in the table that is not dead. */
  predicate HasSession(t: Table, peer: Text) {
    exists c: nat :: c !in t.dead && peer in t.conns && t.conns[peer] == c
  }

  /** A connection() call between its two sections. */
  datatype Call = Dialing(peer: Text) | Dialed(peer: Text, conn: nat)

  /** The table, the calls under way, all connections ever made, the connections that may
      be registered, those that went through install or registration, those that
      connection() has returned, by peer, and when dials of a peer have failed since it
      last got a session. */
  datatype World = World(
    table: Table,
    calls: map<nat, Call>,
    made: set<nat>,
    registrable: map<nat, Text>,
    joined: set<(Text, nat)>,
    returned: set<(Text, nat)>,
    fails: map<Text, seq<int>>)

  datatype Step =
    | CallConnection(call: nat, peer: Text, now: int)
    | DialFails(call: nat, now: int)
    | DialSucceeds(call: nat, conn: nat)
    | FinishCall(call: nat)
    | AcceptInbound(conn: nat, peer: Text)
    | RegisterConn(conn: nat)
    | DropSession(peer: Text, conn: nat)
    | CloseTable
    | ConnectionDies(conn: nat)

  /** One step of anybody; a step that is not possible changes nothing. */
  function Apply(peers: Peers, w: World, step: Step): World {
    match step
    case CallConnection(call, peer, now) =>
      if call in w.calls then w
      else
        var (t, r) := Check(peers, w.table, peer, now);
        if r.Found? then w.(table := t, returned := w.returned + {(peer, r.conn)})
        else if r.MayDial? then w.(table := t, calls := w.calls[call := Dialing(peer)])
        else w.(table := t)
    case DialFails(call, now) =>
      if call !in w.calls || !w.calls[call].Dialing? then w
      else
        var peer := w.calls[call].peer;
        w.(table := RecordFailure(w.table, peer, now), calls := w.calls - {call},
           fails := w.fails[peer := (if peer in w.fails then w.fails[peer] else []) + [now]])
    case DialSucceeds(call, conn) =>
      if call !in w.calls || !w.calls[call].Dialing? || conn in w.made then w
      else w.(calls := w.calls[call := Dialed(w.calls[call].peer, conn)], made := w.made + {conn})
    case FinishCall(call) =>
      if call !in w.calls || !w.calls[call].Dialed? then w
      else
        var peer, dialed := w.calls[call].peer, w.calls[call].conn;
        var (t, conn) := Install(w.table, peer, dialed);
        w.(table := t, calls := w.calls - {call}, joined := w.joined + {(peer, dialed)}, returned := w.returned + {(peer, conn)},
           registrable := if conn == dialed then w.registrable[dialed := peer] else w.registrable,
           fails := if HasSession(w.table, peer) then w.fails else w.fails - {peer})
    case AcceptInbound(conn, peer) =>
      if conn in w.made then w else w.(made := w.made + {conn}, registrable := w.registrable[conn := peer])
    case RegisterConn(conn) =>
      if conn !in w.registrable then w
      else
        var peer := w.registrable[conn];
        var (t, registered) := Register(peers, w.table, peer, conn);
        w.(table := t, joined := if registered then w.joined + {(peer, conn)} else w.joined,
           fails := if !registered || HasSession(w.table, peer) then w.fails else w.fails - {peer})
    case DropSession(peer, conn) => w.(table := Drop(w.table, peer, conn))
    case CloseTable => w.(table := CloseAll(w.table))
    case ConnectionDies(conn) => w.(table := w.table.(dead := w.table.dead + {conn}))
  }

  const START := World(Table(map[], map[], {}), map[], {}, map[], {}, {}, map[])

  function Run(peers: Peers, steps: seq<Step>): World {
    if steps == [] then START else Apply(peers, Run(peers, steps[..|steps| - 1]), steps[|steps| - 1])
  }

  /** Dead, or the session in the table. */
  predicate DeadOrRegistered(t: Table, peer: Text, conn: nat) {
    conn in t.dead || (peer in t.conns && t.conns[peer] == conn)
  }

  ghost predicate Inv(peers: Peers, w: World) {
    && w.table.conns.Keys <= peers.Keys
    && (forall c | c in w.calls :: w.calls[c].peer in peers && (w.calls[c].Dialed? ==> w.calls[c].conn in w.made))
    && (forall c | c in w.registrable :: c in w.made)
    && (forall p: Text, c: nat | (p, c) in w.joined :: c in w.made && DeadOrRegistered(w.table, p, c))
    && (forall p: Text, c: nat | (p, c) in w.returned :: c in w.made && DeadOrRegistered(w.table, p, c))
    && (forall p | p in w.table.conns :: w.table.conns[p] in w.made)
  }

  /** The dead stay dead, and a session leaves the table only by dying. */
  predicate Evolves(t: Table, u: Table) {
    t.dead <= u.dead && forall p | p in t.conns :: DeadOrRegistered(u, p, t.conns[p])
  }

  /** No step of anybody removes or replaces a session that is still alive afterwards. */
  lemma SessionsLeaveByDying(peers: Peers, w: World, step: Step)
    ensures Evolves(w.table, Apply(peers, w, step).table)
  {
  }

  lemma OldOnesKept(peers: Peers, w: World, u: World)
    requires Inv(peers, w) && Evolves(w.table, u.table) && w.made <= u.made
    ensures forall p: Text, c: nat | (p, c) in w.joined || (p, c) in w.returned :: c in u.made && DeadOrRegistered(u.table, p, c)
  {
  }

  lemma InvStep(peers: Peers, w: World, step: Step)
    requires Inv(peers, w)
    ensures Inv(peers, Apply(peers, w, step))
  {
    hide Apply, Inv;
    match step
    case CallConnection(_, _, _) => CallKeeps(peers, w, step);
    case FinishCall(_) => FinishKeeps(peers, w, step);
    case RegisterConn(_) => RegisterKeeps(peers, w, step);
    case DropSession(_, _) => OthersKeep(peers, w, step);
    case CloseTable => OthersKeep(peers, w, step);
    case ConnectionDies(_) => OthersKeep(peers, w, step);
    case _ => DialsKeep(peers, w, step);
  }

  lemma CallKeeps(peers: Peers, w: World, step: Step)
    requires Inv(peers, w) && step.CallConnection?
    ensures Inv(peers, Apply(peers, w, step))
  {
    SessionsLeaveByDying(peers, w, step);
    OldOnesKept(peers, w, Apply(peers, w, step));
    hide Evolves;
  }

  lemma FinishKeeps(peers: Peers, w: World, step: Step)
    requires Inv(peers, w) && step.FinishCall?
    ensures Inv(peers, Apply(peers, w, step))
  {
    SessionsLeaveByDying(peers, w, step);
    OldOnesKept(peers, w, Apply(peers, w, step));
    hide Evolves;
  }

  lemma RegisterKeeps(peers: Peers, w: World, step: Step)
    requires Inv(peers, w) && step.RegisterConn?
    ensures Inv(peers, Apply(peers, w, step))
  {
    SessionsLeaveByDying(peers, w, step);
    OldOnesKept(peers, w, Apply(peers, w, step));
    hide Evolves;
  }

  lemma OthersKeep(peers: Peers, w: World, step: Step)
    requires Inv(peers, w) && (step.DropSession? || step.CloseTable? || step.ConnectionDies?)
    ensures Inv(peers, Apply(peers, w, step))
  {
    SessionsLeaveByDying(peers, w, step);
    OldOnesKept(peers, w, Apply(peers, w, step));
    hide Evolves;
  }

  lemma DialsKeep(peers: Peers, w: World, step: Step)
    requires Inv(peers, w) && (step.DialFails? || step.DialSucceeds? || step.AcceptInbound?)
    ensures Inv(peers, Apply(peers, w, step))
  {
    SessionsLeaveByDying(peers, w, step);
    OldOnesKept(peers, w, Apply(peers, w, step));
    hide Evolves;
  }

  lemma {:induction false} InvInEveryRun(peers: Peers, steps: seq<Step>)
    ensures Inv(peers, Run(peers, steps))
  {
    hide Apply;
    if steps == [] {
    } else {
      InvInEveryRun(peers, steps[..|steps| - 1]);
      InvStep(peers, Run(peers, steps[..|steps| - 1]), steps[|steps| - 1]);
    }
  }

  /** In every interleaving: only configured peers are in the table, a connection that
      finished install or registration and still lives is the one in the table, and all
      still-live connections ever returned for a peer are one and the same. */
  lemma OneSessionPerPeer(peers: Peers, steps: seq<Step>)
    ensures var w := Run(peers, steps);
      && w.table.conns.Keys <= peers.Keys
      && (forall p: Text, c: nat | (p, c) in w.joined && c !in w.table.dead :: p in w.table.conns && w.table.conns[p] == c)
      && (forall p: Text, c: nat, d: nat |
            (p, c) in w.returned && (p, d) in w.returned && c !in w.table.dead && d !in w.table.dead :: c == d)
  {
    InvInEveryRun(peers, steps);
  }

  lemma {:induction false} DeadStayDead(peers: Peers, w: World, steps: seq<Step>)
    ensures w.table.dead <= Continue(peers, w, steps).table.dead
    decreases |steps|
  {
    hide Apply;
    if steps != [] {
      DeadStayDead(peers, Apply(peers, w, steps[0]), steps[1..]);
      SessionsLeaveByDying(peers, w, steps[0]);
    }
  }

  function Continue(peers: Peers, w: World, steps: seq<Step>): World
    decreases |steps|
  {
    if steps == [] then w else Continue(peers, Apply(peers, w, steps[0]), steps[1..])
  }

  /** A stream that could not be opened: once the connection it was tried on is dropped,
      that connection is dead, and no call finds it again at any later time. */
  lemma DroppedIsNeverFoundAgain(peers: Peers, before: seq<Step>, peer: Text, conn: nat, after: seq<Step>, p: Text, now: int)
    requires (peer, conn) in Run(peers, before).returned
    ensures var w := Continue(peers, Apply(peers, Run(peers, before), DropSession(peer, conn)), after);
      conn in w.table.dead && Check(peers, w.table, p, now).1 != Found(conn)
  {
    InvInEveryRun(peers, before);
    var w := Apply(peers, Run(peers, before), DropSession(peer, conn));
    assert conn in w.table.dead;
    DeadStayDead(peers, w, after);
  }

  // ---------- what each section answers ----------

  /** When the peer may be dialled again: doubling waits after its failures since it last
      had a session. */
  function NextDial(fails: map<Text, seq<int>>, peer: Text): Option<int> {
    if peer !in fails || fails[peer] == [] then None
    else Some(fails[peer][|fails[peer]| - 1] + U.Wait(|fails[peer]|))
  }

  /** The backoff entries are exactly what the failures say. */
  ghost predicate BackoffOk(w: World) {
    && w.table.reconnect.Keys == w.fails.Keys
    && (forall p | p in w.fails :: w.fails[p] != [] && w.table.reconnect[p].failCount == |w.fails[p]|
          && Some(w.table.reconnect[p].nextDial) == NextDial(w.fails, p))
  }

  lemma DelayIsWait(count: nat)
    ensures (if count < |BACKOFF| then BACKOFF[count] else BACKOFF[|BACKOFF| - 1]) == U.Wait(count + 1)
  {
    U.WaitIsDelay(count + 1);
  }

  lemma FailureBackoff(peers: Peers, w: World, step: Step)
    requires BackoffOk(w) && step.DialFails?
    ensures BackoffOk(Apply(peers, w, step))
  {
    hide U.Wait;
    if step.call in w.calls && w.calls[step.call].Dialing? {
      var peer := w.calls[step.call].peer;
      DelayIsWait(if peer in w.fails then |w.fails[peer]| else 0);
    }
  }

  lemma SessionBackoff(peers: Peers, w: World, step: Step)
    requires BackoffOk(w) && (step.FinishCall? || step.RegisterConn?)
    ensures BackoffOk(Apply(peers, w, step))
  {
    hide U.Wait;
  }

  lemma OtherBackoff(peers: Peers, w: World, step: Step)
    requires BackoffOk(w) && !(step.DialFails? || step.FinishCall? || step.RegisterConn?)
    ensures BackoffOk(Apply(peers, w, step))
  {
    hide U.Wait, NextDial;
    assert Apply(peers, w, step).table.reconnect == w.table.reconnect && Apply(peers, w, step).fails == w.fails;
  }

  lemma BackoffStep(peers: Peers, w: World, step: Step)
    requires BackoffOk(w)
    ensures BackoffOk(Apply(peers, w, step))
  {
    hide BackoffOk, Apply;
    if step.DialFails? {
      FailureBackoff(peers, w, step);
    } else if step.FinishCall? || step.RegisterConn? {
      SessionBackoff(peers, w, step);
    } else {
      OtherBackoff(peers, w, step);
    }
  }

  lemma {:induction false} BackoffInEveryRun(peers: Peers, steps: seq<Step>)
    ensures BackoffOk(Run(peers, steps))
  {
    hide Apply;
    if steps != [] {
      BackoffInEveryRun(peers, steps[..|steps| - 1]);
      BackoffStep(peers, Run(peers, steps[..|steps| - 1]), steps[|steps| - 1]);
    }
  }

  /** In every run, a call finds the peer's session if it has one that is not dead; otherwise
      the peer may be dialled if and only if it is configured with an address and the wait
      after its last failure is over; and whatever the answer, only a dead session of this
      peer has left the table. */
  lemma CheckExactly(peers: Peers, steps: seq<Step>, peer: Text, now: int)
    ensures var w := Run(peers, steps);
      var (t, r) := Check(peers, w.table, peer, now);
      var next := NextDial(w.fails, peer);
      && (forall c: nat :: r == Found(c) <==> peer in w.table.conns && w.table.conns[peer] == c && c !in w.table.dead)
      && (r.Found? <==> HasSession(w.table, peer))
      && (r.NotConfigured? <==> peer !in peers)
      && (r.NoAddress? <==> !HasSession(w.table, peer) && peer in peers && !peers[peer])
      && (r.MayDial? <==> !HasSession(w.table, peer) && peer in peers && peers[peer] && (next.None? || now >= next.value))
      && (r.InBackoff? ==> next == Some(r.until))
      && t == w.table.(conns := if HasSession(w.table, peer) then w.table.conns else w.table.conns - {peer})
  {
    InvInEveryRun(peers, steps);
    BackoffInEveryRun(peers, steps);
    hide Run, U.Wait;
  }

  /** In every run, a finished dial gives its own connection, which becomes the peer's
      session and ends its backoff, unless the peer has got a session meanwhile: then the
      call gives that one and closes its own. */
  lemma FinishExactly(peers: Peers, steps: seq<Step>, call: nat)
    ensures var w := Run(peers, steps);
      call in w.calls && w.calls[call].Dialed? ==>
        var peer, dialed, u := w.calls[call].peer, w.calls[call].conn, Apply(peers, w, FinishCall(call));
        if HasSession(w.table, peer) then
          u.table == w.table.(dead := w.table.dead + {dialed}) && u.returned == w.returned + {(peer, w.table.conns[peer])}
        else
          && u.table == w.table.(conns := w.table.conns[peer := dialed], reconnect := w.table.reconnect - {peer})
          && u.returned == w.returned + {(peer, dialed)}
  {
  }

  /** An inbound connection of a configured peer becomes its session and ends its backoff,
      unless the peer has another session that is not dead: then it is closed. One of a peer
      that is not configured is left alone. */
  lemma RegisterExactly(peers: Peers, t: Table, peer: Text, conn: nat)
    ensures var (u, registered) := Register(peers, t, peer, conn);
      && (registered <==> peer in peers)
      && u == (if peer !in peers then t
               else if !HasSession(t, peer) then t.(conns := t.conns[peer := conn], reconnect := t.reconnect - {peer})
               else if t.conns[peer] == conn then t
               else t.(dead := t.dead + {conn}))
  {
  }

  /** A drop closes and removes exactly the connection it names; closing the table closes
      every session and leaves none. */
  lemma EndingsExactly(t: Table, peer: Text, conn: nat)
    ensures var u := Drop(t, peer, conn);
      if peer in t.conns && t.conns[peer] == conn
      then u.conns == t.conns - {peer} && u.dead == t.dead + {conn} && u.reconnect == t.reconnect else u == t
    ensures var u := CloseAll(t);
      u.conns == map[] && u.reconnect == t.reconnect && t.dead <= u.dead && (forall p | p in t.conns :: t.conns[p] in u.dead)
      && (forall c | c in u.dead :: c in t.dead || exists p :: p in t.conns && t.conns[p] == c)
  {
  }

  /** A peer that may be dialled gets a session if its dial succeeds: the call returns the
      new connection, and every later call finds it until it dies. */
  lemma DialMakesSession(peers: Peers, steps: seq<Step>, call: nat, peer: Text, conn: nat, now: int, later: int)
    ensures var w := Run(peers, steps);
      var u := Apply(peers, Apply(peers, Apply(peers, w, CallConnection(call, peer, now)), DialSucceeds(call, conn)), FinishCall(call));
      call !in w.calls && conn !in w.made && conn !in w.table.dead && Check(peers, w.table, peer, now).1 == MayDial ==>
        (peer, conn) in u.returned && peer !in u.fails && Check(peers, u.table, peer, later).1 == Found(conn)
  {
  }
}
