/**
 The read/write lock of a connection: what it keeps in every run, the one state in which every handler is
 stuck, and why that state needs two calls at once.
 */
module TunnelLocks {
  import opened Prelude
  import opened Tunnel

  ghost function ParkedIds(calls: map<nat, Phase>): set<nat> {
    set id | id in calls && calls[id].Parked?
  }

  predicate HoldsWriter(p: Phase) {
    p.Locking? || p.Closing?
  }

  /** The lock agrees with the calls: as many readers as calls parked in a pipe read, the writer's place
      taken by exactly the call that announced itself, and no reader once a close holds the lock. */
  ghost predicate LockInv(s: State) {
    && s.readers == |ParkedIds(s.calls)|
    && (forall id :: id in s.calls && HoldsWriter(s.calls[id]) ==> s.writer == Some(id))
    && (s.writer.Some? ==> s.writer.value in s.calls && HoldsWriter(s.calls[s.writer.value]))
    && (forall id :: id in s.calls && s.calls[id].Closing? ==> s.readers == 0)
    && (forall id :: id in s.calls && s.calls[id].Locking? ==> !s.calls[id].kind.ReadCall?)
  }

  /** A drain that can still read anything has its close in progress. */
  ghost predicate DrainInv(s: State) {
    && (s.draining && s.down.open ==> s.writer.Some? && s.writer.value in s.calls && s.calls[s.writer.value].Closing?)
    && (s.up.open <==> s.down.open)
    && (!s.down.open ==> s.down.rest.None?)
    && (!s.up.open ==> s.up.rest.None? && s.up.waiting == {})
    && (forall t :: t in s.up.waiting ==> t < |s.up.accepted|)
  }

  lemma ParkedSame(calls: map<nat, Phase>, id: nat, p: Phase)
    requires id in calls ==> !calls[id].Parked?
    requires !p.Parked?
    ensures ParkedIds(calls[id := p]) == ParkedIds(calls)
    ensures ParkedIds(calls - {id}) == ParkedIds(calls)
  {
  }

  lemma ParkedMore(calls: map<nat, Phase>, id: nat, p: Phase)
    requires id in calls ==> !calls[id].Parked?
    requires p.Parked?
    ensures |ParkedIds(calls[id := p])| == |ParkedIds(calls)| + 1
  {
    assert ParkedIds(calls[id := p]) == ParkedIds(calls) + {id};
  }

  lemma ParkedFewer(calls: map<nat, Phase>, id: nat, p: Phase)
    requires id in calls && calls[id].Parked? && !p.Parked?
    ensures |ParkedIds(calls[id := p])| == |ParkedIds(calls)| - 1
    ensures |ParkedIds(calls - {id})| == |ParkedIds(calls)| - 1
  {
    assert ParkedIds(calls[id := p]) == ParkedIds(calls) - {id};
    assert ParkedIds(calls - {id}) == ParkedIds(calls) - {id};
  }

  lemma StepKeepsLockInv(s: State, a: Action)
    requires LockInv(s) && Next(s, a).Some?
    ensures LockInv(Next(s, a).value)
  {
    hide ParkedIds;
    match a
    case Issue(id, kind) => ParkedSame(s.calls, id, Queued(kind));
    case LockRead(id) => ParkedMore(s.calls, id, Parked(s.calls[id].kind.size));
    case Announce(id) => ParkedSame(s.calls, id, Locking(s.calls[id].kind));
    case LockWrite(id) => ParkedSame(s.calls, id, Closing);
    case LockClose(id) => ParkedSame(s.calls, id, Closing);
    case Serve(id) => ParkedFewer(s.calls, id, Next(s, a).value.calls[id]);
    case ServeEof(id) => ParkedFewer(s.calls, id, Closing);
    case FinishClose(id) => ParkedSame(s.calls, id, Closing);
    case Receive(id) => ParkedSame(s.calls, id, Receiving(s.calls[id].size));
    case LocalRead(id) => ParkedSame(s.calls, id, Closing);
    case _ =>
  }

  lemma StepKeepsDrainInv(s: State, a: Action)
    requires LockInv(s) && DrainInv(s) && Next(s, a).Some?
    ensures DrainInv(Next(s, a).value)
  {
    hide ParkedIds;
  }

  ghost predicate Inv(s: State) {
    LockInv(s) && DrainInv(s)
  }

  lemma {:induction false} RunKeepsInv(s: State, actions: seq<Action>)
    requires Inv(s) && Run(s, actions).Some?
    ensures Inv(Run(s, actions).value)
    decreases |actions|
  {
    hide Next, LockInv, DrainInv;
    if actions != [] {
      StepKeepsLockInv(s, actions[0]);
      StepKeepsDrainInv(s, actions[0]);
      RunKeepsInv(Next(s, actions[0]).value, actions[1..]);
    }
  }

  lemma InitialInv()
    ensures Inv(INITIAL)
  {
    assert ParkedIds(INITIAL.calls) == {};
  }

  // ---- When handlers wait --------------------------------------------------------------------------

  /** The steps of the server: its handlers, its goroutines, and its TLS side reading what has arrived.
      What is left are the client's steps and the TLS side producing data of its own accord. */
  predicate ServerSide(a: Action) {
    !a.Issue? && !a.ServerWrite? && !a.Receive? && !a.EnterLocal? && !a.LocalRead?
  }

  ghost predicate Idle(s: State) {
    forall a :: ServerSide(a) ==> Next(s, a).None?
  }

  ghost predicate Waits(s: State) {
    exists id :: id in s.calls && (s.calls[id].Queued? || s.calls[id].Locking?)
  }

  /** A clientRead parked on an empty pipe keeps a clientWrite or clientClose from the lock, and the server
      has nothing left to read. */
  predicate Stuck(s: State) {
    && s.writer.Some? && 0 < s.readers
    && s.down.open && s.down.rest.None?
    && s.up.rest.None? && s.up.waiting == {}
  }

  lemma StuckIsIdle(s: State, a: Action)
    requires Inv(s) && Stuck(s) && ServerSide(a)
    ensures Next(s, a).None?
  {
    hide ParkedIds;
  }

  /** If the server is idle, this step was not possible. */
  lemma Enabled(s: State, a: Action)
    requires Idle(s) && ServerSide(a)
    ensures Next(s, a).None?
    ensures match a
            case ServerRead(size) => size == 0 || s.up.rest.None?
            case EnterPipe(t) => Enter(s.up, t).None?
            case LockRead(id) =>
              !(id in s.calls && s.calls[id].Queued? && s.calls[id].kind.ReadCall? && s.writer.None?)
            case Announce(id) =>
              !(id in s.calls && s.calls[id].Queued? && !s.calls[id].kind.ReadCall? && s.writer.None?)
            case FinishClose(id) => !(id in s.calls && s.calls[id].Closing?)
            case LockWrite(id) =>
              !(id in s.calls && s.calls[id].Locking? && s.calls[id].kind.WriteCall? && s.readers == 0)
            case LockClose(id) =>
              !(id in s.calls && s.calls[id].Locking? && s.calls[id].kind.CloseCall? && s.readers == 0)
            case Serve(id) =>
              !(id in s.calls && s.calls[id].Parked? && 0 < s.readers && s.down.rest.Some?)
            case ServeEof(id) =>
              !(id in s.calls && s.calls[id].Parked? && 0 < s.readers && !s.down.open)
            case _ => true
  {
  }

  lemma IdleAndWaitingIsStuck(s: State)
    requires Inv(s) && Idle(s) && Waits(s)
    ensures Stuck(s)
  {
    hide Next;
    if s.up.rest.Some? { Enabled(s, ServerRead(1)); }
    if s.up.rest.None? && s.up.waiting != {} {
      var t :| t in s.up.waiting;
      Enabled(s, EnterPipe(t));
    }
    var id :| id in s.calls && (s.calls[id].Queued? || s.calls[id].Locking?);
    if s.writer.None? {
      Enabled(s, LockRead(id));
      Enabled(s, Announce(id));
    } else {
      var w := s.writer.value;
      Enabled(s, FinishClose(w));
      Enabled(s, LockWrite(w));
      Enabled(s, LockClose(w));
    }
    if 0 < s.readers {
      assert ParkedIds(s.calls) != {};
      var r :| r in ParkedIds(s.calls);
      Enabled(s, Serve(r));
      Enabled(s, ServeEof(r));
    }
  }

  /** In every reachable state, the server has no step left while some call waits for the lock exactly in
      the stuck state. */
  lemma IdleAndWaitingIffStuck(actions: seq<Action>)
    requires Run(INITIAL, actions).Some?
    ensures var s := Run(INITIAL, actions).value; Idle(s) && Waits(s) <==> Stuck(s)
  {
    InitialInv();
    RunKeepsInv(INITIAL, actions);
    var s := Run(INITIAL, actions).value;
    if Idle(s) && Waits(s) {
      IdleAndWaitingIsStuck(s);
    }
    if Stuck(s) {
      forall a | ServerSide(a)
        ensures Next(s, a).None?
      {
        StuckIsIdle(s, a);
      }
    }
  }

  /** What keeps a call from ever being answered in the stuck state. */
  predicate StillStuck(s: State, s1: State) {
    && Stuck(s1) && s1.up == s.up && s1.down == s.down && s1.writer == s.writer
    && (forall id :: id in s.calls && (s.calls[id].Queued? || s.calls[id].Locking? || s.calls[id].Parked?)
          ==> id in s1.calls && s1.calls[id] == s.calls[id])
  }

  lemma StuckStep(s: State, a: Action)
    requires Inv(s) && Stuck(s) && Next(s, a).Some? && !a.ServerWrite?
    ensures StillStuck(s, Next(s, a).value)
  {
    if ServerSide(a) {
      StuckIsIdle(s, a);
    }
  }

  /** Nothing but data that the server sends of its own accord ends the stuck state: until then no call in
      it is answered, and no payload is accepted, whatever else the client does. */
  lemma {:induction false} StuckPersists(s: State, actions: seq<Action>)
    requires Inv(s) && Stuck(s) && Run(s, actions).Some?
    requires forall i :: 0 <= i < |actions| ==> !actions[i].ServerWrite?
    ensures StillStuck(s, Run(s, actions).value)
    decreases |actions|
  {
    hide Next, LockInv, DrainInv;
    if actions != [] {
      StuckStep(s, actions[0]);
      StepKeepsLockInv(s, actions[0]);
      StepKeepsDrainInv(s, actions[0]);
      StuckPersists(Next(s, actions[0]).value, actions[1..]);
    }
  }

  /** Two calls at once can get stuck: a read that found nothing, and the write the server waits for. */
  lemma StuckIsReachable(size: nat, data: Bytes) returns (actions: seq<Action>)
    ensures Run(INITIAL, actions).Some? && Stuck(Run(INITIAL, actions).value)
    ensures |actions| == 4
  {
    var a0, a1, a2, a3 := Issue(0, ReadCall(size)), LockRead(0), Issue(1, WriteCall(data)), Announce(1);
    var s1 := Next(INITIAL, a0).value;
    var s2 := Next(s1, a1).value;
    var s3 := Next(s2, a2).value;
    var s4 := Next(s3, a3).value;
    assert Run(s3, [a3]) == Some(s4);
    assert [a2, a3][1..] == [a3];
    assert Run(s2, [a2, a3]) == Some(s4);
    assert [a1, a2, a3][1..] == [a2, a3];
    assert Run(s1, [a1, a2, a3]) == Some(s4);
    actions := [a0, a1, a2, a3];
    assert actions[1..] == [a1, a2, a3];
  }

  /** A call that is the only one in progress gets its lock at once, so a client that makes one call at a
      time never waits for it; and getting stuck takes at least two calls. */
  lemma SoleCallNeverWaits(s: State, id: nat)
    requires Inv(s) && s.calls.Keys == {id}
    ensures s.calls[id].Queued? ==> s.readers == 0 && s.writer.None?
    ensures s.calls[id].Queued? && s.calls[id].kind.ReadCall? ==> Next(s, LockRead(id)).Some?
    ensures s.calls[id].Queued? && s.calls[id].kind.WriteCall? ==>
              Next(s, Announce(id)).Some? && Next(Next(s, Announce(id)).value, LockWrite(id)).Some?
    ensures s.calls[id].Queued? && s.calls[id].kind.CloseCall? ==>
              Next(s, Announce(id)).Some? && Next(Next(s, Announce(id)).value, LockClose(id)).Some?
    ensures !Stuck(s)
  {
  }
}
