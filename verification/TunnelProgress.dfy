/**
 The server of a tunnelled connection always comes to rest: whatever it does on its own takes a bounded number
 of steps, and when it has none left, no call waits for the lock unless the connection is stuck.
 */
module TunnelProgress {
  import opened Prelude
  import opened Tunnel
  import opened TunnelLocks

  // ---- How much is left to do ----------------------------------------------------------------------

  /** More than the number of steps the server can still make for a call. */
  function Weight(p: Phase): nat {
    match p
    case Queued(ReadCall(_)) => 2
    case Queued(WriteCall(data)) => |data| + 5
    case Queued(CloseCall) => 3
    case Locking(ReadCall(_)) => 0
    case Locking(WriteCall(data)) => |data| + 4
    case Locking(CloseCall) => 2
    case Parked(_) => 1
    case Closing => 1
    case Replied(_, _) => 0
    case Receiving(_) => 0
  }

  ghost function Total(calls: map<nat, Phase>): nat
    decreases |calls|
  {
    if calls == map[] then 0
    else
      var id :| id in calls;
      assert (calls - {id}).Keys == calls.Keys - {id};
      Weight(calls[id]) + Total(calls - {id})
  }

  function RestWeight(rest: Option<Bytes>): nat {
    if rest.None? then 0 else |rest.value| + 1
  }

  /** Entering the pipe and being read, for each payload that waits. */
  function WaitingWeight(u: Upstream): nat {
    SizeOf(u.accepted, u.waiting, |u.accepted|, 3)
  }

  ghost function Work(s: State): nat {
    Total(s.calls) + RestWeight(s.up.rest) + RestWeight(s.down.rest) + WaitingWeight(s.up)
  }

  /** The total does not depend on the order in which calls are counted. */
  lemma {:induction false} TotalWithout(calls: map<nat, Phase>, id: nat)
    requires id in calls
    ensures Total(calls) == Weight(calls[id]) + Total(calls - {id})
    decreases |calls|
  {
    hide Weight;
    var k :| k in calls && Total(calls) == Weight(calls[k]) + Total(calls - {k});
    if k != id {
      assert (calls - {k}).Keys == calls.Keys - {k} && (calls - {id}).Keys == calls.Keys - {id};
      TotalWithout(calls - {k}, id);
      TotalWithout(calls - {id}, k);
      assert calls - {k} - {id} == calls - {id} - {k};
    }
  }

  lemma TotalUpdated(calls: map<nat, Phase>, id: nat, p: Phase)
    requires id in calls
    ensures Total(calls[id := p]) + Weight(calls[id]) == Total(calls) + Weight(p)
  {
    hide Weight, Total;
    TotalWithout(calls, id);
    TotalWithout(calls[id := p], id);
    assert calls[id := p] - {id} == calls - {id};
  }

  lemma AcceptWork(u: Upstream, data: Bytes)
    requires forall t :: t in u.waiting ==> t < |u.accepted|
    ensures WaitingWeight(Accept(u, data)) <= WaitingWeight(u) + |data| + 3
  {
    SizeOfMore(u.accepted, data, u.waiting, |u.accepted|, 3);
  }

  // ---- Every step of the server uses some of it up -------------------------------------------------

  lemma CallStepUsesWork(s: State, a: Action)
    requires Next(s, a).Some? && DrainInv(s)
    requires a.LockRead? || a.Announce? || a.LockClose? || a.Serve? || a.ServeEof?
    ensures Work(Next(s, a).value) < Work(s)
  {
    hide Total, DrainInv, WaitingWeight;
    TotalWithout(s.calls, a.id);
    if !a.ServeEof? {
      TotalUpdated(s.calls, a.id, Next(s, a).value.calls[a.id]);
    }
  }

  lemma ServerStepUsesWork(s: State, a: Action)
    requires Next(s, a).Some? && ServerSide(a) && DrainInv(s)
    ensures Work(Next(s, a).value) < Work(s)
  {
    hide Total;
    match a
    case LockWrite(id) =>
      TotalWithout(s.calls, id);
      AcceptWork(s.up, s.calls[id].kind.data);
    case FinishClose(id) =>
      TotalWithout(s.calls, id);
      SizeOfNone(s.up.accepted, |s.up.accepted|, 3);
    case EnterPipe(ticket) => SizeOfLess(s.up.accepted, s.up.waiting, ticket, |s.up.accepted|, 3);
    case ServerRead(_) =>
    case Drain(_) =>
    case _ => CallStepUsesWork(s, a);
  }

  /** Left to itself, the server makes at most so many steps from any reachable state. */
  lemma {:induction false} ServerStepsBounded(s: State, actions: seq<Action>)
    requires Inv(s) && Run(s, actions).Some? && forall i :: 0 <= i < |actions| ==> ServerSide(actions[i])
    ensures |actions| <= Work(s)
    decreases |actions|
  {
    hide Next, LockInv, DrainInv, Work;
    if actions != [] {
      ServerStepUsesWork(s, actions[0]);
      StepKeepsLockInv(s, actions[0]);
      StepKeepsDrainInv(s, actions[0]);
      ServerStepsBounded(Next(s, actions[0]).value, actions[1..]);
    }
  }

  lemma RestingWaitsIffStuck(s: State)
    requires Inv(s) && Idle(s)
    ensures Waits(s) <==> Stuck(s)
  {
    if Waits(s) {
      IdleAndWaitingIsStuck(s);
    }
    if Stuck(s) {
      assert s.writer.value in s.calls;
    }
  }

  /** So from any reachable state it comes to rest, and then no call waits for the lock unless a read is
      parked on an empty pipe in front of a writer and the server has read everything. */
  lemma {:induction false} ServerComesToRest(s: State) returns (actions: seq<Action>)
    requires Inv(s)
    ensures Run(s, actions).Some? && forall i :: 0 <= i < |actions| ==> ServerSide(actions[i])
    ensures var s1 := Run(s, actions).value; Idle(s1) && (Waits(s1) <==> Stuck(s1))
    decreases Work(s)
  {
    hide Next, LockInv, DrainInv, Work, Stuck, Waits;
    if a :| ServerSide(a) && Next(s, a).Some? {
      ServerStepUsesWork(s, a);
      StepKeepsLockInv(s, a);
      StepKeepsDrainInv(s, a);
      var rest := ServerComesToRest(Next(s, a).value);
      actions := [a] + rest;
      assert actions[1..] == rest;
    } else {
      actions := [];
      RestingWaitsIffStuck(s);
    }
  }
}
