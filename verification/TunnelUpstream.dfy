/**
 From the client to the server: what the server reads of the accepted payloads, where every acknowledged byte
 is, and when a close loses some.
 */
module TunnelUpstream {
  import opened Prelude
  import opened Tunnel

  // ---- What every step keeps -----------------------------------------------------------------------

  predicate Tickets(order: seq<nat>, n: nat) {
    && (forall i :: 0 <= i < |order| ==> order[i] < n)
    && (forall i, j :: 0 <= i < j < |order| ==> order[i] != order[j])
  }

  /** The payloads with these tickets, one after the other. */
  function Payloads(accepted: seq<Bytes>, order: seq<nat>): Bytes
    requires forall i :: 0 <= i < |order| ==> order[i] < |accepted|
  {
    if order == [] then []
    else Payloads(accepted, order[..|order| - 1]) + accepted[order[|order| - 1]]
  }

  /** Every ticket enters the pipe at most once, while the pipe is open it is waiting or has entered, and
      what the server has read, with the rest of the chunk in transfer, is what has entered. */
  ghost predicate UpInv(u: Upstream) {
    && Tickets(u.order, |u.accepted|)
    && (forall t :: t in u.waiting ==> t < |u.accepted| && t !in u.order)
    && (u.open ==> forall t :: 0 <= t < |u.accepted| ==> t in u.waiting || t in u.order)
    && (u.open ==> u.consumed + RestBytes(u.rest) == Payloads(u.accepted, u.order))
    && (!u.open ==> u.rest.None? && u.waiting == {} && u.consumed <= Payloads(u.accepted, u.order))
  }

  lemma {:induction false} PayloadsOfMore(accepted: seq<Bytes>, data: Bytes, order: seq<nat>)
    requires forall i :: 0 <= i < |order| ==> order[i] < |accepted|
    ensures Payloads(accepted + [data], order) == Payloads(accepted, order)
    decreases |order|
  {
    if order != [] {
      PayloadsOfMore(accepted, data, order[..|order| - 1]);
    }
  }

  lemma AcceptKeeps(u: Upstream, data: Bytes)
    requires UpInv(u)
    ensures UpInv(Accept(u, data))
  {
    PayloadsOfMore(u.accepted, data, u.order);
  }

  lemma EnterKeeps(u: Upstream, ticket: nat)
    requires UpInv(u) && Enter(u, ticket).Some?
    ensures UpInv(Enter(u, ticket).value)
  {
  }

  lemma ConsumeKeeps(u: Upstream, size: nat)
    requires UpInv(u) && Consume(u, size).Some?
    ensures UpInv(Consume(u, size).value)
  {
  }

  lemma StepKeepsUpInv(s: State, a: Action)
    requires UpInv(s.up) && Next(s, a).Some?
    ensures UpInv(Next(s, a).value.up)
  {
    match a
    case LockWrite(id) => AcceptKeeps(s.up, s.calls[id].kind.data);
    case EnterPipe(ticket) => EnterKeeps(s.up, ticket);
    case ServerRead(size) => ConsumeKeeps(s.up, size);
    case _ =>
  }

  lemma {:induction false} RunKeepsUpInv(s: State, actions: seq<Action>)
    requires UpInv(s.up) && Run(s, actions).Some?
    ensures UpInv(Run(s, actions).value.up)
    decreases |actions|
  {
    hide Next, UpInv;
    if actions != [] {
      StepKeepsUpInv(s, actions[0]);
      RunKeepsUpInv(Next(s, actions[0]).value, actions[1..]);
    }
  }

  // ---- A permutation of what was accepted ----------------------------------------------------------

  function Missing(order: seq<nat>, n: nat): (r: seq<nat>)
    ensures forall t :: t in r <==> 0 <= t < n && t !in order
    ensures forall i :: 0 <= i < |r| ==> r[i] < n
    ensures forall i, j :: 0 <= i < j < |r| ==> r[i] < r[j]
  {
    if n == 0 then []
    else if n - 1 in order then Missing(order, n - 1)
    else
      var rest := Missing(order, n - 1);
      assert forall i :: 0 <= i < |rest| ==> rest[i] in rest;
      rest + [n - 1]
  }

  /** Each of the first n tickets exactly once. */
  predicate IsPermutation(perm: seq<nat>, n: nat) {
    Tickets(perm, n) && forall t :: 0 <= t < n ==> t in perm
  }

  lemma CompletedIsPermutation(order: seq<nat>, n: nat)
    requires Tickets(order, n)
    ensures IsPermutation(order + Missing(order, n), n)
  {
    var perm := order + Missing(order, n);
    forall i | 0 <= i < |perm|
      ensures perm[i] < n
    {
      if |order| <= i { assert perm[i] in Missing(order, n); }
    }
    forall i, j | 0 <= i < j < |perm|
      ensures perm[i] != perm[j]
    {
      if i < |order| <= j {
        assert perm[j] in Missing(order, n);
        assert perm[i] in order;
      }
    }
    forall t | 0 <= t < n
      ensures t in perm
    {
      if t !in order { assert t in Missing(order, n); }
    }
  }

  lemma {:induction false} PayloadsConcat(accepted: seq<Bytes>, a: seq<nat>, b: seq<nat>)
    requires forall i :: 0 <= i < |a + b| ==> (a + b)[i] < |accepted|
    ensures (forall i :: 0 <= i < |a| ==> a[i] < |accepted|) && Payloads(accepted, a) <= Payloads(accepted, a + b)
    decreases |b|
  {
    assert forall i :: 0 <= i < |a| ==> a[i] == (a + b)[i];
    if b == [] {
      assert a + b == a;
    } else {
      assert (a + b)[..|a + b| - 1] == a + b[..|b| - 1];
      PayloadsConcat(accepted, a, b[..|b| - 1]);
    }
  }

  /** In every schedule, what the server has read is a prefix of all accepted payloads, each whole and
      once, one after the other in some order. */
  lemma ServerSeesPermutation(actions: seq<Action>)
    requires Run(INITIAL, actions).Some?
    ensures var u := Run(INITIAL, actions).value.up;
            exists perm :: IsPermutation(perm, |u.accepted|) && u.consumed <= Payloads(u.accepted, perm)
  {
    RunKeepsUpInv(INITIAL, actions);
    var u := Run(INITIAL, actions).value.up;
    var perm := u.order + Missing(u.order, |u.accepted|);
    CompletedIsPermutation(u.order, |u.accepted|);
    PayloadsConcat(u.accepted, u.order, Missing(u.order, |u.accepted|));
    assert u.consumed <= Payloads(u.accepted, u.order) <= Payloads(u.accepted, perm);
  }

  // ---- Where the acknowledged bytes are ------------------------------------------------------------

  /** How many acknowledged bytes are in transfer or wait. */
  function Unread(u: Upstream): nat {
    |RestBytes(u.rest)| + SizeOf(u.accepted, u.waiting, |u.accepted|, 0)
  }

  ghost predicate Balanced(u: Upstream) {
    && (u.open ==> |Flatten(u.accepted)| == |u.consumed| + Unread(u))
    && (forall t :: t in u.waiting ==> t < |u.accepted|)
  }

  lemma AcceptBalanced(u: Upstream, data: Bytes)
    requires Balanced(u)
    ensures Balanced(Accept(u, data))
  {
    SizeOfMore(u.accepted, data, u.waiting, |u.accepted|, 0);
    FlattenSnoc(u.accepted, data);
  }

  lemma EnterBalanced(u: Upstream, ticket: nat)
    requires Balanced(u) && Enter(u, ticket).Some?
    ensures Balanced(Enter(u, ticket).value)
  {
    SizeOfLess(u.accepted, u.waiting, ticket, |u.accepted|, 0);
  }

  lemma StepKeepsBalance(s: State, a: Action)
    requires Balanced(s.up) && Next(s, a).Some?
    ensures Balanced(Next(s, a).value.up)
  {
    match a
    case LockWrite(id) => AcceptBalanced(s.up, s.calls[id].kind.data);
    case EnterPipe(ticket) => EnterBalanced(s.up, ticket);
    case ServerRead(size) => TakenAndLeft(s.up.rest.value, size);
    case _ =>
  }

  lemma {:induction false} RunKeepsBalance(s: State, actions: seq<Action>)
    requires Balanced(s.up) && Run(s, actions).Some?
    ensures Balanced(Run(s, actions).value.up)
    decreases |actions|
  {
    hide Next, Balanced;
    if actions != [] {
      StepKeepsBalance(s, actions[0]);
      RunKeepsBalance(Next(s, actions[0]).value, actions[1..]);
    }
  }

  /** Until the connection is closed, the bytes acknowledged to the client are the bytes the server has read,
      the rest of the chunk in transfer, and the payloads still waiting. */
  lemma AcknowledgedBytes(actions: seq<Action>)
    requires Run(INITIAL, actions).Some? && Run(INITIAL, actions).value.up.open
    ensures var u := Run(INITIAL, actions).value.up; |Flatten(u.accepted)| == |u.consumed| + Unread(u)
  {
    RunKeepsBalance(INITIAL, actions);
  }

  // ---- What a close loses --------------------------------------------------------------------------

  predicate NothingAccepted(actions: seq<Action>) {
    forall i :: 0 <= i < |actions| ==> !actions[i].LockWrite?
  }

  /** Every acknowledged byte has been read. */
  predicate AllRead(u: Upstream) {
    |u.consumed| == |Flatten(u.accepted)|
  }

  /** Whatever happens from here on, until a payload is accepted again, a closed connection has had everything
      read that was acknowledged. */
  ghost predicate LosesNothing(s: State) {
    forall actions {:induction false} ::
      NothingAccepted(actions) && Run(s, actions).Some? && !Run(s, actions).value.up.open ==>
        AllRead(Run(s, actions).value.up)
  }

  lemma StepKeepsAllRead(s: State, a: Action)
    requires UpInv(s.up) && Balanced(s.up) && AllRead(s.up) && Next(s, a).Some? && !a.LockWrite?
    ensures AllRead(Next(s, a).value.up)
  {
  }

  lemma {:induction false} RunKeepsAllRead(s: State, actions: seq<Action>)
    requires UpInv(s.up) && Balanced(s.up) && AllRead(s.up)
    requires Run(s, actions).Some? && NothingAccepted(actions)
    ensures AllRead(Run(s, actions).value.up)
    decreases |actions|
  {
    hide Next, UpInv, Balanced, AllRead;
    if actions != [] {
      StepKeepsUpInv(s, actions[0]);
      StepKeepsBalance(s, actions[0]);
      StepKeepsAllRead(s, actions[0]);
      RunKeepsAllRead(Next(s, actions[0]).value, actions[1..]);
    }
  }

  /** While a close is in progress, no acknowledged byte can be lost any more if and only if none is unread: no
      chunk is in transfer and no payload waits, but for empty ones. The close does not wait for them. */
  lemma ClosingLosesNothingIff(s: State, id: nat)
    requires UpInv(s.up) && Balanced(s.up) && s.up.open && id in s.calls && s.calls[id].Closing?
    ensures LosesNothing(s) <==> Unread(s.up) == 0
  {
    if Unread(s.up) == 0 {
      forall actions | NothingAccepted(actions) && Run(s, actions).Some?
        ensures AllRead(Run(s, actions).value.up)
      {
        RunKeepsAllRead(s, actions);
      }
    } else {
      OneStepRun(s, FinishClose(id));
      assert NothingAccepted([FinishClose(id)]);
    }
  }

  /** In every run, when a close takes the lock, no acknowledged byte can be lost if and only if none is unread. */
  lemma CloseLosesNothingIff(actions: seq<Action>, id: nat)
    requires Run(INITIAL, actions).Some?
    requires var s := Run(INITIAL, actions).value; s.up.open && Next(s, LockClose(id)).Some?
    ensures var s := Run(INITIAL, actions).value;
            LosesNothing(Next(s, LockClose(id)).value) <==> Unread(s.up) == 0
  {
    hide Run, LosesNothing;
    RunKeepsUpInv(INITIAL, actions);
    RunKeepsBalance(INITIAL, actions);
    ClosingLosesNothingIff(Next(Run(INITIAL, actions).value, LockClose(id)).value, id);
  }

  lemma ClosedStep(s: State, a: Action)
    requires UpInv(s.up) && !s.up.open && Next(s, a).Some?
    ensures var u := Next(s, a).value.up; !u.open && u.consumed == s.up.consumed && s.up.accepted <= u.accepted
  {
  }

  /** After the close nothing more is read, although payloads may still be acknowledged. */
  lemma {:induction false} ClosedReadsNothing(s: State, actions: seq<Action>)
    requires UpInv(s.up) && !s.up.open && Run(s, actions).Some?
    ensures var u := Run(s, actions).value.up;
            !u.open && u.consumed == s.up.consumed && s.up.accepted <= u.accepted
    decreases |actions|
  {
    hide Next, UpInv;
    if actions != [] {
      ClosedStep(s, actions[0]);
      StepKeepsUpInv(s, actions[0]);
      ClosedReadsNothing(Next(s, actions[0]).value, actions[1..]);
    }
  }

  /** One clientWrite from the request to its acknowledgement, with no other call in progress. */
  function WriteSteps(data: Bytes): seq<Action> {
    [Issue(0, WriteCall(data)), Announce(0), LockWrite(0)]
  }

  lemma WriteAccepted(s: State, data: Bytes)
    requires s.calls == map[] && s.readers == 0 && s.writer.None?
    ensures Run(s, WriteSteps(data)) == Some(s.(up := Accept(s.up, data)))
  {
    var a := WriteSteps(data);
    var s1 := Next(s, a[0]).value;
    var s2 := Next(s1, a[1]).value;
    var s3 := Next(s2, a[2]).value;
    assert Run(s2, [a[2]]) == Some(s3);
    assert a[1..][1..] == [a[2]];
    assert Run(s1, a[1..]) == Some(s3);
  }

  /** One clientClose with no other call in progress. */
  function CloseSteps(): seq<Action> {
    [Issue(0, CloseCall), Announce(0), LockClose(0), FinishClose(0)]
  }

  lemma CloseDone(s: State)
    requires s.calls == map[] && s.readers == 0 && s.writer.None?
    ensures Run(s, CloseSteps()) == Some(s.(draining := true, up := CloseUp(s.up), down := CloseDown(s.down)))
  {
    var a := CloseSteps();
    var s1 := Next(s, a[0]).value;
    var s2 := Next(s1, a[1]).value;
    var s3 := Next(s2, a[2]).value;
    var s4 := Next(s3, a[3]).value;
    assert s4.calls == map[];
    OneStepRun(s3, a[3]);
    assert a[1..][1..][1..] == [a[3]];
    assert Run(s2, a[1..][1..]) == Some(s4);
    assert Run(s1, a[1..]) == Some(s4);
  }

  /** A client writes, has its answer, and then closes: it can be that nothing of what was acknowledged is ever
      read. */
  lemma AcknowledgedCanBeLost(data: Bytes, more: seq<Action>)
    ensures Run(INITIAL, WriteSteps(data) + CloseSteps()).Some?
    ensures Run(INITIAL, WriteSteps(data) + CloseSteps() + more).Some? ==>
              var u := Run(INITIAL, WriteSteps(data) + CloseSteps() + more).value.up;
              [data] <= u.accepted && u.consumed == []
  {
    hide Next, Run;
    var s1 := INITIAL.(up := Accept(INITIAL.up, data));
    WriteAccepted(INITIAL, data);
    RunConcat(INITIAL, WriteSteps(data), CloseSteps());
    CloseDone(s1);
    RunConcat(INITIAL, WriteSteps(data) + CloseSteps(), more);
    var s2 := Run(INITIAL, WriteSteps(data) + CloseSteps()).value;
    if Run(s2, more).Some? {
      RunKeepsUpInv(INITIAL, WriteSteps(data) + CloseSteps());
      ClosedReadsNothing(s2, more);
    }
  }
}
