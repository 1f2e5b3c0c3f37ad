/**
 The order in which the server reads what the client sends: when payloads are sure to enter the pipe in the order
 in which they were acknowledged, and when the bytes are sure to be the same as in that order.
 */
module TunnelOrder {
  import opened Prelude
  import opened Tunnel
  import opened TunnelUpstream

  // ---- When payloads enter in the order of acceptance ----------------------------------------------

  predicate InOrder(u: Upstream) {
    forall i :: 0 <= i < |u.order| ==> u.order[i] == i
  }

  /** Whatever happens from here on, until a payload is accepted again, payloads enter in order. */
  ghost predicate KeepsOrder(s: State) {
    forall actions {:induction false} ::
      NothingAccepted(actions) && Run(s, actions).Some? ==> InOrder(Run(s, actions).value.up)
  }

  /** All that was accepted has entered in order, but for the last payload, which may be waiting. */
  ghost predicate OnlyLastWaits(u: Upstream) {
    && InOrder(u)
    && |u.order| <= |u.accepted|
    && (u.open ==>
          if u.waiting == {} then |u.order| == |u.accepted|
          else |u.order| + 1 == |u.accepted| && u.waiting == {|u.order|})
    && (!u.open ==> u.waiting == {})
  }

  lemma AtMostOne(s: set<nat>, x: nat, y: nat)
    requires |s| <= 1 && x in s && y in s
    ensures x == y
  {
    assert |s - {x}| == |s| - 1;
    assert s - {x} == {};
  }

  lemma AllEntered(order: seq<nat>)
    requires forall i :: 0 <= i < |order| ==> order[i] == i
    ensures forall t :: 0 <= t < |order| ==> t in order
  {
    forall t | 0 <= t < |order|
      ensures t in order
    {
      assert order[t] == t;
    }
  }

  lemma OneWaitingIsLast(u: Upstream)
    requires UpInv(u) && InOrder(u) && |u.waiting| <= 1
    ensures OnlyLastWaits(u)
  {
    hide Payloads;
    var k := |u.order|;
    assert k > 0 ==> u.order[k - 1] == k - 1;
    assert k !in u.order;
    AllEntered(u.order);
    if u.open && k < |u.accepted| {
      assert k + 1 < |u.accepted| ==> k + 1 in u.waiting || k + 1 in u.order;
      forall t | t in u.waiting
        ensures t == k
      {
        AtMostOne(u.waiting, t, k);
      }
      assert u.waiting == {k};
    }
    assert u.open && k == |u.accepted| ==> u.waiting == {};
  }

  lemma StepKeepsOnlyLast(s: State, a: Action)
    requires OnlyLastWaits(s.up) && Next(s, a).Some? && !a.LockWrite?
    ensures OnlyLastWaits(Next(s, a).value.up)
  {
  }

  lemma {:induction false} RunKeepsOnlyLast(s: State, actions: seq<Action>)
    requires OnlyLastWaits(s.up) && Run(s, actions).Some? && NothingAccepted(actions)
    ensures OnlyLastWaits(Run(s, actions).value.up)
    decreases |actions|
  {
    hide Next, OnlyLastWaits;
    if actions != [] {
      StepKeepsOnlyLast(s, actions[0]);
      RunKeepsOnlyLast(Next(s, actions[0]).value, actions[1..]);
    }
  }

  lemma EnteringAhead(u: Upstream, i: nat, j: nat)
    requires i < j && j in u.order && i !in u.order
    ensures !InOrder(u)
  {
    var k :| 0 <= k < |u.order| && u.order[k] == j;
    if k == j { assert u.order[i] in u.order; }
  }

  /** The server reads what is left of the chunk in transfer. */
  function FlushSteps(u: Upstream): seq<Action> {
    if u.rest.None? then [] else [ServerRead(|u.rest.value| + 1)]
  }

  lemma Flushed(s: State)
    ensures Run(s, FlushSteps(s.up)) == Some(s.(up := s.up.(consumed := s.up.consumed + RestBytes(s.up.rest),
                                                            rest := None)))
  {
    if s.up.rest.None? {
      assert s.up.consumed + [] == s.up.consumed;
    } else {
      var chunk := s.up.rest.value;
      assert chunk[..|chunk|] == chunk;
      OneStepRun(s, ServerRead(|chunk| + 1));
    }
  }

  /** Whenever two payloads wait at the same time, the schedule can go on so that the later one enters first. */
  lemma OrderNotKept(s: State, i: nat, j: nat) returns (actions: seq<Action>)
    requires UpInv(s.up) && i < j && i in s.up.waiting && j in s.up.waiting
    ensures Run(s, actions).Some? && NothingAccepted(actions)
    ensures var u := Run(s, actions).value.up; j in u.order && i in u.waiting && !InOrder(u)
  {
    var enter := EnterPipe(j);
    Flushed(s);
    var s1 := Run(s, FlushSteps(s.up)).value;
    OneStepRun(s1, enter);
    RunConcat(s, FlushSteps(s.up), [enter]);
    actions := FlushSteps(s.up) + [enter];
    var u := Run(s, actions).value.up;
    assert u.order[|s.up.order|] == j;
    EnteringAhead(u, i, j);
  }

  lemma InOrderIfKept(s: State)
    requires KeepsOrder(s)
    ensures InOrder(s.up)
  {
    assert NothingAccepted([]) && Run(s, []) == Some(s);
  }

  /** Payloads are sure to enter in order, in whatever way the run goes on, if and only if they have done so until
      now and at most one is waiting. */
  lemma KeepsOrderIff(s: State)
    requires UpInv(s.up)
    ensures KeepsOrder(s) <==> InOrder(s.up) && |s.up.waiting| <= 1
  {
    if |s.up.waiting| > 1 {
      var i :| i in s.up.waiting;
      assert |s.up.waiting - {i}| == |s.up.waiting| - 1;
      var j :| j in s.up.waiting - {i};
      var _ := OrderNotKept(s, Min(i, j), Max(i, j));
    } else if InOrder(s.up) {
      OneWaitingIsLast(s.up);
      forall actions | NothingAccepted(actions) && Run(s, actions).Some?
        ensures InOrder(Run(s, actions).value.up)
      {
        RunKeepsOnlyLast(s, actions);
      }
    } else if KeepsOrder(s) {
      InOrderIfKept(s);
    }
  }

  /** No two accepted payloads are ever waiting to enter the pipe at the same time. */
  predicate NeverTwoWaiting(s: State, actions: seq<Action>)
    decreases |actions|
  {
    |s.up.waiting| <= 1 &&
    (actions == [] || match Next(s, actions[0])
                      case None => true
                      case Some(s1) => NeverTwoWaiting(s1, actions[1..]))
  }

  /** In every state of the run, the order is sure to be kept until a payload is accepted again. */
  ghost predicate OrderSure(s: State, actions: seq<Action>)
    decreases |actions|
  {
    KeepsOrder(s) &&
    (actions == [] || match Next(s, actions[0])
                      case None => true
                      case Some(s1) => OrderSure(s1, actions[1..]))
  }

  lemma StepKeepsInOrder(s: State, a: Action)
    requires UpInv(s.up) && InOrder(s.up) && |s.up.waiting| <= 1 && Next(s, a).Some?
    ensures InOrder(Next(s, a).value.up)
  {
    if !a.LockWrite? {
      OneWaitingIsLast(s.up);
      StepKeepsOnlyLast(s, a);
    }
  }

  lemma {:induction false} OrderSureIff(s: State, actions: seq<Action>)
    requires UpInv(s.up) && InOrder(s.up) && Run(s, actions).Some?
    ensures OrderSure(s, actions) <==> NeverTwoWaiting(s, actions)
    ensures NeverTwoWaiting(s, actions) ==> InOrder(Run(s, actions).value.up)
    decreases |actions|
  {
    hide Next, UpInv, InOrder, KeepsOrder;
    KeepsOrderIff(s);
    if actions != [] && |s.up.waiting| <= 1 {
      StepKeepsUpInv(s, actions[0]);
      StepKeepsInOrder(s, actions[0]);
      OrderSureIff(Next(s, actions[0]).value, actions[1..]);
    }
  }

  lemma {:induction false} PayloadsInOrder(accepted: seq<Bytes>, order: seq<nat>)
    requires |order| <= |accepted| && forall i :: 0 <= i < |order| ==> order[i] == i
    ensures Payloads(accepted, order) == Flatten(accepted[..|order|])
    decreases |order|
  {
    if order != [] {
      var n := |order| - 1;
      PayloadsInOrder(accepted, order[..n]);
      FlattenSnoc(accepted[..n], accepted[n]);
      assert accepted[..n] + [accepted[n]] == accepted[..n + 1];
    }
  }

  // ---- When the bytes are in the order of acceptance -----------------------------------------------

  /** Whatever happens from here on, until a payload is accepted again, what the server has read is a prefix of
      the accepted payloads in the order of acceptance. */
  ghost predicate KeepsReads(s: State) {
    forall actions {:induction false} ::
      NothingAccepted(actions) && Run(s, actions).Some? ==>
        Run(s, actions).value.up.consumed <= Flatten(Run(s, actions).value.up.accepted)
  }

  /** Any two payloads that are waiting give the same bytes in either order. */
  predicate WaitingCommute(u: Upstream) {
    forall i, j :: i in u.waiting && j in u.waiting && i < |u.accepted| && j < |u.accepted| ==>
      Commute(u.accepted[i], u.accepted[j])
  }

  lemma {:induction false} NoneOfThese(order: seq<nat>, t: nat, n: nat)
    requires n <= t
    ensures Missing(order + [t], n) == Missing(order, n)
  {
    if n != 0 {
      NoneOfThese(order, t, n - 1);
    }
  }

  lemma PayloadsOfNone(accepted: seq<Bytes>)
    ensures Payloads(accepted, []) == []
  {
  }

  lemma MissingSnoc(order: seq<nat>, n: nat)
    requires n > 0
    ensures Missing(order, n) == if n - 1 in order then Missing(order, n - 1) else Missing(order, n - 1) + [n - 1]
  {
  }

  lemma PayloadsSnoc(accepted: seq<Bytes>, order: seq<nat>, t: nat)
    requires t < |accepted| && forall i :: 0 <= i < |order| ==> order[i] < |accepted|
    ensures Payloads(accepted, order + [t]) == Payloads(accepted, order) + accepted[t]
  {
    assert (order + [t])[..|order|] == order;
  }

  lemma CommutesWithBoth(p: Bytes, others: Bytes, last: Bytes)
    requires Commute(p, last) && Commute(p, others)
    ensures Commute(p, others + last)
  {
    assert others + last + p == others + (last + p);
    assert others + (p + last) == others + p + last;
  }

  lemma EmptyCommutes(p: Bytes)
    ensures Commute(p, [])
  {
    assert p + [] == p && [] + p == p;
  }

  lemma {:induction false} CommutesWithAll(p: Bytes, accepted: seq<Bytes>, order: seq<nat>)
    requires forall i :: 0 <= i < |order| ==> order[i] < |accepted| && Commute(p, accepted[order[i]])
    ensures Commute(p, Payloads(accepted, order))
    decreases |order|
  {
    hide Commute;
    if order == [] {
      EmptyCommutes(p);
    } else {
      var init := order[..|order| - 1];
      CommutesWithAll(p, accepted, init);
      CommutesWithBoth(p, Payloads(accepted, init), accepted[order[|order| - 1]]);
    }
  }

  lemma TakenLast(accepted: seq<Bytes>, rest: seq<nat>, t: nat)
    requires t < |accepted|
    requires forall i :: 0 <= i < |rest| ==> rest[i] < |accepted| && Commute(accepted[t], accepted[rest[i]])
    ensures Payloads(accepted, rest) + accepted[t] == accepted[t] + Payloads(accepted, rest)
  {
    CommutesWithAll(accepted[t], accepted, rest);
  }

  /** A payload that commutes with all that are missing can be taken first. */
  lemma {:induction false} TakenFirst(accepted: seq<Bytes>, order: seq<nat>, t: nat, n: nat)
    requires t < n <= |accepted| && t !in order
    requires forall k :: 0 <= k < n && k !in order ==> Commute(accepted[t], accepted[k])
    ensures Payloads(accepted, Missing(order, n)) == accepted[t] + Payloads(accepted, Missing(order + [t], n))
  {
    hide Missing, Payloads, Commute;
    var rest := Missing(order + [t], n - 1);
    MissingSnoc(order, n);
    MissingSnoc(order + [t], n);
    PayloadsSnoc(accepted, Missing(order, n - 1), n - 1);
    if t == n - 1 {
      NoneOfThese(order, t, n - 1);
      TakenLast(accepted, rest, t);
    } else {
      TakenFirst(accepted, order, t, n - 1);
      if n - 1 !in order {
        assert n - 1 !in order + [t];
        PayloadsSnoc(accepted, rest, n - 1);
        assert accepted[t] + Payloads(accepted, rest) + accepted[n - 1]
            == accepted[t] + (Payloads(accepted, rest) + accepted[n - 1]);
      }
    }
  }

  /** What has entered, followed by the other payloads in order, is what was accepted. */
  ghost predicate RestInOrder(u: Upstream) {
    && Tickets(u.order, |u.accepted|)
    && Payloads(u.accepted, u.order) + Payloads(u.accepted, Missing(u.order, |u.accepted|)) == Flatten(u.accepted)
  }

  /** A waiting payload enters the pipe and is read in one go. */
  function DeliverSteps(ticket: nat, data: Bytes): seq<Action> {
    [EnterPipe(ticket), ServerRead(|data| + 1)]
  }

  lemma Delivered(s: State, ticket: nat, data: Bytes)
    requires s.up.open && s.up.rest.None? && ticket in s.up.waiting
    requires ticket < |s.up.accepted| && s.up.accepted[ticket] == data
    ensures Run(s, DeliverSteps(ticket, data)).Some?
    ensures var u := Run(s, DeliverSteps(ticket, data)).value.up;
            && u.consumed == s.up.consumed + data && u.rest.None? && u.open
            && u.waiting == s.up.waiting - {ticket} && u.accepted == s.up.accepted
  {
    var a := DeliverSteps(ticket, data);
    var s1 := Next(s, a[0]).value;
    OneStepRun(s1, a[1]);
    assert a[1..] == [a[1]];
  }

  /** Any two payloads that are waiting can be read next, in either order. */
  lemma TwoDelivered(s: State, i: nat, j: nat) returns (actions: seq<Action>)
    requires s.up.open && i != j && i in s.up.waiting && j in s.up.waiting
    requires i < |s.up.accepted| && j < |s.up.accepted|
    ensures Run(s, actions).Some? && NothingAccepted(actions)
    ensures var u := Run(s, actions).value.up;
            && u.consumed == s.up.consumed + RestBytes(s.up.rest) + s.up.accepted[i] + s.up.accepted[j]
            && u.accepted == s.up.accepted
  {
    hide Next, Run;
    var x, y := DeliverSteps(i, s.up.accepted[i]), DeliverSteps(j, s.up.accepted[j]);
    Flushed(s);
    var s1 := Run(s, FlushSteps(s.up)).value;
    Delivered(s1, i, s.up.accepted[i]);
    var s2 := Run(s1, x).value;
    Delivered(s2, j, s.up.accepted[j]);
    RunConcat(s1, x, y);
    RunConcat(s, FlushSteps(s.up), x + y);
    actions := FlushSteps(s.up) + (x + y);
  }

  lemma NothingMissing(order: seq<nat>, n: nat)
    requires forall t :: 0 <= t < n ==> t in order
    ensures Missing(order, n) == []
  {
    var missing := Missing(order, n);
    assert forall i :: 0 <= i < |missing| ==> missing[i] in missing;
  }

  lemma {:induction false} InOrderThenRest(accepted: seq<Bytes>, order: seq<nat>, n: nat)
    requires |order| <= n <= |accepted| && forall i :: 0 <= i < |order| ==> order[i] == i
    ensures Payloads(accepted, order) + Payloads(accepted, Missing(order, n)) == Flatten(accepted[..n])
  {
    hide Missing, Payloads, Flatten;
    if n == |order| {
      AllEntered(order);
      NothingMissing(order, n);
      PayloadsOfNone(accepted);
      PayloadsInOrder(accepted, order);
    } else {
      InOrderThenRest(accepted, order, n - 1);
      MissingSnoc(order, n);
      PayloadsSnoc(accepted, Missing(order, n - 1), n - 1);
      FlattenSnoc(accepted[..n - 1], accepted[n - 1]);
      assert accepted[..n - 1] + [accepted[n - 1]] == accepted[..n];
    }
  }

  lemma InOrderIsRestInOrder(u: Upstream)
    requires UpInv(u) && InOrder(u)
    ensures RestInOrder(u)
  {
    var n := |u.accepted|;
    assert |u.order| > 0 ==> u.order[|u.order| - 1] < n;
    InOrderThenRest(u.accepted, u.order, n);
    assert u.accepted[..n] == u.accepted;
  }

  lemma ReadsInOrder(u: Upstream)
    requires UpInv(u) && RestInOrder(u)
    ensures u.consumed <= Flatten(u.accepted)
  {
    hide Missing, Flatten;
    assert u.consumed <= Payloads(u.accepted, u.order);
  }

  lemma EnterKeepsRest(accepted: seq<Bytes>, order: seq<nat>, t: nat)
    requires Tickets(order, |accepted|) && t < |accepted| && t !in order
    requires forall k :: 0 <= k < |accepted| && k !in order ==> Commute(accepted[t], accepted[k])
    ensures Payloads(accepted, order + [t]) + Payloads(accepted, Missing(order + [t], |accepted|))
         == Payloads(accepted, order) + Payloads(accepted, Missing(order, |accepted|))
  {
    hide Missing, Payloads;
    TakenFirst(accepted, order, t, |accepted|);
    PayloadsSnoc(accepted, order, t);
  }

  lemma StepKeepsRest(s: State, a: Action)
    requires UpInv(s.up) && WaitingCommute(s.up) && RestInOrder(s.up) && Next(s, a).Some? && !a.LockWrite?
    ensures WaitingCommute(Next(s, a).value.up) && RestInOrder(Next(s, a).value.up)
  {
    hide Missing, Payloads, Commute, Flatten;
    if a.EnterPipe? {
      StepKeepsUpInv(s, a);
      EnterKeepsRest(s.up.accepted, s.up.order, a.ticket);
    }
  }

  lemma {:induction false} RunKeepsRest(s: State, actions: seq<Action>)
    requires UpInv(s.up) && WaitingCommute(s.up) && RestInOrder(s.up)
    requires Run(s, actions).Some? && NothingAccepted(actions)
    ensures var u := Run(s, actions).value.up; UpInv(u) && RestInOrder(u)
    decreases |actions|
  {
    hide Next, UpInv, WaitingCommute, RestInOrder;
    if actions != [] {
      StepKeepsUpInv(s, actions[0]);
      StepKeepsRest(s, actions[0]);
      RunKeepsRest(Next(s, actions[0]).value, actions[1..]);
    }
  }

  lemma CommutesIfKept(s: State, i: nat, j: nat)
    requires UpInv(s.up) && KeepsReads(s) && i in s.up.waiting && j in s.up.waiting
    ensures Commute(s.up.accepted[i], s.up.accepted[j])
  {
    if i != j {
      var ij := TwoDelivered(s, i, j);
      var ji := TwoDelivered(s, j, i);
      PrefixAfterSwap(s.up.consumed + RestBytes(s.up.rest), s.up.accepted[i], s.up.accepted[j],
                      Flatten(s.up.accepted));
    }
  }

  lemma KeptAfter(s: State, actions: seq<Action>)
    requires KeepsReads(s) && NothingAccepted(actions) && Run(s, actions).Some?
    ensures KeepsReads(Run(s, actions).value)
  {
    hide Next;
    var s1 := Run(s, actions).value;
    forall more | NothingAccepted(more) && Run(s1, more).Some?
      ensures Run(s1, more).value.up.consumed <= Flatten(Run(s1, more).value.up.accepted)
    {
      RunConcat(s, actions, more);
      assert NothingAccepted(actions + more);
    }
  }

  /** When no payload waits, and the rest of the chunk is read, all that has entered has been read, and that is as
      long as what was accepted. */
  lemma NothingWaitsThenRest(s: State)
    requires UpInv(s.up) && Balanced(s.up) && s.up.open && s.up.waiting == {} && KeepsReads(s)
    ensures RestInOrder(s.up)
  {
    var u := s.up;
    Flushed(s);
    assert Payloads(u.accepted, u.order) <= Flatten(u.accepted);
    SizeOfNone(u.accepted, |u.accepted|, 0);
    NothingMissing(u.order, |u.accepted|);
  }

  lemma {:induction false} RestInOrderIfKept(s: State)
    requires UpInv(s.up) && Balanced(s.up) && s.up.open && KeepsReads(s)
    ensures RestInOrder(s.up)
    decreases |s.up.waiting|
  {
    if s.up.waiting == {} {
      NothingWaitsThenRest(s);
    } else {
      var t :| t in s.up.waiting;
      var actions := FlushSteps(s.up) + [EnterPipe(t)];
      Flushed(s);
      var s1 := Run(s, FlushSteps(s.up)).value;
      OneStepRun(s1, EnterPipe(t));
      RunConcat(s, FlushSteps(s.up), [EnterPipe(t)]);
      KeptAfter(s, actions);
      RunKeepsUpInv(s, actions);
      RunKeepsBalance(s, actions);
      RestInOrderIfKept(Run(s, actions).value);
      forall k | 0 <= k < |s.up.accepted| && k !in s.up.order
        ensures Commute(s.up.accepted[t], s.up.accepted[k])
      {
        CommutesIfKept(s, t, k);
      }
      EnterKeepsRest(s.up.accepted, s.up.order, t);
    }
  }

  /** The bytes that the server reads are sure to be in the order of acceptance, in whatever way the run goes on,
      if and only if what has entered the pipe and then the rest in order is what was accepted, and all payloads
      that are waiting commute. */
  lemma KeepsReadsIff(s: State)
    requires UpInv(s.up) && Balanced(s.up) && s.up.open
    ensures KeepsReads(s) <==> RestInOrder(s.up) && WaitingCommute(s.up)
  {
    if RestInOrder(s.up) && WaitingCommute(s.up) {
      forall actions | NothingAccepted(actions) && Run(s, actions).Some?
        ensures Run(s, actions).value.up.consumed <= Flatten(Run(s, actions).value.up.accepted)
      {
        RunKeepsRest(s, actions);
        ReadsInOrder(Run(s, actions).value.up);
      }
    }
    if KeepsReads(s) {
      RestInOrderIfKept(s);
      forall i, j | i in s.up.waiting && j in s.up.waiting && i < |s.up.accepted| && j < |s.up.accepted|
        ensures Commute(s.up.accepted[i], s.up.accepted[j])
      {
        CommutesIfKept(s, i, j);
      }
    }
  }

  /** So after payloads that have entered in order, it depends on those that are waiting alone. */
  lemma InOrderKeepsReadsIff(s: State)
    requires UpInv(s.up) && Balanced(s.up) && s.up.open && InOrder(s.up)
    ensures KeepsReads(s) <==> WaitingCommute(s.up)
  {
    hide KeepsReads, WaitingCommute, RestInOrder;
    KeepsReadsIff(s);
    InOrderIsRestInOrder(s.up);
  }

  /** In a run, the order is sure at every moment if and only if two payloads never wait at the same time; and
      then the server reads them in the order in which they were accepted. */
  lemma OrderKept(actions: seq<Action>)
    requires Run(INITIAL, actions).Some?
    ensures OrderSure(INITIAL, actions) <==> NeverTwoWaiting(INITIAL, actions)
    ensures var u := Run(INITIAL, actions).value.up;
            NeverTwoWaiting(INITIAL, actions) ==> InOrder(u) && u.consumed <= Flatten(u.accepted)
  {
    assert UpInv(INITIAL.up);
    hide Next, UpInv, InOrder, OrderSure, NeverTwoWaiting, RestInOrder;
    RunKeepsUpInv(INITIAL, actions);
    OrderSureIff(INITIAL, actions);
    var u := Run(INITIAL, actions).value.up;
    if NeverTwoWaiting(INITIAL, actions) {
      InOrderIsRestInOrder(u);
      ReadsInOrder(u);
    }
  }

  /** Even a client that makes its calls one after the other, waiting for each answer, can have two payloads
      waiting at once, and the server can then read the second before the first. */
  lemma SequentialWritesCanSwap(first: Bytes, second: Bytes) returns (actions: seq<Action>)
    ensures Run(INITIAL, WriteSteps(first) + WriteSteps(second) + actions).Some?
    ensures Run(INITIAL, WriteSteps(first) + WriteSteps(second) + actions).value.up.consumed == second + first
  {
    hide Next, Run;
    var s1 := INITIAL.(up := Accept(INITIAL.up, first));
    var s2 := s1.(up := Accept(s1.up, second));
    WriteAccepted(INITIAL, first);
    WriteAccepted(s1, second);
    RunConcat(INITIAL, WriteSteps(first), WriteSteps(second));
    RunConcat(INITIAL, WriteSteps(first) + WriteSteps(second), []);
    var a, b := DeliverSteps(1, second), DeliverSteps(0, first);
    actions := a + b;
    RunConcat(INITIAL, WriteSteps(first) + WriteSteps(second), actions);
    assert s2.up.waiting == {0, 1};
    Delivered(s2, 1, second);
    var s3 := Run(s2, a).value;
    Delivered(s3, 0, first);
    RunConcat(s2, a, b);
  }
}
