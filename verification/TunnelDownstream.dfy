/**
 From the server to the client: every byte that the server's TLS side wrote goes to at most one reader, and to
 none only when a close loses it; a client that reads sequentially gets one stream, although the bytes pass
 through two pipes and an HTTP reply.
 */
module TunnelDownstream {
  import opened Prelude
  import opened Tunnel
  import opened TunnelLocks

  // ---- Every byte has one reader -------------------------------------------------------------------

  /** What was written is, in this order: the replies to clientRead, what a close drained, what is still in
      the pipe, and what a close lost. Nothing is drained before a close, or lost before its end. */
  ghost predicate DownInv(s: State) {
    var d := s.down;
    && Flatten(d.served) + d.drained + RestBytes(d.rest) + d.lost == d.written
    && (!s.draining ==> d.drained == [])
    && (d.open ==> d.lost == [])
    && (!d.open ==> d.rest.None?)
  }

  lemma ServeKeepsDown(d: Downstream, size: nat)
    requires d.rest.Some? && d.drained == [] && d.lost == []
    requires Flatten(d.served) + d.drained + RestBytes(d.rest) + d.lost == d.written
    ensures var d1 := ServeFrom(d, size);
            Flatten(d1.served) + d1.drained + RestBytes(d1.rest) + d1.lost == d.written
  {
    hide Flatten;
    var d1 := ServeFrom(d, size);
    TakenAndLeft(d.rest.value, size);
    FlattenSnoc(d.served, Taken(d.rest.value, size));
    assert Flatten(d1.served) + [] + RestBytes(d1.rest) + [] == Flatten(d.served) + d.rest.value;
  }

  lemma DrainKeepsDown(d: Downstream, size: nat)
    requires d.rest.Some? && d.lost == []
    requires Flatten(d.served) + d.drained + RestBytes(d.rest) + d.lost == d.written
    ensures var d1 := DrainFrom(d, size);
            Flatten(d1.served) + d1.drained + RestBytes(d1.rest) + d1.lost == d.written
  {
  }

  /** A clientRead cannot read while a close has the pipe open. */
  lemma NoServeWhileDraining(s: State, id: nat)
    requires LockInv(s) && DrainInv(s) && Next(s, Serve(id)).Some?
    ensures !s.draining
  {
  }

  lemma StepKeepsDownInv(s: State, a: Action)
    requires LockInv(s) && DrainInv(s) && DownInv(s) && Next(s, a).Some?
    ensures DownInv(Next(s, a).value)
  {
    hide Flatten, LockInv, DrainInv;
    match a
    case Serve(id) =>
      NoServeWhileDraining(s, id);
      ServeKeepsDown(s.down, s.calls[id].size);
    case Drain(size) => DrainKeepsDown(s.down, size);
    case ServerWrite(chunk) =>
      assert Next(s, a).value.down.written == s.down.written + chunk;
    case FinishClose(_) =>
      assert RestBytes(s.down.rest) + s.down.lost == [] + (s.down.lost + RestBytes(s.down.rest));
    case _ =>
  }

  lemma {:induction false} RunKeepsDownInv(s: State, actions: seq<Action>)
    requires LockInv(s) && DrainInv(s) && DownInv(s) && Run(s, actions).Some?
    ensures DownInv(Run(s, actions).value)
    decreases |actions|
  {
    hide Next, LockInv, DrainInv, DownInv;
    if actions != [] {
      StepKeepsLockInv(s, actions[0]);
      StepKeepsDrainInv(s, actions[0]);
      StepKeepsDownInv(s, actions[0]);
      RunKeepsDownInv(Next(s, actions[0]).value, actions[1..]);
    }
  }

  /** In every run, each byte the server wrote went to exactly one clientRead, or was drained by a close, or
      is still in the pipe, or was in the pipe when it closed; and the replies come first in the stream. */
  lemma EveryByteOnce(actions: seq<Action>)
    requires Run(INITIAL, actions).Some?
    ensures var d := Run(INITIAL, actions).value.down;
            && Flatten(d.served) + d.drained + RestBytes(d.rest) + d.lost == d.written
            && (d.open ==> d.lost == [])
  {
    InitialInv();
    RunKeepsDownInv(INITIAL, actions);
  }

  // ---- What a close loses --------------------------------------------------------------------------

  /** Every close in the run ends when the chunk in transfer, if there is one, has been read completely. */
  predicate ClosesFindNothing(s: State, actions: seq<Action>)
    decreases |actions|
  {
    actions == [] ||
    ((actions[0].FinishClose? ==> RestBytes(s.down.rest) == []) &&
     match Next(s, actions[0])
     case None => true
     case Some(s1) => ClosesFindNothing(s1, actions[1..]))
  }

  /** Lost bytes stay lost, and only the end of a close that finds unread bytes loses any. */
  lemma StepLoses(s: State, a: Action)
    requires Next(s, a).Some?
    ensures Next(s, a).value.down.lost == s.down.lost + (if a.FinishClose? then RestBytes(s.down.rest) else [])
  {
    assert s.down.lost + [] == s.down.lost;
  }

  lemma {:induction false} LostStaysLost(s: State, actions: seq<Action>)
    requires Run(s, actions).Some?
    ensures |s.down.lost| <= |Run(s, actions).value.down.lost|
    decreases |actions|
  {
    hide Next;
    if actions != [] {
      StepLoses(s, actions[0]);
      LostStaysLost(Next(s, actions[0]).value, actions[1..]);
    }
  }

  /** In every run, nothing is lost if and only if each close ends on a pipe with nothing left in it. */
  lemma {:induction false} NothingLostIff(s: State, actions: seq<Action>)
    requires s.down.lost == [] && Run(s, actions).Some?
    ensures Run(s, actions).value.down.lost == [] <==> ClosesFindNothing(s, actions)
    decreases |actions|
  {
    hide Next;
    if actions != [] {
      StepLoses(s, actions[0]);
      var s1 := Next(s, actions[0]).value;
      if s1.down.lost == [] {
        NothingLostIff(s1, actions[1..]);
      } else {
        LostStaysLost(s1, actions[1..]);
      }
    }
  }

  predicate NoServerWrite(actions: seq<Action>) {
    forall i :: 0 <= i < |actions| ==> !actions[i].ServerWrite?
  }

  /** Whatever happens from here on, without the server writing any more, nothing is lost. */
  ghost predicate LosesNothing(s: State) {
    forall actions {:induction false} ::
      NoServerWrite(actions) && Run(s, actions).Some? ==> Run(s, actions).value.down.lost == []
  }

  lemma NoWriteAddsNothing(s: State, a: Action)
    requires Next(s, a).Some? && !a.ServerWrite? && RestBytes(s.down.rest) == []
    ensures RestBytes(Next(s, a).value.down.rest) == []
  {
  }

  lemma {:induction false} NothingLeftNothingLost(s: State, actions: seq<Action>)
    requires RestBytes(s.down.rest) == [] && s.down.lost == []
    requires NoServerWrite(actions) && Run(s, actions).Some?
    ensures Run(s, actions).value.down.lost == []
    decreases |actions|
  {
    hide Next;
    if actions != [] {
      StepLoses(s, actions[0]);
      NoWriteAddsNothing(s, actions[0]);
      NothingLeftNothingLost(Next(s, actions[0]).value, actions[1..]);
    }
  }

  lemma FinishLosesRest(s: State, id: nat)
    requires id in s.calls && s.calls[id].Closing? && s.down.lost == []
    ensures Run(s, [FinishClose(id)]).Some?
    ensures Run(s, [FinishClose(id)]).value.down.lost == RestBytes(s.down.rest)
  {
    OneStepRun(s, FinishClose(id));
    assert [] + RestBytes(s.down.rest) == RestBytes(s.down.rest);
  }

  /** While a close is in progress, nothing can be lost any more, as long as the server writes nothing, if and
      only if no unread bytes are in the pipe: the drain that the close has started may not get to them
      before the pipe is closed. */
  lemma ClosingLosesNothingIff(s: State, id: nat)
    requires id in s.calls && s.calls[id].Closing? && s.down.lost == []
    ensures LosesNothing(s) <==> RestBytes(s.down.rest) == []
  {
    if RestBytes(s.down.rest) == [] {
      forall actions | NoServerWrite(actions) && Run(s, actions).Some?
        ensures Run(s, actions).value.down.lost == []
      {
        NothingLeftNothingLost(s, actions);
      }
    } else {
      FinishLosesRest(s, id);
      assert NoServerWrite([FinishClose(id)]);
    }
  }

  /** So a close of an open connection is safe from loss exactly when it takes the lock on an empty pipe. */
  lemma CloseLosesNothingIff(s: State, id: nat)
    requires DownInv(s) && s.down.open && Next(s, LockClose(id)).Some?
    ensures LosesNothing(Next(s, LockClose(id)).value) <==> RestBytes(s.down.rest) == []
  {
    var s1 := Next(s, LockClose(id)).value;
    assert s1.down == s.down && s1.calls[id] == Closing;
    ClosingLosesNothingIff(s1, id);
  }

  /** While a close is in progress, whatever the server still writes can be lost: after a chunk is written, the
      pipe may be closed before the drain has read it. */
  lemma WriteDuringCloseCanBeLost(s: State, id: nat, chunk: Bytes)
    requires id in s.calls && s.calls[id].Closing? && s.down.lost == []
    requires s.down.open && s.down.rest.None?
    ensures Run(s, [ServerWrite(chunk), FinishClose(id)]).Some?
    ensures Run(s, [ServerWrite(chunk), FinishClose(id)]).value.down.lost == chunk
  {
    var s1 := Next(s, ServerWrite(chunk)).value;
    FinishLosesRest(s1, id);
    assert [ServerWrite(chunk), FinishClose(id)][1..] == [FinishClose(id)];
  }

  /** A loss from the start: the server has written, nobody has read, and the connection is closed. */
  lemma CloseCanLose(chunk: Bytes) returns (actions: seq<Action>)
    ensures Run(INITIAL, actions).Some?
    ensures var d := Run(INITIAL, actions).value.down; d.written == chunk && d.lost == chunk
  {
    actions := [];
    var s := INITIAL;
    s, actions := Append(s, actions, ServerWrite(chunk));
    s, actions := Append(s, actions, Issue(0, CloseCall));
    s, actions := Append(s, actions, Announce(0));
    s, actions := Append(s, actions, LockClose(0));
    s, actions := Append(s, actions, FinishClose(0));
    assert s.down.written == [] + chunk && s.down.lost == [] + chunk;
  }

  /** A close can also lose nothing: the drain it has started may read all there is before the pipe closes. */
  lemma CloseCanDrain(s: State, id: nat, chunk: Bytes)
    requires DownInv(s) && s.down.open && !s.draining && s.down.rest == Some(chunk)
    requires Next(s, LockClose(id)).Some?
    ensures var steps := [LockClose(id), Drain(|chunk| + 1), FinishClose(id)];
            && Run(s, steps).Some?
            && var d := Run(s, steps).value.down; d.drained == chunk && d.lost == [] && !d.open
  {
    var a := [LockClose(id), Drain(|chunk| + 1), FinishClose(id)];
    var s1 := Next(s, a[0]).value;
    var s2 := Next(s1, a[1]).value;
    assert chunk[..|chunk|] == chunk && [] + chunk == chunk;
    OneStepRun(s2, a[2]);
    assert a[1..][1..] == [a[2]];
    assert Run(s1, a[1..]) == Run(s2, [a[2]]);
  }

  /** Nothing is drained that no close is to blame for. */
  lemma DrainNeedsClose(s: State, size: nat)
    requires DrainInv(s) && Next(s, Drain(size)).Some?
    ensures s.down.open && exists id :: id in s.calls && s.calls[id].Closing?
  {
    assert s.writer.value in s.calls;
  }

  // ---- Reads after a close -------------------------------------------------------------------------

  predicate HasReply(p: Phase) {
    p.Replied? || p.Receiving?
  }

  lemma ClosedStepGivesNoReply(s: State, id: nat, a: Action)
    requires DrainInv(s) && !s.down.open && Next(s, a).Some?
    requires id in s.calls ==> !HasReply(s.calls[id])
    ensures var s1 := Next(s, a).value;
            !s1.down.open && (id in s1.calls ==> !HasReply(s1.calls[id]))
  {
  }

  /** On a closed connection no read is answered with data any more, not even with none. */
  lemma {:induction false} ClosedReadGetsNoReply(s: State, id: nat, actions: seq<Action>)
    requires Inv(s) && !s.down.open && Run(s, actions).Some?
    requires id in s.calls ==> !HasReply(s.calls[id])
    ensures var s1 := Run(s, actions).value;
            !s1.down.open && (id in s1.calls ==> !HasReply(s1.calls[id]))
    decreases |actions|
  {
    hide Next, LockInv, DrainInv, HasReply;
    if actions != [] {
      ClosedStepGivesNoReply(s, id, actions[0]);
      StepKeepsLockInv(s, actions[0]);
      StepKeepsDrainInv(s, actions[0]);
      ClosedReadGetsNoReply(Next(s, actions[0]).value, id, actions[1..]);
    }
  }

  /** It is answered with an error: the call is over, and nothing was served or returned. */
  lemma ClosedReadFails(s: State, id: nat)
    requires Inv(s) && !s.down.open && id in s.calls && s.calls[id].Parked?
    ensures Next(s, ServeEof(id)).Some?
    ensures var s1 := Next(s, ServeEof(id)).value;
            && s1.calls == s.calls - {id} && s1.readers == s.readers - 1
            && s1.down == s.down && s1.local == s.local && s1.returned == s.returned
  {
    assert id in ParkedIds(s.calls);
  }

  // ---- A client that reads sequentially ------------------------------------------------------------

  predicate IsRead(p: Phase) {
    match p
    case Queued(kind) => kind.ReadCall?
    case Parked(_) => true
    case Replied(_, _) => true
    case Receiving(_) => true
    case _ => false
  }

  predicate NoRead(s: State) {
    forall id :: id in s.calls ==> !IsRead(s.calls[id])
  }

  /** A read is only begun when no other is in progress. */
  predicate ReadsSequential(s: State, actions: seq<Action>)
    decreases |actions|
  {
    actions == [] ||
    ((actions[0].Issue? && actions[0].kind.ReadCall? ==> NoRead(s)) &&
     match Next(s, actions[0])
     case None => true
     case Some(s1) => ReadsSequential(s1, actions[1..]))
  }

  /** How far the client's read in progress has come, with the data of its reply. */
  datatype Progress =
    | Between
    | Requested(id: nat)
    | Answered(id: nat, data: Bytes)
    | Copying(id: nat, data: Bytes)

  predicate OnlyRead(s: State, id: nat) {
    id in s.calls && IsRead(s.calls[id]) && forall q :: q in s.calls && q != id ==> !IsRead(s.calls[q])
  }

  predicate LocalHolds(l: Local, data: Bytes) {
    l == Local(multiset{data}, None) || l == Local(multiset{}, Some(data))
  }

  /** What was served has been returned, but for the reply of the one read in progress, which fits the
      buffer it will be copied to and is the only thing in the local pipe. */
  ghost predicate At(s: State, progress: Progress) {
    match progress
    case Between => NoRead(s) && s.local == EMPTY_LOCAL && Flatten(s.down.served) == s.returned
    case Requested(id) =>
      && OnlyRead(s, id) && (s.calls[id].Parked? || s.calls[id].Queued?)
      && s.local == EMPTY_LOCAL && Flatten(s.down.served) == s.returned
    case Answered(id, data) =>
      && OnlyRead(s, id) && s.calls[id].Replied? && s.calls[id].data == data
      && |data| <= s.calls[id].size
      && s.local == EMPTY_LOCAL && Flatten(s.down.served) == s.returned + data
    case Copying(id, data) =>
      && OnlyRead(s, id) && s.calls[id].Receiving?
      && |data| <= s.calls[id].size
      && LocalHolds(s.local, data) && Flatten(s.down.served) == s.returned + data
  }

  lemma ServeStep(s: State, id: nat)
    requires At(s, Requested(id)) && Next(s, Serve(id)).Some?
    ensures At(Next(s, Serve(id)).value, Answered(id, Taken(s.down.rest.value, s.calls[id].size)))
  {
    hide Flatten;
    FlattenSnoc(s.down.served, Taken(s.down.rest.value, s.calls[id].size));
  }

  /** The local read takes the whole reply, because the reply fits the buffer. */
  lemma LocalReadStep(s: State, id: nat, data: Bytes)
    requires At(s, Copying(id, data)) && Next(s, LocalRead(id)).Some?
    ensures At(Next(s, LocalRead(id)).value, Between)
    ensures Next(s, LocalRead(id)).value.returned == s.returned + data
  {
    hide Flatten;
    assert Taken(data, s.calls[id].size) == data;
  }

  /** The steps of writes, closes and the server leave the read in progress where it is. */
  lemma OtherStep(s: State, progress: Progress, a: Action)
    requires At(s, progress) && Next(s, a).Some?
    requires a.Issue? ==> !a.kind.ReadCall?
    requires !a.Serve? && !a.ServeEof? && !a.Receive? && !a.EnterLocal? && !a.LocalRead?
    ensures At(Next(s, a).value, progress)
  {
    hide Flatten;
  }

  lemma ReceiveStep(s: State, id: nat, data: Bytes)
    requires At(s, Answered(id, data)) && Next(s, Receive(id)).Some?
    ensures At(Next(s, Receive(id)).value, Copying(id, data))
  {
  }

  lemma EnterLocalStep(s: State, progress: Progress, chunk: Bytes)
    requires At(s, progress) && Next(s, EnterLocal(chunk)).Some?
    ensures At(Next(s, EnterLocal(chunk)).value, progress)
  {
    hide Flatten;
  }

  lemma SequentialStep(s: State, progress: Progress, a: Action) returns (after: Progress)
    requires At(s, progress) && Next(s, a).Some?
    requires a.Issue? && a.kind.ReadCall? ==> NoRead(s)
    ensures At(Next(s, a).value, after)
  {
    hide Flatten;
    match a
    case Issue(id, kind) =>
      if kind.ReadCall? {
        after := Requested(id);
      } else {
        OtherStep(s, progress, a);
        after := progress;
      }
    case Serve(id) =>
      ServeStep(s, id);
      after := Answered(id, Taken(s.down.rest.value, s.calls[id].size));
    case ServeEof(id) => after := Between;
    case Receive(id) =>
      ReceiveStep(s, id, s.calls[id].data);
      after := Copying(id, s.calls[id].data);
    case EnterLocal(chunk) =>
      EnterLocalStep(s, progress, chunk);
      after := progress;
    case LocalRead(id) =>
      LocalReadStep(s, id, progress.data);
      after := Between;
    case _ =>
      OtherStep(s, progress, a);
      after := progress;
  }

  lemma {:induction false} SequentialRun(s: State, progress: Progress, actions: seq<Action>)
    returns (after: Progress)
    requires At(s, progress) && ReadsSequential(s, actions) && Run(s, actions).Some?
    ensures At(Run(s, actions).value, after)
    decreases |actions|
  {
    hide Next, At;
    if actions == [] {
      after := progress;
    } else {
      var next := SequentialStep(s, progress, actions[0]);
      after := SequentialRun(Next(s, actions[0]).value, next, actions[1..]);
    }
  }

  lemma InitialServed()
    ensures At(INITIAL, Between)
  {
  }

  /** With sequential reads, what the client's Read calls have returned is always a prefix of what the server
      wrote. Between two reads the local pipe is empty and every byte served has been returned. */
  lemma SequentialReadsAreOneStream(actions: seq<Action>)
    requires Run(INITIAL, actions).Some? && ReadsSequential(INITIAL, actions)
    ensures var s := Run(INITIAL, actions).value;
            && s.returned <= s.down.written
            && (NoRead(s) ==> s.local == EMPTY_LOCAL && s.returned == Flatten(s.down.served))
  {
    hide Next, Flatten;
    InitialServed();
    EveryByteOnce(actions);
    var after := SequentialRun(INITIAL, Between, actions);
    var s := Run(INITIAL, actions).value;
    assert s.returned <= Flatten(s.down.served);
    assert Flatten(s.down.served) <= s.down.written;
  }

  // ---- Two reads at once ---------------------------------------------------------------------------

  /** Every reply fits the buffer it was asked for. */
  predicate RepliesFit(s: State) {
    forall id :: id in s.calls && s.calls[id].Replied? ==> |s.calls[id].data| <= s.calls[id].size
  }

  lemma StepKeepsFit(s: State, a: Action)
    requires RepliesFit(s) && Next(s, a).Some?
    ensures RepliesFit(Next(s, a).value)
  {
    if a.Serve? { TakenAndLeft(s.down.rest.value, s.calls[a.id].size); }
  }

  lemma {:induction false} RunKeepsFit(s: State, actions: seq<Action>)
    requires RepliesFit(s) && Run(s, actions).Some?
    ensures RepliesFit(Run(s, actions).value)
    decreases |actions|
  {
    hide Next, RepliesFit;
    if actions != [] {
      StepKeepsFit(s, actions[0]);
      RunKeepsFit(Next(s, actions[0]).value, actions[1..]);
    }
  }

  function DeliverySteps(id: nat, data: Bytes): seq<Action> {
    [Receive(id), EnterLocal(data), LocalRead(id)]
  }

  /** With the local pipe empty, any call that has its reply can be the next to return it. */
  lemma DeliverReply(s: State, id: nat)
    requires id in s.calls && s.calls[id].Replied? && RepliesFit(s) && s.local == EMPTY_LOCAL
    ensures var data := s.calls[id].data;
            Run(s, DeliverySteps(id, data))
              == Some(s.(calls := s.calls - {id}, returned := s.returned + data))
  {
    var data := s.calls[id].data;
    var a := DeliverySteps(id, data);
    assert Taken(data, s.calls[id].size) == data;
    assert multiset{} + multiset{data} - multiset{data} == multiset{};
    var s1 := Next(s, a[0]).value;
    assert s1.local == Local(multiset{data}, None);
    var s2 := Next(s1, a[1]).value;
    var s3 := Next(s2, a[2]).value;
    assert s3.calls == s.calls - {id};
    OneStepRun(s2, a[2]);
    assert a[1..][1..] == [a[2]];
    assert Run(s1, a[1..]) == Some(s3);
  }

  /** The two next replies, delivered in the wrong order. */
  function SwapSteps(s: State, p: nat, q: nat): seq<Action>
    requires p in s.calls && q in s.calls && s.calls[p].Replied? && s.calls[q].Replied?
  {
    DeliverySteps(q, s.calls[q].data) + DeliverySteps(p, s.calls[p].data)
  }

  lemma SwapDelivers(s: State, p: nat, q: nat)
    requires p != q && p in s.calls && q in s.calls && s.calls[p].Replied? && s.calls[q].Replied?
    requires RepliesFit(s) && s.local == EMPTY_LOCAL
    ensures Run(s, SwapSteps(s, p, q)).Some?
    ensures var s1 := Run(s, SwapSteps(s, p, q)).value;
            s1.returned == s.returned + s.calls[q].data + s.calls[p].data && s1.down == s.down
  {
    hide Next, Run;
    DeliverReply(s, q);
    var s1 := s.(calls := s.calls - {q}, returned := s.returned + s.calls[q].data);
    DeliverReply(s1, p);
    RunConcat(s, DeliverySteps(q, s.calls[q].data), DeliverySteps(p, s.calls[p].data));
  }

  /** In every reachable state with an empty local pipe in which two calls have their replies, and these are the
      next in the stream, p's before q's, the client can return q's first; and when both have been returned, what
      it has returned is still a prefix of what the server wrote if and only if the two replies commute. */
  lemma SwapKeepsPrefixIff(actions: seq<Action>, p: nat, q: nat)
    requires Run(INITIAL, actions).Some?
    requires var s := Run(INITIAL, actions).value;
             && p != q && p in s.calls && q in s.calls && s.calls[p].Replied? && s.calls[q].Replied?
             && s.local == EMPTY_LOCAL
             && s.returned + s.calls[p].data + s.calls[q].data <= Flatten(s.down.served)
    ensures var s := Run(INITIAL, actions).value; var x, y := s.calls[p].data, s.calls[q].data;
            && Run(s, SwapSteps(s, p, q)).Some?
            && (var s1 := Run(s, SwapSteps(s, p, q)).value;
                && s1.returned == s.returned + y + x
                && (s1.returned <= s1.down.written <==> Commute(x, y)))
  {
    hide Next, Flatten;
    RunKeepsFit(INITIAL, actions);
    EveryByteOnce(actions);
    var s := Run(INITIAL, actions).value;
    SwapDelivers(s, p, q);
    var x, y := s.calls[p].data, s.calls[q].data;
    assert Flatten(s.down.served) <= s.down.written;
    PrefixAfterSwap(s.returned, x, y, s.down.written);
  }

  /** The server writes a chunk, and a parked read with room for it answers with the whole of it. */
  lemma WriteAndServe(s: State, actions: seq<Action>, id: nat, chunk: Bytes)
    returns (s1: State, longer: seq<Action>)
    requires Run(INITIAL, actions) == Some(s)
    requires id in s.calls && s.calls[id] == Parked(|chunk|) && 0 < s.readers
    requires s.down.open && s.down.rest.None?
    ensures Run(INITIAL, longer) == Some(s1)
    ensures s1 == s.(calls := s.calls[id := Replied(|chunk|, chunk)], readers := s.readers - 1,
                     down := s.down.(written := s.down.written + chunk, served := s.down.served + [chunk]))
  {
    assert Taken(chunk, |chunk|) == chunk;
    s1, longer := Append(s, actions, ServerWrite(chunk));
    s1, longer := Append(s1, longer, Serve(id));
  }

  lemma TwoReadsServed(x: Bytes, y: Bytes) returns (actions: seq<Action>)
    ensures Run(INITIAL, actions).Some?
    ensures var s := Run(INITIAL, actions).value;
            && s.down.written == x + y && s.returned == [] && s.local == EMPTY_LOCAL
            && Flatten(s.down.served) == x + y
            && s.calls == map[0 := Replied(|x|, x), 1 := Replied(|y|, y)]
  {
    actions := [];
    var s := INITIAL;
    s, actions := Append(s, actions, Issue(0, ReadCall(|x|)));
    s, actions := Append(s, actions, Issue(1, ReadCall(|y|)));
    s, actions := Append(s, actions, LockRead(0));
    s, actions := Append(s, actions, LockRead(1));
    assert s.calls == map[0 := Parked(|x|), 1 := Parked(|y|)];
    hide Next, Run;
    s, actions := WriteAndServe(s, actions, 0, x);
    s, actions := WriteAndServe(s, actions, 1, y);
    assert s.down.written == x + y && s.down.served == [x] + [y];
    FlattenSnoc([x], y);
    assert Flatten([x]) == x + Flatten([x][1..]);
  }

  /** Any two replies can be returned in the wrong order, starting from a fresh connection. */
  lemma ConcurrentReadsCanSwap(x: Bytes, y: Bytes) returns (actions: seq<Action>)
    ensures Run(INITIAL, actions).Some?
    ensures var s := Run(INITIAL, actions).value;
            && s.down.written == x + y && s.returned == y + x
            && (s.returned <= s.down.written <==> Commute(x, y))
  {
    var served := TwoReadsServed(x, y);
    var s := Run(INITIAL, served).value;
    hide Next, Run;
    assert s.returned + x + y == x + y;
    SwapKeepsPrefixIff(served, 0, 1);
    RunConcat(INITIAL, served, SwapSteps(s, 0, 1));
    RunKeepsFit(INITIAL, served);
    SwapDelivers(s, 0, 1);
    actions := served + SwapSteps(s, 0, 1);
  }
}
