/**
 Runs of the connection table in which requests interleave: opening a connection and closing one are each
 two steps, and other requests may run between them.
 */
module ConnectionTable {
  import opened Prelude
  import opened ConnectionIds

  /** `idOf[h]` is the id that handle `h` was created with. The rest is what happened to the handles:
      `closing` were looked up by a close request, `closed` had their TLS side closed, and an entry left
      the table because its own handle was closed (`removed`), because a new connection took its id
      (`overwritten`), or because a close of another handle deleted it (`evicted`). */
  datatype Registry = Registry(
    clients: Clients,
    idOf: seq<nat>,
    pending: map<nat, nat>,
    closing: set<nat>,
    closed: set<nat>,
    removed: set<nat>,
    overwritten: set<nat>,
    evicted: set<nat>,
    peak: nat)

  const EMPTY := Registry(map[], [], map[], {}, {}, {}, {}, {}, 0)

  datatype Step =
    | Pick(request: nat)      // read the size of the table as the id
    | Insert(request: nat)    // make the handle and the entry
    | BeginClose(id: nat)     // look the handle up
    | FinishClose(h: nat)     // close the TLS side and delete the entry

  /** One step; None when it cannot happen. Closing a handle a second time fails and deletes nothing. */
  function Next(r: Registry, step: Step): Option<Registry> {
    match step
    case Pick(p) =>
      if p in r.pending then None else Some(r.(pending := r.pending[p := |r.clients|]))
    case Insert(p) =>
      if p !in r.pending then None
      else
        var id, h := r.pending[p], |r.idOf|;
        var clients := r.clients[id := h];
        Some(r.(clients := clients,
                idOf := r.idOf + [id],
                pending := r.pending - {p},
                overwritten := if id in r.clients then r.overwritten + {r.clients[id]} else r.overwritten,
                peak := Max(r.peak, |clients|)))
    case BeginClose(id) =>
      if id in r.clients then Some(r.(closing := r.closing + {r.clients[id]})) else None
    case FinishClose(h) =>
      if h !in r.closing || |r.idOf| <= h then None
      else if h in r.closed then Some(r)
      else
        var id := r.idOf[h];
        var own := id in r.clients && r.clients[id] == h;
        var other := id in r.clients && r.clients[id] != h;
        Some(r.(clients := r.clients - {id},
                closed := r.closed + {h},
                removed := if own then r.removed + {h} else r.removed,
                evicted := if other then r.evicted + {r.clients[id]} else r.evicted))
  }

  function Run(r: Registry, steps: seq<Step>): Option<Registry>
    decreases |steps|
  {
    if steps == [] then Some(r)
    else match Next(r, steps[0])
      case None => None
      case Some(r1) => Run(r1, steps[1..])
  }

  // ---- Every handle has exactly one fate -----------------------------------------------------------

  predicate Live(r: Registry, h: nat) {
    h < |r.idOf| && r.idOf[h] in r.clients && r.clients[r.idOf[h]] == h
  }

  function Bit(b: bool): nat {
    if b then 1 else 0
  }

  function Fates(r: Registry, h: nat): nat {
    Bit(Live(r, h)) + Bit(h in r.removed) + Bit(h in r.overwritten) + Bit(h in r.evicted)
  }

  ghost predicate EntriesOwned(r: Registry) {
    forall k :: k in r.clients ==> r.clients[k] < |r.idOf| && r.idOf[r.clients[k]] == k
  }

  ghost predicate OneFate(r: Registry) {
    && (forall h :: 0 <= h < |r.idOf| ==> Fates(r, h) == 1)
    && (forall h :: h in r.removed || h in r.overwritten || h in r.evicted ==> h < |r.idOf|)
  }

  predicate FatesAddUp(r: Registry) {
    |r.idOf| == |r.clients| + |r.removed| + |r.overwritten| + |r.evicted|
  }

  ghost predicate KeysBounded(r: Registry) {
    && |r.clients| <= r.peak
    && (forall k :: k in r.clients ==> k <= r.peak)
    && (forall p :: p in r.pending ==> r.pending[p] <= r.peak)
  }

  /** An entry can be deleted by the close of another handle only after an id was reused. */
  ghost predicate EvictionNeedsReuse(r: Registry) {
    && r.removed <= r.closed <= r.closing
    && (forall h :: h in r.closing ==> h < |r.idOf|)
    && (r.overwritten == {} ==> r.evicted == {})
  }

  /** The close of a handle leaves no entry for it. */
  ghost predicate EntriesNotClosed(r: Registry) {
    forall k :: k in r.clients ==> r.clients[k] !in r.closed
  }

  ghost predicate Inv(r: Registry) {
    && EntriesOwned(r) && OneFate(r) && FatesAddUp(r)
    && KeysBounded(r) && EvictionNeedsReuse(r) && EntriesNotClosed(r)
  }

  lemma PutSize(m: Clients, id: nat, h: nat)
    ensures |m[id := h]| == if id in m then |m| else |m| + 1
  {
    assert m[id := h].Keys == m.Keys + {id};
  }

  lemma RemoveSize(m: Clients, id: nat)
    ensures |m - {id}| == if id in m then |m| - 1 else |m|
  {
    assert (m - {id}).Keys == m.Keys - {id};
  }

  lemma AddSize(s: set<nat>, x: nat)
    ensures |s + {x}| == if x in s then |s| else |s| + 1
  {
    if x in s { assert s + {x} == s; }
  }

  /** A handle that is in the table has not left it. */
  lemma LiveHasNotLeft(r: Registry, h: nat)
    requires OneFate(r) && Live(r, h)
    ensures h !in r.removed && h !in r.overwritten && h !in r.evicted
  {
    assert Fates(r, h) == 1;
  }

  lemma InsertFates(r: Registry, p: nat)
    requires EntriesOwned(r) && OneFate(r) && Next(r, Insert(p)).Some?
    ensures var r1 := Next(r, Insert(p)).value; EntriesOwned(r1) && OneFate(r1)
  {
    var r1 := Next(r, Insert(p)).value;
    var id, h := r.pending[p], |r.idOf|;
    forall g | 0 <= g < |r1.idOf|
      ensures Fates(r1, g) == 1
    {
      if g < h {
        assert Fates(r, g) == 1;
        assert r1.idOf[g] == r.idOf[g];
      }
    }
  }

  lemma InsertAddsUp(r: Registry, p: nat)
    requires EntriesOwned(r) && OneFate(r) && FatesAddUp(r) && Next(r, Insert(p)).Some?
    ensures FatesAddUp(Next(r, Insert(p)).value)
    ensures |Next(r, Insert(p)).value.clients| <= |r.clients| + 1
  {
    var id := r.pending[p];
    PutSize(r.clients, id, |r.idOf|);
    if id in r.clients {
      LiveHasNotLeft(r, r.clients[id]);
      hide OneFate, EntriesOwned;
      AddSize(r.overwritten, r.clients[id]);
    }
  }

  lemma InsertKeepsInv(r: Registry, p: nat)
    requires Inv(r) && Next(r, Insert(p)).Some?
    ensures Inv(Next(r, Insert(p)).value)
  {
    hide OneFate, EntriesOwned, FatesAddUp;
    InsertFates(r, p);
    InsertAddsUp(r, p);
  }

  lemma FinishCloseFates(r: Registry, h: nat)
    requires EntriesOwned(r) && OneFate(r) && Next(r, FinishClose(h)).Some?
    ensures var r1 := Next(r, FinishClose(h)).value; EntriesOwned(r1) && OneFate(r1)
  {
    var r1 := Next(r, FinishClose(h)).value;
    forall g | 0 <= g < |r.idOf|
      ensures Fates(r1, g) == 1
    {
      assert Fates(r, g) == 1;
    }
  }

  lemma FinishCloseAddsUp(r: Registry, h: nat)
    requires EntriesOwned(r) && OneFate(r) && FatesAddUp(r) && Next(r, FinishClose(h)).Some?
    ensures var r1 := Next(r, FinishClose(h)).value; FatesAddUp(r1) && |r1.clients| <= |r.clients|
  {
    var id := r.idOf[h];
    RemoveSize(r.clients, id);
    if id in r.clients {
      LiveHasNotLeft(r, r.clients[id]);
      hide OneFate, EntriesOwned;
      AddSize(r.removed, h);
      AddSize(r.evicted, r.clients[id]);
    }
  }

  /** A handle being closed for the first time is still in the table, unless its id was reused. */
  lemma FinishCloseEvicts(r: Registry, h: nat)
    requires OneFate(r) && EvictionNeedsReuse(r) && Next(r, FinishClose(h)).Some?
    ensures EvictionNeedsReuse(Next(r, FinishClose(h)).value)
  {
    assert Fates(r, h) == 1;
  }

  lemma FinishCloseEntries(r: Registry, h: nat)
    requires EntriesOwned(r) && EntriesNotClosed(r) && Next(r, FinishClose(h)).Some?
    ensures EntriesNotClosed(Next(r, FinishClose(h)).value)
  {
  }

  lemma FinishCloseKeepsInv(r: Registry, h: nat)
    requires Inv(r) && Next(r, FinishClose(h)).Some?
    ensures Inv(Next(r, FinishClose(h)).value)
  {
    hide OneFate, EntriesOwned, FatesAddUp, EvictionNeedsReuse, EntriesNotClosed;
    FinishCloseFates(r, h);
    FinishCloseAddsUp(r, h);
    FinishCloseEvicts(r, h);
    FinishCloseEntries(r, h);
  }

  lemma StepKeepsInv(r: Registry, step: Step)
    requires Inv(r) && Next(r, step).Some?
    ensures Inv(Next(r, step).value)
  {
    match step
    case Pick(p) =>
      var r1 := Next(r, step).value;
      assert forall h :: Fates(r1, h) == Fates(r, h);
    case Insert(p) => InsertKeepsInv(r, p);
    case BeginClose(id) =>
      var r1 := Next(r, step).value;
      assert forall h :: Fates(r1, h) == Fates(r, h);
    case FinishClose(h) => FinishCloseKeepsInv(r, h);
  }

  lemma {:induction false} RunKeepsInv(r: Registry, steps: seq<Step>)
    requires Inv(r) && Run(r, steps).Some?
    ensures Inv(Run(r, steps).value)
    decreases |steps|
  {
    hide Next, Inv;
    if steps != [] {
      StepKeepsInv(r, steps[0]);
      RunKeepsInv(Next(r, steps[0]).value, steps[1..]);
    }
  }

  /** After any run, each handle ever created is in the table, or left it in exactly one of three ways;
      no key exceeds the largest size the table has had; no entry is of a closed handle; and only a reused id lets
      one connection's close delete the entry of another. */
  lemma HandlesConserved(steps: seq<Step>)
    requires Run(EMPTY, steps).Some?
    ensures var r := Run(EMPTY, steps).value;
            && (forall h :: 0 <= h < |r.idOf| ==> Fates(r, h) == 1)
            && FatesAddUp(r)
            && (forall k :: k in r.clients ==> k <= r.peak)
            && (forall k :: k in r.clients ==> r.clients[k] !in r.closed)
            && (r.overwritten == {} ==> r.evicted == {})
  {
    RunKeepsInv(EMPTY, steps);
  }

  lemma {:induction false} PeakReachedOrKept(r: Registry, steps: seq<Step>) returns (i: nat)
    requires Run(r, steps).Some?
    ensures i <= |steps| && Run(r, steps[..i]).Some?
    ensures var peak := Run(r, steps).value.peak; peak == r.peak || peak == |Run(r, steps[..i]).value.clients|
    decreases |steps|
  {
    i := 0;
    if steps != [] {
      var r1 := Next(r, steps[0]).value;
      var j := PeakReachedOrKept(r1, steps[1..]);
      assert steps[..j + 1][1..] == steps[1..][..j] && steps[..1][1..] == [];
      var reached := Run(r, steps).value.peak == |Run(r1, steps[1..][..j]).value.clients|;
      i := if reached then j + 1 else if r1.peak == r.peak then 0 else 1;
    }
  }

  /** The largest size is one that the table has had in the run. */
  lemma PeakIsReached(steps: seq<Step>) returns (i: nat)
    requires Run(EMPTY, steps).Some?
    ensures i <= |steps| && Run(EMPTY, steps[..i]).Some?
    ensures Run(EMPTY, steps).value.peak == |Run(EMPTY, steps[..i]).value.clients|
  {
    i := PeakReachedOrKept(EMPTY, steps);
    if Run(EMPTY, steps).value.peak == 0 {
      i := 0;
    }
  }

  // ---- A close that deletes another's entry --------------------------------------------------------

  /** The first close of a handle deletes the entry of another one if and only if its own entry was gone before,
      and a later connection has its id; and that one is then in the table no more, without having been closed. */
  lemma EvictsIff(r: Registry, h: nat)
    requires Inv(r) && Next(r, FinishClose(h)).Some? && h !in r.closed
    ensures var r1 := Next(r, FinishClose(h)).value; var id := r.idOf[h];
            && (r1.evicted != r.evicted <==> h in r.overwritten + r.evicted && id in r.clients)
            && (r1.evicted != r.evicted ==>
                  && r.clients[id] != h && r.clients[id] !in r.closed + r.evicted
                  && r1.evicted == r.evicted + {r.clients[id]} && !Live(r1, r.clients[id]))
  {
    hide FatesAddUp, KeysBounded;
    assert Fates(r, h) == 1;
    if r.idOf[h] in r.clients { LiveHasNotLeft(r, r.clients[r.idOf[h]]); }
  }

  lemma {:induction false} RunSnoc(r: Registry, steps: seq<Step>, step: Step)
    requires Run(r, steps).Some?
    ensures Run(r, steps + [step]) == Next(Run(r, steps).value, step)
    decreases |steps|
  {
    hide Next;
    if steps == [] {
      assert [step][1..] == [];
      assert Next(r, step).Some? ==> Run(Next(r, step).value, []) == Next(r, step);
    } else {
      assert (steps + [step])[1..] == steps[1..] + [step];
      RunSnoc(Next(r, steps[0]).value, steps[1..], step);
    }
  }

  lemma OneMore(r: Registry, steps: seq<Step>, step: Step) returns (r1: Registry, longer: seq<Step>)
    requires Run(EMPTY, steps) == Some(r) && Next(r, step).Some?
    ensures Some(r1) == Next(r, step) && Run(EMPTY, longer) == Some(r1)
  {
    RunSnoc(EMPTY, steps, step);
    r1, longer := Next(r, step).value, steps + [step];
  }

  lemma OpenOne(r: Registry, steps: seq<Step>) returns (r1: Registry, longer: seq<Step>)
    requires Run(EMPTY, steps) == Some(r) && r.pending == map[]
    ensures Run(EMPTY, longer) == Some(r1)
    ensures var id := |r.clients|;
            && r1.clients == r.clients[id := |r.idOf|] && r1.idOf == r.idOf + [id] && r1.pending == map[]
            && |r1.clients| == (if id in r.clients then id else id + 1)
            && r1.closing == r.closing && r1.closed == r.closed && r1.evicted == r.evicted
  {
    hide Run;
    PutSize(r.clients, |r.clients|, |r.idOf|);
    r1, longer := OneMore(r, steps, Pick(0));
    r1, longer := OneMore(r1, longer, Insert(0));
  }

  lemma BeginOne(r: Registry, steps: seq<Step>, id: nat) returns (r1: Registry, longer: seq<Step>)
    requires Run(EMPTY, steps) == Some(r) && id in r.clients
    ensures Run(EMPTY, longer) == Some(r1)
    ensures r1 == r.(closing := r.closing + {r.clients[id]})
  {
    r1, longer := OneMore(r, steps, BeginClose(id));
  }

  lemma FinishOne(r: Registry, steps: seq<Step>, h: nat) returns (r1: Registry, longer: seq<Step>)
    requires Run(EMPTY, steps) == Some(r) && h in r.closing && h < |r.idOf| && h !in r.closed
    requires r.idOf[h] in r.clients
    ensures Run(EMPTY, longer) == Some(r1)
    ensures var g := r.clients[r.idOf[h]];
            && r1.clients == r.clients - {r.idOf[h]} && r1.closed == r.closed + {h}
            && |r1.clients| == |r.clients| - 1
            && r1.evicted == (if g != h then r.evicted + {g} else r.evicted)
            && r1.idOf == r.idOf && r1.pending == r.pending && r1.closing == r.closing
  {
    hide Run;
    RemoveSize(r.clients, r.idOf[h]);
    r1, longer := OneMore(r, steps, FinishClose(h));
  }

  /** Connections 0 and 1, both of which are being closed. */
  lemma TwoBeingClosed() returns (r: Registry, steps: seq<Step>)
    ensures Run(EMPTY, steps) == Some(r)
    ensures r.clients == map[0 := 0, 1 := 1] && |r.clients| == 2 && r.idOf == [0, 1] && r.pending == map[]
    ensures r.closing == {0, 1} && r.closed == {} && r.evicted == {}
  {
    assert Run(EMPTY, []) == Some(EMPTY);
    hide Run, Next;
    r, steps := OpenOne(EMPTY, []);
    assert |r.clients| == 1 && r.clients == map[0 := 0] && r.idOf == [0];
    r, steps := OpenOne(r, steps);
    assert |r.clients| == 2 && r.idOf == [0, 1];
    r, steps := BeginOne(r, steps, 1);
    r, steps := BeginOne(r, steps, 0);
  }

  /** The first is gone, and a third has taken the id of the second. */
  lemma IdTakenOver() returns (r: Registry, steps: seq<Step>)
    ensures Run(EMPTY, steps) == Some(r)
    ensures r.clients == map[1 := 2] && r.idOf == [0, 1, 1] && r.closing == {0, 1} && r.closed == {0} && r.evicted == {}
  {
    hide Run, Next;
    r, steps := TwoBeingClosed();
    r, steps := FinishOne(r, steps, 0);
    assert r.clients == map[1 := 1] && |r.clients| == 1;
    r, steps := OpenOne(r, steps);
  }

  /** A connection loses its entry although no request to close it was ever made. Two connections are being closed;
      when the first is gone, a third is opened and takes the id of the second; and the second close deletes
      that entry. */
  lemma CloseCanEvict() returns (steps: seq<Step>)
    ensures Run(EMPTY, steps).Some?
    ensures var r := Run(EMPTY, steps).value;
            |r.idOf| == 3 && 2 !in r.closing && r.clients == map[] && r.evicted == {2}
  {
    hide Run, Next;
    var r;
    r, steps := IdTakenOver();
    r, steps := FinishOne(r, steps, 1);
  }

  // ---- When ids are distinct -----------------------------------------------------------------------

  /** The id a request picks belongs to no connection and was picked by no other waiting request. */
  predicate PicksFresh(r: Registry) {
    |r.clients| !in r.clients && forall q :: q in r.pending ==> r.pending[q] != |r.clients|
  }

  /** Every id picked in a run was fresh when it was picked. */
  predicate AllFresh(r: Registry, steps: seq<Step>)
    decreases |steps|
  {
    steps == [] ||
    match Next(r, steps[0])
    case None => false
    case Some(r1) => (steps[0].Pick? ==> PicksFresh(r)) && AllFresh(r1, steps[1..])
  }

  /** No two waiting requests have the same id, and none has that of a connection. */
  predicate WaitingFresh(r: Registry) {
    && (forall p :: p in r.pending ==> r.pending[p] !in r.clients)
    && (forall p, q :: p in r.pending && q in r.pending && p != q ==> r.pending[p] != r.pending[q])
  }

  lemma FreshStepOverwritesNothing(r: Registry, step: Step)
    requires WaitingFresh(r) && Next(r, step).Some? && (step.Pick? ==> PicksFresh(r))
    ensures WaitingFresh(Next(r, step).value) && Next(r, step).value.overwritten == r.overwritten
  {
  }

  lemma {:induction false} FreshOverwritesNothing(r: Registry, steps: seq<Step>)
    requires WaitingFresh(r) && AllFresh(r, steps)
    ensures Run(r, steps).Some? && Run(r, steps).value.overwritten == r.overwritten
    decreases |steps|
  {
    hide Next, WaitingFresh, PicksFresh;
    if steps != [] {
      FreshStepOverwritesNothing(r, steps[0]);
      FreshOverwritesNothing(Next(r, steps[0]).value, steps[1..]);
    }
  }

  lemma LiveUntilClosed(r: Registry, h: nat)
    requires Inv(r) && r.overwritten == {} && h < |r.idOf|
    ensures Live(r, h) <==> h !in r.closed
  {
    hide FatesAddUp, KeysBounded;
    assert Fates(r, h) == 1;
  }

  /** In a run in which every id was fresh when it was picked, no entry is overwritten or evicted: each connection
      is in the table exactly until it is closed. */
  lemma FreshLosesNoEntry(steps: seq<Step>)
    requires AllFresh(EMPTY, steps)
    ensures Run(EMPTY, steps).Some?
    ensures var r := Run(EMPTY, steps).value;
            && r.overwritten == {} && r.evicted == {} && |r.idOf| == |r.clients| + |r.removed|
            && forall h :: 0 <= h < |r.idOf| ==> (Live(r, h) <==> h !in r.closed)
  {
    FreshOverwritesNothing(EMPTY, steps);
    RunKeepsInv(EMPTY, steps);
    hide Run, EntriesOwned, OneFate, KeysBounded;
    var r := Run(EMPTY, steps).value;
    forall h | 0 <= h < |r.idOf|
      ensures Live(r, h) <==> h !in r.closed
    {
      LiveUntilClosed(r, h);
    }
  }

  /** No id is picked while another request is between its pick and its entry. */
  predicate NeverOverlap(r: Registry, steps: seq<Step>)
    decreases |steps|
  {
    steps == [] ||
    match Next(r, steps[0])
    case None => false
    case Some(r1) => (steps[0].Pick? ==> r.pending == map[]) && NeverOverlap(r1, steps[1..])
  }

  /** The step deletes an entry of the table. */
  predicate Deletes(r: Registry, step: Step) {
    step.FinishClose? && step.h in r.closing && step.h < |r.idOf| && step.h !in r.closed
    && r.idOf[step.h] in r.clients
  }

  /** An entry is deleted only while no open is under way, and only the one with the highest id. */
  predicate OrderlyClose(r: Registry, step: Step) {
    Deletes(r, step) ==> r.pending == map[] && r.idOf[step.h] == |r.clients| - 1
  }

  predicate ClosesOrderly(r: Registry, steps: seq<Step>)
    decreases |steps|
  {
    steps == [] ||
    (OrderlyClose(r, steps[0]) && match Next(r, steps[0])
                                  case None => true
                                  case Some(r1) => ClosesOrderly(r1, steps[1..]))
  }

  predicate OnlyOpens(steps: seq<Step>) {
    forall i :: 0 <= i < |steps| ==> steps[i].Pick? || steps[i].Insert?
  }

  /** Dense ids, with at most one request waiting to insert the id that comes next. */
  ghost predicate AtMostOneWaits(r: Registry) {
    Dense(r.clients) && forall p, q :: p in r.pending && q in r.pending ==> p == q && r.pending[p] == |r.clients|
  }

  lemma FreshIffNobodyWaits(r: Registry)
    requires AtMostOneWaits(r)
    ensures PicksFresh(r) <==> r.pending == map[]
  {
  }

  lemma OrderlyCloseKeeps(r: Registry, h: nat)
    requires AtMostOneWaits(r) && Next(r, FinishClose(h)).Some? && OrderlyClose(r, FinishClose(h))
    ensures AtMostOneWaits(Next(r, FinishClose(h)).value)
  {
    var r1 := Next(r, FinishClose(h)).value;
    if Deletes(r, FinishClose(h)) {
      DenseCloseIff(r.clients, r.idOf[h]);
      hide Dense;
    } else {
      assert r1.clients == r.clients;
      hide Dense;
    }
  }

  lemma OrderlyStepKeeps(r: Registry, step: Step)
    requires AtMostOneWaits(r) && Next(r, step).Some? && OrderlyClose(r, step)
    requires step.Pick? ==> r.pending == map[]
    ensures AtMostOneWaits(Next(r, step).value)
  {
    match step
    case Pick(_) =>
    case Insert(p) => DenseOpen(r.clients, |r.idOf|);
    case BeginClose(_) =>
    case FinishClose(h) => OrderlyCloseKeeps(r, h);
  }

  /** From a table with dense ids, in a run of opens and orderly closes every id that is picked is fresh if and
      only if no two opens overlap between reading the size and making the entry. */
  lemma {:induction false} FreshIffNeverOverlap(r: Registry, steps: seq<Step>)
    requires AtMostOneWaits(r) && ClosesOrderly(r, steps)
    ensures AllFresh(r, steps) <==> NeverOverlap(r, steps)
    decreases |steps|
  {
    hide PicksFresh, AtMostOneWaits, OrderlyClose;
    if steps != [] && Next(r, steps[0]).Some? {
      FreshIffNobodyWaits(r);
      if steps[0].Pick? ==> r.pending == map[] {
        OrderlyStepKeeps(r, steps[0]);
        FreshIffNeverOverlap(Next(r, steps[0]).value, steps[1..]);
      }
    }
  }

  // ---- When ids stay fresh -------------------------------------------------------------------------

  /** Opens that do not overlap are given fresh ids, as long as nothing is closed. */
  ghost predicate StaysFresh(r: Registry) {
    forall steps {:induction false} :: OnlyOpens(steps) && NeverOverlap(r, steps) ==> AllFresh(r, steps)
  }

  /** The ids in the table and those about to be entered. */
  ghost function Taken(r: Registry): set<nat> {
    r.clients.Keys + r.pending.Values
  }

  /** These are 0 up to their number. */
  ghost predicate TakenDense(r: Registry) {
    DenseSet(Taken(r))
  }

  lemma InsertKeepsTaken(r: Registry, p: nat)
    requires p in r.pending
    ensures Taken(Next(r, Insert(p)).value) == Taken(r)
  {
    var r1 := Next(r, Insert(p)).value;
    assert r1.clients.Keys == r.clients.Keys + {r.pending[p]};
    forall k | k in r.pending.Values && k != r.pending[p]
      ensures k in r1.pending.Values
    {
      var q :| q in r.pending && r.pending[q] == k;
      assert r1.pending[q] == k;
    }
  }

  lemma PickTakesNext(r: Registry, p: nat)
    requires r.pending == map[] && TakenDense(r)
    ensures PicksFresh(r) && TakenDense(Next(r, Pick(p)).value)
  {
    hide DenseSet;
    SizeOfKeys(r.clients);
    assert Taken(r) == r.clients.Keys;
    DenseAddNext(r.clients.Keys);
    assert Next(r, Pick(p)).value.pending.Values == {|r.clients|};
  }

  lemma OpenStepIsFresh(r: Registry, step: Step)
    requires TakenDense(r) && Next(r, step).Some? && (step.Insert? || (step.Pick? && r.pending == map[]))
    ensures TakenDense(Next(r, step).value) && (step.Pick? ==> PicksFresh(r))
  {
    match step
    case Pick(p) => PickTakesNext(r, p);
    case Insert(p) => InsertKeepsTaken(r, p);
  }

  lemma {:induction false} TakenDenseIsFresh(r: Registry, steps: seq<Step>)
    requires TakenDense(r) && OnlyOpens(steps) && NeverOverlap(r, steps)
    ensures AllFresh(r, steps)
    decreases |steps|
  {
    hide Next, PicksFresh, TakenDense;
    if steps != [] {
      OpenStepIsFresh(r, steps[0]);
      TakenDenseIsFresh(Next(r, steps[0]).value, steps[1..]);
    }
  }

  lemma FreshAfter(r: Registry, step: Step)
    requires StaysFresh(r) && Next(r, step).Some? && (step.Insert? || (step.Pick? && r.pending == map[]))
    ensures StaysFresh(Next(r, step).value)
  {
    var r1 := Next(r, step).value;
    forall steps | OnlyOpens(steps) && NeverOverlap(r1, steps)
      ensures AllFresh(r1, steps)
    {
      var longer := [step] + steps;
      assert longer[1..] == steps;
      assert OnlyOpens(longer) && NeverOverlap(r, longer);
    }
  }

  lemma FreshPicksFresh(r: Registry)
    requires StaysFresh(r) && r.pending == map[]
    ensures |r.clients| !in r.clients
  {
    var r1 := Next(r, Pick(0)).value;
    assert [Pick(0)][1..] == [];
    assert NeverOverlap(r1, []);
    assert OnlyOpens([Pick(0)]) && NeverOverlap(r, [Pick(0)]);
    assert AllFresh(r, [Pick(0)]);
  }

  /** With an id at or above the size of the table, opens come to that id while it is in use. */
  lemma {:induction false} HighKeyNotFresh(r: Registry, k: nat)
    requires r.pending == map[] && k in r.clients && |r.clients| <= k
    ensures !StaysFresh(r)
    decreases k - |r.clients|
  {
    if StaysFresh(r) {
      FreshPicksFresh(r);
      var r1 := Next(r, Pick(0)).value;
      FreshAfter(r, Pick(0));
      FreshAfter(r1, Insert(0));
      PutSize(r.clients, |r.clients|, |r.idOf|);
      var r2 := Next(r1, Insert(0)).value;
      assert r2.pending == map[];
      HighKeyNotFresh(r2, k);
    }
  }

  lemma {:induction false} FreshIsTakenDense(r: Registry)
    requires StaysFresh(r)
    ensures TakenDense(r)
    decreases |r.pending|
  {
    if r.pending == map[] {
      SizeOfKeys(r.clients);
      assert Taken(r) == r.clients.Keys;
      if !Dense(r.clients) {
        var k := NotDenseHasHighKey(r.clients);
        HighKeyNotFresh(r, k);
      }
    } else {
      var p :| p in r.pending;
      var r1 := Next(r, Insert(p)).value;
      RemoveSize(r.pending, p);
      FreshAfter(r, Insert(p));
      FreshIsTakenDense(r1);
      InsertKeepsTaken(r, p);
    }
  }

  /** In any state of the table, opens that do not overlap are given fresh ids from there on if and only if the ids
      in the table, with those about to be entered, are 0 up to their number. */
  lemma StaysFreshIff(r: Registry)
    ensures StaysFresh(r) <==> TakenDense(r)
  {
    if TakenDense(r) {
      forall steps | OnlyOpens(steps) && NeverOverlap(r, steps)
        ensures AllFresh(r, steps)
      {
        TakenDenseIsFresh(r, steps);
      }
    }
    if StaysFresh(r) {
      FreshIsTakenDense(r);
    }
  }

  lemma TakenAfterClose(r: Registry, h: nat)
    requires Deletes(r, FinishClose(h))
    ensures var id := r.idOf[h];
            && id in Taken(r)
            && Taken(Next(r, FinishClose(h)).value) == if id in r.pending.Values then Taken(r) else Taken(r) - {id}
  {
  }

  /** When opens would stay fresh, a close that deletes an entry leaves it so if and only if no taken id is higher
      than the one it deletes, or a request is about to enter that id again. */
  lemma CloseStaysFreshIff(r: Registry, h: nat)
    requires StaysFresh(r) && Deletes(r, FinishClose(h))
    ensures StaysFresh(Next(r, FinishClose(h)).value)
       <==> r.idOf[h] == |Taken(r)| - 1 || r.idOf[h] in r.pending.Values
  {
    TakenAfterClose(r, h);
    StaysFreshIff(r);
    StaysFreshIff(Next(r, FinishClose(h)).value);
    DenseRemoveIff(Taken(r), r.idOf[h]);
    hide StaysFresh, DenseSet, Next, Taken;
  }

  // ---- After a close -------------------------------------------------------------------------------

  predicate Issues(r: Registry, step: Step, id: nat) {
    step.Insert? && step.request in r.pending && r.pending[step.request] == id
  }

  predicate NeverIssues(r: Registry, steps: seq<Step>, id: nat)
    decreases |steps|
  {
    steps == [] ||
    (!Issues(r, steps[0], id) && match Next(r, steps[0])
                                 case None => true
                                 case Some(r1) => NeverIssues(r1, steps[1..], id))
  }

  lemma {:induction false} StaysAbsent(r: Registry, steps: seq<Step>, id: nat)
    requires id !in r.clients && Run(r, steps).Some? && NeverIssues(r, steps, id)
    ensures id !in Run(r, steps).value.clients
    decreases |steps|
  {
    if steps != [] {
      StaysAbsent(Next(r, steps[0]).value, steps[1..], id);
    }
  }

  /** After a successful close no request finds the id again until it has been issued again. */
  lemma ClosedIdNotFound(r: Registry, h: nat, steps: seq<Step>)
    requires Next(r, FinishClose(h)).Some? && h !in r.closed
    requires var r1 := Next(r, FinishClose(h)).value;
             Run(r1, steps).Some? && NeverIssues(r1, steps, r.idOf[h])
    ensures var r1 := Next(r, FinishClose(h)).value;
            Next(Run(r1, steps).value, BeginClose(r.idOf[h])) == None
  {
    StaysAbsent(Next(r, FinishClose(h)).value, steps, r.idOf[h]);
  }

  // ---- The server object ---------------------------------------------------------------------------

  /** What the connection middleware decides before a handler runs. */
  datatype Lookup = BadRequest | NotFound | Found(h: nat)

  class HttpSidecarServer {
    var clientMap: map<nat, nat>
    var connectionIDs: seq<nat>  // the id stored in each handle
    ghost var registry: Registry

    ghost predicate Valid()
      reads this
    {
      clientMap == registry.clients && connectionIDs == registry.idOf && Inv(registry)
    }

    constructor ()
      ensures Valid() && registry == EMPTY
    {
      clientMap, connectionIDs := map[], [];
      registry := EMPTY;
    }

    /** First half of newRequest, under the table lock. */
    method PickID(ghost request: nat) returns (connectionID: nat)
      requires Valid() && request !in registry.pending
      modifies this
      ensures Valid() && Some(registry) == Next(old(registry), Pick(request))
      ensures registry.pending[request] == connectionID
    {
      StepKeepsInv(registry, Pick(request));
      connectionID := |clientMap|;
      registry := Next(registry, Pick(request)).value;
    }

    /** Second half of newRequest, outside the lock. */
    method InsertHandle(ghost request: nat, connectionID: nat) returns (h: nat)
      requires Valid() && request in registry.pending && registry.pending[request] == connectionID
      modifies this
      ensures Valid() && Some(registry) == Next(old(registry), Insert(request))
      ensures connectionID in clientMap && clientMap[connectionID] == h == |old(connectionIDs)|
    {
      StepKeepsInv(registry, Insert(request));
      h := |connectionIDs|;
      connectionIDs := connectionIDs + [connectionID];
      clientMap := clientMap[connectionID := h];
      registry := Next(registry, Insert(request)).value;
    }

    /** The middleware; the header is None when it does not parse as an integer. */
    method FindHandle(header: Option<int>) returns (r: Lookup)
      ensures r.BadRequest? <==> header.None?
      ensures r.Found? <==> header.Some? && 0 <= header.value && header.value in clientMap
      ensures r.Found? ==> r.h == clientMap[header.value]
    {
      if header.None? {
        return BadRequest;
      }
      if header.value < 0 || header.value !in clientMap {
        return NotFound;
      }
      r := Found(clientMap[header.value]);
    }

    /** The middleware in front of clientClose, which keeps the handle it has found. */
    method FindHandleToClose(header: Option<int>) returns (r: Lookup)
      requires Valid()
      modifies this`registry
      ensures Valid()
      ensures r.BadRequest? <==> header.None?
      ensures r.Found? <==> header.Some? && 0 <= header.value && header.value in clientMap
      ensures r.Found? ==> r.h == clientMap[header.value] && r.h in registry.closing
      ensures r.Found? ==> Some(registry) == Next(old(registry), BeginClose(header.value))
      ensures !r.Found? ==> registry == old(registry)
    {
      r := FindHandle(header);
      if r.Found? {
        StepKeepsInv(registry, BeginClose(header.value));
        registry := Next(registry, BeginClose(header.value)).value;
      }
    }

    /** The end of clientClose, once the TLS side of the handle has been closed for the first time. */
    method DeleteHandle(h: nat)
      requires Valid() && h in registry.closing && h !in registry.closed
      modifies this
      ensures Valid() && Some(registry) == Next(old(registry), FinishClose(h))
    {
      StepKeepsInv(registry, FinishClose(h));
      clientMap := clientMap - {connectionIDs[h]};
      registry := Next(registry, FinishClose(h)).value;
    }
  }
}
