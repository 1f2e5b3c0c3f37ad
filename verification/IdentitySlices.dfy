/**
 The gate appends the default identity type to an API's empty list with Go's `append`, which may write into
 an array that other slices look at. Slices are views of arrays held in a heap; a slice can grow in place up to
 the end of its array.
 */
module IdentitySlices {

  datatype Slice = Slice(buf: nat, off: nat, len: nat)

  type Heap = map<nat, seq<string>>

  predicate InHeap(h: Heap, s: Slice) {
    s.buf in h && s.off + s.len <= |h[s.buf]|
  }

  function View(h: Heap, s: Slice): seq<string>
    requires InHeap(h, s)
  {
    h[s.buf][s.off..s.off + s.len]
  }

  predicate Spare(h: Heap, s: Slice)
    requires InHeap(h, s)
  {
    s.off + s.len < |h[s.buf]|
  }

  /** Go's append of one element: in place when there is room, in a new array otherwise. */
  function Append(h: Heap, s: Slice, x: string, newBuf: nat): (Heap, Slice)
    requires InHeap(h, s)
  {
    if Spare(h, s) then
      (h[s.buf := h[s.buf][s.off + s.len := x]], s.(len := s.len + 1))
    else
      (h[newBuf := View(h, s) + [x]], Slice(newBuf, 0, s.len + 1))
  }

  /** Whether a slice looks at the cell that an append to `s` writes. */
  predicate Covers(t: Slice, s: Slice) {
    t.buf == s.buf && t.off <= s.off + s.len < t.off + t.len
  }

  lemma AppendViews(h: Heap, s: Slice, x: string, newBuf: nat)
    requires InHeap(h, s) && newBuf !in h
    ensures var (h1, s1) := Append(h, s, x, newBuf);
            InHeap(h1, s1) && View(h1, s1) == View(h, s) + [x]
  {
  }

  /** An append changes what another slice shows exactly when it is done in place, the slice looks at the
      cell that is written, and the cell held something else. */
  lemma AppendChangesIff(h: Heap, s: Slice, x: string, newBuf: nat, t: Slice)
    requires InHeap(h, s) && InHeap(h, t) && newBuf !in h
    ensures var h1 := Append(h, s, x, newBuf).0;
            && InHeap(h1, t)
            && (View(h1, t) != View(h, t)
                <==> Spare(h, s) && Covers(t, s) && h[s.buf][s.off + s.len] != x)
  {
    var h1 := Append(h, s, x, newBuf).0;
    if Spare(h, s) && Covers(t, s) {
      var k := s.off + s.len - t.off;
      assert View(h1, t)[k] == x && View(h, t)[k] == h[s.buf][s.off + s.len];
      if h[s.buf][s.off + s.len] == x { assert h1[s.buf] == h[s.buf]; }
    } else {
      assert forall k :: 0 <= k < t.len ==> View(h1, t)[k] == View(h, t)[k];
    }
  }

  /** One handled request: the list that is consulted is the API's own, or the default when it is empty. */
  function Consult(h: Heap, s: Slice, default: string, newBuf: nat): (Heap, Slice)
    requires InHeap(h, s)
  {
    if s.len == 0 then Append(h, s, default, newBuf) else (h, s)
  }

  /** The spare cell behind an empty list is seen by another list, and does not hold the default. */
  predicate Exposes(h: Heap, s: Slice, t: Slice, default: string)
    requires InHeap(h, s) && InHeap(h, t)
  {
    s.len == 0 && Covers(t, s) && h[s.buf][s.off] != default
  }

  /** Handling a request consults the right list, and leaves a registered list as it was if and only if that does
      not look at the cell that is written, or the cell held the default already. Lists that come from separate
      messages never look at each other's cells. */
  lemma ConsultKeepsLists(h: Heap, s: Slice, default: string, newBuf: nat, t: Slice)
    requires InHeap(h, s) && InHeap(h, t) && newBuf !in h
    ensures var (h1, s1) := Consult(h, s, default, newBuf);
            && InHeap(h1, s1) && View(h1, s1) == (if s.len == 0 then [default] else View(h, s))
            && InHeap(h1, t) && (View(h1, t) == View(h, t) <==> !Exposes(h, s, t, default))
  {
    if s.len == 0 {
      AppendViews(h, s, default, newBuf);
      AppendChangesIff(h, s, default, newBuf, t);
    }
  }

  // ---- Many requests -------------------------------------------------------------------------------

  /** The list that the gate consults for an API. */
  function Consulted(h: Heap, s: Slice, default: string): seq<string>
    requires InHeap(h, s)
  {
    if s.len == 0 then [default] else View(h, s)
  }

  ghost predicate AllInHeap(h: Heap, registered: set<Slice>) {
    forall t :: t in registered ==> InHeap(h, t)
  }

  ghost predicate NoneExposed(h: Heap, registered: set<Slice>, default: string)
    requires AllInHeap(h, registered)
  {
    forall s, t :: s in registered && t in registered ==> !Exposes(h, s, t, default)
  }

  /** No array is removed or shortened. */
  lemma ConsultKeepsOthers(h: Heap, s: Slice, default: string, next: nat)
    requires InHeap(h, s) && forall b :: b in h ==> b < next
    ensures var h1 := Consult(h, s, default, next).0;
            && (forall b :: b in h1 ==> b < next + 1)
            && (forall t :: InHeap(h, t) ==> InHeap(h1, t))
  {
  }

  /** The heap after requests for these APIs have been handled; new arrays are numbered from `next` on. */
  function ConsultAll(h: Heap, requests: seq<Slice>, default: string, next: nat): Heap
    requires forall s :: s in requests ==> InHeap(h, s)
    requires forall b :: b in h ==> b < next
    decreases |requests|
  {
    if requests == [] then h
    else
      ConsultKeepsOthers(h, requests[0], default, next);
      ConsultAll(Consult(h, requests[0], default, next).0, requests[1..], default, next + 1)
  }

  lemma ConsultExposesNone(h: Heap, r: Slice, default: string, next: nat, registered: set<Slice>)
    requires AllInHeap(h, registered) && NoneExposed(h, registered, default) && r in registered
    requires forall b :: b in h ==> b < next
    ensures var h1 := Consult(h, r, default, next).0;
            AllInHeap(h1, registered) && NoneExposed(h1, registered, default)
  {
    ConsultKeepsOthers(h, r, default, next);
  }

  lemma {:induction false} NoneExposedKeepsVerdict(h: Heap, requests: seq<Slice>, default: string, next: nat,
                                                   registered: set<Slice>, t: Slice)
    requires AllInHeap(h, registered) && NoneExposed(h, registered, default) && t in registered
    requires forall s :: s in requests ==> s in registered
    requires forall b :: b in h ==> b < next
    ensures var h1 := ConsultAll(h, requests, default, next);
            InHeap(h1, t) && Consulted(h1, t, default) == Consulted(h, t, default)
    decreases |requests|
  {
    if requests != [] {
      var r := requests[0];
      assert r in registered;
      ConsultKeepsOthers(h, r, default, next);
      ConsultKeepsLists(h, r, default, next, t);
      ConsultExposesNone(h, r, default, next, registered);
      NoneExposedKeepsVerdict(Consult(h, r, default, next).0, requests[1..], default, next + 1, registered, t);
    }
  }

  /** However many requests are handled, in whatever order, a later one consults the same list for its API as it
      would have done before any of them. */
  ghost predicate VerdictsStay(h: Heap, registered: set<Slice>, default: string, next: nat)
    requires forall b :: b in h ==> b < next
    requires AllInHeap(h, registered)
  {
    forall requests: seq<Slice>, t: Slice {:induction false} ::
      (forall s :: s in requests ==> s in registered) && t in registered ==>
        var h1 := ConsultAll(h, requests, default, next);
        InHeap(h1, t) && Consulted(h1, t, default) == Consulted(h, t, default)
  }

  /** One request for an API with an empty list changes what is consulted for another API. */
  lemma ExposedChanges(h: Heap, s: Slice, t: Slice, default: string, next: nat)
    requires InHeap(h, s) && InHeap(h, t) && Exposes(h, s, t, default)
    requires forall b :: b in h ==> b < next
    ensures var h1 := ConsultAll(h, [s], default, next);
            InHeap(h1, t) && Consulted(h1, t, default) != Consulted(h, t, default)
  {
    ConsultKeepsOthers(h, s, default, next);
    ConsultKeepsLists(h, s, default, next, t);
    assert [s][1..] == [];
    assert ConsultAll(Consult(h, s, default, next).0, [], default, next + 1) == Consult(h, s, default, next).0;
  }

  /** No sequence of requests changes a later verdict if and only if every spare cell that a registered list sees
      behind an empty one holds the default already. */
  lemma RequestsChangeNoVerdictIff(h: Heap, registered: set<Slice>, default: string, next: nat)
    requires AllInHeap(h, registered) && forall b :: b in h ==> b < next
    ensures VerdictsStay(h, registered, default, next) <==> NoneExposed(h, registered, default)
  {
    if NoneExposed(h, registered, default) {
      forall requests: seq<Slice>, t: Slice | (forall s :: s in requests ==> s in registered) && t in registered
        ensures var h1 := ConsultAll(h, requests, default, next);
                InHeap(h1, t) && Consulted(h1, t, default) == Consulted(h, t, default)
      {
        NoneExposedKeepsVerdict(h, requests, default, next, registered, t);
      }
    } else {
      var s, t :| s in registered && t in registered && Exposes(h, s, t, default);
      ExposedChanges(h, s, t, default, next);
      assert forall r :: r in [s] ==> r in registered;
    }
  }
}
