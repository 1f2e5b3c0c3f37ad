/**
 The connection table of the tunnel server. A new connection is given the current size of the table as
 its id; the table is read for that under a lock, but the entry is made after the lock is released.
 Handles are numbered in the order in which they are created.
 */
module ConnectionIds {
  import opened Prelude

  // ---- The table alone, with opens done in one step ------------------------------------------------

  type Clients = map<nat, nat>

  function Open(m: Clients, handle: nat): Clients {
    m[|m| := handle]
  }

  function OpenAll(m: Clients, handles: seq<nat>): Clients
    decreases |handles|
  {
    if handles == [] then m else OpenAll(Open(m, handles[0]), handles[1..])
  }

  ghost function Upto(n: nat): (r: set<nat>)
    ensures forall i :: i in r <==> 0 <= i < n
    ensures |r| == n
  {
    if n == 0 then {} else Upto(n - 1) + {n - 1}
  }

  /** The numbers are 0 up to how many they are. */
  ghost predicate DenseSet(s: set<nat>) {
    s == Upto(|s|)
  }

  /** The ids in use are 0 up to the number of connections. */
  ghost predicate Dense(m: Clients) {
    DenseSet(m.Keys)
  }

  lemma DenseAddNext(s: set<nat>)
    requires DenseSet(s)
    ensures |s| !in s && DenseSet(s + {|s|})
  {
  }

  lemma DenseRemoveIff(s: set<nat>, id: nat)
    requires DenseSet(s) && id in s
    ensures DenseSet(s - {id}) <==> id == |s| - 1
  {
  }

  /** Some open among these picks the id of a connection that is still there. */
  predicate Reuses(m: Clients, handles: seq<nat>)
    decreases |handles|
  {
    handles != [] && (|m| in m || Reuses(Open(m, handles[0]), handles[1..]))
  }

  lemma SizeOfKeys(m: Clients)
    ensures |m| == |m.Keys|
  {
  }

  lemma DenseOpen(m: Clients, handle: nat)
    requires Dense(m)
    ensures Dense(Open(m, handle)) && |m| !in m && |Open(m, handle)| == |m| + 1
  {
  }

  /** From 0..n-1, closing keeps the ids dense exactly when it is the highest id that is closed. */
  lemma DenseCloseIff(m: Clients, id: nat)
    requires Dense(m) && id in m
    ensures Dense(m - {id}) <==> id == |m| - 1
  {
  }

  /** A reused id leaves the size as it is, so every later open picks the same id again. */
  lemma {:induction false} ReuseRepeats(m: Clients, handles: seq<nat>)
    requires |m| in m
    ensures OpenAll(m, handles).Keys == m.Keys
    ensures handles != [] ==> OpenAll(m, handles)[|m|] == handles[|handles| - 1]
    decreases |handles|
  {
    if handles != [] {
      var m1 := Open(m, handles[0]);
      assert m1.Keys == m.Keys;
      SizeOfKeys(m);
      SizeOfKeys(m1);
      ReuseRepeats(m1, handles[1..]);
    }
  }

  /** Closing any connection but the last of 0..n-1 makes every following open take the id n-1, although
      its connection is still there, until something else is closed. */
  lemma CloseBelowTopThenOpen(m: Clients, id: nat, handles: seq<nat>)
    requires Dense(m) && id in m && id != |m| - 1
    ensures var r := m - {id};
            && |r| == |m| - 1 && |r| in r
            && OpenAll(r, handles).Keys == r.Keys
            && (handles != [] ==> OpenAll(r, handles)[|m| - 1] == handles[|handles| - 1])
  {
    var r := m - {id};
    assert r.Keys == m.Keys - {id};
    SizeOfKeys(m);
    SizeOfKeys(r);
    ReuseRepeats(r, handles);
  }

  lemma SubsetOfSameSize(a: set<nat>, b: set<nat>)
    requires a <= b && |a| == |b|
    ensures a == b
  {
    assert |b - a| == 0;
  }

  /** A table that is not dense has an id at or above its size. */
  lemma NotDenseHasHighKey(m: Clients) returns (k: nat)
    requires !Dense(m)
    ensures k in m && |m| <= k
  {
    SizeOfKeys(m);
    if forall k :: k in m ==> k < |m| {
      assert m.Keys <= Upto(|m|);
      SubsetOfSameSize(m.Keys, Upto(|m|));
      assert false;
    }
    k :| k in m && |m| <= k;
  }

  lemma {:induction false} HighKeyIsReached(m: Clients, k: nat, handles: seq<nat>)
    requires k in m && |m| <= k < |m| + |handles|
    ensures Reuses(m, handles)
    decreases |handles|
  {
    if |m| !in m {
      var m1 := Open(m, handles[0]);
      assert m1.Keys == m.Keys + {|m|};
      SizeOfKeys(m);
      SizeOfKeys(m1);
      assert |m1| == |m| + 1;
      HighKeyIsReached(m1, k, handles[1..]);
    }
  }

  lemma {:induction false} DenseNeverReuses(m: Clients, handles: seq<nat>)
    requires Dense(m)
    ensures !Reuses(m, handles)
    decreases |handles|
  {
    if handles != [] {
      DenseOpen(m, handles[0]);
      DenseNeverReuses(Open(m, handles[0]), handles[1..]);
    }
  }

  ghost predicate NeverReuses(m: Clients) {
    forall handles: seq<nat> {:induction false} :: !Reuses(m, handles)
  }

  function Zeros(n: nat): (r: seq<nat>)
    ensures |r| == n
  {
    if n == 0 then [] else [0] + Zeros(n - 1)
  }

  /** The ids are dense exactly when no number of opens, done one after the other, takes a live id. */
  lemma DenseIffNeverReuses(m: Clients)
    ensures Dense(m) <==> NeverReuses(m)
  {
    if Dense(m) {
      forall handles: seq<nat>
        ensures !Reuses(m, handles)
      {
        DenseNeverReuses(m, handles);
      }
    } else {
      var k := NotDenseHasHighKey(m);
      var handles := Zeros(k + 1);
      HighKeyIsReached(m, k, handles);
    }
  }

  datatype Op = OpenOp(handle: nat) | CloseOp(id: nat)

  function Apply(m: Clients, op: Op): Clients {
    match op
    case OpenOp(handle) => Open(m, handle)
    case CloseOp(id) => m - {id}
  }

  /** The table after opens and closes, each done in one step, and the largest size it has had. */
  function RunOps(m: Clients, peak: nat, ops: seq<Op>): (Clients, nat)
    decreases |ops|
  {
    if ops == [] then (m, peak)
    else
      var m1 := Apply(m, ops[0]);
      RunOps(m1, Max(peak, |m1|), ops[1..])
  }

  /** The largest size is one that the table has had, or the one to begin with. */
  lemma {:induction false} PeakIsReached(m: Clients, peak: nat, ops: seq<Op>) returns (i: nat)
    ensures i <= |ops|
    ensures RunOps(m, peak, ops).1 == peak || RunOps(m, peak, ops).1 == |RunOps(m, peak, ops[..i]).0|
    decreases |ops|
  {
    i := 0;
    if ops != [] {
      var m1 := Apply(m, ops[0]);
      assert ops[..1][1..] == [];
      assert RunOps(m1, Max(peak, |m1|), []).0 == m1;
      var j := PeakIsReached(m1, Max(peak, |m1|), ops[1..]);
      assert ops[..j + 1][1..] == ops[1..][..j];
      i := if RunOps(m, peak, ops).1 == |m1| then 1 else j + 1;
    }
  }

  /** Every id in use is below the largest size the table has had. */
  lemma {:induction false} IdsBelowPeak(m: Clients, peak: nat, ops: seq<Op>)
    requires |m| <= peak && forall k :: k in m ==> k < peak
    ensures var (m1, peak1) := RunOps(m, peak, ops);
            |m1| <= peak1 && forall k :: k in m1 ==> k < peak1
    decreases |ops|
  {
    if ops != [] {
      match ops[0] {
        case OpenOp(handle) =>
          var m1 := Open(m, handle);
          assert m1.Keys == m.Keys + {|m|};
          SizeOfKeys(m1);
          IdsBelowPeak(m1, Max(peak, |m1|), ops[1..]);
        case CloseOp(id) =>
          var m1 := m - {id};
          assert m1.Keys == m.Keys - {id};
          SizeOfKeys(m1);
          SizeOfKeys(m);
          IdsBelowPeak(m1, Max(peak, |m1|), ops[1..]);
      }
    }
  }
}
