/**
 One tunnelled connection as a transition system: the HTTP calls in progress with the locks they hold or
 wait for, the goroutines that still have something to write, and the two in-memory pipes, with the local
 pipe of the client. A run is any interleaving of the steps.

 The pipes are synchronous. Writers of a pipe enter it one at a time in no particular order; a read takes
 the smaller of its buffer and the rest of the chunk being written; and closing a pipe ends both sides.
 */
module Tunnel {
  import opened Prelude

  // ---- A chunk in transfer -------------------------------------------------------------------------

  function RestBytes(rest: Option<Bytes>): Bytes {
    if rest.Some? then rest.value else []
  }

  /** What one read with a buffer of `size` takes from the chunk in transfer. */
  function Taken(chunk: Bytes, size: nat): Bytes {
    chunk[..Min(size, |chunk|)]
  }

  /** The writer is released when nothing of its chunk is left. */
  function Left(chunk: Bytes, size: nat): Option<Bytes> {
    if |chunk| <= size then None else Some(chunk[size..])
  }

  lemma TakenAndLeft(chunk: Bytes, size: nat)
    ensures Taken(chunk, size) + RestBytes(Left(chunk, size)) == chunk
    ensures |Taken(chunk, size)| <= size
  {
  }

  // ---- From the client to the server ---------------------------------------------------------------

  /** `accepted` are the payloads acknowledged to the client, and a payload's position there is its ticket.
      `waiting` are the tickets whose writer goroutine has not entered the pipe yet, `order` those that
      have, in the order of entering. `consumed` is what the server's TLS side has read. */
  datatype Upstream = Upstream(
    accepted: seq<Bytes>,
    waiting: set<nat>,
    order: seq<nat>,
    rest: Option<Bytes>,
    consumed: Bytes,
    open: bool)

  /** A payload is acknowledged at once; its writer is still to run. On a closed pipe it fails. */
  function Accept(u: Upstream, data: Bytes): Upstream {
    u.(accepted := u.accepted + [data],
       waiting := if u.open then u.waiting + {|u.accepted|} else u.waiting)
  }

  function Enter(u: Upstream, ticket: nat): Option<Upstream> {
    if u.open && u.rest.None? && ticket in u.waiting && ticket < |u.accepted| then
      Some(u.(waiting := u.waiting - {ticket}, order := u.order + [ticket],
              rest := Some(u.accepted[ticket])))
    else None
  }

  function Consume(u: Upstream, size: nat): Option<Upstream> {
    if u.rest.None? then None
    else Some(u.(consumed := u.consumed + Taken(u.rest.value, size), rest := Left(u.rest.value, size)))
  }

  function CloseUp(u: Upstream): Upstream {
    u.(waiting := {}, rest := None, open := false)
  }

  /** The sizes of the first n payloads whose ticket is in the set, each with `extra` more. */
  function SizeOf(accepted: seq<Bytes>, tickets: set<nat>, n: nat, extra: nat): nat
    requires n <= |accepted|
  {
    if n == 0 then 0
    else SizeOf(accepted, tickets, n - 1, extra) + (if n - 1 in tickets then |accepted[n - 1]| + extra else 0)
  }

  lemma {:induction false} SizeOfMore(accepted: seq<Bytes>, data: Bytes, tickets: set<nat>, n: nat, extra: nat)
    requires n <= |accepted|
    ensures SizeOf(accepted + [data], tickets, n, extra) == SizeOf(accepted, tickets, n, extra)
    ensures SizeOf(accepted + [data], tickets + {|accepted|}, n, extra) == SizeOf(accepted, tickets, n, extra)
  {
    if n != 0 {
      SizeOfMore(accepted, data, tickets, n - 1, extra);
    }
  }

  lemma {:induction false} SizeOfLess(accepted: seq<Bytes>, tickets: set<nat>, t: nat, n: nat, extra: nat)
    requires n <= |accepted| && t in tickets && t < |accepted|
    ensures SizeOf(accepted, tickets - {t}, n, extra) + (if t < n then |accepted[t]| + extra else 0)
         == SizeOf(accepted, tickets, n, extra)
  {
    if n != 0 {
      SizeOfLess(accepted, tickets, t, n - 1, extra);
    }
  }

  lemma {:induction false} SizeOfNone(accepted: seq<Bytes>, n: nat, extra: nat)
    requires n <= |accepted|
    ensures SizeOf(accepted, {}, n, extra) == 0
  {
    if n != 0 {
      SizeOfNone(accepted, n - 1, extra);
    }
  }

  // ---- From the server to the client ---------------------------------------------------------------

  /** `written` is everything the server's TLS side has handed to its end, `served` the replies to
      clientRead in the order in which they were read from the pipe, `drained` what a close read off, and
      `lost` the part of a chunk that nobody had read when the pipe was closed. */
  datatype Downstream = Downstream(
    written: Bytes,
    rest: Option<Bytes>,
    served: seq<Bytes>,
    drained: Bytes,
    lost: Bytes,
    open: bool)

  function Produce(d: Downstream, chunk: Bytes): Option<Downstream> {
    if d.open && d.rest.None? then Some(d.(written := d.written + chunk, rest := Some(chunk))) else None
  }

  function ServeFrom(d: Downstream, size: nat): Downstream
    requires d.rest.Some?
  {
    d.(served := d.served + [Taken(d.rest.value, size)], rest := Left(d.rest.value, size))
  }

  function DrainFrom(d: Downstream, size: nat): Downstream
    requires d.rest.Some?
  {
    d.(drained := d.drained + Taken(d.rest.value, size), rest := Left(d.rest.value, size))
  }

  function CloseDown(d: Downstream): Downstream {
    d.(lost := d.lost + RestBytes(d.rest), rest := None, open := false)
  }

  // ---- The client's local pipe ---------------------------------------------------------------------

  /** Replies whose local writer has not entered the pipe yet, and the one that has. */
  datatype Local = Local(waiting: multiset<Bytes>, rest: Option<Bytes>)

  const EMPTY_LOCAL := Local(multiset{}, None)

  // ---- The whole connection ------------------------------------------------------------------------

  datatype Kind = ReadCall(size: nat) | WriteCall(data: Bytes) | CloseCall

  /** How far a call has come. */
  datatype Phase =
    | Queued(kind: Kind)                // before its lock operation
    | Locking(kind: Kind)               // a writer that excludes new readers and waits for old ones
    | Parked(size: nat)                 // clientRead, holding the read lock, in its pipe read
    | Closing                           // clientClose, holding the write lock
    | Replied(size: nat, data: Bytes)   // clientRead answered
    | Receiving(size: nat)              // the client is in its local pipe read

  /** `readers` and `writer` are the connection's read/write lock: how many hold it for reading, and which
      call has taken the writer's place, whether it holds the lock yet or not. `returned` is what the
      client's Read calls have returned, in the order of returning. */
  datatype State = State(
    calls: map<nat, Phase>,
    readers: nat,
    writer: Option<nat>,
    draining: bool,
    up: Upstream,
    down: Downstream,
    local: Local,
    returned: Bytes)

  const INITIAL := State(
    map[], 0, None, false,
    Upstream([], {}, [], None, [], true),
    Downstream([], None, [], [], [], true),
    EMPTY_LOCAL, [])

  datatype Action =
    | Issue(id: nat, kind: Kind)
    | LockRead(id: nat)
    | Announce(id: nat)
    | LockWrite(id: nat)     // and accept the payload, reply, unlock: nothing in between blocks
    | LockClose(id: nat)
    | Serve(id: nat)
    | ServeEof(id: nat)
    | Drain(size: nat)
    | FinishClose(id: nat)
    | EnterPipe(ticket: nat)
    | ServerRead(size: nat)
    | ServerWrite(chunk: Bytes)
    | Receive(id: nat)
    | EnterLocal(data: Bytes)
    | LocalRead(id: nat)

  /** One step; None when it cannot happen in the state. */
  function Next(s: State, a: Action): Option<State> {
    match a
    case Issue(id, kind) =>
      if id in s.calls then None else Some(s.(calls := s.calls[id := Queued(kind)]))
    case LockRead(id) =>
      if id in s.calls && s.calls[id].Queued? && s.calls[id].kind.ReadCall? && s.writer.None? then
        Some(s.(calls := s.calls[id := Parked(s.calls[id].kind.size)], readers := s.readers + 1))
      else None
    case Announce(id) =>
      if id in s.calls && s.calls[id].Queued? && !s.calls[id].kind.ReadCall? && s.writer.None? then
        Some(s.(calls := s.calls[id := Locking(s.calls[id].kind)], writer := Some(id)))
      else None
    case LockWrite(id) =>
      if id in s.calls && s.calls[id].Locking? && s.calls[id].kind.WriteCall? && s.readers == 0 then
        Some(s.(calls := s.calls - {id}, writer := None, up := Accept(s.up, s.calls[id].kind.data)))
      else None
    case LockClose(id) =>
      if id in s.calls && s.calls[id].Locking? && s.calls[id].kind.CloseCall? && s.readers == 0 then
        Some(s.(calls := s.calls[id := Closing], draining := true))
      else None
    case Serve(id) =>
      if id in s.calls && s.calls[id].Parked? && 0 < s.readers && s.down.rest.Some? then
        var size := s.calls[id].size;
        Some(s.(calls := s.calls[id := Replied(size, Taken(s.down.rest.value, size))],
                readers := s.readers - 1, down := ServeFrom(s.down, size)))
      else None
    case ServeEof(id) =>
      if id in s.calls && s.calls[id].Parked? && 0 < s.readers && !s.down.open then
        Some(s.(calls := s.calls - {id}, readers := s.readers - 1))
      else None
    case Drain(size) =>
      if s.draining && s.down.rest.Some? && 0 < size then Some(s.(down := DrainFrom(s.down, size)))
      else None
    case FinishClose(id) =>
      if id in s.calls && s.calls[id].Closing? then
        Some(s.(calls := s.calls - {id}, writer := None, up := CloseUp(s.up), down := CloseDown(s.down)))
      else None
    case EnterPipe(ticket) =>
      var u := Enter(s.up, ticket);
      if u.Some? then Some(s.(up := u.value)) else None
    case ServerRead(size) =>
      var u := Consume(s.up, size);
      if u.Some? && 0 < size then Some(s.(up := u.value)) else None
    case ServerWrite(chunk) =>
      var d := Produce(s.down, chunk);
      if d.Some? then Some(s.(down := d.value)) else None
    case Receive(id) =>
      if id in s.calls && s.calls[id].Replied? then
        Some(s.(calls := s.calls[id := Receiving(s.calls[id].size)],
                local := s.local.(waiting := s.local.waiting + multiset{s.calls[id].data})))
      else None
    case EnterLocal(data) =>
      if s.local.rest.None? && data in s.local.waiting then
        Some(s.(local := Local(s.local.waiting - multiset{data}, Some(data))))
      else None
    case LocalRead(id) =>
      if id in s.calls && s.calls[id].Receiving? && s.local.rest.Some? then
        var size := s.calls[id].size;
        Some(s.(calls := s.calls - {id}, returned := s.returned + Taken(s.local.rest.value, size),
                local := s.local.(rest := Left(s.local.rest.value, size))))
      else None
  }

  function Run(s: State, actions: seq<Action>): Option<State>
    decreases |actions|
  {
    if actions == [] then Some(s)
    else match Next(s, actions[0])
      case None => None
      case Some(s1) => Run(s1, actions[1..])
  }

  lemma {:induction false} RunConcat(s: State, a: seq<Action>, b: seq<Action>)
    requires Run(s, a).Some?
    ensures Run(s, a + b) == Run(Run(s, a).value, b)
    decreases |a|
  {
    hide Next;
    if a == [] {
      assert a + b == b;
    } else {
      assert (a + b)[1..] == a[1..] + b;
      RunConcat(Next(s, a[0]).value, a[1..], b);
    }
  }

  /** A run followed by one more step. */
  lemma RunSnoc(s: State, actions: seq<Action>, a: Action)
    requires Run(s, actions).Some? && Next(Run(s, actions).value, a).Some?
    ensures Run(s, actions + [a]) == Next(Run(s, actions).value, a)
  {
    RunConcat(s, actions, [a]);
    hide Next;
    var s1 := Run(s, actions).value;
    assert [a][1..] == [];
    assert Run(s1, [a]) == Run(Next(s1, a).value, []);
  }

  lemma OneStepRun(s: State, a: Action)
    requires Next(s, a).Some?
    ensures Run(s, [a]) == Next(s, a)
  {
    assert [a][1..] == [];
    assert Run(Next(s, a).value, []) == Next(s, a);
  }

  /** A run from the start, one step longer. */
  lemma Append(s: State, actions: seq<Action>, a: Action) returns (s1: State, longer: seq<Action>)
    requires Run(INITIAL, actions) == Some(s) && Next(s, a).Some?
    ensures Some(s1) == Next(s, a) && Run(INITIAL, longer) == Some(s1) && longer == actions + [a]
  {
    RunSnoc(INITIAL, actions, a);
    s1, longer := Next(s, a).value, actions + [a];
  }
}
