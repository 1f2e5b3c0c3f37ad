/**
 The client's end of the tunnel, as its TLS side uses it: one call at a time. A read asks the server for at
 most as many bytes as the caller's buffer has, and passes the reply through a local pipe.
 */
module ClientConn {
  import opened Prelude
  import opened Tunnel

  /** The answer to a clientRead: the data, or an error. */
  datatype Reply = Answer(data: Bytes) | Failure

  /** The chunk that the next local read gets, given which of the waiting writers enters an idle pipe. */
  ghost predicate NextChunk(l: Local, chunk: Bytes, after: Local) {
    if l.rest.Some? then chunk == l.rest.value && after.waiting == l.waiting
    else chunk in l.waiting && after.waiting == l.waiting - multiset{chunk}
  }

  class MockClientConn {
    const connectionID: nat
    var local: Local
    var open: bool  // whether the local pipe is

    constructor (id: nat)
      ensures connectionID == id && local == EMPTY_LOCAL && open
    {
      connectionID := id;
      local := EMPTY_LOCAL;
      open := true;
    }

    /** Read, with the reply that the server gives to a request for `b.Length` bytes. The reply is handed to
        a goroutine that writes it to the local pipe, and the caller gets what its local read takes from the
        chunk that is first in the pipe. On a closed local pipe both the goroutine and the read fail. */
    method Read(b: array<u8>, reply: Reply) returns (n: nat, ok: bool, ghost chunk: Bytes)
      modifies this, b
      ensures ok == (reply.Answer? && open)
      ensures open == old(open)
      ensures !ok ==> n == 0 && local == old(local) && b[..] == old(b[..])
      ensures ok ==>
                && NextChunk(old(local).(waiting := old(local).waiting + multiset{reply.data}), chunk, local)
                && n == |Taken(chunk, b.Length)| && b[..] == Taken(chunk, b.Length) + old(b[..])[n..]
                && local.rest == Left(chunk, b.Length)
    {
      if reply.Failure? || !open {
        return 0, false, [];
      }
      var l := local.(waiting := local.waiting + multiset{reply.data});
      if l.rest.None? {
        assert reply.data in l.waiting;
        var entering :| entering in l.waiting;
        l := Local(l.waiting - multiset{entering}, Some(entering));
      }
      chunk := l.rest.value;
      var taken := Taken(l.rest.value, b.Length);
      n := |taken|;
      forall i | 0 <= i < n {
        b[i] := taken[i];
      }
      assert b[..] == taken + old(b[..])[n..];
      local := l.(rest := Left(l.rest.value, b.Length));
      ok := true;
    }

    /** Close, with whether the server reported success: only then is the local pipe closed, which ends its
        waiting writers. */
    method Close(serverClosed: bool) returns (ok: bool)
      modifies this
      ensures ok == serverClosed
      ensures if ok then !open && local == EMPTY_LOCAL else open == old(open) && local == old(local)
    {
      if !serverClosed {
        return false;
      }
      open := false;
      local := EMPTY_LOCAL;
      ok := true;
    }
  }

  /** With nothing left over from before, a read copies the reply itself, and leaves the local pipe empty
      exactly when the reply fits the buffer; so a reply of at most the requested size is returned whole. */
  lemma ReadCopiesReply(size: nat, data: Bytes, chunk: Bytes, after: Local)
    requires NextChunk(Local(multiset{data}, None), chunk, after) && after.rest == Left(chunk, size)
    ensures chunk == data
    ensures after == EMPTY_LOCAL <==> |data| <= size
    ensures |data| <= size ==> Taken(chunk, size) == data
  {
    assert multiset{data} - multiset{data} == multiset{};
  }

  /** What is left over from before goes first: the bytes of an earlier reply come before those of a later one that
      has not entered yet, and of all the chunks in the pipe and the new reply a read touches one. */
  lemma ReadTakesOneChunk(l: Local, data: Bytes, chunk: Bytes, after: Local)
    requires NextChunk(l.(waiting := l.waiting + multiset{data}), chunk, after)
    ensures l.rest.Some? ==> chunk == l.rest.value
    ensures after.waiting + multiset{chunk}
         == l.waiting + multiset{data} + (if l.rest.Some? then multiset{l.rest.value} else multiset{})
  {
  }

  /** The server never answers with more than it was asked for. */
  lemma ReplyFits(s: State, id: nat)
    requires Next(s, Serve(id)).Some?
    ensures var p := Next(s, Serve(id)).value.calls[id];
            p.Replied? && p.size == s.calls[id].size && |p.data| <= p.size
  {
    TakenAndLeft(s.down.rest.value, s.calls[id].size);
  }
}
