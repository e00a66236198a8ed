/**
 Byte streams as the proxy sees them.

 A Reader is a buffered reader over a stream whose bytes arrive in arbitrary non-empty
 pieces and which ends either cleanly or with an I/O error. A Writer is a stream whose
 `write_all` calls may each be cut short at any byte.
 */
module Streams {
  import opened Bytes

  datatype StreamEnd = Eof | Failure

  /** Where the first `k` pieces end. */
  function Boundary(pieces: seq<seq<byte>>, k: nat): nat
    requires k <= |pieces|
  {
    |Flatten(pieces[..k])|
  }

  lemma {:induction false} BoundariesIncrease(pieces: seq<seq<byte>>, j: nat, k: nat)
    requires AllNonEmpty(pieces) && j < k <= |pieces|
    ensures Boundary(pieces, j) + |pieces[k - 1]| <= Boundary(pieces, k)
    decreases k
  {
    assert pieces[..k] == pieces[..k - 1] + [pieces[k - 1]];
    FlattenAppend(pieces[..k - 1], [pieces[k - 1]]);
    assert Flatten([pieces[k - 1]]) == pieces[k - 1] + [];
    if j < k - 1 {
      BoundariesIncrease(pieces, j, k - 1);
    }
  }

  class Reader {
    /** The stream as it arrives, cut into pieces, and how it ends. */
    const pieces: seq<seq<byte>>
    const end: StreamEnd
    /** How many pieces have been fetched, and what of them is still unread. */
    var fetched: nat
    var buffer: seq<byte>

    ghost predicate Valid()
      reads this
    {
      && AllNonEmpty(pieces)
      && fetched <= |pieces|
      && |buffer| <= if fetched == 0 then 0 else |pieces[fetched - 1]|
    }

    /** The bytes still to be read. */
    ghost function Rest(): seq<byte>
      requires fetched <= |pieces|
      reads this
    {
      buffer + Flatten(pieces[fetched..])
    }

    /** The piece fetched last was called for by a byte read since. */
    ghost predicate Settled()
      requires fetched <= |pieces|
      reads this
    {
      fetched > 0 ==> |buffer| < |pieces[fetched - 1]|
    }

    constructor (pieces: seq<seq<byte>>, end: StreamEnd)
      requires AllNonEmpty(pieces)
      ensures Valid() && Settled() && Rest() == Flatten(pieces)
      ensures this.pieces == pieces && this.end == end
    {
      this.pieces, this.end := pieces, end;
      fetched, buffer := 0, [];
    }

    /** Makes the buffer non-empty unless the stream is exhausted; fails on an I/O error. */
    method FillBuf() returns (ok: bool)
      requires Valid()
      modifies this`buffer, this`fetched
      ensures Valid() && Rest() == old(Rest())
      ensures ok <==> Rest() != [] || end.Eof?
      ensures buffer == [] <==> Rest() == []
      ensures buffer == [] ==> unchanged(this)
    {
      if buffer == [] && fetched < |pieces| {
        assert pieces[fetched..][1..] == pieces[fetched + 1..];
        buffer, fetched := pieces[fetched], fetched + 1;
      }
      return buffer != [] || end.Eof?;
    }

    /** Drops `n` buffered bytes. */
    method Consume(n: nat)
      requires Valid() && 0 < n <= |buffer|
      modifies this`buffer
      ensures Valid() && Settled()
      ensures old(Rest()) == old(buffer)[..n] + Rest()
    {
      assert buffer == buffer[..n] + buffer[n..];
      Regroup(buffer[..n], buffer[n..], Flatten(pieces[fetched..]));
      buffer := buffer[n..];
    }

    /** Reads exactly `n` bytes, or fails if the stream ends first. */
    method ReadExact(n: nat) returns (bytes: Option<seq<byte>>)
      requires Valid() && Settled()
      modifies this`buffer, this`fetched
      ensures Valid() && (bytes.Some? ==> Settled())
      ensures bytes.Some? <==> n <= |old(Rest())|
      ensures bytes.Some? ==> |bytes.value| == n && old(Rest()) == bytes.value + Rest()
    {
      var taken: seq<byte> := [];
      while |taken| < n
        invariant Valid() && Settled() && |taken| <= n
        invariant old(Rest()) == taken + Rest()
        decreases n - |taken|
      {
        var ok := FillBuf();
        if !ok || buffer == [] {
          return None;
        }
        var take := if |buffer| <= n - |taken| then |buffer| else n - |taken|;
        var piece := buffer[..take];
        Consume(take);
        Regroup(taken, piece, Rest());
        taken := taken + piece;
      }
      return Some(taken);
    }

    /** Reads one byte. */
    method ReadU8() returns (b: Option<byte>)
      requires Valid() && Settled()
      modifies this`buffer, this`fetched
      ensures Valid() && (b.Some? ==> Settled())
      ensures b.Some? <==> old(Rest()) != []
      ensures b.Some? ==> old(Rest()) == [b.value] + Rest()
    {
      var bytes := ReadExact(1);
      if bytes.None? {
        return None;
      }
      assert bytes.value == [bytes.value[0]];
      return Some(bytes.value[0]);
    }

    /**
     Once settled, the buffer is empty exactly when the bytes read end where a piece ends:
     whether anything follows a message shows only through how the stream was cut.
     */
    lemma BufferEmptyIffBoundary(read: nat)
      requires Valid() && Settled()
      requires |Flatten(pieces)| == read + |Rest()|
      ensures buffer == [] <==> exists k :: 0 <= k <= |pieces| && Boundary(pieces, k) == read
    {
      assert pieces == pieces[..fetched] + pieces[fetched..];
      FlattenAppend(pieces[..fetched], pieces[fetched..]);
      assert Boundary(pieces, fetched) == read + |buffer|;
      if k :| 0 <= k <= |pieces| && Boundary(pieces, k) == read {
        if k < fetched {
          BoundariesIncrease(pieces, k, fetched);
        } else if fetched < k {
          BoundariesIncrease(pieces, fetched, k);
        }
      }
    }
  }

  /** How one `write_all` call ends: all bytes accepted, or an error after `accepted` of them. */
  datatype WriteOutcome = Written | Cut(accepted: nat)

  class Writer {
    var output: seq<byte>
    var finished: bool
    /** Outcomes of the calls still to come; calls beyond the list succeed. */
    var outcomes: seq<WriteOutcome>

    constructor (outcomes: seq<WriteOutcome>)
      ensures output == [] && !finished && this.outcomes == outcomes
    {
      output, finished, this.outcomes := [], false, outcomes;
    }

    /** No write to it will fail. */
    predicate Reliable()
      reads this
    {
      outcomes == []
    }

    method WriteAll(bytes: seq<byte>) returns (ok: bool)
      modifies this`output, this`outcomes
      ensures old(output) <= output <= old(output) + bytes
      ensures ok ==> output == old(output) + bytes
      ensures ok <==> old(outcomes) == [] || old(outcomes)[0].Written?
      ensures old(Reliable()) ==> ok && Reliable()
    {
      var outcome := if outcomes == [] then Written else outcomes[0];
      outcomes := if outcomes == [] then [] else outcomes[1..];
      match outcome
      case Written =>
        output := output + bytes;
        return true;
      case Cut(accepted) =>
        output := output + bytes[..if accepted < |bytes| then accepted else |bytes|];
        return false;
    }

    method Finish()
      modifies this`finished
      ensures finished
    {
      finished := true;
    }
  }
}
