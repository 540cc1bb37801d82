/** A stream socket seen from one end: the bytes the peer still delivers, cut up
    by an arbitrary schedule, and the bytes written so far. */
module Sockets {
  import opened CBytes

  datatype ReadEvent =
    | Chunk(extra: nat)  // up to extra + 1 bytes are there
    | Again              // EINTR, EAGAIN or EWOULDBLOCK

  datatype WriteEvent =
    | Accept(extra: nat)  // up to extra + 1 bytes are taken
    | Retry               // EINTR, EAGAIN or EWOULDBLOCK
    | Broken              // any other error

  /** How much one read of up to n bytes gets when no signal interrupts it. */
  function Delivered(arrivals: seq<ReadEvent>, available: nat, n: nat): (r: nat)
    ensures r <= available && r <= n
    ensures available > 0 && n > 0 ==> r > 0
  {
    if arrivals == [] || arrivals[0].Again? then Min(available, n) else Min(Min(available, n), arrivals[0].extra + 1)
  }

  /** A buffer after more has been stored from off on. */
  function Overwritten(was: Bytes, off: nat, more: Bytes): (r: Bytes)
    requires off + |more| <= |was|
    ensures |r| == |was| && r[..off + |more|] == was[..off] + more
  {
    was[..off] + more + was[off + |more|..]
  }

  // A stream split into what has been taken and what is to come

  lemma Associates(a: Bytes, b: Bytes, c: Bytes)
    ensures (a + b) + c == a + (b + c)
  {
  }

  lemma TakeMore(taken: Bytes, ahead: Bytes, r: nat)
    requires r <= |ahead|
    ensures taken + ahead == (taken + ahead[..r]) + ahead[r..]
  {
  }

  lemma TakenAndAhead(taken: Bytes, ahead: Bytes)
    ensures (taken + ahead)[..|taken|] == taken && (taken + ahead)[|taken|..] == ahead
  {
  }

  /** What a read at the start of a buffer put there. */
  lemma ReadAtFront(was: Bytes, now: Bytes, more: Bytes)
    requires |more| <= |was| && now == Overwritten(was, 0, more)
    ensures now[..|more|] == more
  {
  }

  class Connection {
    var input: Bytes
    var arrivals: seq<ReadEvent>  // when it runs out, reads are no longer cut short
    const reset: bool             // the stream ends in an error, not in end of file
    var output: Bytes
    var accepts: seq<WriteEvent>  // when it runs out, writes are taken whole
    ghost var failed: bool        // some reply could not be written whole

    constructor (input: Bytes, arrivals: seq<ReadEvent>, reset: bool, accepts: seq<WriteEvent>)
      ensures this.input == input && this.arrivals == arrivals && this.reset == reset && this.accepts == accepts
      ensures output == [] && !failed
    {
      this.input, this.arrivals, this.reset, this.accepts := input, arrivals, reset, accepts;
      output, failed := [], false;
    }

    /** read(fd, buf + off, n) */
    method Read(buf: array<Byte>, off: nat, n: nat) returns (r: int, again: bool)
      requires off + n <= buf.Length && n > 0
      modifies this`input, this`arrivals, buf
      ensures again == (old(arrivals) != [] && old(arrivals)[0].Again?)
      ensures again ==> r == -1
      ensures !again ==> r == if old(input) == [] then (if reset then -1 else 0)
                              else Delivered(old(arrivals), |old(input)|, n)
      ensures r <= |old(input)| && r <= n && (!again && r <= 0 ==> old(input) == [])
      ensures input == if r > 0 then old(input)[r..] else old(input)
      ensures arrivals == if old(arrivals) == [] then [] else old(arrivals)[1..]
      ensures buf[..] == if r > 0 then Overwritten(old(buf[..]), off, old(input)[..r]) else old(buf[..])
    {
      var now := arrivals;
      if arrivals != [] {
        arrivals := arrivals[1..];
        if now[0].Again? {
          return -1, true;
        }
      }
      if input == [] {
        return if reset then -1 else 0, false;
      }
      r, again := Delivered(now, |input|, n), false;
      var i := 0;
      while i < r
        invariant 0 <= i <= r && input == old(input)
        invariant arrivals == if old(arrivals) == [] then [] else old(arrivals)[1..]
        invariant forall j :: 0 <= j < i ==> buf[off + j] == input[j]
        invariant forall j :: 0 <= j < buf.Length && !(off <= j < off + i) ==> buf[j] == old(buf[j])
      {
        buf[off + i] := input[i];
        i := i + 1;
      }
      assert buf[..] == Overwritten(old(buf[..]), off, input[..r]);
      input := input[r..];
    }

    /** write(fd, data, |data|) */
    method Write(data: Bytes) returns (r: int, again: bool)
      requires data != []
      modifies this`output, this`accepts
      ensures again == (old(accepts) != [] && old(accepts)[0].Retry?)
      ensures old(accepts) == [] ==> r == |data|
      ensures if r < 0 then r == -1 && output == old(output) else 0 < r <= |data| && output == old(output) + data[..r]
      ensures again ==> r == -1
      ensures accepts == if old(accepts) == [] then [] else old(accepts)[1..]
    {
      r, again := |data|, false;
      if accepts != [] {
        match accepts[0] {
          case Accept(extra) => r := Min(|data|, extra + 1);
          case Retry => r, again := -1, true;
          case Broken => r := -1;
        }
        accepts := accepts[1..];
      }
      if r > 0 {
        output := output + data[..r];
      }
    }

    /** The loop that writes until everything is out, retrying when told to. */
    method WriteAll(data: Bytes) returns (ok: bool)
      modifies this`output, this`accepts
      ensures ok ==> output == old(output) + data
      ensures old(output) <= output <= old(output) + data
      ensures old(accepts) == [] ==> ok && accepts == []
    {
      var written := 0;
      while written < |data|
        invariant written <= |data|
        invariant output == old(output) + data[..written]
        invariant old(accepts) == [] ==> accepts == []
        decreases |data| - written, |accepts|
      {
        var r, again := Write(data[written..]);
        if r < 0 {
          if again {
            continue;
          }
          return false;
        }
        assert data[..written] + data[written..][..r] == data[..written + r];
        written := written + r;
      }
      return true;
    }
  }
}
