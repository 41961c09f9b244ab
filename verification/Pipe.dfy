/**
  The shared page of a pipe (lib/pipe.c) with one reader and one writer, one load or store at a time. A reader and a
  writer in different environments interleave in any way between these steps. Positions are unbounded numbers.
 */
module Pipe {

  const PIPEBUFSIZ: nat := 32

  // Where devpipe_read is in taking its next byte, with what it has loaded.
  datatype Reader = RStart | RHasR(r: nat) | RHasBoth(r: nat, w: nat) | RReady | RIndexed(i: nat) | RHasByte(b: int)
                  | RStepped(b: int, r: nat)

  // Where devpipe_write is in storing its next byte.
  datatype Writer = WStart | WHasW(v: int, w: nat) | WHasBoth(v: int, w: nat, r: nat) | WReady(v: int)
                  | WIndexed(v: int, i: nat) | WStored(v: int) | WStepped(v: int, w: nat)

  // The bytes that lie in the buffer are those written and not yet read.
  ghost predicate Holds(buf: seq<int>, written: seq<int>, rpos: nat, wpos: nat)
    requires |buf| == PIPEBUFSIZ && wpos == |written|
  {
    forall k: nat :: rpos <= k < wpos ==> buf[k % PIPEBUFSIZ] == written[k]
  }

  // Storing at the write position harms no byte in the buffer.
  lemma StoreIsHarmless(buf: seq<int>, written: seq<int>, rpos: nat, wpos: nat, v: int)
    requires |buf| == PIPEBUFSIZ && wpos == |written| && rpos <= wpos < rpos + PIPEBUFSIZ
    requires Holds(buf, written, rpos, wpos)
    ensures Holds(buf[wpos % PIPEBUFSIZ := v], written, rpos, wpos)
  {
    forall k: nat | rpos <= k < wpos ensures buf[wpos % PIPEBUFSIZ := v][k % PIPEBUFSIZ] == written[k] {
      assert k % PIPEBUFSIZ != wpos % PIPEBUFSIZ;
    }
  }

  // How many steps the reader is from having taken a byte, if there is one: one more look if the last showed none.
  function ReaderLeft(reader: Reader): (n: nat)
    ensures 1 <= n <= 8
  {
    match reader
    case RStart => 7
    case RHasR(_) => 6
    case RHasBoth(r, w) => if r == w then 8 else 5
    case RReady => 4
    case RIndexed(_) => 3
    case RHasByte(_) => 2
    case RStepped(_, _) => 1
  }

  // How many steps the writer is from having stored a byte, if there is room.
  function WriterLeft(writer: Writer): (n: nat)
    ensures 1 <= n <= 8
  {
    match writer
    case WStart => 7
    case WHasW(_, _) => 6
    case WHasBoth(_, w, r) => if w >= r + PIPEBUFSIZ then 8 else 5
    case WReady(_) => 4
    case WIndexed(_, _) => 3
    case WStored(_) => 2
    case WStepped(_, _) => 1
  }

  // How many of the first n turns are the reader's, or the writer's.
  function Turns(turns: seq<bool>, reader: bool, n: nat): nat
    requires n <= |turns|
  {
    if n == 0 then 0 else Turns(turns, reader, n - 1) + if turns[n - 1] == reader then 1 else 0
  }

  class Pipe {
    var rpos: nat
    var wpos: nat
    const buf: array<int>
    var reader: Reader
    var writer: Writer
    // Every byte stored so far, and every byte handed to the reader's caller.
    ghost var written: seq<int>
    ghost var taken: seq<int>

    ghost predicate ReaderOk()
      requires wpos == |written|
      reads this
    {
      match reader
      case RStart => true
      case RHasR(r) => r == rpos
      case RHasBoth(r, w) => r == rpos <= w <= wpos
      case RReady => rpos < wpos
      case RIndexed(i) => rpos < wpos && i == rpos % PIPEBUFSIZ
      case RHasByte(b) => rpos < wpos && b == written[rpos]
      case RStepped(b, r) => rpos < wpos && b == written[rpos] && r == rpos
    }

    ghost predicate WriterOk()
      requires buf.Length == PIPEBUFSIZ
      reads this, buf
    {
      match writer
      case WStart => true
      case WHasW(_, w) => w == wpos
      case WHasBoth(_, w, r) => w == wpos && r <= rpos
      case WReady(_) => wpos < rpos + PIPEBUFSIZ
      case WIndexed(_, i) => wpos < rpos + PIPEBUFSIZ && i == wpos % PIPEBUFSIZ
      case WStored(v) => wpos < rpos + PIPEBUFSIZ && buf[wpos % PIPEBUFSIZ] == v
      case WStepped(v, w) => wpos < rpos + PIPEBUFSIZ && buf[wpos % PIPEBUFSIZ] == v && w == wpos
    }

    ghost predicate Valid()
      reads this, buf
    {
      && buf.Length == PIPEBUFSIZ && rpos <= wpos <= rpos + PIPEBUFSIZ
      && |written| == wpos && taken == written[..rpos] && Holds(buf[..], written, rpos, wpos)
      && ReaderOk() && WriterOk()
    }

    // pipe
    constructor ()
      ensures Valid() && written == [] && taken == [] && fresh(buf)
    {
      rpos, wpos := 0, 0;
      buf := new int[PIPEBUFSIZ](i => 0);
      reader, writer, written, taken := RStart, WStart, [], [];
    }

    // The next load or store of devpipe_read.
    method ReaderStep()
      requires Valid()
      modifies this`reader, this`rpos, this`taken
      ensures Valid()
      ensures if old(reader).RStepped? then rpos == old(rpos) + 1 && taken == old(taken) + [old(reader).b]
              else rpos == old(rpos) && taken == old(taken)
      ensures rpos < wpos && rpos == old(rpos) ==> ReaderLeft(reader) == ReaderLeft(old(reader)) - 1
    {
      match reader
      case RStart => reader := RHasR(rpos);
      case RHasR(r) => reader := RHasBoth(r, wpos);
      case RHasBoth(r, w) => reader := if r == w then RStart else RReady;
      case RReady => reader := RIndexed(rpos % PIPEBUFSIZ);
      case RIndexed(i) =>
        assert buf[..][rpos % PIPEBUFSIZ] == written[rpos];
        reader := RHasByte(buf[i]);
      case RHasByte(b) => reader := RStepped(b, rpos);
      case RStepped(b, r) =>
        rpos := r + 1;
        taken := taken + [b];
        reader := RStart;
    }

    // The next load or store of devpipe_write, whose next byte is v.
    method WriterStep(v: int)
      requires Valid()
      modifies this`writer, this`wpos, this`written, buf
      ensures Valid()
      ensures if old(writer).WStepped? then wpos == old(wpos) + 1 && written == old(written) + [old(writer).v]
              else wpos == old(wpos) && written == old(written)
      ensures wpos < rpos + PIPEBUFSIZ && wpos == old(wpos) ==> WriterLeft(writer) == WriterLeft(old(writer)) - 1
      ensures !writer.WStart? ==> writer.v == if old(writer).WStart? then v else old(writer).v
    {
      match writer
      case WStart => writer := WHasW(v, wpos);
      case WHasW(x, w) => writer := WHasBoth(x, w, rpos);
      case WHasBoth(x, w, r) => writer := if w >= r + PIPEBUFSIZ then WStart else WReady(x);
      case WReady(x) => writer := WIndexed(x, wpos % PIPEBUFSIZ);
      case WIndexed(x, i) =>
        StoreIsHarmless(buf[..], written, rpos, wpos, x);
        ghost var bytes := buf[..];
        buf[i] := x;
        assert buf[..] == bytes[i := x];
        writer := WStored(x);
      case WStored(x) => writer := WStepped(x, wpos);
      case WStepped(x, w) =>
        assert buf[..][wpos % PIPEBUFSIZ] == x;
        written := written + [x];
        wpos := w + 1;
        writer := WStart;
    }

    // Any interleaving: the bytes read are a prefix of the bytes written, and the buffer is never overrun. If there is a
    // byte, the reader takes one within its next eight turns; if there is room, the writer stores one within its next
    // eight.
    method Run(turns: seq<bool>, bytes: seq<int>)
      requires Valid() && |bytes| == |turns|
      modifies this`reader, this`writer, this`rpos, this`wpos, this`taken, this`written, buf
      ensures Valid() && taken <= written && 0 <= wpos - rpos <= PIPEBUFSIZ
      ensures old(taken) <= taken && old(written) <= written
      ensures old(rpos) < old(wpos) && Turns(turns, true, |turns|) >= ReaderLeft(old(reader)) ==>
                |old(taken)| < |taken|
      ensures old(wpos) < old(rpos) + PIPEBUFSIZ && Turns(turns, false, |turns|) >= WriterLeft(old(writer)) ==>
                |old(written)| < |written|
    {
      var i := 0;
      while i < |turns|
        invariant Valid() && 0 <= i <= |turns| && old(taken) <= taken && old(written) <= written && old(rpos) <= rpos
        invariant old(rpos) < old(wpos) && rpos == old(rpos) ==>
                    ReaderLeft(reader) + Turns(turns, true, i) <= ReaderLeft(old(reader))
        invariant old(wpos) < old(rpos) + PIPEBUFSIZ && wpos == old(wpos) ==>
                    WriterLeft(writer) + Turns(turns, false, i) <= WriterLeft(old(writer))
      {
        if turns[i] { ReaderStep(); } else { WriterStep(bytes[i]); }
        i := i + 1;
      }
    }
  }
}
