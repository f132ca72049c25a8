/** The receiving half of an EOClient (src/eoclient.cpp, `Tick`): bytes in, whole packets out. */
module Deframer {
  import opened Bytes
  import opened Rings
  import PacketCodec

  // ---------------------------------------------------------------- frames

  /** Two length bytes and the body they announce. */
  datatype Frame = Frame(len0: byte, len1: byte, body: seq<byte>)

  predicate WellFormed(f: Frame)
  {
    PacketCodec.Number(f.len0, f.len1) == |f.body| > 0
  }

  predicate AllWellFormed(fs: seq<Frame>)
  {
    forall i | 0 <= i < |fs| :: WellFormed(fs[i])
  }

  function FrameBytes(f: Frame): (s: seq<byte>)
    ensures |s| == |f.body| + 2
  {
    [f.len0, f.len1] + f.body
  }

  function Stream(fs: seq<Frame>): (s: seq<byte>)
  {
    if fs == [] then [] else FrameBytes(fs[0]) + Stream(fs[1..])
  }

  lemma Regroup(a: seq<byte>, b: seq<byte>, c: seq<byte>)
    ensures a + (b + c) == a + b + c
  {
  }

  lemma {:induction false} StreamAppend(fs: seq<Frame>, gs: seq<Frame>)
    ensures Stream(fs + gs) == Stream(fs) + Stream(gs)
  {
    if fs == [] {
      assert fs + gs == gs;
    } else {
      StreamAppend(fs[1..], gs);
      assert (fs + gs)[0] == fs[0] && (fs + gs)[1..] == fs[1..] + gs;
      Regroup(FrameBytes(fs[0]), Stream(fs[1..]), Stream(gs));
    }
  }

  lemma StreamSnoc(fs: seq<Frame>, f: Frame)
    ensures Stream(fs + [f]) == Stream(fs) + FrameBytes(f)
  {
    StreamAppend(fs, [f]);
    assert Stream([f]) == FrameBytes(f) + Stream([]);
  }

  lemma FirstFrame(f: Frame, g: Frame, rest: seq<byte>, rest': seq<byte>)
    requires WellFormed(f) && WellFormed(g)
    requires FrameBytes(f) + rest <= FrameBytes(g) + rest'
    ensures f == g && rest <= rest'
  {
    var s, t := FrameBytes(f) + rest, FrameBytes(g) + rest';
    assert s[0] == t[0] && s[1] == t[1];
    assert s[2..2 + |f.body|] == f.body;
    assert t[2..2 + |f.body|] == g.body;
    assert s[|FrameBytes(f)|..] == rest && t[|FrameBytes(f)|..] == rest';
  }

  /** A stream of well-formed frames has only one reading. */
  lemma {:induction false} UniqueReading(done: seq<Frame>, rest: seq<byte>, fs: seq<Frame>)
    requires AllWellFormed(done) && AllWellFormed(fs)
    requires Stream(done) + rest <= Stream(fs)
    ensures done <= fs && rest <= Stream(fs[|done|..])
  {
    if done == [] {
    } else {
      assert fs != [];
      assert Stream(done) + rest == FrameBytes(done[0]) + (Stream(done[1..]) + rest);
      FirstFrame(done[0], fs[0], Stream(done[1..]) + rest, Stream(fs[1..]));
      UniqueReading(done[1..], rest, fs[1..]);
      assert done == [done[0]] + done[1..] && fs == [fs[0]] + fs[1..];
      assert fs[1..][|done[1..]|..] == fs[|done|..];
    }
  }

  // ---------------------------------------------------------------- the receiver

  datatype PacketState = ReadLen1 | ReadLen2 | ReadData

  /** The part of a frame already taken off the ring. */
  function Partial(state: PacketState, raw0: byte, raw1: byte, data: seq<byte>): (s: seq<byte>)
  {
    match state
    case ReadLen1 => []
    case ReadLen2 => [raw0]
    case ReadData => [raw0, raw1] + data
  }

  /** What the fields must satisfy once `history` has arrived, `executed` has been handed on
      and `queued` is still waiting. */
  ghost predicate Consistent(history: seq<byte>, executed: seq<Frame>, state: PacketState, raw0: byte, raw1: byte,
                             length: nat, data: seq<byte>, queued: seq<byte>)
  {
    && history == Stream(executed) + Partial(state, raw0, raw1, data) + queued
    && AllWellFormed(executed)
    && (state == ReadData ==> |data| + length == PacketCodec.Number(raw0, raw1))
    && (state == ReadData ==> data != [] ==> length > 0)
    && (state != ReadData ==> data == [])
  }

  class Receiver {
    const ring: Ring
    var packet_state: PacketState
    var raw0: byte
    var raw1: byte
    var length: nat
    var data: seq<byte>

    /** Every byte that has arrived, and every packet passed to `Execute`. */
    ghost var history: seq<byte>
    ghost var executed: seq<Frame>

    ghost predicate Valid()
      reads this, ring, ring.buf
    {
      && ring.Valid()
      && Consistent(history, executed, packet_state, raw0, raw1, length, data, ring.Contents())
    }

    constructor (size: nat)
      requires PowerOfTwo(size)
      ensures Valid() && history == [] && executed == [] && fresh(ring) && fresh(ring.buf)
    {
      ring := new Ring(size);
      packet_state, raw0, raw1, length, data := ReadLen1, 0, 0, 0, [];
      history, executed := [], [];
    }

    /** The socket delivers a chunk no larger than the room asked for; an empty one means closed or failed.
        A full ring asks for nothing and counts as failed too. */
    method DoRecv(chunk: seq<byte>) returns (ok: bool)
      requires Valid() && |chunk| <= ring.Remaining() && |chunk| <= CHUNK
      modifies this`history, ring, ring.buf
      ensures Valid() && ring.buf == old(ring.buf)
      ensures ok <==> chunk != []
      ensures history == old(history) + chunk
    {
      if ring.Remaining() == 0 || chunk == [] {
        return false;
      }
      ring.Append(chunk);
      history := history + chunk;
      ok := true;
    }

    /** One tick outside an upload: takes at most one step into the current packet. */
    method Tick()
      requires Valid()
      modifies this, ring`gpos, ring`used
      ensures Valid() && history == old(history)
      ensures executed == old(executed) || (|executed| == |old(executed)| + 1 && old(executed) <= executed)
      ensures old(ring.Contents()) != [] && !(old(packet_state) == ReadData && old(length) == 0)
              ==> |ring.Contents()| < |old(ring.Contents())|
    {
      var got := ring.Recv(if packet_state == ReadData then length else 1);
      var done := false;
      ghost var queued := ring.Contents();
      StartTick(history, executed, packet_state, raw0, raw1, length, data, old(ring.Contents()), got, queued);
      while |got| > 0 && !done
        modifies this
        invariant Consistent(history, executed, packet_state, raw0, raw1, length, data, got + queued)
        invariant |got| <= if packet_state == ReadData then length else 1
        invariant history == old(history)
        invariant done ==> got == []
        invariant if done then |executed| == |old(executed)| + 1 && old(executed) <= executed
                  else executed == old(executed)
        decreases |got|
      {
        got, done := Consume(got, queued);
      }
      assert got + queued == queued;
    }

    /** The state switch of the tick loop. A header state that has bytes left falls through to the next state,
        which is the same as another pass. */
    method Consume(got: seq<byte>, ghost queued: seq<byte>) returns (rest: seq<byte>, done: bool)
      requires Consistent(history, executed, packet_state, raw0, raw1, length, data, got + queued)
      requires 0 < |got| <= if packet_state == ReadData then length else 1
      modifies this
      ensures Consistent(history, executed, packet_state, raw0, raw1, length, data, rest + queued)
      ensures rest == [] && history == old(history)
      ensures done ==> exists f :: executed == old(executed) + [f]
      ensures !done ==> executed == old(executed)
    {
      done := false;
      if packet_state == ReadLen1 {
        FirstLengthByte(history, executed, raw0, raw1, length, got, queued);
        raw0 := got[0];
        rest := got[1..];
        packet_state := ReadLen2;
      } else if packet_state == ReadLen2 {
        SecondLengthByte(history, executed, raw0, raw1, length, got, queued);
        raw1 := got[0];
        rest := got[1..];
        length := PacketCodec.Number(raw0, raw1);
        packet_state := ReadData;
      } else {
        var taken := if |got| <= length then |got| else length;
        BodyBytes(history, executed, raw0, raw1, length, data, got, queued);
        assert got[..taken] == got && got[taken..] == [];
        assert [] + queued == queued;
        data := data + got[..taken];
        rest := got[taken..];
        length := length - taken;
        if length == 0 {
          executed := executed + [Frame(raw0, raw1, data)];
          data := [];
          packet_state := ReadLen1;
          done := true;
        }
      }
    }
  }

  lemma StartTick(history: seq<byte>, executed: seq<Frame>, state: PacketState, raw0: byte, raw1: byte,
                  length: nat, data: seq<byte>, before: seq<byte>, got: seq<byte>, queued: seq<byte>)
    requires Consistent(history, executed, state, raw0, raw1, length, data, before) && before == got + queued
    ensures Consistent(history, executed, state, raw0, raw1, length, data, got + queued)
  {
  }

  lemma FirstLengthByte(history: seq<byte>, executed: seq<Frame>, raw0: byte, raw1: byte, length: nat,
                        got: seq<byte>, queued: seq<byte>)
    requires got != [] && Consistent(history, executed, ReadLen1, raw0, raw1, length, [], got + queued)
    ensures Consistent(history, executed, ReadLen2, got[0], raw1, length, [], got[1..] + queued)
  {
    assert got + queued == [got[0]] + (got[1..] + queued);
    Regroup(Stream(executed), [got[0]], got[1..] + queued);
  }

  lemma SecondLengthByte(history: seq<byte>, executed: seq<Frame>, raw0: byte, raw1: byte, length: nat,
                         got: seq<byte>, queued: seq<byte>)
    requires got != [] && Consistent(history, executed, ReadLen2, raw0, raw1, length, [], got + queued)
    ensures Consistent(history, executed, ReadData, raw0, got[0], PacketCodec.Number(raw0, got[0]), [],
                       got[1..] + queued)
  {
    assert got + queued == [got[0]] + (got[1..] + queued);
    Regroup(Stream(executed) + [raw0], [got[0]], got[1..] + queued);
    Regroup(Stream(executed), [raw0], [got[0]]);
    assert [raw0] + [got[0]] == [raw0, got[0]] + [];
  }

  lemma BodyBytes(history: seq<byte>, executed: seq<Frame>, raw0: byte, raw1: byte, length: nat, data: seq<byte>,
                  got: seq<byte>, queued: seq<byte>)
    requires 0 < |got| <= length
    requires Consistent(history, executed, ReadData, raw0, raw1, length, data, got + queued)
    ensures |got| < length
            ==> Consistent(history, executed, ReadData, raw0, raw1, length - |got|, data + got, queued)
    ensures |got| == length
            ==> Consistent(history, executed + [Frame(raw0, raw1, data + got)], ReadLen1, raw0, raw1, 0, [], queued)
  {
    var len := [raw0, raw1];
    Regroup(Stream(executed) + (len + data), got, queued);
    Regroup(Stream(executed), len + data, got);
    Regroup(len, data, got);
    if |got| == length {
      StreamSnoc(executed, Frame(raw0, raw1, data + got));
    }
  }

  // ---------------------------------------------------------------- what a run delivers

  lemma {:induction false} StreamSplit(fs: seq<Frame>, n: nat)
    requires n < |fs|
    ensures Stream(fs[n..]) == FrameBytes(fs[n]) + Stream(fs[n + 1..])
    ensures Stream(fs[..n + 1]) == Stream(fs[..n]) + FrameBytes(fs[n])
  {
    assert fs[n..][1..] == fs[n + 1..];
    assert fs[..n + 1] == fs[..n] + [fs[n]];
    StreamSnoc(fs[..n], fs[n]);
  }

  /** The peer sends the frames `fs`; `history` is what has arrived so far, in whatever chunks, and the ticks
      may have run in between at will. Then exactly the leading frames were executed, and the partial frame,
      the ring and the bytes still to come make up precisely the rest. */
  lemma FramesDelivered(fs: seq<Frame>, history: seq<byte>, executed: seq<Frame>, state: PacketState, raw0: byte,
                        raw1: byte, length: nat, data: seq<byte>, queued: seq<byte>)
    requires Consistent(history, executed, state, raw0, raw1, length, data, queued)
    requires AllWellFormed(fs) && history <= Stream(fs)
    ensures executed <= fs
    ensures Partial(state, raw0, raw1, data) + queued + Stream(fs)[|history|..] == Stream(fs[|executed|..])
  {
    var rest := Partial(state, raw0, raw1, data) + queued;
    Regroup(Stream(executed), Partial(state, raw0, raw1, data), queued);
    UniqueReading(executed, rest, fs);
    assert fs == executed + fs[|executed|..];
    StreamAppend(executed, fs[|executed|..]);
    assert Stream(fs) == history + Stream(fs)[|history|..];
    Regroup(Stream(executed), rest, Stream(fs)[|history|..]);
    assert Stream(fs[|executed|..]) == Stream(fs)[|Stream(executed)|..];
    assert rest + Stream(fs)[|history|..] == Stream(fs)[|Stream(executed)|..];
  }

  lemma PartialIsShort(g: Frame, tail: seq<byte>, state: PacketState, raw0: byte, raw1: byte, length: nat,
                       data: seq<byte>)
    requires WellFormed(g) && Partial(state, raw0, raw1, data) <= FrameBytes(g) + tail
    requires state == ReadData ==> |data| + length == PacketCodec.Number(raw0, raw1)
    requires state == ReadData ==> data != [] ==> length > 0
    ensures |Partial(state, raw0, raw1, data)| < |FrameBytes(g)|
    ensures state == ReadData ==> length > 0
  {
    if state == ReadData {
      var p, s := Partial(state, raw0, raw1, data), FrameBytes(g) + tail;
      assert p[0] == raw0 && p[1] == raw1 && s[0] == g.len0 && s[1] == g.len1;
      assert p == s[..|p|];
      assert raw0 == g.len0 && raw1 == g.len1;
    }
  }

  /** The receiver never waits for a frame that is there: a frame in progress always asks for at least one more
      byte, and once the ring is empty the next frame has not arrived in full. */
  lemma CaughtUp(fs: seq<Frame>, history: seq<byte>, executed: seq<Frame>, state: PacketState, raw0: byte,
                 raw1: byte, length: nat, data: seq<byte>, queued: seq<byte>)
    requires Consistent(history, executed, state, raw0, raw1, length, data, queued)
    requires AllWellFormed(fs) && history <= Stream(fs)
    ensures state == ReadData ==> length > 0
    ensures queued == [] ==>
              if |executed| < |fs| then |history| < |Stream(fs[..|executed| + 1])|
              else executed == fs && history == Stream(fs)
  {
    FramesDelivered(fs, history, executed, state, raw0, raw1, length, data, queued);
    var n, part, rest := |executed|, Partial(state, raw0, raw1, data), Stream(fs)[|history|..];
    if n < |fs| {
      StreamSplit(fs, n);
      assert fs[..n] == executed;
      assert part <= part + queued + rest;
      PartialIsShort(fs[n], Stream(fs[n + 1..]), state, raw0, raw1, length, data);
    } else {
      assert fs[n..] == [] && part + queued + rest == [];
    }
  }
}
