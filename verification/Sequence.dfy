/** Packet sequence numbers: the counters of an EOClient (src/eoclient.cpp), the ping round of
    src/eoserver.cpp, its answer in src/handlers/Connection.cpp, and a peer that mirrors them. */
module Sequence {
  import opened Bytes
  import opened Common
  import opened PacketCodec

  const MAX_START := 1757

  /** The letter k. */
  const PONG: seq<byte> := [107]

  predicate IsStart(n: int) { 0 <= n <= MAX_START }

  // ---------------------------------------------------------------- announcing a start

  /** Integer division as C++ has it. */
  function Quotient(a: int, b: int): (q: int)
    requires b > 0
  {
    if a >= 0 then a / b else -(-a / b)
  }

  function S1Max(start: int): int { Quotient(start + 13, 7) }

  function S1Min(start: int): int
  {
    var low := Quotient(start - 252 + 13 + 6, 7);
    if 0 > low then 0 else low
  }

  /** Any draw from the range gives two bytes that announce `start`, and every such pair can be drawn. */
  lemma InitBytesExact(start: int, s1: int, s2: int)
    requires IsStart(start)
    ensures S1Min(start) <= s1 <= S1Max(start) && s2 == start - s1 * 7 + 13
            <==> 0 <= s1 <= 252 && 0 <= s2 <= 252 && 7 * s1 + s2 - 13 == start
  {
  }

  lemma ByteUnchanged(n: int)
    requires 0 <= n <= 252
    ensures n % 256 == n
  {
  }

  /** The two counters of one connection and the ping bookkeeping. `count` runs from 0 to 9 and round again. */
  datatype Counters = Counters(seq_start: int, upcoming: int, count: int, needpong: bool)

  function Advance(count: int): (r: int)
  {
    (count + 1) % 10
  }

  /** The counter after `n` packets. */
  function Advanced(count: int, n: nat): (r: int)
  {
    if n == 0 then count else Advance(Advanced(count, n - 1))
  }

  lemma {:induction false} CountsModuloTen(count: int, n: nat)
    requires 0 <= count < 10
    ensures Advanced(count, n) == (count + n) % 10
  {
    if n > 0 {
      CountsModuloTen(count, n - 1);
      OneMore(count + (n - 1));
    }
  }

  lemma OneMore(k: int)
    ensures Advance(k % 10) == (k + 1) % 10
  {
  }

  /** The number expected on the next packet and the counters after it. */
  function Expect(c: Counters, pong: bool): (r: (int, Counters))
  {
    var start := if pong then c.upcoming else c.seq_start;
    (start + c.count, c.(seq_start := start, count := Advance(c.count)))
  }

  /** A sequence number as a packet carries it, and as the server reads it: one byte below 253, else two. */
  function SeqField(n: uint16): (s: seq<byte>)
  {
    if n >= 253 then FieldBytes(FShort(n)) else FieldBytes(FChar(n))
  }

  function ReadSeq(expected: int, packet: seq<byte>): (n: int)
    requires |packet| >= 2
  {
    if expected >= 253 then ReadField(KShort, packet, 2).0.s else ReadField(KChar, packet, 2).0.c
  }

  /** What follows the sequence number. */
  function ReadRest(expected: int, packet: seq<byte>): (s: seq<byte>)
    requires |packet| >= 2
  {
    packet[ReadNumber(packet, 2, if expected >= 253 then 2 else 1).1..]
  }

  lemma SeqFieldReads(n: uint16, id: seq<byte>, payload: seq<byte>)
    requires |id| == 2 && n < MAX2
    ensures ReadSeq(n, id + SeqField(n) + payload) == n
  {
    if n >= 253 {
      ShortReadBack(n, id, payload);
    } else {
      CharReadBack(n, id, payload);
    }
  }

  /** And what follows the number is what the peer put there. */
  lemma RestReads(n: uint16, id: seq<byte>, payload: seq<byte>)
    requires |id| == 2 && n < MAX2
    ensures ReadRest(n, id + SeqField(n) + payload) == payload
  {
    if n >= 253 {
      ShortReadBack(n, id, payload);
    } else {
      CharReadBack(n, id, payload);
    }
  }

  /** An update names the start as a difference: a short and a char. */
  function UpdateBytes(start: int, s2: uint8): (s: seq<byte>)
    requires IsStart(start) && s2 <= 252
  {
    FieldBytes(FShort(start + s2)) + FieldBytes(FChar(s2))
  }

  function ReadUpdate(data: seq<byte>): (start: int)
  {
    var (s1, pos) := ReadField(KShort, data, 0);
    if pos > |data| then -1 else s1.s - ReadField(KChar, data, pos).0.c
  }

  lemma ShortThenChar(n: uint16, c: uint8)
    requires n < MAX2 && c < MAX1
    ensures var data := FieldBytes(FShort(n)) + FieldBytes(FChar(c));
            |data| == 3 && ReadField(KShort, data, 0) == (FShort(n), 2) && ReadField(KChar, data, 2) == (FChar(c), 3)
  {
    var first, second := FieldBytes(FShort(n)), FieldBytes(FChar(c));
    assert first == Digits(n)[..2] && second == Digits(c)[..1];
    hide Digits, ReadField, FieldBytes;
    ShortReadBack(n, [], second);
    assert [] + first + second == first + second;
    CharReadBack(c, first, []);
    assert first + second + [] == first + second;
  }

  lemma UpdateReads(start: int, s2: uint8)
    requires IsStart(start) && s2 <= 252
    ensures ReadUpdate(UpdateBytes(start, s2)) == start
  {
    hide FieldBytes, ReadField;
    ShortThenChar(start + s2, s2);
  }

  /** One byte below 253, and two from there. */
  lemma SeqFieldSize(n: uint16)
    ensures |SeqField(n)| == if n < 253 then 1 else 2
  {
  }

  /** An update, field by field: the start and a random number on top of it, and that number. */
  lemma UpdateFields(start: int, s2: uint8)
    requires IsStart(start) && s2 <= 252
    ensures ReadFields([KShort, KChar], UpdateBytes(start, s2), 0) == ([FShort(start + s2), FChar(s2)], 3)
  {
    hide FieldBytes, ReadField;
    ShortThenChar(start + s2, s2);
    var data := UpdateBytes(start, s2);
    assert [KShort, KChar][1..] == [KChar] && [KChar][1..] == [];
    assert data == FieldBytes(FShort(start + s2)) + FieldBytes(FChar(s2));
    ReadLast(KChar, data, 2, FChar(s2), 3);
    assert ReadFields([KShort, KChar], data, 0) == ([FShort(start + s2)] + [FChar(s2)], 3);
    assert [FShort(start + s2)] + [FChar(s2)] == [FShort(start + s2), FChar(s2)];
  }

  lemma ReadLast(k: Kind, data: seq<byte>, pos: nat, f: Field, next: nat)
    requires pos <= |data| && ReadField(k, data, pos) == (f, next)
    ensures ReadFields([k], data, pos) == ([f], next)
  {
    assert [k][1..] == [] && [f] + [] == [f];
    assert ReadFields([], data, next) == ([], next);
  }

  // ---------------------------------------------------------------- the server's code

  datatype Verdict = Accepted | WrongSequence

  class Sequencer {
    var seq_start: int
    var upcoming_seq_start: int
    var count: int
    var needpong: bool
    var closed: bool

    function State(): Counters
      reads this
    {
      Counters(seq_start, upcoming_seq_start, count, needpong)
    }

    constructor ()
      ensures State() == Counters(0, -1, 0, false) && !closed
    {
      seq_start, upcoming_seq_start, count, needpong, closed := 0, -1, 0, false, false;
    }

    method InitNewSequence(random: int)
      requires IsStart(random)
      modifies this`seq_start
      ensures State() == old(State()).(seq_start := random)
    {
      seq_start := random;
    }

    /** `random` is drawn between the two limits. */
    method GetSeqInitBytes(random: int) returns (s1: byte, s2: byte)
      requires IsStart(seq_start) && S1Min(seq_start) <= random <= S1Max(seq_start)
      ensures 7 * s1 as int + s2 as int - 13 == seq_start && s1 <= 252 && s2 <= 252
    {
      ghost var rest := seq_start - random * 7 + 13;
      InitBytesExact(seq_start, random, rest);
      ByteUnchanged(random);
      ByteUnchanged(rest);
      s1 := (random % 256) as byte;
      s2 := ((seq_start - s1 as int * 7 + 13) % 256) as byte;
    }

    /** `random` is drawn between the upcoming start and that plus 252. */
    method GetSeqUpdateBytes(random: int) returns (s1: uint16, s2: uint8)
      requires IsStart(upcoming_seq_start) && upcoming_seq_start <= random <= upcoming_seq_start + 252
      ensures s1 - s2 == upcoming_seq_start && s2 <= 252 && s1 == random
    {
      s1 := random % 0x1_0000;
      s2 := (s1 - upcoming_seq_start) % 0x100;
    }

    /** Through 32 bits without sign and back; -1, which a pong before the first ping leads to, survives that. */
    method GenSequence() returns (result: int)
      requires -0x8000_0000 <= seq_start + count < 0x8000_0000
      modifies this`count
      ensures (result, State()) == Expect(old(State()), false)
    {
      var unsigned := (seq_start + count) % 0x1_0000_0000;
      result := if unsigned < 0x8000_0000 then unsigned else unsigned - 0x1_0000_0000;
      count := (count + 1) % 10;
    }

    method PongNewSequence()
      modifies this`seq_start
      ensures State() == old(State()).(seq_start := upcoming_seq_start)
    {
      seq_start := upcoming_seq_start;
    }

    /** One client's turn in `server_ping_all`: the packet sent is one of family 1 and action 8. */
    method Ping(random: int, spread: int) returns (id: uint16, update: seq<byte>)
      requires IsStart(random) && 0 <= spread <= 252
      modifies this
      ensures old(needpong) ==> closed && State() == old(State()) && update == []
      ensures !old(needpong) ==>
                && State() == old(State()).(upcoming := random, needpong := true)
                && id == 8 * 256 + 1 && update == UpdateBytes(random, spread) && closed == old(closed)
    {
      id, update := 0, [];
      if needpong {
        closed := true;
      } else {
        upcoming_seq_start := random;
        var s1, s2 := GetSeqUpdateBytes(random + spread);
        var builder := new PacketBuilder(1, 8);
        builder.AddShort(s1);
        builder.AddChar(s2);
        id, update := builder.id, builder.data;
        assert [] + FieldBytes(FShort(s1)) == FieldBytes(FShort(s1));
        needpong := true;
      }
    }

    /** The sequence check of `Execute` for a packet outside the INIT family; `pong` says whether it is a ping reply. */
    method Check(packet: seq<byte>, pong: bool, enforce: bool) returns (verdict: Verdict)
      requires 2 <= |packet| < TWO64 / 2
      requires -0x8000_0000 <= (if pong then upcoming_seq_start else seq_start) + count < 0x8000_0000
      modifies this
      ensures State() == Expect(old(State()), pong).1
      ensures var expected := Expect(old(State()), pong).0;
              verdict == if enforce && ReadSeq(expected, packet) != expected then WrongSequence else Accepted
      ensures closed <==> old(closed) || verdict == WrongSequence
    {
      var reader := new PacketReader(packet);
      if pong {
        PongNewSequence();
      }
      var client_seq: int;
      var server_seq := GenSequence();
      if server_seq >= 253 {
        var read := reader.GetShort();
        client_seq := read.value;
      } else {
        var read := reader.GetChar();
        client_seq := read.value;
      }
      if enforce && client_seq != server_seq {
        closed := true;
        return WrongSequence;
      }
      return Accepted;
    }

    /** `Connection_Ping`, run later from the action queue, with what the reply says. */
    method PongHandled(reply: seq<byte>)
      modifies this`needpong, this`closed
      ensures reply == [0x6B] ==> State() == old(State()).(needpong := false) && closed == old(closed)
      ensures reply != [0x6B] ==> State() == old(State()) && closed
    {
      if reply != PONG {
        closed := true;
        return;
      }
      if needpong {
        needpong := false;
      }
    }
  }

  // ---------------------------------------------------------------- both ends and the channels between them

  datatype Msg = Msg(pong: bool, packet: seq<byte>)

  /** Server counters, its queue of pongs still to be handled and whether they say what they should, the two channels,
      and the peer's own counters. */
  datatype System = System(server: Counters, queued: seq<bool>, closed: bool, mismatch: bool,
                           toServer: seq<Msg>, toPeer: seq<seq<byte>>, peerStart: int, peerSeq: int)

  datatype Step =
    | ServerPings(random: int, spread: uint8)
    | PeerSends(id: seq<byte>, payload: seq<byte>)
    | PeerUpdates(id: seq<byte>, payload: seq<byte>)  // the reply to a ping; the payload should be `PONG`
    | ServerExecutes
    | ServerHandlesPong

  predicate Sensible(step: Step)
  {
    match step
    case ServerPings(random, spread) => IsStart(random) && spread <= 252
    case PeerSends(id, _) => |id| == 2
    case PeerUpdates(id, _) => |id| == 2
    case _ => true
  }

  /** The peer numbers its packets as the server expects: current start plus a counter modulo ten. */
  function PeerPacket(s: System, start: int, pong: bool, id: seq<byte>, payload: seq<byte>): (r: System)
    requires 0 <= start + s.peerSeq < 0x1_0000
  {
    s.(toServer := s.toServer + [Msg(pong, id + SeqField(start + s.peerSeq) + payload)],
       peerStart := start, peerSeq := Advance(s.peerSeq))
  }

  ghost function Next(s: System, step: Step): (r: System)
    requires Inv(s) && Sensible(step)
  {
    match step
    case ServerPings(random, spread) =>
      if s.closed then s
      else if s.server.needpong then s.(closed := true)
      else s.(server := s.server.(upcoming := random, needpong := true),
              toPeer := s.toPeer + [UpdateBytes(random, spread)])
    case PeerSends(id, payload) =>
      PeerPacket(s, s.peerStart, false, id, payload)
    case PeerUpdates(id, payload) =>
      if s.toPeer == [] then s
      else PeerPacket(s.(toPeer := s.toPeer[1..]), ReadUpdate(s.toPeer[0]), true, id, payload)
    case ServerExecutes =>
      if s.closed || s.toServer == [] then s
      else
        var m := s.toServer[0];
        var (expected, counters) := Expect(s.server, m.pong);
        var wrong := ReadSeq(expected, m.packet) != expected;
        s.(server := counters, toServer := s.toServer[1..], closed := wrong, mismatch := s.mismatch || wrong,
           queued := if m.pong && !wrong then s.queued + [ReadRest(expected, m.packet) == PONG] else s.queued)
    case ServerHandlesPong =>
      if s.queued == [] then s
      else if s.queued[0] then s.(server := s.server.(needpong := false), queued := s.queued[1..])
      else s.(closed := true, queued := s.queued[1..])
  }

  /** Lets the server read everything in flight; `None` if some number is wrong. */
  ghost function Replay(ms: seq<Msg>, start: int, upcoming: int, count: int): (r: Option<(int, int)>)
  {
    if ms == [] then Some((start, count))
    else
      var now := if ms[0].pong then upcoming else start;
      if |ms[0].packet| >= 2 && ReadSeq(now + count, ms[0].packet) == now + count
      then Replay(ms[1..], now, upcoming, Advance(count))
      else None
  }

  function Pongs(ms: seq<Msg>): (n: nat)
  {
    if ms == [] then 0 else (if ms[0].pong then 1 else 0) + Pongs(ms[1..])
  }

  ghost predicate Inv(s: System)
  {
    && IsStart(s.server.seq_start) && 0 <= s.server.count < 10
    && IsStart(s.peerStart) && 0 <= s.peerSeq < 10
    && !s.mismatch
    // at most one new start is under way: announced, answered, or answered and not yet handled
    && |s.toPeer| + Pongs(s.toServer) + |s.queued| <= (if s.server.needpong then 1 else 0)
    && (s.server.needpong ==> IsStart(s.server.upcoming))
    && (s.toPeer != [] ==> ReadUpdate(s.toPeer[0]) == s.server.upcoming)
    // reading all packets in flight brings the server exactly to the peer's counters
    && Replay(s.toServer, s.server.seq_start, s.server.upcoming, s.server.count) == Some((s.peerStart, s.peerSeq))
  }

  lemma {:induction false} ReplayAppend(ms: seq<Msg>, m: Msg, start: int, upcoming: int, count: int)
    requires Replay(ms, start, upcoming, count).Some?
    ensures var (start', count') := Replay(ms, start, upcoming, count).value;
            Replay(ms + [m], start, upcoming, count) == Replay([m], start', upcoming, count')
  {
    if ms == [] {
      assert ms + [m] == [m];
    } else {
      var now := if ms[0].pong then upcoming else start;
      ReplayAppend(ms[1..], m, now, upcoming, Advance(count));
      assert (ms + [m])[1..] == ms[1..] + [m];
    }
  }

  lemma {:induction false} PongsAppend(ms: seq<Msg>, m: Msg)
    ensures Pongs(ms + [m]) == Pongs(ms) + if m.pong then 1 else 0
  {
    if ms == [] {
      assert ms + [m] == [m];
    } else {
      PongsAppend(ms[1..], m);
      assert (ms + [m])[1..] == ms[1..] + [m];
    }
  }

  /** Without a pong in flight the announced start plays no role. */
  lemma {:induction false} ReplayWithoutPong(ms: seq<Msg>, start: int, u: int, u': int, count: int)
    requires Pongs(ms) == 0
    ensures Replay(ms, start, u, count) == Replay(ms, start, u', count)
  {
    if ms != [] {
      ReplayWithoutPong(ms[1..], start, u, u', Advance(count));
    }
  }

  lemma PeerPacketKeepsInv(s: System, start: int, pong: bool, id: seq<byte>, payload: seq<byte>)
    requires IsStart(s.server.seq_start) && 0 <= s.server.count < 10 && 0 <= s.peerSeq < 10 && IsStart(start)
    requires |id| == 2
    requires Replay(s.toServer, s.server.seq_start, s.server.upcoming, s.server.count) == Some((s.peerStart, s.peerSeq))
    requires if pong then start == s.server.upcoming else start == s.peerStart
    ensures var r := PeerPacket(s, start, pong, id, payload);
            && Replay(r.toServer, r.server.seq_start, r.server.upcoming, r.server.count)
               == Some((r.peerStart, r.peerSeq))
            && Pongs(r.toServer) == Pongs(s.toServer) + if pong then 1 else 0
  {
    hide ReadSeq, SeqField, Replay, Pongs;
    var n := start + s.peerSeq;
    var m := Msg(pong, id + SeqField(n) + payload);
    SeqFieldReads(n, id, payload);
    NextPacketReplays(m, s.peerStart, s.server.upcoming, s.peerSeq, start);
    ReplayAppend(s.toServer, m, s.server.seq_start, s.server.upcoming, s.server.count);
    PongsAppend(s.toServer, m);
  }

  lemma NextPacketReplays(m: Msg, before: int, upcoming: int, count: int, start: int)
    requires |m.packet| >= 2 && ReadSeq(start + count, m.packet) == start + count
    requires start == if m.pong then upcoming else before
    ensures Replay([m], before, upcoming, count) == Some((start, Advance(count)))
  {
    assert [m][1..] == [];
  }

  lemma StepKeepsInv(s: System, step: Step)
    requires Inv(s) && Sensible(step)
    ensures Inv(Next(s, step))
  {
    match step
    case ServerPings(random, spread) =>
      if !s.closed && !s.server.needpong {
        UpdateReads(random, spread);
        ReplayWithoutPong(s.toServer, s.server.seq_start, s.server.upcoming, random, s.server.count);
        assert s.toPeer == [];
      }
    case PeerSends(id, payload) =>
      PeerPacketKeepsInv(s, s.peerStart, false, id, payload);
    case PeerUpdates(id, payload) =>
      if s.toPeer != [] {
        PeerPacketKeepsInv(s.(toPeer := s.toPeer[1..]), ReadUpdate(s.toPeer[0]), true, id, payload);
      }
    case ServerExecutes =>
    case ServerHandlesPong =>
  }

  ghost function Run(s: System, steps: seq<Step>): (r: System)
    requires Inv(s) && forall i | 0 <= i < |steps| :: Sensible(steps[i])
    ensures Inv(r)
    decreases |steps|
  {
    if steps == [] then s
    else
      StepKeepsInv(s, steps[0]);
      Run(Next(s, steps[0]), steps[1..])
  }

  /** A counter modulo ten, `k` packets later. */
  function Later(count: int, k: nat): (r: int)
    ensures 0 <= r < 10
  {
    (count + k) % 10
  }

  lemma OneLater(count: int, k: nat)
    ensures Later(Advance(count), k) == Later(count, k + 1)
  {
  }

  /** Packets whose numbers are a start and, on top, the counter. */
  function Numbered(start: int, count: int, steps: seq<Step>): (r: seq<Msg>)
    requires IsStart(start) && forall i | 0 <= i < |steps| :: steps[i].PeerSends?
    ensures |r| == |steps|
  {
    seq(|steps|, k requires 0 <= k < |steps| =>
      Msg(false, steps[k].id + SeqField(start + Later(count, k)) + steps[k].payload))
  }

  /** That is what a peer sends that sends packets one after the other. */
  lemma {:induction false} NumbersInTurn(s: System, steps: seq<Step>)
    requires Inv(s) && forall i | 0 <= i < |steps| :: Sensible(steps[i]) && steps[i].PeerSends?
    ensures IsStart(s.peerStart)
    ensures Run(s, steps) == s.(toServer := s.toServer + Numbered(s.peerStart, s.peerSeq, steps),
                                peerSeq := Later(s.peerSeq, |steps|))
    decreases |steps|
  {
    hide Inv, Next, SeqField, Numbered, Run, IsStart;
    PeerBounds(s);
    if steps == [] {
      assert s.toServer + Numbered(s.peerStart, s.peerSeq, []) == s.toServer;
      NoStep(s);
    } else {
      SendsOne(s, steps[0]);
      FirstStep(s, steps[0], steps[1..]);
      assert [steps[0]] + steps[1..] == steps;
      hide Later, Sensible;
      NumbersInTurn(Next(s, steps[0]), steps[1..]);
      OneMoreNumbered(s.peerStart, s.peerSeq, steps);
      OneLater(s.peerSeq, |steps| - 1);
      Regrouped(s.toServer, Next(s, steps[0]).toServer, Numbered(s.peerStart, s.peerSeq, steps),
                Numbered(s.peerStart, Advance(s.peerSeq), steps[1..]));
    }
  }

  lemma Regrouped(before: seq<Msg>, now: seq<Msg>, all: seq<Msg>, rest: seq<Msg>)
    requires all != [] && now == before + [all[0]] && all[1..] == rest
    ensures now + rest == before + all
  {
    assert all == [all[0]] + rest;
  }

  lemma SendsOne(s: System, step: Step)
    requires Inv(s) && Sensible(step) && step.PeerSends?
    ensures IsStart(s.peerStart) && 0 <= s.peerSeq < 10
    ensures Next(s, step) == s.(peerSeq := Advance(s.peerSeq),
              toServer := s.toServer + [Numbered(s.peerStart, s.peerSeq, [step])[0]])
  {
    hide SeqField;
  }

  lemma OneMoreNumbered(start: int, count: int, steps: seq<Step>)
    requires IsStart(start) && steps != [] && forall i | 0 <= i < |steps| :: steps[i].PeerSends?
    ensures Numbered(start, count, steps)[0] == Numbered(start, count, [steps[0]])[0]
    ensures Numbered(start, count, steps)[1..] == Numbered(start, Advance(count), steps[1..])
  {
    hide SeqField, Later;
    forall k: nat | k + 1 < |steps|
      ensures Later(Advance(count), k) == Later(count, k + 1)
    {
      OneLater(count, k);
    }
  }

  lemma PeerBounds(s: System)
    requires Inv(s)
    ensures 0 <= s.peerSeq < 10 && IsStart(s.peerStart)
  {
  }

  /** What closes a connection: a ping that comes while a pong is still owed, and a reply that is no k. */
  lemma ClosedOnlyFor(s: System, step: Step)
    requires Inv(s) && Sensible(step)
    ensures Next(s, step).closed <==>
            s.closed || (step.ServerPings? && s.server.needpong)
            || (step.ServerHandlesPong? && s.queued != [] && !s.queued[0])
  {
    StepKeepsInv(s, step);
  }

  /** A ping from beginning to end: announced, answered with a k, read and handled, the new start holds on both
      sides. */
  lemma PingPong(s: System, random: int, spread: uint8, id: seq<byte>)
    requires Inv(s) && !s.closed && !s.server.needpong && s.toServer == [] && s.toPeer == [] && s.queued == []
    requires 0 <= random <= 1757 && spread <= 252 && |id| == 2
    ensures var t := Run(s, [ServerPings(random, spread), PeerUpdates(id, [0x6B]), ServerExecutes, ServerHandlesPong]);
            && t.server.seq_start == t.peerStart == random && !t.server.needpong && !t.closed
            && t.server.count == t.peerSeq == (s.peerSeq + 1) % 10
  {
    var a, b, c, d: Step := ServerPings(random, spread), PeerUpdates(id, [0x6B]), ServerExecutes, ServerHandlesPong;
    PeerBounds(s);
    CountsAgree(s);
    hide Inv, SeqField, ReadSeq, ReadRest, UpdateBytes, ReadUpdate, Run;
    StepKeepsInv(s, a);
    var s1 := Next(s, a);
    UpdateReads(random, spread);
    StepKeepsInv(s1, b);
    var s2 := Next(s1, b);
    StepKeepsInv(s2, c);
    SeqFieldReads(random + s.peerSeq, id, [0x6B]);
    RestReads(random + s.peerSeq, id, [0x6B]);
    var s3 := Next(s2, c);
    StepKeepsInv(s3, d);
    FourSteps(s, a, b, c, d);
  }

  lemma CountsAgree(s: System)
    requires Inv(s) && s.toServer == []
    ensures s.server.count == s.peerSeq && s.server.seq_start == s.peerStart
  {
  }

  lemma FourSteps(s: System, a: Step, b: Step, c: Step, d: Step)
    requires Inv(s) && Sensible(a) && Sensible(b) && Sensible(c) && Sensible(d)
    ensures Inv(Next(s, a)) && Inv(Next(Next(s, a), b)) && Inv(Next(Next(Next(s, a), b), c))
    ensures Run(s, [a, b, c, d]) == Next(Next(Next(Next(s, a), b), c), d)
  {
    hide Inv, Next, Sensible, Run;
    FirstStep(s, a, [b, c, d]);
    FirstStep(Next(s, a), b, [c, d]);
    FirstStep(Next(Next(s, a), b), c, [d]);
    FirstStep(Next(Next(Next(s, a), b), c), d, []);
    NoStep(Next(Next(Next(Next(s, a), b), c), d));
    assert [a] + [b, c, d] == [a, b, c, d] && [b] + [c, d] == [b, c, d] && [c] + [d] == [c, d] && [d] + [] == [d];
  }

  lemma FirstStep(s: System, a: Step, rest: seq<Step>)
    requires Inv(s) && Sensible(a) && forall i | 0 <= i < |rest| :: Sensible(rest[i])
    ensures Inv(Next(s, a)) && Run(s, [a] + rest) == Run(Next(s, a), rest)
  {
    hide Inv, Next, Sensible;
    StepKeepsInv(s, a);
    assert ([a] + rest)[0] == a && ([a] + rest)[1..] == rest;
  }

  lemma NoStep(s: System)
    requires Inv(s)
    ensures Run(s, []) == s
  {
  }

  /** Both ends agree on a start after initialisation. Then whatever the interleaving of pings, packets, replies
      and handlers, the server never sees a wrong number, at most one new start is under way, and once nothing
      is in flight both ends hold the same counters. */
  lemma NeverOutOfSequence(start: int, count: int, steps: seq<Step>)
    requires IsStart(start) && 0 <= count < 10
    requires forall i | 0 <= i < |steps| :: Sensible(steps[i])
    ensures var s0 := System(Counters(start, -1, count, false), [], false, false, [], [], start, count);
            && Inv(s0)
            && var s := Run(s0, steps);
            && !s.mismatch
            && |s.toPeer| + Pongs(s.toServer) + |s.queued| <= 1
            && (s.toServer == [] ==> s.server.seq_start == s.peerStart && s.server.count == s.peerSeq)
  {
    var s0 := System(Counters(start, -1, count, false), [], false, false, [], [], start, count);
    assert Inv(s0);
    assert Inv(Run(s0, steps));
  }
}
