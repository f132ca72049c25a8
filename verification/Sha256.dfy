/** SHA-256 as FIPS 180-4 states it, and the streaming implementation of src/sha256.c. */
module Sha256 {

  type word = bv32
  type octet = bv8

  // ---------------------------------------------------------------- the standard

  /** Section 4.2.2: one constant per round, eight to a row; see `Sha256Constants`. */
  function Row(r: nat): (k: seq<word>)
    ensures |k| == 8
  {
    match r
    case 0 => [0x428A2F98, 0x71374491, 0xB5C0FBCF, 0xE9B5DBA5, 0x3956C25B, 0x59F111F1, 0x923F82A4, 0xAB1C5ED5]
    case 1 => [0xD807AA98, 0x12835B01, 0x243185BE, 0x550C7DC3, 0x72BE5D74, 0x80DEB1FE, 0x9BDC06A7, 0xC19BF174]
    case 2 => [0xE49B69C1, 0xEFBE4786, 0x0FC19DC6, 0x240CA1CC, 0x2DE92C6F, 0x4A7484AA, 0x5CB0A9DC, 0x76F988DA]
    case 3 => [0x983E5152, 0xA831C66D, 0xB00327C8, 0xBF597FC7, 0xC6E00BF3, 0xD5A79147, 0x06CA6351, 0x14292967]
    case 4 => [0x27B70A85, 0x2E1B2138, 0x4D2C6DFC, 0x53380D13, 0x650A7354, 0x766A0ABB, 0x81C2C92E, 0x92722C85]
    case 5 => [0xA2BFE8A1, 0xA81A664B, 0xC24B8B70, 0xC76C51A3, 0xD192E819, 0xD6990624, 0xF40E3585, 0x106AA070]
    case 6 => [0x19A4C116, 0x1E376C08, 0x2748774C, 0x34B0BCB5, 0x391C0CB3, 0x4ED8AA4A, 0x5B9CCA4F, 0x682E6FF3]
    case _ => [0x748F82EE, 0x78A5636F, 0x84C87814, 0x8CC70208, 0x90BEFFFA, 0xA4506CEB, 0xBEF9A3F7, 0xC67178F2]
  }

  function K(t: nat): word
    requires t < 64
  {
    Row(t / 8)[t % 8]
  }

  /** Section 5.3.3: the initial hash value. */
  const H0: seq<word> := [
    0x6A09E667, 0xBB67AE85, 0x3C6EF372, 0xA54FF53A, 0x510E527F, 0x9B05688C, 0x1F83D9AB, 0x5BE0CD19
  ]

  /** Section 4.1.2: the six logical functions. */
  function Ch(x: word, y: word, z: word): word { (x & y) ^ (!x & z) }
  function Maj(x: word, y: word, z: word): word { (x & y) ^ (x & z) ^ (y & z) }
  function BigSigma0(x: word): word { x.RotateRight(2) ^ x.RotateRight(13) ^ x.RotateRight(22) }
  function BigSigma1(x: word): word { x.RotateRight(6) ^ x.RotateRight(11) ^ x.RotateRight(25) }
  function SmallSigma0(x: word): word { x.RotateRight(7) ^ x.RotateRight(18) ^ (x >> 3) }
  function SmallSigma1(x: word): word { x.RotateRight(17) ^ x.RotateRight(19) ^ (x >> 10) }

  /** Addition modulo 2^32. */
  function Plus(x: word, y: word): word { x + y }

  function Pack(b0: octet, b1: octet, b2: octet, b3: octet): word
  {
    (b0 as word << 24) | (b1 as word << 16) | (b2 as word << 8) | b3 as word
  }

  /** Section 6.2.2, step 1: the message schedule. */
  function Schedule(block: seq<octet>, t: nat): word
    requires |block| == 64 && t < 64
  {
    if t < 16 then Pack(block[4 * t], block[4 * t + 1], block[4 * t + 2], block[4 * t + 3])
    else Plus(Plus(Plus(SmallSigma1(Schedule(block, t - 2)), Schedule(block, t - 7)),
                   SmallSigma0(Schedule(block, t - 15))), Schedule(block, t - 16))
  }

  datatype Registers = Registers(a: word, b: word, c: word, d: word, e: word, f: word, g: word, h: word)

  /** Section 6.2.2, step 3: all eight registers change at once. */
  function Round(r: Registers, k: word, w: word): Registers
  {
    var t1 := Plus(Plus(Plus(Plus(r.h, BigSigma1(r.e)), Ch(r.e, r.f, r.g)), k), w);
    var t2 := Plus(BigSigma0(r.a), Maj(r.a, r.b, r.c));
    Registers(Plus(t1, t2), r.a, r.b, r.c, Plus(r.d, t1), r.e, r.f, r.g)
  }

  function Rounds(r: Registers, block: seq<octet>, t: nat): Registers
    requires |block| == 64 && t <= 64
  {
    if t == 0 then r else Round(Rounds(r, block, t - 1), K(t - 1), Schedule(block, t - 1))
  }

  function FromWords(s: seq<word>): Registers
    requires |s| == 8
  {
    Registers(s[0], s[1], s[2], s[3], s[4], s[5], s[6], s[7])
  }

  /** Section 6.2.2, step 4. */
  function Compress(s: seq<word>, block: seq<octet>): (r: seq<word>)
    requires |s| == 8 && |block| == 64
    ensures |r| == 8
  {
    var v := Rounds(FromWords(s), block, 64);
    [Plus(s[0], v.a), Plus(s[1], v.b), Plus(s[2], v.c), Plus(s[3], v.d),
     Plus(s[4], v.e), Plus(s[5], v.f), Plus(s[6], v.g), Plus(s[7], v.h)]
  }

  /** Sections 5.2.1 and 6.2: the blocks one after the other. */
  function HashBlocks(data: seq<octet>): (r: seq<word>)
    requires |data| % 64 == 0
    ensures |r| == 8
  {
    if data == [] then H0
    else Compress(HashBlocks(data[..|data| - 64]), data[|data| - 64..])
  }

  function Octet(n: nat): octet { (n % 256) as octet }

  /** A number as 64 bits, most significant first. */
  function BigEndian64(n: nat): (r: seq<octet>)
    ensures |r| == 8
  {
    [Octet(n / 0x100_0000_0000_0000), Octet(n / 0x1_0000_0000_0000), Octet(n / 0x100_0000_0000),
     Octet(n / 0x1_0000_0000), Octet(n / 0x100_0000), Octet(n / 0x1_0000), Octet(n / 0x100), Octet(n)]
  }

  function Zeros(n: nat): (r: seq<octet>)
    ensures |r| == n && forall i | 0 <= i < n :: r[i] == 0
  {
    seq(n, i => 0)
  }

  /** The number of zero bytes after the one bit: the least that leaves room for the length in the last block. */
  function ZeroCount(n: nat): (k: nat)
    ensures k < 64 && (n + 1 + k + 8) % 64 == 0
  {
    (119 - n % 64) % 64
  }

  /** Section 5.1.1: a one bit, the fewest zeros that complete a block, and the length in bits. */
  function Padded(message: seq<octet>): (r: seq<octet>)
    ensures |r| % 64 == 0
  {
    message + [0x80] + Zeros(ZeroCount(|message|)) + BigEndian64(8 * |message|)
  }

  function Unpack(w: word): (r: seq<octet>)
    ensures |r| == 4
  {
    [((w >> 24) & 0xFF) as octet, ((w >> 16) & 0xFF) as octet, ((w >> 8) & 0xFF) as octet, (w & 0xFF) as octet]
  }

  function UnpackAll(s: seq<word>): (r: seq<octet>)
    ensures |r| == 4 * |s|
  {
    if s == [] then [] else UnpackAll(s[..|s| - 1]) + Unpack(s[|s| - 1])
  }

  function Digest(message: seq<octet>): (r: seq<octet>)
    ensures |r| == 32
  {
    UnpackAll(HashBlocks(Padded(message)))
  }

  // ---------------------------------------------------------------- the rewritten formulas

  // `rr32(x, y)` is `(x >> y) | (x << (32 - y))`, written out here for each amount in use. Every
  // parenthesised group of the original expressions is one method, so that callers see only its meaning.

  lemma ChooseRewritten(x: word, y: word, z: word)
    ensures z ^ (x & (y ^ z)) == Ch(x, y, z)
  {
  }

  lemma MajorityRewritten(a: word, b: word, c: word)
    ensures (a & b) | (c & (a | b)) == Maj(a, b, c)
  {
  }

  method RotateGroup0(x: word) returns (r: word)
    ensures r == BigSigma0(x)
  {
    r := ((x >> 2) | (x << 30)) ^ ((x >> 13) | (x << 19)) ^ ((x >> 22) | (x << 10));
  }

  method RotateGroup1(x: word) returns (r: word)
    ensures r == BigSigma1(x)
  {
    r := ((x >> 6) | (x << 26)) ^ ((x >> 11) | (x << 21)) ^ ((x >> 25) | (x << 7));
  }

  method ScheduleGroup0(x: word) returns (r: word)
    ensures r == SmallSigma0(x)
  {
    r := ((x >> 7) | (x << 25)) ^ ((x >> 18) | (x << 14)) ^ (x >> 3);
  }

  method ScheduleGroup1(x: word) returns (r: word)
    ensures r == SmallSigma1(x)
  {
    r := ((x >> 17) | (x << 15)) ^ ((x >> 19) | (x << 13)) ^ (x >> 10);
  }

  method Choose(x: word, y: word, z: word) returns (r: word)
    ensures r == Ch(x, y, z)
  {
    ChooseRewritten(x, y, z);
    r := z ^ (x & (y ^ z));
  }

  method Majority(a: word, b: word, c: word) returns (r: word)
    ensures r == Maj(a, b, c)
  {
    MajorityRewritten(a, b, c);
    r := (a & b) | (c & (a | b));
  }

  lemma UnpackPack(b0: octet, b1: octet, b2: octet, b3: octet)
    ensures Unpack(Pack(b0, b1, b2, b3)) == [b0, b1, b2, b3]
  {
  }

  // ---------------------------------------------------------------- one block

  ghost predicate HoldsRegisters(s: seq<word>, r: Registers)
  {
    |s| == 8 && s[0] == r.a && s[1] == r.b && s[2] == r.c && s[3] == r.d
    && s[4] == r.e && s[5] == r.f && s[6] == r.g && s[7] == r.h
  }

  lemma PlusCommutes(a: word, b: word)
    ensures Plus(a, b) == Plus(b, a)
  {
  }

  lemma PlusIs(a: word, b: word)
    ensures Plus(a, b) == a + b
  {
  }

  lemma WordsAssociate(a: word, b: word, c: word)
    ensures Plus(a + b, c) == Plus(a, b + c)
  {
  }

  lemma SumAssociates(a: word, b: word, c: word)
    ensures Plus(Plus(a, b), c) == Plus(a, Plus(b, c))
  {
    hide Plus;
    PlusIs(a, b);
    PlusIs(b, c);
    WordsAssociate(a, b, c);
  }

  lemma SumReordered(a: word, b: word, c: word, d: word)
    ensures Plus(Plus(Plus(a, b), c), d) == Plus(Plus(Plus(d, c), b), a)
  {
    hide Plus;
    PlusCommutes(a, b);
    PlusCommutes(Plus(Plus(a, b), c), d);
    PlusCommutes(Plus(b, a), c);
    SumAssociates(c, b, a);
    SumAssociates(d, c, Plus(b, a));
    SumAssociates(Plus(d, c), b, a);
  }

  /** One step of the schedule. */
  lemma ScheduleAt(block: seq<octet>, t: nat)
    requires |block| == 64 && t < 64
    ensures t < 16 ==> Schedule(block, t) == Pack(block[4 * t], block[4 * t + 1], block[4 * t + 2], block[4 * t + 3])
    ensures t >= 16 ==>
              Schedule(block, t) == Plus(Plus(Plus(SmallSigma1(Schedule(block, t - 2)), Schedule(block, t - 7)),
                                              SmallSigma0(Schedule(block, t - 15))), Schedule(block, t - 16))
  {
    hide Plus, SmallSigma0, SmallSigma1, Pack;
  }

  method ExpandBlock(data: seq<octet>) returns (w: seq<word>)
    requires |data| == 64
    ensures |w| == 64 && forall t | 0 <= t < 64 :: w[t] == Schedule(data, t)
  {
    hide Plus, SmallSigma0, SmallSigma1, Pack, Schedule;
    w := [];
    for i := 0 to 16
      invariant |w| == i && forall t | 0 <= t < i :: w[t] == Schedule(data, t)
    {
      ScheduleAt(data, i);
      w := w + [Pack(data[4 * i], data[4 * i + 1], data[4 * i + 2], data[4 * i + 3])];
    }
    for i := 16 to 64
      invariant |w| == i && forall t | 0 <= t < i :: w[t] == Schedule(data, t)
    {
      ScheduleAt(data, i);
      var sigma0 := ScheduleGroup0(w[i - 15]);
      var sigma1 := ScheduleGroup1(w[i - 2]);
      SumReordered(w[i - 16], sigma0, w[i - 7], sigma1);
      w := w + [Plus(Plus(Plus(w[i - 16], sigma0), w[i - 7]), sigma1)];
    }
  }

  /** One round on the eight registers shifted in place. */
  method RoundInPlace(s: array<word>, k: word, w: word, ghost r: Registers)
    requires s.Length == 8 && HoldsRegisters(s[..], r)
    modifies s
    ensures HoldsRegisters(s[..], Round(r, k, w))
  {
    hide Plus, BigSigma0, BigSigma1, Ch, Maj;
    var sigma1 := RotateGroup1(s[4]);
    var choose := Choose(s[4], s[5], s[6]);
    var t := Plus(Plus(Plus(Plus(s[7], sigma1), choose), k), w);
    s[7] := s[6];
    s[6] := s[5];
    s[5] := s[4];
    s[4] := Plus(s[3], t);
    s[3] := s[2];
    s[2] := s[1];
    s[1] := s[0];
    var sigma0 := RotateGroup0(s[1]);
    var majority := Majority(s[1], s[2], s[3]);
    SumAssociates(t, sigma0, majority);
    s[0] := Plus(Plus(t, sigma0), majority);
  }

  // ---------------------------------------------------------------- the streaming context

  lemma {:induction false} HashAppend(data: seq<octet>, block: seq<octet>)
    requires |data| % 64 == 0 && |block| == 64
    ensures HashBlocks(data + block) == Compress(HashBlocks(data), block)
  {
    hide Compress;
    var all := data + block;
    assert all[..|all| - 64] == data && all[|all| - 64..] == block;
  }

  /** The part of a message that fills whole blocks, and the rest. */
  function Whole(message: seq<octet>): (r: seq<octet>)
    ensures |r| % 64 == 0 && |r| <= |message|
  {
    message[..|message| - |message| % 64]
  }

  function Tail(message: seq<octet>): (r: seq<octet>)
    ensures |r| == |message| % 64
  {
    message[|message| - |message| % 64..]
  }

  lemma RemainderGrows(n: nat, k: nat)
    requires n % 64 + k < 64
    ensures (n + k) % 64 == n % 64 + k
  {
  }

  lemma TailGrows(message: seq<octet>, piece: seq<octet>)
    requires |message| % 64 + |piece| < 64
    ensures Whole(message + piece) == Whole(message) && Tail(message + piece) == Tail(message) + piece
  {
    RemainderGrows(|message|, |piece|);
    var cut := |message| - |message| % 64;
    assert |message + piece| - |message + piece| % 64 == cut;
    assert (message + piece)[..cut] == message[..cut];
    assert (message + piece)[cut..] == message[cut..] + piece;
  }

  lemma BlockFills(message: seq<octet>, piece: seq<octet>)
    requires |message| % 64 + |piece| == 64
    ensures Whole(message + piece) == Whole(message) + (Tail(message) + piece) && Tail(message + piece) == []
    ensures HashBlocks(Whole(message + piece)) == Compress(HashBlocks(Whole(message)), Tail(message) + piece)
  {
    hide Compress;
    assert message + piece == Whole(message) + (Tail(message) + piece);
    HashAppend(Whole(message), Tail(message) + piece);
  }

  /** The chaining value and the buffered bytes that stand for `message`. */
  ghost predicate Holds(h: seq<word>, buf: seq<octet>, pos: nat, message: seq<octet>)
  {
    && |h| == 8 && |buf| == 64 && pos == |message| % 64
    && h == HashBlocks(Whole(message)) && buf[..pos] == Tail(message)
  }

  lemma HoldsBlock(h: seq<word>, buf: seq<octet>, message: seq<octet>, block: seq<octet>)
    requires Holds(h, buf, 0, message) && |block| == 64
    ensures Holds(Compress(h, block), buf, 0, message + block)
  {
    hide Compress, HashBlocks;
    BlockFills(message, block);
    assert Tail(message) + block == block;
  }

  lemma HoldsPiece(h: seq<word>, buf: seq<octet>, pos: nat, message: seq<octet>, piece: seq<octet>, after: seq<octet>)
    requires Holds(h, buf, pos, message) && |after| == 64 && pos + |piece| < 64
    requires after[..pos + |piece|] == buf[..pos] + piece
    ensures Holds(h, after, pos + |piece|, message + piece)
  {
    hide HashBlocks;
    TailGrows(message, piece);
  }

  lemma HoldsFull(h: seq<word>, buf: seq<octet>, pos: nat, message: seq<octet>, piece: seq<octet>, after: seq<octet>)
    requires Holds(h, buf, pos, message) && |after| == 64 && pos + |piece| == 64
    requires after == buf[..pos] + piece
    ensures Holds(Compress(h, after), after, 0, message + piece)
  {
    hide Compress, HashBlocks;
    BlockFills(message, piece);
  }

  const TWO64 := 0x1_0000_0000_0000_0000

  class Context {
    var h: array<word>
    var buf: array<octet>
    var length: nat

    /** Everything fed in since the start. */
    ghost var fed: seq<octet>

    ghost predicate Valid()
      reads this, h, buf
    {
      && h.Length == 8 && buf.Length == 64
      && length == |fed| % TWO64
      && Holds(h[..], buf[..], |fed| % 64, fed)
    }

    /** `sha256_start`. */
    constructor ()
      ensures Valid() && fed == [] && fresh(h) && fresh(buf)
    {
      h := new word[8](i requires 0 <= i < 8 => H0[i]);
      buf := new octet[64](_ => 0);
      length := 0;
      fed := [];
      new;
      assert h[..] == H0;
    }

    /** `sha256_process`: one block into the chaining value. */
    method Process(data: seq<octet>)
      requires |data| == 64 && h.Length == 8
      modifies h
      ensures h[..] == Compress(old(h[..]), data)
    {
      hide Plus, Rounds;
      ghost var before := h[..];
      var s := AllRounds(h[..], data);
      AddRegisters(s[..]);
    }

    /** The last loop of `sha256_process`. */
    method AddRegisters(s: seq<word>)
      requires h.Length == 8 && |s| == 8
      modifies h
      ensures forall j | 0 <= j < 8 :: h[j] == Plus(old(h[j]), s[j])
    {
      hide Plus;
      for i := 0 to 8
        modifies h
        invariant forall j | 0 <= j < 8 :: h[j] == if j < i then Plus(old(h[j]), s[j]) else old(h[j])
      {
        h[i] := Plus(h[i], s[i]);
      }
    }

    static method AllRounds(start: seq<word>, data: seq<octet>) returns (s: array<word>)
      requires |data| == 64 && |start| == 8
      ensures fresh(s) && HoldsRegisters(s[..], Rounds(FromWords(start), data, 64))
    {
      hide Round, Schedule;
      s := new word[8](i requires 0 <= i < 8 => start[i]);
      assert s[..] == start;
      ghost var r := FromWords(start);
      var w := ExpandBlock(data);
      for i := 0 to 64
        invariant s.Length == 8 && HoldsRegisters(s[..], Rounds(r, data, i))
      {
        RoundInPlace(s, K(i), w[i], Rounds(r, data, i));
      }
    }

    /** `sha256_update`; `input` comes with a 64-bit length. */
    method Update(input: seq<octet>)
      requires Valid() && |input| < TWO64
      modifies this, h, buf
      ensures Valid() && fed == old(fed) + input && h == old(h) && buf == old(buf)
    {
      hide Holds, Compress;
      LengthWraps(|fed|, |input|);
      PositionSurvives(|fed|);
      var pos: nat := length % 64;
      length := (length + |input|) % TWO64;
      var off := 0;
      assert fed + input[..0] == fed;
      while off < |input|
        modifies h, buf
        invariant 0 <= off <= |input| && h.Length == 8 && buf.Length == 64 && pos < 64
        invariant Holds(h[..], buf[..], pos, fed + input[..off])
        decreases |input| - off
      {
        ghost var done := fed + input[..off];
        var left := |input| - off;
        if left >= 64 && pos == 0 {
          assert fed + input[..off + 64] == done + input[off..off + 64];
          HoldsBlock(h[..], buf[..], done, input[off..off + 64]);
          Process(input[off..off + 64]);
          off := off + 64;
        } else {
          var n := if left < 64 - pos then left else 64 - pos;
          assert fed + input[..off + n] == done + input[off..off + n];
          pos := Store(pos, input[off..off + n], done);
          off := off + n;
        }
      }
      assert fed + input[..|input|] == fed + input;
      fed := fed + input;
      assert pos == |fed| % 64 by { assert Holds(h[..], buf[..], pos, fed); HoldsPosition(h[..], buf[..], pos, fed); }
    }

    /** The zeroing loops of `sha256_finish`. */
    method FillZeros(from: nat, limit: nat)
      requires h.Length == 8 && buf.Length == 64 && from <= limit <= 64
      modifies buf
      ensures buf[..limit] == old(buf[..from]) + Zeros(limit - from)
      ensures h[..] == old(h[..])
    {
      ghost var chain := h[..];
      var pos := from;
      while pos < limit
        invariant from <= pos <= limit && h[..] == chain
        invariant buf[..pos] == old(buf[..from]) + Zeros(pos - from)
      {
        buf[pos] := 0;
        pos := pos + 1;
        assert buf[..pos] == buf[..pos - 1] + [0];
        assert Zeros(pos - from) == Zeros(pos - 1 - from) + [0];
      }
    }

    /** The one bit, and a block of its own for the padding when the length does not fit behind it.
        `lead` is what of the padding has been written to the block now being filled. */
    method StartPadding(ghost message: seq<octet>, tail: nat)
      returns (pos: nat, ghost done: seq<octet>, ghost lead: seq<octet>, ghost start: seq<octet>)
      requires h.Length == 8 && buf.Length == 64 && tail < 64 && Holds(h[..], buf[..], tail, message)
      modifies h, buf
      ensures pos <= 56 && |start| == 64 && |lead| <= pos && Holds(h[..], start, pos - |lead|, done)
      ensures buf[..pos] == start[..pos - |lead|] + lead
      ensures if tail + 1 <= 56 then pos == tail + 1 && done == message && lead == [0x80]
              else pos == 0 && done == message + ([0x80] + Zeros(64 - (tail + 1))) && lead == []
    {
      hide Holds, Compress;
      start, done, lead := buf[..], message, [0x80];
      ghost var chain := h[..];
      buf[tail] := 0x80;
      pos := tail + 1;
      assert h[..] == chain;
      assert buf[..pos] == start[..tail] + [0x80];
      if pos > 56 {
        FillZeros(pos, 64);
        ghost var piece := [0x80] + Zeros(64 - pos);
        assert buf[..] == buf[..64];
        assert buf[..] == start[..tail] + piece;
        HoldsFull(h[..], start, tail, message, piece, buf[..]);
        Process(buf[..]);
        start, done, lead := buf[..], message + piece, [];
        pos := 0;
      }
    }

    /** The last block: zeros up to the length field, the length, and the final compression. */
    method EndPadding(pos: nat, field: seq<octet>, ghost done: seq<octet>, ghost lead: seq<octet>,
                      ghost start: seq<octet>)
      requires h.Length == 8 && buf.Length == 64 && |field| == 8
      requires pos <= 56 && |start| == 64 && |lead| <= pos && Holds(h[..], start, pos - |lead|, done)
      requires buf[..pos] == start[..pos - |lead|] + lead
      modifies h, buf
      ensures Holds(h[..], buf[..], 0, done + (lead + Zeros(56 - pos) + field))
    {
      hide Holds, Compress;
      ghost var chain := h[..];
      FillZeros(pos, 56);
      ghost var zeroed := buf[..56];
      forall i | 0 <= i < 8 {
        buf[56 + i] := field[i];
      }
      assert h[..] == chain;
      ghost var piece := lead + Zeros(56 - pos) + field;
      assert buf[..] == zeroed + field;
      assert buf[..] == start[..pos - |lead|] + piece;
      HoldsFull(h[..], start, pos - |lead|, done, piece, buf[..]);
      Process(buf[..]);
    }

    /** `sha256_finish`: padding, the length in bits, and the digest. */
    method Finish() returns (digest: seq<octet>)
      requires Valid()
      modifies h, buf
      ensures |fed| < 0x2000_0000_0000_0000 ==> digest == Digest(fed)
    {
      hide Holds, Compress, HashBlocks, Padded, Word;
      PositionSurvives(|fed|);
      var high := Word(length / 0x2000_0000);
      var low := Word(length * 8 % TWO64);
      var tail: nat := length % 64;
      var pos, done, lead, start := StartPadding(fed, tail);
      EndPadding(pos, Unpack(high) + Unpack(low), done, lead, start);
      digest := [];
      ghost var result := h[..];
      for i := 0 to 8
        invariant digest == UnpackAll(result[..i])
      {
        assert result[..i + 1][..i] == result[..i];
        digest := digest + Unpack(h[i]);
      }
      if |fed| < 0x2000_0000_0000_0000 {
        LengthField(|fed|);
        PaddingPieces(fed, done, lead, pos);
        HoldsWhole(h[..], buf[..], Padded(fed));
        assert result[..8] == result;
      }
    }

    /** Copies a piece behind the buffered bytes and processes the buffer if that fills it. */
    method Store(pos: nat, piece: seq<octet>, ghost done: seq<octet>) returns (next: nat)
      requires h.Length == 8 && buf.Length == 64 && pos + |piece| <= 64 && pos < 64
      requires Holds(h[..], buf[..], pos, done)
      modifies h, buf
      ensures next < 64 && Holds(h[..], buf[..], next, done + piece)
    {
      hide Holds, Compress;
      ghost var before, chain := buf[..], h[..];
      forall i | 0 <= i < |piece| {
        buf[pos + i] := piece[i];
      }
      assert h[..] == chain;
      next := pos + |piece|;
      assert buf[..next] == before[..pos] + piece;
      if next == 64 {
        assert buf[..] == buf[..64];
        HoldsFull(h[..], before, pos, done, piece, buf[..]);
        Process(buf[..]);
        next := 0;
      } else {
        HoldsPiece(h[..], before, pos, done, piece, buf[..]);
      }
    }
  }

  lemma HoldsPosition(h: seq<word>, buf: seq<octet>, pos: nat, message: seq<octet>)
    requires Holds(h, buf, pos, message)
    ensures pos == |message| % 64
  {
  }

  /** Conversion to a 32-bit word. */
  function Word(n: nat): word
  {
    Pack(Octet(n / 0x100_0000), Octet(n / 0x1_0000), Octet(n / 0x100), Octet(n))
  }

  lemma UnpackWord(n: nat)
    ensures Unpack(Word(n)) == [Octet(n / 0x100_0000), Octet(n / 0x1_0000), Octet(n / 0x100), Octet(n)]
  {
    UnpackPack(Octet(n / 0x100_0000), Octet(n / 0x1_0000), Octet(n / 0x100), Octet(n));
  }

  /** The two truncated halves are the 64-bit length in bits. */
  lemma LengthField(n: nat)
    requires n < 0x2000_0000_0000_0000
    ensures Unpack(Word(n % TWO64 / 0x2000_0000)) + Unpack(Word(n % TWO64 * 8 % TWO64)) == BigEndian64(8 * n)
  {
    hide Octet, Word, Unpack;
    UnpackWord(n / 0x2000_0000);
    UnpackWord(n * 8);
    assert n % TWO64 == n && n * 8 % TWO64 == n * 8;
    HighBytes(n);
  }

  lemma HighBytes(n: nat)
    ensures n / 0x2000_0000 / 0x100_0000 == 8 * n / 0x100_0000_0000_0000
    ensures n / 0x2000_0000 / 0x1_0000 == 8 * n / 0x1_0000_0000_0000
    ensures n / 0x2000_0000 / 0x100 == 8 * n / 0x100_0000_0000
    ensures n / 0x2000_0000 == 8 * n / 0x1_0000_0000
  {
  }

  lemma ZerosAppend(a: nat, b: nat)
    ensures Zeros(a) + Zeros(b) == Zeros(a + b)
  {
  }

  lemma PaddingPieces(message: seq<octet>, done: seq<octet>, lead: seq<octet>, pos: nat)
    requires var tail := |message| % 64;
             if tail + 1 <= 56 then pos == tail + 1 && done == message && lead == [0x80]
             else pos == 0 && done == message + ([0x80] + Zeros(64 - (tail + 1))) && lead == []
    ensures done + (lead + Zeros(56 - pos) + BigEndian64(8 * |message|)) == Padded(message)
  {
    hide BigEndian64, Zeros;
    var tail := |message| % 64;
    var field := BigEndian64(8 * |message|);
    if tail + 1 <= 56 {
      assert ZeroCount(|message|) == 56 - pos;
    } else {
      assert ZeroCount(|message|) == (64 - (tail + 1)) + 56;
      ZerosAppend(64 - (tail + 1), 56);
    }
  }

  lemma HoldsWhole(h: seq<word>, buf: seq<octet>, message: seq<octet>)
    requires Holds(h, buf, 0, message)
    ensures h == HashBlocks(message)
  {
    hide HashBlocks;
    assert Whole(message) == message;
  }

  lemma LengthWraps(n: nat, k: nat)
    ensures (n % TWO64 + k) % TWO64 == (n + k) % TWO64
  {
    var q, r := n / TWO64, n % TWO64;
    var d, e := (r + k) / TWO64, (r + k) % TWO64;
    assert n + k == (q + d) * TWO64 + e;
  }

  lemma PositionSurvives(n: nat)
    ensures n % TWO64 % 64 == n % 64
  {
    var q, r := n / TWO64, n % TWO64;
    var a, b := r / 64, r % 64;
    assert n == (q * 0x400_0000_0000_0000 + a) * 64 + b;
  }

  function Joined(pieces: seq<seq<octet>>): (r: seq<octet>)
  {
    if pieces == [] then [] else Joined(pieces[..|pieces| - 1]) + pieces[|pieces| - 1]
  }

  /** Start, any number of updates, finish: the digest does not depend on how the message was cut up. */
  method HashPieces(pieces: seq<seq<octet>>) returns (digest: seq<octet>)
    requires |Joined(pieces)| < 0x2000_0000_0000_0000
    ensures digest == Digest(Joined(pieces))
  {
    hide Digest;
    var ctx := new Context();
    for i := 0 to |pieces|
      invariant ctx.Valid() && fresh(ctx) && fresh(ctx.h) && fresh(ctx.buf)
      invariant ctx.fed == Joined(pieces[..i])
    {
      PieceFits(pieces, i);
      assert pieces[..i + 1][..i] == pieces[..i];
      ctx.Update(pieces[i]);
    }
    assert pieces[..|pieces|] == pieces;
    digest := ctx.Finish();
  }

  lemma {:induction false} PieceFits(pieces: seq<seq<octet>>, i: nat)
    requires i < |pieces|
    ensures |pieces[i]| <= |Joined(pieces)|
  {
    var n := |pieces| - 1;
    if i < n {
      PieceFits(pieces[..n], i);
    }
  }
}
