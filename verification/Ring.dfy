/** The power-of-two ring buffers of src/socket.cpp and what one does to a queue of bytes. */
module Rings {
  import opened Bytes

  // ---------------------------------------------------------------- masks

  ghost predicate PowerOfTwo(n: nat)
  {
    n == 1 || (n >= 2 && n % 2 == 0 && PowerOfTwo(n / 2))
  }

  /** Bitwise and. */
  function BitAnd(a: nat, b: nat): (r: nat)
  {
    if a == 0 || b == 0 then 0
    else (if a % 2 == 1 && b % 2 == 1 then 1 else 0) + 2 * BitAnd(a / 2, b / 2)
  }

  /** `size` after `n` turns of the loop of the buffer-size test. */
  function Shifted(size: nat, n: nat): (r: nat)
  {
    if n == 0 then size else Shifted(size, n - 1) / 2
  }

  lemma {:induction false} ShiftedFront(size: nat, n: nat)
    ensures Shifted(size, n + 1) == Shifted(size / 2, n)
  {
    if n > 0 {
      ShiftedFront(size, n - 1);
    }
  }

  lemma {:induction false} ZeroStaysZero(n: nat)
    ensures Shifted(0, n) == 0
  {
    if n > 0 {
      ZeroStaysZero(n - 1);
    }
  }

  lemma {:induction false} SomeBitIsLast(size: nat) returns (n: nat)
    requires size != 0
    ensures Shifted(size, n) % 2 == 1
  {
    if size % 2 == 1 {
      n := 0;
    } else {
      var k := SomeBitIsLast(size / 2);
      ShiftedFront(size, k);
      n := k + 1;
    }
  }

  /** The buffer-size test comes to an end exactly if the size is not 0. */
  lemma StopsUnlessZero(size: nat)
    ensures (exists n: nat :: Shifted(size, n) % 2 == 1) <==> size != 0
  {
    if size == 0 {
      forall n: nat
        ensures Shifted(size, n) % 2 == 0
      {
        ZeroStaysZero(n);
      }
    } else {
      var n := SomeBitIsLast(size);
    }
  }

  datatype Test = Running | Accepted | Refused

  /** The buffer-size test after so many turns, if it has not come to an end before. */
  method AssertPowerOfTwo(size: nat, turns: nat) returns (test: Test)
    ensures test == Running <==> forall n: nat | n < turns :: Shifted(size, n) % 2 == 0
    ensures test == Accepted ==> PowerOfTwo(size)
    ensures test == Refused ==> !PowerOfTwo(size) && size > 0
  {
    var rest := size;
    for turn := 0 to turns
      invariant rest == Shifted(size, turn)
      invariant size > 0 <==> rest > 0
      invariant PowerOfTwo(size) <==> PowerOfTwo(rest)
      invariant forall n: nat | n < turn :: Shifted(size, n) % 2 == 0
    {
      if rest % 2 != 0 {
        return if rest > 1 then Refused else Accepted;
      }
      rest := rest / 2;
    }
    return Running;
  }

  /** An index before or just past one lap of a buffer of length `n`. */
  function Wrap(p: nat, n: nat): (r: nat)
    requires p < 2 * n
    ensures r < n
  {
    if p < n then p else p - n
  }

  /** Masking with a power of two less one wraps an index, which is what keeps the positions inside. */
  lemma {:induction false} MaskWraps(p: nat, n: nat)
    requires PowerOfTwo(n) && p < 2 * n
    ensures BitAnd(p, n - 1) == Wrap(p, n)
  {
    if n > 1 {
      MaskWraps(p / 2, n / 2);
      assert (n - 1) / 2 == n / 2 - 1 && (n - 1) % 2 == 1;
    }
  }

  // ---------------------------------------------------------------- one ring

  /** `n` bytes of a ring, starting after position `gpos`. */
  ghost function Queue(buf: seq<byte>, gpos: nat, n: nat): (q: seq<byte>)
    requires gpos < |buf| && n <= |buf|
    ensures |q| == n
  {
    seq(n, i requires 0 <= i < n => buf[Wrap(gpos + 1 + i, |buf|)])
  }

  lemma QueueAt(buf: seq<byte>, gpos: nat, n: nat, i: nat)
    requires gpos < |buf| && i < n <= |buf|
    ensures Queue(buf, gpos, n)[i] == buf[Wrap(gpos + 1 + i, |buf|)]
  {
  }

  lemma QueuePut(buf: seq<byte>, gpos: nat, n: nat, b: byte)
    requires gpos < |buf| && n < |buf|
    ensures Queue(buf[Wrap(gpos + n + 1, |buf|) := b], gpos, n + 1) == Queue(buf, gpos, n) + [b]
  {
    var after := buf[Wrap(gpos + n + 1, |buf|) := b];
    forall i | 0 <= i < n
      ensures Queue(after, gpos, n + 1)[i] == Queue(buf, gpos, n)[i]
    {
      assert Wrap(gpos + 1 + i, |buf|) != Wrap(gpos + n + 1, |buf|);
    }
  }

  lemma QueueSkip(buf: seq<byte>, gpos: nat, k: nat, n: nat)
    requires gpos < |buf| && k <= n <= |buf|
    ensures Queue(buf, Wrap(gpos + k, |buf|), n - k) == Queue(buf, gpos, n)[k..]
  {
    var front, back := Queue(buf, Wrap(gpos + k, |buf|), n - k), Queue(buf, gpos, n)[k..];
    forall i | 0 <= i < n - k
      ensures front[i] == back[i]
    {
      assert Wrap(Wrap(gpos + k, |buf|) + 1 + i, |buf|) == Wrap(gpos + 1 + (k + i), |buf|);
      assert back[i] == Queue(buf, gpos, n)[k + i];
    }
  }

  lemma QueueFront(buf: seq<byte>, gpos: nat, n: nat, i: nat)
    requires gpos < |buf| && i < n <= |buf|
    ensures Wrap(Wrap(gpos + i, |buf|) + 1, |buf|) == Wrap(gpos + (i + 1), |buf|)
    ensures buf[Wrap(gpos + (i + 1), |buf|)] == Queue(buf, gpos, n)[i]
  {
    assert gpos + 1 + i == gpos + (i + 1);
  }

  const CHUNK := 8192

  class Ring {
    var buf: array<byte>
    var gpos: nat
    var ppos: nat
    var used: nat

    ghost predicate Valid()
      reads this, buf
    {
      && PowerOfTwo(buf.Length)
      && gpos < buf.Length && ppos < buf.Length && used <= buf.Length
      && ppos == Wrap(gpos + used, buf.Length)
    }

    /** The bytes put and not yet taken, oldest first. */
    ghost function Contents(): (q: seq<byte>)
      requires Valid()
      reads this, buf
      ensures |q| == used
    {
      Queue(buf[..], gpos, used)
    }

    constructor (size: nat)
      requires PowerOfTwo(size)
      ensures Valid() && Contents() == [] && buf.Length == size && fresh(buf) && gpos == 0 && buf[0] == 0
    {
      buf := new byte[size](_ => 0);
      gpos, ppos, used := 0, 0, 0;
    }

    function Remaining(): (n: nat)
      requires Valid()
      reads this, buf
      ensures n == buf.Length - |Contents()|
    {
      buf.Length - used
    }

    /** The byte-by-byte store loop that `Send`, `DoRecv` and the second upload lane share. */
    method Append(data: seq<byte>)
      requires Valid() && |data| <= Remaining()
      modifies this, buf
      ensures Valid() && buf == old(buf) && gpos == old(gpos)
      ensures Contents() == old(Contents()) + data
      ensures old(gpos + used) + |data| < buf.Length ==> buf[0] == old(buf[0])
    {
      hide PowerOfTwo, Queue, Wrap;
      ghost var q := Contents();
      for i := 0 to |data|
        invariant PowerOfTwo(buf.Length) && gpos < buf.Length && used + |data| <= buf.Length
        invariant ppos == Wrap(gpos + (used + i), buf.Length)
        invariant buf == old(buf) && used == old(used) && gpos == old(gpos)
        invariant Queue(buf[..], gpos, used + i) == q + data[..i]
        invariant gpos + used + |data| < buf.Length ==> buf[0] == old(buf[0])
      {
        Put(data[i], used + i);
        assert data[..i + 1] == data[..i] + [data[i]];
        assert q + data[..i] + [data[i]] == q + data[..i + 1];
      }
      used := used + |data|;
      assert data[..|data|] == data;
    }

    /** The byte goes behind `n` others. */
    method Put(b: byte, n: nat)
      requires PowerOfTwo(buf.Length) && gpos < buf.Length && n < buf.Length && ppos == Wrap(gpos + n, buf.Length)
      modifies this`ppos, buf
      ensures ppos == Wrap(gpos + (n + 1), buf.Length)
      ensures Queue(buf[..], gpos, n + 1) == old(Queue(buf[..], gpos, n)) + [b]
      ensures gpos + n + 1 < buf.Length ==> buf[0] == old(buf[0])
    {
      hide PowerOfTwo, BitAnd, Queue;
      QueuePut(buf[..], gpos, n, b);
      MaskWraps(ppos + 1, buf.Length);
      ppos := BitAnd(ppos + 1, buf.Length - 1);
      ghost var before := buf[..];
      buf[ppos] := b;
      assert buf[..] == before[ppos := b];
    }

    /** The byte-by-byte fetch loop: copies `n` bytes out and advances `gpos`, leaving `used` alone. */
    method Fetch(n: nat) returns (bytes: seq<byte>)
      requires Valid() && n <= used
      modifies this`gpos
      ensures bytes == old(Contents())[..n]
      ensures gpos == Wrap(old(gpos) + n, buf.Length)
    {
      bytes := [];
      for i := 0 to n
        invariant gpos == Wrap(old(gpos) + i, buf.Length)
        invariant bytes == old(Contents())[..i]
      {
        QueueFront(buf[..], old(gpos), used, i);
        MaskWraps(gpos + 1, buf.Length);
        gpos := BitAnd(gpos + 1, buf.Length - 1);
        bytes := bytes + [buf[gpos]];
      }
    }

    /** Takes up to `length` bytes from the front. */
    method Recv(length: nat) returns (ret: seq<byte>)
      requires Valid()
      modifies this`gpos, this`used
      ensures Valid()
      ensures |ret| == (if length <= |old(Contents())| then length else |old(Contents())|)
      ensures old(Contents()) == ret + Contents()
    {
      var n := if length <= used then length else used;
      QueueSkip(buf[..], gpos, n, used);
      ret := Fetch(n);
      used := used - n;
      assert old(Contents()) == old(Contents())[..n] + old(Contents())[n..];
    }

    /** Hands up to 8192 bytes to the socket, which reports how many it took (negative: an error).
        The read position is moved past everything offered and then set back to what was taken;
        after an error it is left where it was moved to. */
    method DoSend(written: int) returns (ok: bool, ghost wire: seq<byte>)
      requires Valid() && written <= |Contents()| && written <= CHUNK
      modifies this`gpos, this`used
      ensures ok <==> written >= 0
      ensures ok ==> Valid() && old(Contents()) == wire + Contents() && |wire| == written
                     && gpos == Wrap(old(gpos) + written, buf.Length)
      ensures !ok ==> wire == [] && used == old(used)
                      && gpos == Wrap(old(gpos) + Offered(used), buf.Length)
    {
      hide PowerOfTwo, BitAnd, Queue;
      var start := gpos;
      var to_send := Offered(used);
      var chunk := Fetch(to_send);
      if written < 0 {
        return false, [];
      }
      ghost var q := old(Contents());
      wire := chunk[..written];
      QueueSkip(buf[..], start, written, used);
      MaskWraps(start + written, buf.Length);
      gpos := BitAnd(start + written, buf.Length - 1);
      used := used - written;
      assert wire == q[..written];
      assert q == q[..written] + q[written..];
      ok := true;
    }
  }

  function Offered(used: nat): (n: nat)
    ensures n <= used && n <= 8192 && (n == used || n == 8192)
  {
    if used <= CHUNK then used else CHUNK
  }

  /** After a failed send the positions still fit together exactly when nothing was offered, or one full lap
      was. In every other case the ring is broken; all callers close the connection then. */
  lemma FailedSendBreaksRing(n: nat, gpos: nat, ppos: nat, used: nat)
    requires PowerOfTwo(n) && gpos < n && used <= n && ppos == Wrap(gpos + used, n)
    ensures ppos == Wrap(Wrap(gpos + Offered(used), n) + used, n)
            <==> used == 0 || (used == n && n <= CHUNK)
  {
  }

  /** Three bytes in a ring of eight: after the failed write its two positions lie together as in an empty one, and the
      count still says three. */
  lemma ThreeBytesAreBroken()
    ensures PowerOfTwo(8) && 3 == Wrap(0 + 3, 8)
    ensures Wrap(0 + Offered(3), 8) == 3 && 3 != Wrap(3 + 3, 8)
  {
    assert PowerOfTwo(2) && PowerOfTwo(4);
  }
}
