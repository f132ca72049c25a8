/** The scrambling cipher of src/packet.cpp: run reversal, interleaving and byte masking. */
module PacketCipher {
  import opened Bytes

  const INIT: byte := 255

  // ---------------------------------------------------------------- run reversal

  ghost function Multiples(m: byte): set<byte>
    requires m != 0
  {
    set c: byte | c % m == 0
  }

  /** `s[lo..hi]` is a maximal run of members of `S`. */
  ghost predicate IsRun(s: seq<byte>, S: set<byte>, lo: int, hi: int)
  {
    && 0 <= lo < hi <= |s|
    && (forall k | lo <= k < hi :: s[k] in S)
    && (lo > 0 ==> s[lo - 1] !in S)
    && (hi < |s| ==> s[hi] !in S)
  }

  lemma {:induction false} RunStart(s: seq<byte>, S: set<byte>, i: nat) returns (lo: nat)
    requires i < |s| && s[i] in S
    ensures lo <= i && (forall k | lo <= k <= i :: s[k] in S)
    ensures lo > 0 ==> s[lo - 1] !in S
  {
    lo := i;
    if i > 0 && s[i - 1] in S {
      lo := RunStart(s, S, i - 1);
    }
  }

  lemma {:induction false} RunEnd(s: seq<byte>, S: set<byte>, i: nat) returns (hi: nat)
    requires i < |s| && s[i] in S
    ensures i < hi <= |s| && (forall k | i <= k < hi :: s[k] in S)
    ensures hi < |s| ==> s[hi] !in S
    decreases |s| - i
  {
    hi := i + 1;
    if i + 1 < |s| && s[i + 1] in S {
      hi := RunEnd(s, S, i + 1);
    }
  }

  lemma RunAround(s: seq<byte>, S: set<byte>, i: nat)
    requires i < |s| && s[i] in S
    ensures exists lo, hi :: IsRun(s, S, lo, hi) && lo <= i < hi
  {
    var lo := RunStart(s, S, i);
    var hi := RunEnd(s, S, i);
    assert IsRun(s, S, lo, hi);
  }

  /** The index whose byte ends up at `i`: its mirror image in the run around `i`. */
  ghost function Mirror(s: seq<byte>, S: set<byte>, i: nat): (j: nat)
    requires i < |s|
    ensures j < |s| && (s[j] in S <==> s[i] in S)
  {
    if s[i] !in S then i
    else
      RunAround(s, S, i);
      var lo, hi :| IsRun(s, S, lo, hi) && lo <= i < hi;
      lo + hi - 1 - i
  }

  /** Every maximal run of members of `S` reversed in place, all other bytes untouched. */
  ghost function RunsReversed(s: seq<byte>, S: set<byte>): (w: seq<byte>)
    ensures |w| == |s|
  {
    seq(|s|, i requires 0 <= i < |s| => s[Mirror(s, S, i)])
  }

  /** What DickWinder computes: runs of multiples of `m` reversed, nothing at all for `m == 0`. */
  ghost function Wound(s: seq<byte>, m: byte): (w: seq<byte>)
    ensures |w| == |s|
  {
    if m == 0 then s else RunsReversed(s, Multiples(m))
  }

  lemma RunsUnique(s: seq<byte>, S: set<byte>, lo: int, hi: int, lo': int, hi': int, i: nat)
    requires IsRun(s, S, lo, hi) && IsRun(s, S, lo', hi') && lo <= i < hi && lo' <= i < hi'
    ensures lo == lo' && hi == hi'
  {
  }

  lemma RunsReversedAt(s: seq<byte>, S: set<byte>, lo: int, hi: int, i: nat)
    requires IsRun(s, S, lo, hi) && lo <= i < hi
    ensures RunsReversed(s, S)[i] == s[lo + hi - 1 - i]
  {
    var lo', hi' :| IsRun(s, S, lo', hi') && lo' <= i < hi' && Mirror(s, S, i) == lo' + hi' - 1 - i;
    RunsUnique(s, S, lo, hi, lo', hi', i);
  }

  lemma RunsReversedOutside(s: seq<byte>, S: set<byte>, i: nat)
    requires i < |s|
    ensures RunsReversed(s, S)[i] in S <==> s[i] in S
    ensures s[i] !in S ==> RunsReversed(s, S)[i] == s[i]
  {
  }

  /** A maximal run is reversed and stays a maximal run at the same place. */
  lemma RunReversed(s: seq<byte>, S: set<byte>, lo: int, hi: int)
    requires IsRun(s, S, lo, hi)
    ensures IsRun(RunsReversed(s, S), S, lo, hi)
    ensures RunsReversed(s, S)[lo..hi] == Reversed(s[lo..hi])
  {
    forall i | lo <= i < hi
      ensures RunsReversed(s, S)[i] == s[lo + hi - 1 - i]
    {
      RunsReversedAt(s, S, lo, hi, i);
    }
    if lo > 0 { RunsReversedOutside(s, S, lo - 1); }
    if hi < |s| { RunsReversedOutside(s, S, hi); }
  }

  lemma RunsReversedTwiceAt(s: seq<byte>, S: set<byte>, i: nat)
    requires i < |s|
    ensures RunsReversed(RunsReversed(s, S), S)[i] == s[i]
  {
    hide RunsReversed;
    var w := RunsReversed(s, S);
    if s[i] in S {
      RunAround(s, S, i);
      var lo, hi :| IsRun(s, S, lo, hi) && lo <= i < hi;
      RunReversed(s, S, lo, hi);
      RunsReversedAt(w, S, lo, hi, i);
      RunsReversedAt(s, S, lo, hi, lo + hi - 1 - i);
    } else {
      RunsReversedOutside(s, S, i);
      RunsReversedOutside(w, S, i);
    }
  }

  /** Winding is its own inverse, so the two ends of a connection can share one routine. */
  lemma WoundInvolution(s: seq<byte>, m: byte)
    ensures Wound(Wound(s, m), m) == s
  {
    if m != 0 {
      forall i: nat | i < |s|
        ensures Wound(Wound(s, m), m)[i] == s[i]
      {
        RunsReversedTwiceAt(s, Multiples(m), i);
      }
    }
  }

  /** The winding loop after `i` bytes: finished output plus the run still being collected. */
  ghost predicate Winding(s: seq<byte>, S: set<byte>, i: nat, out: seq<byte>, buffer: seq<byte>)
  {
    && |buffer| <= i <= |s|
    && buffer == s[i - |buffer|..i]
    && (forall b | b in buffer :: b in S)
    && (|buffer| < i ==> s[i - |buffer| - 1] !in S)
    && out == RunsReversed(s, S)[..i - |buffer|]
  }

  lemma WindingCollect(s: seq<byte>, S: set<byte>, i: nat, out: seq<byte>, buffer: seq<byte>)
    requires Winding(s, S, i, out, buffer) && i < |s| && s[i] in S
    ensures Winding(s, S, i + 1, out, buffer + [s[i]])
  {
  }

  lemma WindingEmit(s: seq<byte>, S: set<byte>, i: nat, out: seq<byte>, buffer: seq<byte>)
    requires Winding(s, S, i, out, buffer) && i < |s| && s[i] !in S
    ensures Winding(s, S, i + 1, out + Reversed(buffer) + [s[i]], [])
  {
    WindingFlush(s, S, i, out, buffer);
    RunsReversedOutside(s, S, i);
    var w := RunsReversed(s, S);
    assert w[..i + 1] == w[..i] + [w[i]];
  }

  lemma WindingFlush(s: seq<byte>, S: set<byte>, i: nat, out: seq<byte>, buffer: seq<byte>)
    requires Winding(s, S, i, out, buffer)
    requires i < |s| ==> s[i] !in S
    ensures out + Reversed(buffer) == RunsReversed(s, S)[..i]
  {
    var w, lo := RunsReversed(s, S), i - |buffer|;
    if buffer != [] {
      assert forall k | lo <= k < i :: s[k] == buffer[k - lo];
      RunReversed(s, S, lo, i);
    }
    assert w[..i] == w[..lo] + w[lo..i];
  }

  // ---------------------------------------------------------------- byte masking and interleaving

  /** XOR with 0x80. */
  function Flip(b: byte): (r: byte)
    ensures r != b && r as int % 128 == b as int % 128
  {
    if b < 128 then b + 128 else b - 128
  }

  function SwapZero(b: byte): (r: byte)
  {
    if b == 128 then 0 else if b == 0 then 128 else b
  }

  ghost function Flipped(s: seq<byte>): (r: seq<byte>)
    ensures |r| == |s|
  {
    seq(|s|, i requires 0 <= i < |s| => Flip(s[i]))
  }

  ghost function ZeroSwapped(s: seq<byte>, from: nat): (r: seq<byte>)
    ensures |r| == |s|
  {
    seq(|s|, i requires 0 <= i < |s| => if i < from then s[i] else SwapZero(s[i]))
  }

  /** Front half on the even positions, back half on the odd ones from the right. */
  ghost function Interleaved(b: seq<byte>): (r: seq<byte>)
    ensures |r| == |b|
  {
    seq(|b|, i requires 0 <= i < |b| => if i % 2 == 0 then b[i / 2] else b[|b| - 1 - i / 2])
  }

  ghost function Deinterleaved(e: seq<byte>): (r: seq<byte>)
    ensures |r| == |e|
  {
    seq(|e|, q requires 0 <= q < |e| => if 2 * q < |e| then e[2 * q] else e[2 * |e| - 1 - 2 * q])
  }

  lemma InterleavedAt(b: seq<byte>, q: nat)
    requires q < |b|
    ensures 2 * q < |b| ==> Interleaved(b)[2 * q] == b[q]
    ensures 2 * q >= |b| ==> Interleaved(b)[2 * |b| - 1 - 2 * q] == b[q]
  {
    if 2 * q >= |b| {
      var p := 2 * |b| - 1 - 2 * q;
      assert p % 2 == 1 && p / 2 == |b| - 1 - q;
    }
  }

  /** The receiver's two loops undo the sender's. */
  lemma DeinterleaveInterleave(b: seq<byte>)
    ensures Deinterleaved(Interleaved(b)) == b
  {
    var e := Interleaved(b);
    forall q: nat | q < |b|
      ensures Deinterleaved(e)[q] == b[q]
    {
      InterleavedAt(b, q);
    }
  }

  // ---------------------------------------------------------------- what the two directions compute

  /** A built packet is `length0 length1 action family payload...`. */
  predicate IsInitPacket(p: seq<byte>)
    requires |p| >= 4
  {
    p[2] == INIT && p[3] == INIT
  }

  ghost function Mixed(w: seq<byte>): (r: seq<byte>)
    requires |w| >= 2
    ensures |r| == |w|
  {
    w[..2] + Interleaved(Flipped(w[2..]))
  }

  lemma MixedAt(w: seq<byte>, i: nat, source: nat)
    requires 2 <= i < |w|
    requires source == if i % 2 == 0 then 1 + i / 2 else |w| - 1 - (i - 3) / 2
    ensures source < |w| && Mixed(w)[i] == Flip(w[source])
  {
    var body := Flipped(w[2..]);
    if i % 2 == 0 {
      assert (i - 2) / 2 == source - 2;
    } else {
      assert |body| - 1 - (i - 2) / 2 == source - 2;
    }
    assert Mixed(w)[i] == Interleaved(body)[i - 2] == body[source - 2];
  }

  lemma MixedFromParts(w: seq<byte>, out: seq<byte>, mid: nat)
    requires |out| == |w| >= 2 && 2 * mid - 3 <= |w| <= 2 * mid - 2
    requires out[0] == w[0] && out[1] == w[1]
    requires forall k | 2 <= k < mid :: out[2 * k - 2] == Flip(w[k])
    requires forall k | mid <= k < |w| :: out[2 * (|w| - k) + 1] == Flip(w[k])
    ensures out == Mixed(w)
  {
    forall i | 2 <= i < |w|
      ensures out[i] == Mixed(w)[i]
    {
      var k := if i % 2 == 0 then 1 + i / 2 else |w| - 1 - (i - 3) / 2;
      MixedAt(w, i, k);
      assert w[k] == w[k];
    }
  }

  ghost function Encoded(p: seq<byte>, m: byte): (r: seq<byte>)
    requires |p| >= 4
    ensures |r| == |p|
  {
    if m == 0 || IsInitPacket(p) then p else ZeroSwapped(Mixed(Wound(p, m)), 2)
  }

  ghost function Decoded(body: seq<byte>, m: byte): (r: seq<byte>)
    requires |body| >= 2
    ensures |r| == |body|
  {
    if m == 0 || (body[0] == INIT && body[1] == INIT) then body
    else Wound(ZeroSwapped(Flipped(Deinterleaved(body)), 2), m)
  }

  /** The cipher object of one connection. */
  class PacketProcessor {
    var emulti_e: byte
    var emulti_d: byte

    constructor ()
      ensures emulti_e == 0 && emulti_d == 0
    {
      emulti_e, emulti_d := 0, 0;
    }

    method SetEMulti(e: byte, d: byte)
      modifies this
      ensures emulti_e == e && emulti_d == d
    {
      emulti_e := e;
      emulti_d := d;
    }

    static method DickWinder(str: seq<byte>, emulti: byte) returns (newstr: seq<byte>)
      ensures newstr == Wound(str, emulti)
    {
      if emulti == 0 {
        return str;
      }
      ghost var S := Multiples(emulti);
      newstr := [];
      var buffer: seq<byte> := [];
      for i := 0 to |str|
        invariant Winding(str, S, i, newstr, buffer)
      {
        var c := str[i];
        if c % emulti == 0 {
          WindingCollect(str, S, i, newstr, buffer);
          buffer := buffer + [c];
        } else {
          WindingEmit(str, S, i, newstr, buffer);
          if |buffer| > 0 {
            newstr := newstr + Reversed(buffer);
            buffer := [];
          }
          newstr := newstr + [c];
          assert Winding(str, S, i + 1, newstr, buffer);
        }
      }
      WindingFlush(str, S, |str|, newstr, buffer);
      if |buffer| > 0 {
        newstr := newstr + Reversed(buffer);
      }
    }

    /** The zero/128 exchange that closes both directions. */
    static method SwapZeros(newstr: array<byte>)
      modifies newstr
      ensures newstr[..] == ZeroSwapped(old(newstr[..]), 2)
    {
      var i := 2;
      while i < newstr.Length
        invariant 2 <= i
        invariant forall p | 0 <= p < newstr.Length ::
                    newstr[p] == if 2 <= p < i then SwapZero(old(newstr[p])) else old(newstr[p])
      {
        if newstr[i] == 128 {
          newstr[i] := 0;
        } else if newstr[i] == 0 {
          newstr[i] := 128;
        }
        i := i + 1;
      }
    }

    /** The two filling loops of `Encode`: even positions upwards, then odd ones downwards. */
    static method Mix(str: seq<byte>) returns (newstr: array<byte>)
      requires |str| >= 2
      ensures fresh(newstr) && newstr[..] == Mixed(str)
    {
      var length := |str|;
      newstr := new byte[length];
      newstr[0], newstr[1] := str[0], str[1];
      var i, ii := 2, 2;
      while i < length
        invariant 2 <= i <= length + 1 && i == 2 * ii - 2
        invariant newstr[0] == str[0] && newstr[1] == str[1]
        invariant forall k | 2 <= k < ii :: newstr[2 * k - 2] == Flip(str[k])
      {
        newstr[i] := Flip(str[ii]);
        ii := ii + 1;
        i := i + 2;
      }
      ghost var mid := ii;
      i := length - 1;
      if length % 2 != 0 {
        i := i - 1;
      }
      while i >= 2
        invariant i < length && i == 2 * (length - ii) + 1 && mid <= ii <= length
        invariant newstr[0] == str[0] && newstr[1] == str[1]
        invariant forall k | 2 <= k < mid :: newstr[2 * k - 2] == Flip(str[k])
        invariant forall k | mid <= k < ii :: newstr[2 * (length - k) + 1] == Flip(str[k])
      {
        newstr[i] := Flip(str[ii]);
        ii := ii + 1;
        i := i - 2;
      }
      MixedFromParts(str, newstr[..], mid);
    }

    method Encode(rawstr: seq<byte>) returns (encoded: seq<byte>)
      requires |rawstr| >= 4
      ensures encoded == Encoded(rawstr, emulti_e)
    {
      if emulti_e == 0 || (rawstr[2] == INIT && rawstr[3] == INIT) {
        return rawstr;
      }
      var str := DickWinder(rawstr, emulti_e);
      var newstr := Mix(str);
      SwapZeros(newstr);
      encoded := newstr[..];
    }

    /** Callers check for at least two bytes first; with fewer, the second loop would read
        before the start of the string. */
    method Decode(str: seq<byte>) returns (decoded: seq<byte>)
      requires |str| >= 2
      ensures decoded == Decoded(str, emulti_d)
    {
      if emulti_d == 0 || (str[0] == INIT && str[1] == INIT) {
        return str;
      }
      var length := |str|;
      var newstr := new byte[length];
      var i, ii := 0, 0;
      while i < length
        invariant 0 <= i <= length + 1 && i == 2 * ii
        invariant forall q | 0 <= q < ii :: newstr[q] == Flip(str[2 * q])
      {
        newstr[ii] := Flip(str[i]);
        ii := ii + 1;
        i := i + 2;
      }
      i := i - 1;
      if length % 2 != 0 {
        i := i - 2;
      }
      // A bottom-tested loop: its first pass is always taken.
      var first := true;
      while first || i >= 0
        invariant first ==> i >= 0
        invariant -1 <= i < length && i == 2 * length - 1 - 2 * ii && 2 * ii >= length
        invariant forall q | 0 <= q < ii ::
                    newstr[q] == Flip(if 2 * q < length then str[2 * q] else str[2 * length - 1 - 2 * q])
        decreases i
      {
        first := false;
        newstr[ii] := Flip(str[i]);
        ii := ii + 1;
        i := i - 2;
      }
      assert newstr[..] == Flipped(Deinterleaved(str));
      SwapZeros(newstr);
      decoded := DickWinder(newstr[..], emulti_d);
    }
  }

  // ---------------------------------------------------------------- single bytes

  /** What the mask makes of a byte: the top bit changes, except in 0 and 128, which stay as they are. */
  ghost predicate Masked(b: byte, e: byte)
  {
    if b == 0 || b == 128 then e == b else e != b && e as int % 128 == b as int % 128
  }

  /** Which byte of the wound packet goes out at place `i`, and as what: the header as it is, then front half and back
      half in turn. */
  lemma WireByte(p: seq<byte>, m: byte, i: nat)
    requires |p| >= 4 && m != 0 && !IsInitPacket(p) && i < |p|
    ensures var source := if i < 2 then i else if i % 2 == 0 then 1 + i / 2 else |p| - 1 - (i - 3) / 2;
            && 0 <= source < |p|
            && if i < 2 then Encoded(p, m)[i] == Wound(p, m)[i] else Masked(Wound(p, m)[source], Encoded(p, m)[i])
  {
    if i >= 2 {
      MixedAt(Wound(p, m), i, if i % 2 == 0 then 1 + i / 2 else |p| - 1 - (i - 3) / 2);
    }
  }

  /** Which byte of a body that came in stands at place `q` before it is wound back, and as what: in the first two
      places the top bit changes in 0 and 128 too. */
  lemma ReadByte(body: seq<byte>, m: byte, q: nat)
    requires |body| >= 2 && m != 0 && !(body[0] == INIT && body[1] == INIT) && q < |body|
    ensures var source := if 2 * q < |body| then 2 * q else 2 * |body| - 1 - 2 * q;
            var b, d := body[source], Wound(Decoded(body, m), m)[q];
            if q < 2 then d != b && d as int % 128 == b as int % 128 else Masked(b, d)
  {
    hide Wound;
    var t := ZeroSwapped(Flipped(Deinterleaved(body)), 2);
    WoundInvolution(t, m);
    assert Decoded(body, m) == Wound(t, m);
    hide Decoded;
    assert t[q] == if q < 2 then Flip(Deinterleaved(body)[q]) else SwapZero(Flip(Deinterleaved(body)[q]));
  }

  /** An INIT packet, and anything with key 0, is sent and read as it is. */
  lemma SentAsItIs(p: seq<byte>, m: byte)
    requires |p| >= 4 && (m == 0 || (p[2] == 255 && p[3] == 255))
    ensures Encoded(p, m) == p && Decoded(p[2..], m) == p[2..]
  {
  }

  // ---------------------------------------------------------------- winding splits where no run crosses

  lemma SplitRun(s: seq<byte>, S: set<byte>, k: nat, lo: int, hi: int)
    requires k <= |s| && IsRun(s, S, lo, hi)
    requires 0 < k < |s| ==> s[k - 1] !in S || s[k] !in S
    ensures hi <= k || k <= lo
    ensures hi <= k ==> IsRun(s[..k], S, lo, hi)
    ensures k <= lo ==> IsRun(s[k..], S, lo - k, hi - k)
  {
  }

  lemma RunsReversedSplitAt(s: seq<byte>, S: set<byte>, k: nat, i: nat)
    requires k <= |s| && i < |s|
    requires 0 < k < |s| ==> s[k - 1] !in S || s[k] !in S
    ensures RunsReversed(s, S)[i] == (RunsReversed(s[..k], S) + RunsReversed(s[k..], S))[i]
  {
    hide RunsReversed, IsRun;
    if s[i] in S {
      RunAround(s, S, i);
      var lo, hi :| IsRun(s, S, lo, hi) && lo <= i < hi;
      SplitRun(s, S, k, lo, hi);
      RunsReversedAt(s, S, lo, hi, i);
      if hi <= k {
        RunsReversedAt(s[..k], S, lo, hi, i);
      } else {
        RunsReversedAt(s[k..], S, lo - k, hi - k, i - k);
      }
    } else {
      RunsReversedOutside(s, S, i);
      if i < k {
        RunsReversedOutside(s[..k], S, i);
      } else {
        RunsReversedOutside(s[k..], S, i - k);
      }
    }
  }

  lemma RunsReversedSplit(s: seq<byte>, S: set<byte>, k: nat)
    requires k <= |s|
    requires 0 < k < |s| ==> s[k - 1] !in S || s[k] !in S
    ensures RunsReversed(s, S) == RunsReversed(s[..k], S) + RunsReversed(s[k..], S)
  {
    forall i: nat | i < |s|
      ensures RunsReversed(s, S)[i] == (RunsReversed(s[..k], S) + RunsReversed(s[k..], S))[i]
    {
      RunsReversedSplitAt(s, S, k, i);
    }
  }

  lemma OneRunPermutes(s: seq<byte>, S: set<byte>)
    requires forall b | b in s :: b in S
    ensures multiset(RunsReversed(s, S)) == multiset(s)
  {
    if s != [] {
      RunReversed(s, S, 0, |s|);
      ReversedMultiset(s);
      assert s[0..|s|] == s && RunsReversed(s, S)[0..|s|] == RunsReversed(s, S);
    }
  }

  lemma NoRunKept(s: seq<byte>, S: set<byte>)
    requires forall b | b in s :: b !in S
    ensures RunsReversed(s, S) == s
  {
    forall i: nat | i < |s|
      ensures RunsReversed(s, S)[i] == s[i]
    {
      RunsReversedOutside(s, S, i);
    }
  }

  lemma {:induction false} RunsReversedPermutes(s: seq<byte>, S: set<byte>)
    ensures multiset(RunsReversed(s, S)) == multiset(s)
  {
    if s == [] {
    } else {
      var k: nat := |s| - 1;
      if s[k] in S {
        k := RunStart(s, S, k);
        OneRunPermutes(s[k..], S);
      } else {
        NoRunKept(s[k..], S);
      }
      RunsReversedSplit(s, S, k);
      RunsReversedPermutes(s[..k], S);
      assert s == s[..k] + s[k..];
    }
  }

  /** Winding only moves bytes: none is lost, repeated or changed. */
  lemma WoundPermutes(s: seq<byte>, m: byte)
    ensures multiset(Wound(s, m)) == multiset(s)
  {
    if m != 0 {
      RunsReversedPermutes(s, Multiples(m));
    }
  }

  // ---------------------------------------------------------------- the round trip

  lemma DeinterleaveZeroSwapped(s: seq<byte>)
    ensures Deinterleaved(ZeroSwapped(s, 0)) == ZeroSwapped(Deinterleaved(s), 0)
  {
  }

  /** What an unwound body is when it has come through both maskings: the sender's covers its first two bytes,
      the receiver's does not. */
  ghost function Restarted(w: seq<byte>): (r: seq<byte>)
    ensures |r| == |w|
  {
    seq(|w|, i requires 0 <= i < |w| => if i < 2 then SwapZero(w[i]) else w[i])
  }

  lemma RestartedClean(w: seq<byte>)
    requires |w| >= 2
    ensures Restarted(w) == w <==> CleanStart(w)
  {
    if Restarted(w) == w {
      assert Restarted(w)[0] == w[0] && Restarted(w)[1] == w[1];
    }
  }

  lemma MaskedTwice(w: seq<byte>)
    ensures ZeroSwapped(Flipped(ZeroSwapped(Flipped(w), 0)), 2) == Restarted(w)
  {
  }

  /** What the receiver holds before its own winding. */
  lemma DecodeUndoesMixing(w: seq<byte>)
    ensures ZeroSwapped(Flipped(Deinterleaved(ZeroSwapped(Interleaved(Flipped(w)), 0))), 2) == Restarted(w)
  {
    var f := Flipped(w);
    assert Deinterleaved(ZeroSwapped(Interleaved(f), 0)) == ZeroSwapped(f, 0) by {
      DeinterleaveInterleave(f);
      DeinterleaveZeroSwapped(Interleaved(f));
    }
    MaskedTwice(w);
  }

  lemma EncodedStart(w: seq<byte>)
    requires |w| >= 2
    ensures var e := ZeroSwapped(Interleaved(Flipped(w)), 0);
            e[0] == INIT && e[1] == INIT <==> LooksLikeInit(w)
  {
    var f := Flipped(w);
    assert Interleaved(f)[0] == f[0];
    assert Interleaved(f)[1] == f[|w| - 1 - 1 / 2];
  }

  lemma WoundInjective(s: seq<byte>, t: seq<byte>, m: byte)
    requires |s| == |t|
    ensures Wound(s, m) == t <==> s == Wound(t, m)
  {
    WoundInvolution(s, m);
    WoundInvolution(t, m);
  }

  /** The first two bytes of what is sent are masked on one side only. */
  predicate CleanStart(w: seq<byte>)
    requires |w| >= 2
  {
    w[0] != 0 && w[0] != 128 && w[1] != 0 && w[1] != 128
  }

  /** The encoded body would start 255,255 and so be taken for an unencoded one. */
  predicate LooksLikeInit(w: seq<byte>)
    requires |w| >= 2
  {
    w[0] == 127 && w[|w| - 1] == 127
  }

  /** Nothing a body trips over that is wound on its own. */
  predicate CleanBody(w: seq<byte>)
    requires |w| >= 2
  {
    CleanStart(w) && !LooksLikeInit(w)
  }

  lemma BodyRoundTrip(w: seq<byte>, m: byte, target: seq<byte>)
    requires |w| >= 2 && |target| == |w| && m != 0
    requires !(target[0] == INIT && target[1] == INIT)
    ensures Decoded(ZeroSwapped(Interleaved(Flipped(w)), 0), m) == target
            <==> Restarted(w) == Wound(target, m) && !LooksLikeInit(w)
  {
    EncodedStart(w);
    DecodeUndoesMixing(w);
    hide *;
    WoundInjective(Restarted(w), target, m);
    DecodedBody(w, m);
  }

  lemma DecodedBody(w: seq<byte>, m: byte)
    requires |w| >= 2 && m != 0
    ensures var e := ZeroSwapped(Interleaved(Flipped(w)), 0);
            Decoded(e, m) == if e[0] == INIT && e[1] == INIT then e else Wound(Restarted(w), m)
  {
    DecodeUndoesMixing(w);
  }

  lemma EncodedParts(p: seq<byte>, m: byte)
    requires |p| >= 4 && m != 0 && !IsInitPacket(p)
    ensures Encoded(p, m)[..2] == Wound(p, m)[..2]
    ensures Encoded(p, m)[2..] == ZeroSwapped(Interleaved(Flipped(Wound(p, m)[2..])), 0)
  {
    var mixed := Mixed(Wound(p, m));
    assert mixed[2..] == Interleaved(Flipped(Wound(p, m)[2..]));
  }

  lemma HeaderStandsAlone(p: seq<byte>, m: byte)
    requires |p| >= 4 && m != 0 && p[1] % m != 0
    ensures Wound(p, m) == p[..2] + Wound(p[2..], m)
  {
    var S := Multiples(m);
    RunsReversedSplit(p, S, 2);
    RunsReversedOutside(p[..2], S, 1);
    if p[0] in S {
      RunsReversedAt(p[..2], S, 0, 1, 0);
    } else {
      RunsReversedOutside(p[..2], S, 0);
    }
    assert RunsReversed(p[..2], S) == p[..2];
  }

  /** The length header reaches the wire unscrambled, and the peer gets the packet back exactly when
      its wound body neither starts with a byte 0 or 128 in the first two places nor encodes to 255,255. */
  lemma RoundTrip(p: seq<byte>, m: byte)
    requires |p| >= 4
    requires m == 0 || IsInitPacket(p) || p[1] % m != 0
    ensures Encoded(p, m)[..2] == p[..2]
    ensures Decoded(Encoded(p, m)[2..], m) == p[2..]
            <==> m == 0 || IsInitPacket(p) || CleanBody(Wound(p[2..], m))
  {
    if m == 0 || IsInitPacket(p) {
    } else {
      HeaderStandsAlone(p, m);
      EncodedParts(p, m);
      assert Wound(p, m)[2..] == Wound(p[2..], m);
      BodyRoundTrip(Wound(p[2..], m), m, p[2..]);
      RestartedClean(Wound(p[2..], m));
    }
  }

  // ---------------------------------------------------------------- a run through the header

  /** `[lo, hi)` is the run through the second length byte: its reversal leaves the header bytes what they were. */
  predicate HeaderKept(p: seq<byte>, lo: int, hi: int)
    requires 0 <= lo <= 1 < hi <= |p|
  {
    p[1] == p[lo + hi - 2] && (lo == 0 ==> p[0] == p[hi - 1])
  }

  /** Reversing the run with the header in it does to the body what reversing the body's part alone would do,
      but for 0 and 128 being exchanged in the first two places. */
  predicate BodyKept(p: seq<byte>, lo: int, hi: int)
    requires 0 <= lo <= 1 < hi <= |p|
  {
    forall j | 2 <= j < hi :: p[j] == if j < hi - 2 then p[j - 2 + lo] else SwapZero(p[j - 2 + lo])
  }

  /** Body bytes in the first two places that the run does not reach are not 0 or 128. */
  predicate CleanBehind(w: seq<byte>, hi: int)
    requires |w| >= 4
  {
    forall i | hi <= i < 4 :: 2 <= i ==> w[i] != 0 && w[i] != 128
  }

  /** How winding with the header in the run and without it differ. */
  ghost predicate WoundBoth(p: seq<byte>, w: seq<byte>, t: seq<byte>, lo: int, hi: int)
    requires 0 <= lo <= 1 < hi <= |p|
  {
    && |w| == |p| && |t| == |p| - 2
    && (forall i | lo <= i < hi :: w[i] == p[lo + hi - 1 - i])
    && (forall k | 0 <= k < hi - 2 :: t[k] == p[hi - 1 - k])
    && (forall i | hi <= i < |p| :: w[i] == t[i - 2])
    && (lo == 1 ==> w[0] == p[0])
  }

  lemma HeaderInRunTail(p: seq<byte>, S: set<byte>, hi: int, i: nat)
    requires 2 <= hi <= i < |p| && p[hi] !in S
    ensures RunsReversed(p, S)[i] == RunsReversed(p[2..], S)[i - 2]
  {
    hide RunsReversed;
    RunsReversedSplitAt(p, S, hi, i);
    RunsReversedSplitAt(p[2..], S, hi - 2, i - 2);
    assert p[2..][hi - 2..] == p[hi..];
  }

  lemma HeaderInRun(p: seq<byte>, S: set<byte>, lo: int, hi: int)
    requires |p| >= 4 && 0 <= lo <= 1 < hi && IsRun(p, S, lo, hi)
    ensures WoundBoth(p, RunsReversed(p, S), RunsReversed(p[2..], S), lo, hi)
  {
    var w, t := RunsReversed(p, S), RunsReversed(p[2..], S);
    forall i | lo <= i < hi
      ensures w[i] == p[lo + hi - 1 - i]
    {
      RunsReversedAt(p, S, lo, hi, i);
    }
    forall k | 0 <= k < hi - 2
      ensures t[k] == p[hi - 1 - k]
    {
      RunsReversedAt(p[2..], S, 0, hi - 2, k);
    }
    forall i: nat | hi <= i < |p|
      ensures w[i] == t[i - 2]
    {
      HeaderInRunTail(p, S, hi, i);
    }
    if lo == 1 { RunsReversedOutside(p, S, 0); }
  }

  lemma HeaderBytes(p: seq<byte>, w: seq<byte>, t: seq<byte>, lo: int, hi: int)
    requires |p| >= 4 && 0 <= lo <= 1 < hi <= |p| && WoundBoth(p, w, t, lo, hi)
    ensures w[..2] == p[..2] <==> HeaderKept(p, lo, hi)
  {
    assert w[..2] == [w[0], w[1]] && p[..2] == [p[0], p[1]];
  }

  lemma BodyBytes(p: seq<byte>, w: seq<byte>, t: seq<byte>, lo: int, hi: int)
    requires |p| >= 4 && 0 <= lo <= 1 < hi <= |p| && WoundBoth(p, w, t, lo, hi)
    ensures Restarted(w[2..]) == t <==> BodyKept(p, lo, hi) && CleanBehind(w, hi)
  {
    var r := Restarted(w[2..]);
    if r == t {
      forall j | 2 <= j < hi
        ensures p[j] == if j < hi - 2 then p[j - 2 + lo] else SwapZero(p[j - 2 + lo])
      {
        assert r[hi - 1 - j] == t[hi - 1 - j] && w[hi + 1 - j] == p[lo + j - 2];
      }
      forall i | hi <= i < 4 && 2 <= i
        ensures w[i] != 0 && w[i] != 128
      {
        assert r[i - 2] == t[i - 2];
      }
    }
    if BodyKept(p, lo, hi) && CleanBehind(w, hi) {
      forall k | 0 <= k < |t|
        ensures r[k] == t[k]
      {
        if k < hi - 2 {
          assert w[k + 2] == p[lo + hi - 3 - k];
        }
      }
    }
  }

  /** The run `[lo, hi)` with the second length byte in it does no harm. */
  ghost predicate KeptThrough(p: seq<byte>, m: byte, lo: int, hi: int)
    requires |p| >= 4 && 0 <= lo <= 1 < hi <= |p|
  {
    && HeaderKept(p, lo, hi) && BodyKept(p, lo, hi)
    && CleanBehind(Wound(p, m), hi) && !LooksLikeInit(Wound(p, m)[2..])
  }

  /** When the second length byte is a multiple of `m`, the header reaches the wire as it is exactly if this holds. */
  lemma HeaderSurvives(p: seq<byte>, m: byte, lo: int, hi: int)
    requires |p| >= 4 && m != 0 && !IsInitPacket(p)
    requires 0 <= lo <= 1 < hi && IsRun(p, Multiples(m), lo, hi)
    ensures Encoded(p, m)[..2] == p[..2] <==> HeaderKept(p, lo, hi)
  {
    EncodedParts(p, m);
    HeaderInRun(p, Multiples(m), lo, hi);
    HeaderBytes(p, Wound(p, m), Wound(p[2..], m), lo, hi);
  }

  /** And header and body both survive exactly if, besides, the body is kept by the reversal and does not encode
      to something that looks like INIT. */
  lemma RoundTripThroughHeader(p: seq<byte>, m: byte, lo: int, hi: int)
    requires |p| >= 4 && m != 0 && !IsInitPacket(p)
    requires 0 <= lo <= 1 < hi && IsRun(p, Multiples(m), lo, hi)
    ensures Encoded(p, m)[..2] == p[..2] && Decoded(Encoded(p, m)[2..], m) == p[2..]
            <==> KeptThrough(p, m, lo, hi)
  {
    HeaderSurvives(p, m, lo, hi);
    EncodedParts(p, m);
    HeaderInRun(p, Multiples(m), lo, hi);
    BodyBytes(p, Wound(p, m), Wound(p[2..], m), lo, hi);
    hide *;
    BodyRoundTrip(Wound(p, m)[2..], m, p[2..]);
  }

  /** What the cipher does not trip over, for every packet and every key. */
  ghost predicate Survives(p: seq<byte>, m: byte)
    requires |p| >= 4
  {
    m == 0 || IsInitPacket(p)
    || if p[1] % m != 0 then CleanBody(Wound(p[2..], m))
       else exists lo, hi :: 0 <= lo <= 1 < hi && IsRun(p, Multiples(m), lo, hi) && KeptThrough(p, m, lo, hi)
  }

  lemma SurvivesExactly(p: seq<byte>, m: byte)
    requires |p| >= 4
    ensures Encoded(p, m)[..2] == p[..2] && Decoded(Encoded(p, m)[2..], m) == p[2..] <==> Survives(p, m)
  {
    hide Encoded, Decoded, KeptThrough, Wound, IsRun, Multiples, CleanBody;
    if m == 0 || IsInitPacket(p) || p[1] % m != 0 {
      RoundTrip(p, m);
    } else {
      HeaderRun(p, m);
      forall lo, hi | 0 <= lo <= 1 < hi && IsRun(p, Multiples(m), lo, hi)
        ensures hi <= |p|
        ensures Encoded(p, m)[..2] == p[..2] && Decoded(Encoded(p, m)[2..], m) == p[2..] <==> KeptThrough(p, m, lo, hi)
      {
        RunInside(p, Multiples(m), lo, hi);
        RoundTripThroughHeader(p, m, lo, hi);
      }
    }
  }

  lemma RunInside(p: seq<byte>, S: set<byte>, lo: int, hi: int)
    requires IsRun(p, S, lo, hi)
    ensures hi <= |p|
  {
  }

  lemma HeaderRun(p: seq<byte>, m: byte)
    requires |p| >= 4 && m != 0 && p[1] % m == 0
    ensures exists lo, hi :: 0 <= lo <= 1 < hi && IsRun(p, Multiples(m), lo, hi)
  {
    RunAround(p, Multiples(m), 1);
    var lo, hi :| IsRun(p, Multiples(m), lo, hi) && lo <= 1 < hi;
  }

  /** For a key that does not divide 128 - of the keys 6 to 12 all but 8 - that means: the run is symmetric
      and the wound body starts clean. */
  lemma BodyKeptByOddKeys(p: seq<byte>, m: byte, lo: int, hi: int)
    requires |p| >= 4 && m != 0 && 128 % m != 0
    requires 0 <= lo <= 1 < hi && IsRun(p, Multiples(m), lo, hi)
    ensures BodyKept(p, lo, hi) && CleanBehind(Wound(p, m), hi)
            <==> (forall j | 2 <= j < hi :: p[j] == p[j - 2 + lo]) && CleanStart(Wound(p, m)[2..])
  {
    HeaderInRun(p, Multiples(m), lo, hi);
    assert forall i | lo <= i < hi :: p[i] in Multiples(m);
    hide RunsReversed;
    BodyKeptWithout128(p, Wound(p, m), Wound(p[2..], m), lo, hi);
  }

  lemma BodyKeptWithout128(p: seq<byte>, w: seq<byte>, t: seq<byte>, lo: int, hi: int)
    requires |p| >= 4 && 0 <= lo <= 1 < hi <= |p| && WoundBoth(p, w, t, lo, hi)
    requires forall i | lo <= i < hi :: p[i] != 128
    ensures BodyKept(p, lo, hi) && CleanBehind(w, hi)
            <==> (forall j | 2 <= j < hi :: p[j] == p[j - 2 + lo]) && CleanStart(w[2..])
  {
    var body := w[2..];
    assert body[0] == w[2] && body[1] == w[3];
    if hi >= 3 {
      assert w[2] == p[hi - 1 - 2 + lo] && p[hi - 1] != 128;
    }
    if hi >= 4 {
      assert w[3] == p[hi - 2 - 2 + lo] && p[hi - 2] != 128;
    }
    if BodyKept(p, lo, hi) && CleanBehind(w, hi) {
      forall j | 2 <= j < hi
        ensures p[j] == p[j - 2 + lo]
      {
        assert p[j] != 128;
      }
    }
    if (forall j | 2 <= j < hi :: p[j] == p[j - 2 + lo]) && CleanStart(body) {
      forall j | 2 <= j < hi
        ensures p[j] == if j < hi - 2 then p[j - 2 + lo] else SwapZero(p[j - 2 + lo])
      {
      }
    }
  }

  /** With key 8 a packet can survive though its wound body does not start clean. */
  lemma UncleanButKept()
    ensures var p: seq<byte> := [5, 128, 0, 128, 1, 1];
            !CleanStart(Wound(p, 8)[2..])
            && Encoded(p, 8)[..2] == p[..2] && Decoded(Encoded(p, 8)[2..], 8) == p[2..]
  {
    var p: seq<byte> := [5, 128, 0, 128, 1, 1];
    RoundTripThroughHeader(p, 8, 1, 4);
    HeaderInRun(p, Multiples(8), 1, 4);
  }

  /** A chair packet (family 8, action 8) that names player 127, wherever the chair stands: with multiple 8 the peer
      reads garbage. */
  lemma ChairPacketForPlayer127(place: seq<byte>)
    requires |place| == 4
    ensures var p: seq<byte> := [9, 254, 8, 8, 128, 254] + place;
            Decoded(Encoded(p, 8)[2..], 8) != p[2..]
  {
    var p: seq<byte> := [9, 254, 8, 8, 128, 254] + place;
    ChairBody(p[2..]);
    hide Encoded, Decoded, Wound;
    RoundTrip(p, 8);
  }

  lemma ChairBody(body: seq<byte>)
    requires |body| >= 4 && body[0] == 8 && body[1] == 8 && body[2] == 128 && body[3] == 254
    ensures Wound(body, 8)[0] == 128
  {
    assert 254 !in Multiples(8);
    assert IsRun(body, Multiples(8), 0, 3);
    hide Multiples, IsRun;
    RunsReversedAt(body, Multiples(8), 0, 3, 0);
  }

  /** A packet of 1276 framed bytes whose action is no multiple of 6: with multiple 6 the two bytes of the length
      are exchanged, and say 2788. */
  lemma LongPacketLosesItsHeader(p: seq<byte>)
    requires |p| >= 4 && p[..2] == [12, 6] && p[2] % 6 != 0 && !IsInitPacket(p)
    ensures Encoded(p, 6)[..2] == [6, 12]
  {
    EncodedParts(p, 6);
    assert p[0] == p[..2][0] && p[1] == p[..2][1];
    RunsReversedAt(p, Multiples(6), 0, 2, 0);
    RunsReversedAt(p, Multiples(6), 0, 2, 1);
    assert Wound(p, 6)[..2] == [Wound(p, 6)[0], Wound(p, 6)[1]];
  }
}
