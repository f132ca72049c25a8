/** Numbers and fields on the wire (src/packet.cpp): base 253 digits, PacketBuilder and PacketReader. */
module PacketCodec {
  import opened Bytes

  type uint8 = x: int | 0 <= x < 0x100
  type uint16 = x: int | 0 <= x < 0x1_0000
  type uint32 = x: int | 0 <= x < 0x1_0000_0000

  const MAX1 := 253
  const MAX2 := 64009
  const MAX3 := 16194277
  const MAX4 := 4097152081

  const BREAK: byte := 255
  const NONE: byte := 254

  // ---------------------------------------------------------------- numbers

  /** One byte as a digit: 254 stands for an absent byte, 0 is read as 128. */
  function Digit(b: byte): (d: int)
    ensures 0 <= d <= 254
  {
    var present := if b == 254 then 1 else b;
    var nonzero := if present == 0 then 128 else present;
    nonzero as int - 1
  }

  /** The sum is taken in 32 bits; it never wraps. */
  function Number(b1: byte, b2: byte := NONE, b3: byte := NONE, b4: byte := NONE): (n: uint32)
    ensures n == Digit(b4) * MAX3 + Digit(b3) * MAX2 + Digit(b2) * MAX1 + Digit(b1)
  {
    (Digit(b4) * MAX3 + Digit(b3) * MAX2 + Digit(b2) * MAX1 + Digit(b1)) % 0x1_0000_0000
  }

  /** Byte `k` of the encoding of `n`: the base 253 digit plus one, or 254 above the leading digit.
      Only the fourth byte can exceed a digit; it is stored modulo 256. */
  function DigitByte(n: uint32, k: nat): (b: byte)
    requires k < 4
  {
    if k == 0 then (n % MAX1 + 1) as byte
    else if k == 1 then if n < MAX1 then NONE else (n / MAX1 % MAX1 + 1) as byte
    else if k == 2 then if n < MAX2 then NONE else (n / MAX2 % MAX1 + 1) as byte
    else if n < MAX3 then NONE else ((n / MAX3 + 1) % 256) as byte
  }

  function Digits(n: uint32): (s: seq<byte>)
    ensures |s| == 4
  {
    [DigitByte(n, 0), DigitByte(n, 1), DigitByte(n, 2), DigitByte(n, 3)]
  }

  function Power(k: nat): (n: nat)
  {
    if k == 0 then 1 else 253 * Power(k - 1)
  }

  /** The bytes of a number are its digits in base 253, the lowest first and each one more than the digit; 254 stands
      for what is above the leading one. Only the fourth can be more than a digit. */
  lemma DigitsInBase253(n: uint32, k: nat)
    requires k < 4
    ensures Digits(n)[k] as int == if k > 0 && n < Power(k) then 254
                                   else if k < 3 then n / Power(k) % 253 + 1 else (n / Power(k) + 1) % 256
  {
    assert Power(1) == 253 && Power(2) == 253 * 253 && Power(3) == 253 * Power(2);
  }

  /** And what they are read as: one less, 254 as nothing, and 0 as 127. */
  lemma DigitsRead(b: byte)
    ensures Digit(b) == if b == 254 then 0 else if b == 0 then 127 else b as int - 1
    ensures Number(b, 254, 254, 254) == Digit(b) && Number(254, b, 254, 254) == 253 * Digit(b)
    ensures Number(254, 254, b, 254) == 253 * 253 * Digit(b) && Number(254, 254, 254, b) == 253 * 253 * 253 * Digit(b)
  {
  }

  lemma DigitSplit2(n: nat)
    ensures n % MAX2 / MAX1 == n / MAX1 % MAX1 && n % MAX2 % MAX1 == n % MAX1
    ensures n % MAX2 == n / MAX1 % MAX1 * MAX1 + n % MAX1
  {
    var q, r := n / MAX2, n % MAX2;
    var d, e := r / MAX1, r % MAX1;
    assert n == (q * MAX1 + d) * MAX1 + e;
    assert n / MAX1 == q * MAX1 + d;
  }

  lemma DigitSplit3(n: nat)
    ensures n % MAX3 / MAX2 == n / MAX2 % MAX1 && n % MAX3 % MAX2 == n % MAX2
    ensures n % MAX3 == n / MAX2 % MAX1 * MAX2 + n % MAX2
  {
    var q, r := n / MAX3, n % MAX3;
    var d, e := r / MAX2, r % MAX2;
    assert n == (q * MAX1 + d) * MAX2 + e;
    assert n / MAX2 == q * MAX1 + d;
  }

  method ENumber(number: uint32) returns (bytes: seq<byte>)
    ensures bytes == Digits(number)
  {
    bytes := [NONE, NONE, NONE, NONE];
    var rest := number;
    if number >= MAX3 {
      bytes := bytes[3 := ((rest / MAX3 + 1) % 256) as byte];
      rest := rest % MAX3;
    }
    DigitSplit3(number);
    if number >= MAX2 {
      bytes := bytes[2 := (rest / MAX2 + 1) as byte];
      rest := rest % MAX2;
    }
    DigitSplit2(number);
    if number >= MAX1 {
      bytes := bytes[1 := (rest / MAX1 + 1) as byte];
      rest := rest % MAX1;
    }
    bytes := bytes[0 := (rest + 1) as byte];
  }

  /** A field of `k` bytes, the absent ones read as 254. */
  function FieldNumber(s: seq<byte>): (n: uint32)
    requires |s| <= 4
  {
    var at := i => if 0 <= i < |s| then s[i] else NONE;
    Number(at(0), at(1), at(2), at(3))
  }

  /** One, two and three byte fields keep a number modulo 253, 253^2 and 253^3. */
  lemma ShortFields(n: uint32)
    ensures FieldNumber(Digits(n)[..1]) == n % MAX1
    ensures FieldNumber(Digits(n)[..2]) == n % MAX2
    ensures FieldNumber(Digits(n)[..3]) == n % MAX3
  {
    DigitSplit2(n);
    DigitSplit3(n);
    assert Digit(DigitByte(n, 0)) == n % MAX1;
    assert Digit(DigitByte(n, 1)) == n / MAX1 % MAX1;
    assert Digit(DigitByte(n, 2)) == n / MAX2 % MAX1;
  }

  lemma TopByte(n: uint32)
    ensures Digit(DigitByte(n, 3)) == n / MAX3 <==> n < MAX4 || 254 * MAX3 <= n < 255 * MAX3
  {
  }

  lemma FourDigits(n: uint32)
    ensures FieldNumber(Digits(n)) == Digit(DigitByte(n, 3)) * MAX3 + n % MAX3
  {
    ShortFields(n);
  }

  /** A four byte field brings a number back exactly when the leading byte is not 254, 0 or wrapped:
      below 253^4, or in the one stripe above it whose leading byte is 255. */
  lemma IntField(n: uint32)
    ensures FieldNumber(Digits(n)) == n <==> n < MAX4 || 254 * MAX3 <= n < 255 * MAX3
  {
    FourDigits(n);
    TopByte(n);
  }

  // ---------------------------------------------------------------- fields

  datatype Field =
    | FByte(b: byte)
    | FChar(c: uint8)
    | FShort(s: uint16)
    | FThree(t: uint32)
    | FInt(i: uint32)
    | FBreak(str: seq<byte>)

  datatype Kind = KByte | KChar | KShort | KThree | KInt | KBreak

  function KindOf(f: Field): Kind
  {
    match f
    case FByte(_) => KByte
    case FChar(_) => KChar
    case FShort(_) => KShort
    case FThree(_) => KThree
    case FInt(_) => KInt
    case FBreak(_) => KBreak
  }

  /** A string as it arrives: every break byte has become a 'y'. */
  function Softened(s: seq<byte>): (r: seq<byte>)
    ensures |r| == |s| && BREAK !in r
    ensures forall i | 0 <= i < |s| :: r[i] == if s[i] == BREAK then 121 else s[i]
  {
    seq(|s|, i requires 0 <= i < |s| => if s[i] == BREAK then 121 else s[i])
  }

  /** What a builder appends for a field. */
  function FieldBytes(f: Field): (s: seq<byte>)
  {
    match f
    case FByte(b) => [b]
    case FChar(n) => Digits(n)[..1]
    case FShort(n) => Digits(n)[..2]
    case FThree(n) => Digits(n)[..3]
    case FInt(n) => Digits(n)
    case FBreak(str) => Softened(str) + [BREAK]
  }

  /** Index of the first break byte at or after `pos`, or the length of the data. */
  function FindBreak(data: seq<byte>, pos: nat): (i: nat)
    requires pos <= |data|
    ensures pos <= i <= |data| && BREAK !in data[pos..i]
    ensures i < |data| ==> data[i] == BREAK
    decreases |data| - pos
  {
    if pos == |data| || data[pos] == BREAK then pos
    else
      var i := FindBreak(data, pos + 1);
      assert data[pos..i] == [data[pos]] + data[pos + 1..i];
      i
  }

  function ReadNumber(data: seq<byte>, pos: nat, length: nat): (r: (uint32, nat))
    requires pos <= |data| && length <= 4
    ensures pos <= r.1 <= |data|
  {
    var end := if length <= |data| - pos then pos + length else |data|;
    (FieldNumber(data[pos..end]), end)
  }

  /** Reading one field: its value and the position after it. */
  function ReadField(k: Kind, data: seq<byte>, pos: nat): (r: (Field, nat))
    requires pos <= |data|
    ensures KindOf(r.0) == k
  {
    match k
    case KByte => if pos == |data| then (FByte(0), pos) else (FByte(data[pos]), pos + 1)
    case KChar => var (n, end) := ReadNumber(data, pos, 1); (FChar(n % 0x100), end)
    case KShort => var (n, end) := ReadNumber(data, pos, 2); (FShort(n % 0x1_0000), end)
    case KThree => var (n, end) := ReadNumber(data, pos, 3); (FThree(n), end)
    case KInt => var (n, end) := ReadNumber(data, pos, 4); (FInt(n), end)
    case KBreak =>
      var i := FindBreak(data, pos);
      if i == |data| then (FBreak([]), pos + 1) else (FBreak(data[pos..i]), i + 1)
  }

  /** The position passes the end of the data exactly when a break string is read at the very end. */
  lemma PositionStaysInside(k: Kind, data: seq<byte>, pos: nat)
    requires pos <= |data|
    ensures pos <= ReadField(k, data, pos).1
    ensures ReadField(k, data, pos).1 <= |data| <==> !(k == KBreak && pos == |data|)
  {
    if k == KBreak && pos < |data| {
      assert FindBreak(data, pos) <= |data|;
    }
  }

  /** What the reader gets for a field that was written. */
  function Received(f: Field): (r: Field)
  {
    match f
    case FByte(b) => FByte(b)
    case FChar(n) => FChar(n % MAX1)
    case FShort(n) => FShort(n % MAX2)
    case FThree(n) => FThree(n % MAX3)
    case FInt(n) => FInt(FieldNumber(Digits(n)))
    case FBreak(str) => FBreak(Softened(str))
  }

  /** At the end of the data there is nothing but zeros and the empty string, and the position stays - but for a break
      string, which moves it on. */
  lemma NothingLeft(k: Kind, data: seq<byte>)
    ensures ReadField(k, data, |data|) ==
            match k
            case KByte => (FByte(0), |data|)
            case KChar => (FChar(0), |data|)
            case KShort => (FShort(0), |data|)
            case KThree => (FThree(0), |data|)
            case KInt => (FInt(0), |data|)
            case KBreak => (FBreak([]), |data| + 1)
  {
  }

  lemma NumberReadBack(n: uint32, k: nat, before: seq<byte>, after: seq<byte>)
    requires k <= 4
    ensures ReadNumber(before + Digits(n)[..k] + after, |before|, k)
            == (FieldNumber(Digits(n)[..k]), |before| + k)
  {
    var data, field := before + Digits(n)[..k] + after, Digits(n)[..k];
    assert data[|before|..|before| + k] == field;
  }

  lemma FindBreakAt(data: seq<byte>, pos: nat, at: nat)
    requires pos <= at < |data| && data[at] == BREAK && BREAK !in data[pos..at]
    ensures FindBreak(data, pos) == at
  {
  }

  lemma BreakReadBack(str: seq<byte>, before: seq<byte>, after: seq<byte>)
    ensures ReadField(KBreak, before + (Softened(str) + [BREAK]) + after, |before|)
            == (FBreak(Softened(str)), |before| + |str| + 1)
  {
    var data := before + (Softened(str) + [BREAK]) + after;
    var at := |before| + |str|;
    assert data[|before|..at] == Softened(str);
    FindBreakAt(data, |before|, at);
  }

  lemma ByteReadBack(b: byte, before: seq<byte>, after: seq<byte>)
    ensures ReadField(KByte, before + [b] + after, |before|) == (FByte(b), |before| + 1)
  {
  }

  lemma CharReadBack(n: uint8, before: seq<byte>, after: seq<byte>)
    ensures ReadField(KChar, before + Digits(n)[..1] + after, |before|) == (FChar(n % MAX1), |before| + 1)
  {
    hide ReadNumber, FieldNumber, Digits;
    ShortFields(n);
    NumberReadBack(n, 1, before, after);
  }

  lemma ShortReadBack(n: uint16, before: seq<byte>, after: seq<byte>)
    ensures ReadField(KShort, before + Digits(n)[..2] + after, |before|) == (FShort(n % MAX2), |before| + 2)
  {
    hide ReadNumber, FieldNumber, Digits;
    ShortFields(n);
    NumberReadBack(n, 2, before, after);
  }

  lemma ThreeReadBack(n: uint32, before: seq<byte>, after: seq<byte>)
    ensures ReadField(KThree, before + Digits(n)[..3] + after, |before|) == (FThree(n % MAX3), |before| + 3)
  {
    hide ReadNumber, FieldNumber, Digits;
    ShortFields(n);
    NumberReadBack(n, 3, before, after);
  }

  lemma IntReadBack(n: uint32, before: seq<byte>, after: seq<byte>)
    ensures ReadField(KInt, before + Digits(n) + after, |before|) == (Received(FInt(n)), |before| + 4)
  {
    assert Digits(n)[..4] == Digits(n);
    NumberReadBack(n, 4, before, after);
  }

  lemma FieldReadBack(f: Field, before: seq<byte>, after: seq<byte>)
    ensures ReadField(KindOf(f), before + FieldBytes(f) + after, |before|)
            == (Received(f), |before| + |FieldBytes(f)|)
  {
    match f
    case FByte(b) => ByteReadBack(b, before, after);
    case FChar(n) => CharReadBack(n, before, after);
    case FShort(n) => ShortReadBack(n, before, after);
    case FThree(n) => ThreeReadBack(n, before, after);
    case FInt(n) => IntReadBack(n, before, after);
    case FBreak(str) => BreakReadBack(str, before, after);
  }

  function Joined(parts: seq<seq<byte>>): (s: seq<byte>)
  {
    if parts == [] then [] else parts[0] + Joined(parts[1..])
  }

  /** The bytes of a list of fields, appended one after the other. */
  function FieldsBytes(fs: seq<Field>): (s: seq<byte>)
  {
    Joined(seq(|fs|, i requires 0 <= i < |fs| => FieldBytes(fs[i])))
  }

  /** Reading a list of kinds one after the other; stops where the position has passed the end. */
  function ReadFields(ks: seq<Kind>, data: seq<byte>, pos: nat): (r: (seq<Field>, nat))
  {
    if ks == [] || pos > |data| then ([], pos)
    else
      var (f, next) := ReadField(ks[0], data, pos);
      var (rest, end) := ReadFields(ks[1..], data, next);
      ([f] + rest, end)
  }

  function Kinds(fs: seq<Field>): (ks: seq<Kind>)
    ensures |ks| == |fs|
  {
    seq(|fs|, i requires 0 <= i < |fs| => KindOf(fs[i]))
  }

  function AllReceived(fs: seq<Field>): (r: seq<Field>)
    ensures |r| == |fs|
  {
    seq(|fs|, i requires 0 <= i < |fs| => Received(fs[i]))
  }

  lemma ReadFieldsStep(k: Kind, ks: seq<Kind>, before: seq<byte>, part: seq<byte>, rest: seq<byte>,
                       f: Field, fs: seq<Field>, end: nat)
    requires ReadsBack(k, part, f)
    requires ReadFields(ks, before + part + rest, |before + part|) == (fs, end)
    ensures ReadFields([k] + ks, before + part + rest, |before|) == ([f] + fs, end)
  {
    assert ([k] + ks)[1..] == ks;
  }

  lemma Regroup(a: seq<byte>, b: seq<byte>, c: seq<byte>, d: seq<byte>)
    ensures a + (b + c) + d == a + b + (c + d) == a + b + c + d
  {
    assert a + (b + c) + d == a + b + c + d;
    assert a + b + (c + d) == a + b + c + d;
  }

  /** `part` reads back as `f` and no further, wherever it stands. */
  ghost predicate ReadsBack(k: Kind, part: seq<byte>, f: Field)
  {
    forall before: seq<byte>, after: seq<byte> ::
      ReadField(k, before + part + after, |before|) == (f, |before| + |part|)
  }

  lemma {:induction false} PartsReadBack(ks: seq<Kind>, parts: seq<seq<byte>>, fs: seq<Field>,
                                         before: seq<byte>, after: seq<byte>)
    requires |ks| == |parts| == |fs|
    requires forall i | 0 <= i < |ks| :: ReadsBack(ks[i], parts[i], fs[i])
    ensures ReadFields(ks, before + Joined(parts) + after, |before|) == (fs, |before| + |Joined(parts)|)
  {
    hide *;
    if ks == [] {
      NothingReadBack(before, after);
    } else {
      var head, tail := parts[0], Joined(parts[1..]);
      JoinedStep(parts);
      TailsReadBack(ks, parts, fs);
      PartsReadBack(ks[1..], parts[1..], fs[1..], before + head, after);
      Regroup(before, head, tail, after);
      ReadFieldsStep(ks[0], ks[1..], before, head, tail + after, fs[0], fs[1..], |before + head| + |tail|);
      assert ks == [ks[0]] + ks[1..];
      assert fs == [fs[0]] + fs[1..];
    }
  }

  lemma NothingReadBack(before: seq<byte>, after: seq<byte>)
    ensures Joined([]) == [] && ReadFields([], before + [] + after, |before|) == ([], |before|)
  {
  }

  lemma JoinedStep(parts: seq<seq<byte>>)
    requires parts != []
    ensures Joined(parts) == parts[0] + Joined(parts[1..])
  {
  }

  lemma TailsReadBack(ks: seq<Kind>, parts: seq<seq<byte>>, fs: seq<Field>)
    requires |ks| == |parts| == |fs| > 0
    requires forall i | 0 <= i < |ks| :: ReadsBack(ks[i], parts[i], fs[i])
    ensures forall i | 0 <= i < |ks[1..]| :: ReadsBack(ks[1..][i], parts[1..][i], fs[1..][i])
  {
    hide ReadsBack;
    forall i | 0 <= i < |ks[1..]|
      ensures ReadsBack(ks[1..][i], parts[1..][i], fs[1..][i])
    {
      assert ks[1..][i] == ks[i + 1] && parts[1..][i] == parts[i + 1] && fs[1..][i] == fs[i + 1];
    }
  }

  lemma FieldReadsBack(f: Field)
    ensures ReadsBack(KindOf(f), FieldBytes(f), Received(f))
  {
    forall before: seq<byte>, after: seq<byte>
      ensures ReadField(KindOf(f), before + FieldBytes(f) + after, |before|)
              == (Received(f), |before| + |FieldBytes(f)|)
    {
      FieldReadBack(f, before, after);
    }
  }

  /** Every list of fields reads back in order, whatever surrounds it in the packet. */
  lemma FieldsReadBack(fs: seq<Field>, before: seq<byte>, after: seq<byte>)
    ensures ReadFields(Kinds(fs), before + FieldsBytes(fs) + after, |before|)
            == (AllReceived(fs), |before| + |FieldsBytes(fs)|)
  {
    var parts := seq(|fs|, i requires 0 <= i < |fs| => FieldBytes(fs[i]));
    forall i | 0 <= i < |fs|
      ensures ReadsBack(Kinds(fs)[i], parts[i], AllReceived(fs)[i])
    {
      FieldReadsBack(fs[i]);
    }
    PartsReadBack(Kinds(fs), parts, AllReceived(fs), before, after);
  }

  // ---------------------------------------------------------------- packets

  class PacketBuilder {
    var id: uint16
    var data: seq<byte>
    var add_size: nat

    constructor (family: byte, action: byte)
      ensures data == [] && add_size == 0
      ensures id == if family == 0 && action == 0 then 0xFFFF else family as int + 256 * action as int
    {
      var pid := family as int + 256 * action as int;
      id := if pid == 0 then 0xFFFF else pid;
      data := [];
      add_size := 0;
    }

    method AddByte(b: byte)
      modifies this`data
      ensures data == old(data) + FieldBytes(FByte(b))
    {
      data := data + [b];
    }

    method AddChar(num: uint8)
      modifies this`data
      ensures data == old(data) + FieldBytes(FChar(num))
    {
      var bytes := ENumber(num);
      data := data + [bytes[0]];
    }

    method AddShort(num: uint16)
      modifies this`data
      ensures data == old(data) + FieldBytes(FShort(num))
    {
      var bytes := ENumber(num);
      data := data + bytes[..2];
    }

    method AddThree(num: uint32)
      modifies this`data
      ensures data == old(data) + FieldBytes(FThree(num))
    {
      var bytes := ENumber(num);
      data := data + bytes[..3];
    }

    method AddInt(num: uint32)
      modifies this`data
      ensures data == old(data) + FieldBytes(FInt(num))
    {
      var bytes := ENumber(num);
      data := data + bytes[..4];
    }

    method AddBreakString(str: seq<byte>)
      modifies this`data
      ensures data == old(data) + FieldBytes(FBreak(str))
    {
      var tempstr := str;
      var breakin := FindBreak(tempstr, 0);
      while breakin != |tempstr|
        invariant 0 <= breakin <= |tempstr| == |str|
        invariant breakin < |str| ==> tempstr[breakin] == BREAK
        invariant forall i | 0 <= i < breakin :: tempstr[i] == Softened(str)[i]
        invariant forall i | breakin <= i < |str| :: tempstr[i] == str[i]
        decreases |str| - breakin
      {
        tempstr := tempstr[breakin := 121];
        ghost var from := breakin + 1;
        breakin := FindBreak(tempstr, breakin + 1);
        forall i | from <= i < breakin
          ensures tempstr[i] == Softened(str)[i]
        {
          assert tempstr[from..breakin][i - from] == tempstr[i];
        }
      }
      assert tempstr == Softened(str);
      data := data + tempstr;
      data := data + [BREAK];
    }

    method AddSize(size: nat)
      modifies this`add_size
      ensures add_size == old(add_size) + size
    {
      add_size := add_size + size;
    }

    method Get() returns (retdata: seq<byte>)
      ensures retdata == PacketBytes(id, data, add_size)
    {
      var length := ENumber((|data| + 2 + add_size) % 0x1_0000_0000);
      retdata := [length[0], length[1], (id / 256) as byte, (id % 256) as byte] + data;
    }
  }

  /** Two length bytes, action, family, payload. */
  function PacketBytes(id: uint16, data: seq<byte>, add_size: nat): (p: seq<byte>)
    ensures |p| == 4 + |data|
  {
    var length: uint32 := (|data| + 2 + add_size) % 0x1_0000_0000;
    [DigitByte(length, 0), DigitByte(length, 1), (id / 256) as byte, (id % 256) as byte] + data
  }

  /** Behind the length: action, family, data. */
  lemma PacketLayout(family: byte, action: byte, data: seq<byte>, add_size: nat)
    ensures PacketBytes(action as int * 256 + family as int, data, add_size)[2..] == [action, family] + data
  {
  }

  lemma TwoDigits(n: uint32)
    ensures Number(DigitByte(n, 0), DigitByte(n, 1)) == n % MAX2
  {
    ShortFields(n);
    assert FieldNumber(Digits(n)[..2]) == Number(Digits(n)[..2][0], Digits(n)[..2][1]);
  }

  /** The length header of a plain packet tells the peer how much follows exactly when that is below 253^2. */
  lemma LengthHeader(id: uint16, data: seq<byte>)
    requires |data| + 2 < 0x1_0000_0000
    ensures var p := PacketBytes(id, data, 0);
            Number(p[0], p[1]) == |data| + 2 <==> |data| + 2 < MAX2
  {
    hide Number, DigitByte, Digit;
    var n: uint32 := |data| + 2;
    TwoDigits(n);
    BelowTwoDigits(n);
    assert PacketBytes(id, data, 0)[0] == DigitByte(n, 0) && PacketBytes(id, data, 0)[1] == DigitByte(n, 1);
  }

  lemma BelowTwoDigits(n: uint32)
    ensures n % MAX2 == n <==> n < MAX2
  {
  }

  /** With the multiples the server draws, the second length byte of a packet below 1265 bytes
      is never divisible, so `PacketCipher.RoundTrip` applies to it. */
  lemma LengthByteOutOfRuns(id: uint16, data: seq<byte>, m: byte)
    requires 6 <= m <= 12 && |data| + 2 < 1265
    ensures PacketBytes(id, data, 0)[1] % m != 0
  {
    hide DigitByte;
    SecondLengthByte(|data| + 2);
  }

  lemma SecondLengthByte(n: uint32)
    requires n < 1265
    ensures DigitByte(n, 1) in {254, 2, 3, 4, 5}
  {
  }

  const TWO64 := 0x1_0000_0000_0000_0000
  const NPOS := TWO64 - 1

  /** What a call that reads the data can come to. */
  datatype Outcome<T> = Got(value: T) | Throws | OutOfBounds

  /** `pos` past the end, where a break string read at the very end leaves it, makes the unsigned `Remaining` wrap
      around: from there a number or a byte is read out of bounds, and a string throws. */
  class PacketReader {
    const data: seq<byte>
    var pos: nat

    constructor (data_: seq<byte>)
      ensures data == data_ && pos == 2
    {
      data := data_;
      pos := 2;
    }

    /** Sizes that a string can have. */
    predicate Sized()
      reads this`pos
    {
      |data| < TWO64 / 2 && pos < TWO64 / 2
    }

    function Remaining(): (n: nat)
      requires Sized()
      reads this`pos
      ensures n == if pos <= |data| then |data| - pos else TWO64 + |data| - pos
    {
      (|data| - pos) % TWO64
    }

    method GetNumber(length: nat) returns (r: Outcome<uint32>)
      requires Sized() && 1 <= length <= 4
      modifies this`pos
      ensures old(pos) > |data| ==> r == OutOfBounds
      ensures old(pos) <= |data| ==> r.Got? && (r.value, pos) == ReadNumber(data, old(pos), length)
    {
      var bytes: seq<byte> := [NONE, NONE, NONE, NONE];
      var read_len := if length <= Remaining() then length else Remaining();
      for i := 0 to read_len
        invariant |bytes| == 4 && (i > 0 ==> pos + i <= |data|)
        invariant forall j | 0 <= j < 4 :: bytes[j] == if j < i then data[pos + j] else NONE
      {
        if pos + i >= |data| {
          return OutOfBounds;
        }
        bytes := bytes[i := data[pos + i]];
      }
      assert forall j | 0 <= j < read_len :: data[pos..pos + read_len][j] == bytes[j];
      pos := pos + read_len;
      r := Got(Number(bytes[0], bytes[1], bytes[2], bytes[3]));
    }

    method GetByte() returns (r: Outcome<byte>)
      requires Sized()
      modifies this`pos
      ensures if old(pos) <= |data| then r.Got? && (FByte(r.value), pos) == ReadField(KByte, data, old(pos))
              else r == OutOfBounds
    {
      if Remaining() < 1 {
        return Got(0);
      }
      if pos >= |data| {
        return OutOfBounds;
      }
      r := Got(data[pos]);
      pos := pos + 1;
    }

    method GetChar() returns (r: Outcome<uint8>)
      requires Sized()
      modifies this`pos
      ensures if old(pos) <= |data| then r.Got? && (FChar(r.value), pos) == ReadField(KChar, data, old(pos))
              else r == OutOfBounds
    {
      var n := GetNumber(1);
      r := if n.Got? then Got(n.value % 0x100) else OutOfBounds;
    }

    method GetShort() returns (r: Outcome<uint16>)
      requires Sized()
      modifies this`pos
      ensures if old(pos) <= |data| then r.Got? && (FShort(r.value), pos) == ReadField(KShort, data, old(pos))
              else r == OutOfBounds
    {
      var n := GetNumber(2);
      r := if n.Got? then Got(n.value % 0x1_0000) else OutOfBounds;
    }

    method GetThree() returns (r: Outcome<uint32>)
      requires Sized()
      modifies this`pos
      ensures if old(pos) <= |data| then r.Got? && (FThree(r.value), pos) == ReadField(KThree, data, old(pos))
              else r == OutOfBounds
    {
      r := GetNumber(3);
    }

    method GetInt() returns (r: Outcome<uint32>)
      requires Sized()
      modifies this`pos
      ensures if old(pos) <= |data| then r.Got? && (FInt(r.value), pos) == ReadField(KInt, data, old(pos))
              else r == OutOfBounds
    {
      r := GetNumber(4);
    }

    method GetFixedString(length: nat) returns (r: Outcome<seq<byte>>)
      requires Sized() && length < TWO64
      modifies this`pos
      ensures old(pos) <= |data| ==>
                if |data| - old(pos) < length then r == Got([]) && pos == old(pos)
                else r == Got(data[old(pos)..old(pos) + length]) && pos == old(pos) + length
      ensures old(pos) > |data| ==> pos == old(pos) && r == if length <= Remaining() then Throws else Got([])
    {
      if Remaining() < length {
        return Got([]);
      }
      if pos > |data| {
        return Throws;
      }
      r := Got(data[pos..pos + length]);
      pos := pos + length;
    }

    /** A search that fails, or starts behind the end, yields the largest size. */
    method GetBreakString() returns (r: Outcome<seq<byte>>)
      requires Sized()
      modifies this`pos
      ensures if old(pos) <= |data| then r.Got? && (FBreak(r.value), pos) == ReadField(KBreak, data, old(pos))
              else r == Throws && pos == old(pos)
    {
      var found := if pos < |data| then FindBreak(data, pos) else |data|;
      var at := if found == |data| then NPOS else found;
      r := GetFixedString(at - pos);
      if r.Got? {
        pos := pos + 1;
      }
    }
  }
}
