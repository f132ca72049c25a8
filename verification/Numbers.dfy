/** Numbers as text: what util::to_string prints, and what tdparse and util::to_int make of any text
    (src/util.cpp and src/util/variant.cpp). */
module Numbers {

  function DigitChar(d: nat): (c: char)
    requires d < 10
    ensures '0' <= c <= '9' && (c - '0') as int == d
  {
    '0' + d as char
  }

  function Digits(n: nat): (s: string)
    ensures s != [] && forall k :: 0 <= k < |s| ==> '0' <= s[k] <= '9'
  {
    if n < 10 then [DigitChar(n)] else Digits(n / 10) + [DigitChar(n % 10)]
  }

  /** The `%i` of snprintf. */
  function Print(v: int): (s: string)
  {
    if v < 0 then "-" + Digits(-v) else Digits(v)
  }

  lemma PrintedChars(v: int)
    ensures forall k :: 0 <= k < |Print(v)| ==> Print(v)[k] == '-' || '0' <= Print(v)[k] <= '9'
  {
  }

  const INT_MAX := 0x7FFF_FFFF

  /** 32-bit addition as the overflow tests see it. */
  function Plus32(a: int, b: int): (r: int)
    ensures -INT_MAX - 1 <= r <= INT_MAX && (a + b - r) % 0x1_0000_0000 == 0
  {
    var s := (a + b) % 0x1_0000_0000;
    if s > INT_MAX then s - 0x1_0000_0000 else s
  }

  /** The number of a character as a signed byte. */
  function Code(c: char): (n: int)
    ensures c < 128 as char ==> n == c as int
  {
    var byte := c as int % 256;
    if byte >= 128 then byte - 256 else byte
  }

  lemma CodeIsSigned(c: char)
    ensures -128 <= Code(c) < 128 && (c as int - Code(c)) % 256 == 0
  {
  }

  /** A value cut to a short. */
  function Short(x: int): (r: int)
    ensures -32768 <= r <= 32767 && (x - r) % 65536 == 0
  {
    (x + 32768) % 65536 - 32768
  }

  // ---------------------------------------------------------------- tdparse

  datatype Td = Td(ret: real, val: real, decimal: bool, multi: real, negate: bool)

  const START := Td(0.0, 0.0, false, 0.1, false)

  function Lower(c: char): (r: char)
  {
    if 'A' <= c <= 'Z' then c - 'A' + 'a' else c
  }

  predicate IsUnit(c: char)
  {
    c in "sm%khd"
  }

  /** What a number gains from the unit letter after it. */
  function Scaled(val: real, c: char): (r: real)
  {
    match c
    case 'm' => val * 60.0
    case '%' => val / 100.0
    case 'k' => val * 1000.0
    case 'h' => val * 3600.0
    case 'd' => val * 86400.0
    case _ => val
  }

  /** A digit after the point. */
  function Place(c: char, multi: real): (r: real)
    requires '0' <= c <= '9'
  {
    (c - '0') as real * multi
  }

  function Plain(t: Td, c: char): (r: Td)
  {
    if '0' <= c <= '9' then
      if t.decimal then t.(val := t.val + Place(c, t.multi), multi := t.multi / 10.0)
      else t.(val := t.val * 10.0 + (c - '0') as real)
    else if c == '.' then t.(decimal := true, multi := 0.1)
    else t
  }

  function Added(t: Td, amount: real): (r: Td)
  {
    Td(t.ret + amount, 0.0, false, 0.1, t.negate)
  }

  /** One turn of the loop at position `i`: what has been read then, and the next position. */
  function Turn(s: string, i: nat, t: Td): (r: (Td, nat))
    requires i < |s|
    ensures i < r.1
  {
    var c := Lower(s[i]);
    if s[i] == '-' then (t.(negate := true), i + 1)
    else if IsUnit(c) then
      if c == 'm' && i < |s| - 1 && s[i + 1] == 's' then (Added(t, t.val / 1000.0), i + 2)
      else (Added(t, Scaled(t.val, c)), i + 1)
    else (Plain(t, c), i + 1)
  }

  /** The value of the text from position `i`, with `t` read so far. */
  function TdFrom(s: string, i: nat, t: Td): (r: real)
    decreases |s| - i
  {
    if i >= |s| then (t.ret + t.val) * if t.negate then -1.0 else 1.0
    else TdFrom(s, Turn(s, i, t).1, Turn(s, i, t).0)
  }

  method TdParse(s: string) returns (r: real)
    ensures r == TdFrom(s, 0, START)
  {
    var ret, val, decimal, multi, negate := 0.0, 0.0, false, 0.1, false;
    var i := 0;
    while i < |s|
      invariant 0 <= i
      invariant TdFrom(s, i, Td(ret, val, decimal, multi, negate)) == TdFrom(s, 0, START)
    {
      hide Place, Scaled, IsUnit, Lower;
      ghost var t, at := Td(ret, val, decimal, multi, negate), i;
      var c := Lower(s[i]);
      if s[i] == '-' {
        negate := true;
      } else if IsUnit(c) {
        if c == 'm' && i < |s| - 1 && s[i + 1] == 's' {
          ret := ret + val / 1000.0;
          i := i + 1;
        } else {
          ret := ret + Scaled(val, c);
        }
        val, decimal, multi := 0.0, false, 0.1;
      } else if '0' <= c <= '9' {
        if !decimal {
          val := val * 10.0;
          val := val + (c - '0') as real;
        } else {
          val := val + Place(c, multi);
          multi := multi / 10.0;
        }
      } else if c == '.' {
        decimal, multi := true, 0.1;
      }
      i := i + 1;
      assert Turn(s, at, t) == (Td(ret, val, decimal, multi, negate), i);
      hide Turn;
    }
    r := (ret + val) * if negate then -1.0 else 1.0;
  }

  /** A cast to int drops the fraction. */
  function Truncated(r: real): (n: int)
    ensures r >= 0.0 ==> n as real <= r < n as real + 1.0
    ensures r <= 0.0 ==> n as real - 1.0 < r <= n as real
  {
    if r >= 0.0 then r.Floor else -((-r).Floor)
  }

  function ToInt(s: string): (n: int)
  {
    Truncated(TdFrom(s, 0, START))
  }

  // ---------------------------------------------------------------- what is printed is read back

  /** Reading digits after `v`. */
  function Read(v: int, s: string): (n: int)
    requires forall k :: 0 <= k < |s| ==> '0' <= s[k] <= '9'
  {
    if s == [] then v else Read(v, s[..|s| - 1]) * 10 + (s[|s| - 1] - '0') as int
  }

  lemma {:induction false} ReadDigits(n: nat)
    ensures Read(0, Digits(n)) == n
  {
    if n < 10 {
      assert [DigitChar(n)][..0] == [];
    } else {
      ReadDigits(n / 10);
      assert Digits(n)[..|Digits(n)| - 1] == Digits(n / 10);
    }
  }

  lemma {:induction false} ReadFront(v: int, s: string)
    requires s != [] && forall k :: 0 <= k < |s| ==> '0' <= s[k] <= '9'
    ensures Read(v, s) == Read(v * 10 + (s[0] - '0') as int, s[1..])
  {
    if |s| > 1 {
      ReadFront(v, s[..|s| - 1]);
      assert s[..|s| - 1][1..] == s[1..][..|s| - 2];
    } else {
      assert s[..0] == [] && s[1..] == [];
    }
  }

  lemma {:induction false} TdReads(s: string, i: nat, v: nat, negate: bool)
    requires i <= |s| && forall k :: i <= k < |s| ==> '0' <= s[k] <= '9'
    ensures TdFrom(s, i, Td(0.0, v as real, false, 0.1, negate)) ==
            Read(v, s[i..]) as real * if negate then -1.0 else 1.0
    decreases |s| - i
  {
    if i < |s| {
      ReadFront(v, s[i..]);
      assert s[i..][1..] == s[i + 1..];
      TdReads(s, i + 1, v * 10 + (s[i] - '0') as int, negate);
    }
  }

  lemma PrintedIsRead(v: int)
    ensures ToInt(Print(v)) == v
  {
    var s := Print(v);
    if v < 0 {
      assert s[1..] == Digits(-v);
      assert TdFrom(s, 0, START) == TdFrom(s, 1, START.(negate := true));
      hide Digits, TdFrom;
      TdReads(s, 1, 0, true);
      ReadDigits(-v);
    } else {
      assert s[0..] == Digits(v);
      hide Digits, TdFrom;
      TdReads(s, 0, 0, false);
      ReadDigits(v);
    }
  }

  // ---------------------------------------------------------------- what durations mean

  datatype Unit = Milliseconds | Seconds | Minutes | Percent | Thousands | Hours | Days

  /** An amount with a unit, the digits behind the point as text. */
  datatype Part = Part(whole: nat, fraction: string, unit: Unit)

  function UnitText(u: Unit): (s: string)
  {
    match u
    case Milliseconds => "ms"
    case Seconds => "s"
    case Minutes => "m"
    case Percent => "%"
    case Thousands => "k"
    case Hours => "h"
    case Days => "d"
  }

  /** What one of a unit is worth. */
  function Factor(u: Unit): (r: real)
  {
    match u
    case Milliseconds => 1.0 / 1000.0
    case Seconds => 1.0
    case Minutes => 60.0
    case Percent => 1.0 / 100.0
    case Thousands => 1000.0
    case Hours => 60.0 * 60.0
    case Days => 24.0 * 60.0 * 60.0
  }

  predicate AllDigits(s: string)
  {
    forall k :: 0 <= k < |s| ==> '0' <= s[k] <= '9'
  }

  function PartText(p: Part): (s: string)
  {
    Digits(p.whole) + (if p.fraction == "" then "" else "." + p.fraction) + UnitText(p.unit)
  }

  function PartsText(parts: seq<Part>): (s: string)
  {
    if parts == [] then "" else PartText(parts[0]) + PartsText(parts[1..])
  }

  /** Ten to the minus `k`. */
  function Tenth(k: nat): (r: real)
  {
    if k == 0 then 1.0 else Tenth(k - 1) / 10.0
  }

  /** `v` with the point `k` places from the right. */
  function Decimal(v: int, k: nat): (r: real)
  {
    v as real * Tenth(k)
  }

  function PartValue(p: Part): (r: real)
    requires AllDigits(p.fraction)
  {
    (p.whole as real + Decimal(Read(0, p.fraction), |p.fraction|)) * Factor(p.unit)
  }

  function PartsValue(parts: seq<Part>): (r: real)
    requires forall k :: 0 <= k < |parts| ==> AllDigits(parts[k].fraction)
  {
    if parts == [] then 0.0 else PartValue(parts[0]) + PartsValue(parts[1..])
  }

  lemma DigitTurn(s: string, i: nat, t: Td, v: nat)
    requires i < |s| && '0' <= s[i] <= '9' && !t.decimal && t.val == v as real
    ensures TdFrom(s, i, t) == TdFrom(s, i + 1, t.(val := (v * 10 + (s[i] - '0') as int) as real))
  {
    assert v as real * 10.0 + (s[i] - '0') as int as real == (v * 10 + (s[i] - '0') as int) as real;
  }

  lemma {:induction false} DigitsAreRead(s: string, i: nat, n: nat, t: Td, v: nat)
    requires i <= n <= |s| && AllDigits(s[i..n]) && t.val == v as real && !t.decimal
    ensures TdFrom(s, i, t) == TdFrom(s, n, t.(val := Read(v, s[i..n]) as real))
    decreases n - i
  {
    hide TdFrom, Read;
    if i < n {
      var d := (s[i] - '0') as int;
      assert s[i] == s[i..n][0] && s[i..n][1..] == s[i + 1..n];
      ReadFront(v, s[i..n]);
      DigitTurn(s, i, t, v);
      var next := t.(val := (v * 10 + d) as real);
      DigitsAreRead(s, i + 1, n, next, v * 10 + d);
      var end := Read(v, s[i..n]);
      assert end == Read(v * 10 + d, s[i + 1..n]) && next.(val := end as real) == t.(val := end as real);
    } else {
      NothingRead(v);
      assert s[i..n] == [] && t == t.(val := v as real);
    }
  }

  lemma PlaceTurn(s: string, i: nat, t: Td)
    requires i < |s| && '0' <= s[i] <= '9' && t.decimal
    ensures TdFrom(s, i, t) == TdFrom(s, i + 1, t.(val := t.val + Place(s[i], t.multi), multi := t.multi / 10.0))
  {
    hide Place;
    assert Turn(s, i, t) == (t.(val := t.val + Place(s[i], t.multi), multi := t.multi / 10.0), i + 1);
  }

  lemma OnePlaceMore(v: int, c: char, k: nat)
    requires '0' <= c <= '9'
    ensures Decimal(v * 10 + (c - '0') as int, k + 1) == Decimal(v, k) + Place(c, Tenth(k + 1))
    ensures Tenth(k + 2) == Tenth(k + 1) / 10.0
  {
    var x, d := Tenth(k + 1), (c - '0') as int;
    assert Tenth(k) == 10.0 * x;
    assert (v * 10 + d) as real == v as real * 10.0 + d as real;
    assert (v as real * 10.0 + d as real) * x == v as real * 10.0 * x + d as real * x;
    assert v as real * 10.0 * x == v as real * (10.0 * x);
    assert Place(c, x) == d as real * x;
  }

  lemma {:induction false} FractionIsRead(s: string, i: nat, n: nat, t: Td, k: nat, v: nat, whole: real)
    requires i <= n <= |s| && AllDigits(s[i..n]) && t.decimal && t.multi == Tenth(k + 1)
    requires t.val == whole + Decimal(v, k)
    ensures var places := k + (n - i);
            TdFrom(s, i, t) ==
            TdFrom(s, n, t.(val := whole + Decimal(Read(v, s[i..n]), places), multi := Tenth(places + 1)))
    decreases n - i
  {
    hide TdFrom, Tenth, Read, Decimal, Place;
    if i < n {
      assert s[i] == s[i..n][0] && s[i..n][1..] == s[i + 1..n];
      ReadFront(v, s[i..n]);
      PlaceTurn(s, i, t);
      OnePlaceMore(v, s[i], k);
      var next := t.(val := t.val + Place(s[i], t.multi), multi := t.multi / 10.0);
      FractionIsRead(s, i + 1, n, next, k + 1, v * 10 + (s[i] - '0') as int, whole);
      assert k + 1 + (n - (i + 1)) == k + (n - i);
    } else {
      NothingRead(v);
      assert s[i..n] == [];
    }
  }

  lemma NothingRead(v: int)
    ensures Read(v, []) == v
  {
  }

  lemma PointTurn(s: string, i: nat, t: Td)
    requires i < |s| && s[i] == '.'
    ensures TdFrom(s, i, t) == TdFrom(s, i + 1, t.(decimal := true, multi := 0.1))
  {
  }

  /** A text stands at a place in another. */
  predicate At(s: string, i: nat, w: string)
  {
    i + |w| <= |s| && s[i..i + |w|] == w
  }

  lemma AtSplit(s: string, i: nat, a: string, b: string)
    requires At(s, i, a + b)
    ensures At(s, i, a) && At(s, i + |a|, b)
  {
    assert s[i..i + |a|] == s[i..i + |a + b|][..|a|];
    assert s[i + |a|..i + |a| + |b|] == s[i..i + |a + b|][|a|..];
  }

  /** A unit adds what stands before it, and starts afresh; the letter behind a minute is no s. */
  lemma UnitTurn(s: string, i: nat, t: Td, u: Unit)
    requires At(s, i, UnitText(u))
    requires u == Minutes ==> i + 1 == |s| || s[i + 1] != 's'
    ensures TdFrom(s, i, t) ==
            TdFrom(s, i + |UnitText(u)|, Td(t.ret + t.val * Factor(u), 0.0, false, 0.1, t.negate))
  {
    assert s[i] == s[i..i + |UnitText(u)|][0];
    if u == Milliseconds {
      assert s[i + 1] == s[i..i + 2][1];
    }
  }

  /** A capital letter is as good. */
  lemma CapitalTurn(s: string, i: nat, t: Td, u: Unit)
    requires i < |s| && u != Milliseconds && u != Percent
    requires s[i] == match u
                     case Seconds => 'S'
                     case Minutes => 'M'
                     case Thousands => 'K'
                     case Hours => 'H'
                     case _ => 'D'
    requires u == Minutes ==> i + 1 == |s| || s[i + 1] != 's'
    ensures TdFrom(s, i, t) == TdFrom(s, i + 1, Td(t.ret + t.val * Factor(u), 0.0, false, 0.1, t.negate))
  {
  }

  /** One part, wherever it stands. */
  lemma PartIsRead(s: string, i: nat, p: Part, ret: real, negate: bool)
    requires At(s, i, PartText(p)) && AllDigits(p.fraction)
    requires i + |PartText(p)| < |s| ==> s[i + |PartText(p)|] != 's'
    ensures TdFrom(s, i, Td(ret, 0.0, false, 0.1, negate)) ==
            TdFrom(s, i + |PartText(p)|, Td(ret + PartValue(p), 0.0, false, 0.1, negate))
  {
    hide TdFrom, Digits, Factor, UnitText, Read, Tenth, Decimal;
    var whole, point, unit := Digits(p.whole), if p.fraction == "" then "" else "." + p.fraction, UnitText(p.unit);
    AtSplit(s, i, whole + point, unit);
    AtSplit(s, i, whole, point);
    var a, b := i + |whole|, i + |whole + point|;
    var more := Decimal(Read(0, p.fraction), |p.fraction|);
    var multi := if p.fraction == "" then 0.1 else Tenth(|p.fraction| + 1);
    var t := Td(ret, p.whole as real + more, p.fraction != "", multi, negate);
    WholeIsRead(s, i, p.whole, ret, negate);
    FirstPlace();
    UnitEnds(p);
    if p.fraction != "" {
      AtSplit(s, a, ".", p.fraction);
      DecimalsAreRead(s, a, p.fraction, Td(ret, p.whole as real, false, 0.1, negate));
    }
    assert TdFrom(s, i, Td(ret, 0.0, false, 0.1, negate)) == TdFrom(s, b, t);
    UnitTurn(s, b, t, p.unit);
    assert b + |unit| == i + |PartText(p)|;
  }

  lemma UnitEnds(p: Part)
    ensures p.unit == Minutes ==> |UnitText(p.unit)| == 1
    ensures Read(0, "") == 0
  {
  }

  lemma WholeIsRead(s: string, i: nat, n: nat, ret: real, negate: bool)
    requires At(s, i, Digits(n))
    ensures TdFrom(s, i, Td(ret, 0.0, false, 0.1, negate)) ==
            TdFrom(s, i + |Digits(n)|, Td(ret, n as real, false, 0.1, negate))
  {
    hide TdFrom, Digits;
    ReadDigits(n);
    DigitsAreRead(s, i, i + |Digits(n)|, Td(ret, 0.0, false, 0.1, negate), 0);
  }

  lemma DecimalsAreRead(s: string, i: nat, fraction: string, t: Td)
    requires At(s, i, ".") && At(s, i + 1, fraction) && AllDigits(fraction)
    ensures TdFrom(s, i, t) ==
            TdFrom(s, i + 1 + |fraction|,
                   t.(val := t.val + Decimal(Read(0, fraction), |fraction|), decimal := true,
                      multi := Tenth(|fraction| + 1)))
  {
    hide TdFrom, Tenth, Decimal;
    assert s[i] == s[i..i + 1][0];
    PointTurn(s, i, t);
    FirstPlace();
    assert s[i + 1..i + 1 + |fraction|] == fraction;
    FractionIsRead(s, i + 1, i + 1 + |fraction|, t.(decimal := true, multi := 0.1), 0, 0, t.val);
    assert 0 + (i + 1 + |fraction| - (i + 1)) == |fraction|;
  }

  lemma FirstPlace()
    ensures Tenth(1) == 0.1 && Decimal(0, 0) == 0.0
  {
  }

  /** A text of amounts with units is read as what they come to, whatever the units and their order. */
  lemma {:induction false} PartsAreRead(s: string, i: nat, parts: seq<Part>, ret: real, negate: bool)
    requires At(s, i, PartsText(parts)) && i + |PartsText(parts)| == |s|
    requires forall k :: 0 <= k < |parts| ==> AllDigits(parts[k].fraction)
    ensures TdFrom(s, i, Td(ret, 0.0, false, 0.1, negate)) ==
            (ret + PartsValue(parts)) * if negate then -1.0 else 1.0
    decreases |parts|
  {
    hide TdFrom, PartValue, PartText;
    if parts == [] {
      AtTheEnd(s, Td(ret, 0.0, false, 0.1, negate));
    } else {
      var n := i + |PartText(parts[0])|;
      AtSplit(s, i, PartText(parts[0]), PartsText(parts[1..]));
      if n < |s| {
        NoUnitFirst(parts[1..]);
        assert s[n] == s[n..n + |PartsText(parts[1..])|][0];
      }
      PartIsRead(s, i, parts[0], ret, negate);
      PartsAreRead(s, n, parts[1..], ret + PartValue(parts[0]), negate);
    }
  }

  lemma AtTheEnd(s: string, t: Td)
    ensures TdFrom(s, |s|, t) == (t.ret + t.val) * if t.negate then -1.0 else 1.0
  {
  }

  lemma NoUnitFirst(parts: seq<Part>)
    requires PartsText(parts) != ""
    ensures PartsText(parts)[0] != 's'
  {
    assert PartText(parts[0])[0] == Digits(parts[0].whole)[0];
  }

  /** Durations: a sign, and amounts with their units. */
  lemma DurationsMean(parts: seq<Part>, negate: bool)
    requires forall k :: 0 <= k < |parts| ==> AllDigits(parts[k].fraction)
    ensures TdFrom((if negate then "-" else "") + PartsText(parts), 0, START) ==
            PartsValue(parts) * if negate then -1.0 else 1.0
  {
    hide TdFrom, PartsText;
    var text := PartsText(parts);
    if negate {
      SignTurn("-" + text);
      assert ("-" + text)[1..1 + |text|] == text;
      PartsAreRead("-" + text, 1, parts, 0.0, true);
    } else {
      assert "" + text == text && text[0..0 + |text|] == text;
      PartsAreRead(text, 0, parts, 0.0, false);
    }
  }

  lemma SignTurn(s: string)
    requires s != "" && s[0] == '-'
    ensures TdFrom(s, 0, START) == TdFrom(s, 1, Td(0.0, 0.0, false, 0.1, true))
  {
  }

  /** How numbers are printed: for instance. */
  lemma PrintedText()
    ensures Print(0) == "0" && Print(1) == "1" && Print(36) == "36" && Print(250) == "250"
    ensures Print(-7) == "-7" && Print(-32) == "-32"
  {
    assert Digits(2) == "2" && Digits(25) == "25";
    assert Digits(3) == "3" && Digits(32) == "32";
  }
}
