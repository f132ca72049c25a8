/** Word wrapping by glyph width, from src/util.cpp: text_width, text_max_word_width and text_word_wrap. */
module WordWrap {
  import opened Bytes

  type Text = seq<byte>

  const SPACE: byte := 32

  type Glyph = n: nat | n <= 11

  /** The table of glyph widths, sixteen to a row. */
  function Row(r: nat): (sizes: seq<Glyph>)
    ensures |sizes| == 16
  {
    match r
    case 0 => [3, 3, 3, 3, 3, 3, 3, 3, 3, 3, 3, 3, 3, 3, 3, 3]
    case 1 => [3, 3, 3, 3, 3, 3, 3, 3, 3, 3, 3, 3, 3, 3, 3, 3]
    case 2 => [3, 3, 5, 7, 6, 8, 6, 2, 3, 3, 4, 6, 3, 3, 3, 5]
    case 3 => [6, 6, 6, 6, 6, 6, 6, 6, 6, 6, 3, 3, 6, 6, 6, 6]
    case 4 => [11, 7, 7, 7, 8, 7, 6, 8, 8, 3, 5, 7, 6, 9, 8, 8]
    case 5 => [7, 8, 8, 7, 7, 8, 7, 11, 7, 7, 7, 3, 5, 3, 6, 6]
    case 6 => [3, 6, 6, 6, 6, 6, 3, 6, 6, 2, 2, 6, 2, 8, 6, 6]
    case 7 => [6, 6, 3, 5, 3, 6, 6, 8, 5, 5, 5, 4, 2, 4, 7, 3]
    case 8 => [0, 0, 0, 0, 0, 0, 0, 0, 0, 0, 0, 0, 0, 0, 0, 0]
    case 9 => [0, 0, 0, 0, 0, 0, 0, 0, 0, 0, 0, 0, 0, 0, 0, 0]
    case 10 => [3, 3, 6, 6, 6, 6, 2, 6, 3, 9, 4, 6, 6, 3, 8, 6]
    case 11 => [4, 6, 3, 3, 3, 6, 6, 3, 3, 3, 4, 6, 8, 8, 8, 6]
    case 12 => [7, 7, 7, 7, 7, 7, 10, 7, 7, 7, 7, 7, 3, 3, 3, 3]
    case 13 => [8, 8, 8, 8, 8, 8, 8, 6, 8, 8, 8, 8, 8, 7, 7, 6]
    case 14 => [6, 6, 6, 6, 6, 6, 10, 6, 6, 6, 6, 6, 2, 4, 4, 4]
    case _ => [6, 6, 6, 6, 6, 6, 6, 6, 6, 6, 6, 6, 6, 5, 6, 5]
  }

  function Size(c: byte): (n: Glyph)
  {
    Row(c as int / 16)[c as int % 16]
  }

  /** The same by width: which glyphs are how wide. */
  predicate OfWidth(w: nat, c: byte)
  {
    match w
    case 0 => 128 <= c <= 159
    case 2 => c == 39 || 105 <= c <= 106 || c == 108 || c == 124 || c == 166 || c == 236
    case 3 =>
      || 0 <= c <= 33 || 40 <= c <= 41 || 44 <= c <= 46 || 58 <= c <= 59 || c == 73 || c == 91 || c == 93
      || c == 96 || c == 102 || c == 114 || c == 116 || c == 127 || 160 <= c <= 161 || c == 168 || c == 173
      || 178 <= c <= 180 || 183 <= c <= 185 || 204 <= c <= 207
    case 4 => c == 42 || c == 123 || c == 125 || c == 170 || c == 176 || c == 186 || 237 <= c <= 239
    case 5 => c == 34 || c == 47 || c == 74 || c == 92 || c == 115 || 120 <= c <= 122 || c == 253 || c == 255
    case 6 =>
      || c == 36 || c == 38 || c == 43 || 48 <= c <= 57 || 60 <= c <= 63 || c == 70 || c == 76 || 94 <= c <= 95
      || 97 <= c <= 101 || 103 <= c <= 104 || c == 107 || 110 <= c <= 113 || 117 <= c <= 118 || 162 <= c <= 165
      || c == 167 || 171 <= c <= 172 || c == 175 || c == 177 || 181 <= c <= 182 || c == 187 || c == 191
      || c == 215 || 223 <= c <= 229 || 231 <= c <= 235 || 240 <= c <= 252 || c == 254
    case 7 =>
      || c == 35 || 65 <= c <= 67 || c == 69 || c == 75 || c == 80 || 83 <= c <= 84 || c == 86 || 88 <= c <= 90
      || c == 126 || 192 <= c <= 197 || 199 <= c <= 203 || 221 <= c <= 222
    case 8 =>
      || c == 37 || c == 68 || 71 <= c <= 72 || 78 <= c <= 79 || 81 <= c <= 82 || c == 85 || c == 109
      || c == 119 || c == 174 || 188 <= c <= 190 || 208 <= c <= 214 || 216 <= c <= 220
    case 9 => c == 77 || c == 169
    case 10 => c == 198 || c == 230
    case 11 => c == 64 || c == 87
    case _ => false
  }

  lemma GlyphsByWidth(c: byte, w: nat)
    ensures Size(c) == w <==> OfWidth(w, c)
  {
    hide Size, OfWidth;
    HasItsWidth(c);
    if OfWidth(w, c) {
      OneWidth(c, w, Size(c));
    }
  }

  lemma OneWidth(c: byte, v: nat, w: nat)
    requires OfWidth(v, c) && OfWidth(w, c)
    ensures v == w
  {
  }

  lemma HasItsWidth(c: byte)
    ensures OfWidth(Size(c), c)
  {
    if c < 16 {
      InRow0(c);
    } else if c < 32 {
      InRow1(c);
    } else if c < 48 {
      InRow2(c);
    } else if c < 64 {
      InRow3(c);
    } else if c < 80 {
      InRow4(c);
    } else if c < 96 {
      InRow5(c);
    } else if c < 112 {
      InRow6(c);
    } else if c < 128 {
      InRow7(c);
    } else if c < 144 {
      InRow8(c);
    } else if c < 160 {
      InRow9(c);
    } else if c < 176 {
      InRow10(c);
    } else if c < 192 {
      InRow11(c);
    } else if c < 208 {
      InRow12(c);
    } else if c < 224 {
      InRow13(c);
    } else if c < 240 {
      InRow14(c);
    } else {
      InRow15(c);
    }
  }

  lemma InRow0(c: byte)
    requires 0 <= c < 16
    ensures OfWidth(Size(c), c)
  {
  }

  lemma InRow1(c: byte)
    requires 16 <= c < 32
    ensures OfWidth(Size(c), c)
  {
  }

  lemma InRow2(c: byte)
    requires 32 <= c < 48
    ensures OfWidth(Size(c), c)
  {
  }

  lemma InRow3(c: byte)
    requires 48 <= c < 64
    ensures OfWidth(Size(c), c)
  {
  }

  lemma InRow4(c: byte)
    requires 64 <= c < 80
    ensures OfWidth(Size(c), c)
  {
  }

  lemma InRow5(c: byte)
    requires 80 <= c < 96
    ensures OfWidth(Size(c), c)
  {
  }

  lemma InRow6(c: byte)
    requires 96 <= c < 112
    ensures OfWidth(Size(c), c)
  {
  }

  lemma InRow7(c: byte)
    requires 112 <= c < 128
    ensures OfWidth(Size(c), c)
  {
  }

  lemma InRow8(c: byte)
    requires 128 <= c < 144
    ensures OfWidth(Size(c), c)
  {
  }

  lemma InRow9(c: byte)
    requires 144 <= c < 160
    ensures OfWidth(Size(c), c)
  {
  }

  lemma InRow10(c: byte)
    requires 160 <= c < 176
    ensures OfWidth(Size(c), c)
  {
  }

  lemma InRow11(c: byte)
    requires 176 <= c < 192
    ensures OfWidth(Size(c), c)
  {
  }

  lemma InRow12(c: byte)
    requires 192 <= c < 208
    ensures OfWidth(Size(c), c)
  {
  }

  lemma InRow13(c: byte)
    requires 208 <= c < 224
    ensures OfWidth(Size(c), c)
  {
  }

  lemma InRow14(c: byte)
    requires 224 <= c < 240
    ensures OfWidth(Size(c), c)
  {
  }

  lemma InRow15(c: byte)
    requires 240 <= c
    ensures OfWidth(Size(c), c)
  {
  }

  // ---------------------------------------------------------------- widths

  function Width(s: Text): (n: nat)
  {
    if s == [] then 0 else Width(s[..|s| - 1]) + Size(s[|s| - 1])
  }

  /** The width of the word a text ends in. */
  function Tail(s: Text): (n: nat)
  {
    if s == [] || s[|s| - 1] == SPACE then 0 else Tail(s[..|s| - 1]) + Size(s[|s| - 1])
  }

  function Max(a: nat, b: nat): (n: nat)
    ensures n >= a && n >= b && (n == a || n == b)
  {
    if a < b then b else a
  }

  /** The widest word. */
  function MaxWord(s: Text): (n: nat)
  {
    if s == [] then 0 else Max(MaxWord(s[..|s| - 1]), Tail(s))
  }

  /** `MaxWord` is the maximum over all pieces without a space. */
  lemma {:induction false} MaxWordIsMaximum(s: Text, i: nat, j: nat)
    requires i <= j <= |s| && SPACE !in s[i..j]
    ensures Width(s[i..j]) <= MaxWord(s)
    ensures j == |s| ==> Width(s[i..j]) <= Tail(s)
  {
    hide Size;
    if i < j {
      if j == |s| {
        assert s[i..j][..j - i - 1] == s[..j - 1][i..j - 1];
        assert s[i..j][j - i - 1] == s[j - 1];
        MaxWordIsMaximum(s[..j - 1], i, j - 1);
      } else {
        assert s[i..j] == s[..|s| - 1][i..j];
        MaxWordIsMaximum(s[..|s| - 1], i, j);
      }
    }
  }

  lemma {:induction false} MaxWordIsAttained(s: Text) returns (i: nat, j: nat)
    ensures i <= j <= |s| && SPACE !in s[i..j] && Width(s[i..j]) == MaxWord(s)
  {
    if s == [] {
      i, j := 0, 0;
    } else if MaxWord(s) == Tail(s) {
      i := TailIsAWord(s);
      j := |s|;
      assert s[i..j] == s[i..];
    } else {
      i, j := MaxWordIsAttained(s[..|s| - 1]);
      assert s[..|s| - 1][i..j] == s[i..j];
    }
  }

  lemma {:induction false} TailIsAWord(s: Text) returns (i: nat)
    ensures i <= |s| && SPACE !in s[i..] && Width(s[i..]) == Tail(s)
  {
    hide Size;
    i := |s|;
    if s != [] && s[|s| - 1] != SPACE {
      i := TailIsAWord(s[..|s| - 1]);
      assert s[i..][..|s| - i - 1] == s[..|s| - 1][i..];
    }
  }

  method TextWidth(text: Text) returns (length: int)
    ensures length == Width(text)
  {
    length := 0;
    for i := 0 to |text|
      invariant length == Width(text[..i])
    {
      assert text[..i + 1][..i] == text[..i];
      length := length + Size(text[i]);
    }
    assert text[..|text|] == text;
  }

  method TextMaxWordWidth(text: Text) returns (r: int)
    ensures r == MaxWord(text)
  {
    var maxLength := 0;
    var length := 0;
    for i := 0 to |text|
      invariant length == Tail(text[..i]) && maxLength >= 0
      invariant Max(maxLength, length) == MaxWord(text[..i])
    {
      assert text[..i + 1][..i] == text[..i];
      if text[i] == SPACE {
        maxLength := Max(maxLength, length);
        length := 0;
      } else {
        length := length + Size(text[i]);
      }
    }
    assert text[..|text|] == text;
    r := Max(maxLength, length);
  }

  // ---------------------------------------------------------------- the wrapping loop

  /** The loop between two iterations, or how it ended: it throws where it would insert before the text. */
  datatype Loop = Running(text: Text, i: nat, length: nat) | Returned(text: Text) | Thrown

  function Step(s: Loop, width: int): (r: Loop)
    requires s.Running? ==> s.i <= |s.text|
    ensures r.Running? ==> r.i <= |r.text|
  {
    if !s.Running? then s
    else if s.i == |s.text| then Returned(s.text)
    else if s.text[s.i] == SPACE then Running(s.text, s.i + 1, 0)
    else if s.length + Size(s.text[s.i]) <= width then Running(s.text, s.i + 1, s.length + Size(s.text[s.i]))
    else if s.i == 0 then Thrown
    else Running(s.text[..s.i - 1] + [SPACE] + s.text[s.i - 1..], s.i + 1, 0)
  }

  function Run(s: Loop, width: int, n: nat): (r: Loop)
    requires s.Running? ==> s.i <= |s.text|
    decreases n
  {
    if n == 0 then s else Run(Step(s, width), width, n - 1)
  }

  /** No glyph is wider than a line. */
  predicate Fits(s: Text, width: int)
  {
    forall k :: 0 <= k < |s| && s[k] != SPACE ==> Size(s[k]) <= width
  }

  predicate Ready(s: Loop, width: int)
  {
    && s.Running? && s.i <= |s.text| && Fits(s.text[s.i..], width)
    && (s.length > 0 ==> s.i > 0 && s.text[s.i - 1] != SPACE && s.length <= width)
  }

  /** An iteration that inserts does not shorten the rest, but the next one does not insert again. */
  lemma StepReady(s: Loop, width: int)
    requires Ready(s, width) && s.i < |s.text|
    ensures var t := Step(s, width);
            && Ready(t, width)
            && if |t.text| == |s.text| then t.text == s.text && t.i == s.i + 1
               else
                 && t.text == s.text[..s.i - 1] + [SPACE, s.text[s.i - 1]] + s.text[s.i..] && t.i == s.i + 1
                 && t.text[t.i..] == s.text[s.i..]
                 && 0 == t.length < s.length && s.length + Size(s.text[s.i]) > width
                 && s.text[s.i] != SPACE && s.text[s.i - 1] != SPACE
  {
    hide Size;
    assert s.text[s.i..][0] == s.text[s.i];
    assert s.text[s.i..][1..] == s.text[s.i + 1..];
    if s.text[s.i] != SPACE && s.length + Size(s.text[s.i]) > width {
      assert s.text[s.i - 1..] == [s.text[s.i - 1]] + s.text[s.i..];
    }
  }

  /** What the loop returns. */
  function Wrap(s: Loop, width: int): (r: Text)
    requires Ready(s, width)
    decreases |s.text| - s.i, s.length
  {
    if s.i == |s.text| then s.text
    else
      StepReady(s, width);
      Wrap(Step(s, width), width)
  }

  function Wrapped(text: Text, width: int): (r: Text)
    requires Fits(text, width)
  {
    assert text[0..] == text;
    Wrap(Running(text, 0, 0), width)
  }

  // ---------------------------------------------------------------- whether it ends

  lemma {:induction false} RunsToItsEnd(s: Loop, width: int) returns (n: nat)
    requires Ready(s, width)
    ensures Run(s, width, n) == Returned(Wrap(s, width))
    decreases |s.text| - s.i, s.length
  {
    hide Size;
    if s.i == |s.text| {
      n := 1;
      assert Run(Step(s, width), width, 0) == Returned(s.text);
    } else {
      StepReady(s, width);
      hide Step, Ready;
      var m := RunsToItsEnd(Step(s, width), width);
      n := m + 1;
    }
  }

  /** A glyph wider than a line is never passed. */
  lemma {:induction false} NeverReturns(s: Loop, width: int, n: nat)
    requires s.Thrown? || (s.Running? && s.i <= |s.text| && !Fits(s.text[s.i..], width))
    ensures !Run(s, width, n).Returned?
    ensures s.Running? && s.i > 0 ==> Run(s, width, n).Running?
    decreases n
  {
    hide Size;
    if n > 0 {
      if s.Running? {
        var k :| 0 <= k < |s.text[s.i..]| && s.text[s.i..][k] != SPACE && Size(s.text[s.i..][k]) > width;
        var t := Step(s, width);
        if t.Running? {
          if |t.text| == |s.text| {
            assert t.text[t.i..][k - 1] == s.text[s.i..][k];
          } else {
            assert t.text[t.i..][k] == s.text[s.i..][k];
          }
        }
      }
      NeverReturns(Step(s, width), width, n - 1);
    }
  }

  /** text_word_wrap returns exactly if no glyph is wider than a line. */
  lemma ReturnsIffEverythingFits(text: Text, width: int)
    ensures (exists n: nat :: Run(Running(text, 0, 0), width, n).Returned?) <==> Fits(text, width)
  {
    var s := Running(text, 0, 0);
    assert text[0..] == text;
    if Fits(text, width) {
      var n := RunsToItsEnd(s, width);
    } else {
      forall n: nat
        ensures !Run(s, width, n).Returned?
      {
        NeverReturns(s, width, n);
      }
    }
  }

  /** Otherwise it throws at once if the first glyph is too wide, and inserts spaces forever if only a later one is. */
  lemma ThrowsOrInsertsForever(text: Text, width: int, n: nat)
    requires !Fits(text, width)
    ensures Run(Running(text, 0, 0), width, n + 1).Thrown? <==> text[0] != SPACE && Size(text[0]) > width
    ensures Run(Running(text, 0, 0), width, n + 1).Running? <==> text[0] == SPACE || Size(text[0]) <= width
  {
    hide Size;
    var s := Running(text, 0, 0);
    assert text[0..] == text;
    var t := Step(s, width);
    if t.Thrown? {
      StaysThrown(width, n);
    } else {
      assert !Fits(t.text[t.i..], width) by {
        var k :| 0 <= k < |text| && text[k] != SPACE && Size(text[k]) > width;
        assert t.text[t.i..][k - 1] == text[k];
      }
      NeverReturns(t, width, n);
    }
  }

  lemma {:induction false} StaysThrown(width: int, n: nat)
    ensures Run(Thrown, width, n) == Thrown
  {
    if n > 0 {
      StaysThrown(width, n - 1);
    }
  }

  // ---------------------------------------------------------------- what it returns

  /** `r` is `t` with spaces inserted. */
  predicate Spaced(t: Text, r: Text)
  {
    if r == [] then t == []
    else
      || (t != [] && t[|t| - 1] == r[|r| - 1] && Spaced(t[..|t| - 1], r[..|r| - 1]))
      || (r[|r| - 1] == SPACE && Spaced(t, r[..|r| - 1]))
  }

  function WithoutSpaces(s: Text): (r: Text)
  {
    if s == [] then []
    else WithoutSpaces(s[..|s| - 1]) + if s[|s| - 1] == SPACE then [] else [s[|s| - 1]]
  }

  lemma {:induction false} SpacedKeepsTheRest(t: Text, r: Text)
    requires Spaced(t, r)
    ensures WithoutSpaces(t) == WithoutSpaces(r) && |t| <= |r|
  {
    if r != [] {
      if t != [] && t[|t| - 1] == r[|r| - 1] && Spaced(t[..|t| - 1], r[..|r| - 1]) {
        SpacedKeepsTheRest(t[..|t| - 1], r[..|r| - 1]);
      } else {
        SpacedKeepsTheRest(t, r[..|r| - 1]);
      }
    }
  }

  lemma SpacedGrows(t: Text, r: Text, c: byte)
    requires Spaced(t, r)
    ensures Spaced(t + [c], r + [c])
    ensures Spaced(t, r + [SPACE])
  {
    assert (t + [c])[..|t|] == t && (r + [c])[..|r|] == r && (r + [SPACE])[..|r|] == r;
  }

  /** A space goes in before the last glyph. */
  lemma SpacedBeforeLast(t: Text, q: Text, g: byte)
    requires Spaced(t, q + [g]) && g != SPACE
    ensures Spaced(t, q + [SPACE, g])
  {
    assert (q + [g])[..|q|] == q;
    SpacedGrows(t[..|t| - 1], q, g);
    SpacedGrows(t[..|t| - 1], q + [SPACE], g);
    assert q + [SPACE] + [g] == q + [SPACE, g];
    assert t[..|t| - 1] + [g] == t;
  }

  /** The loop only inserts spaces: `done` is the part of the original before the position. */
  lemma {:induction false} WrapSpaces(s: Loop, width: int, done: Text)
    requires Ready(s, width) && Spaced(done, s.text[..s.i])
    ensures Spaced(done + s.text[s.i..], Wrap(s, width))
    decreases |s.text| - s.i, s.length
  {
    if s.i == |s.text| {
      assert s.text[..s.i] == s.text && done + s.text[s.i..] == done;
    } else {
      StepReady(s, width);
      WrapStep(s, width);
      var next := StepSpaces(s, width, done);
      hide *;
      WrapSpaces(Step(s, width), width, next);
    }
  }

  lemma StepSpaces(s: Loop, width: int, done: Text) returns (next: Text)
    requires Ready(s, width) && s.i < |s.text| && Spaced(done, s.text[..s.i]) && Ready(Step(s, width), width)
    ensures Spaced(next, Step(s, width).text[..Step(s, width).i])
    ensures next + Step(s, width).text[Step(s, width).i..] == done + s.text[s.i..]
  {
    var t := Step(s, width);
    StepReady(s, width);
    hide Size, Spaced, Step, Ready, Fits;
    if |t.text| == |s.text| {
      next := done + [s.text[s.i]];
      CopyGlyph(s.text, s.i, done);
    } else {
      next := done;
      InsertSpaces(s.text, s.i, done);
      assert t.text[..t.i] == s.text[..s.i - 1] + [SPACE, s.text[s.i - 1]];
    }
  }

  lemma CopyGlyph(text: Text, i: nat, done: Text)
    requires i < |text| && Spaced(done, text[..i])
    ensures Spaced(done + [text[i]], text[..i + 1])
    ensures done + [text[i]] + text[i + 1..] == done + text[i..]
  {
    hide Spaced;
    assert text[..i + 1] == text[..i] + [text[i]];
    SpacedGrows(done, text[..i], text[i]);
  }

  lemma InsertSpaces(text: Text, i: nat, done: Text)
    requires 0 < i <= |text| && Spaced(done, text[..i]) && text[i - 1] != SPACE
    ensures Spaced(done, text[..i - 1] + [SPACE, text[i - 1]])
  {
    hide Spaced;
    assert text[..i] == text[..i - 1] + [text[i - 1]];
    SpacedBeforeLast(done, text[..i - 1], text[i - 1]);
  }

  lemma WrapStep(s: Loop, width: int)
    requires Ready(s, width) && s.i < |s.text| && Ready(Step(s, width), width)
    ensures Wrap(s, width) == Wrap(Step(s, width), width)
  {
    StepReady(s, width);
  }

  /** The words so far are at most `width + bound` wide, and the one being written, counted without its first glyph
      after an insertion, is at most `length + bound`. */
  predicate Bounded(s: Loop, width: nat, bound: nat)
    requires s.Running? && s.i <= |s.text|
  {
    MaxWord(s.text[..s.i]) <= width + bound && Tail(s.text[..s.i]) <= s.length + bound
  }

  lemma GrowsBy(p: Text, c: byte)
    ensures Tail(p + [c]) == if c == SPACE then 0 else Tail(p) + Size(c)
    ensures MaxWord(p + [c]) == Max(MaxWord(p), Tail(p + [c]))
  {
    assert (p + [c])[..|p|] == p;
  }

  lemma StepBounded(s: Loop, width: nat, bound: nat)
    requires Ready(s, width) && s.i < |s.text| && Bounded(s, width, bound)
    requires s.i > 0 && s.text[s.i - 1] != SPACE ==> Size(s.text[s.i - 1]) <= bound
    requires Ready(Step(s, width), width)
    ensures Bounded(Step(s, width), width, bound)
  {
    StepReady(s, width);
    hide Size, Tail, MaxWord, Fits;
    if |Step(s, width).text| == |s.text| {
      CopiedLength(s, width);
    }
    var t := Step(s, width);
    assert s.length <= width;
    hide Step, Ready;
    if |t.text| == |s.text| {
      CopyBounded(s.text, s.i);
    } else {
      InsertBounded(s.text, s.i);
      assert t.text == s.text[..s.i - 1] + [SPACE] + s.text[s.i - 1..];
    }
  }

  lemma CopiedLength(s: Loop, width: nat)
    requires Ready(s, width) && s.i < |s.text| && Ready(Step(s, width), width) && |Step(s, width).text| == |s.text|
    ensures Step(s, width).length == if s.text[s.i] == SPACE then 0 else s.length + Size(s.text[s.i])
  {
    hide Size;
  }

  lemma CopyBounded(text: Text, i: nat)
    requires i < |text|
    ensures Tail(text[..i + 1]) == if text[i] == SPACE then 0 else Tail(text[..i]) + Size(text[i])
    ensures MaxWord(text[..i + 1]) == Max(MaxWord(text[..i]), Tail(text[..i + 1]))
  {
    hide Size, Tail, MaxWord;
    GrowsBy(text[..i], text[i]);
    assert text[..i + 1] == text[..i] + [text[i]];
  }

  /** Before the inserted space stands what stood there, behind it only the last glyph. */
  lemma InsertBounded(text: Text, i: nat)
    requires 0 < i <= |text| && text[i - 1] != SPACE
    ensures var after := text[..i - 1] + [SPACE] + text[i - 1..];
            Tail(after[..i + 1]) == Size(text[i - 1]) &&
            MaxWord(after[..i + 1]) <= Max(MaxWord(text[..i]), Size(text[i - 1]))
  {
    hide Size, Tail, MaxWord;
    var q, g := text[..i - 1], text[i - 1];
    GrowsBy(q, g);
    GrowsBy(q, SPACE);
    GrowsBy(q + [SPACE], g);
    assert text[..i] == q + [g];
    assert (q + [SPACE] + text[i - 1..])[..i + 1] == q + [SPACE] + [g];
  }

  lemma {:induction false} WrapBounded(s: Loop, width: nat, bound: nat)
    requires Ready(s, width) && Fits(s.text, bound) && Bounded(s, width, bound)
    ensures MaxWord(Wrap(s, width)) <= width + bound
    decreases |s.text| - s.i, s.length
  {
    if s.i == |s.text| {
      assert s.text[..s.i] == s.text;
    } else {
      StepReady(s, width);
      StepBounded(s, width, bound);
      WrapStep(s, width);
      FitsStep(s, width, bound);
      hide *;
      WrapBounded(Step(s, width), width, bound);
    }
  }

  lemma FitsStep(s: Loop, width: nat, bound: nat)
    requires Ready(s, width) && s.i < |s.text| && Fits(s.text, bound) && Ready(Step(s, width), width)
    ensures Fits(Step(s, width).text, bound)
  {
    StepReady(s, width);
    hide Size;
    var t := Step(s, width);
    if |t.text| != |s.text| {
      forall k | 0 <= k < |t.text| && t.text[k] != SPACE
        ensures Size(t.text[k]) <= bound
      {
        assert t.text[k] == s.text[if k < s.i then k else k - 1];
      }
    }
  }

  lemma {:induction false} WrapGrows(s: Loop, width: int)
    requires Ready(s, width)
    ensures |Wrap(s, width)| >= |s.text|
    decreases |s.text| - s.i, s.length
  {
    if s.i < |s.text| {
      StepReady(s, width);
      WrapStep(s, width);
      hide *;
      WrapGrows(Step(s, width), width);
    }
  }

  lemma {:induction false} PrefixMaxWord(s: Text, j: nat)
    requires j <= |s|
    ensures MaxWord(s[..j]) <= MaxWord(s)
  {
    if j < |s| {
      PrefixMaxWord(s[..|s| - 1], j);
      assert s[..|s| - 1][..j] == s[..j];
    } else {
      assert s[..j] == s;
    }
  }

  /** As long as nothing was inserted the loop knows the width of the word it is in. */
  predicate Untouched(s: Loop, width: nat)
    requires s.Running? && s.i <= |s.text|
  {
    s.length == Tail(s.text[..s.i]) && MaxWord(s.text[..s.i]) <= width
  }

  lemma {:induction false} WrapChanges(s: Loop, width: nat)
    requires Ready(s, width) && Untouched(s, width)
    ensures Wrap(s, width) == s.text <==> MaxWord(s.text) <= width
    decreases |s.text| - s.i, s.length
  {
    if s.i == |s.text| {
      assert s.text[..s.i] == s.text;
    } else {
      var t := Step(s, width);
      StepReady(s, width);
      WrapStep(s, width);
      if |t.text| == |s.text| {
        StepUntouched(s, width);
        hide *;
        WrapChanges(t, width);
      } else {
        WrapGrows(t, width);
        hide Wrap, Step, Ready, Tail, MaxWord;
        CopyBounded(s.text, s.i);
        PrefixMaxWord(s.text, s.i + 1);
      }
    }
  }

  lemma StepUntouched(s: Loop, width: nat)
    requires Ready(s, width) && Untouched(s, width) && s.i < |s.text| && |Step(s, width).text| == |s.text|
    ensures Untouched(Step(s, width), width)
  {
    hide Size, Tail, MaxWord;
    StepReady(s, width);
    CopyBounded(s.text, s.i);
  }

  /** Text whose glyphs are at most `bound` wide, and no wider than a line, only gains spaces, none at all exactly if
      every word fits a line already, and has no word wider than `width + bound` afterwards. */
  lemma WrapMeaning(text: Text, width: nat, bound: nat)
    requires Fits(text, width) && Fits(text, bound)
    ensures Spaced(text, Wrapped(text, width)) && WithoutSpaces(Wrapped(text, width)) == WithoutSpaces(text)
    ensures Wrapped(text, width) == text <==> MaxWord(text) <= width
    ensures MaxWord(Wrapped(text, width)) <= width + bound
  {
    var s := Running(text, 0, 0);
    assert text[0..] == text;
    WrapSpaces(s, width, []);
    assert [] + text == text;
    SpacedKeepsTheRest(text, Wrapped(text, width));
    WrapBounded(s, width, bound);
    WrapChanges(s, width);
  }

  /** For every line of at least 11, the widest glyph, that is at most 11 too much. */
  lemma WideEnoughLines(text: Text, width: nat)
    requires width >= 11
    ensures Fits(text, width) && MaxWord(Wrapped(text, width)) <= width + 11
  {
    WrapMeaning(text, width, 11);
  }

  /** And 11 too much it can be: two of the widest glyphs on a line of 11 only get a space in front. */
  lemma ElevenTooMuch()
    ensures Fits([64, 87], 11) && Wrapped([64, 87], 11) == [SPACE, 64, 87] && MaxWord([SPACE, 64, 87]) == 11 + 11
  {
    var text: Text := [64, 87];
    var after: Text := [SPACE, 64, 87];
    assert Size(64) == 11 && Size(87) == 11;
    WideEnoughLines(text, 11);
    hide Size;
    ElevenTooWide(after);
    assert [text[0]] + text[1..] == text;
    assert Step(Running(text, 0, 0), 11) == Running(text, 1, 11);
    assert text[..0] + [SPACE] + text[0..] == after;
    assert Step(Running(text, 1, 11), 11) == Running(after, 2, 0);
    assert Step(Running(after, 2, 0), 11) == Running(after, 3, 11);
    assert Wrapped(text, 11) == Wrap(Running(text, 1, 11), 11) == Wrap(Running(after, 2, 0), 11)
        == Wrap(Running(after, 3, 11), 11) == after;
  }

  lemma ElevenTooWide(text: Text)
    requires text == [SPACE, 64, 87] && Size(64) == 11 && Size(87) == 11
    ensures MaxWord(text) == 22
  {
    hide Size, MaxWord, Tail;
    WordOfTwo(64, 87);
  }

  lemma WordOfTwo(a: byte, b: byte)
    requires a != SPACE && b != SPACE
    ensures MaxWord([SPACE, a, b]) == Size(a) + Size(b)
  {
    hide *;
    EmptyText();
    GrowsBy([], SPACE);
    GrowsBy([SPACE], a);
    GrowsBy([SPACE, a], b);
    OneByOne(a, b);
  }

  lemma EmptyText()
    ensures MaxWord([]) == 0 && Tail([]) == 0
  {
  }

  lemma OneByOne(a: byte, b: byte)
    ensures [] + [SPACE] == [SPACE] && [SPACE] + [a] == [SPACE, a] && [SPACE, a] + [b] == [SPACE, a, b]
  {
  }

  method TextWordWrap(text: Text, width: int) returns (result: Text)
    requires Fits(text, width)
    ensures result == Wrapped(text, width)
  {
    var length := 0;
    result := text;
    var i := 0;
    assert text[0..] == text;
    while i < |result|
      invariant 0 <= i <= |result| && length >= 0
      invariant Ready(Running(result, i, length), width)
      invariant Wrap(Running(result, i, length), width) == Wrapped(text, width)
      decreases |result| - i, length
    {
      ghost var s := Running(result, i, length);
      StepReady(s, width);
      WrapStep(s, width);
      if result[i] == SPACE {
        length := 0;
      } else {
        length := length + Size(result[i]);
        if length > width {
          result := result[..i - 1] + [SPACE] + result[i - 1..];
          length := 0;
        }
      }
      i := i + 1;
      assert Step(s, width) == Running(result, i, length);
    }
  }

  /** The same loop on any text, for as many turns as are looked at: it may have returned, thrown, or still run. */
  method Turns(text: Text, width: int, turns: nat) returns (loop: Loop)
    ensures loop == Run(Running(text, 0, 0), width, turns)
  {
    hide Size;
    var result, i, length := text, 0, 0;
    for turn := 0 to turns
      invariant 0 <= i <= |result| && length >= 0
      invariant Run(Running(text, 0, 0), width, turns) == Run(Running(result, i, length), width, turns - turn)
    {
      ghost var s := Running(result, i, length);
      if i == |result| {
        ReturnedStays(result, width, turns - turn - 1);
        return Returned(result);
      }
      if result[i] == SPACE {
        length := 0;
      } else {
        length := length + Size(result[i]);
        if length > width {
          if i == 0 {
            StaysThrown(width, turns - turn - 1);
            return Thrown;
          }
          result := result[..i - 1] + [SPACE] + result[i - 1..];
          length := 0;
        }
      }
      i := i + 1;
      assert Step(s, width) == Running(result, i, length);
      hide Step;
    }
    loop := Running(result, i, length);
  }

  lemma {:induction false} ReturnedStays(text: Text, width: int, n: nat)
    ensures Run(Returned(text), width, n) == Returned(text)
  {
    if n > 0 {
      ReturnedStays(text, width, n - 1);
    }
  }
}
