/** The save strings of characters and guilds: src/character.cpp, src/guild.cpp, and explode from src/util.cpp. */
module Serializers {
  import opened Common
  import opened Numbers

  // ---------------------------------------------------------------- explode

  function Explode(d: char, s: string): (pieces: seq<string>)
    ensures pieces != []
  {
    if s == [] then [""]
    else
      var rest := Explode(d, s[1..]);
      if s[0] == d then [""] + rest else [[s[0]] + rest[0]] + rest[1..]
  }

  function Join(d: char, pieces: seq<string>): (s: string)
    requires pieces != []
  {
    if |pieces| == 1 then pieces[0] else pieces[0] + [d] + Join(d, pieces[1..])
  }

  /** The pieces joined again are the text. */
  lemma {:induction false} JoinExplode(d: char, s: string)
    ensures Join(d, Explode(d, s)) == s
  {
    if s != [] {
      JoinExplode(d, s[1..]);
      var rest := Explode(d, s[1..]);
      JoinCons(d, s[0], rest);
      assert s == [s[0]] + s[1..];
    }
  }

  lemma JoinCons(d: char, c: char, pieces: seq<string>)
    requires pieces != []
    ensures Join(d, [""] + pieces) == [d] + Join(d, pieces)
    ensures Join(d, [[c] + pieces[0]] + pieces[1..]) == [c] + Join(d, pieces)
  {
    assert ([""] + pieces)[1..] == pieces;
    assert "" + [d] + Join(d, pieces) == [d] + Join(d, pieces);
    var longer := [[c] + pieces[0]] + pieces[1..];
    assert longer[1..] == pieces[1..];
    if |pieces| > 1 {
      var tail := Join(d, pieces[1..]);
      assert [c] + pieces[0] + [d] + tail == [c] + (pieces[0] + [d] + tail);
    }
  }

  /** No piece contains the delimiter. */
  lemma {:induction false} PiecesAreClean(d: char, s: string)
    ensures forall k :: 0 <= k < |Explode(d, s)| ==> d !in Explode(d, s)[k]
  {
    if s != [] {
      PiecesAreClean(d, s[1..]);
    }
  }

  lemma {:induction false} ExplodePiece(d: char, piece: string, rest: string)
    requires d !in piece
    ensures Explode(d, piece + [d] + rest) == [piece] + Explode(d, rest)
    ensures Explode(d, piece) == [piece]
  {
    if piece == [] {
      assert [] + [d] + rest == [d] + rest;
    } else {
      ExplodePiece(d, piece[1..], rest);
      assert (piece + [d] + rest)[1..] == piece[1..] + [d] + rest;
      assert [piece[0]] + piece[1..] == piece;
    }
  }

  /** Nothing else explodes into the same pieces: they are the text cut at every delimiter. */
  lemma {:induction false} ExplodeJoin(d: char, pieces: seq<string>)
    requires pieces != [] && forall k :: 0 <= k < |pieces| ==> d !in pieces[k]
    ensures Explode(d, Join(d, pieces)) == pieces
  {
    if |pieces| == 1 {
      ExplodePiece(d, pieces[0], []);
    } else {
      ExplodeJoin(d, pieces[1..]);
      ExplodePiece(d, pieces[0], Join(d, pieces[1..]));
    }
  }

  /** find_first_of from a position; the length of the text where the source has npos. */
  method FindFirstOf(s: string, d: char, from: nat) returns (p: nat)
    requires from <= |s|
    ensures from <= p <= |s| && d !in s[from..p]
    ensures p < |s| ==> s[p] == d
  {
    p := from;
    while p < |s| && s[p] != d
      invariant from <= p <= |s| && d !in s[from..p]
    {
      p := p + 1;
    }
  }

  lemma ExplodeAt(s: string, d: char, from: nat, p: nat)
    requires from <= p <= |s| && d !in s[from..p]
    ensures p == |s| ==> Explode(d, s[from..]) == [s[from..p]]
    ensures p < |s| && s[p] == d ==> Explode(d, s[from..]) == [s[from..p]] + Explode(d, s[p + 1..])
  {
    if p == |s| {
      assert s[from..] == s[from..p];
      ExplodePiece(d, s[from..p], []);
    } else if s[p] == d {
      assert s[from..] == s[from..p] + [d] + s[p + 1..];
      ExplodePiece(d, s[from..p], s[p + 1..]);
    }
  }

  method ExplodeText(delimiter: char, str: string) returns (pieces: seq<string>)
    ensures pieces == Explode(delimiter, str)
  {
    hide Explode;
    pieces := [];
    var lastpos := 0;
    var pos := FindFirstOf(str, delimiter, 0);
    assert str[0..] == str;
    while pos < |str|
      invariant 0 <= lastpos <= pos <= |str| && delimiter !in str[lastpos..pos]
      invariant pos < |str| ==> str[pos] == delimiter
      invariant pieces + Explode(delimiter, str[lastpos..]) == Explode(delimiter, str)
      decreases |str| - pos
    {
      ExplodeAt(str, delimiter, lastpos, pos);
      pieces := pieces + [str[lastpos..pos]];
      lastpos := pos + 1;
      pos := FindFirstOf(str, delimiter, pos + 1);
    }
    ExplodeAt(str, delimiter, lastpos, pos);
    assert str[lastpos..] == str[lastpos..pos];
    pieces := pieces + [str[lastpos..]];
  }

  // ---------------------------------------------------------------- item and spell lists

  /** Two numbers, as items (a short id and an amount) and spells (a short id and an unsigned char level) are kept. */
  datatype Pair = Pair(id: int, count: int)

  datatype Kind = Items | Spells

  predicate InMemory(p: Pair, kind: Kind)
  {
    -32768 <= p.id <= 32767 && (kind.Spells? ==> 0 <= p.count <= 255)
  }

  function PairText(p: Pair): (s: string)
  {
    Print(p.id) + "," + Print(p.count) + ";"
  }

  function PairsText(list: seq<Pair>): (s: string)
  {
    if list == [] then "" else PairText(list[0]) + PairsText(list[1..])
  }

  lemma {:induction false} PairsTextGrows(list: seq<Pair>, p: Pair)
    ensures PairsText(list + [p]) == PairsText(list) + PairText(p)
  {
    hide PairText;
    if list == [] {
      assert [p][1..] == [];
    } else {
      PairsTextGrows(list[1..], p);
      assert (list + [p])[1..] == list[1..] + [p];
      assert (list + [p])[0] == list[0];
    }
  }

  method PairsSerialize(list: seq<Pair>) returns (serialized: string)
    ensures serialized == PairsText(list)
  {
    hide PairsText, Print;
    serialized := "";
    PairsTextNone();
    for i := 0 to |list|
      invariant serialized == PairsText(list[..i])
    {
      ghost var before := serialized;
      serialized := serialized + Print(list[i].id);
      serialized := serialized + ",";
      serialized := serialized + Print(list[i].count);
      serialized := serialized + ";";
      assert serialized == before + PairText(list[i]);
      PairsTextGrows(list[..i], list[i]);
      assert list[..i + 1] == list[..i] + [list[i]];
    }
    assert list[..|list|] == list;
  }

  lemma PairsTextNone()
    ensures PairsText([]) == ""
  {
  }

  function IndexOf(s: string, c: char): (p: nat)
    ensures p <= |s| && forall k :: 0 <= k < p ==> s[k] != c
    ensures p < |s| ==> s[p] == c
  {
    if s == [] || s[0] == c then 0 else IndexOf(s[1..], c) + 1
  }

  /** What a list of two entries looks like. */
  lemma TwoEntries()
    ensures PairsText([Pair(1, 250), Pair(-7, 0)]) == "1,250;-7,0;"
  {
    hide Print;
    PrintedText();
    assert [Pair(1, 250), Pair(-7, 0)][1..] == [Pair(-7, 0)];
    assert PairsText([Pair(-7, 0)]) == "-7,0;";
  }

  /** What one piece stands for: nothing without a comma, nothing that is out of range; what is left is cut to the
      types of the fields. */
  function PairOf(piece: string, kind: Kind): (r: Option<Pair>)
    ensures r.Some? ==> InMemory(r.value, kind)
  {
    var pp := IndexOf(piece, ',');
    if pp == |piece| then None
    else
      var id, count := ToInt(piece[..pp]), ToInt(piece[pp + 1..]);
      if id < 1 || id > 65535 || count < (if kind.Items? then 1 else 0) then None
      else Some(Pair(Short(id), if kind.Items? then count else count % 256))
  }

  function PairsOf(pieces: seq<string>, kind: Kind): (r: seq<Pair>)
  {
    if pieces == [] then []
    else (if PairOf(pieces[0], kind).Some? then [PairOf(pieces[0], kind).value] else []) + PairsOf(pieces[1..], kind)
  }

  function PairsRead(serialized: string, kind: Kind): (r: seq<Pair>)
  {
    PairsOf(Explode(';', serialized), kind)
  }

  method PairsUnserialize(serialized: string, kind: Kind) returns (list: seq<Pair>)
    ensures list == PairsRead(serialized, kind)
  {
    hide Explode, ToInt, IndexOf;
    list := [];
    var parts := ExplodeText(';', serialized);
    for i := 0 to |parts|
      invariant list + PairsOf(parts[i..], kind) == PairsOf(parts, kind)
    {
      var part := parts[i];
      assert parts[i..][1..] == parts[i + 1..];
      var pp := FindFirstOf(part, ',', 0);
      assert forall k :: 0 <= k < pp ==> part[k] == part[0..pp][k];
      FirstIsUnique(part, ',', pp);
      if pp == |part| {
        continue;
      }
      var id := ToInt(part[..pp]);
      var count := ToInt(part[pp + 1..]);
      if id < 1 || id > 65535 || count < (if kind.Items? then 1 else 0) {
        continue;
      }
      list := list + [Pair(Short(id), if kind.Items? then count else count % 256)];
    }
  }

  lemma FirstIsUnique(s: string, c: char, p: nat)
    requires p <= |s| && (forall k :: 0 <= k < p ==> s[k] != c) && (p < |s| ==> s[p] == c)
    ensures IndexOf(s, c) == p
  {
    var q := IndexOf(s, c);
    assert !(q < p) && !(p < q);
  }

  /** The entries a save keeps. */
  function Kept(list: seq<Pair>, kind: Kind): (r: seq<Pair>)
  {
    if list == [] then []
    else (if list[0].id >= 1 && (kind.Items? ==> list[0].count >= 1) then [list[0]] else []) + Kept(list[1..], kind)
  }

  /** Any two numbers: an id from 1 to 65535 is taken, as a short, with an amount of at least 1 for an item, and for a
      spell with a level of at least 0, as a byte. */
  lemma AnyPairIsRead(id: int, count: int, kind: Kind)
    ensures PairOf(Print(id) + "," + Print(count), kind) ==
            if 1 <= id <= 32767 && kind.Items? && count >= 1 then Some(Pair(id, count))
            else if 32768 <= id <= 65535 && kind.Items? && count >= 1 then Some(Pair(id - 65536, count))
            else if 1 <= id <= 32767 && kind.Spells? && count >= 0 then Some(Pair(id, count % 256))
            else if 32768 <= id <= 65535 && kind.Spells? && count >= 0 then Some(Pair(id - 65536, count % 256))
            else None
  {
    PrintedChars(id);
    PrintedIsRead(id);
    PrintedIsRead(count);
    hide Print, ToInt;
    var s := Print(id) + "," + Print(count);
    assert s[..|Print(id)|] == Print(id) && s[|Print(id)| + 1..] == Print(count);
    FirstIsUnique(s, ',', |Print(id)|);
  }

  lemma PairTextIsRead(p: Pair, kind: Kind)
    requires InMemory(p, kind)
    ensures ';' !in Print(p.id) + "," + Print(p.count)
    ensures PairOf(Print(p.id) + "," + Print(p.count), kind) ==
            if p.id >= 1 && (kind.Items? ==> p.count >= 1) then Some(p) else None
  {
    PrintedChars(p.id);
    PrintedChars(p.count);
    hide Print, PairOf;
    AnyPairIsRead(p.id, p.count, kind);
  }

  /** Item and spell lists come back from a save without the entries that have no positive id or, for items, no
      positive amount, and otherwise as they were. */
  lemma {:induction false} PairsSurvive(list: seq<Pair>, kind: Kind)
    requires forall k :: 0 <= k < |list| ==> InMemory(list[k], kind)
    ensures PairsRead(PairsText(list), kind) == Kept(list, kind)
  {
    if list == [] {
      assert Explode(';', "") == [""] && [""][1..] == [];
    } else {
      var p := list[0];
      var piece := Print(p.id) + "," + Print(p.count);
      PairTextIsRead(p, kind);
      PairsSurvive(list[1..], kind);
      hide Print, ToInt, PairOf, Explode, InMemory;
      assert PairsText(list) == piece + [';'] + PairsText(list[1..]);
      ExplodePiece(';', piece, PairsText(list[1..]));
      var rest := Explode(';', PairsText(list[1..]));
      assert ([piece] + rest)[1..] == rest;
    }
  }

  // ---------------------------------------------------------------- the paperdoll

  /** Every piece with the delimiter behind it. */
  function Closed(d: char, pieces: seq<string>): (s: string)
  {
    if pieces == [] then "" else pieces[0] + [d] + Closed(d, pieces[1..])
  }

  lemma {:induction false} ClosedGrows(d: char, pieces: seq<string>, piece: string)
    ensures Closed(d, pieces + [piece]) == Closed(d, pieces) + piece + [d]
  {
    if pieces == [] {
      assert [piece][1..] == [];
    } else {
      ClosedGrows(d, pieces[1..], piece);
      assert (pieces + [piece])[1..] == pieces[1..] + [piece];
      assert (pieces + [piece])[0] == pieces[0];
    }
  }

  lemma {:induction false} ExplodeClosed(d: char, pieces: seq<string>)
    requires forall k :: 0 <= k < |pieces| ==> d !in pieces[k]
    ensures Explode(d, Closed(d, pieces)) == pieces + [""]
  {
    if pieces != [] {
      ExplodeClosed(d, pieces[1..]);
      ExplodePiece(d, pieces[0], Closed(d, pieces[1..]));
    }
  }

  function Printed(list: seq<int>): (r: seq<string>)
    ensures |r| == |list|
  {
    seq(|list|, k requires 0 <= k < |list| => Print(list[k]))
  }

  method DollSerialize(list: seq<int>) returns (serialized: string)
    ensures serialized == Closed(',', Printed(list))
  {
    serialized := "";
    for i := 0 to |list|
      invariant serialized == Closed(',', Printed(list[..i]))
    {
      serialized := serialized + Print(list[i]);
      serialized := serialized + ",";
      ClosedGrows(',', Printed(list[..i]), Print(list[i]));
      assert Printed(list[..i + 1]) == Printed(list[..i]) + [Print(list[i])];
    }
    assert list[..|list|] == list;
  }

  /** The slots from `i` on filled from the pieces; nothing if that writes behind the last of the fifteen, which
      only a discarded piece, after which the test for the end is skipped, can lead to. */
  function DollFrom(parts: seq<string>, i: nat, doll: seq<int>): (r: Option<seq<int>>)
    requires |doll| == 15
  {
    if parts == [] then Some(doll)
    else
      var id := ToInt(parts[0]);
      if id < 0 || id > 65535 then DollFrom(parts[1..], i + 1, doll)
      else if i >= 15 then None
      else if i == 14 then Some(doll[14 := id])
      else DollFrom(parts[1..], i + 1, doll[i := id])
  }

  const EMPTY_DOLL: seq<int> := seq(15, _ => 0)

  method DollUnserialize(serialized: string) returns (r: Option<seq<int>>)
    ensures r == DollFrom(Explode(',', serialized), 0, EMPTY_DOLL)
  {
    hide Explode, ToInt;
    var list := EMPTY_DOLL;
    var i := 0;
    var parts := ExplodeText(',', serialized);
    for j := 0 to |parts|
      invariant 0 <= i && |list| == 15
      invariant DollFrom(parts[j..], i, list) == DollFrom(parts, 0, EMPTY_DOLL)
    {
      assert parts[j..][1..] == parts[j + 1..];
      var id := ToInt(parts[j]);
      if id < 0 || id > 65535 {
        i := i + 1;
        continue;
      }
      if i >= 15 {
        return None;
      }
      list := list[i := id];
      i := i + 1;
      if i == |list| {
        break;
      }
    }
    r := Some(list);
  }

  function Cleared(id: int): (r: int)
  {
    if 0 <= id <= 65535 then id else 0
  }

  /** What three slots look like. */
  lemma ThreeSlots()
    ensures Closed(',', Printed([0, 36, -7])) == "0,36,-7,"
  {
    hide Print;
    PrintedText();
    assert Printed([0, 36, -7]) == ["0", "36", "-7"];
    assert ["0", "36", "-7"][1..] == ["36", "-7"] && ["36", "-7"][1..] == ["-7"] && ["-7"][1..] == [];
    assert Closed(',', ["-7"]) == "-7,";
    assert Closed(',', ["36", "-7"]) == "36,-7,";
  }

  /** The first `k` slots read. */
  function Filled(list: seq<int>, k: nat): (r: seq<int>)
    requires |list| == 15 && k <= 15
    ensures |r| == 15
  {
    seq(15, j requires 0 <= j < 15 => if j < k then Cleared(list[j]) else 0)
  }

  lemma {:induction false} DollFromPrinted(list: seq<int>, k: nat)
    requires |list| == 15 && k <= 15
    requires k < 15 || !(0 <= list[14] <= 65535)
    ensures DollFrom(Printed(list)[k..] + [""], k, Filled(list, k)) ==
            if 0 <= list[14] <= 65535 then Some(Filled(list, 15)) else None
    decreases 15 - k
  {
    var parts := Printed(list)[k..] + [""];
    if k == 15 {
      assert parts == [""];
      NothingIsZero();
    } else {
      assert parts[0] == Print(list[k]);
      assert parts[1..] == Printed(list)[k + 1..] + [""];
      PrintedIsRead(list[k]);
      hide Print, ToInt, Printed;
      if 0 <= list[k] <= 65535 {
        assert Filled(list, k)[k := list[k]] == Filled(list, k + 1);
      } else {
        assert Filled(list, k) == Filled(list, k + 1);
      }
      if k < 14 || !(0 <= list[14] <= 65535) {
        DollFromPrinted(list, k + 1);
      }
    }
  }

  lemma NothingIsZero()
    ensures ToInt("") == 0
  {
  }

  /** A paperdoll comes back with what is out of range cleared - if the last slot is in range. If that one is not,
      reading the save writes behind the array. */
  lemma DollSurvives(list: seq<int>)
    requires |list| == 15
    ensures DollFrom(Explode(',', Closed(',', Printed(list))), 0, EMPTY_DOLL) ==
            if 0 <= list[14] <= 65535 then Some(Filled(list, 15)) else None
    ensures (forall k :: 0 <= k < 15 ==> 0 <= list[k] <= 65535) <==>
            DollFrom(Explode(',', Closed(',', Printed(list))), 0, EMPTY_DOLL) == Some(list)
  {
    forall k | 0 <= k < 15
      ensures ',' !in Printed(list)[k]
    {
      PrintedChars(list[k]);
    }
    ExplodeClosed(',', Printed(list));
    assert Printed(list)[0..] == Printed(list);
    assert EMPTY_DOLL == Filled(list, 0);
    DollFromPrinted(list, 0);
    FilledIsWhole(list);
  }

  lemma FilledIsWhole(list: seq<int>)
    requires |list| == 15
    ensures (forall k :: 0 <= k < 15 ==> 0 <= list[k] <= 65535) <==> Filled(list, 15) == list && 0 <= list[14] <= 65535
  {
    if Filled(list, 15) == list {
      assert forall k :: 0 <= k < 15 ==> list[k] == Cleared(list[k]);
    }
  }

  // ---------------------------------------------------------------- guild ranks

  method RankSerialize(list: seq<string>) returns (serialized: string)
    ensures serialized == Closed(',', list)
  {
    serialized := "";
    for i := 0 to |list|
      invariant serialized == Closed(',', list[..i])
    {
      ClosedGrows(',', list[..i], list[i]);
      assert list[..i + 1] == list[..i] + [list[i]];
      serialized := serialized + list[i];
      serialized := serialized + ",";
    }
    assert list[..|list|] == list;
  }

  /** Nine ranks from the pieces that have a comma behind them, the rest empty. */
  function RanksOf(pieces: seq<string>): (r: seq<string>)
    requires pieces != []
    ensures |r| == 9
  {
    seq(9, k requires 0 <= k < 9 => if k < |pieces| - 1 then pieces[k] else "")
  }

  function Ended(serialized: string): (s: string)
  {
    if serialized != [] && serialized[|serialized| - 1] != ',' then serialized + "," else serialized
  }

  method RankUnserialize(text: string) returns (list: seq<string>)
    ensures list == RanksOf(Explode(',', Ended(text)))
  {
    hide Explode;
    var serialized := text;
    if serialized != [] && serialized[|serialized| - 1] != ',' {
      serialized := serialized + ",";
    }
    list := seq(9, _ => "");
    ghost var pieces := Explode(',', serialized);
    var start := 0;
    var i := 0;
    assert serialized[0..] == serialized;
    while i < 9
      invariant 0 <= i <= 9 && i < |pieces| && 0 <= start <= |serialized| && |list| == 9
      invariant Explode(',', serialized[start..]) == pieces[i..]
      invariant forall k :: 0 <= k < 9 ==> list[k] == if k < i then pieces[k] else ""
    {
      var p := FindFirstOf(serialized, ',', start);
      ExplodeAt(serialized, ',', start, p);
      if p == |serialized| {
        break;
      }
      assert pieces[i..][1..] == pieces[i + 1..] && pieces[i..][0] == pieces[i];
      list := list[i := serialized[start..p]];
      i := i + 1;
      start := p + 1;
    }
  }

  /** Nine ranks survive a save exactly if none contains a comma. */
  lemma RanksSurvive(list: seq<string>)
    requires |list| == 9
    ensures RanksOf(Explode(',', Ended(Closed(',', list)))) == list <==> forall k :: 0 <= k < 9 ==> ',' !in list[k]
  {
    ClosedEnds(list);
    PiecesAreClean(',', Closed(',', list));
    if forall k :: 0 <= k < 9 ==> ',' !in list[k] {
      ExplodeClosed(',', list);
      hide Explode, Closed;
      assert RanksOf(list + [""]) == list;
    }
  }

  lemma {:induction false} ClosedEnds(list: seq<string>)
    ensures Ended(Closed(',', list)) == Closed(',', list)
  {
    if list != [] {
      ClosedEnds(list[1..]);
    }
  }
}
