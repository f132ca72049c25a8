/** Who is told about whom when someone walks (src/map.cpp, both `Map::Walk`). */
module MapView {

  /** Coordinates are unsigned chars. */
  type coordinate = x: int | 0 <= x < 256

  datatype Direction = Down | Left | Up | Right

  function Abs(n: int): (r: int)
    ensures r >= 0 && (r == n || r == -n)
  {
    if n < 0 then -n else n
  }

  /** `util::path_length` within the sight distance. */
  predicate InDiamond(cx: int, cy: int, distance: int, p: (int, int))
  {
    Abs(cx - p.0) + Abs(cy - p.1) <= distance
  }

  function StepX(direction: Direction): (d: int)
  {
    match direction
    case Left => -1
    case Right => 1
    case _ => 0
  }

  function StepY(direction: Direction): (d: int)
  {
    match direction
    case Up => -1
    case Down => 1
    case _ => 0
  }

  // ---------------------------------------------------------------- the edges of sight

  /** The formulas of the four loops, for the walker at its new tile `(x, y)`. */
  function NewCoord(direction: Direction, x: int, y: int, d: int, i: int): (int, int)
  {
    match direction
    case Up => (x + i, y - d + Abs(i))
    case Right => (x + d - Abs(i), y + i)
    case Down => (x + i, y + d - Abs(i))
    case Left => (x - d + Abs(i), y + i)
  }

  function OldCoord(direction: Direction, x: int, y: int, d: int, i: int): (int, int)
  {
    match direction
    case Up => (x + i, y + d + 1 - Abs(i))
    case Right => (x - d - 1 + Abs(i), y + i)
    case Down => (x + i, y - d - 1 + Abs(i))
    case Left => (x + d + 1 - Abs(i), y + i)
  }

  predicate Entering(direction: Direction, x: int, y: int, d: int, p: (int, int))
  {
    InDiamond(x, y, d, p) && !InDiamond(x - StepX(direction), y - StepY(direction), d, p)
  }

  predicate Leaving(direction: Direction, x: int, y: int, d: int, p: (int, int))
  {
    InDiamond(x - StepX(direction), y - StepY(direction), d, p) && !InDiamond(x, y, d, p)
  }

  /** The offset across the direction of walking under which the loops reach a tile. */
  function Across(direction: Direction, x: int, y: int, p: (int, int)): (i: int)
  {
    match direction
    case Up => p.0 - x
    case Down => p.0 - x
    case _ => p.1 - y
  }

  lemma EdgeFormulas(direction: Direction, x: int, y: int, d: int, p: (int, int))
    ensures var i := Across(direction, x, y, p);
            && (Entering(direction, x, y, d, p) <==> -d <= i <= d && p == NewCoord(direction, x, y, d, i))
            && (Leaving(direction, x, y, d, p) <==> -d <= i <= d && p == OldCoord(direction, x, y, d, i))
  {
  }

  lemma EdgeOffsets(direction: Direction, x: int, y: int, d: int, i: int)
    ensures Across(direction, x, y, NewCoord(direction, x, y, d, i)) == i
    ensures Across(direction, x, y, OldCoord(direction, x, y, d, i)) == i
  {
  }

  ghost predicate Distinct<T>(s: seq<T>)
  {
    forall i, j | 0 <= i < j < |s| :: s[i] != s[j]
  }

  /** Without recomputing visibility: `newcoords` lists exactly the tiles that come into sight with this step,
      `oldcoords` exactly those that go out of it, each once, for any sight distance. */
  method Edges(direction: Direction, x: int, y: int, seedistance: int)
    returns (newcoords: seq<(int, int)>, oldcoords: seq<(int, int)>)
    ensures forall p :: p in newcoords <==> Entering(direction, x, y, seedistance, p)
    ensures forall p :: p in oldcoords <==> Leaving(direction, x, y, seedistance, p)
    ensures Distinct(newcoords) && Distinct(oldcoords) && |newcoords| == |oldcoords|
  {
    newcoords, oldcoords := [], [];
    var i := -seedistance;
    while i <= seedistance
      invariant |newcoords| == |oldcoords| && -seedistance <= i
      invariant |newcoords| == i + seedistance && (i <= seedistance + 1 || newcoords == [])
      invariant forall k | 0 <= k < |newcoords| ::
                  newcoords[k] == NewCoord(direction, x, y, seedistance, k - seedistance)
      invariant forall k | 0 <= k < |oldcoords| ::
                  oldcoords[k] == OldCoord(direction, x, y, seedistance, k - seedistance)
      decreases seedistance + 1 - i
    {
      newcoords := newcoords + [NewCoord(direction, x, y, seedistance, i)];
      oldcoords := oldcoords + [OldCoord(direction, x, y, seedistance, i)];
      i := i + 1;
    }
    EdgeLists(direction, x, y, seedistance, newcoords, oldcoords);
  }

  lemma EdgeLists(direction: Direction, x: int, y: int, d: int, newcoords: seq<(int, int)>, oldcoords: seq<(int, int)>)
    requires |newcoords| == |oldcoords| == if d < 0 then 0 else 2 * d + 1
    requires forall k | 0 <= k < |newcoords| :: newcoords[k] == NewCoord(direction, x, y, d, k - d)
    requires forall k | 0 <= k < |oldcoords| :: oldcoords[k] == OldCoord(direction, x, y, d, k - d)
    ensures forall p :: p in newcoords <==> Entering(direction, x, y, d, p)
    ensures forall p :: p in oldcoords <==> Leaving(direction, x, y, d, p)
    ensures Distinct(newcoords) && Distinct(oldcoords)
  {
    forall k | 0 <= k < |newcoords|
      ensures Across(direction, x, y, newcoords[k]) == k - d == Across(direction, x, y, oldcoords[k])
    {
      EdgeOffsets(direction, x, y, d, k - d);
    }
    forall p
      ensures p in newcoords <==> Entering(direction, x, y, d, p)
      ensures p in oldcoords <==> Leaving(direction, x, y, d, p)
    {
      var i := Across(direction, x, y, p);
      EdgeFormulas(direction, x, y, d, p);
      if -d <= i <= d {
        assert newcoords[i + d] == NewCoord(direction, x, y, d, i);
        assert oldcoords[i + d] == OldCoord(direction, x, y, d, i);
      }
    }
  }

  // ---------------------------------------------------------------- walking

  /** The target tile in `unsigned char` coordinates. Walking down tests the wrong coordinate for wrapping. */
  function Target(x: coordinate, y: coordinate, direction: Direction): (t: (bool, coordinate, coordinate))
  {
    match direction
    case Up => var ty := (y - 1) % 256; (ty <= y, x, ty)
    case Right => var tx := (x + 1) % 256; (tx >= x, tx, y)
    case Down => var ty := (y + 1) % 256; (true, x, ty)
    case Left => var tx := (x - 1) % 256; (tx <= x, tx, y)
  }

  /** A target that passes the test is the neighbouring tile, except for a step down from the last row of all, which
      wraps to the top one. */
  lemma TargetIsNeighbour(x: coordinate, y: coordinate, direction: Direction)
    requires Target(x, y, direction).0
    ensures Target(x, y, direction).1 == x + StepX(direction)
    ensures Target(x, y, direction).2 == y + StepY(direction) <==> !(direction == Down && y == 255)
  {
  }

  /** On that row the step down wraps, exactly there; a map has at most 255 rows, so nobody inside one stands there. */
  lemma DownWraps(x: coordinate, y: coordinate, height: coordinate)
    ensures Target(x, y, Down).2 != y + 1 <==> y == 255
    ensures Target(x, y, Down).2 != y + 1 ==> y >= height
  {
  }

  datatype Item = Item(uid: int, x: coordinate, y: coordinate)

  /** The items, in their order, on tiles that come into sight with a step to `(x, y)`. */
  function Appearing(items: seq<Item>, direction: Direction, x: int, y: int, d: int): (r: seq<Item>)
  {
    if items == [] then []
    else
      var item := items[|items| - 1];
      Appearing(items[..|items| - 1], direction, x, y, d)
      + if Entering(direction, x, y, d, (item.x, item.y)) then [item] else []
  }

  class Npc {
    var x: coordinate
    var y: coordinate
    var alive: bool
  }

  /** `known` and `knownNpcs` are what the character's client has been told is in sight; `arriving` marks a client that
      has been sent to a map and has not asked yet for what is there. */
  class Character {
    var x: coordinate
    var y: coordinate
    var arriving: bool
    var known: set<Character>
    var knownNpcs: set<Npc>

    predicate InRange(px: int, py: int, seedistance: int)
      reads this`x, this`y
    {
      InDiamond(x, y, seedistance, (px, py))
    }
  }

  datatype WalkResult = WalkFail | WalkOK | WalkWarped

  /** A warp tile: whether its level and its door let the walker pass, whether the target is being evacuated, and where
      it leads - nowhere, if there is no such map. */
  datatype Warp = NoWarp | Warp(open: bool, evacuated: bool, to: Map?, x: coordinate, y: coordinate)

  /** Everybody on a map. */
  ghost function Company(m: Map?): (r: set<Character>)
    reads m
  {
    if m == null then {} else set c | c in m.characters
  }

  function Without(list: seq<Character>, c: Character): (r: seq<Character>)
    ensures c !in r && (forall d | d in list && d != c :: d in r) && forall d | d in r :: d in list
  {
    if list == [] then []
    else
      var k := |list| - 1;
      Without(list[..k], c) + if list[k] == c then [] else [list[k]]
  }

  lemma {:induction false} WithoutDistinct(list: seq<Character>, c: Character)
    requires Distinct(list)
    ensures Distinct(Without(list, c))
  {
    if list != [] {
      var k := |list| - 1;
      WithoutDistinct(list[..k], c);
      assert list[k] !in list[..k];
    }
  }

  class Map {
    const width: coordinate
    const height: coordinate
    const seedistance: int
    var characters: seq<Character>
    var npcs: seq<Npc>
    var items: seq<Item>

    ghost predicate Valid()
      reads this
    {
      Distinct(characters) && Distinct(npcs)
    }

    /** Every client that has arrived knows exactly the characters and living NPCs in its sight, and nobody who is
        elsewhere. */
    ghost predicate ViewsExact()
      reads this, characters, npcs
    {
      && (forall c, other | c in characters && other in characters && other != c && !c.arriving ::
            other in c.known <==> c.InRange(other.x, other.y, seedistance))
      && NoStrangers()
      && (forall c, n | c in characters && n in npcs && !c.arriving ::
            n in c.knownNpcs <==> n.alive && c.InRange(n.x, n.y, seedistance))
    }

    ghost predicate NoStrangers()
      reads this, characters
    {
      forall c, other | c in characters && !c.arriving && other in c.known :: other in characters
    }

    /** The scan over all characters, comparing each with both lists of tiles. */
    method ScanCharacters(from: Character?, newcoords: seq<(int, int)>, oldcoords: seq<(int, int)>)
      returns (newchars: seq<Character>, oldchars: seq<Character>)
      requires Distinct(characters) && Distinct(newcoords) && Distinct(oldcoords) && |newcoords| == |oldcoords|
      requires forall p | p in newcoords :: p !in oldcoords
      ensures forall c :: c in newchars <==> c in characters && c != from && (c.x, c.y) in newcoords
      ensures forall c :: c in oldchars <==> c in characters && c != from && (c.x, c.y) in oldcoords
      ensures Distinct(newchars) && Distinct(oldchars)
    {
      newchars, oldchars := [], [];
      for k := 0 to |characters|
        invariant forall c :: c in newchars <==> c in characters[..k] && c != from && (c.x, c.y) in newcoords
        invariant forall c :: c in oldchars <==> c in characters[..k] && c != from && (c.x, c.y) in oldcoords
        invariant Distinct(newchars) && Distinct(oldchars)
      {
        var checkchar := characters[k];
        assert checkchar !in characters[..k];
        assert characters[..k + 1] == characters[..k] + [checkchar];
        if checkchar != from {
          var isNew, isOld := MatchTile((checkchar.x, checkchar.y), newcoords, oldcoords);
          assert seq(isNew, _ => checkchar) == if isNew == 1 then [checkchar] else [];
          assert seq(isOld, _ => checkchar) == if isOld == 1 then [checkchar] else [];
          newchars := newchars + seq(isNew, _ => checkchar);
          oldchars := oldchars + seq(isOld, _ => checkchar);
        }
      }
      assert characters[..|characters|] == characters;
    }

    /** How often the inner loop adds the creature at `p` to each list. */
    static method MatchTile(p: (int, int), newcoords: seq<(int, int)>, oldcoords: seq<(int, int)>)
      returns (isNew: nat, isOld: nat)
      requires Distinct(newcoords) && Distinct(oldcoords) && |newcoords| == |oldcoords|
      requires p in newcoords ==> p !in oldcoords
      ensures isNew == if p in newcoords then 1 else 0
      ensures isOld == if p in oldcoords then 1 else 0
    {
      isNew, isOld := 0, 0;
      for i := 0 to |oldcoords|
        invariant isNew == if p in newcoords[..i] then 1 else 0
        invariant isOld == if p in oldcoords[..i] then 1 else 0
      {
        if p == oldcoords[i] {
          isOld := isOld + 1;
        } else if p == newcoords[i] {
          isNew := isNew + 1;
        }
      }
      assert oldcoords[..|oldcoords|] == oldcoords && newcoords[..|newcoords|] == newcoords;
    }

    /** The same scan over the living NPCs. */
    method ScanNpcs(newcoords: seq<(int, int)>, oldcoords: seq<(int, int)>)
      returns (newnpcs: seq<Npc>, oldnpcs: seq<Npc>)
      requires Distinct(npcs) && Distinct(newcoords) && Distinct(oldcoords) && |newcoords| == |oldcoords|
      requires forall p | p in newcoords :: p !in oldcoords
      ensures forall n :: n in newnpcs <==> n in npcs && n.alive && (n.x, n.y) in newcoords
      ensures forall n :: n in oldnpcs <==> n in npcs && n.alive && (n.x, n.y) in oldcoords
      ensures Distinct(newnpcs) && Distinct(oldnpcs)
    {
      newnpcs, oldnpcs := [], [];
      for k := 0 to |npcs|
        invariant forall n :: n in newnpcs <==> n in npcs[..k] && n.alive && (n.x, n.y) in newcoords
        invariant forall n :: n in oldnpcs <==> n in npcs[..k] && n.alive && (n.x, n.y) in oldcoords
        invariant Distinct(newnpcs) && Distinct(oldnpcs)
      {
        var checknpc := npcs[k];
        assert checknpc !in npcs[..k];
        assert npcs[..k + 1] == npcs[..k] + [checknpc];
        if checknpc.alive {
          var isNew, isOld := MatchTile((checknpc.x, checknpc.y), newcoords, oldcoords);
          assert seq(isNew, _ => checknpc) == if isNew == 1 then [checknpc] else [];
          assert seq(isOld, _ => checknpc) == if isOld == 1 then [checknpc] else [];
          newnpcs := newnpcs + seq(isNew, _ => checknpc);
          oldnpcs := oldnpcs + seq(isOld, _ => checknpc);
        }
      }
      assert npcs[..|npcs|] == npcs;
    }

    /** The packets sent to and about characters that left or entered sight: both clients forget, or learn of,
        each other. */
    method TellCharacters(from: Character, newchars: seq<Character>, oldchars: seq<Character>)
      requires from in characters && from !in newchars && from !in oldchars
      requires forall c | c in newchars || c in oldchars :: c in characters
      modifies (set c | c in characters)`known
      ensures from.known == old(from.known) - (set c | c in oldchars) + (set c | c in newchars)
      ensures forall c | c in characters && c != from ::
                c.known == old(c.known) - (if c in oldchars then {from} else {})
                           + (if c in newchars then {from} else {})
    {
      for k := 0 to |oldchars|
        invariant from.known == old(from.known) - (set c | c in oldchars[..k])
        invariant forall c | c in characters && c != from ::
                    c.known == if c in oldchars[..k] then old(c.known) - {from} else old(c.known)
      {
        var character := oldchars[k];
        character.known := character.known - {from};
        from.known := from.known - {character};
        assert oldchars[..k + 1] == oldchars[..k] + [character];
      }
      assert oldchars[..|oldchars|] == oldchars;
      label L:
      for k := 0 to |newchars|
        invariant from.known == old@L(from.known) + (set c | c in newchars[..k])
        invariant forall c | c in characters && c != from ::
                    c.known == if c in newchars[..k] then old@L(c.known) + {from} else old@L(c.known)
      {
        var character := newchars[k];
        character.known := character.known + {from};
        from.known := from.known + {character};
        assert newchars[..k + 1] == newchars[..k] + [character];
      }
      assert newchars[..|newchars|] == newchars;
    }

    method TellNpcs(from: Character, newnpcs: seq<Npc>, oldnpcs: seq<Npc>)
      modifies from`knownNpcs
      ensures from.knownNpcs == old(from.knownNpcs) + (set n | n in newnpcs) - (set n | n in oldnpcs)
    {
      for k := 0 to |newnpcs|
        invariant from.knownNpcs == old(from.knownNpcs) + (set n | n in newnpcs[..k])
      {
        from.knownNpcs := from.knownNpcs + {newnpcs[k]};
        assert newnpcs[..k + 1] == newnpcs[..k] + [newnpcs[k]];
      }
      assert newnpcs[..|newnpcs|] == newnpcs;
      label L:
      for k := 0 to |oldnpcs|
        invariant from.knownNpcs == old@L(from.knownNpcs) - (set n | n in oldnpcs[..k])
      {
        from.knownNpcs := from.knownNpcs - {oldnpcs[k]};
        assert oldnpcs[..k + 1] == oldnpcs[..k] + [oldnpcs[k]];
      }
      assert oldnpcs[..|oldnpcs|] == oldnpcs;
    }

    /** The views involving `from`, as they would have to be with it standing at `(fx, fy)`. */
    ghost predicate CharacterViewsFrom(from: Character, fx: int, fy: int)
      reads this, from, characters
    {
      forall c | c in characters && c != from ::
        && (c.arriving || (from in c.known <==> InDiamond(fx, fy, seedistance, (c.x, c.y))))
        && (from.arriving || (c in from.known <==> InDiamond(fx, fy, seedistance, (c.x, c.y))))
    }

    ghost predicate NpcViewFrom(from: Character, fx: int, fy: int)
      reads this, from, npcs
    {
      from.arriving ||
      forall n | n in npcs :: n in from.knownNpcs <==> n.alive && InDiamond(fx, fy, seedistance, (n.x, n.y))
    }

    ghost predicate FromExact(from: Character, fx: int, fy: int)
      reads this, from, characters, npcs
    {
      CharacterViewsFrom(from, fx, fy) && NpcViewFrom(from, fx, fy)
    }

    /** Both clients forget, or learn of, each other along the two edges. */
    method UpdateCharacterViews(from: Character, direction: Direction,
                                newcoords: seq<(int, int)>, oldcoords: seq<(int, int)>)
      requires Distinct(characters) && from in characters
      requires Distinct(newcoords) && Distinct(oldcoords) && |newcoords| == |oldcoords|
      requires forall p :: p in newcoords <==> Entering(direction, from.x, from.y, seedistance, p)
      requires forall p :: p in oldcoords <==> Leaving(direction, from.x, from.y, seedistance, p)
      modifies (set c | c in characters)`known
      ensures old(CharacterViewsFrom(from, from.x - StepX(direction), from.y - StepY(direction))) ==>
                CharacterViewsFrom(from, from.x, from.y)
      ensures forall c | c in characters && c != from :: c.known - {from} == old(c.known) - {from}
      ensures forall c | c in from.known :: c in old(from.known) || c in characters
    {
      var newchars, oldchars := ScanCharacters(from, newcoords, oldcoords);
      TellCharacters(from, newchars, oldchars);
      forall c | c in characters && c != from
        ensures c in newchars <==> Entering(direction, from.x, from.y, seedistance, (c.x, c.y))
        ensures c in oldchars <==> Leaving(direction, from.x, from.y, seedistance, (c.x, c.y))
      {
        var p: (int, int) := (c.x, c.y);
        assert p in newcoords <==> Entering(direction, from.x, from.y, seedistance, p);
        assert p in oldcoords <==> Leaving(direction, from.x, from.y, seedistance, p);
      }
    }

    method UpdateNpcView(from: Character, direction: Direction,
                         newcoords: seq<(int, int)>, oldcoords: seq<(int, int)>)
      requires Distinct(npcs) && Distinct(newcoords) && Distinct(oldcoords) && |newcoords| == |oldcoords|
      requires forall p :: p in newcoords <==> Entering(direction, from.x, from.y, seedistance, p)
      requires forall p :: p in oldcoords <==> Leaving(direction, from.x, from.y, seedistance, p)
      modifies from`knownNpcs
      ensures old(NpcViewFrom(from, from.x - StepX(direction), from.y - StepY(direction))) ==>
                NpcViewFrom(from, from.x, from.y)
    {
      var newnpcs, oldnpcs := ScanNpcs(newcoords, oldcoords);
      TellNpcs(from, newnpcs, oldnpcs);
      forall n | n in npcs
        ensures n in newnpcs <==> n.alive && Entering(direction, from.x, from.y, seedistance, (n.x, n.y))
        ensures n in oldnpcs <==> n.alive && Leaving(direction, from.x, from.y, seedistance, (n.x, n.y))
      {
        var p: (int, int) := (n.x, n.y);
        assert p in newcoords <==> Entering(direction, from.x, from.y, seedistance, p);
        assert p in oldcoords <==> Leaving(direction, from.x, from.y, seedistance, p);
      }
    }

    /** The views that do not involve `from`. */
    ghost predicate OtherViewsExact(from: Character)
      reads this, characters, npcs
    {
      && (forall c, other | c in characters && other in characters && other != c && c != from && other != from ::
            c.arriving || (other in c.known <==> c.InRange(other.x, other.y, seedistance)))
      && (forall c, n | c in characters && c != from && n in npcs ::
            c.arriving || (n in c.knownNpcs <==> n.alive && c.InRange(n.x, n.y, seedistance)))
    }

    lemma ViewsFromParts(from: Character)
      requires from in characters && OtherViewsExact(from) && NoStrangers()
      requires CharacterViewsFrom(from, from.x, from.y) && NpcViewFrom(from, from.x, from.y)
      ensures ViewsExact()
    {
      forall c | c in characters {
        InDiamondSymmetric(from.x, from.y, seedistance, c.x, c.y);
      }
    }

    lemma SightIsMutual(from: Character)
      requires from in characters && ViewsExact()
      ensures FromExact(from, from.x, from.y) && OtherViewsExact(from) && NoStrangers()
    {
      forall c | c in characters {
        InDiamondSymmetric(from.x, from.y, seedistance, c.x, c.y);
      }
    }

    /** The scan over the items on the ground, for the tiles that come into sight only. */
    method ScanItems(direction: Direction, x: int, y: int, newcoords: seq<(int, int)>) returns (newitems: seq<Item>)
      requires Distinct(newcoords) && forall p :: p in newcoords <==> Entering(direction, x, y, seedistance, p)
      ensures newitems == Appearing(items, direction, x, y, seedistance)
    {
      newitems := [];
      for k := 0 to |items|
        invariant newitems == Appearing(items[..k], direction, x, y, seedistance)
      {
        var checkitem := items[k];
        var before := newitems;
        var p: (int, int) := (checkitem.x, checkitem.y);
        for i := 0 to |newcoords|
          invariant newitems == before + if p in newcoords[..i] then [checkitem] else []
        {
          if p == newcoords[i] {
            newitems := newitems + [checkitem];
          }
        }
        assert newcoords[..|newcoords|] == newcoords && items[..k + 1][..k] == items[..k];
        assert p in newcoords <==> Entering(direction, x, y, seedistance, p);
      }
      assert items[..|items|] == items;
    }

    /** The step of a walker who is on this map, and where it takes him. `free` stands for what may be walked on, which
        admins ignore; `newitems` are what the client is told of the ground. Views stay exact here and on the map a warp
        leads to, but for the step down from row 255, which lands on the top row. */
    method Walk(from: Character, direction: Direction, admin: bool, free: bool, warp: Warp)
      returns (result: WalkResult, newitems: seq<Item>)
      requires Valid() && ViewsExact() && from in characters && (warp.Warp? ==> Leads(warp.to))
      modifies this`characters, from`x, from`y, from`arriving, from`knownNpcs, Company(this)`known
      modifies (if warp.Warp? && warp.to != null then {warp.to} else {})`characters
      modifies Company(if warp.Warp? then warp.to else null)`known
      ensures Valid()
      ensures warp.Warp? && warp.to != null ==> warp.to.Valid() && (warp.to != this ==> warp.to.ViewsExact())
      ensures !(result == WalkOK && direction == Down && old(from.y) == 255) ==> ViewsExact()
      ensures !(direction == Down && old(from.y) == 255) ==>
                var x := old(from.x) + if direction == Right then 1 else if direction == Left then -1 else 0;
                var y := old(from.y) + if direction == Down then 1 else if direction == Up then -1 else 0;
                var steps := 0 <= x < width && 0 <= y < height && (admin || free);
                && (result == WalkOK <==> steps && (warp == NoWarp || (admin && !warp.open)))
                && (result == WalkWarped <==> steps && warp != NoWarp && warp.open)
                && (result == WalkOK ==>
                      from.x == x && from.y == y && newitems == Appearing(items, direction, x, y, seedistance))
      ensures result == WalkFail ==> from.x == old(from.x) && from.y == old(from.y)
      ensures result == WalkWarped ==>
                && warp.Warp? && warp.open
                && if warp.evacuated || warp.to == null then from.x == old(from.x) && from.y == old(from.y)
                   else from.x == warp.x && from.y == warp.y && from.arriving
                        && from in warp.to.characters && (warp.to != this ==> from !in characters)
    {
      hide InDiamond, Distinct, Appearing, NoStrangers;
      newitems := [];
      var (ok, target_x, target_y) := Target(from.x, from.y, direction);
      if !ok || target_x >= width || target_y >= height || !(admin || free) {
        return WalkFail, newitems;
      }
      TargetIsNeighbour(from.x, from.y, direction);
      if warp.Warp? {
        if warp.open {
          TakeWarp(from, warp);
          return WalkWarped, newitems;
        }
        if !admin {
          return WalkFail, newitems;
        }
      }
      newitems := Move(from, direction, target_x, target_y);
      return WalkOK, newitems;
    }

    /** Another map, or this one, to which a walker can be taken. */
    ghost predicate Leads(to: Map?)
      reads this, to, Company(to), if to == null then [] else to.npcs
    {
      to == null || to == this
      || (to.Valid() && to.ViewsExact() && forall c | c in characters :: c !in to.characters)
    }

    /** What an open warp tile does: nothing but an update where the target is being evacuated. */
    method TakeWarp(from: Character, warp: Warp)
      requires warp.Warp? && Leads(warp.to) && Valid() && ViewsExact() && from in characters
      modifies this`characters, from`x, from`y, from`arriving, from`knownNpcs, Company(this)`known
      modifies (if warp.to != null then {warp.to} else {})`characters, Company(warp.to)`known
      ensures Valid() && ViewsExact() && (warp.to != null ==> warp.to.Valid() && warp.to.ViewsExact())
      ensures if warp.evacuated || warp.to == null then from.x == old(from.x) && from.y == old(from.y)
              else from.x == warp.x && from.y == warp.y && from.arriving
                   && from in warp.to.characters && (warp.to != this ==> from !in characters)
    {
      hide InDiamond, Distinct;
      if warp.evacuated {
        Refresh(from);
      } else if warp.to != null {
        WarpTo(from, warp.to, warp.x, warp.y);
      }
    }

    /** Off this map and onto another. What the client knows counts again when it has asked. */
    method WarpTo(c: Character, to: Map, x: coordinate, y: coordinate)
      requires Valid() && ViewsExact() && c in characters && Leads(to)
      modifies this`characters, to`characters, c`x, c`y, c`arriving, Company(this)`known, Company(to)`known
      ensures Valid() && ViewsExact() && to.Valid() && to.ViewsExact()
      ensures c.x == x && c.y == y && c.arriving
      ensures to != this ==> characters == Without(old(characters), c) && to.characters == old(to.characters) + [c]
      ensures to == this ==> characters == Without(old(characters), c) + [c]
    {
      hide InDiamond, Distinct, Without;
      Leave(c);
      assert c !in to.characters && to.Valid() && to.ViewsExact();
      c.x, c.y, c.arriving := x, y, true;
      assert Valid() && ViewsExact() && to.Valid() && to.ViewsExact();
      to.Enter(c);
    }

    /** Those in sight of somebody who leaves drop him. */
    method Leave(c: Character)
      requires Valid() && ViewsExact() && c in characters
      modifies this`characters, Company(this)`known
      ensures Valid() && ViewsExact() && characters == Without(old(characters), c)
    {
      hide InDiamond, Distinct, Without;
      TellInSight(c, false);
      forall o | o in characters
        ensures c.InRange(o.x, o.y, seedistance) == o.InRange(c.x, c.y, seedistance)
      {
        InDiamondSymmetric(c.x, c.y, seedistance, o.x, o.y);
      }
      assert forall o | o in characters && o != c && !o.arriving :: c !in o.known;
      WithoutDistinct(characters, c);
      characters := Without(characters, c);
    }

    /** Those in sight of a newcomer learn of him. */
    method Enter(c: Character)
      requires Valid() && ViewsExact() && c !in characters && c.arriving
      modifies this`characters, Company(this)`known
      ensures Valid() && ViewsExact() && characters == old(characters) + [c]
    {
      hide InDiamond;
      characters := characters + [c];
      TellInSight(c, true);
      forall o | o in characters
        ensures c.InRange(o.x, o.y, seedistance) == o.InRange(c.x, c.y, seedistance)
      {
        InDiamondSymmetric(c.x, c.y, seedistance, o.x, o.y);
      }
    }

    /** The packet about an arrival or a departure. */
    method TellInSight(c: Character, appears: bool)
      modifies (set o | o in characters && o != c)`known
      ensures forall o | o in characters && o != c ::
                o.known == if !c.InRange(o.x, o.y, seedistance) then old(o.known)
                           else if appears then old(o.known) + {c} else old(o.known) - {c}
    {
      for k := 0 to |characters|
        invariant forall o | o in characters && o != c ::
                    o.known == if o !in characters[..k] || !c.InRange(o.x, o.y, seedistance) then old(o.known)
                               else if appears then old(o.known) + {c} else old(o.known) - {c}
      {
        var checkcharacter := characters[k];
        assert characters[..k + 1] == characters[..k] + [checkcharacter];
        if checkcharacter != c && c.InRange(checkcharacter.x, checkcharacter.y, seedistance) {
          checkcharacter.known := if appears then checkcharacter.known + {c} else checkcharacter.known - {c};
        }
      }
      assert characters[..|characters|] == characters;
    }

    /** The client of somebody who was sent here asks for what is in sight. */
    method WarpAccept(c: Character)
      requires Valid() && ViewsExact() && c in characters
      modifies c`arriving, c`known, c`knownNpcs
      ensures ViewsExact() && !c.arriving
    {
      if !c.arriving {
        return;
      }
      c.arriving := false;
      Refresh(c);
    }

    /** What the others know of somebody is exact, and they know nobody who is elsewhere. */
    ghost predicate OthersSee(c: Character)
      reads this, c, characters
    {
      && (forall o, other | o in characters && o != c && !o.arriving && other in o.known :: other in characters)
      && (forall o | o in characters && o != c && !o.arriving ::
            c in o.known <==> o.InRange(c.x, c.y, seedistance))
    }

    /** Whatever the client believed: it is told everything in sight anew. */
    method Refresh(c: Character)
      requires c in characters && OtherViewsExact(c) && OthersSee(c)
      modifies c`known, c`knownNpcs
      ensures ViewsExact()
    {
      var updatecharacters, updatenpcs := {}, {};
      for k := 0 to |characters|
        invariant forall o :: o in updatecharacters <==> o in characters[..k] && c.InRange(o.x, o.y, seedistance)
      {
        if c.InRange(characters[k].x, characters[k].y, seedistance) {
          updatecharacters := updatecharacters + {characters[k]};
        }
      }
      for k := 0 to |npcs|
        invariant forall n :: n in updatenpcs <==> n in npcs[..k] && n.alive && c.InRange(n.x, n.y, seedistance)
      {
        if c.InRange(npcs[k].x, npcs[k].y, seedistance) && npcs[k].alive {
          updatenpcs := updatenpcs + {npcs[k]};
        }
      }
      c.known, c.knownNpcs := updatecharacters, updatenpcs;
    }

    method Move(from: Character, direction: Direction, x: coordinate, y: coordinate) returns (newitems: seq<Item>)
      requires Distinct(characters) && Distinct(npcs) && ViewsExact() && from in characters
      requires x == from.x + StepX(direction)
      modifies from`x, from`y, from`knownNpcs, (set c | c in characters)`known
      ensures from.x == x && from.y == y
      ensures y == old(from.y) + StepY(direction) ==> ViewsExact()
      ensures newitems == Appearing(items, direction, x, y, seedistance)
    {
      hide *;
      SightIsMutual(from);
      StepTo(from, x, y);
      var newcoords, oldcoords := Edges(direction, from.x, from.y, seedistance);
      newitems := ScanItems(direction, from.x, from.y, newcoords);
      UpdateViews(from, direction, newcoords, oldcoords);
    }

    /** Before anybody is told of it, the views are those from the old tile. */
    method StepTo(from: Character, x: coordinate, y: coordinate)
      requires OtherViewsExact(from) && NoStrangers() && FromExact(from, from.x, from.y) && from in characters
      modifies from`x, from`y
      ensures from.x == x && from.y == y
      ensures OtherViewsExact(from) && NoStrangers() && FromExact(from, old(from.x), old(from.y))
    {
      hide InDiamond;
      from.x, from.y := x, y;
    }

    method UpdateViews(from: Character, direction: Direction, newcoords: seq<(int, int)>, oldcoords: seq<(int, int)>)
      requires Distinct(characters) && Distinct(npcs) && from in characters && OtherViewsExact(from) && NoStrangers()
      requires Distinct(newcoords) && Distinct(oldcoords) && |newcoords| == |oldcoords|
      requires forall p :: p in newcoords <==> Entering(direction, from.x, from.y, seedistance, p)
      requires forall p :: p in oldcoords <==> Leaving(direction, from.x, from.y, seedistance, p)
      modifies from`knownNpcs, (set c | c in characters)`known
      ensures old(FromExact(from, from.x - StepX(direction), from.y - StepY(direction))) ==> ViewsExact()
    {
      hide InDiamond, Entering, Leaving, Distinct;
      UpdateCharacterViews(from, direction, newcoords, oldcoords);
      UpdateNpcView(from, direction, newcoords, oldcoords);
      forall c, other | c in characters && other in characters && other != c && c != from && other != from
        ensures c.arriving || (other in c.known <==> c.InRange(other.x, other.y, seedistance))
      {
        assert other in c.known - {from} <==> other in old(c.known) - {from};
      }
      forall c, other | c in characters && !c.arriving && other in c.known
        ensures other in characters
      {
        if c != from && other != from {
          assert other in c.known - {from};
        }
      }
      if CharacterViewsFrom(from, from.x, from.y) && NpcViewFrom(from, from.x, from.y) {
        ViewsFromParts(from);
      }
    }

    ghost predicate KnownToThoseInSight(from: Npc, fx: int, fy: int)
      reads this, characters
    {
      forall c | c in characters ::
        c.arriving || (from in c.knownNpcs <==> InDiamond(fx, fy, seedistance, (c.x, c.y)))
    }

    /** Clients on the edge that comes into range learn of the NPC, those on the other edge drop it. */
    method UpdateNpcViews(from: Npc, direction: Direction)
      requires Distinct(characters)
      modifies (set c | c in characters)`knownNpcs
      ensures old(KnownToThoseInSight(from, from.x - StepX(direction), from.y - StepY(direction))) ==>
                KnownToThoseInSight(from, from.x, from.y)
      ensures forall c | c in characters :: c.knownNpcs - {from} == old(c.knownNpcs) - {from}
    {
      var newcoords, oldcoords := Edges(direction, from.x, from.y, seedistance);
      var newchars, oldchars := ScanCharacters(null, newcoords, oldcoords);
      label L:
      for k := 0 to |newchars|
        invariant forall c | c in characters ::
                    c.knownNpcs == if c in newchars[..k] then old@L(c.knownNpcs) + {from} else old@L(c.knownNpcs)
      {
        newchars[k].knownNpcs := newchars[k].knownNpcs + {from};
        assert newchars[..k + 1] == newchars[..k] + [newchars[k]];
      }
      assert newchars[..|newchars|] == newchars;
      label M:
      for k := 0 to |oldchars|
        invariant forall c | c in characters ::
                    c.knownNpcs == if c in oldchars[..k] then old@M(c.knownNpcs) - {from} else old@M(c.knownNpcs)
      {
        oldchars[k].knownNpcs := oldchars[k].knownNpcs - {from};
        assert oldchars[..k + 1] == oldchars[..k] + [oldchars[k]];
      }
      assert oldchars[..|oldchars|] == oldchars;
      forall c | c in characters
        ensures c in newchars <==> Entering(direction, from.x, from.y, seedistance, (c.x, c.y))
        ensures c in oldchars <==> Leaving(direction, from.x, from.y, seedistance, (c.x, c.y))
      {
        var p: (int, int) := (c.x, c.y);
        assert p in newcoords <==> Entering(direction, from.x, from.y, seedistance, p);
        assert p in oldcoords <==> Leaving(direction, from.x, from.y, seedistance, p);
      }
    }

    method MoveNpc(from: Npc, direction: Direction, x: coordinate, y: coordinate)
      requires Distinct(characters) && ViewsExact() && from in npcs && from.alive
      requires x == from.x + StepX(direction)
      modifies from`x, from`y, (set c | c in characters)`knownNpcs
      ensures from.x == x && from.y == y
      ensures y == old(from.y) + StepY(direction) ==> ViewsExact()
    {
      forall c | c in characters {
        InDiamondSymmetric(from.x, from.y, seedistance, c.x, c.y);
      }
      from.x, from.y := x, y;
      UpdateNpcViews(from, direction);
      if y == old(from.y) + StepY(direction) {
        forall c, n | c in characters && n in npcs && !c.arriving
          ensures n in c.knownNpcs <==> n.alive && c.InRange(n.x, n.y, seedistance)
        {
          InDiamondSymmetric(from.x, from.y, seedistance, c.x, c.y);
          if n != from {
            assert n in c.knownNpcs - {from} <==> n in old(c.knownNpcs) - {from};
          }
        }
      }
    }

    /** An NPC's step. */
    method WalkNpc(from: Npc, direction: Direction, passable: bool) returns (result: WalkResult)
      requires Valid() && ViewsExact() && from in npcs && from.alive
      modifies from`x, from`y, (set c | c in characters)`knownNpcs
      ensures Valid() && result != WalkWarped
      ensures !(result == WalkOK && direction == Down && old(from.y) == 255) ==> ViewsExact()
      ensures result == WalkFail ==> from.x == old(from.x) && from.y == old(from.y)
      ensures !(direction == Down && old(from.y) == 255) ==>
                var x := old(from.x) + if direction == Right then 1 else if direction == Left then -1 else 0;
                var y := old(from.y) + if direction == Down then 1 else if direction == Up then -1 else 0;
                && (result == WalkOK <==> passable && 0 <= x < width && 0 <= y < height)
                && (result == WalkOK ==> from.x == x && from.y == y)
    {
      var (ok, target_x, target_y) := Target(from.x, from.y, direction);
      if !ok || target_x >= width || target_y >= height || !passable {
        return WalkFail;
      }
      TargetIsNeighbour(from.x, from.y, direction);
      MoveNpc(from, direction, target_x, target_y);
      return WalkOK;
    }
  }

  lemma InDiamondSymmetric(x: int, y: int, d: int, px: int, py: int)
    ensures InDiamond(x, y, d, (px, py)) == InDiamond(px, py, d, (x, y))
  {
  }

  /** An item is among them exactly if it lies in sight now and did not before. */
  lemma {:induction false} AppearingMeans(items: seq<Item>, direction: Direction, x: int, y: int, d: int, item: Item)
    ensures item in Appearing(items, direction, x, y, d)
            <==> item in items && InDiamond(x, y, d, (item.x, item.y))
                 && !InDiamond(x - StepX(direction), y - StepY(direction), d, (item.x, item.y))
  {
    if items != [] {
      AppearingMeans(items[..|items| - 1], direction, x, y, d, item);
    }
  }
}
