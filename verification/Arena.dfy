/** The arenas of src/arena.cpp, with the warps and logouts that move people in and out of them. */
module Arenas {

  datatype Spawn = Spawn(sx: int, sy: int, dx: int, dy: int)

  datatype Action = Action(who: Character, x: int, y: int)

  /** What a list of warps does to somebody: how many there are, and where the last one leads. */
  datatype Fate = Stays | Sent(times: nat, x: int, y: int)

  function FateOf(actions: seq<Action>, c: Character): (r: Fate)
    ensures r.Stays? <==> forall a | a in actions :: a.who != c
    ensures r.Sent? ==> r.times > 0
  {
    if actions == [] then Stays
    else
      var last := actions[|actions| - 1];
      var before := FateOf(actions[..|actions| - 1], c);
      if last.who != c then
        before
      else
        Sent(1 + if before.Stays? then 0 else before.times, last.x, last.y)
  }

  class Map {
    const id: int
    const relog_x: int
    const relog_y: int
    const loaded: bool
    var characters: seq<Character>

    constructor (id: int, relog_x: int, relog_y: int, loaded: bool)
      ensures this.id == id && this.relog_x == relog_x && this.relog_y == relog_y
      ensures this.loaded == loaded && characters == []
    {
      this.id, this.relog_x, this.relog_y, this.loaded, characters := id, relog_x, relog_y, loaded, [];
    }
  }

  function Without(list: seq<Character>, c: Character): (r: seq<Character>)
    ensures c !in r
    ensures forall d | d in list && d != c :: d in r
    ensures forall d | d in r :: d in list
  {
    if list == [] then []
    else if list[0] == c then Without(list[1..], c)
    else [list[0]] + Without(list[1..], c)
  }

  lemma FateGrows(actions: seq<Action>, a: Action)
    ensures FateOf(actions + [a], a.who) ==
            Sent(1 + if FateOf(actions, a.who).Stays? then 0 else FateOf(actions, a.who).times, a.x, a.y)
    ensures forall c :: c != a.who ==> FateOf(actions + [a], c) == FateOf(actions, c)
  {
    assert (actions + [a])[..|actions|] == actions;
  }

  // ---------------------------------------------------------------- who is in an arena

  ghost function Inside(characters: set<Character>, arena: Arena): (r: set<Character>)
    reads characters`online, characters`arena
  {
    set c | c in characters && c.online && c.arena == arena
  }

  /** Every arena counts exactly the characters online whose arena it is. */
  ghost predicate Counted(characters: set<Character>, arenas: set<Arena>)
    reads characters`online, characters`arena, arenas`occupants
  {
    && (forall a :: a in arenas ==> a.occupants == |Inside(characters, a)|)
    && (forall c :: c in characters && c.online && c.arena != null ==> c.arena in arenas)
  }

  /** A map lists characters who are online and on it, and whoever is online is on a loaded map. */
  ghost predicate Placed(characters: set<Character>, maps: seq<Map>)
    reads characters`online, characters`area, maps`characters
  {
    && (forall m, c :: m in maps && c in m.characters ==> c in characters && c.online && c.area == m)
    && (forall c :: c in characters && c.online ==> c.area in maps && c.area.loaded)
  }

  /** Somebody who logs in is in no arena and changes no count. */
  lemma NewcomerCounts(characters: set<Character>, arenas: set<Arena>, c: Character)
    requires Counted(characters, arenas) && c.arena == null
    ensures Counted(characters + {c}, arenas)
  {
    forall a | a in arenas
      ensures a.occupants == |Inside(characters + {c}, a)|
    {
      assert Inside(characters + {c}, a) == Inside(characters, a);
    }
  }

  class Character {
    var online: bool
    var area: Map
    var x: int
    var y: int
    var direction: int
    var arena: Arena?
    var next_arena: Arena?
    var arena_kills: int

    constructor (area: Map)
      ensures online && this.area == area && x == 0 && y == 0 && direction == 0
      ensures arena == null && next_arena == null && arena_kills == 0
    {
      online, this.area, x, y, direction := true, area, 0, 0, 0;
      arena, next_arena, arena_kills := null, null, 0;
    }

    method LeaveArena(ghost characters: set<Character>, ghost arenas: set<Arena>)
      requires Counted(characters, arenas) && this in characters && online
      modifies this`arena, arenas`occupants
      ensures arena == null && Counted(characters, arenas)
    {
      if arena != null {
        ghost var was := arena;
        ghost var inside := Inside(characters, was);
        arena.occupants := arena.occupants - 1;
        arena := null;
        assert Inside(characters, was) == inside - {this};
        forall a | a in arenas && a != was
          ensures a.occupants == |Inside(characters, a)|
        {
          assert Inside(characters, a) == old(Inside(characters, a));
        }
      }
    }

    method EnterArena(ghost characters: set<Character>, ghost arenas: set<Arena>)
      requires Counted(characters, arenas) && this in characters && online && arena == null
      requires next_arena != null ==> next_arena in arenas
      modifies this`arena, this`next_arena, arenas`occupants
      ensures arena == old(next_arena) && next_arena == null && Counted(characters, arenas)
    {
      if next_arena != null {
        ghost var inside := Inside(characters, next_arena);
        arena := next_arena;
        arena.occupants := arena.occupants + 1;
        next_arena := null;
        assert Inside(characters, arena) == inside + {this};
        forall a | a in arenas && a != arena
          ensures a.occupants == |Inside(characters, a)|
        {
          assert Inside(characters, a) == old(Inside(characters, a));
        }
      }
    }
  
    /** Warp refuses a map that is not there; otherwise it moves the character and settles his arena. */
    method Warp(maps: seq<Map>, mapid: int, x: int, y: int, ghost characters: set<Character>, ghost arenas: set<Arena>)
      requires Counted(characters, arenas) && Placed(characters, maps) && this in characters && online
      requires next_arena != null ==> next_arena in arenas
      modifies this, maps`characters, arenas`occupants
      ensures Counted(characters, arenas) && Placed(characters, maps)
      ensures online && direction == old(direction) && arena_kills == old(arena_kills)
      ensures Reachable(maps, mapid) ==> this.x == x && this.y == y && arena == old(next_arena) && next_arena == null
      ensures Reachable(maps, mapid) ==> area == maps[mapid - 1] && this in area.characters
      ensures !Reachable(maps, mapid) ==>
                this.x == old(this.x) && this.y == old(this.y) && arena == old(arena) && next_arena == old(next_arena)
      ensures forall m, c :: m in maps && c != this ==> (c in m.characters <==> c in old(m.characters))
    {
      if Reachable(maps, mapid) {
        ChangeMap(maps, maps[mapid - 1], characters);
        this.x := x;
        this.y := y;
        LeaveArena(characters, arenas);
        EnterArena(characters, arenas);
      }
    }

    /** The leaving of one map and the entering of another that a warp consists of. */
    method ChangeMap(maps: seq<Map>, to: Map, ghost characters: set<Character>)
      requires Placed(characters, maps) && this in characters && online && to in maps && to.loaded
      modifies this`area, maps`characters
      ensures area == to && this in to.characters && Placed(characters, maps)
      ensures forall m, c :: m in maps && c != this ==> (c in m.characters <==> c in old(m.characters))
    {
      if area.loaded {
        area.characters := Without(area.characters, this);
      }
      area := to;
      area.characters := area.characters + [this];
    }

    /** The counting half of Logout; the world then takes the character off his map. */
    method Logout(maps: seq<Map>, ghost characters: set<Character>, ghost arenas: set<Arena>)
      requires Counted(characters, arenas) && Placed(characters, maps) && this in characters
      modifies this`online, maps`characters, arenas`occupants
      ensures !online && Counted(characters, arenas) && Placed(characters, maps)
    {
      if !online {
        return;
      }
      StopCounting(characters, arenas);
      area.characters := Without(area.characters, this);
    }

    method StopCounting(ghost characters: set<Character>, ghost arenas: set<Arena>)
      requires Counted(characters, arenas) && this in characters && online
      modifies this`online, arenas`occupants
      ensures !online && Counted(characters, arenas)
    {
      ghost var inside := if arena == null then {} else Inside(characters, arena);
      if arena != null {
        arena.occupants := arena.occupants - 1;
      }
      online := false;
      if arena != null {
        assert Inside(characters, arena) == inside - {this};
      }
      forall a | a in arenas && a != arena
        ensures a.occupants == |Inside(characters, a)|
      {
        assert Inside(characters, a) == old(Inside(characters, a));
      }
    }
  }

  /** The maps that Warp accepts. */
  predicate Reachable(maps: seq<Map>, mapid: int)
  {
    0 < mapid <= |maps| && maps[mapid - 1].loaded
  }

  /** Somebody after his warps: only the first one can lead into an arena, as it uses up `next_arena`. */
  ghost predicate Fated(c: Character, fate: Fate, arena: Arena?, next: Arena?, x: int, y: int)
    reads c
  {
    match fate
    case Stays => c.arena == arena && c.next_arena == next && c.x == x && c.y == y
    case Sent(times, x', y') =>
      c.arena == (if times == 1 then next else null) && c.next_arena == null && c.x == x' && c.y == y'
  }

  method WarpAll(maps: seq<Map>, mapid: int, actions: seq<Action>,
                 ghost characters: set<Character>, ghost arenas: set<Arena>)
    requires Counted(characters, arenas) && Placed(characters, maps) && Reachable(maps, mapid)
    requires forall a :: a in actions ==> a.who in characters && a.who.online
    requires forall c :: c in characters && c.next_arena != null ==> c.next_arena in arenas
    modifies characters, maps`characters, arenas`occupants
    ensures Counted(characters, arenas) && Placed(characters, maps)
    ensures forall c :: c in characters ==>
              Fated(c, FateOf(actions, c), old(c.arena), old(c.next_arena), old(c.x), old(c.y))
    ensures forall c :: c in characters ==> c.online == old(c.online) && c.arena_kills == old(c.arena_kills)
  {
    hide FateOf, Counted, Placed;
    FateOfNone();
    for i := 0 to |actions|
      invariant Counted(characters, arenas) && Placed(characters, maps)
      invariant forall c :: c in characters ==>
                  Fated(c, FateOf(actions[..i], c), old(c.arena), old(c.next_arena), old(c.x), old(c.y))
      invariant forall c :: c in characters ==> c.online == old(c.online) && c.arena_kills == old(c.arena_kills)
    {
      var act := actions[i];
      FateGrows(actions[..i], act);
      assert actions[..i + 1] == actions[..i] + [act];
      act.who.Warp(maps, mapid, act.x, act.y, characters, arenas);
    }
    assert actions[..|actions|] == actions;
  }

  lemma FateOfNone()
    ensures forall c :: FateOf([], c) == Stays
  {
  }

  class Arena {
    const area: Map
    const block: int
    var occupants: int
    var spawns: seq<Spawn>

    constructor (area: Map, block: int, spawns: seq<Spawn>)
      ensures this.area == area && this.block == block && occupants == 0 && this.spawns == spawns
    {
      this.area, this.block, occupants, this.spawns := area, block, 0, spawns;
    }

    /** Everybody here who stands on a tile, in the order of the map's list. */
    static function Standing(cs: seq<Character>, sx: int, sy: int): (r: seq<Character>)
      reads cs`x, cs`y
      ensures forall c | c in r :: c in cs && c.x == sx && c.y == sy
      ensures forall c | c in cs && c.x == sx && c.y == sy :: c in r
    {
      if cs == [] then []
      else (if cs[0].x == sx && cs[0].y == sy then [cs[0]] else []) + Standing(cs[1..], sx, sy)
    }

    static function Matches(spawns: seq<Spawn>, cs: seq<Character>): (n: nat)
      reads cs`x, cs`y
    {
      if spawns == [] then 0
      else Matches(spawns[..|spawns| - 1], cs) + |Standing(cs, spawns[|spawns| - 1].sx, spawns[|spawns| - 1].sy)|
    }

    /** One warp per spawn somebody stands on, for the first who does. */
    static function Actions(spawns: seq<Spawn>, cs: seq<Character>): (r: seq<Action>)
      reads cs`x, cs`y
    {
      if spawns == [] then []
      else
        var s := spawns[|spawns| - 1];
        var there := Standing(cs, s.sx, s.sy);
        Actions(spawns[..|spawns| - 1], cs) + if there == [] then [] else [Action(there[0], s.dx, s.dy)]
    }

    /** The counting loop. */
    method CountMatches() returns (newplayers: int)
      ensures newplayers == Matches(spawns, area.characters)
    {
      newplayers := 0;
      for i := 0 to |spawns|
        invariant newplayers == Matches(spawns[..i], area.characters)
      {
        var cs := area.characters;
        var spawn := spawns[i];
        ghost var before := newplayers;
        for j := 0 to |cs|
          invariant newplayers == before + |Standing(cs[..j], spawn.sx, spawn.sy)|
        {
          StandingSplit(cs[..j + 1], spawn.sx, spawn.sy, j);
          assert cs[..j + 1][..j] == cs[..j] && cs[..j + 1][j..] == [cs[j]];
          if cs[j].x == spawn.sx && cs[j].y == spawn.sy {
            newplayers := newplayers + 1;
          }
        }
        assert cs[..|cs|] == cs;
        assert spawns[..i + 1][..i] == spawns[..i];
      }
      assert spawns[..|spawns|] == spawns;
    }

    static lemma {:induction false} StandingSplit(cs: seq<Character>, sx: int, sy: int, j: nat)
      requires j <= |cs|
      ensures Standing(cs, sx, sy) == Standing(cs[..j], sx, sy) + Standing(cs[j..], sx, sy)
    {
      if j > 0 {
        StandingSplit(cs[1..], sx, sy, j - 1);
        assert cs[..j][1..] == cs[1..][..j - 1];
        assert cs[1..][j - 1..] == cs[j..];
      }
    }

    /** The collecting loop: the first character on each spawn is told that this arena comes next. */
    method Collect(ghost characters: set<Character>) returns (actions: seq<Action>)
      requires forall c :: c in area.characters ==> c in characters
      modifies characters`next_arena, characters`arena_kills
      ensures actions == Actions(spawns, area.characters)
      ensures forall c :: c in characters && FateOf(actions, c).Stays? ==>
                c.next_arena == old(c.next_arena) && c.arena_kills == old(c.arena_kills)
      ensures forall c :: c in characters && FateOf(actions, c).Sent? ==> c.next_arena == this && c.arena_kills == 0
    {
      hide FateOf, Standing, Actions;
      actions := [];
      ActionsGrow(spawns, area.characters, 0);
      for i := 0 to |spawns|
        invariant actions == Actions(spawns[..i], area.characters)
        invariant forall c :: c in characters && FateOf(actions, c).Stays? ==>
                    c.next_arena == old(c.next_arena) && c.arena_kills == old(c.arena_kills)
        invariant forall c :: c in characters && FateOf(actions, c).Sent? ==> c.next_arena == this && c.arena_kills == 0
      {
        var spawn := spawns[i];
        ActionsGrow(spawns, area.characters, i);
        var j := FirstOn(spawn.sx, spawn.sy);
        if j < |area.characters| {
          var character := area.characters[j];
          character.next_arena := this;
          character.arena_kills := 0;
          FateGrows(actions, Action(character, spawn.dx, spawn.dy));
          actions := actions + [Action(character, spawn.dx, spawn.dy)];
        }
      }
      assert spawns[..|spawns|] == spawns;
    }

    static lemma ActionsGrow(spawns: seq<Spawn>, cs: seq<Character>, i: nat)
      requires i <= |spawns|
      ensures i == 0 ==> Actions(spawns[..i], cs) == []
      ensures i < |spawns| ==>
                Actions(spawns[..i + 1], cs) == Actions(spawns[..i], cs) +
                  var there := Standing(cs, spawns[i].sx, spawns[i].sy);
                  if there == [] then [] else [Action(there[0], spawns[i].dx, spawns[i].dy)]
    {
      if i < |spawns| {
        assert spawns[..i + 1][..i] == spawns[..i];
      }
    }

    method FirstOn(sx: int, sy: int) returns (j: nat)
      ensures j <= |area.characters|
      ensures j == |area.characters| <==> Standing(area.characters, sx, sy) == []
      ensures j < |area.characters| ==> Standing(area.characters, sx, sy)[0] == area.characters[j]
    {
      var cs := area.characters;
      j := 0;
      while j < |cs|
        invariant j <= |cs| && Standing(cs[..j], sx, sy) == []
      {
        StandingSplit(cs, sx, sy, j);
        if cs[j].x == sx && cs[j].y == sy {
          return;
        }
        StandingSplit(cs[..j + 1], sx, sy, j);
        assert cs[..j + 1][..j] == cs[..j] && cs[..j + 1][j..] == [cs[j]];
        j := j + 1;
      }
      assert cs[..j] == cs;
    }

    /** Between two events nobody is on the way into an arena, and an arena's own map is one that Warp accepts. */
    ghost predicate Quiet(maps: seq<Map>, characters: set<Character>, arenas: set<Arena>)
      reads characters, maps`characters, arenas`occupants
    {
      && Counted(characters, arenas) && Placed(characters, maps)
      && (forall c :: c in characters ==> c.next_arena == null)
      && this in arenas && Reachable(maps, area.id) && maps[area.id - 1] == area
    }

    /** Of those standing on a spawn, the first in the map's list. */
    static predicate First(cs: seq<Character>, s: Spawn, c: Character)
      reads cs`x, cs`y
    {
      exists j :: 0 <= j < |cs| && cs[j] == c && c.x == s.sx && c.y == s.sy &&
                  forall k :: 0 <= k < j ==> !(cs[k].x == s.sx && cs[k].y == s.sy)
    }

    /** The spawns somebody is first on. */
    static function Own(spawns: seq<Spawn>, cs: seq<Character>, c: Character): (r: set<int>)
      reads cs`x, cs`y
      ensures forall i | i in r :: 0 <= i < |spawns|
    {
      set i | 0 <= i < |spawns| && First(cs, spawns[i], c)
    }

    static lemma {:induction false} StandingFirst(cs: seq<Character>, s: Spawn, c: Character)
      ensures var there := Standing(cs, s.sx, s.sy);
              (there != [] && there[0] == c) <==> First(cs, s, c)
    {
      hide First;
      if cs == [] {
        NobodyFirst(s, c);
      } else {
        FirstOf(cs, s, c);
        StandingFirst(cs[1..], s, c);
      }
    }

    static lemma NobodyFirst(s: Spawn, c: Character)
      ensures !First([], s, c)
    {
    }

    static lemma FirstOf(cs: seq<Character>, s: Spawn, c: Character)
      requires cs != []
      ensures First(cs, s, c) <==> if cs[0].x == s.sx && cs[0].y == s.sy then c == cs[0] else First(cs[1..], s, c)
    {
      if cs[0].x == s.sx && cs[0].y == s.sy {
        assert c == cs[0] ==> cs[0] == c;
      } else {
        FirstSkips(cs, s, c);
      }
    }

    static lemma FirstSkips(cs: seq<Character>, s: Spawn, c: Character)
      requires cs != [] && !(cs[0].x == s.sx && cs[0].y == s.sy)
      ensures First(cs, s, c) <==> First(cs[1..], s, c)
    {
      var rest := cs[1..];
      assert forall k :: 0 <= k < |rest| ==> rest[k] == cs[k + 1];
      if First(rest, s, c) {
        var j :| 0 <= j < |rest| && rest[j] == c && c.x == s.sx && c.y == s.sy &&
                 forall k :: 0 <= k < j ==> !(rest[k].x == s.sx && rest[k].y == s.sy);
        assert forall k :: 1 <= k < j + 1 ==> cs[k] == rest[k - 1];
        assert cs[j + 1] == c;
      }
    }

    /** The last of some spawns. */
    static ghost predicate Last(own: set<int>, i: int)
    {
      i in own && forall k :: k in own ==> k <= i
    }

    /** Somebody's warps: one for each spawn of his own, and the last of those says where he ends up. */
    static lemma {:induction false} FateMeans(spawns: seq<Spawn>, cs: seq<Character>, c: Character)
      ensures var own, fate := Own(spawns, cs, c), FateOf(Actions(spawns, cs), c);
              if own == {} then fate == Stays
              else exists i :: Last(own, i) && fate == Sent(|own|, spawns[i].dx, spawns[i].dy)
    {
      hide First, Standing, FateOf, Own;
      if spawns == [] {
        NoSpawns(cs, c);
      } else {
        var n := |spawns| - 1;
        var before, own := Own(spawns[..n], cs, c), Own(spawns, cs, c);
        FateMeans(spawns[..n], cs, c);
        OwnGrows(spawns, cs, c);
        StandingFirst(cs, spawns[n], c);
        var there := Standing(cs, spawns[n].sx, spawns[n].sy);
        assert there == [] ==> Actions(spawns, cs) == Actions(spawns[..n], cs);
        if there != [] {
          FateGrows(Actions(spawns[..n], cs), Action(there[0], spawns[n].dx, spawns[n].dy));
        }
        if First(cs, spawns[n], c) {
          assert Last(own, n) && |own| == |before| + 1;
        } else if own != {} {
          assert FateOf(Actions(spawns, cs), c) == FateOf(Actions(spawns[..n], cs), c);
          var i :| Last(before, i) && FateOf(Actions(spawns[..n], cs), c) == Sent(|before|, spawns[i].dx, spawns[i].dy);
          assert Last(own, i);
        }
      }
    }

    static lemma NoSpawns(cs: seq<Character>, c: Character)
      ensures Own([], cs, c) == {} && FateOf(Actions([], cs), c) == Stays
    {
    }

    static lemma OwnGrows(spawns: seq<Spawn>, cs: seq<Character>, c: Character)
      requires spawns != []
      ensures var n := |spawns| - 1;
              Own(spawns, cs, c) == Own(spawns[..n], cs, c) + if First(cs, spawns[n], c) then {n} else {}
    {
      hide First;
      assert forall i :: 0 <= i < |spawns| - 1 ==> spawns[..|spawns| - 1][i] == spawns[i];
    }

    /** `Matches` counts everybody for every spawn he stands on. */
    static lemma {:induction false} StandingCounts(cs: seq<Character>, sx: int, sy: int)
      ensures |Standing(cs, sx, sy)| == |Places(cs, sx, sy)|
    {
      hide Standing;
      if cs == [] {
        NoneStanding(sx, sy);
      } else {
        StandingCounts(cs[..|cs| - 1], sx, sy);
        OneMoreStanding(cs, sx, sy);
        OneMorePlace(cs, sx, sy);
      }
    }

    /** Where in the list those who stand on a tile are. */
    static function Places(cs: seq<Character>, sx: int, sy: int): (r: set<int>)
      reads cs`x, cs`y
    {
      set j | 0 <= j < |cs| && cs[j].x == sx && cs[j].y == sy
    }

    static lemma NoneStanding(sx: int, sy: int)
      ensures Standing([], sx, sy) == [] && Places([], sx, sy) == {}
    {
    }

    static lemma OneMorePlace(cs: seq<Character>, sx: int, sy: int)
      requires cs != []
      ensures var k := |cs| - 1;
              |Places(cs, sx, sy)| == |Places(cs[..k], sx, sy)| + if cs[k].x == sx && cs[k].y == sy then 1 else 0
    {
      var k := |cs| - 1;
      assert Places(cs, sx, sy) == Places(cs[..k], sx, sy) + if cs[k].x == sx && cs[k].y == sy then {k} else {};
    }

    static lemma OneMoreStanding(cs: seq<Character>, sx: int, sy: int)
      requires cs != []
      ensures var k := |cs| - 1;
              |Standing(cs, sx, sy)| == |Standing(cs[..k], sx, sy)| + if cs[k].x == sx && cs[k].y == sy then 1 else 0
    {
      var k := |cs| - 1;
      StandingSplit(cs, sx, sy, k);
      assert cs[k..] == [cs[k]];
      assert Standing([], sx, sy) == [];
    }

    /** A round. Everybody who is first on a spawn gets in - unless he is first on several, who ends up outside. Either
        way the last of his spawns says where. */
    method Spawn(force: bool, maps: seq<Map>, ghost characters: set<Character>, ghost arenas: set<Arena>)
      returns (spawned: bool, newplayers: int)
      requires Quiet(maps, characters, arenas)
      modifies characters, maps`characters, arenas`occupants
      ensures Quiet(maps, characters, arenas)
      ensures newplayers == old(Matches(spawns, area.characters))
      ensures spawned <==> newplayers != 0 && (force || old(occupants) < block)
      ensures forall c :: c in characters ==>
                var own := if spawned then old(Own(spawns, area.characters, c)) else {};
                if own == {} then
                  && c.arena == old(c.arena) && c.x == old(c.x) && c.y == old(c.y)
                  && c.arena_kills == old(c.arena_kills)
                else
                  && c.arena == (if |own| == 1 then this else null) && c.arena_kills == 0
                  && exists i :: Last(own, i) && c.x == spawns[i].dx && c.y == spawns[i].dy
    {
      hide Actions, Matches, FateOf, Counted, Own;
      spawned := false;
      newplayers := CountMatches();
      if newplayers == 0 {
        return;
      }
      if occupants >= block && !force {
        return;
      }
      spawned := true;
      var actions := Collect(characters);
      FirstsStandHere(spawns, area.characters);
      forall c | c in characters
        ensures var own, fate := old(Own(spawns, area.characters, c)), FateOf(actions, c);
                if own == {} then fate == Stays
                else exists i :: Last(own, i) && fate == Sent(|own|, spawns[i].dx, spawns[i].dy)
      {
        FateMeans(spawns, area.characters, c);
      }
      WarpAll(maps, area.id, actions, characters, arenas);
      forall c | c in characters
        ensures c.next_arena == null
        ensures var own := old(Own(spawns, area.characters, c));
                if own == {} then c.arena == old(c.arena) && c.x == old(c.x) && c.y == old(c.y)
                else c.arena == (if |own| == 1 then this else null)
                     && exists i :: Last(own, i) && c.x == spawns[i].dx && c.y == spawns[i].dy
      {
      }
    }

    static lemma {:induction false} FirstsStandHere(spawns: seq<Spawn>, cs: seq<Character>)
      ensures forall a :: a in Actions(spawns, cs) ==> a.who in cs
    {
      if spawns != [] {
        FirstsStandHere(spawns[..|spawns| - 1], cs);
      }
    }

    /** The count sent to the players is at least the number of warps, and no warp means nobody was counted. */
    static lemma {:induction false} CountedAndWarped(spawns: seq<Spawn>, cs: seq<Character>)
      ensures |Actions(spawns, cs)| <= Matches(spawns, cs)
      ensures Actions(spawns, cs) == [] <==> Matches(spawns, cs) == 0
    {
      if spawns != [] {
        CountedAndWarped(spawns[..|spawns| - 1], cs);
      }
    }

    /** Somebody of this arena on a tile. */
    predicate Exposed(c: Character, x: int, y: int)
      reads c`arena, c`x, c`y
    {
      c.arena == this && c.x == x && c.y == y
    }

    /** The searching loop of Attack. */
    method FirstExposed(x: int, y: int) returns (victim: Character?)
      ensures victim == null ==> forall c :: c in area.characters ==> !Exposed(c, x, y)
      ensures victim != null ==>
                Met(area.characters, victim, x, y) && Exposed(victim, x, y) && victim in area.characters
    {
      for j := 0 to |area.characters|
        invariant forall k :: 0 <= k < j ==> !Exposed(area.characters[k], x, y)
      {
        if Exposed(area.characters[j], x, y) {
          return area.characters[j];
        }
      }
      return null;
    }

    /** The first of the map's list who is exposed: the one a hit on that tile meets. */
    ghost predicate Met(cs: seq<Character>, c: Character, x: int, y: int)
      reads cs`arena, cs`x, cs`y
    {
      exists j :: 0 <= j < |cs| && cs[j] == c && Exposed(c, x, y) && forall k :: 0 <= k < j ==> !Exposed(cs[k], x, y)
    }

    /** Somebody who faces no real direction hits his own tile; it is himself he hits if nobody of the arena comes
        before him in the map's list there. */
    ghost predicate HitsHimself(from: Character)
      reads this, from, area, area.characters
    {
      && !(0 <= from.direction <= 3)
      && exists j :: 0 <= j < |area.characters| && area.characters[j] == from &&
                     forall k :: 0 <= k < j ==> !Exposed(area.characters[k], from.x, from.y)
    }

    lemma Here(maps: seq<Map>, characters: set<Character>, arenas: set<Arena>, c: Character)
      requires Quiet(maps, characters, arenas) && c in area.characters
      ensures c in characters && c.online
    {
    }

    lemma MeetsNobody(from: Character)
      requires from.arena == this && forall c :: c in area.characters ==> !Exposed(c, Ahead(from).0, Ahead(from).1)
      ensures !HitsHimself(from)
    {
      assert from in area.characters ==> Exposed(from, from.x, from.y);
    }

    lemma MeetsHimself(from: Character, victim: Character)
      requires from.arena == this && Met(area.characters, victim, Ahead(from).0, Ahead(from).1)
      ensures victim == from <==> HitsHimself(from)
    {
      if HitsHimself(from) {
        assert Met(area.characters, from, from.x, from.y);
      }
    }

    /** Sent out of the arena, to where its map lets people log in again. */
    ghost predicate Outside(c: Character)
      reads c`arena, c`x, c`y
    {
      c.arena == null && c.x == area.relog_x && c.y == area.relog_y
    }

    /** The warps of a hit. */
    method SendOut(victim: Character, from: Character, maps: seq<Map>,
                   ghost characters: set<Character>, ghost arenas: set<Arena>)
      requires Quiet(maps, characters, arenas) && {victim, from} <= characters && victim.online && from.online
      requires from.arena == this
      modifies characters, maps`characters, arenas`occupants
      ensures Quiet(maps, characters, arenas)
      ensures forall c :: c in characters ==> c.online == old(c.online) && c.arena_kills == old(c.arena_kills)
      ensures forall c :: c in characters ==>
                if c in Gone(victim, from, old(occupants)) then Outside(c)
                else c.arena == old(c.arena) && c.x == old(c.x) && c.y == old(c.y)
    {
      var actions := [Action(victim, area.relog_x, area.relog_y)];
      if from.arena.occupants == 2 {
        actions := actions + [Action(from, area.relog_x, area.relog_y)];
        FateGrows([actions[0]], actions[1]);
      }
      FateGrows([], actions[0]);
      FateOfNone();
      hide FateOf, Counted, Placed;
      WarpAll(maps, area.id, actions, characters, arenas);
    }

    method SendOutCounted(victim: Character, from: Character, maps: seq<Map>,
                          ghost characters: set<Character>, ghost arenas: set<Arena>)
      requires Quiet(maps, characters, arenas) && {victim, from} <= characters && victim.online && from.online
      requires from.arena == this && victim.arena == this
      modifies characters, maps`characters, arenas`occupants
      ensures Quiet(maps, characters, arenas)
      ensures forall c :: c in characters ==> c.online == old(c.online) && c.arena_kills == old(c.arena_kills)
      ensures forall c :: c in characters ==>
                if c in Gone(victim, from, old(occupants)) then Outside(c)
                else c.arena == old(c.arena) && c.x == old(c.x) && c.y == old(c.y)
      ensures occupants == old(occupants) - if old(occupants) == 2 && victim != from then 2 else 1
    {
      CountOf(characters, arenas, this);
      hide Counted, Placed, Gone;
      ghost var before := Inside(characters, this);
      ghost var gone := Gone(victim, from, occupants);
      TwoThenNone(before, victim, from);
      SendOut(victim, from, maps, characters, arenas);
      assert Inside(characters, this) == before - gone;
      CountOf(characters, arenas, this);
    }

    /** A hit sends out whom it meets, and the attacker with him if there were two. Then none is left, unless the
        attacker hit himself. Directions are down, left, up and right, from 0 to 3. */
    method Attack(from: Character, maps: seq<Map>, ghost characters: set<Character>, ghost arenas: set<Arena>)
      returns (victim: Character?)
      requires Quiet(maps, characters, arenas) && from in characters && from.online && from.arena == this
      modifies characters, maps`characters, arenas`occupants
      ensures Quiet(maps, characters, arenas)
      ensures var x := old(from.x) + if old(from.direction) == 3 then 1 else if old(from.direction) == 1 then -1 else 0;
              var y := old(from.y) + if old(from.direction) == 0 then 1 else if old(from.direction) == 2 then -1 else 0;
              if victim == null then
                forall c | c in old(area.characters) :: !(old(c.arena) == this && old(c.x) == x && old(c.y) == y)
              else
                && victim in old(area.characters)
                && old(victim.arena) == this && old(victim.x) == x && old(victim.y) == y
                && exists j :: 0 <= j < |old(area.characters)| && old(area.characters)[j] == victim
                     && forall k :: 0 <= k < j ==>
                          var c := old(area.characters)[k]; !(old(c.arena) == this && old(c.x) == x && old(c.y) == y)
      ensures from.arena_kills == old(from.arena_kills) + if victim == null then 0 else 1
      ensures victim == from <==> old(HitsHimself(from))
      ensures old(occupants) == 2 && victim != null ==> (occupants == 0 <==> !old(HitsHimself(from)))
      ensures forall c :: c in characters && c != from ==> c.arena_kills == old(c.arena_kills)
      ensures forall c :: c in characters ==> c.online == old(c.online)
      ensures forall c :: c in characters ==>
                if victim != null && (c == victim || (c == from && old(occupants) == 2))
                then c.arena == null && c.x == area.relog_x && c.y == area.relog_y
                else c.arena == old(c.arena) && c.x == old(c.x) && c.y == old(c.y)
      ensures occupants == old(occupants) -
                if victim == null then 0 else if old(occupants) == 2 && !old(HitsHimself(from)) then 2 else 1
    {
      hide HitsHimself, Ahead, Counted, Placed;
      AheadIs(from);
      var (x, y) := Ahead(from);
      victim := FirstExposed(x, y);
      if victim == null {
        MeetsNobody(from);
        return;
      }
      MeetsHimself(from, victim);
      Here(maps, characters, arenas, victim);
      from.arena_kills := from.arena_kills + 1;
      SendOutCounted(victim, from, maps, characters, arenas);
    }
  }

  /** One of the two in an arena faces direction 7 and hits: the other one stays behind. */
  method HitWithDirectionSeven() returns (left: int)
    ensures left == 1
  {
    var area := new Map(1, 0, 0, true);
    var arena := new Arena(area, 2, []);
    var from := new Character(area);
    var other := new Character(area);
    area.characters := [from, other];
    from.direction, from.arena, other.arena, arena.occupants := 7, arena, arena, 2;
    TwoInside(arena, area, from, other);
    hide *;
    var victim := arena.Attack(from, [area], {from, other}, {arena});
    left := arena.occupants;
  }

  lemma TwoInside(arena: Arena, area: Map, from: Character, other: Character)
    requires arena.area == area && area.id == 1 && area.loaded && area.characters == [from, other] && from != other
    requires from.area == area && from.online && from.arena == arena && from.next_arena == null
    requires other.area == area && other.online && other.arena == arena && other.next_arena == null
    requires arena.occupants == 2 && from.direction == 7
    ensures arena.Quiet([area], {from, other}, {arena}) && arena.HitsHimself(from)
  {
    assert Inside({from, other}, arena) == {from, other};
    assert area.characters[0] == from;
  }

  lemma TwoThenNone(before: set<Character>, victim: Character, from: Character)
    requires victim in before && from in before
    ensures |before - Gone(victim, from, |before|)| == |before| - if |before| == 2 && victim != from then 2 else 1
  {
    if |before| == 2 && victim != from {
      assert before - {victim} - {from} == before - {victim, from};
    } else {
      assert before - {victim} == before - Gone(victim, from, |before|);
    }
  }

  lemma CountOf(characters: set<Character>, arenas: set<Arena>, a: Arena)
    requires Counted(characters, arenas) && a in arenas
    ensures a.occupants == |Inside(characters, a)|
  {
  }

  lemma AheadIs(c: Character)
    ensures Ahead(c) == (
              c.x + if c.direction == 3 then 1 else if c.direction == 1 then -1 else 0,
              c.y + if c.direction == 0 then 1 else if c.direction == 2 then -1 else 0)
  {
  }

  /** The tile a character faces; a direction that is none leaves him facing his own. */
  function Ahead(c: Character): (r: (int, int))
    reads c`x, c`y, c`direction
    ensures r == (c.x, c.y) <==> !(0 <= c.direction <= 3)
  {
    match c.direction
    case 0 => (c.x, c.y + 1)
    case 1 => (c.x - 1, c.y)
    case 2 => (c.x, c.y - 1)
    case 3 => (c.x + 1, c.y)
    case _ => (c.x, c.y)
  }

  /** Whom a hit removes. */
  ghost function Gone(victim: Character?, from: Character, occupants: int): (r: set<Character>)
  {
    if victim == null then {} else if occupants == 2 then {victim, from} else {victim}
  }
}
