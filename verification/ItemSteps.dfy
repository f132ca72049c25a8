/** What each item handler does to the stores it touches, and what the whole world holds
    (src/handlers/Item.cpp, Chest.cpp, Locker.cpp, Bank.cpp; src/character.cpp). A handler whose early
    checks (trading, distance, tile, map, item class) refuse leaves everything alone and is not a step. */
module ItemSteps {
  import opened ItemStores
  import Numbers

  /** `doll` are the 15 worn items, 0 for none; `gold` is the banked gold (item 1). */
  datatype CharState = CharState(inv: seq<Stack>, doll: seq<int>, bank: seq<Stack>, gold: int)

  datatype MapState = MapState(ground: seq<Ground>, chests: seq<Chest>)

  /** `Character::CanHoldItem`; `room` is what the weight allows. */
  function CanHold(room: nat, amount: int, cfg: Config): (n: int)
  {
    Min(Min(room, amount), cfg.maxItem)
  }

  lemma LeastFreeExists(g: seq<Ground>, from: int)
    requires from >= 1 && forall v | 1 <= v < from :: v in Uids(g)
    ensures exists u :: IsLeastFree(u, Uids(g))
    decreases |g| + 2 - from
  {
    LeastFreeBound(g, from);
    if from in Uids(g) {
      LeastFreeExists(g, from + 1);
    } else {
      assert IsLeastFree(from, Uids(g));
    }
  }

  ghost function LeastFree(g: seq<Ground>): (u: int)
    ensures IsLeastFree(u, Uids(g))
  {
    LeastFreeExists(g, 1);
    var u :| IsLeastFree(u, Uids(g));
    u
  }

  // ---------------------------------------------------------------- the handlers

  ghost function Drop(c: CharState, m: MapState, id: int, asked: int, x: int, y: int, cfg: Config)
    : (r: (CharState, MapState))
  {
    var amount := Min(asked, cfg.maxDrop);
    if amount <= 0 || Has(c.inv, id) < amount then (c, m)
    else
      (c.(inv := Removed(c.inv, id, amount).1),
       if Full(m.ground, x, y, cfg) then m
       else m.(ground := Dropped(m.ground, LeastFree(m.ground), id, amount, x, y)))
  }

  function Junk(c: CharState, id: int, amount: int): (r: CharState)
  {
    if amount <= 0 || Has(c.inv, id) < amount then c else c.(inv := Removed(c.inv, id, amount).1)
  }

  function Get(c: CharState, m: MapState, uid: int, room: nat, cfg: Config): (r: (CharState, MapState))
  {
    var i := FindUid(m.ground, uid);
    if i == |m.ground| then (c, m)
    else
      var s := m.ground[i].stack;
      var taken := CanHold(room, s.amount, cfg);
      if taken <= 0 then (c, m)
      else (c.(inv := Added(c.inv, s.id, taken, cfg).1), m.(ground := Picked(m.ground, uid, taken)))
  }

  /** First chest at the tile. */
  function FindChest(chests: seq<Chest>, x: int, y: int): (i: nat)
    ensures i <= |chests| && (i < |chests| ==> chests[i].x == x && chests[i].y == y)
    ensures forall j | 0 <= j < i :: !(chests[j].x == x && chests[j].y == y)
  {
    if chests == [] || (chests[0].x == x && chests[0].y == y) then 0
    else
      var i := 1 + FindChest(chests[1..], x, y);
      assert forall j | 1 <= j < i :: chests[j] == chests[1..][j - 1];
      i
  }

  function ChestAdd(c: CharState, m: MapState, x: int, y: int, id: int, asked: int, cfg: Config)
    : (r: (CharState, MapState))
  {
    var k := FindChest(m.chests, x, y);
    if k == |m.chests| then (c, m)
    else
      var chest := m.chests[k];
      var amount := Min(asked, cfg.maxChest - Has(ChestStacks(chest.items), id));
      if Has(c.inv, id) < amount || ChestAdded(chest, id, amount).0 == 0 then (c, m)
      else (c.(inv := Removed(c.inv, id, amount).1), m.(chests := m.chests[k := ChestAdded(chest, id, amount).1]))
  }

  function ChestTaken(chest: Chest, id: int, room: nat, cfg: Config): (n: int)
  {
    CanHold(room, Has(ChestStacks(chest.items), id), cfg)
  }

  /** First chest at the tile from which something can be taken. */
  function FindTakable(chests: seq<Chest>, x: int, y: int, id: int, room: nat, cfg: Config): (i: nat)
    ensures i <= |chests|
    ensures i < |chests| ==> chests[i].x == x && chests[i].y == y && ChestTaken(chests[i], id, room, cfg) > 0
    ensures forall j | 0 <= j < i :: !(chests[j].x == x && chests[j].y == y && ChestTaken(chests[j], id, room, cfg) > 0)
  {
    if chests == [] || (chests[0].x == x && chests[0].y == y && ChestTaken(chests[0], id, room, cfg) > 0) then 0
    else
      var i := 1 + FindTakable(chests[1..], x, y, id, room, cfg);
      assert forall j | 1 <= j < i :: chests[j] == chests[1..][j - 1];
      i
  }

  function ChestTake(c: CharState, m: MapState, x: int, y: int, id: int, room: nat, cfg: Config)
    : (r: (CharState, MapState))
  {
    var k := FindTakable(m.chests, x, y, id, room, cfg);
    if k == |m.chests| then (c, m)
    else
      var taken := ChestTaken(m.chests[k], id, room, cfg);
      (c.(inv := Added(c.inv, id, taken, cfg).1), m.(chests := m.chests[k := ChestRemoved(m.chests[k], id, taken)]))
  }

  function LockerAdd(c: CharState, id: int, amount: int, lockermax: nat, cfg: Config): (r: CharState)
  {
    var i := Find(c.bank, id);
    if id == 1 || amount <= 0 || Has(c.inv, id) < amount then c
    else if i < |c.bank| then
      if Numbers.Plus32(c.bank[i].amount, amount) < 0 then c
      else
        var moved := Min(amount, cfg.maxBank - c.bank[i].amount);
        c.(bank := c.bank[i := Stack(id, c.bank[i].amount + moved)], inv := Removed(c.inv, id, moved).1)
    else if |c.bank| >= lockermax then c
    else
      var moved := Min(amount, cfg.maxBank);
      c.(bank := c.bank + [Stack(id, moved)], inv := Removed(c.inv, id, moved).1)
  }

  function LockerTake(c: CharState, id: int, room: nat, cfg: Config): (r: CharState)
  {
    var i := Find(c.bank, id);
    if i == |c.bank| then c
    else
      var taken := CanHold(room, c.bank[i].amount, cfg);
      var left := c.bank[i].amount - taken;
      c.(inv := Added(c.inv, id, taken, cfg).1,
         bank := if left <= 0 then Without(c.bank, i) else c.bank[i := Stack(id, left)])
  }

  function BankAdd(c: CharState, asked: int, cfg: Config): (r: CharState)
  {
    var amount := Min(asked, Has(c.inv, 1));
    var newgold := Numbers.Plus32(c.gold, amount);
    if asked <= 0 || newgold < c.gold || newgold > cfg.maxBankGold then c
    else c.(inv := Removed(c.inv, 1, amount).1, gold := newgold)
  }

  function BankTake(c: CharState, amount: int, cfg: Config): (r: CharState)
  {
    var newgold := Numbers.Plus32(c.gold, -amount);
    if amount <= 0 || newgold > c.gold || newgold < 0 then c
    else c.(inv := Added(c.inv, 1, amount, cfg).1, gold := newgold)
  }

  /** Slots 10, 12 and 14 are the second ring, armlet and bracer. */
  predicate SecondSlot(i: nat) { i == 10 || i == 12 || i == 14 }

  /** Ids that are none of the item table share its record 0, which cannot be worn. */
  function Equip(c: CharState, item: int, slot: nat): (r: CharState)
  {
    if Has(c.inv, item) == 0 || item <= 0 || slot >= |c.doll| || c.doll[slot] != 0 then c
    else c.(doll := c.doll[slot := item], inv := Removed(c.inv, item, 1).1)
  }

  /** First slot from `i` on that wears `item` on the side asked for. */
  function FindSlot(doll: seq<int>, item: int, subloc: int, i: nat): (j: nat)
    requires i <= |doll|
    ensures i <= j <= |doll|
    ensures j < |doll| ==> doll[j] == item && (if SecondSlot(j) then 1 else 0) == subloc
    ensures forall k | i <= k < j :: !(doll[k] == item && (if SecondSlot(k) then 1 else 0) == subloc)
    decreases |doll| - i
  {
    if i == |doll| || (doll[i] == item && (if SecondSlot(i) then 1 else 0) == subloc) then i
    else FindSlot(doll, item, subloc, i + 1)
  }

  function Unequip(c: CharState, item: int, subloc: int, cfg: Config): (r: CharState)
  {
    var j := FindSlot(c.doll, item, subloc, 0);
    if item == 0 || j == |c.doll| then c
    else c.(doll := c.doll[j := 0], inv := Added(c.inv, item, 1, cfg).1)
  }

  /** The first loop of `DropAll`: stacks from `i` on go to the ground, except lore items. */
  ghost function DropInventory(c: CharState, m: MapState, i: nat, x: int, y: int, lore: set<int>)
    : (r: (CharState, MapState))
    requires i <= |c.inv|
    decreases |c.inv| - i
  {
    if i == |c.inv| then (c, m)
    else if c.inv[i].id in lore then DropInventory(c, m, i + 1, x, y, lore)
    else
      var s := c.inv[i];
      DropInventory(c.(inv := Without(c.inv, i)),
                    m.(ground := Dropped(m.ground, LeastFree(m.ground), s.id, s.amount, x, y)), i, x, y, lore)
  }

  /** One slot in the second loop: to the ground, off the doll into the inventory, out of the inventory. */
  ghost function DropSlot(c: CharState, m: MapState, i: nat, x: int, y: int, kept: set<int>, cfg: Config)
    : (r: (CharState, MapState))
    requires i < |c.doll|
    ensures |r.0.doll| == |c.doll|
  {
    var id := c.doll[i];
    if id == 0 || id in kept then (c, m)
    else
      var c1 := Unequip(c, Numbers.Short(id), if SecondSlot(i) then 1 else 0, cfg);
      (c1.(inv := Removed(c1.inv, Numbers.Short(id), 1).1),
       m.(ground := Dropped(m.ground, LeastFree(m.ground), Numbers.Short(id), 1, x, y)))
  }

  ghost function DropDoll(c: CharState, m: MapState, i: nat, x: int, y: int, kept: set<int>, cfg: Config)
    : (r: (CharState, MapState))
    requires i <= |c.doll|
    decreases |c.doll| - i
  {
    if i == |c.doll| then (c, m)
    else
      var (c1, m1) := DropSlot(c, m, i, x, y, kept, cfg);
      DropDoll(c1, m1, i + 1, x, y, kept, cfg)
  }

  /** `Character::DropAll`: lore items stay, worn cursed ones too. */
  ghost function DropAll(c: CharState, m: MapState, x: int, y: int, lore: set<int>, cursed: set<int>, cfg: Config)
    : (r: (CharState, MapState))
  {
    var (c1, m1) := DropInventory(c, m, 0, x, y, lore);
    DropDoll(c1, m1, 0, x, y, lore + cursed, cfg)
  }
}
