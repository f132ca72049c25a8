/** What each item action takes from one store and puts into another, and when: the stores one by one, where
    `ItemWorld` adds them up. */
module ItemMoves {
  import opened Common
  import opened ItemStores
  import opened ItemSteps
  import opened ItemWorld
  import Numbers

  /** How many of an item each store has more than before; gold is banked gold, whatever the item. */
  datatype Delta = Delta(inv: int, bank: int, worn: int, gold: int, ground: int, chests: int)

  const NOTHING := Delta(0, 0, 0, 0, 0, 0)

  ghost function Change(before: (CharState, MapState), after: (CharState, MapState), k: int): (r: Delta)
  {
    Delta(
      Count(after.0.inv, k) - Count(before.0.inv, k),
      Count(after.0.bank, k) - Count(before.0.bank, k),
      Worn(after.0.doll, k) - Worn(before.0.doll, k),
      after.0.gold - before.0.gold,
      Count(GroundStacks(after.1.ground), k) - Count(GroundStacks(before.1.ground), k),
      Sum(ChestCounts(after.1.chests, k)) - Sum(ChestCounts(before.1.chests, k)))
  }

  function Worn(doll: seq<int>, k: int): (n: int)
  {
    multiset(doll)[k]
  }

  /** How many of `amount` an inventory takes in: none of an id outside the item table or past 32 bits, all of them as
      a new stack, and as many as the limit allows onto a stack that exists - fewer than none if it is above that. */
  function Accepted(s: seq<Stack>, id: int, amount: int, cfg: Config): (n: int)
  {
    var held := Has(s, id);
    if !(0 < id < cfg.eifSize) || (held > 0 && held + amount > Numbers.INT_MAX) then 0
    else if held > 0 && held + amount > cfg.maxItem then cfg.maxItem - held
    else amount
  }

  lemma AcceptedIs(s: seq<Stack>, id: int, amount: int, cfg: Config, k: int)
    requires Good(s) && Sane(cfg) && 0 < amount <= Numbers.INT_MAX && id <= SHORT_MAX
    ensures Count(Added(s, id, amount, cfg).1, k) - Count(s, k) == if k == id then Accepted(s, id, amount, cfg) else 0
  {
    AddedCounts(s, id, amount, cfg, k);
    HasPositive(s, id);
  }

  lemma HasPositive(s: seq<Stack>, id: int)
    requires Good(s)
    ensures Has(s, id) > 0 <==> Find(s, id) < |s|
    ensures 0 <= Has(s, id) <= Numbers.INT_MAX
  {
    var i := Find(s, id);
    assert i < |s| ==> GoodStack(s[i]);
  }

  lemma {:induction false} OnTileMeans(g: seq<Ground>, x: int, y: int)
    ensures OnTile(g, x, y) == |set i | 0 <= i < |g| && g[i].x == x && g[i].y == y|
  {
    if g != [] {
      var n := |g| - 1;
      OnTileMeans(g[..n], x, y);
      OnTileSnoc(g, x, y);
      var before := set i | 0 <= i < n && g[..n][i].x == x && g[..n][i].y == y;
      assert (set i | 0 <= i < |g| && g[i].x == x && g[i].y == y)
          == before + if g[n].x == x && g[n].y == y then {n} else {};
    }
  }

  lemma {:induction false} OnTileSnoc(g: seq<Ground>, x: int, y: int)
    requires g != []
    ensures var n := |g| - 1;
            OnTile(g, x, y) == OnTile(g[..n], x, y) + if g[n].x == x && g[n].y == y then 1 else 0
  {
    if |g| > 1 {
      OnTileSnoc(g[1..], x, y);
      assert g[1..][..|g| - 2] == g[..|g| - 1][1..];
    }
  }

  // ---------------------------------------------------------------- the ground

  lemma DropMoves(c: CharState, m: MapState, id: int, asked: int, x: int, y: int, cfg: Config, k: int)
    requires GoodChar(c) && GoodMap(m)
    ensures var after, n := Drop(c, m, id, asked, x, y, cfg), Min(asked, cfg.maxDrop);
            var drops := 0 < n <= Has(c.inv, id);
            var full := OnTile(m.ground, x, y) >= cfg.maxTile || |m.ground| >= cfg.maxMap;
            && Change((c, m), after, k) ==
               (if drops && k == id then NOTHING.(inv := -n, ground := if full then 0 else n) else NOTHING)
            && (if drops && !full
                then after.1.ground[..|m.ground|] == m.ground && |after.1.ground| == |m.ground| + 1
                     && after.1.ground[|m.ground|] == Ground(after.1.ground[|m.ground|].uid, Stack(id, n), x, y)
                else after.1.ground == m.ground)
  {
    var n := Min(asked, cfg.maxDrop);
    if 0 < n <= Has(c.inv, id) {
      RemovedCounts(c.inv, id, n, k);
      DroppedCounts(m.ground, LeastFree(m.ground), id, n, x, y, k);
    }
  }

  lemma JunkMoves(c: CharState, m: MapState, id: int, amount: int, k: int)
    requires GoodChar(c)
    ensures Change((c, m), (Junk(c, id, amount), m), k) ==
            if 0 < amount <= Has(c.inv, id) && k == id then NOTHING.(inv := -amount) else NOTHING
  {
    RemovedCounts(c.inv, id, amount, k);
  }

  /** As many as weight, pile and limit allow; of those the inventory takes in what it accepts. */
  lemma GetMoves(c: CharState, m: MapState, i: nat, room: nat, cfg: Config, k: int)
    requires GoodChar(c) && GoodMap(m) && Sane(cfg) && i < |m.ground| && DistinctUids(m.ground)
    ensures var s := m.ground[i].stack;
            var n := Min(Min(room, s.amount), cfg.maxItem);
            Change((c, m), Get(c, m, m.ground[i].uid, room, cfg), k) ==
            if n > 0 && k == s.id then NOTHING.(inv := Accepted(c.inv, k, n, cfg), ground := -n) else NOTHING
  {
    assert FindUid(m.ground, m.ground[i].uid) == i;
    var s := m.ground[i].stack;
    var n := CanHold(room, s.amount, cfg);
    assert GroundStacks(m.ground)[i] == s;
    if n > 0 {
      AcceptedIs(c.inv, s.id, n, cfg, k);
      PickedCounts(m.ground, m.ground[i].uid, n, k);
    }
  }

  // ---------------------------------------------------------------- chests

  /** A chest lets `n` of an item in: onto its stack within the limit, or as a stack of their own while there is a slot
      that is not kept for spawned items. */
  predicate LetsIn(chest: Chest, id: int, n: int)
  {
    var held := Has(ChestStacks(chest.items), id);
    if held > 0 then held + n <= Min(chest.maxchest, Numbers.INT_MAX)
    else
      && n <= chest.maxchest
      && (chest.chestslots < 0 || |chest.items| < chest.chestslots)
      && |set i | 0 <= i < |chest.items| && chest.items[i].slot == 0| + chest.spawnSlots < chest.chestslots
  }

  lemma {:induction false} UserItemsMeans(items: seq<ChestItem>)
    ensures UserItems(items) == |set i | 0 <= i < |items| && items[i].slot == 0|
  {
    if items != [] {
      var n := |items| - 1;
      UserItemsMeans(items[..n]);
      UserItemsSnoc(items);
      var before := set i | 0 <= i < n && items[..n][i].slot == 0;
      assert (set i | 0 <= i < |items| && items[i].slot == 0) == before + if items[n].slot == 0 then {n} else {};
    }
  }

  lemma {:induction false} UserItemsSnoc(items: seq<ChestItem>)
    requires items != []
    ensures var n := |items| - 1;
            UserItems(items) == UserItems(items[..n]) + if items[n].slot == 0 then 1 else 0
  {
    if |items| > 1 {
      UserItemsSnoc(items[1..]);
      assert items[1..][..|items| - 2] == items[..|items| - 1][1..];
    }
  }

  lemma NothingIn(chest: Chest, id: int, n: int)
    requires n <= 0
    ensures ChestAdded(chest, id, n) == (0, chest)
  {
  }

  lemma LetsInIs(chest: Chest, id: int, n: int)
    requires Good(ChestStacks(chest.items)) && 0 < n <= Numbers.INT_MAX
    ensures ChestAdded(chest, id, n).0 == if LetsIn(chest, id, n) then n else 0
  {
    HasPositive(ChestStacks(chest.items), id);
    UserItemsMeans(chest.items);
    var i := Find(ChestStacks(chest.items), id);
    if i < |chest.items| {
      Plus32Overflows(chest.items[i].stack.amount, n);
    }
  }

  /** The first chest on the tile takes as many as asked and its limit leaves, all or none, and no other chest
      changes. */
  lemma ChestAddMoves(c: CharState, m: MapState, x: int, y: int, id: int, asked: int, cfg: Config, j: nat, k: int)
    requires GoodChar(c) && GoodMap(m) && -32768 <= id <= SHORT_MAX
    requires j < |m.chests| && m.chests[j].x == x && m.chests[j].y == y
    requires forall i | 0 <= i < j :: !(m.chests[i].x == x && m.chests[i].y == y)
    ensures var after := ChestAdd(c, m, x, y, id, asked, cfg);
            var n := Min(asked, cfg.maxChest - Has(ChestStacks(m.chests[j].items), id));
            && Change((c, m), after, k) ==
               (if 0 < n <= Has(c.inv, id) && LetsIn(m.chests[j], id, n) && k == id
                then NOTHING.(inv := -n, chests := n) else NOTHING)
            && after.1.chests == m.chests[j := after.1.chests[j]]
  {
    hide Removed, Count, ChestAdded, Find, LetsIn;
    var chest := m.chests[j];
    var n := Min(asked, cfg.maxChest - Has(ChestStacks(chest.items), id));
    if n <= 0 {
      NothingIn(chest, id, n);
    }
    if 0 < n <= Has(c.inv, id) {
      HasPositive(c.inv, id);
      LetsInIs(chest, id, n);
      if LetsIn(chest, id, n) {
        RemovedCounts(c.inv, id, n, k);
        ChestAddedCounts(chest, id, n, k);
        ChestUpdate(m, j, ChestAdded(chest, id, n).1, k);
      }
    }
  }

  /** The first chest on the tile from which something can be taken gives as many as weight and limit allow. */
  lemma ChestTakeMoves(c: CharState, m: MapState, x: int, y: int, id: int, room: nat, cfg: Config, j: nat, k: int)
    requires GoodChar(c) && GoodMap(m) && Sane(cfg) && id <= SHORT_MAX && room > 0
    requires j < |m.chests| && m.chests[j].x == x && m.chests[j].y == y
    requires Has(ChestStacks(m.chests[j].items), id) > 0
    requires forall i | 0 <= i < j ::
               !(m.chests[i].x == x && m.chests[i].y == y && Has(ChestStacks(m.chests[i].items), id) > 0)
    ensures var after := ChestTake(c, m, x, y, id, room, cfg);
            var n := Min(Min(room, Has(ChestStacks(m.chests[j].items), id)), cfg.maxItem);
            && Change((c, m), after, k) ==
               (if k == id then NOTHING.(inv := Accepted(c.inv, id, n, cfg), chests := -n) else NOTHING)
            && after.1.chests == m.chests[j := after.1.chests[j]]
  {
    var chest := m.chests[j];
    hide Added, Removed, Count, Accepted, Good, Has, Find;
    var n := ChestTaken(chest, id, room, cfg);
    HasPositive(ChestStacks(chest.items), id);
    AcceptedIs(c.inv, id, n, cfg, k);
    ChestRemovedCounts(chest, id, n, k);
    ChestUpdate(m, j, ChestRemoved(chest, id, n), k);
  }

  /** With no chest to act on, or no room, nothing moves. */
  lemma NoChestNoMove(c: CharState, m: MapState, x: int, y: int, id: int, asked: int, room: nat, cfg: Config)
    requires GoodMap(m) && Sane(cfg)
    ensures (forall i | 0 <= i < |m.chests| :: !(m.chests[i].x == x && m.chests[i].y == y)) ==>
              ChestAdd(c, m, x, y, id, asked, cfg) == (c, m)
    ensures room == 0 || (forall i | 0 <= i < |m.chests| ::
              !(m.chests[i].x == x && m.chests[i].y == y && Has(ChestStacks(m.chests[i].items), id) > 0)) ==>
              ChestTake(c, m, x, y, id, room, cfg) == (c, m)
  {
  }

  // ---------------------------------------------------------------- locker and bank

  /** Into the locker: as many as its stack has room for, or as a new stack while there is a place; a stack above the
      limit is cut down to it. */
  lemma LockerAddMoves(c: CharState, m: MapState, id: int, amount: int, lockermax: nat, cfg: Config, k: int)
    requires GoodChar(c) && Sane(cfg)
    ensures var held := Has(c.bank, id);
            var allowed := id != 1 && 0 < amount <= Has(c.inv, id)
                           && if held > 0 then held + amount <= Numbers.INT_MAX else |c.bank| < lockermax;
            var n := Min(amount, cfg.maxBank - held);
            Change((c, m), (LockerAdd(c, id, amount, lockermax, cfg), m), k) ==
            if allowed && k == id then NOTHING.(inv := if n > 0 then -n else 0, bank := n) else NOTHING
  {
    hide Count, Removed, Find, Has, Numbers.Plus32;
    HasPositive(c.bank, id);
    if id != 1 && 0 < amount <= Has(c.inv, id) {
      var moved := Min(amount, cfg.maxBank - Has(c.bank, id));
      LockerAddIs(c, id, amount, lockermax, cfg);
      RemovedCounts(c.inv, id, moved, k);
      HasPositive(c.inv, id);
      LockerStack(c.bank, id, moved, k);
    } else {
      RefusedByLocker(c, id, amount, lockermax, cfg);
    }
  }

  lemma RefusedByLocker(c: CharState, id: int, amount: int, lockermax: nat, cfg: Config)
    requires !(id != 1 && 0 < amount <= Has(c.inv, id))
    ensures LockerAdd(c, id, amount, lockermax, cfg) == c
  {
  }

  lemma LockerAddIs(c: CharState, id: int, amount: int, lockermax: nat, cfg: Config)
    requires GoodChar(c) && id != 1 && 0 < amount <= Has(c.inv, id)
    ensures var held, i := Has(c.bank, id), Find(c.bank, id);
            var moved := Min(amount, cfg.maxBank - held);
            LockerAdd(c, id, amount, lockermax, cfg) ==
            if (if held > 0 then held + amount > Numbers.INT_MAX else |c.bank| >= lockermax) then c
            else c.(inv := Removed(c.inv, id, moved).1,
                    bank := if held > 0 then c.bank[i := Stack(id, held + moved)] else c.bank + [Stack(id, moved)])
  {
    hide Removed, Count;
    HasPositive(c.bank, id);
    HasPositive(c.inv, id);
    if Has(c.bank, id) > 0 {
      Plus32Overflows(Has(c.bank, id), amount);
    }
  }

  lemma LockerStack(bank: seq<Stack>, id: int, moved: int, k: int)
    requires Good(bank)
    ensures var held, i := Has(bank, id), Find(bank, id);
            var after := if held > 0 then bank[i := Stack(id, held + moved)] else bank + [Stack(id, moved)];
            Count(after, k) == Count(bank, k) + if k == id then moved else 0
  {
    HasPositive(bank, id);
    var i := Find(bank, id);
    if i < |bank| {
      CountUpdate(bank, i, Stack(id, bank[i].amount + moved), k);
    }
    CountAppend(bank, Stack(id, moved), k);
  }

  lemma LockerTakeMoves(c: CharState, m: MapState, id: int, room: nat, cfg: Config, k: int)
    requires GoodChar(c) && Sane(cfg) && id <= SHORT_MAX
    ensures var n := Min(Min(room, Has(c.bank, id)), cfg.maxItem);
            Change((c, m), (LockerTake(c, id, room, cfg), m), k) ==
            if n > 0 && k == id then NOTHING.(inv := Accepted(c.inv, id, n, cfg), bank := -n) else NOTHING
  {
    HasPositive(c.bank, id);
    var i := Find(c.bank, id);
    if i < |c.bank| {
      var n := CanHold(room, c.bank[i].amount, cfg);
      LockerStackCounts(c.bank, i, n, k);
      if n > 0 {
        AcceptedIs(c.inv, id, n, cfg, k);
      }
    }
  }

  /** A deposit moves what is asked for and carried, or nothing if the account could not hold it. */
  lemma BankAddMoves(c: CharState, m: MapState, asked: int, cfg: Config, k: int)
    requires GoodChar(c) && Sane(cfg)
    ensures var n := Min(asked, Has(c.inv, 1));
            Change((c, m), (BankAdd(c, asked, cfg), m), k) ==
            if asked > 0 && c.gold + n <= cfg.maxBankGold then NOTHING.(inv := if k == 1 then -n else 0, gold := n)
            else NOTHING
  {
    HasPositive(c.inv, 1);
    if asked > 0 {
      var n := Min(asked, Has(c.inv, 1));
      Plus32Sum(c.gold, n);
      RemovedCounts(c.inv, 1, n, k);
    }
  }

  /** A withdrawal moves what is asked for, or nothing if there is not that much. */
  lemma BankTakeMoves(c: CharState, m: MapState, asked: int, cfg: Config, k: int)
    requires GoodChar(c) && Sane(cfg) && asked <= Numbers.INT_MAX
    ensures Change((c, m), (BankTake(c, asked, cfg), m), k) ==
            if 0 < asked <= c.gold
            then NOTHING.(inv := if k == 1 then Accepted(c.inv, 1, asked, cfg) else 0, gold := -asked) else NOTHING
  {
    if 0 < asked <= c.gold {
      AcceptedIs(c.inv, 1, asked, cfg, k);
    }
  }

  // ---------------------------------------------------------------- the doll

  lemma EquipMoves(c: CharState, m: MapState, item: int, slot: nat, k: int)
    requires GoodChar(c) && k != 0
    ensures var after := Equip(c, item, slot);
            var wears := item > 0 && Has(c.inv, item) > 0 && slot < 15 && c.doll[slot] == 0;
            && Change((c, m), (after, m), k) ==
               (if wears && k == item then NOTHING.(inv := -1, worn := 1) else NOTHING)
            && after.doll == if wears then c.doll[slot := item] else c.doll
  {
    hide Removed, Count, Find, Has, Worn;
    HasPositive(c.inv, item);
    RemovedCounts(c.inv, item, 1, k);
    if slot < 15 {
      WornChange(c.doll, slot, item, k);
    }
  }

  lemma WornChange(doll: seq<int>, i: nat, v: int, k: int)
    requires i < |doll|
    ensures Worn(doll[i := v], k) == Worn(doll, k) - (if doll[i] == k then 1 else 0) + if v == k then 1 else 0
  {
  }

  /** The slot is the first that wears the item on the side asked for: 10, 12 and 14 are second ones. */
  lemma UnequipMoves(c: CharState, m: MapState, item: int, subloc: int, cfg: Config, j: nat, k: int)
    requires GoodChar(c) && Sane(cfg) && k != 0 && item != 0 && j < 15
    requires c.doll[j] == item && subloc == if j in {10, 12, 14} then 1 else 0
    requires forall i | 0 <= i < j :: c.doll[i] != item || (i in {10, 12, 14} <==> subloc == 0)
    requires item <= SHORT_MAX
    ensures var after := Unequip(c, item, subloc, cfg);
            && Change((c, m), (after, m), k) ==
               (if k == item then NOTHING.(inv := Accepted(c.inv, item, 1, cfg), worn := -1) else NOTHING)
            && after.doll == c.doll[j := 0]
  {
    hide Added, Count, Accepted, Worn, Good;
    SlotIs(c.doll, item, subloc, j);
    AcceptedIs(c.inv, item, 1, cfg, k);
    WornChange(c.doll, j, 0, k);
  }

  lemma SlotIs(doll: seq<int>, item: int, subloc: int, j: nat)
    requires |doll| == 15 && j < 15 && doll[j] == item && subloc == if j in {10, 12, 14} then 1 else 0
    requires forall i | 0 <= i < j :: doll[i] != item || (i in {10, 12, 14} <==> subloc == 0)
    ensures FindSlot(doll, item, subloc, 0) == j
  {
    hide FindSlot;
    assert FindSlot(doll, item, subloc, 0) <= 15;
  }

  lemma NotWornNotTaken(c: CharState, item: int, subloc: int, cfg: Config)
    requires |c.doll| == 15
    requires item == 0 || forall i | 0 <= i < 15 :: c.doll[i] != item || subloc != if i in {10, 12, 14} then 1 else 0
    ensures Unequip(c, item, subloc, cfg) == c
  {
  }

  // ---------------------------------------------------------------- dropping everything

  /** `g` and, behind it, what has been dropped at a place. */
  predicate MoreAt(g: seq<Ground>, after: seq<Ground>, x: int, y: int)
  {
    g <= after && forall i | |g| <= i < |after| :: after[i].x == x && after[i].y == y
  }

  /** The first loop touches nothing but inventory and ground, and leaves the lore items. */
  lemma {:induction false} DropInventoryRest(c: CharState, m: MapState, i: nat, x: int, y: int, lore: set<int>, k: int)
    requires i <= |c.inv|
    ensures var (c', m') := DropInventory(c, m, i, x, y, lore);
            && c' == c.(inv := c'.inv) && m' == m.(ground := m'.ground) && MoreAt(m.ground, m'.ground, x, y)
            && (k in lore ==> Count(c'.inv, k) == Count(c.inv, k))
    decreases |c.inv| - i
  {
    if i < |c.inv| {
      var s := c.inv[i];
      if s.id in lore {
        DropInventoryRest(c, m, i + 1, x, y, lore, k);
      } else {
        CountUpdate(c.inv, i, s, k);
        DropInventoryRest(c.(inv := Without(c.inv, i)),
                          m.(ground := Dropped(m.ground, LeastFree(m.ground), s.id, s.amount, x, y)), i, x, y, lore, k);
      }
    }
  }

  /** What is worn in a slot after everything has been dropped. */
  function LeftOn(id: int, kept: set<int>): (r: int)
  {
    if id in kept || id > SHORT_MAX then id else 0
  }

  lemma {:induction false} DropDollRest(c: CharState, m: MapState, i: nat, x: int, y: int, lore: set<int>,
                                        kept: set<int>, cfg: Config)
    requires GoodChar(c) && i <= 15 && OnlyFrom(c.inv, lore) && lore <= kept && Listed(lore)
    requires EmptiedUpTo(c.doll, i, kept)
    ensures var (c', m') := DropDoll(c, m, i, x, y, kept, cfg);
            && c' == c.(doll := c'.doll) && m' == m.(ground := m'.ground) && MoreAt(m.ground, m'.ground, x, y)
            && |c'.doll| == 15
            && forall j | 0 <= j < 15 :: c'.doll[j] == if j < i then c.doll[j] else LeftOn(c.doll[j], kept)
    decreases 15 - i
  {
    hide DropSlot, Good, OnlyFrom;
    if i < 15 {
      var id := c.doll[i];
      var (c1, m1) := DropSlot(c, m, i, x, y, kept, cfg);
      KeptSlotStays(c, m, i, x, y, kept, cfg);
      if id == 0 || id in kept {
      } else if id > SHORT_MAX {
        WideIdsAreNotDropped(c, m, i, x, y, kept, cfg);
        NoneCarried(c.inv, lore, id - 0x1_0000);
      } else {
        DropSlotTakesThatSlot(c, m, i, x, y, lore, kept, cfg);
      }
      DropDollRest(c1, m1, i + 1, x, y, lore, kept, cfg);
    }
  }

  /** Dying takes everything but lore items out of the inventory, and off the doll everything but lore, cursed and wide
      ones; it puts that much on the ground, at one place, with what wide ids make appear; and touches nothing else. */
  lemma DropAllMoves(c: CharState, m: MapState, x: int, y: int, lore: set<int>, cursed: set<int>, cfg: Config, k: int)
    requires GoodChar(c) && GoodMap(m) && Listed(lore) && k != 0
    ensures var after := DropAll(c, m, x, y, lore, cursed, cfg);
            var carried, worn := if k in lore then 0 else Count(c.inv, k),
                                 if k in lore + cursed || k > SHORT_MAX then 0 else Worn(c.doll, k);
            && Change((c, m), after, k) ==
               NOTHING.(inv := -carried, worn := -worn, ground := carried + worn + Appearing(c.doll, lore + cursed, k))
            && after.0.bank == c.bank && after.1.chests == m.chests && MoreAt(m.ground, after.1.ground, x, y)
            && |after.0.doll| == 15
            && forall j | 0 <= j < 15 :: after.0.doll[j] == LeftOn(c.doll[j], lore + cursed)
  {
    hide DropInventory, DropDoll, DropAll, Appearing, Good, Count, Worn, LeftOn, Accounts, CharCount, MapCount;
    hide OnlyFrom, MoreAt;
    var mid, after := DropInventory(c, m, 0, x, y, lore), DropAll(c, m, x, y, lore, cursed, cfg);
    TwoLoops(c, m, x, y, lore, cursed, cfg);
    DropInventoryRest(c, m, 0, x, y, lore, k);
    DropInventoryAccounts(c, m, 0, x, y, lore, k);
    StillGood(c, m, mid, k);
    DropDollRest(mid.0, mid.1, 0, x, y, lore, lore + cursed, cfg);
    MoreAndMore(m.ground, mid.1.ground, after.1.ground, x, y);
    DropAllCounts(c, m, x, y, lore, cursed, cfg, k);
    if k !in lore {
      NoneLeft(after.0.inv, lore, k);
    }
    WornLeft(c.doll, after.0.doll, lore + cursed, k);
    GroundGets(c, m, after, Appearing(c.doll, lore + cursed, k), k);
  }

  lemma TwoLoops(c: CharState, m: MapState, x: int, y: int, lore: set<int>, cursed: set<int>, cfg: Config)
    ensures var mid := DropInventory(c, m, 0, x, y, lore);
            DropAll(c, m, x, y, lore, cursed, cfg) == DropDoll(mid.0, mid.1, 0, x, y, lore + cursed, cfg)
  {
  }

  lemma StillGood(c: CharState, m: MapState, mid: (CharState, MapState), k: int)
    requires Accounts(c, m, mid, 0, 0, k)
    ensures GoodChar(mid.0)
  {
  }

  lemma MoreAndMore(g: seq<Ground>, mid: seq<Ground>, after: seq<Ground>, x: int, y: int)
    requires MoreAt(g, mid, x, y) && MoreAt(mid, after, x, y)
    ensures MoreAt(g, after, x, y)
  {
    assert forall i | |g| <= i < |mid| :: after[i] == mid[i];
  }

  /** What is on the ground in the end, from what is no longer elsewhere. */
  lemma GroundGets(c: CharState, m: MapState, after: (CharState, MapState), appearing: int, k: int)
    requires Accounts(c, m, after, k, -appearing, k)
    requires after.0.bank == c.bank && after.0.gold == c.gold && after.1.chests == m.chests
    ensures var d := Change((c, m), after, k);
            d == NOTHING.(inv := d.inv, worn := d.worn, ground := appearing - d.inv - d.worn)
  {
  }

  lemma {:induction false} NoneLeft(s: seq<Stack>, lore: set<int>, k: int)
    requires OnlyFrom(s, lore) && k !in lore
    ensures Count(s, k) == 0
  {
    if s != [] {
      assert s[0].id in lore;
      NoneLeft(s[1..], lore, k);
    }
  }

  lemma {:induction false} WornLeft(doll: seq<int>, left: seq<int>, kept: set<int>, k: int)
    requires |left| == |doll| && k != 0 && forall j | 0 <= j < |doll| :: left[j] == LeftOn(doll[j], kept)
    ensures Worn(left, k) == if k in kept || k > SHORT_MAX then Worn(doll, k) else 0
  {
    if doll != [] {
      var n := |doll| - 1;
      WornLeft(doll[..n], left[..n], kept, k);
      assert doll == doll[..n] + [doll[n]] && left == left[..n] + [left[n]];
    }
  }
}
