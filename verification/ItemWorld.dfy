/** Conservation: what every item step does to the totals, and what any run of them does. */
module ItemWorld {
  import opened Common
  import opened ItemStores
  import opened ItemSteps
  import Numbers

  /** A saved doll may hold any id up to 65535. */
  predicate GoodChar(c: CharState)
  {
    && Good(c.inv) && Good(c.bank) && 0 <= c.gold <= Numbers.INT_MAX
    && |c.doll| == 15 && forall i | 0 <= i < 15 :: 0 <= c.doll[i] < 0x1_0000
  }

  predicate GoodMap(m: MapState)
  {
    Good(GroundStacks(m.ground)) && forall i | 0 <= i < |m.chests| :: Good(ChestStacks(m.chests[i].items))
  }

  // ---------------------------------------------------------------- totals

  /** Inventory, locker, worn items and, for gold, the bank account. */
  function CharCount(c: CharState, id: int): (n: int)
  {
    Count(c.inv, id) + Count(c.bank, id) + multiset(c.doll)[id] + if id == 1 then c.gold else 0
  }

  lemma NothingCountsNothing(id: int)
    requires id != 0
    ensures CharCount(CharState([], seq(15, _ => 0), [], 0), id) == 0
  {
    var doll := seq(15, _ => 0);
    assert forall j | 0 <= j < 15 :: doll[j] == 0;
  }

  function ChestCounts(chests: seq<Chest>, id: int): (r: seq<int>)
    ensures |r| == |chests|
  {
    seq(|chests|, i requires 0 <= i < |chests| => Count(ChestStacks(chests[i].items), id))
  }

  function MapCount(m: MapState, id: int): (n: int)
  {
    Count(GroundStacks(m.ground), id) + Sum(ChestCounts(m.chests, id))
  }

  lemma ChestUpdate(m: MapState, k: nat, chest: Chest, id: int)
    requires k < |m.chests|
    ensures MapCount(m.(chests := m.chests[k := chest]), id)
            == MapCount(m, id) - Count(ChestStacks(m.chests[k].items), id) + Count(ChestStacks(chest.items), id)
  {
    var n := Count(ChestStacks(chest.items), id);
    SumUpdate(ChestCounts(m.chests, id), k, n);
    assert ChestCounts(m.chests[k := chest], id) == ChestCounts(m.chests, id)[k := n];
  }

  /** Together, `after` holds of item `k` what `before` held, less `lost` if that is the item at stake. */
  ghost predicate Accounts(c: CharState, m: MapState, after: (CharState, MapState), item: int, lost: int, k: int)
  {
    && GoodChar(after.0) && GoodMap(after.1)
    && CharCount(after.0, k) + MapCount(after.1, k)
       == CharCount(c, k) + MapCount(m, k) - if k == item then lost else 0
  }

  // ---------------------------------------------------------------- one handler at a time

  lemma DropAccounts(c: CharState, m: MapState, id: int, asked: int, x: int, y: int, cfg: Config, k: int)
    requires GoodChar(c) && GoodMap(m)
    ensures var amount := Min(asked, cfg.maxDrop);
            Accounts(c, m, Drop(c, m, id, asked, x, y, cfg), id,
                     if 0 < amount <= Has(c.inv, id) && Full(m.ground, x, y, cfg) then amount else 0, k)
  {
    var amount := Min(asked, cfg.maxDrop);
    if 0 < amount <= Has(c.inv, id) {
      RemovedCounts(c.inv, id, amount, k);
      DroppedCounts(m.ground, LeastFree(m.ground), id, amount, x, y, k);
      assert GoodStack(c.inv[Find(c.inv, id)]);
    }
  }

  lemma JunkAccounts(c: CharState, m: MapState, id: int, amount: int, k: int)
    requires GoodChar(c) && GoodMap(m)
    ensures Accounts(c, m, (Junk(c, id, amount), m), id, if 0 < amount <= Has(c.inv, id) then amount else 0, k)
  {
    RemovedCounts(c.inv, id, amount, k);
  }

  /** What an addition would lose, nothing when there is nothing to add. */
  function Spill(inv: seq<Stack>, id: int, amount: int, cfg: Config): (n: int)
    ensures n >= 0
  {
    if amount <= 0 then 0 else Overflow(inv, id, amount, cfg)
  }

  lemma GetAccounts(c: CharState, m: MapState, uid: int, room: nat, cfg: Config, k: int)
    requires GoodChar(c) && GoodMap(m) && Sane(cfg)
    ensures var i := FindUid(m.ground, uid);
            Accounts(c, m, Get(c, m, uid, room, cfg), if i < |m.ground| then m.ground[i].stack.id else 0,
                     if i < |m.ground|
                     then Spill(c.inv, m.ground[i].stack.id, CanHold(room, m.ground[i].stack.amount, cfg), cfg) else 0,
                     k)
  {
    var i := FindUid(m.ground, uid);
    if i < |m.ground| {
      var s := m.ground[i].stack;
      var taken := CanHold(room, s.amount, cfg);
      assert GroundStacks(m.ground)[i] == s;
      if taken > 0 {
        AddedCounts(c.inv, s.id, taken, cfg, k);
        PickedCounts(m.ground, uid, taken, k);
      }
    }
  }

  lemma IntoChestAccounts(c: CharState, m: MapState, n: nat, id: int, amount: int, k: int)
    requires GoodChar(c) && GoodMap(m) && n < |m.chests| && 0 < amount <= Has(c.inv, id)
    requires ChestAdded(m.chests[n], id, amount).0 != 0
    ensures Accounts(c, m, (c.(inv := Removed(c.inv, id, amount).1),
                            m.(chests := m.chests[n := ChestAdded(m.chests[n], id, amount).1])), 0, 0, k)
  {
    assert GoodStack(c.inv[Find(c.inv, id)]);
    RemovedCounts(c.inv, id, amount, k);
    ChestAddedCounts(m.chests[n], id, amount, k);
    ChestUpdate(m, n, ChestAdded(m.chests[n], id, amount).1, k);
  }

  lemma NothingMoved(c: CharState, m: MapState, k: int)
    requires GoodChar(c) && GoodMap(m)
    ensures Accounts(c, m, (c, m), 0, 0, k)
  {
  }

  lemma ChestAddAccounts(c: CharState, m: MapState, x: int, y: int, id: int, asked: int, cfg: Config, k: int)
    requires GoodChar(c) && GoodMap(m)
    ensures Accounts(c, m, ChestAdd(c, m, x, y, id, asked, cfg), 0, 0, k)
  {
    hide Removed, Find, FindChest, GoodChar, GoodMap, Accounts;
    NothingMoved(c, m, k);
    var n := FindChest(m.chests, x, y);
    if n < |m.chests| {
      var amount := Min(asked, cfg.maxChest - Has(ChestStacks(m.chests[n].items), id));
      if Has(c.inv, id) >= amount && ChestAdded(m.chests[n], id, amount).0 != 0 {
        IntoChestAccounts(c, m, n, id, amount, k);
      }
    }
  }

  lemma ChestTakeAccounts(c: CharState, m: MapState, x: int, y: int, id: int, room: nat, cfg: Config, k: int)
    requires GoodChar(c) && GoodMap(m) && Sane(cfg)
    ensures var n := FindTakable(m.chests, x, y, id, room, cfg);
            Accounts(c, m, ChestTake(c, m, x, y, id, room, cfg), id,
                     if n < |m.chests| then Spill(c.inv, id, ChestTaken(m.chests[n], id, room, cfg), cfg) else 0, k)
  {
    var n := FindTakable(m.chests, x, y, id, room, cfg);
    if n < |m.chests| {
      var chest := m.chests[n];
      var taken := ChestTaken(chest, id, room, cfg);
      assert GoodStack(ChestStacks(chest.items)[Find(ChestStacks(chest.items), id)]);
      AddedCounts(c.inv, id, taken, cfg, k);
      ChestRemovedCounts(chest, id, taken, k);
      ChestUpdate(m, n, ChestRemoved(chest, id, taken), k);
    }
  }

  lemma LockerTopUpAccounts(c: CharState, m: MapState, id: int, amount: int, lockermax: nat, cfg: Config, k: int)
    requires GoodChar(c) && GoodMap(m) && Sane(cfg) && id != 1 && 0 < amount <= Has(c.inv, id)
    requires Find(c.bank, id) < |c.bank|
    ensures Accounts(c, m, (LockerAdd(c, id, amount, lockermax, cfg), m), id,
                     if LockerCuts(c, id, amount, cfg) then Has(c.bank, id) - cfg.maxBank else 0, k)
  {
    var i := Find(c.bank, id);
    var held := c.bank[i].amount;
    var moved := Min(amount, cfg.maxBank - held);
    assert GoodStack(c.bank[i]);
    Plus32Overflows(held, amount);
    if held + amount <= Numbers.INT_MAX {
      var inv, bank := Removed(c.inv, id, moved).1, c.bank[i := Stack(id, held + moved)];
      assert LockerAdd(c, id, amount, lockermax, cfg) == c.(bank := bank, inv := inv);
      CountUpdate(c.bank, i, Stack(id, held + moved), k);
      RemovedCounts(c.inv, id, moved, k);
      assert Good(inv) && Good(bank);
    }
  }

  lemma Plus32Overflows(a: int, b: int)
    requires 1 <= a <= Numbers.INT_MAX && 1 <= b <= Numbers.INT_MAX
    ensures Numbers.Plus32(a, b) < 0 <==> a + b > Numbers.INT_MAX
    ensures a + b <= Numbers.INT_MAX ==> Numbers.Plus32(a, b) == a + b
  {
  }

  /** A locker stack above the limit is cut down to it when more is put in; that is the only loss. */
  lemma LockerAddAccounts(c: CharState, m: MapState, id: int, amount: int, lockermax: nat, cfg: Config, k: int)
    requires GoodChar(c) && GoodMap(m) && Sane(cfg)
    ensures Accounts(c, m, (LockerAdd(c, id, amount, lockermax, cfg), m), id,
                     if LockerCuts(c, id, amount, cfg) then Has(c.bank, id) - cfg.maxBank else 0, k)
  {
    if id != 1 && 0 < amount <= Has(c.inv, id) {
      if Find(c.bank, id) < |c.bank| {
        LockerTopUpAccounts(c, m, id, amount, lockermax, cfg, k);
      } else {
        var moved := Min(amount, cfg.maxBank);
        assert GoodStack(c.inv[Find(c.inv, id)]);
        CountAppend(c.bank, Stack(id, moved), k);
        RemovedCounts(c.inv, id, moved, k);
      }
    }
  }

  predicate LockerCuts(c: CharState, id: int, amount: int, cfg: Config)
  {
    && id != 1 && 0 < amount <= Has(c.inv, id)
    && Has(c.bank, id) > cfg.maxBank && Has(c.bank, id) + amount <= Numbers.INT_MAX
  }

  lemma LockerTakeAccounts(c: CharState, m: MapState, id: int, room: nat, cfg: Config, k: int)
    requires GoodChar(c) && GoodMap(m) && Sane(cfg)
    ensures Accounts(c, m, (LockerTake(c, id, room, cfg), m), id,
                     Spill(c.inv, id, CanHold(room, Has(c.bank, id), cfg), cfg), k)
  {
    var i := Find(c.bank, id);
    if i < |c.bank| {
      assert GoodStack(c.bank[i]);
      var taken := CanHold(room, c.bank[i].amount, cfg);
      var left := c.bank[i].amount - taken;
      var inv := Added(c.inv, id, taken, cfg).1;
      var bank := if left <= 0 then Without(c.bank, i) else c.bank[i := Stack(id, left)];
      assert LockerTake(c, id, room, cfg) == c.(inv := inv, bank := bank);
      LockerStackCounts(c.bank, i, taken, k);
      if taken > 0 {
        AddedCounts(c.inv, id, taken, cfg, k);
      }
      hide LockerTake, CanHold, Good, Count, Added, Without, Overflow, Find;
      BetweenInventoryAndLocker(c, m, inv, bank, id, Spill(c.inv, id, taken, cfg), k);
    }
  }

  lemma BetweenInventoryAndLocker(c: CharState, m: MapState, inv: seq<Stack>, bank: seq<Stack>, item: int, lost: int,
                                  k: int)
    requires GoodChar(c) && GoodMap(m) && Good(inv) && Good(bank)
    requires Count(inv, k) + Count(bank, k) == Count(c.inv, k) + Count(c.bank, k) - if k == item then lost else 0
    ensures Accounts(c, m, (c.(inv := inv, bank := bank), m), item, lost, k)
  {
  }

  lemma LockerStackCounts(bank: seq<Stack>, i: nat, taken: nat, k: int)
    requires Good(bank) && i < |bank| && taken <= bank[i].amount
    ensures var left := bank[i].amount - taken;
            var after := if left <= 0 then Without(bank, i) else bank[i := Stack(bank[i].id, left)];
            Good(after) && Count(after, k) == Count(bank, k) - if k == bank[i].id then taken else 0
  {
    CountUpdate(bank, i, Stack(bank[i].id, bank[i].amount - taken), k);
    assert GoodStack(bank[i]);
  }

  lemma BankAddAccounts(c: CharState, m: MapState, asked: int, cfg: Config, k: int)
    requires GoodChar(c) && GoodMap(m) && Sane(cfg)
    ensures Accounts(c, m, (BankAdd(c, asked, cfg), m), 0, 0, k)
  {
    if asked > 0 {
      var amount := Min(asked, Has(c.inv, 1));
      if Find(c.inv, 1) < |c.inv| { assert GoodStack(c.inv[Find(c.inv, 1)]); }
      assert 0 <= amount <= Numbers.INT_MAX && amount <= Has(c.inv, 1);
      Plus32Sum(c.gold, amount);
      RemovedCounts(c.inv, 1, amount, k);
      hide Numbers.Plus32, Removed, Find, Has, Count;
    }
  }

  lemma Plus32Sum(a: int, b: int)
    requires 0 <= a <= Numbers.INT_MAX && 0 <= b <= Numbers.INT_MAX
    ensures Numbers.Plus32(a, b) == if a + b <= Numbers.INT_MAX then a + b else a + b - 0x1_0000_0000
  {
  }

  lemma BankTakeAccounts(c: CharState, m: MapState, amount: int, cfg: Config, k: int)
    requires GoodChar(c) && GoodMap(m) && Sane(cfg) && amount <= Numbers.INT_MAX
    ensures Accounts(c, m, (BankTake(c, amount, cfg), m), 1,
                     if 0 < amount <= c.gold then Spill(c.inv, 1, amount, cfg) else 0, k)
  {
    hide Added, Count, Overflow, Find;
    if 0 < amount <= c.gold {
      AddedCounts(c.inv, 1, amount, cfg, k);
    }
  }

  lemma EquipAccounts(c: CharState, m: MapState, item: int, slot: nat, k: int)
    requires GoodChar(c) && GoodMap(m) && k >= 1
    ensures Accounts(c, m, (Equip(c, item, slot), m), 0, 0, k)
  {
    if Has(c.inv, item) != 0 {
      assert GoodStack(c.inv[Find(c.inv, item)]);
      RemovedCounts(c.inv, item, 1, k);
    }
  }

  lemma UnequipAccounts(c: CharState, m: MapState, item: int, subloc: int, cfg: Config, k: int)
    requires GoodChar(c) && GoodMap(m) && Sane(cfg) && k >= 1 && item <= SHORT_MAX
    ensures Accounts(c, m, (Unequip(c, item, subloc, cfg), m), item,
                     if item != 0 && FindSlot(c.doll, item, subloc, 0) < 15 then Spill(c.inv, item, 1, cfg) else 0, k)
  {
    var j := FindSlot(c.doll, item, subloc, 0);
    if item != 0 && j < 15 {
      AddedCounts(c.inv, item, 1, cfg, k);
    }
  }

  // ---------------------------------------------------------------- dropping everything

  predicate OnlyFrom(s: seq<Stack>, ids: set<int>)
  {
    forall i | 0 <= i < |s| :: s[i].id in ids
  }

  lemma Transitive(c: CharState, m: MapState, mid: (CharState, MapState), after: (CharState, MapState),
                   lost: int, more: int, k: int)
    requires Accounts(c, m, mid, k, lost, k) && Accounts(mid.0, mid.1, after, k, more, k)
    ensures Accounts(c, m, after, k, lost + more, k)
  {
  }

  lemma OneStackDropped(c: CharState, m: MapState, i: nat, x: int, y: int, k: int)
    requires GoodChar(c) && GoodMap(m) && i < |c.inv|
    ensures var s := c.inv[i];
            Accounts(c, m, (c.(inv := Without(c.inv, i)),
                            m.(ground := Dropped(m.ground, LeastFree(m.ground), s.id, s.amount, x, y))), 0, 0, k)
  {
    var s := c.inv[i];
    assert GoodStack(s);
    hide Count;
    CountUpdate(c.inv, i, s, k);
    DroppedCounts(m.ground, LeastFree(m.ground), s.id, s.amount, x, y, k);
  }

  /** The first loop moves every stack that is not lore, and only those. */
  lemma {:induction false} DropInventoryAccounts(c: CharState, m: MapState, i: nat, x: int, y: int, lore: set<int>,
                                                       k: int)
    requires GoodChar(c) && GoodMap(m) && i <= |c.inv| && OnlyFrom(c.inv[..i], lore)
    ensures var after := DropInventory(c, m, i, x, y, lore);
            && Accounts(c, m, after, 0, 0, k)
            && OnlyFrom(after.0.inv, lore) && after.0.doll == c.doll
    decreases |c.inv| - i
  {
    if i == |c.inv| {
      assert c.inv[..i] == c.inv;
    } else if c.inv[i].id in lore {
      assert c.inv[..i + 1] == c.inv[..i] + [c.inv[i]];
      DropInventoryAccounts(c, m, i + 1, x, y, lore, k);
    } else {
      var s := c.inv[i];
      var c1 := c.(inv := Without(c.inv, i));
      var m1 := m.(ground := Dropped(m.ground, LeastFree(m.ground), s.id, s.amount, x, y));
      OneStackDropped(c, m, i, x, y, k);
      assert c1.inv[..i] == c.inv[..i];
      DropInventoryAccounts(c1, m1, i, x, y, lore, k);
      Transitive(c, m, (c1, m1), DropInventory(c1, m1, i, x, y, lore), 0, 0, k);
    }
  }

  /** Into the inventory and out again: with no other stack of the item there, nothing remains,
      whether or not the item table knows the id. */
  lemma ThereAndBack(inv: seq<Stack>, id: int, cfg: Config)
    requires Find(inv, id) == |inv|
    ensures Removed(Added(inv, id, 1, cfg).1, id, 1).1 == inv
  {
    var more := inv + [Stack(id, 1)];
    assert more[|inv|].id == id;
    assert forall j | 0 <= j < |inv| :: more[j] == inv[j];
    assert Find(more, id) == |inv|;
    assert Without(more, |inv|) == inv;
  }

  /** Of the first `i` slots only what is kept, or too wide to be dropped, is worn. */
  predicate EmptiedUpTo(doll: seq<int>, i: nat, kept: set<int>)
    requires i <= |doll|
  {
    forall j | 0 <= j < i :: doll[j] == 0 || doll[j] in kept || doll[j] > SHORT_MAX
  }

  lemma DropSlotTakesThatSlot(c: CharState, m: MapState, i: nat, x: int, y: int, lore: set<int>, kept: set<int>,
                              cfg: Config)
    requires GoodChar(c) && i < 15 && OnlyFrom(c.inv, lore) && lore <= kept && EmptiedUpTo(c.doll, i, kept)
    requires c.doll[i] != 0 && c.doll[i] !in kept && c.doll[i] <= SHORT_MAX
    ensures DropSlot(c, m, i, x, y, kept, cfg)
            == (c.(doll := c.doll[i := 0]),
                m.(ground := Dropped(m.ground, LeastFree(m.ground), c.doll[i], 1, x, y)))
  {
    var id := c.doll[i];
    assert Numbers.Short(id) == id;
    assert FindSlot(c.doll, id, if SecondSlot(i) then 1 else 0, 0) == i;
    assert Find(c.inv, id) == |c.inv|;
    ThereAndBack(c.inv, id, cfg);
  }

  /** Worn ids above 32767 do not survive the conversion to 16 bits: the item stays on the doll, whatever else is worn,
      and one item of another id appears on the ground. What goes is one of that other id carried, if there is any;
      when everything is dropped, there is none by then. */
  lemma WideIdsAreNotDropped(c: CharState, m: MapState, i: nat, x: int, y: int, kept: set<int>, cfg: Config)
    requires GoodChar(c) && i < 15 && c.doll[i] !in kept && c.doll[i] > SHORT_MAX
    ensures var id := c.doll[i] - 0x1_0000;
            && id < 0
            && DropSlot(c, m, i, x, y, kept, cfg)
               == (c.(inv := Removed(c.inv, id, 1).1),
                   m.(ground := Dropped(m.ground, LeastFree(m.ground), id, 1, x, y)))
            && (Find(c.inv, id) == |c.inv| ==> Removed(c.inv, id, 1).1 == c.inv)
  {
    var id := Numbers.Short(c.doll[i]);
    assert id == c.doll[i] - 0x1_0000;
    assert FindSlot(c.doll, id, if SecondSlot(i) then 1 else 0, 0) == 15;
  }

  /** Lore items are in the item table. */
  predicate Listed(lore: set<int>)
  {
    forall id :: id in lore ==> id >= 1
  }

  lemma NoneCarried(s: seq<Stack>, lore: set<int>, id: int)
    requires OnlyFrom(s, lore) && Listed(lore) && id < 0
    ensures Find(s, id) == |s|
  {
  }

  /** How many items of id `k` appear when these slots are dropped. */
  function Appearing(worn: seq<int>, kept: set<int>, k: int): (n: int)
    ensures n >= 0
  {
    if worn == [] then 0
    else (if worn[0] > SHORT_MAX && worn[0] !in kept && Numbers.Short(worn[0]) == k then 1 else 0)
         + Appearing(worn[1..], kept, k)
  }

  lemma DropSlotAccounts(c: CharState, m: MapState, i: nat, x: int, y: int, lore: set<int>, kept: set<int>,
                         cfg: Config, k: int)
    requires GoodChar(c) && GoodMap(m) && i < 15 && OnlyFrom(c.inv, lore) && lore <= kept && Listed(lore) && k != 0
    requires EmptiedUpTo(c.doll, i, kept)
    ensures var after := DropSlot(c, m, i, x, y, kept, cfg);
            && Accounts(c, m, after, k, -Appearing([c.doll[i]], kept, k), k)
            && after.0.inv == c.inv && after.0.doll[i + 1..] == c.doll[i + 1..]
            && EmptiedUpTo(after.0.doll, i + 1, kept)
  {
    hide DropSlot, OnlyFrom, Good, Count;
    var id := c.doll[i];
    assert [id][1..] == [];
    KeptSlotStays(c, m, i, x, y, kept, cfg);
    if id == 0 || id in kept {
    } else if id > SHORT_MAX {
      WideIdsAreNotDropped(c, m, i, x, y, kept, cfg);
      NoneCarried(c.inv, lore, id - 0x1_0000);
      OneMoreLies(c, m, id - 0x1_0000, x, y, k);
    } else {
      DropSlotTakesThatSlot(c, m, i, x, y, lore, kept, cfg);
      assert multiset(c.doll[i := 0])[k] == multiset(c.doll)[k] - if k == id then 1 else 0;
      OneMoreLies(c, m, id, x, y, k);
    }
  }

  lemma KeptSlotStays(c: CharState, m: MapState, i: nat, x: int, y: int, kept: set<int>, cfg: Config)
    requires i < |c.doll|
    ensures c.doll[i] == 0 || c.doll[i] in kept ==> DropSlot(c, m, i, x, y, kept, cfg) == (c, m)
  {
  }

  lemma OneMoreLies(c: CharState, m: MapState, id: int, x: int, y: int, k: int)
    requires GoodMap(m) && -32768 <= id <= SHORT_MAX
    ensures var after := m.(ground := Dropped(m.ground, LeastFree(m.ground), id, 1, x, y));
            GoodMap(after) && MapCount(after, k) == MapCount(m, k) + if k == id then 1 else 0
  {
    DroppedCounts(m.ground, LeastFree(m.ground), id, 1, x, y, k);
  }

  lemma {:induction false} DropDollAccounts(c: CharState, m: MapState, i: nat, x: int, y: int, lore: set<int>,
                                            kept: set<int>, cfg: Config, k: int)
    requires GoodChar(c) && GoodMap(m) && i <= 15 && OnlyFrom(c.inv, lore) && lore <= kept && Listed(lore) && k != 0
    requires EmptiedUpTo(c.doll, i, kept)
    ensures var after := DropDoll(c, m, i, x, y, kept, cfg);
            && Accounts(c, m, after, k, -Appearing(c.doll[i..], kept, k), k)
            && EmptiedUpTo(after.0.doll, 15, kept) && after.0.inv == c.inv
    decreases 15 - i
  {
    hide CharCount, MapCount, DropSlot, OnlyFrom, EmptiedUpTo, Good;
    if i < 15 {
      var mid := DropSlot(c, m, i, x, y, kept, cfg);
      DropSlotAccounts(c, m, i, x, y, lore, kept, cfg, k);
      assert GoodChar(mid.0) && GoodMap(mid.1);
      hide Accounts, GoodChar, GoodMap;
      DropDollAccounts(mid.0, mid.1, i + 1, x, y, lore, kept, cfg, k);
      AppearingSplit(c.doll, i, kept, k);
      assert DropDoll(c, m, i, x, y, kept, cfg) == DropDoll(mid.0, mid.1, i + 1, x, y, kept, cfg);
      hide Appearing, DropDoll;
      Transitive(c, m, mid, DropDoll(mid.0, mid.1, i + 1, x, y, kept, cfg),
                 -Appearing([c.doll[i]], kept, k), -Appearing(c.doll[i + 1..], kept, k), k);
    }
  }

  lemma AppearingSplit(doll: seq<int>, i: nat, kept: set<int>, k: int)
    requires i < |doll|
    ensures Appearing(doll[i..], kept, k) == Appearing([doll[i]], kept, k) + Appearing(doll[i + 1..], kept, k)
  {
    assert [doll[i]][1..] == [] && doll[i..][1..] == doll[i + 1..];
  }

  lemma {:induction false} NothingPositiveAppears(worn: seq<int>, kept: set<int>, k: int)
    requires k >= 1 && forall j | 0 <= j < |worn| :: worn[j] < 0x1_0000
    ensures Appearing(worn, kept, k) == 0
  {
    if worn != [] {
      NothingPositiveAppears(worn[1..], kept, k);
    }
  }

  /** Something appears exactly under the ids that wide unkept ones are cut to. */
  lemma {:induction false} WhatAppears(worn: seq<int>, kept: set<int>, k: int)
    ensures Appearing(worn, kept, k) > 0 <==>
            exists j :: 0 <= j < |worn| && worn[j] > SHORT_MAX && worn[j] !in kept && Numbers.Short(worn[j]) == k
  {
    if worn != [] {
      WhatAppears(worn[1..], kept, k);
      assert forall j :: 1 <= j < |worn| ==> worn[j] == worn[1..][j - 1];
      if j :| 0 <= j < |worn[1..]| && worn[1..][j] > SHORT_MAX && worn[1..][j] !in kept
              && Numbers.Short(worn[1..][j]) == k {
        assert worn[j + 1] == worn[1..][j];
      }
    }
  }

  /** Dropping everything leaves only lore items carried and only lore, cursed and wide ones worn. Of every id
      it loses nothing; what appears is one item for every wide one not kept. */
  lemma DropAllCounts(c: CharState, m: MapState, x: int, y: int, lore: set<int>, cursed: set<int>, cfg: Config, k: int)
    requires GoodChar(c) && GoodMap(m) && Listed(lore) && k != 0
    ensures var after := DropAll(c, m, x, y, lore, cursed, cfg);
            && Accounts(c, m, after, k, -Appearing(c.doll, lore + cursed, k), k)
            && OnlyFrom(after.0.inv, lore) && EmptiedUpTo(after.0.doll, 15, lore + cursed)
  {
    DropInventoryAccounts(c, m, 0, x, y, lore, k);
    var mid := DropInventory(c, m, 0, x, y, lore);
    DropDollAccounts(mid.0, mid.1, 0, x, y, lore, lore + cursed, cfg, k);
    assert mid.0.doll[0..] == c.doll;
    assert DropAll(c, m, x, y, lore, cursed, cfg) == DropDoll(mid.0, mid.1, 0, x, y, lore + cursed, cfg);
    hide DropInventory, DropDoll, DropAll, Appearing, CharCount, MapCount;
    Transitive(c, m, mid, DropDoll(mid.0, mid.1, 0, x, y, lore + cursed, cfg),
               0, -Appearing(c.doll, lore + cursed, k), k);
  }

  /** In particular no item there really is changes its total, and what is left is known. */
  lemma DropAllAccounts(c: CharState, m: MapState, x: int, y: int, lore: set<int>, cursed: set<int>, cfg: Config,
                        k: int)
    requires GoodChar(c) && GoodMap(m) && Listed(lore) && k >= 1
    ensures var after := DropAll(c, m, x, y, lore, cursed, cfg);
            && Accounts(c, m, after, 0, 0, k)
            && OnlyFrom(after.0.inv, lore) && EmptiedUpTo(after.0.doll, 15, lore + cursed)
  {
    DropAllCounts(c, m, x, y, lore, cursed, cfg, k);
    NothingPositiveAppears(c.doll, lore + cursed, k);
  }

  /** Dropping everything keeps the total of every id, those that are no item included, exactly if every worn id
      fits 16 bits or is kept. */
  lemma DropAllExact(c: CharState, m: MapState, x: int, y: int, lore: set<int>, cursed: set<int>, cfg: Config)
    requires GoodChar(c) && GoodMap(m) && Listed(lore)
    ensures var after := DropAll(c, m, x, y, lore, cursed, cfg);
            (forall k :: k != 0 ==>
               CharCount(after.0, k) + MapCount(after.1, k) == CharCount(c, k) + MapCount(m, k))
            <==> forall j | 0 <= j < 15 :: c.doll[j] <= SHORT_MAX || c.doll[j] in lore + cursed
  {
    var after, kept := DropAll(c, m, x, y, lore, cursed, cfg), lore + cursed;
    forall k | k != 0
      ensures CharCount(after.0, k) + MapCount(after.1, k)
              == CharCount(c, k) + MapCount(m, k) + Appearing(c.doll, kept, k)
    {
      DropAllCounts(c, m, x, y, lore, cursed, cfg, k);
    }
    hide DropAll, CharCount, MapCount, Appearing;
    if j :| 0 <= j < 15 && c.doll[j] > SHORT_MAX && c.doll[j] !in kept {
      var k := Numbers.Short(c.doll[j]);
      WhatAppears(c.doll, kept, k);
      assert k != 0 && CharCount(after.0, k) + MapCount(after.1, k) != CharCount(c, k) + MapCount(m, k);
    } else {
      forall k | k != 0
        ensures Appearing(c.doll, kept, k) == 0
      {
        WhatAppears(c.doll, kept, k);
      }
    }
  }

  // ---------------------------------------------------------------- runs

  datatype Action =
    | DoDrop(id: int, asked: int, x: int, y: int)
    | DoJunk(id: int, asked: int)
    | DoGet(uid: int, room: nat)
    | DoChestAdd(x: int, y: int, id: int, asked: int)
    | DoChestTake(x: int, y: int, id: int, room: nat)
    | DoLockerAdd(id: int, asked: int, lockermax: nat)
    | DoLockerTake(id: int, room: nat)
    | DoBankAdd(asked: int)
    | DoBankTake(asked: int)
    | DoEquip(id: int, slot: nat)
    | DoUnequip(id: int, subloc: int)
    | DoDropAll(x: int, y: int, lore: set<int>, cursed: set<int>)

  /** Amounts are 32-bit, what is taken off the doll is named by a short, and lore items are items. */
  predicate Sensible(a: Action)
  {
    && (a.DoBankTake? ==> a.asked <= Numbers.INT_MAX)
    && (a.DoUnequip? ==> -32768 <= a.id <= SHORT_MAX)
    && (a.DoDropAll? ==> Listed(a.lore))
  }

  ghost function Act(c: CharState, m: MapState, a: Action, cfg: Config): (r: (CharState, MapState))
  {
    match a
    case DoDrop(id, asked, x, y) => Drop(c, m, id, asked, x, y, cfg)
    case DoJunk(id, asked) => (Junk(c, id, asked), m)
    case DoGet(uid, room) => Get(c, m, uid, room, cfg)
    case DoChestAdd(x, y, id, asked) => ChestAdd(c, m, x, y, id, asked, cfg)
    case DoChestTake(x, y, id, room) => ChestTake(c, m, x, y, id, room, cfg)
    case DoLockerAdd(id, asked, lockermax) => (LockerAdd(c, id, asked, lockermax, cfg), m)
    case DoLockerTake(id, room) => (LockerTake(c, id, room, cfg), m)
    case DoBankAdd(asked) => (BankAdd(c, asked, cfg), m)
    case DoBankTake(asked) => (BankTake(c, asked, cfg), m)
    case DoEquip(id, slot) => (Equip(c, id, slot), m)
    case DoUnequip(id, subloc) => (Unequip(c, id, subloc, cfg), m)
    case DoDropAll(x, y, lore, cursed) => DropAll(c, m, x, y, lore, cursed, cfg)
  }

  /** The item and amount an action takes out of an inventory-bound store, if it moves anything that way. */
  function Incoming(c: CharState, m: MapState, a: Action, cfg: Config): (r: (int, int))
  {
    match a
    case DoGet(uid, room) =>
      var i := FindUid(m.ground, uid);
      if i == |m.ground| then (0, 0) else (m.ground[i].stack.id, CanHold(room, m.ground[i].stack.amount, cfg))
    case DoChestTake(x, y, id, room) =>
      var n := FindTakable(m.chests, x, y, id, room, cfg);
      (id, if n < |m.chests| then ChestTaken(m.chests[n], id, room, cfg) else 0)
    case DoLockerTake(id, room) => (id, CanHold(room, Has(c.bank, id), cfg))
    case DoBankTake(asked) => (1, if 0 < asked <= c.gold then asked else 0)
    case DoUnequip(id, subloc) =>
      (id, if id != 0 && FindSlot(c.doll, id, subloc, 0) < |c.doll| then 1 else 0)
    case _ => (0, 0)
  }

  /** The item an action can lose, and how many of it are lost. */
  function Lost(c: CharState, m: MapState, a: Action, cfg: Config): (r: (int, int))
  {
    match a
    case DoDrop(id, asked, x, y) =>
      var amount := Min(asked, cfg.maxDrop);
      (id, if 0 < amount <= Has(c.inv, id) && Full(m.ground, x, y, cfg) then amount else 0)
    case DoJunk(id, asked) => (id, if 0 < asked <= Has(c.inv, id) then asked else 0)
    case DoLockerAdd(id, asked, _) => (id, if LockerCuts(c, id, asked, cfg) then Has(c.bank, id) - cfg.maxBank else 0)
    case _ =>
      var (id, n) := Incoming(c, m, a, cfg);
      (id, Spill(c.inv, id, n, cfg))
  }

  /** A limit stands in the way: a full tile or map, a locker stack above its limit, an id outside the item table,
      or an inventory stack that would exceed its limit. Destroying items counts as one. */
  predicate LimitBinds(c: CharState, m: MapState, a: Action, cfg: Config)
  {
    match a
    case DoDrop(id, asked, x, y) =>
      0 < Min(asked, cfg.maxDrop) <= Has(c.inv, id)
      && (OnTile(m.ground, x, y) >= cfg.maxTile || |m.ground| >= cfg.maxMap)
    case DoJunk(id, asked) => 0 < asked <= Has(c.inv, id)
    case DoLockerAdd(id, asked, _) => LockerCuts(c, id, asked, cfg)
    case _ =>
      var (id, n) := Incoming(c, m, a, cfg);
      n > 0 && (id <= 0 || id >= cfg.eifSize || (Find(c.inv, id) < |c.inv| && Has(c.inv, id) + n > cfg.maxItem))
  }

  lemma LostIffLimitBinds(c: CharState, m: MapState, a: Action, cfg: Config)
    requires Sane(cfg)
    ensures Lost(c, m, a, cfg).1 >= 0
    ensures Lost(c, m, a, cfg).1 == 0 <==> !LimitBinds(c, m, a, cfg)
  {
    var (id, n) := Incoming(c, m, a, cfg);
    if n > 0 {
      NoOverflow(c.inv, id, n, cfg);
    }
  }

  lemma ActAccounts(c: CharState, m: MapState, a: Action, cfg: Config, k: int)
    requires GoodChar(c) && GoodMap(m) && Sane(cfg) && Sensible(a) && k >= 1
    ensures Accounts(c, m, Act(c, m, a, cfg), Lost(c, m, a, cfg).0, Lost(c, m, a, cfg).1, k)
  {
    hide Accounts, Drop, Junk, Get, ChestAdd, ChestTake, LockerAdd, LockerTake, BankAdd, BankTake, Equip, Unequip;
    hide DropAll;
    hide Overflow, CanHold, ChestTaken, LockerCuts, Full, FindTakable, FindSlot, Find, Has;
    match a
    case DoDrop(id, asked, x, y) => DropAccounts(c, m, id, asked, x, y, cfg, k);
    case DoJunk(id, asked) => JunkAccounts(c, m, id, asked, k);
    case DoGet(uid, room) => GetAccounts(c, m, uid, room, cfg, k);
    case DoChestAdd(x, y, id, asked) => ChestAddAccounts(c, m, x, y, id, asked, cfg, k);
    case DoChestTake(x, y, id, room) => ChestTakeAccounts(c, m, x, y, id, room, cfg, k);
    case DoLockerAdd(id, asked, lockermax) => LockerAddAccounts(c, m, id, asked, lockermax, cfg, k);
    case DoLockerTake(id, room) => LockerTakeAccounts(c, m, id, room, cfg, k);
    case DoBankAdd(asked) => BankAddAccounts(c, m, asked, cfg, k);
    case DoBankTake(asked) => BankTakeAccounts(c, m, asked, cfg, k);
    case DoEquip(id, slot) => EquipAccounts(c, m, id, slot, k);
    case DoUnequip(id, subloc) => UnequipAccounts(c, m, id, subloc, cfg, k);
    case DoDropAll(x, y, lore, cursed) => DropAllAccounts(c, m, x, y, lore, cursed, cfg, k);
  }

  datatype World = World(chars: seq<CharState>, maps: seq<MapState>)

  /** Character `who` acts on map `place`. */
  datatype Step = Step(who: nat, place: nat, action: Action)

  ghost predicate GoodWorld(w: World)
  {
    (forall i | 0 <= i < |w.chars| :: GoodChar(w.chars[i])) && (forall i | 0 <= i < |w.maps| :: GoodMap(w.maps[i]))
  }

  predicate Possible(w: World, s: Step)
  {
    s.who < |w.chars| && s.place < |w.maps| && Sensible(s.action)
  }

  function CharCounts(w: World, id: int): (r: seq<int>)
    ensures |r| == |w.chars|
  {
    seq(|w.chars|, i requires 0 <= i < |w.chars| => CharCount(w.chars[i], id))
  }

  function MapCounts(w: World, id: int): (r: seq<int>)
    ensures |r| == |w.maps|
  {
    seq(|w.maps|, i requires 0 <= i < |w.maps| => MapCount(w.maps[i], id))
  }

  /** All of item `id` there is. */
  function Total(w: World, id: int): (n: int)
  {
    Sum(CharCounts(w, id)) + Sum(MapCounts(w, id))
  }

  ghost function Apply(w: World, s: Step, cfg: Config): (r: World)
    ensures |r.chars| == |w.chars| && |r.maps| == |w.maps|
  {
    if !Possible(w, s) then w
    else
      var (c, m) := Act(w.chars[s.who], w.maps[s.place], s.action, cfg);
      World(w.chars[s.who := c], w.maps[s.place := m])
  }

  ghost function LostOf(w: World, s: Step, cfg: Config, id: int): (n: int)
  {
    if !Possible(w, s) then 0
    else
      var (item, n) := Lost(w.chars[s.who], w.maps[s.place], s.action, cfg);
      if item == id then n else 0
  }

  lemma StepAccounts(w: World, s: Step, cfg: Config, id: int)
    requires GoodWorld(w) && Sane(cfg) && id >= 1
    ensures GoodWorld(Apply(w, s, cfg))
    ensures Total(Apply(w, s, cfg), id) == Total(w, id) - LostOf(w, s, cfg, id)
    ensures LostOf(w, s, cfg, id) >= 0
  {
    if Possible(w, s) {
      var c, m := w.chars[s.who], w.maps[s.place];
      var (c', m') := Act(c, m, s.action, cfg);
      ActAccounts(c, m, s.action, cfg, id);
      LostIffLimitBinds(c, m, s.action, cfg);
      TotalUpdate(w, s.who, s.place, c', m', id);
    }
  }

  lemma TotalUpdate(w: World, i: nat, j: nat, c: CharState, m: MapState, id: int)
    requires i < |w.chars| && j < |w.maps|
    ensures Total(World(w.chars[i := c], w.maps[j := m]), id)
            == Total(w, id) - CharCount(w.chars[i], id) - MapCount(w.maps[j], id) + CharCount(c, id) + MapCount(m, id)
  {
    var w' := World(w.chars[i := c], w.maps[j := m]);
    SumUpdate(CharCounts(w, id), i, CharCount(c, id));
    SumUpdate(MapCounts(w, id), j, MapCount(m, id));
    assert CharCounts(w', id) == CharCounts(w, id)[i := CharCount(c, id)];
    assert MapCounts(w', id) == MapCounts(w, id)[j := MapCount(m, id)];
  }

  ghost function Run(w: World, steps: seq<Step>, cfg: Config): (r: World)
    decreases |steps|
  {
    if steps == [] then w else Run(Apply(w, steps[0], cfg), steps[1..], cfg)
  }

  /** No step of the run meets a limit for item `id`. */
  ghost predicate Unlimited(w: World, steps: seq<Step>, cfg: Config, id: int)
    decreases |steps|
  {
    steps == [] ||
    ((Possible(w, steps[0]) && Lost(w.chars[steps[0].who], w.maps[steps[0].place], steps[0].action, cfg).0 == id
      ==> !LimitBinds(w.chars[steps[0].who], w.maps[steps[0].place], steps[0].action, cfg))
     && Unlimited(Apply(w, steps[0], cfg), steps[1..], cfg, id))
  }

  /** Over any run of item actions by any characters on any maps, no item ever becomes more; and its total is
      unchanged exactly when no step met a limit for it. */
  lemma {:induction false} Conservation(w: World, steps: seq<Step>, cfg: Config, id: int)
    requires GoodWorld(w) && Sane(cfg) && id >= 1
    ensures GoodWorld(Run(w, steps, cfg))
    ensures Total(Run(w, steps, cfg), id) <= Total(w, id)
    ensures Total(Run(w, steps, cfg), id) == Total(w, id) <==> Unlimited(w, steps, cfg, id)
    decreases |steps|
  {
    if steps == [] {
    } else {
      var s := steps[0];
      StepAccounts(w, s, cfg, id);
      Conservation(Apply(w, s, cfg), steps[1..], cfg, id);
      if Possible(w, s) {
        LostIffLimitBinds(w.chars[s.who], w.maps[s.place], s.action, cfg);
      }
    }
  }
}
