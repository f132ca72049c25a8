/** The stores as objects edited in place, and the handlers over them; each method is proved against
    the function of the same name in `ItemStores` or `ItemSteps`. */
module ItemObjects {
  import opened ItemStores
  import opened ItemSteps
  import Numbers

  lemma FindAt(s: seq<Stack>, id: int, i: nat)
    requires i <= |s| && (i < |s| ==> s[i].id == id) && forall j | 0 <= j < i :: s[j].id != id
    ensures Find(s, id) == i
  {
  }

  lemma FindUidAt(g: seq<Ground>, uid: int, i: nat)
    requires i <= |g| && (i < |g| ==> g[i].uid == uid) && forall j | 0 <= j < i :: g[j].uid != uid
    ensures FindUid(g, uid) == i
  {
  }

  class Character {
    var inventory: seq<Stack>
    var paperdoll: array<int>
    var bank: seq<Stack>
    var goldbank: int

    ghost function State(): CharState
      reads this, paperdoll
    {
      CharState(inventory, paperdoll[..], bank, goldbank)
    }

    method HasItem(item: int) returns (n: int)
      ensures n == Has(inventory, item)
    {
      for i := 0 to |inventory|
        invariant forall j | 0 <= j < i :: inventory[j].id != item
      {
        if inventory[i].id == item {
          FindAt(inventory, item, i);
          return inventory[i].amount;
        }
      }
      FindAt(inventory, item, |inventory|);
      return 0;
    }

    method AddItem(item: int, amount: int, cfg: Config) returns (ok: bool)
      modifies this`inventory
      ensures (ok, inventory) == Added(old(inventory), item, amount, cfg)
    {
      if amount <= 0 {
        return false;
      }
      if item <= 0 || item >= cfg.eifSize {
        return false;
      }
      for i := 0 to |inventory|
        invariant inventory == old(inventory)
        invariant forall j | 0 <= j < i :: inventory[j].id != item
      {
        if inventory[i].id == item {
          FindAt(inventory, item, i);
          if Numbers.Plus32(inventory[i].amount, amount) < 0 {
            return false;
          }
          inventory := inventory[i := Stack(item, inventory[i].amount + amount)];
          inventory := inventory[i := Stack(item, Min(inventory[i].amount, cfg.maxItem))];
          assert inventory == old(inventory)[i := inventory[i]];
          return true;
        }
      }
      FindAt(inventory, item, |inventory|);
      inventory := inventory + [Stack(item, amount)];
      return true;
    }

    method DelItem(item: int, amount: int) returns (ok: bool)
      modifies this`inventory
      ensures (ok, inventory) == Removed(old(inventory), item, amount)
    {
      if amount <= 0 {
        return false;
      }
      for i := 0 to |inventory|
        invariant inventory == old(inventory)
        invariant forall j | 0 <= j < i :: inventory[j].id != item
      {
        if inventory[i].id == item {
          FindAt(inventory, item, i);
          if inventory[i].amount < 0 || inventory[i].amount - amount <= 0 {
            inventory := inventory[..i] + inventory[i + 1..];
          } else {
            inventory := inventory[i := Stack(item, inventory[i].amount - amount)];
          }
          return true;
        }
      }
      FindAt(inventory, item, |inventory|);
      return false;
    }

    /** `slot` is the place the item class asks for, once the character may wear it. */
    method EquipItem(item: int, slot: nat) returns (ok: bool)
      requires slot < paperdoll.Length
      modifies this`inventory, paperdoll
      ensures State() == Equip(old(State()), item, slot)
      ensures ok <==> Has(old(inventory), item) != 0 && item > 0 && old(paperdoll[slot]) == 0
    {
      var has := HasItem(item);
      if has == 0 || item <= 0 {
        return false;
      }
      if paperdoll[slot] != 0 {
        return false;
      }
      paperdoll[slot] := item;
      var _ := DelItem(item, 1);
      assert paperdoll[..] == old(paperdoll[..])[slot := item];
      return true;
    }

    method UnequipItem(item: int, subloc: int, cfg: Config) returns (ok: bool)
      modifies this`inventory, paperdoll
      ensures State() == Unequip(old(State()), item, subloc, cfg)
      ensures ok <==> item != 0 && exists i :: 0 <= i < paperdoll.Length && old(paperdoll[i]) == item
                                              && subloc == if SecondSlot(i) then 1 else 0
    {
      if item == 0 {
        return false;
      }
      ghost var doll := paperdoll[..];
      for i := 0 to paperdoll.Length
        invariant paperdoll[..] == doll && inventory == old(inventory)
        invariant FindSlot(doll, item, subloc, 0) == FindSlot(doll, item, subloc, i)
      {
        if paperdoll[i] == item {
          if (if i == 10 || i == 12 || i == 14 then 1 else 0) == subloc {
            paperdoll[i] := 0;
            var _ := AddItem(item, 1, cfg);
            assert paperdoll[..] == doll[i := 0];
            return true;
          }
        }
      }
      return false;
    }
  }

  class MapChest {
    const x: int
    const y: int
    var items: seq<ChestItem>
    var slots: int
    var maxchest: int
    var chestslots: int

    function State(): Chest
      reads this
    {
      Chest(x, y, items, slots, maxchest, chestslots)
    }

    method HasItem(item: int) returns (n: int)
      ensures n == Has(ChestStacks(items), item)
    {
      for i := 0 to |items|
        invariant forall j | 0 <= j < i :: items[j].stack.id != item
      {
        if items[i].stack.id == item {
          FindAt(ChestStacks(items), item, i);
          return items[i].stack.amount;
        }
      }
      FindAt(ChestStacks(items), item, |items|);
      return 0;
    }

    method AddItem(item: int, amount: int) returns (n: int)
      modifies this`items
      ensures (n, State()) == ChestAdded(old(State()), item, amount)
    {
      if amount <= 0 {
        return 0;
      }
      for i := 0 to |items|
        invariant items == old(items)
        invariant forall j | 0 <= j < i :: items[j].stack.id != item
      {
        if items[i].stack.id == item {
          FindAt(ChestStacks(items), item, i);
          var sum := Numbers.Plus32(items[i].stack.amount, amount);
          if sum < 0 || sum > maxchest {
            return 0;
          }
          items := items[i := items[i].(stack := Stack(item, items[i].stack.amount + amount))];
          return amount;
        }
      }
      FindAt(ChestStacks(items), item, |items|);
      if (chestslots >= 0 && |items| >= chestslots) || amount > maxchest {
        return 0;
      }
      var user_items := 0;
      for i := 0 to |items|
        invariant user_items + UserItems(items[i..]) == UserItems(items)
      {
        assert items[i..][1..] == items[i + 1..];
        if items[i].slot == 0 {
          user_items := user_items + 1;
        }
      }
      assert items[|items|..] == [];
      if user_items + slots >= chestslots {
        return 0;
      }
      items := items + [ChestItem(Stack(item, amount), 0)];
      return amount;
    }

    method DelSomeItem(item: int, amount: int)
      modifies this`items
      ensures State() == ChestRemoved(old(State()), item, amount)
    {
      for i := 0 to |items|
        invariant items == old(items)
        invariant forall j | 0 <= j < i :: items[j].stack.id != item
      {
        if items[i].stack.id == item {
          FindAt(ChestStacks(items), item, i);
          if amount < items[i].stack.amount {
            items := items[i := ChestItem(Stack(item, items[i].stack.amount - amount), 0)];
          } else {
            items := items[..i] + items[i + 1..];
          }
          return;
        }
      }
      FindAt(ChestStacks(items), item, |items|);
    }
  }

  class Map {
    var items: seq<Ground>
    var chests: seq<MapChest>

    ghost predicate Valid()
      reads this
    {
      forall i, j | 0 <= i < j < |chests| :: chests[i] != chests[j]
    }

    ghost function State(): MapState
      reads this, chests
    {
      MapState(items, ChestStates())
    }

    ghost function ChestStates(): (r: seq<Chest>)
      reads this, chests
      ensures |r| == |chests| && forall i | 0 <= i < |chests| :: r[i] == chests[i].State()
    {
      seq(|chests|, i requires 0 <= i < |chests| reads this, chests => chests[i].State())
    }

    /** Restarts its scan whenever the candidate is taken. */
    method GenerateItemID() returns (lowest_free_id: int)
      ensures IsLeastFree(lowest_free_id, Uids(items))
      ensures lowest_free_id <= |items| + 1
    {
      lowest_free_id := 1;
      var i := 0;
      while i < |items|
        invariant 0 <= i <= |items| && 1 <= lowest_free_id <= |items| + 1
        invariant forall v | 1 <= v < lowest_free_id :: v in Uids(items)
        invariant forall j | 0 <= j < i :: items[j].uid != lowest_free_id
        decreases |items| + 1 - lowest_free_id, |items| - i
      {
        if items[i].uid == lowest_free_id {
          assert lowest_free_id in Uids(items);
          lowest_free_id := items[i].uid + 1;
          LeastFreeBound(items, lowest_free_id);
          i := 0;
        } else {
          i := i + 1;
        }
      }
    }

    /** Players' drops respect the limits; drops on death do not. A refused drop reports uid 0. */
    method AddItem(id: int, amount: int, x: int, y: int, byPlayer: bool, cfg: Config) returns (uid: int)
      modifies this`items
      ensures if byPlayer && Full(old(items), x, y, cfg) then items == old(items) && uid == 0
              else
                && items == Dropped(old(items), LeastFree(old(items)), id, amount, x, y)
                && uid == items[|items| - 1].uid
    {
      if byPlayer {
        var ontile, onmap := 0, 0;
        for i := 0 to |items|
          invariant onmap == i
          invariant ontile + OnTile(items[i..], x, y) == OnTile(items, x, y)
        {
          assert items[i..][1..] == items[i + 1..];
          onmap := onmap + 1;
          if items[i].x == x && items[i].y == y {
            ontile := ontile + 1;
          }
        }
        assert items[|items|..] == [];
        if ontile >= cfg.maxTile || onmap >= cfg.maxMap {
          return 0;
        }
      }
      var free := GenerateItemID();
      LeastFreeUnique(free, LeastFree(items), Uids(items));
      uid := Numbers.Short(free);
      items := items + [Ground(uid, Stack(id, amount), x, y)];
    }

    method GetItem(uid: int) returns (i: nat)
      ensures i == FindUid(items, uid)
    {
      i := 0;
      while i < |items| && items[i].uid != uid
        invariant i <= |items| && forall j | 0 <= j < i :: items[j].uid != uid
      {
        i := i + 1;
      }
      FindUidAt(items, uid, i);
    }

    method DelSomeItem(uid: int, amount: int)
      modifies this`items
      ensures items == Picked(old(items), uid, amount)
    {
      if amount < 0 {
        return;
      }
      var i := GetItem(uid);
      if i < |items| {
        if amount < items[i].stack.amount {
          items := items[i := items[i].(stack := Stack(items[i].stack.id, items[i].stack.amount - amount))];
        } else {
          items := items[..i] + items[i + 1..];
        }
      }
    }
  }

  // ---------------------------------------------------------------- the handlers

  method ItemDrop(c: Character, m: Map, id: int, asked: int, x: int, y: int, cfg: Config)
    modifies c`inventory, m`items
    ensures (c.State(), m.State()) == Drop(old(c.State()), old(m.State()), id, asked, x, y, cfg)
  {
    var amount := Min(asked, cfg.maxDrop);
    if amount <= 0 {
      return;
    }
    var has := c.HasItem(id);
    if has >= amount {
      var _ := m.AddItem(id, amount, x, y, true, cfg);
      var _ := c.DelItem(id, amount);
    }
    assert m.ChestStates() == old(m.ChestStates());
  }

  method ItemJunk(c: Character, id: int, amount: int)
    modifies c`inventory
    ensures c.State() == Junk(old(c.State()), id, amount)
  {
    if amount <= 0 {
      return;
    }
    var has := c.HasItem(id);
    if has >= amount {
      var _ := c.DelItem(id, amount);
    }
  }

  /** `CanHoldItem` with what the weight allows as a number. */
  method CanHoldItem(room: nat, max_amount: int, cfg: Config) returns (n: int)
    ensures n == CanHold(room, max_amount, cfg)
  {
    n := Min(Min(room, max_amount), cfg.maxItem);
  }

  method ItemGet(c: Character, m: Map, uid: int, room: nat, cfg: Config)
    modifies c`inventory, m`items
    ensures (c.State(), m.State()) == Get(old(c.State()), old(m.State()), uid, room, cfg)
  {
    var i := m.GetItem(uid);
    if i < |m.items| {
      var item := m.items[i];
      var taken := CanHoldItem(room, item.stack.amount, cfg);
      if taken > 0 {
        var _ := c.AddItem(item.stack.id, taken, cfg);
        m.DelSomeItem(item.uid, taken);
      }
    }
    assert m.ChestStates() == old(m.ChestStates());
  }

  lemma FindChestAt(chests: seq<Chest>, x: int, y: int, k: nat)
    requires k <= |chests| && (k < |chests| ==> chests[k].x == x && chests[k].y == y)
    requires forall j | 0 <= j < k :: !(chests[j].x == x && chests[j].y == y)
    ensures FindChest(chests, x, y) == k
  {
    if k > 0 {
      FindChestAt(chests[1..], x, y, k - 1);
    }
  }

  method PutInChest(c: Character, chest: MapChest, id: int, asked: int, cfg: Config)
    modifies c`inventory, chest`items
    ensures var before := old(chest.State());
            var amount := Min(asked, cfg.maxChest - Has(ChestStacks(before.items), id));
            if Has(old(c.inventory), id) < amount || ChestAdded(before, id, amount).0 == 0
            then c.inventory == old(c.inventory) && chest.State() == before
            else c.inventory == Removed(old(c.inventory), id, amount).1
                 && chest.State() == ChestAdded(before, id, amount).1
  {
    var held := chest.HasItem(id);
    var amount := Min(asked, cfg.maxChest - held);
    var has := c.HasItem(id);
    if has >= amount {
      var added := chest.AddItem(id, amount);
      if added != 0 {
        var _ := c.DelItem(id, amount);
      } else {
        RefusedUnchanged(old(chest.State()), id, amount);
      }
    }
  }

  lemma RefusedUnchanged(c: Chest, id: int, amount: int)
    requires ChestAdded(c, id, amount).0 == 0
    ensures ChestAdded(c, id, amount).1 == c
  {
  }

  method ChestAddHandler(c: Character, m: Map, x: int, y: int, id: int, asked: int, cfg: Config)
    requires m.Valid()
    modifies c`inventory, m.chests
    ensures (c.State(), m.State()) == ChestAdd(old(c.State()), old(m.State()), x, y, id, asked, cfg)
  {
    hide ChestAdded, Removed, FindChest, Has;
    ghost var states := m.ChestStates();
    for k := 0 to |m.chests|
      invariant m.ChestStates() == states && c.State() == old(c.State())
      invariant forall j | 0 <= j < k :: !(states[j].x == x && states[j].y == y)
    {
      var chest := m.chests[k];
      if chest.x == x && chest.y == y {
        FindChestAt(states, x, y, k);
        PutInChest(c, chest, id, asked, cfg);
        assert m.ChestStates() == states[k := chest.State()];
        return;
      }
    }
    FindChestAt(states, x, y, |m.chests|);
  }

  lemma FindTakableAt(chests: seq<Chest>, x: int, y: int, id: int, room: nat, cfg: Config, k: nat)
    requires k <= |chests|
    requires k < |chests| ==> chests[k].x == x && chests[k].y == y && ChestTaken(chests[k], id, room, cfg) > 0
    requires forall j | 0 <= j < k ::
               !(chests[j].x == x && chests[j].y == y && ChestTaken(chests[j], id, room, cfg) > 0)
    ensures FindTakable(chests, x, y, id, room, cfg) == k
  {
    if k > 0 {
      FindTakableAt(chests[1..], x, y, id, room, cfg, k - 1);
    }
  }

  method TakeFromChest(c: Character, chest: MapChest, id: int, room: nat, cfg: Config) returns (took: bool)
    modifies c`inventory, chest`items
    ensures var n := ChestTaken(old(chest.State()), id, room, cfg);
            if n <= 0 then !took && c.inventory == old(c.inventory) && chest.State() == old(chest.State())
            else took && c.inventory == Added(old(c.inventory), id, n, cfg).1
                 && chest.State() == ChestRemoved(old(chest.State()), id, n)
  {
    var amount := chest.HasItem(id);
    var taken := CanHoldItem(room, amount, cfg);
    if taken > 0 {
      chest.DelSomeItem(id, taken);
      var _ := c.AddItem(id, taken, cfg);
      return true;
    }
    return false;
  }

  method ChestTakeHandler(c: Character, m: Map, x: int, y: int, id: int, room: nat, cfg: Config)
    requires m.Valid()
    modifies c`inventory, m.chests
    ensures (c.State(), m.State()) == ChestTake(old(c.State()), old(m.State()), x, y, id, room, cfg)
  {
    hide ChestRemoved, ChestTaken, Added, FindTakable;
    ghost var states := m.ChestStates();
    for k := 0 to |m.chests|
      invariant m.ChestStates() == states && c.State() == old(c.State())
      invariant forall j | 0 <= j < k ::
                  !(states[j].x == x && states[j].y == y && ChestTaken(states[j], id, room, cfg) > 0)
    {
      var chest := m.chests[k];
      if chest.x == x && chest.y == y {
        var taken := TakeFromChest(c, chest, id, room, cfg);
        if taken {
          FindTakableAt(states, x, y, id, room, cfg, k);
          assert m.ChestStates() == states[k := chest.State()];
          return;
        }
      }
    }
    FindTakableAt(states, x, y, id, room, cfg, |m.chests|);
  }

  method LockerAddHandler(c: Character, item: int, asked: int, lockermax: nat, cfg: Config)
    modifies c`inventory, c`bank
    ensures c.State() == LockerAdd(old(c.State()), item, asked, lockermax, cfg)
  {
    if item == 1 || asked <= 0 {
      return;
    }
    var has := c.HasItem(item);
    if has < asked {
      return;
    }
    for i := 0 to |c.bank|
      invariant c.State() == old(c.State())
      invariant forall j | 0 <= j < i :: c.bank[j].id != item
    {
      if c.bank[i].id == item {
        FindAt(c.bank, item, i);
        if Numbers.Plus32(c.bank[i].amount, asked) < 0 {
          return;
        }
        var amount := Min(asked, cfg.maxBank - c.bank[i].amount);
        c.bank := c.bank[i := Stack(item, c.bank[i].amount + amount)];
        var _ := c.DelItem(item, amount);
        return;
      }
    }
    FindAt(c.bank, item, |c.bank|);
    if |c.bank| >= lockermax {
      return;
    }
    var amount := Min(asked, cfg.maxBank);
    c.bank := c.bank + [Stack(item, amount)];
    var _ := c.DelItem(item, amount);
  }

  method LockerTakeHandler(c: Character, item: int, room: nat, cfg: Config)
    modifies c`inventory, c`bank
    ensures c.State() == LockerTake(old(c.State()), item, room, cfg)
  {
    for i := 0 to |c.bank|
      invariant c.State() == old(c.State())
      invariant forall j | 0 <= j < i :: c.bank[j].id != item
    {
      if c.bank[i].id == item {
        FindAt(c.bank, item, i);
        var amount := c.bank[i].amount;
        var taken := CanHoldItem(room, amount, cfg);
        var _ := c.AddItem(item, taken, cfg);
        c.bank := c.bank[i := Stack(item, amount - taken)];
        if c.bank[i].amount <= 0 {
          c.bank := c.bank[..i] + c.bank[i + 1..];
          assert c.bank == Without(old(c.bank), i);
        }
        return;
      }
    }
    FindAt(c.bank, item, |c.bank|);
  }

  method BankAddHandler(c: Character, asked: int, cfg: Config)
    modifies c`inventory, c`goldbank
    ensures c.State() == BankAdd(old(c.State()), asked, cfg)
  {
    if asked <= 0 {
      return;
    }
    var has := c.HasItem(1);
    var amount := Min(asked, has);
    var newgold := Numbers.Plus32(c.goldbank, amount);
    if newgold < c.goldbank || newgold > cfg.maxBankGold {
      return;
    }
    var _ := c.DelItem(1, amount);
    c.goldbank := newgold;
  }

  method BankTakeHandler(c: Character, amount: int, cfg: Config)
    modifies c`inventory, c`goldbank
    ensures c.State() == BankTake(old(c.State()), amount, cfg)
  {
    if amount <= 0 {
      return;
    }
    var newgold := Numbers.Plus32(c.goldbank, -amount);
    if newgold > c.goldbank || newgold < 0 {
      return;
    }
    c.goldbank := newgold;
    var _ := c.AddItem(1, amount, cfg);
  }

  /** Death: the inventory but for lore items, then the doll but for lore and cursed ones. */
  method DropAllHandler(c: Character, m: Map, x: int, y: int, lore: set<int>, cursed: set<int>, cfg: Config)
    modifies c`inventory, c.paperdoll, m`items
    ensures (c.State(), m.State()) == DropAll(old(c.State()), old(m.State()), x, y, lore, cursed, cfg)
  {
    DropCarried(c, m, x, y, lore, cfg);
    DropWorn(c, m, x, y, lore, cursed, cfg);
  }

  method DropCarried(c: Character, m: Map, x: int, y: int, lore: set<int>, cfg: Config)
    modifies c`inventory, m`items
    ensures (c.State(), m.State()) == DropInventory(old(c.State()), old(m.State()), 0, x, y, lore)
  {
    ghost var chests := m.ChestStates();
    var it := 0;
    while it < |c.inventory|
      invariant it <= |c.inventory| && m.ChestStates() == chests
      invariant DropInventory(c.State(), m.State(), it, x, y, lore)
                == DropInventory(old(c.State()), old(m.State()), 0, x, y, lore)
      decreases |c.inventory| - it
    {
      if c.inventory[it].id in lore {
        it := it + 1;
      } else {
        var _ := m.AddItem(c.inventory[it].id, c.inventory[it].amount, x, y, false, cfg);
        c.inventory := c.inventory[..it] + c.inventory[it + 1..];
        assert m.ChestStates() == chests;
      }
    }
  }

  method DropWorn(c: Character, m: Map, x: int, y: int, lore: set<int>, cursed: set<int>, cfg: Config)
    modifies c`inventory, c.paperdoll, m`items
    ensures (c.State(), m.State()) == DropDoll(old(c.State()), old(m.State()), 0, x, y, lore + cursed, cfg)
  {
    ghost var chests, kept := m.ChestStates(), lore + cursed;
    for i := 0 to c.paperdoll.Length
      invariant m.ChestStates() == chests
      invariant DropDoll(c.State(), m.State(), i, x, y, kept, cfg)
                == DropDoll(old(c.State()), old(m.State()), 0, x, y, kept, cfg)
    {
      var id := c.paperdoll[i];
      if id == 0 || id in lore || id in cursed {
      } else {
        var _ := m.AddItem(Numbers.Short(id), 1, x, y, false, cfg);
        var _ := c.UnequipItem(Numbers.Short(id), if i == 10 || i == 12 || i == 14 then 1 else 0, cfg);
        var _ := c.DelItem(Numbers.Short(id), 1);
        assert m.ChestStates() == chests;
      }
    }
  }
}
