/** Stacks of items and the counting that every store shares: inventories and lockers (src/character.cpp),
    ground items and chests (src/map.cpp). */
module ItemStores {
  import Numbers

  const SHORT_MAX := 32767

  function Min(a: int, b: int): (r: int)
    ensures r <= a && r <= b && (r == a || r == b)
  {
    if b < a then b else a
  }

  /** The server settings the stores consult. `eifSize` is the size of the item table. */
  datatype Config = Config(maxItem: int, maxChest: int, maxBank: int, maxBankGold: int, maxDrop: int,
                           maxTile: int, maxMap: int, eifSize: nat)

  predicate Sane(cfg: Config)
  {
    && 1 <= cfg.maxItem <= Numbers.INT_MAX && 1 <= cfg.maxBank <= Numbers.INT_MAX
    && cfg.maxBankGold <= Numbers.INT_MAX
  }

  datatype Stack = Stack(id: int, amount: int)

  /** A stack as it is kept: its id any short - saved ids above 32767 are loaded as negative ones - and some of it. */
  predicate GoodStack(s: Stack)
  {
    -32768 <= s.id <= SHORT_MAX && 1 <= s.amount <= Numbers.INT_MAX
  }

  predicate Good(s: seq<Stack>)
  {
    forall i | 0 <= i < |s| :: GoodStack(s[i])
  }

  /** Index of the first stack of `id`, or the length. */
  function Find(s: seq<Stack>, id: int): (i: nat)
    ensures i <= |s|
    ensures i < |s| ==> s[i].id == id
    ensures forall j | 0 <= j < i :: s[j].id != id
  {
    if s == [] || s[0].id == id then 0
    else
      var i := 1 + Find(s[1..], id);
      assert forall j | 1 <= j < i :: s[j] == s[1..][j - 1];
      i
  }

  function Has(s: seq<Stack>, id: int): (n: int)
    ensures Good(s) ==> n >= 0
  {
    var i := Find(s, id);
    if i < |s| then s[i].amount else 0
  }

  function Without(s: seq<Stack>, i: nat): (r: seq<Stack>)
    requires i < |s|
    ensures |r| == |s| - 1
  {
    s[..i] + s[i + 1..]
  }

  // ---------------------------------------------------------------- counting

  function Worth(s: Stack, id: int): int
  {
    if s.id == id then s.amount else 0
  }

  /** How many of item `id` the stacks hold together. */
  function Count(s: seq<Stack>, id: int): (n: int)
  {
    if s == [] then 0 else Worth(s[0], id) + Count(s[1..], id)
  }

  lemma {:induction false} CountConcat(a: seq<Stack>, b: seq<Stack>, id: int)
    ensures Count(a + b, id) == Count(a, id) + Count(b, id)
  {
    if a == [] {
      assert a + b == b;
    } else {
      CountConcat(a[1..], b, id);
      assert (a + b)[1..] == a[1..] + b;
    }
  }

  lemma CountOne(s: Stack, id: int)
    ensures Count([s], id) == Worth(s, id)
  {
    assert [s][1..] == [];
  }

  lemma CountUpdate(s: seq<Stack>, i: nat, t: Stack, id: int)
    requires i < |s|
    ensures Count(s[i := t], id) == Count(s, id) - Worth(s[i], id) + Worth(t, id)
    ensures Count(Without(s, i), id) == Count(s, id) - Worth(s[i], id)
  {
    CountConcat(s[..i], [s[i]] + s[i + 1..], id);
    CountConcat([s[i]], s[i + 1..], id);
    CountConcat(s[..i], [t] + s[i + 1..], id);
    CountConcat([t], s[i + 1..], id);
    CountConcat(s[..i], s[i + 1..], id);
    CountOne(s[i], id);
    CountOne(t, id);
    assert s == s[..i] + ([s[i]] + s[i + 1..]);
    assert s[i := t] == s[..i] + ([t] + s[i + 1..]);
  }

  lemma CountAppend(s: seq<Stack>, t: Stack, id: int)
    ensures Count(s + [t], id) == Count(s, id) + Worth(t, id)
  {
    CountConcat(s, [t], id);
    CountOne(t, id);
  }

  // ---------------------------------------------------------------- an inventory

  /** `Character::AddItem`: capped at the limit for a stack that exists, refused for a bad id or an overflow. */
  function Added(s: seq<Stack>, id: int, amount: int, cfg: Config): (r: (bool, seq<Stack>))
  {
    if amount <= 0 || id <= 0 || id >= cfg.eifSize then (false, s)
    else
      var i := Find(s, id);
      if i == |s| then (true, s + [Stack(id, amount)])
      else if Numbers.Plus32(s[i].amount, amount) < 0 then (false, s)
      else (true, s[i := Stack(id, Min(s[i].amount + amount, cfg.maxItem))])
  }

  /** `Character::DelItem`. */
  function Removed(s: seq<Stack>, id: int, amount: int): (r: (bool, seq<Stack>))
  {
    var i := Find(s, id);
    if amount <= 0 || i == |s| then (false, s)
    else if s[i].amount < 0 || s[i].amount - amount <= 0 then (true, Without(s, i))
    else (true, s[i := Stack(id, s[i].amount - amount)])
  }

  /** What adding `amount` of `id` would lose: everything for an id outside the item table or a 32-bit overflow,
      and otherwise whatever exceeds the limit of a stack that exists. */
  function Overflow(s: seq<Stack>, id: int, amount: int, cfg: Config): (n: int)
    requires amount > 0
    ensures n >= 0
  {
    var sum := Has(s, id) + amount;
    if id <= 0 || id >= cfg.eifSize then amount
    else if Find(s, id) == |s| then 0
    else if sum > Numbers.INT_MAX then amount
    else if sum > cfg.maxItem then sum - cfg.maxItem
    else 0
  }

  /** Nothing is lost exactly when the id is in the table and an existing stack stays within its limit. */
  lemma NoOverflow(s: seq<Stack>, id: int, amount: int, cfg: Config)
    requires amount > 0 && cfg.maxItem <= Numbers.INT_MAX
    ensures Overflow(s, id, amount, cfg) == 0
            <==> 0 < id < cfg.eifSize && (Find(s, id) < |s| ==> Has(s, id) + amount <= cfg.maxItem)
  {
  }

  lemma AddedCounts(s: seq<Stack>, id: int, amount: int, cfg: Config, k: int)
    requires Good(s) && Sane(cfg) && 1 <= amount <= Numbers.INT_MAX && id <= SHORT_MAX
    ensures Good(Added(s, id, amount, cfg).1)
    ensures Count(Added(s, id, amount, cfg).1, k)
            == Count(s, k) + if k == id then amount - Overflow(s, id, amount, cfg) else 0
  {
    var i := Find(s, id);
    if i == |s| {
      CountAppend(s, Stack(id, amount), k);
    } else {
      CountUpdate(s, i, Stack(id, Min(s[i].amount + amount, cfg.maxItem)), k);
    }
  }

  lemma RemovedCounts(s: seq<Stack>, id: int, amount: int, k: int)
    requires Good(s)
    ensures Good(Removed(s, id, amount).1)
    ensures Count(Removed(s, id, amount).1, k)
            == Count(s, k) - if k == id && amount > 0 then Min(amount, Has(s, id)) else 0
  {
    var i := Find(s, id);
    if amount > 0 && i < |s| {
      CountUpdate(s, i, Stack(id, s[i].amount - amount), k);
    }
  }

  // ---------------------------------------------------------------- a chest

  /** `slot` is the spawn a stack came from, 0 for what players put in. */
  datatype ChestItem = ChestItem(stack: Stack, slot: int)

  datatype Chest = Chest(x: int, y: int, items: seq<ChestItem>, spawnSlots: int, maxchest: int, chestslots: int)

  function ChestStacks(items: seq<ChestItem>): (r: seq<Stack>)
    ensures |r| == |items| && forall i | 0 <= i < |items| :: r[i] == items[i].stack
  {
    seq(|items|, i requires 0 <= i < |items| => items[i].stack)
  }

  function UserItems(items: seq<ChestItem>): (n: nat)
  {
    if items == [] then 0 else (if items[0].slot == 0 then 1 else 0) + UserItems(items[1..])
  }

  /** `Map_Chest::AddItem` for a player's item (slot 0). */
  function ChestAdded(c: Chest, id: int, amount: int): (r: (int, Chest))
  {
    var i := Find(ChestStacks(c.items), id);
    if amount <= 0 then (0, c)
    else if i < |c.items| then
      var held := c.items[i].stack.amount;
      if Numbers.Plus32(held, amount) < 0 || Numbers.Plus32(held, amount) > c.maxchest then (0, c)
      else (amount, c.(items := c.items[i := c.items[i].(stack := Stack(id, held + amount))]))
    else if (c.chestslots >= 0 && |c.items| >= c.chestslots) || amount > c.maxchest then (0, c)
    else if UserItems(c.items) + c.spawnSlots >= c.chestslots then (0, c)
    else (amount, c.(items := c.items + [ChestItem(Stack(id, amount), 0)]))
  }

  /** `Map_Chest::DelSomeItem`. A stack that is only partly taken stops counting as spawned. */
  function ChestRemoved(c: Chest, id: int, amount: int): (r: Chest)
  {
    var i := Find(ChestStacks(c.items), id);
    if i == |c.items| then c
    else if amount < c.items[i].stack.amount then
      c.(items := c.items[i := ChestItem(Stack(id, c.items[i].stack.amount - amount), 0)])
    else c.(items := c.items[..i] + c.items[i + 1..])
  }

  lemma ChestAddedCounts(c: Chest, id: int, amount: int, k: int)
    requires Good(ChestStacks(c.items)) && -32768 <= id <= SHORT_MAX && amount <= Numbers.INT_MAX
    ensures var (n, c') := ChestAdded(c, id, amount);
            && Good(ChestStacks(c'.items))
            && (n == 0 || n == amount)
            && Count(ChestStacks(c'.items), k) == Count(ChestStacks(c.items), k) + if k == id then n else 0
  {
    var s := ChestStacks(c.items);
    var i := Find(s, id);
    var (n, c') := ChestAdded(c, id, amount);
    if n != 0 {
      if i < |s| {
        CountUpdate(s, i, Stack(id, s[i].amount + amount), k);
        assert ChestStacks(c'.items) == s[i := Stack(id, s[i].amount + amount)];
      } else {
        CountAppend(s, Stack(id, amount), k);
        assert ChestStacks(c'.items) == s + [Stack(id, amount)];
      }
    }
  }

  lemma ChestRemovedCounts(c: Chest, id: int, amount: int, k: int)
    requires Good(ChestStacks(c.items)) && 0 < amount <= Has(ChestStacks(c.items), id)
    ensures Good(ChestStacks(ChestRemoved(c, id, amount).items))
    ensures Count(ChestStacks(ChestRemoved(c, id, amount).items), k)
            == Count(ChestStacks(c.items), k) - if k == id then amount else 0
  {
    var s := ChestStacks(c.items);
    var i := Find(s, id);
    CountUpdate(s, i, Stack(id, s[i].amount - amount), k);
    if amount < s[i].amount {
      assert ChestStacks(ChestRemoved(c, id, amount).items) == s[i := Stack(id, s[i].amount - amount)];
    } else {
      assert ChestStacks(ChestRemoved(c, id, amount).items) == Without(s, i);
    }
  }

  // ---------------------------------------------------------------- the ground

  datatype Ground = Ground(uid: int, stack: Stack, x: int, y: int)

  function GroundStacks(g: seq<Ground>): (r: seq<Stack>)
    ensures |r| == |g| && forall i | 0 <= i < |g| :: r[i] == g[i].stack
  {
    seq(|g|, i requires 0 <= i < |g| => g[i].stack)
  }

  function Uids(g: seq<Ground>): (r: set<int>)
  {
    set i | 0 <= i < |g| :: g[i].uid
  }

  predicate DistinctUids(g: seq<Ground>)
  {
    forall i, j | 0 <= i < j < |g| :: g[i].uid != g[j].uid
  }

  ghost predicate IsLeastFree(u: int, used: set<int>)
  {
    u >= 1 && u !in used && forall v | 1 <= v < u :: v in used
  }

  lemma LeastFreeUnique(u: int, v: int, used: set<int>)
    requires IsLeastFree(u, used) && IsLeastFree(v, used)
    ensures u == v
  {
  }

  lemma {:induction false} IntervalSize(n: nat, used: set<int>)
    requires forall v | 1 <= v <= n :: v in used
    ensures |used| >= n
  {
    if n > 0 {
      IntervalSize(n - 1, used - {n});
    }
  }

  lemma UidCount(g: seq<Ground>)
    ensures |Uids(g)| <= |g|
  {
    if g != [] {
      var n := |g| - 1;
      UidCount(g[..n]);
      assert Uids(g) == Uids(g[..n]) + {g[n].uid};
    }
  }

  /** The search for a free uid stops by the number of items plus one. */
  lemma LeastFreeBound(g: seq<Ground>, u: int)
    requires u >= 1 && forall v | 1 <= v < u :: v in Uids(g)
    ensures u <= |g| + 1
  {
    IntervalSize(u - 1, Uids(g));
    UidCount(g);
  }

  /** How many ground items lie on a tile. */
  function OnTile(g: seq<Ground>, x: int, y: int): (n: nat)
  {
    if g == [] then 0 else (if g[0].x == x && g[0].y == y then 1 else 0) + OnTile(g[1..], x, y)
  }

  /** A player's drop is not stored when the tile or the map is full. */
  predicate Full(g: seq<Ground>, x: int, y: int, cfg: Config)
  {
    OnTile(g, x, y) >= cfg.maxTile || |g| >= cfg.maxMap
  }

  function Dropped(g: seq<Ground>, uid: int, id: int, amount: int, x: int, y: int): (r: seq<Ground>)
  {
    g + [Ground(Numbers.Short(uid), Stack(id, amount), x, y)]
  }

  function FindUid(g: seq<Ground>, uid: int): (i: nat)
    ensures i <= |g|
    ensures i < |g| ==> g[i].uid == uid
    ensures forall j | 0 <= j < i :: g[j].uid != uid
  {
    if g == [] || g[0].uid == uid then 0
    else
      var i := 1 + FindUid(g[1..], uid);
      assert forall j | 1 <= j < i :: g[j] == g[1..][j - 1];
      i
  }

  /** `Map::DelSomeItem`. */
  function Picked(g: seq<Ground>, uid: int, amount: int): (r: seq<Ground>)
  {
    var i := FindUid(g, uid);
    if amount < 0 || i == |g| then g
    else if amount < g[i].stack.amount then
      g[i := g[i].(stack := Stack(g[i].stack.id, g[i].stack.amount - amount))]
    else g[..i] + g[i + 1..]
  }

  /** Dropping with the least free uid keeps uids distinct as long as that fits 16 bits,
      which it does exactly until the uids 1 to 32767 are all taken. */
  lemma DropKeepsUids(g: seq<Ground>, u: int, id: int, amount: int, x: int, y: int)
    requires DistinctUids(g) && (forall i | 0 <= i < |g| :: 1 <= g[i].uid <= SHORT_MAX)
    requires IsLeastFree(u, Uids(g))
    ensures (forall i | 0 <= i < |g| + 1 :: Dropped(g, u, id, amount, x, y)[i].uid >= 1) <==> u <= SHORT_MAX
    ensures u <= SHORT_MAX ==> DistinctUids(Dropped(g, u, id, amount, x, y))
    ensures |g| < SHORT_MAX ==> u <= SHORT_MAX
  {
    var g' := Dropped(g, u, id, amount, x, y);
    assert g'[|g|].uid == Numbers.Short(u);
    LeastFreeBound(g, u);
    if u > SHORT_MAX {
      LeastFreeInShorts(g, u);
    } else {
      assert forall i | 0 <= i < |g| :: g[i].uid in Uids(g);
    }
  }

  lemma LeastFreeInShorts(g: seq<Ground>, u: int)
    requires u > SHORT_MAX && IsLeastFree(u, Uids(g)) && forall i | 0 <= i < |g| :: g[i].uid <= SHORT_MAX
    ensures u == SHORT_MAX + 1
  {
    assert SHORT_MAX + 1 !in Uids(g);
  }

  lemma PickKeepsUids(g: seq<Ground>, uid: int, amount: int)
    requires DistinctUids(g)
    ensures DistinctUids(Picked(g, uid, amount))
    ensures Uids(Picked(g, uid, amount)) <= Uids(g)
  {
  }

  lemma DroppedCounts(g: seq<Ground>, uid: int, id: int, amount: int, x: int, y: int, k: int)
    ensures Count(GroundStacks(Dropped(g, uid, id, amount, x, y)), k)
            == Count(GroundStacks(g), k) + if k == id then amount else 0
  {
    CountAppend(GroundStacks(g), Stack(id, amount), k);
    assert GroundStacks(Dropped(g, uid, id, amount, x, y)) == GroundStacks(g) + [Stack(id, amount)];
  }

  lemma PickedCounts(g: seq<Ground>, uid: int, amount: int, k: int)
    requires Good(GroundStacks(g))
    requires var i := FindUid(g, uid); i < |g| && 0 < amount <= g[i].stack.amount
    ensures Good(GroundStacks(Picked(g, uid, amount)))
    ensures Count(GroundStacks(Picked(g, uid, amount)), k)
            == Count(GroundStacks(g), k) - if k == g[FindUid(g, uid)].stack.id then amount else 0
  {
    var s, i := GroundStacks(g), FindUid(g, uid);
    var t := Stack(g[i].stack.id, g[i].stack.amount - amount);
    CountUpdate(s, i, t, k);
    if amount < g[i].stack.amount {
      assert GroundStacks(Picked(g, uid, amount)) == s[i := t];
    } else {
      assert GroundStacks(Picked(g, uid, amount)) == Without(s, i);
    }
  }
}
