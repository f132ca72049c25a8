/** The numbering of what lies on a map, over whole runs (src/map.cpp:759-772 and 2228-2381; src/npc.cpp:634-637). */
module GroundUids {
  import opened ItemStores
  import opened ItemSteps

  /** Everything that changes the list: drops of players and NPCs, taking some or all of an item, and the deletion
      of an item wherever it stands in the list, as when its time is over. */
  datatype Change =
    | Add(id: int, amount: int, x: int, y: int)
    | Take(uid: int, amount: int)
    | Delete(at: nat)

  ghost function Changed(g: seq<Ground>, change: Change): (r: seq<Ground>)
  {
    match change
    case Add(id, amount, x, y) => Dropped(g, LeastFree(g), id, amount, x, y)
    case Take(uid, amount) => Picked(g, uid, amount)
    case Delete(at) => if at < |g| then g[..at] + g[at + 1..] else g
  }

  ghost function Run(g: seq<Ground>, changes: seq<Change>): (r: seq<Ground>)
    decreases |changes|
  {
    if changes == [] then g else Run(Changed(g, changes[0]), changes[1..])
  }

  /** No item is added while 32767 lie there already. */
  ghost predicate NeverFull(g: seq<Ground>, changes: seq<Change>)
    decreases |changes|
  {
    changes == [] || ((changes[0].Add? ==> |g| < SHORT_MAX) && NeverFull(Changed(g, changes[0]), changes[1..]))
  }

  predicate Numbered(g: seq<Ground>)
  {
    DistinctUids(g) && forall i | 0 <= i < |g| :: 1 <= g[i].uid <= SHORT_MAX
  }

  lemma ChangeKeepsNumbers(g: seq<Ground>, change: Change)
    requires Numbered(g)
    ensures Numbered(Changed(g, change)) <==> change.Add? ==> |g| < SHORT_MAX
  {
    match change
    case Add(id, amount, x, y) =>
      var u := LeastFree(g);
      DropKeepsUids(g, u, id, amount, x, y);
      FullIsFull(g, u);
    case Take(uid, amount) =>
      PickKeepsUids(g, uid, amount);
    case Delete(at) =>
  }

  /** With 32767 items the uids 1 to 32767 are all taken. */
  lemma FullIsFull(g: seq<Ground>, u: int)
    requires Numbered(g) && IsLeastFree(u, Uids(g))
    ensures |g| >= SHORT_MAX ==> u > SHORT_MAX
  {
    DistinctCount(g);
    if u <= SHORT_MAX {
      WithinInterval(SHORT_MAX, Uids(g) + {u});
    }
  }

  lemma {:induction false} DistinctCount(g: seq<Ground>)
    requires DistinctUids(g)
    ensures |Uids(g)| == |g|
  {
    if g != [] {
      var n := |g| - 1;
      DistinctCount(g[..n]);
      assert Uids(g) == Uids(g[..n]) + {g[n].uid};
    }
  }

  lemma {:induction false} WithinInterval(n: nat, used: set<int>)
    requires forall v | v in used :: 1 <= v <= n
    ensures |used| <= n
  {
    if n == 0 {
      assert forall v :: v !in used;
    } else {
      WithinInterval(n - 1, used - {n});
    }
  }

  /** Whatever is dropped, taken and deleted: as long as nothing is added to a full list, every item on the map has
      a uid of its own. */
  lemma {:induction false} EveryItemHasItsUid(g: seq<Ground>, changes: seq<Change>)
    requires Numbered(g) && NeverFull(g, changes)
    ensures Numbered(Run(g, changes))
    decreases |changes|
  {
    if changes != [] {
      ChangeKeepsNumbers(g, changes[0]);
      EveryItemHasItsUid(Changed(g, changes[0]), changes[1..]);
    }
  }
}
