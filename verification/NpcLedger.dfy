/** The damage ledger of src/npc.cpp: who hit an NPC for how much, and what a logout takes back. */
module NpcLedger {
  import Numbers

  datatype Opponent = Opponent(attacker: Character, damage: int)

  // ---------------------------------------------------------------- ledgers as values

  function DamageSum(list: seq<Opponent>): (r: int)
  {
    if list == [] then 0 else DamageSum(list[..|list| - 1]) + list[|list| - 1].damage
  }

  predicate Listed(list: seq<Opponent>, c: Character)
  {
    exists i :: 0 <= i < |list| && list[i].attacker == c
  }

  predicate Once(list: seq<Opponent>)
  {
    forall i, j :: 0 <= i < j < |list| ==> list[i].attacker != list[j].attacker
  }

  /** Damages as they are kept: 32 bits, and never negative. */
  predicate Fair(list: seq<Opponent>)
  {
    forall i :: 0 <= i < |list| ==> 0 <= list[i].damage <= Numbers.INT_MAX
  }

  /** Adding `limit` to a damage, unless the sum does not come out larger. */
  function Grown(damage: int, limit: int): (r: int)
  {
    if Numbers.Plus32(damage, limit) > damage then Numbers.Plus32(damage, limit) else damage
  }

  /** For hits that are not negative the test is one for overflow. */
  lemma GrownUnlessOverflow(damage: int, limit: int)
    requires 0 <= damage <= Numbers.INT_MAX && 0 <= limit <= Numbers.INT_MAX
    ensures Grown(damage, limit) == if damage + limit <= Numbers.INT_MAX then damage + limit else damage
  {
  }

  /** `now` is `list` with the entries of `from` grown. */
  predicate Credited(list: seq<Opponent>, from: Character, limit: int, now: seq<Opponent>)
  {
    && |now| == |list|
    && forall i :: 0 <= i < |list| ==>
         now[i] == if list[i].attacker == from then Opponent(from, Grown(list[i].damage, limit)) else list[i]
  }

  /** `now` is the ledger after a hit. */
  predicate Hit(list: seq<Opponent>, from: Character, limit: int, now: seq<Opponent>)
  {
    if Listed(list, from) then Credited(list, from, limit, now) else now == list + [Opponent(from, limit)]
  }

  /** What somebody is listed with. */
  function Dealt(list: seq<Opponent>, c: Character): (r: int)
  {
    if list == [] then 0
    else if list[|list| - 1].attacker == c then list[|list| - 1].damage
    else Dealt(list[..|list| - 1], c)
  }

  lemma {:induction false} DealtBounds(list: seq<Opponent>, c: Character)
    requires Fair(list)
    ensures 0 <= Dealt(list, c) <= Numbers.INT_MAX && Dealt(list, c) <= DamageSum(list) && 0 <= DamageSum(list)
    ensures !Listed(list, c) ==> Dealt(list, c) == 0
  {
    if list != [] {
      var k := |list| - 1;
      DealtBounds(list[..k], c);
      if !Listed(list, c) {
        assert list[k].attacker != c;
        assert forall i :: 0 <= i < k ==> list[..k][i] == list[i];
      }
    }
  }

  lemma {:induction false} CreditedSum(list: seq<Opponent>, from: Character, limit: int, now: seq<Opponent>)
    requires Once(list) && Credited(list, from, limit, now)
    ensures DamageSum(now) ==
            DamageSum(list) + if Listed(list, from) then Grown(Dealt(list, from), limit) - Dealt(list, from) else 0
  {
    if list != [] {
      var k := |list| - 1;
      CreditedSum(list[..k], from, limit, now[..k]);
      hide Grown;
      if Listed(list, from) && list[k].attacker != from {
        var i :| 0 <= i < |list| && list[i].attacker == from;
        assert list[..k][i].attacker == from;
      }
    }
  }

  /** A hit leaves the total equal to the sum exactly if the total does not overflow - or the entry does as well, so
      that neither grows. */
  lemma HitKeepsSum(list: seq<Opponent>, from: Character, limit: int, now: seq<Opponent>)
    requires Once(list) && Fair(list) && DamageSum(list) <= Numbers.INT_MAX
    requires 0 <= limit <= Numbers.INT_MAX && Hit(list, from, limit, now)
    ensures Grown(DamageSum(list), limit) == DamageSum(now) <==>
            DamageSum(list) + limit <= Numbers.INT_MAX || Dealt(list, from) + limit > Numbers.INT_MAX
    ensures Grown(DamageSum(list), limit) <= Numbers.INT_MAX
  {
    DealtBounds(list, from);
    GrownUnlessOverflow(DamageSum(list), limit);
    GrownUnlessOverflow(Dealt(list, from), limit);
    if Listed(list, from) {
      CreditedSum(list, from, limit, now);
    } else {
      assert now[..|list|] == list;
    }
  }

  /** Somebody new hits for 1 where the total is the largest number: the ledger adds up to one more than the total. */
  lemma FullTotalMissesAHit(first: Character, second: Character, now: seq<Opponent>)
    requires first != second && Hit([Opponent(first, Numbers.INT_MAX)], second, 1, now)
    ensures DamageSum([Opponent(first, Numbers.INT_MAX)]) == Numbers.INT_MAX
    ensures Grown(Numbers.INT_MAX, 1) == Numbers.INT_MAX && DamageSum(now) == Numbers.INT_MAX + 1
  {
    var list := [Opponent(first, Numbers.INT_MAX)];
    assert list[..0] == [];
    assert now[..1] == list;
  }

  /** The hit is put down to the attacker, on top of what he had dealt if that fits, and to nobody else. */
  lemma HitIsDealt(list: seq<Opponent>, from: Character, limit: int, now: seq<Opponent>, c: Character)
    requires Once(list) && Fair(list) && 0 <= limit <= Numbers.INT_MAX && Hit(list, from, limit, now)
    ensures var before := Dealt(list, c);
            Dealt(now, c) == before + if c == from && before + limit <= Numbers.INT_MAX then limit else 0
  {
    DealtBounds(list, c);
    DealtBounds(list, from);
    if Listed(list, from) {
      CreditedDealt(list, from, limit, now, c);
      GrownUnlessOverflow(Dealt(list, from), limit);
    } else {
      assert now[..|list|] == list;
    }
  }

  lemma {:induction false} CreditedDealt(list: seq<Opponent>, from: Character, limit: int, now: seq<Opponent>,
                                         c: Character)
    requires Credited(list, from, limit, now)
    ensures Dealt(now, c) == if c == from && Listed(list, from) then Grown(Dealt(list, from), limit) else Dealt(list, c)
  {
    hide Grown;
    if list != [] {
      var k := |list| - 1;
      CreditedDealt(list[..k], from, limit, now[..k], c);
      if Listed(list, from) && list[k].attacker != from {
        var i :| 0 <= i < |list| && list[i].attacker == from;
        assert list[..k][i].attacker == from;
      }
    }
  }

  /** Whatever overflows, everybody stays listed once. */
  lemma HitKeepsLedger(list: seq<Opponent>, from: Character, limit: int, now: seq<Opponent>)
    requires Once(list) && Fair(list) && 0 <= limit <= Numbers.INT_MAX && Hit(list, from, limit, now)
    ensures Once(now) && Fair(now)
    ensures forall c :: Listed(now, c) <==> c == from || Listed(list, c)
  {
    if Listed(list, from) {
      CreditedListed(list, from, limit, now);
      CreditedFair(list, from, limit, now);
    } else {
      assert now[|list|].attacker == from;
      AppendedListed(list, Opponent(from, limit));
    }
  }

  lemma CreditedGrows(list: seq<Opponent>, from: Character, limit: int, now: seq<Opponent>, o: Opponent, o': Opponent)
    requires Credited(list, from, limit, now)
    requires o' == if o.attacker == from then Opponent(from, Grown(o.damage, limit)) else o
    ensures Credited(list + [o], from, limit, now + [o'])
  {
  }

  lemma CreditedFair(list: seq<Opponent>, from: Character, limit: int, now: seq<Opponent>)
    requires Once(list) && Fair(list) && 0 <= limit <= Numbers.INT_MAX && Credited(list, from, limit, now)
    ensures Fair(now) && Once(now)
  {
    forall i | 0 <= i < |list|
      ensures 0 <= now[i].damage <= Numbers.INT_MAX && now[i].attacker == list[i].attacker
    {
      GrownUnlessOverflow(list[i].damage, limit);
    }
  }

  lemma CreditedListed(list: seq<Opponent>, from: Character, limit: int, now: seq<Opponent>)
    requires Credited(list, from, limit, now)
    ensures forall c :: Listed(now, c) <==> Listed(list, c)
  {
    forall c
      ensures Listed(now, c) <==> Listed(list, c)
    {
      if Listed(now, c) {
        var i :| 0 <= i < |now| && now[i].attacker == c;
        assert list[i].attacker == c;
      }
      if Listed(list, c) {
        var i :| 0 <= i < |list| && list[i].attacker == c;
        assert now[i].attacker == c;
      }
    }
  }

  lemma AppendedListed(list: seq<Opponent>, o: Opponent)
    ensures forall c :: Listed(list + [o], c) <==> c == o.attacker || Listed(list, c)
  {
    forall c
      ensures Listed(list + [o], c) <==> c == o.attacker || Listed(list, c)
    {
      if c == o.attacker {
        assert (list + [o])[|list|].attacker == c;
      } else if Listed(list, c) {
        var i :| 0 <= i < |list| && list[i].attacker == c;
        assert (list + [o])[i].attacker == c;
      }
    }
  }

  /** `list` without its first entry for `c`. */
  function Without(list: seq<Opponent>, c: Character): (r: seq<Opponent>)
  {
    if list == [] then []
    else if list[0].attacker == c then list[1..]
    else [list[0]] + Without(list[1..], c)
  }

  lemma {:induction false} WithoutAt(list: seq<Opponent>, c: Character, k: nat)
    requires k < |list| && list[k].attacker == c && forall i :: 0 <= i < k ==> list[i].attacker != c
    ensures Without(list, c) == list[..k] + list[k + 1..]
    ensures DamageSum(Without(list, c)) == DamageSum(list) - list[k].damage
  {
    SplitSum(list[..k], list[k..]);
    SplitSum(list[..k], list[k + 1..]);
    SplitSum([list[k]], list[k + 1..]);
    assert list == list[..k] + list[k..];
    assert list[k..] == [list[k]] + list[k + 1..];
    WithoutSplits(list, c, k);
  }

  lemma {:induction false} WithoutSplits(list: seq<Opponent>, c: Character, k: nat)
    requires k < |list| && list[k].attacker == c && forall i :: 0 <= i < k ==> list[i].attacker != c
    ensures Without(list, c) == list[..k] + list[k + 1..]
  {
    if k > 0 {
      WithoutSplits(list[1..], c, k - 1);
      assert list[1..][..k - 1] == list[1..k];
      assert list[1..][k..] == list[k + 1..];
      assert [list[0]] + list[1..k] == list[..k];
    }
  }

  lemma {:induction false} SplitSum(a: seq<Opponent>, b: seq<Opponent>)
    ensures DamageSum(a + b) == DamageSum(a) + DamageSum(b)
  {
    if b == [] {
      assert a + b == a;
    } else {
      var k := |b| - 1;
      SplitSum(a, b[..k]);
      assert (a + b)[..|a| + k] == a + b[..k];
      assert (a + b)[|a| + k] == b[k];
    }
  }

  lemma {:induction false} WithoutUnlisted(list: seq<Opponent>, c: Character)
    requires !Listed(list, c)
    ensures Without(list, c) == list
  {
    if list != [] {
      assert list[0].attacker != c;
      assert !Listed(list[1..], c) by {
        assert forall i :: 0 <= i < |list[1..]| ==> list[1..][i] == list[i + 1];
      }
      WithoutUnlisted(list[1..], c);
    }
  }

  /** Forgetting somebody who is listed once leaves exactly the others. */
  lemma WithoutForgets(list: seq<Opponent>, c: Character)
    requires Once(list)
    ensures Once(Without(list, c)) && !Listed(Without(list, c), c)
    ensures forall d :: d != c ==> (Listed(Without(list, c), d) <==> Listed(list, d))
  {
    if Listed(list, c) {
      var k :| 0 <= k < |list| && list[k].attacker == c;
      WithoutSplits(list, c, k);
      hide *;
      CutAt(list, k);
      OthersStay(list, c, k, list[..k] + list[k + 1..]);
    } else {
      WithoutUnlisted(list, c);
    }
  }

  lemma CutAt(list: seq<Opponent>, k: nat)
    requires k < |list|
    ensures var r := list[..k] + list[k + 1..];
            |r| == |list| - 1 && forall i :: 0 <= i < |r| ==> r[i] == list[if i < k then i else i + 1]
  {
  }

  /** A total less what somebody dealt, in 32 bits. */
  function Less(total: int, list: seq<Opponent>, c: Character): (r: int)
    ensures Int32(r)
  {
    Numbers.Plus32(total, -Dealt(list, c))
  }

  predicate Int32(total: int)
  {
    -Numbers.INT_MAX - 1 <= total <= Numbers.INT_MAX
  }

  lemma ListedSomewhere(list: seq<Opponent>, c: Character)
    requires Listed(list, c)
    ensures exists i :: 0 <= i < |list| && list[i].attacker == c
  {
  }

  lemma ListedFirst(list: seq<Opponent>, c: Character) returns (k: nat)
    requires Listed(list, c)
    ensures k < |list| && list[k].attacker == c && forall i :: 0 <= i < k ==> list[i].attacker != c
  {
    k := 0;
    while list[k].attacker != c
      invariant k < |list| && forall i :: 0 <= i < k ==> list[i].attacker != c
      decreases |list| - k
    {
      k := k + 1;
    }
  }

  lemma NobodyListed()
    ensures Once([]) && Fair([])
  {
  }

  lemma NeverListed(list: seq<Opponent>, c: Character)
    requires forall k :: 0 <= k < |list| ==> list[k].attacker != c
    ensures !Listed(list, c)
  {
  }

  lemma GrownFits(total: int, limit: int)
    requires Int32(total)
    ensures Int32(Grown(total, limit))
  {
  }

  lemma ForgottenTwice(total: int, list: seq<Opponent>, c: Character)
    requires Once(list) && Fair(list) && Int32(total)
    ensures Without(Without(list, c), c) == Without(list, c)
    ensures Less(total, Without(list, c), c) == total
  {
    WithoutForgets(list, c);
    WithoutFair(list, c);
    Unlisted(total, Without(list, c), c);
  }

  lemma Unlisted(total: int, list: seq<Opponent>, c: Character)
    requires !Listed(list, c) && Fair(list) && Int32(total)
    ensures Without(list, c) == list && Less(total, list, c) == total
  {
    WithoutUnlisted(list, c);
    DealtBounds(list, c);
  }

  lemma {:induction false} DealtAt(list: seq<Opponent>, c: Character, k: nat)
    requires Once(list) && k < |list| && list[k].attacker == c
    ensures Dealt(list, c) == list[k].damage
  {
    if k < |list| - 1 {
      DealtAt(list[..|list| - 1], c, k);
    }
  }

  /** Forgetting somebody keeps, modulo 2^32, what total and sum differ by - so a total that adds up goes on adding
      up, and one that does not is only put right by clearing the ledger. */
  lemma ForgettingKeepsDrift(total: int, list: seq<Opponent>, c: Character)
    requires Once(list) && Fair(list)
    ensures ((Less(total, list, c) - DamageSum(Without(list, c))) - (total - DamageSum(list))) % 0x1_0000_0000 == 0
    ensures DamageSum(list) <= Numbers.INT_MAX && Int32(total) ==>
              (Less(total, list, c) == DamageSum(Without(list, c)) <==> total == DamageSum(list))
    ensures DamageSum(Without(list, c)) <= DamageSum(list)
  {
    hide DamageSum, Dealt, Without, Listed, Fair, Once, Numbers.Plus32, Int32;
    WithoutFair(list, c);
    DealtBounds(list, c);
    if Listed(list, c) {
      var k := ListedFirst(list, c);
      DealtAt(list, c, k);
      WithoutAt(list, c, k);
    } else {
      WithoutUnlisted(list, c);
    }
    DriftModulo(total, Dealt(list, c), DamageSum(list));
  }

  lemma DriftModulo(total: int, dealt: int, sum: int)
    requires 0 <= dealt <= sum
    ensures ((Numbers.Plus32(total, -dealt) - (sum - dealt)) - (total - sum)) % 0x1_0000_0000 == 0
    ensures sum <= Numbers.INT_MAX && Int32(total) ==>
              (Numbers.Plus32(total, -dealt) == sum - dealt <==> total == sum)
  {
  }

  lemma {:induction false} WithoutFair(list: seq<Opponent>, c: Character)
    requires Fair(list)
    ensures Fair(Without(list, c)) && DamageSum(Without(list, c)) <= DamageSum(list)
  {
    if list != [] {
      if list[0].attacker != c {
        WithoutFair(list[1..], c);
        SplitSum([list[0]], Without(list[1..], c));
      }
      SplitSum([list[0]], list[1..]);
      assert list == [list[0]] + list[1..];
    }
  }

  lemma OthersStay(list: seq<Opponent>, c: Character, k: nat, r: seq<Opponent>)
    requires Once(list) && k < |list| && list[k].attacker == c && |r| == |list| - 1
    requires forall i :: 0 <= i < |r| ==> r[i] == list[if i < k then i else i + 1]
    ensures Once(r) && !Listed(r, c)
    ensures forall d :: d != c ==> (Listed(r, d) <==> Listed(list, d))
  {
    forall d | d != c && Listed(list, d)
      ensures Listed(r, d)
    {
      var i :| 0 <= i < |list| && list[i].attacker == d;
      assert r[if i < k then i else i - 1].attacker == d;
    }
  }

  /** All occurrences of an NPC erased from a character's list. */
  function Erased(npcs: seq<Npc>, npc: Npc): (r: seq<Npc>)
    ensures npc !in r
    ensures forall n | n in r :: n in npcs
    ensures forall n | n in npcs && n != npc :: n in r
  {
    if npcs == [] then []
    else if npcs[0] == npc then Erased(npcs[1..], npc)
    else [npcs[0]] + Erased(npcs[1..], npc)
  }

  // ---------------------------------------------------------------- the objects

  class Character {
    var online: bool
    var unregister_npc: seq<Npc>

    constructor ()
      ensures online && unregister_npc == []
    {
      online := true;
      unregister_npc := [];
    }

    /** Logging out takes the character, and what he dealt, out of every ledger. */
    method Logout(ghost npcs: set<Npc>, ghost characters: set<Character>)
      requires Tidy(npcs, characters) && this in characters
      modifies this`online, npcs
      ensures !online && Tidy(npcs, characters)
      ensures forall n :: n in npcs ==> !Listed(n.damagelist, this) && n.hp == old(n.hp) && n.alive == old(n.alive)
      ensures forall n :: n in npcs ==>
                && n.damagelist == Without(old(n.damagelist), this)
                && n.totaldamage == Less(old(n.totaldamage), old(n.damagelist), this)
      ensures forall n :: n in npcs && old(Adds(n)) ==> Adds(n)
    {
      hide *;
      if online {
        LeaveAllLedgers(npcs, characters);
        online := false;
        StillTidy(npcs, characters, this);
      } else {
        NobodyOffline(npcs, characters, this);
      }
    }

    method LeaveAllLedgers(ghost npcs: set<Npc>, ghost characters: set<Character>)
      requires Tidy(npcs, characters) && this in characters && online
      modifies npcs
      ensures forall n :: n in npcs ==> n.hp == old(n.hp) && n.alive == old(n.alive) && Kept(n)
      ensures forall n :: n in npcs ==>
                && n.damagelist == Without(old(n.damagelist), this)
                && n.totaldamage == Less(old(n.totaldamage), old(n.damagelist), this)
      ensures forall n :: n in npcs ==> !Listed(n.damagelist, this)
      ensures forall n :: n in npcs && old(Adds(n)) ==> Adds(n)
      ensures Linked(npcs, characters - {this})
    {
      hide Without, DamageSum, Less, Once, Fair, Listed;
      forall n | n in npcs && Listed(n.damagelist, this)
        ensures n in unregister_npc
      {
        ListedSomewhere(n.damagelist, this);
      }
      LeaveEach(npcs);
      hide Adds, Kept;
      forall n, d | n in npcs && Listed(old(n.damagelist), d)
        ensures d in characters && d.online && n in d.unregister_npc
      {
        ListedSomewhere(old(n.damagelist), d);
      }
    }

    method LeaveEach(ghost npcs: set<Npc>)
      requires forall n :: n in npcs ==> Kept(n) && (Listed(n.damagelist, this) ==> n in unregister_npc)
      requires forall n :: n in unregister_npc ==> n in npcs
      modifies npcs
      ensures forall n :: n in npcs ==> n.hp == old(n.hp) && n.alive == old(n.alive) && Kept(n)
      ensures forall n :: n in npcs ==>
                && n.damagelist == Without(old(n.damagelist), this)
                && n.totaldamage == Less(old(n.totaldamage), old(n.damagelist), this)
      ensures forall n :: n in npcs ==> !Listed(n.damagelist, this) && (old(Adds(n)) ==> Adds(n))
      ensures forall n, i :: n in npcs && 0 <= i < |n.damagelist| ==>
                n.damagelist[i].attacker != this && Listed(old(n.damagelist), n.damagelist[i].attacker)
      ensures forall n, d :: n in npcs && d != this && Listed(old(n.damagelist), d) ==> Listed(n.damagelist, d)
    {
      hide Without, DamageSum, Once, Fair, Less, Listed;
      LeaveLedgers(npcs);
      forall n | n in npcs
        ensures n.damagelist == Without(old(n.damagelist), this)
        ensures n.totaldamage == Less(old(n.totaldamage), old(n.damagelist), this)
        ensures !Listed(n.damagelist, this) && (old(Adds(n)) ==> Adds(n))
        ensures forall i :: 0 <= i < |n.damagelist| ==>
                  n.damagelist[i].attacker != this && Listed(old(n.damagelist), n.damagelist[i].attacker)
        ensures forall d :: d != this && Listed(old(n.damagelist), d) ==> Listed(n.damagelist, d)
      {
        if n !in unregister_npc {
          Unlisted(n.totaldamage, n.damagelist, this);
        }
        WithoutForgets(old(n.damagelist), this);
        ForgettingKeepsDrift(old(n.totaldamage), old(n.damagelist), this);
        StillNamed(old(n.damagelist), n.damagelist, this);
      }
    }

    method LeaveLedgers(ghost npcs: set<Npc>)
      requires forall n :: n in npcs ==> Kept(n)
      requires forall n :: n in unregister_npc ==> n in npcs
      modifies npcs
      ensures forall n :: n in npcs ==> Kept(n) && n.hp == old(n.hp) && n.alive == old(n.alive)
      ensures forall n :: n in npcs && n in unregister_npc ==>
                && n.damagelist == Without(old(n.damagelist), this)
                && n.totaldamage == Less(old(n.totaldamage), old(n.damagelist), this)
      ensures forall n :: n in npcs && n !in unregister_npc ==>
                n.damagelist == old(n.damagelist) && n.totaldamage == old(n.totaldamage)
    {
      hide Without, Listed, Once, Fair, Less;
      var i := 0;
      while i < |unregister_npc|
        invariant 0 <= i <= |unregister_npc|
        invariant forall n :: n in npcs && n in unregister_npc[..i] ==>
                    && n.damagelist == Without(old(n.damagelist), this)
                    && n.totaldamage == Less(old(n.totaldamage), old(n.damagelist), this)
        invariant forall n :: n in npcs && n !in unregister_npc[..i] ==>
                    n.damagelist == old(n.damagelist) && n.totaldamage == old(n.totaldamage)
        invariant forall n :: n in npcs ==> Kept(n) && n.hp == old(n.hp) && n.alive == old(n.alive)
      {
        var npc := unregister_npc[i];
        ForgottenTwice(npc.totaldamage, old(npc.damagelist), this);
        npc.Forget(this);
        i := i + 1;
      }
      assert unregister_npc[..i] == unregister_npc;
    }
  }

  /** Ledgers are kept in order, and ledgers and lists name each other. This holds whatever overflows. */
  ghost predicate Tidy(npcs: set<Npc>, characters: set<Character>)
    reads npcs, characters
  {
    && (forall n :: n in npcs ==> Kept(n))
    && Linked(npcs, characters)
  }

  /** Everybody is listed once, with a damage that is not negative. */
  ghost predicate Kept(n: Npc)
    reads n
  {
    Once(n.damagelist) && Fair(n.damagelist) && Int32(n.totaldamage)
  }

  /** The total is the sum of the ledger. */
  ghost predicate Adds(n: Npc)
    reads n
  {
    n.totaldamage == DamageSum(n.damagelist) <= Numbers.INT_MAX
  }

  /** Whoever a ledger names is online and has the NPC on his list, and somebody online has nothing else there. */
  ghost predicate Linked(npcs: set<Npc>, characters: set<Character>)
    reads npcs, characters
  {
    && (forall n, i :: n in npcs && 0 <= i < |n.damagelist| ==>
          var c := n.damagelist[i].attacker;
          c in characters && c.online && n in c.unregister_npc)
    && (forall c, n :: c in characters && c.online && n in c.unregister_npc ==> n in npcs && Listed(n.damagelist, c))
  }

  /** Somebody offline whom no ledger names belongs to a tidy world. */
  lemma StillTidy(npcs: set<Npc>, characters: set<Character>, c: Character)
    requires (forall n :: n in npcs ==> Kept(n)) && Linked(npcs, characters - {c}) && !c.online
    ensures Tidy(npcs, characters)
  {
  }

  /** So do an NPC that has not been hit and a character who has hit nobody. */
  lemma NewcomersAreTidy(npcs: set<Npc>, characters: set<Character>, n: Npc, c: Character)
    requires Tidy(npcs, characters) && n.damagelist == [] && n.totaldamage == 0 && c.unregister_npc == []
    ensures Tidy(npcs + {n}, characters + {c}) && Adds(n)
  {
  }

  class Map {
    var npcs: seq<Npc>

    constructor ()
      ensures npcs == []
    {
      npcs := [];
    }
  }

  class Npc {
    const area: Map
    /** Of type Passive or Aggressive. */
    const fights: bool
    const boss: bool
    const child: bool
    const temporary: bool
    var hp: int
    var alive: bool
    var totaldamage: int
    var damagelist: seq<Opponent>

    constructor (area: Map, hp: int, fights: bool, boss: bool, child: bool, temporary: bool)
      ensures this.area == area && this.hp == hp && alive && totaldamage == 0 && damagelist == []
      ensures this.fights == fights && this.boss == boss && this.child == child && this.temporary == temporary
    {
      this.area, this.fights, this.boss, this.child, this.temporary := area, fights, boss, child, temporary;
      this.hp, alive, totaldamage, damagelist := hp, true, 0, [];
    }

    /** The total of a hit fits 32 bits, or neither total nor entry grows. */
    predicate Bears(from: Character, limitamount: int)
      reads this
    {
      totaldamage + limitamount <= Numbers.INT_MAX || Dealt(damagelist, from) + limitamount > Numbers.INT_MAX
    }

    /** The bookkeeping half of Damage. */
    method Enter(from: Character, limitamount: int)
      requires Once(damagelist)
      modifies this`totaldamage, this`damagelist, from`unregister_npc
      ensures totaldamage == Grown(old(totaldamage), limitamount)
      ensures Hit(old(damagelist), from, limitamount, damagelist)
      ensures from.unregister_npc ==
              old(from.unregister_npc) + if Listed(old(damagelist), from) then [] else [this]
    {
      hide Numbers.Plus32;
      if Numbers.Plus32(totaldamage, limitamount) > totaldamage {
        totaldamage := Numbers.Plus32(totaldamage, limitamount);
      }
      var found := false;
      ghost var was := damagelist;
      var i := 0;
      while i < |damagelist|
        invariant 0 <= i <= |was| == |damagelist|
        invariant found <==> exists k :: 0 <= k < i && was[k].attacker == from
        invariant Credited(was[..i], from, limitamount, damagelist[..i])
        invariant damagelist[i..] == was[i..]
        invariant from.unregister_npc == old(from.unregister_npc)
        invariant totaldamage == Grown(old(totaldamage), limitamount)
      {
        ghost var before := damagelist;
        assert damagelist[i] == was[i..][0];
        if damagelist[i].attacker == from {
          found := true;
          var damage := damagelist[i].damage;
          if Numbers.Plus32(damage, limitamount) > damage {
            damagelist := damagelist[i := Opponent(from, Numbers.Plus32(damage, limitamount))];
          }
        }
        assert damagelist[..i] == before[..i];
        assert damagelist[i + 1..] == was[i..][1..];
        CreditedGrows(was[..i], from, limitamount, before[..i], was[i], damagelist[i]);
        assert was[..i + 1] == was[..i] + [was[i]] && damagelist[..i + 1] == before[..i] + [damagelist[i]];
        i := i + 1;
      }
      assert damagelist[..|was|] == damagelist && was[..|was|] == was;
      if !found {
        from.unregister_npc := from.unregister_npc + [this];
        assert damagelist == was;
        damagelist := damagelist + [Opponent(from, limitamount)];
      }
    }

    /** The loop of Logout over one ledger: the first entry of `c` goes, and its damage with it. */
    method Forget(c: Character)
      requires Kept(this)
      modifies this`totaldamage, this`damagelist
      ensures damagelist == Without(old(damagelist), c)
      ensures totaldamage == Less(old(totaldamage), old(damagelist), c)
      ensures Kept(this)
    {
      hide Numbers.Plus32, Listed;
      WithoutForgets(damagelist, c);
      WithoutFair(damagelist, c);
      var i := 0;
      while i < |damagelist|
        invariant 0 <= i <= |damagelist|
        invariant forall k :: 0 <= k < i ==> damagelist[k].attacker != c
        invariant damagelist == old(damagelist) && totaldamage == old(totaldamage)
      {
        if damagelist[i].attacker == c {
          WithoutSplits(damagelist, c, i);
          DealtAt(damagelist, c, i);
          totaldamage := Numbers.Plus32(totaldamage, -damagelist[i].damage);
          damagelist := damagelist[..i] + damagelist[i + 1..];
          return;
        }
        i := i + 1;
      }
      NeverListed(damagelist, c);
      Unlisted(totaldamage, damagelist, c);
    }

    /** A hit entered in a tidy world. */
    method EnterTidy(from: Character, limitamount: int, ghost npcs: set<Npc>, ghost characters: set<Character>)
      requires Tidy(npcs, characters) && this in npcs && from in characters && from.online
      requires 0 <= limitamount <= Numbers.INT_MAX
      modifies this`totaldamage, this`damagelist, from`unregister_npc
      ensures Hit(old(damagelist), from, limitamount, damagelist)
      ensures totaldamage == Grown(old(totaldamage), limitamount)
      ensures Tidy(npcs, characters)
      ensures old(Adds(this)) ==> (Adds(this) <==> old(Bears(from, limitamount)))
    {
      hide DamageSum, Hit, Once, Grown, Fair, Dealt;
      Enter(from, limitamount);
      HitKeepsLedger(old(damagelist), from, limitamount, damagelist);
      GrownFits(old(totaldamage), limitamount);
      if old(Adds(this)) {
        HitKeepsSum(old(damagelist), from, limitamount, damagelist);
      }
      hide Adds;
      forall i | 0 <= i < |damagelist|
        ensures var c := damagelist[i].attacker;
                c in characters && c.online && this in c.unregister_npc
      {
        var c := damagelist[i].attacker;
        assert Listed(damagelist, c);
        if c != from {
          var k :| 0 <= k < |old(damagelist)| && old(damagelist)[k].attacker == c;
        } else if Listed(old(damagelist), c) {
          var k :| 0 <= k < |old(damagelist)| && old(damagelist)[k].attacker == c;
        }
      }
    }

    /** The loop that Killed, Die, the destructor and the unloading of a map share. */
    method EraseFromAttackers(ghost characters: set<Character>)
      requires forall i :: 0 <= i < |damagelist| ==> damagelist[i].attacker in characters
      modifies characters`unregister_npc
      ensures forall c :: c in characters ==>
                c.unregister_npc == old(c.unregister_npc) || c.unregister_npc == Erased(old(c.unregister_npc), this)
      ensures forall k :: 0 <= k < |damagelist| ==> this !in damagelist[k].attacker.unregister_npc
    {
      var i := 0;
      while i < |damagelist|
        invariant 0 <= i <= |damagelist|
        invariant forall c :: c in characters ==>
                    c.unregister_npc == old(c.unregister_npc) || c.unregister_npc == Erased(old(c.unregister_npc), this)
        invariant forall k :: 0 <= k < i ==> this !in damagelist[k].attacker.unregister_npc
      {
        var attacker := damagelist[i].attacker;
        ErasedTwice(old(attacker.unregister_npc), this);
        attacker.unregister_npc := Erased(attacker.unregister_npc, this);
        i := i + 1;
      }
    }

    method ClearLedger(ghost npcs: set<Npc>, ghost characters: set<Character>)
      requires Tidy(npcs, characters) && this in npcs
      modifies this`totaldamage, this`damagelist, characters`unregister_npc
      ensures damagelist == [] && totaldamage == 0
      ensures Tidy(npcs, characters)
      ensures forall c :: c in characters && c.online ==> this !in c.unregister_npc
    {
      hide Listed, Once, Fair;
      EraseFromAttackers(characters);
      hide Erased;
      forall c | c in characters && c.online
        ensures this !in c.unregister_npc
      {
        if this in old(c.unregister_npc) {
          ListedSomewhere(damagelist, c);
        }
      }
      NobodyListed();
      damagelist := [];
      totaldamage := 0;
    }

    /** What both kinds of death begin with. */
    method Perish(ghost npcs: set<Npc>, ghost characters: set<Character>)
      requires Tidy(npcs, characters) && this in npcs
      modifies this`alive, this`totaldamage, this`damagelist, characters`unregister_npc
      ensures Gone() && Tidy(npcs, characters)
    {
      hide Listed, Once, Fair;
      alive := false;
      ClearLedger(npcs, characters);
    }

    /** A death without a killer. A temporary NPC leaves its map and is deleted. */
    method Die(ghost npcs: set<Npc>, ghost characters: set<Character>)
      requires Tidy(npcs, characters) && this in npcs
      modifies this, characters`unregister_npc, area
      ensures !alive && hp == old(hp)
      ensures damagelist == if old(alive) then [] else old(damagelist)
      ensures totaldamage == if old(alive) then 0 else old(totaldamage)
      ensures area.npcs == if old(alive) && temporary then Erased(old(area.npcs), this) else old(area.npcs)
      ensures Tidy(if old(alive) && temporary then npcs - {this} else npcs, characters)
    {
      if !alive {
        return;
      }
      Perish(npcs, characters);
      if temporary {
        area.npcs := Erased(area.npcs, this);
        Destroy(npcs, characters);
      }
    }

    /** The living children a boss takes along when it dies. */
    ghost function Children(): (r: set<Npc>)
      reads this, area, area.npcs
    {
      set n | n in area.npcs && n.child && !n.boss && n.alive && n != this
    }

    /** Who is deleted when this NPC is killed. */
    ghost function Doomed(): (r: set<Npc>)
      reads this, area, area.npcs
    {
      (if temporary then {this} else {}) + if boss then set n | n in Children() && n.temporary else {}
    }

    /** Dead, and nothing is left of the ledger. */
    ghost predicate Gone()
      reads this
    {
      !alive && damagelist == [] && totaldamage == 0
    }

    /** The bookkeeping of Killed: the ledger goes, a boss takes the living children along,
        and everybody temporary among the dead leaves the map. */
    method Killed(ghost npcs: set<Npc>, ghost characters: set<Character>)
      requires Tidy(npcs, characters) && this in npcs
      requires Roster(area.npcs, npcs) && forall n :: n in area.npcs ==> n.area == area
      modifies npcs, characters`unregister_npc, area
      ensures forall n :: n in npcs ==> n.hp == old(n.hp)
      ensures forall n :: n in npcs ==>
                if n == this || (boss && n.child && !n.boss && old(n.alive) && n in old(area.npcs))
                then
                  && !n.alive && n.damagelist == [] && n.totaldamage == 0
                  && (n in area.npcs <==> n in old(area.npcs) && !n.temporary)
                else
                  && n.alive == old(n.alive) && n.damagelist == old(n.damagelist) && n.totaldamage == old(n.totaldamage)
                  && (n in area.npcs <==> n in old(area.npcs))
      ensures area.npcs == Remaining(old(area.npcs), old(Doomed()))
      ensures Tidy(npcs - old(Doomed()), characters)
    {
      hide Tidy, Remaining, Erased;
      ghost var children, doomed := Children(), Doomed();
      Perish(npcs, characters);
      assert Children() == children;
      ghost var left := npcs;
      RemainingAll(area.npcs);
      assert npcs - npcs == {};
      hide Children;
      if boss {
        left := KillChildren(npcs, characters);
      }
      ghost var gone := if boss then set n | n in children && n.temporary else {};
      assert npcs - left == gone;
      left := LeaveMap(old(area.npcs), npcs, left, characters);
      assert npcs - left == doomed;
      assert left == npcs - doomed;
      RemainingMember(old(area.npcs), doomed);
      DoomedAre(children, doomed);
    }

    lemma DoomedAre(children: set<Npc>, doomed: set<Npc>)
      requires doomed == (if temporary then {this} else {}) + if boss then set n | n in children && n.temporary else {}
      ensures forall n :: n in doomed <==> n.temporary && (n == this || (boss && n in children))
    {
    }

    /** The end of Killed: somebody temporary is taken off the map and deleted. */
    method LeaveMap(ghost list: seq<Npc>, ghost npcs: set<Npc>, ghost left: set<Npc>, ghost characters: set<Character>)
      returns (ghost after: set<Npc>)
      requires Tidy(left, characters) && this in left && left <= npcs && damagelist == []
      requires area.npcs == Remaining(list, npcs - left)
      modifies area
      ensures after == (if temporary then left - {this} else left)
      ensures Tidy(after, characters) && area.npcs == Remaining(list, npcs - after)
    {
      after := left;
      if temporary {
        RemainingErased(list, npcs - left, this);
        area.npcs := Erased(area.npcs, this);
        NothingOwed(left, characters, this);
        after := left - {this};
        assert npcs - after == npcs - left + {this};
      }
    }

    /** Collects the living children of a boss that has just died, then lets them die. */
    method KillChildren(ghost npcs: set<Npc>, ghost characters: set<Character>) returns (ghost left: set<Npc>)
      requires Tidy(npcs, characters) && this in npcs && Gone()
      requires Roster(area.npcs, npcs) && forall n :: n in area.npcs ==> n.area == area
      modifies npcs, characters`unregister_npc, area
      ensures left == npcs - set n | n in old(Children()) && n.temporary
      ensures Tidy(left, characters)
      ensures forall n :: n in npcs ==>
                && n.hp == old(n.hp)
                && if n in old(Children()) then n.Gone()
                   else
                     && n.alive == old(n.alive) && n.damagelist == old(n.damagelist)
                     && n.totaldamage == old(n.totaldamage)
      ensures area.npcs == Remaining(old(area.npcs), npcs - left)
    {
      hide Tidy, Remaining;
      var child_npcs := CollectChildren();
      left := DieAll(child_npcs, npcs, characters);
    }

    /** The second loop. */
    method DieAll(child_npcs: seq<Npc>, ghost npcs: set<Npc>, ghost characters: set<Character>)
      returns (ghost left: set<Npc>)
      requires Tidy(npcs, characters) && this in npcs && Roster(child_npcs, npcs)
      requires forall k :: 0 <= k < |child_npcs| ==> child_npcs[k].alive && child_npcs[k].area == area
      modifies npcs, characters`unregister_npc, area
      ensures left == npcs - Temporaries(child_npcs)
      ensures Tidy(left, characters)
      ensures forall n :: n in npcs ==>
                && n.hp == old(n.hp)
                && if n in child_npcs then n.Gone()
                   else
                     && n.alive == old(n.alive) && n.damagelist == old(n.damagelist)
                     && n.totaldamage == old(n.totaldamage)
      ensures area.npcs == Remaining(old(area.npcs), npcs - left)
    {
      left := npcs;
      RemainingAll(area.npcs);
      assert npcs - npcs == {};
      assert Temporaries(child_npcs[..0]) == {};
      hide Remaining, Tidy, Temporaries;
      for i := 0 to |child_npcs|
        invariant left == npcs - Temporaries(child_npcs[..i])
        invariant Tidy(left, characters)
        invariant forall n :: n in npcs ==>
                    && n.hp == old(n.hp)
                    && if n in child_npcs[..i] then n.Gone()
                       else
                         && n.alive == old(n.alive) && n.damagelist == old(n.damagelist)
                         && n.totaldamage == old(n.totaldamage)
        invariant area.npcs == Remaining(old(area.npcs), npcs - left)
      {
        var npc := child_npcs[i];
        OneMoreTemporary(child_npcs, i);
        assert npc !in child_npcs[..i];
        assert child_npcs[..i + 1] == child_npcs[..i] + [npc];
        left := npc.DieInTurn(old(area.npcs), npcs, left, characters);
      }
      assert child_npcs[..|child_npcs|] == child_npcs;
    }

    static ghost function Temporaries(list: seq<Npc>): (r: set<Npc>)
    {
      set n | n in list && n.temporary
    }

    static lemma OneMoreTemporary(list: seq<Npc>, i: nat)
      requires i < |list| && forall j, k :: 0 <= j < k < |list| ==> list[j] != list[k]
      ensures list[i] !in Temporaries(list[..i])
      ensures Temporaries(list[..i + 1]) == Temporaries(list[..i]) + if list[i].temporary then {list[i]} else {}
    {
      assert list[..i + 1] == list[..i] + [list[i]];
    }

    /** A death among several, with the account of who is left and still listed. */
    method DieInTurn(ghost list: seq<Npc>, ghost npcs: set<Npc>, ghost left: set<Npc>, ghost characters: set<Character>)
      returns (ghost after: set<Npc>)
      requires Tidy(left, characters) && this in left && left <= npcs && alive
      requires area.npcs == Remaining(list, npcs - left)
      modifies this, characters`unregister_npc, area
      ensures Gone() && hp == old(hp)
      ensures after == (if temporary then left - {this} else left)
      ensures Tidy(after, characters) && area.npcs == Remaining(list, npcs - after)
    {
      hide Tidy, Remaining, Erased;
      if temporary {
        RemainingErased(list, npcs - left, this);
        assert npcs - (left - {this}) == npcs - left + {this};
      }
      Die(left, characters);
      after := if temporary then left - {this} else left;
    }

    /** The first loop. */
    method CollectChildren() returns (child_npcs: seq<Npc>)
      requires !alive && forall i, j :: 0 <= i < j < |area.npcs| ==> area.npcs[i] != area.npcs[j]
      ensures forall n :: n in child_npcs <==> n in Children()
      ensures forall i, j :: 0 <= i < j < |child_npcs| ==> child_npcs[i] != child_npcs[j]
      ensures forall k :: 0 <= k < |child_npcs| ==>
                child_npcs[k].alive && child_npcs[k] in area.npcs && child_npcs[k] != this
    {
      child_npcs := [];
      for i := 0 to |area.npcs|
        invariant forall n :: n in child_npcs <==> n in area.npcs[..i] && n.child && !n.boss && n.alive
        invariant forall i, j :: 0 <= i < j < |child_npcs| ==> child_npcs[i] != child_npcs[j]
        invariant forall k :: 0 <= k < |child_npcs| ==>
                    child_npcs[k].alive && child_npcs[k] in area.npcs && child_npcs[k] != this
      {
        var npc := area.npcs[i];
        if npc.child && !npc.boss && npc.alive {
          child_npcs := child_npcs + [npc];
        }
      }
    }

    /** The destructor, for an NPC that may still have a ledger. */
    method Destroy(ghost npcs: set<Npc>, ghost characters: set<Character>)
      requires Tidy(npcs, characters) && this in npcs
      modifies this`totaldamage, this`damagelist, characters`unregister_npc
      ensures Tidy(npcs - {this}, characters) && damagelist == [] && totaldamage == 0
    {
      ClearLedger(npcs, characters);
      NothingOwed(npcs, characters, this);
    }

    /** A hit keeps everything tidy whatever overflows. The total of a living NPC stays the sum of its ledger exactly
        as long as it fits 32 bits. */
    method Damage(from: Character, amount: int, limitDamage: bool,
                  ghost npcs: set<Npc>, ghost characters: set<Character>)
      requires Tidy(npcs, characters) && this in npcs && from in characters && from.online
      requires 0 <= hp <= Numbers.INT_MAX && 0 <= amount <= Numbers.INT_MAX
      requires Roster(area.npcs, npcs) && forall n :: n in area.npcs ==> n.area == area
      modifies npcs, characters`unregister_npc, area
      ensures hp == if !fights then 0 else old(hp) - (if limitDamage then Min(old(hp), amount) else amount)
      ensures hp > 0 ==>
                && Hit(old(damagelist), from, Min(old(hp), amount), damagelist) && alive == old(alive)
                && totaldamage == Grown(old(totaldamage), Min(old(hp), amount))
      ensures hp > 0 && old(Adds(this)) ==> (Adds(this) <==> old(Bears(from, Min(hp, amount))))
      ensures forall n :: n in npcs && n != this ==> n.hp == old(n.hp)
      ensures forall n :: n in npcs && (hp <= 0 || n != this) ==>
                if hp <= 0 && (n == this || (boss && n.child && !n.boss && old(n.alive) && n in old(area.npcs)))
                then
                  && !n.alive && n.damagelist == [] && n.totaldamage == 0
                  && (n in area.npcs <==> n in old(area.npcs) && !n.temporary)
                else
                  && n.alive == old(n.alive) && n.damagelist == old(n.damagelist) && n.totaldamage == old(n.totaldamage)
                  && (n in area.npcs <==> n in old(area.npcs))
      ensures area.npcs == if hp > 0 then old(area.npcs) else Remaining(old(area.npcs), old(Doomed()))
      ensures Tidy(if hp > 0 then npcs else npcs - old(Doomed()), characters)
    {
      hide Hit, Listed, Grown, Remaining, DamageSum, Dealt;
      var limitamount := Min(hp, amount);
      var dealt := if limitDamage then limitamount else amount;
      ghost var doomed, adds, bears := Doomed(), Adds(this), Bears(from, limitamount);
      hp := if fights then hp - dealt else 0;
      assert Tidy(npcs, characters) && Adds(this) == adds && Bears(from, limitamount) == bears;
      hide Tidy, Adds, Bears;
      EnterTidy(from, limitamount, npcs, characters);
      assert Doomed() == doomed;
      hide Children, Doomed, Linked, Kept;
      if hp <= 0 {
        Killed(npcs, characters);
      }
    }

    /** How characters hit: with a weapon or a spell, the rolled amount is never taken below 0, and only who lives
        can be hit. */
    method Struck(from: Character, rolled: int, limitDamage: bool,
                  ghost npcs: set<Npc>, ghost characters: set<Character>)
      requires Tidy(npcs, characters) && this in npcs && from in characters && from.online
      requires alive && 0 <= hp <= Numbers.INT_MAX && rolled <= Numbers.INT_MAX
      requires Roster(area.npcs, npcs) && forall n :: n in area.npcs ==> n.area == area
      modifies npcs, characters`unregister_npc, area
      ensures Tidy(if hp > 0 then npcs else npcs - old(Doomed()), characters)
      ensures hp == if !fights then 0
                    else old(hp) - if limitDamage && rolled > old(hp) then old(hp) else if rolled > 0 then rolled else 0
      ensures hp > 0 && old(Adds(this)) ==> (Adds(this) <==> old(Bears(from, Min(hp, Max(rolled, 0)))))
      ensures hp > 0 ==> Hit(old(damagelist), from, Min(old(hp), Max(rolled, 0)), damagelist)
      ensures forall n :: n in npcs && (hp <= 0 || n != this) ==>
                if hp <= 0 && (n == this || (boss && n.child && !n.boss && old(n.alive) && n in old(area.npcs)))
                then
                  && !n.alive && n.damagelist == [] && n.totaldamage == 0
                  && (n in area.npcs <==> n in old(area.npcs) && !n.temporary)
                else
                  && n.alive == old(n.alive) && n.damagelist == old(n.damagelist) && n.totaldamage == old(n.totaldamage)
                  && (n in area.npcs <==> n in old(area.npcs))
    {
      hide Hit, Tidy, Adds, Bears, Remaining;
      var amount := Max(rolled, 0);
      if limitDamage {
        amount := Min(amount, hp);
      }
      Damage(from, amount, limitDamage, npcs, characters);
    }
  }

  /** A map lists NPCs that exist, each once. */
  ghost predicate Roster(list: seq<Npc>, npcs: set<Npc>)
  {
    (forall n :: n in list ==> n in npcs) && forall i, j :: 0 <= i < j < |list| ==> list[i] != list[j]
  }

  function Remaining(list: seq<Npc>, gone: set<Npc>): (r: seq<Npc>)
  {
    if list == [] then []
    else (if list[0] in gone then [] else [list[0]]) + Remaining(list[1..], gone)
  }

  lemma {:induction false} RemainingMember(list: seq<Npc>, gone: set<Npc>)
    ensures forall n :: n in Remaining(list, gone) <==> n in list && n !in gone
  {
    if list != [] {
      RemainingMember(list[1..], gone);
    }
  }

  lemma {:induction false} RemainingAll(list: seq<Npc>)
    ensures Remaining(list, {}) == list
  {
    if list != [] {
      RemainingAll(list[1..]);
    }
  }

  lemma {:induction false} RemainingErased(list: seq<Npc>, gone: set<Npc>, npc: Npc)
    ensures Erased(Remaining(list, gone), npc) == Remaining(list, gone + {npc})
  {
    if list != [] {
      RemainingErased(list[1..], gone, npc);
      if list[0] !in gone {
        assert ([list[0]] + Remaining(list[1..], gone))[1..] == Remaining(list[1..], gone);
      } else {
        assert Remaining(list, gone) == Remaining(list[1..], gone);
      }
    }
  }

  /** Whoever is still named was named before. */
  lemma StillNamed(list: seq<Opponent>, now: seq<Opponent>, c: Character)
    requires !Listed(now, c) && forall d :: d != c ==> (Listed(now, d) <==> Listed(list, d))
    ensures forall i :: 0 <= i < |now| ==> now[i].attacker != c && Listed(list, now[i].attacker)
  {
    forall i | 0 <= i < |now|
      ensures now[i].attacker != c && Listed(list, now[i].attacker)
    {
      assert Listed(now, now[i].attacker);
    }
  }

  lemma NobodyOffline(npcs: set<Npc>, characters: set<Character>, c: Character)
    requires Tidy(npcs, characters) && !c.online
    ensures forall n :: n in npcs ==>
              && !Listed(n.damagelist, c) && Without(n.damagelist, c) == n.damagelist
              && Less(n.totaldamage, n.damagelist, c) == n.totaldamage
  {
    forall n | n in npcs
      ensures !Listed(n.damagelist, c) && Without(n.damagelist, c) == n.damagelist
      ensures Less(n.totaldamage, n.damagelist, c) == n.totaldamage
    {
      Unlisted(n.totaldamage, n.damagelist, c);
    }
  }

  /** An NPC nobody is listed with can go. */
  lemma NothingOwed(npcs: set<Npc>, characters: set<Character>, npc: Npc)
    requires Tidy(npcs, characters) && npc in npcs && npc.damagelist == []
    ensures Tidy(npcs - {npc}, characters)
  {
  }

  function Min(a: int, b: int): (r: int)
    ensures r <= a && r <= b && (r == a || r == b)
  {
    if b < a then b else a
  }

  function Max(a: int, b: int): (r: int)
    ensures r >= a && r >= b && (r == a || r == b)
  {
    if a < b then b else a
  }

  lemma {:induction false} ErasedTwice(npcs: seq<Npc>, npc: Npc)
    ensures Erased(Erased(npcs, npc), npc) == Erased(npcs, npc)
  {
    if npcs != [] {
      ErasedTwice(npcs[1..], npc);
    }
  }
}
