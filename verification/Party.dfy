/** Sharing experience in a party: ShareEXP of src/party.cpp. */
module Parties {
  import opened Common

  function Positive(s: seq<int>): (n: nat)
    ensures n <= |s|
  {
    if s == [] then 0 else Positive(s[..|s| - 1]) + if s[|s| - 1] > 0 then 1 else 0
  }

  /** The ceiling of a quotient. */
  function Ceil(a: int, b: int): (r: int)
    requires b > 0
    ensures b * (r - 1) < a <= b * r
  {
    -((-a) / b)
  }

  /** What a member of this weight gets; somebody who takes no part weighs nothing. */
  function Share(mode: int, exp: int, weight: int, total: int, members: int): (r: int)
  {
    if weight <= 0 || total <= 0 || members <= 0 then 0
    else if mode == 1 then Ceil(exp, members)
    else if mode == 2 then Ceil(exp * weight, total)
    else 0
  }

  lemma {:induction false} SumPositive(s: seq<int>)
    requires forall k :: 0 <= k < |s| ==> s[k] >= 0
    ensures Sum(s) >= Positive(s)
    ensures forall k :: 0 <= k < |s| && s[k] > 0 ==> Positive(s) > 0
  {
    if s != [] {
      SumPositive(s[..|s| - 1]);
    }
  }

  function Shares(mode: int, exp: int, weights: seq<int>, total: int, members: int): (r: seq<int>)
    ensures |r| == |weights|
  {
    seq(|weights|, k requires 0 <= k < |weights| => Share(mode, exp, weights[k], total, members))
  }

  lemma {:induction false} EqualShares(exp: int, weights: seq<int>, total: int, members: int)
    requires total > 0 && members > 0
    ensures Sum(Shares(1, exp, weights, total, members)) == Positive(weights) * Ceil(exp, members)
  {
    if weights != [] {
      var k := |weights| - 1;
      EqualShares(exp, weights[..k], total, members);
      assert Shares(1, exp, weights, total, members)[..k] == Shares(1, exp, weights[..k], total, members);
    }
  }

  lemma {:induction false} WeightedShares(exp: int, weights: seq<int>, total: int, members: int)
    requires total > 0 && members > 0 && forall k :: 0 <= k < |weights| ==> weights[k] >= 0
    ensures var given := Sum(Shares(2, exp, weights, total, members));
            exp * Sum(weights) <= total * given <= exp * Sum(weights) + Positive(weights) * (total - 1)
  {
    if weights != [] {
      var k := |weights| - 1;
      WeightedShares(exp, weights[..k], total, members);
      assert Shares(2, exp, weights, total, members)[..k] == Shares(2, exp, weights[..k], total, members);
      OneMoreShare(exp, weights[k], total, Sum(Shares(2, exp, weights[..k], total, members)),
                   Sum(weights[..k]), Positive(weights[..k]), members);
    }
  }

  lemma OneMoreShare(exp: int, w: int, total: int, given: int, sum: int, n: int, members: int)
    requires total > 0 && members > 0 && w >= 0 && exp * sum <= total * given <= exp * sum + n * (total - 1)
    ensures var more := given + Share(2, exp, w, total, members);
            exp * (sum + w) <= total * more <= exp * (sum + w) + (n + if w > 0 then 1 else 0) * (total - 1)
  {
    var share := Share(2, exp, w, total, members);
    assert total * (given + share) == total * given + total * share;
    assert exp * (sum + w) == exp * sum + exp * w;
    if w > 0 {
      var c := Ceil(exp * w, total);
      assert total * (c - 1) == total * c - total;
      assert (n + 1) * (total - 1) == n * (total - 1) + (total - 1);
    }
  }

  /** In both modes all members together get at least the experience there was, and less than one more each. */
  lemma NothingIsLost(mode: int, exp: int, weights: seq<int>)
    requires mode in {1, 2} && Positive(weights) > 0 && forall k :: 0 <= k < |weights| ==> weights[k] >= 0
    ensures Sum(weights) > 0
    ensures var given := Sum(Shares(mode, exp, weights, Sum(weights), Positive(weights)));
            exp <= given < exp + Positive(weights)
  {
    SumPositive(weights);
    var n, total := Positive(weights), Sum(weights);
    hide Sum, Positive, Shares, Share, Ceil;
    if mode == 1 {
      EqualShares(exp, weights, total, n);
      hide *;
      CeilTimes(exp, n);
    } else {
      WeightedShares(exp, weights, total, n);
      hide *;
      Divided(exp, total, Sum(Shares(2, exp, weights, total, n)), n);
    }
  }

  lemma CeilTimes(exp: int, n: int)
    requires n > 0
    ensures exp <= n * Ceil(exp, n) < exp + n
  {
    assert n * (Ceil(exp, n) - 1) == n * Ceil(exp, n) - n;
  }

  lemma Divided(exp: int, total: int, given: int, n: int)
    requires total > 0 && n > 0 && exp * total <= total * given <= exp * total + n * (total - 1)
    ensures exp <= given < exp + n
  {
    Monotone(total, given, exp - 1);
    Monotone(total, exp + n, given);
    assert total * (exp - 1) == exp * total - total;
    assert total * (exp + n) == exp * total + n * (total - 1) + n;
  }

  lemma Monotone(factor: int, a: int, b: int)
    requires factor > 0
    ensures a <= b ==> factor * a <= factor * b
  {
  }

  // ---------------------------------------------------------------- the party

  /** What the server is configured to. */
  datatype Rules = Rules(maxLevel: int, expTable: int -> int, statPerLevel: int, skillPerLevel: int)

  /** The fields of a member; `combat` is CanInteractCombat. */
  datatype Standing = Standing(level: nat, exp: int, statpoints: int, skillpoints: int,
                               area: int, nowhere: bool, combat: bool)

  /** Level 0 counts as 1. */
  function Weight(m: Standing, area: int): (w: nat)
  {
    if !m.combat || m.area != area || m.nowhere then 0 else if m.level == 0 then 1 else m.level
  }

  function Weights(members: seq<Standing>, area: int): (w: seq<nat>)
    ensures |w| == |members|
  {
    seq(|members|, k requires 0 <= k < |members| => Weight(members[k], area))
  }

  function Exps(members: seq<Standing>): (r: seq<int>)
    ensures |r| == |members|
  {
    seq(|members|, k requires 0 <= k < |members| => members[k].exp)
  }

  /** A reward, and at most one level with it. */
  function Paid(m: Standing, reward: int, rules: Rules): (r: Standing)
  {
    var exp := m.exp + reward;
    if m.level < rules.maxLevel && exp >= rules.expTable(m.level + 1) then
      m.(exp := exp, level := m.level + 1, statpoints := m.statpoints + rules.statPerLevel,
         skillpoints := m.skillpoints + rules.skillPerLevel)
    else
      m.(exp := exp)
  }

  /** What sharing is for: those who can fight, on the map and not dead, get a share each, equal or by level and rounded
      up, all together at least what there was and less than one more each; they may gain one level; nobody else gets or
      gains anything. */
  ghost predicate SharedOut(before: seq<Standing>, after: seq<Standing>, exp: int, mode: int, area: int, rules: Rules)
  {
    var there := set k | 0 <= k < |before| && before[k].combat && before[k].area == area && !before[k].nowhere;
    var levels := Sum(seq(|before|, k requires 0 <= k < |before| =>
                            if k !in there then 0 else if before[k].level == 0 then 1 else before[k].level));
    && |after| == |before|
    && (forall k | 0 <= k < |before| :: Fair(before[k], after[k], k in there, exp, mode, |there|, levels, rules))
    && (mode in {1, 2} && there != {} ==> exp <= Sum(Exps(after)) - Sum(Exps(before)) < exp + |there|)
  }

  /** One member's part in it, among `n` with `levels` together. */
  ghost predicate Fair(m: Standing, after: Standing, there: bool, exp: int, mode: int, n: int, levels: int,
                       rules: Rules)
  {
    var r := after.exp - m.exp;
    var up := there && m.level < rules.maxLevel && after.exp >= rules.expTable(m.level + 1);
    && (if !there || mode !in {1, 2} then r == 0
        else if mode == 1 then n * (r - 1) < exp <= n * r
        else levels * (r - 1) < exp * (if m.level == 0 then 1 else m.level) <= levels * r)
    && after == m.(exp := after.exp, level := m.level + if up then 1 else 0,
                   statpoints := m.statpoints + if up then rules.statPerLevel else 0,
                   skillpoints := m.skillpoints + if up then rules.skillPerLevel else 0)
  }

  lemma OneIsFair(m: Standing, area: int, exp: int, mode: int, n: int, levels: int, rules: Rules)
    requires n > 0 && levels > 0
    ensures var w := Weight(m, area);
            Fair(m, if w > 0 then Paid(m, Share(mode, exp, w, levels, n), rules) else m,
                 m.combat && m.area == area && !m.nowhere, exp, mode, n, levels, rules)
  {
  }

  lemma AllAreFair(before: seq<Standing>, after: seq<Standing>, exp: int, mode: int, area: int, rules: Rules)
    requires |after| == |before| && Positive(Weights(before, area)) > 0 && Sum(Weights(before, area)) > 0
    requires var w := Weights(before, area);
             forall k | 0 <= k < |before| ::
               after[k] == if w[k] > 0 then Paid(before[k], Share(mode, exp, w[k], Sum(w), Positive(w)), rules)
                           else before[k]
    ensures SharedOut(before, after, exp, mode, area, rules)
  {
    var w := Weights(before, area);
    var n, levels := Positive(w), Sum(w);
    WhoIsThere(before, area);
    hide Sum, Positive, Share, Paid, Weight, Fair;
    forall k | 0 <= k < |before|
      ensures Fair(before[k], after[k], before[k].combat && before[k].area == area && !before[k].nowhere,
                   exp, mode, n, levels, rules)
    {
      OneIsFair(before[k], area, exp, mode, n, levels, rules);
    }
    AllPaid(before, after, exp, mode, area, rules);
  }

  lemma AllPaid(before: seq<Standing>, after: seq<Standing>, exp: int, mode: int, area: int, rules: Rules)
    requires |after| == |before| && Positive(Weights(before, area)) > 0
    requires var w := Weights(before, area);
             forall k | 0 <= k < |before| ::
               after[k] == if w[k] > 0 then Paid(before[k], Share(mode, exp, w[k], Sum(w), Positive(w)), rules)
                           else before[k]
    ensures mode in {1, 2} ==>
              exp <= Sum(Exps(after)) - Sum(Exps(before)) < exp + Positive(Weights(before, area))
  {
    hide Sum, Positive, Ceil;
    var w := Weights(before, area);
    Gained(Exps(before), Exps(after), Shares(mode, exp, w, Sum(w), Positive(w)));
    if mode in {1, 2} {
      NothingIsLost(mode, exp, w);
    }
  }

  lemma WhoIsThere(before: seq<Standing>, area: int)
    ensures var there := set k | 0 <= k < |before| && before[k].combat && before[k].area == area && !before[k].nowhere;
            && Positive(Weights(before, area)) == |there|
            && (there == {} <==> Positive(Weights(before, area)) == 0)
            && Weights(before, area) == seq(|before|, k requires 0 <= k < |before| =>
                 if k !in there then 0 else if before[k].level == 0 then 1 else before[k].level)
  {
    var w := Weights(before, area);
    PositiveCounts(w);
    assert (set k | 0 <= k < |before| && before[k].combat && before[k].area == area && !before[k].nowhere)
        == set k | 0 <= k < |w| && w[k] > 0;
  }

  lemma NobodyThere(before: seq<Standing>, exp: int, mode: int, area: int, rules: Rules)
    requires Positive(Weights(before, area)) == 0
    ensures SharedOut(before, before, exp, mode, area, rules)
  {
    WhoIsThere(before, area);
  }

  lemma {:induction false} PositiveCounts(s: seq<int>)
    ensures Positive(s) == |set k | 0 <= k < |s| && s[k] > 0|
  {
    if s != [] {
      var n := |s| - 1;
      PositiveCounts(s[..n]);
      var before := set k | 0 <= k < n && s[..n][k] > 0;
      assert (set k | 0 <= k < |s| && s[k] > 0) == before + if s[n] > 0 then {n} else {};
    }
  }

  class Member {
    var level: nat
    var exp: int
    var area: int
    var nowhere: bool
    var combat: bool
    var statpoints: int
    var skillpoints: int

    constructor (level: nat, exp: int, area: int, nowhere: bool, combat: bool)
      ensures Value() == Standing(level, exp, 0, 0, area, nowhere, combat)
    {
      this.level, this.exp, this.area, this.nowhere, this.combat := level, exp, area, nowhere, combat;
      statpoints, skillpoints := 0, 0;
    }

    ghost function Value(): Standing
      reads this
    {
      Standing(level, exp, statpoints, skillpoints, area, nowhere, combat)
    }

    /** At most one level at a time. */
    method Gain(reward: int, rules: Rules)
      modifies this
      ensures exp == old(exp) + reward
      ensures var up := old(level) < rules.maxLevel && exp >= rules.expTable(old(level) + 1);
              && level == old(level) + (if up then 1 else 0)
              && statpoints == old(statpoints) + (if up then rules.statPerLevel else 0)
              && skillpoints == old(skillpoints) + (if up then rules.skillPerLevel else 0)
      ensures area == old(area) && nowhere == old(nowhere) && combat == old(combat)
    {
      exp := exp + reward;
      if level < rules.maxLevel && exp >= rules.expTable(level + 1) {
        level := level + 1;
        statpoints := statpoints + rules.statPerLevel;
        skillpoints := skillpoints + rules.skillPerLevel;
      }
    }
  }

  ghost function Values(members: seq<Member>): (r: seq<Standing>)
    reads members
    ensures |r| == |members|
  {
    seq(|members|, k requires 0 <= k < |members| reads members => members[k].Value())
  }

  class Party {
    var members: seq<Member>

    constructor (members: seq<Member>)
      ensures this.members == members
    {
      this.members := members;
    }

    /** The first loop. */
    method AddUp(area: int) returns (sumlevel: int, count: int)
      ensures sumlevel == Sum(Weights(Values(members), area)) && count == Positive(Weights(Values(members), area))
    {
      sumlevel, count := 0, 0;
      ghost var w := Weights(Values(members), area);
      for i := 0 to |members|
        invariant sumlevel == Sum(w[..i]) && count == Positive(w[..i])
      {
        assert w[..i + 1][..i] == w[..i];
        var member := members[i];
        if member.combat && member.area == area && !member.nowhere {
          sumlevel := sumlevel + if member.level == 0 then 1 else member.level;
          count := count + 1;
        }
      }
      assert w[..|w|] == w;
    }

    /** The second loop. Somebody who levels up has got his share by the level he had. */
    method HandOut(exp: int, sharemode: int, area: int, sumlevel: int, count: int, rules: Rules)
      requires forall i, j :: 0 <= i < j < |members| ==> members[i] != members[j]
      requires sumlevel > 0 && count > 0
      modifies members
      ensures forall k :: 0 <= k < |members| ==>
                var m := old(members[k].Value());
                members[k].Value() == if Weight(m, area) > 0
                                      then Paid(m, Share(sharemode, exp, Weight(m, area), sumlevel, count), rules)
                                      else m
    {
      hide Ceil;
      for i := 0 to |members|
        invariant forall k :: 0 <= k < i ==>
                    var m := old(members[k].Value());
                    members[k].Value() == if Weight(m, area) > 0
                                          then Paid(m, Share(sharemode, exp, Weight(m, area), sumlevel, count), rules)
                                          else m
        invariant forall k :: i <= k < |members| ==> members[k].Value() == old(members[k].Value())
      {
        var member := members[i];
        if member.combat && member.area == area && !member.nowhere {
          var reward := 0;
          if sharemode == 1 {
            reward := Ceil(exp, count);
          } else if sharemode == 2 {
            reward := Ceil(exp * if member.level == 0 then 1 else member.level, sumlevel);
          }
          member.Gain(reward, rules);
        }
      }
    }

    method ShareEXP(exp: int, sharemode: int, area: int, rules: Rules)
      requires forall i, j :: 0 <= i < j < |members| ==> members[i] != members[j]
      modifies members
      ensures SharedOut(old(Values(members)), Values(members), exp, sharemode, area, rules)
    {
      hide Sum, Positive, Ceil, Share, Paid, Weight, SharedOut;
      ghost var before := Values(members);
      var sumlevel, count := AddUp(area);
      SumPositive(Weights(before, area));
      if count == 0 || sumlevel == 0 {
        NobodyThere(before, exp, sharemode, area, rules);
        return;
      }
      HandOut(exp, sharemode, area, sumlevel, count, rules);
      AllAreFair(before, Values(members), exp, sharemode, area, rules);
    }
  }

  lemma {:induction false} Gained(before: seq<int>, after: seq<int>, shares: seq<int>)
    requires |before| == |after| == |shares|
    requires forall k :: 0 <= k < |before| ==> after[k] == before[k] + shares[k]
    ensures Sum(after) == Sum(before) + Sum(shares)
  {
    if before != [] {
      var k := |before| - 1;
      Gained(before[..k], after[..k], shares[..k]);
    }
  }
}
