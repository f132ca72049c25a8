/** How far somebody is in a quest, as text: SerializeProgress and UnserializeProgress of src/quest.cpp. */
module QuestProgress {
  import opened Numbers

  datatype Goal = Goal(key: string, value: int)

  // ---------------------------------------------------------------- short arithmetic

  /** What the loop makes of the characters of a number: any character counts as a digit, and every step wraps. */
  function Shorts(value: int, s: string): (r: int)
    decreases |s|
  {
    if s == [] then value else Shorts(Short(Short(value * 10) + Code(s[0]) - '0' as int), s[1..])
  }

  function Pow10(k: nat): (r: nat)
  {
    if k == 0 then 1 else 10 * Pow10(k - 1)
  }

  lemma {:induction false} ReadShift(v: int, s: string)
    requires AllDigits(s)
    ensures Read(v, s) == v * Pow10(|s|) + Read(0, s)
  {
    if s != [] {
      ReadShift(v, s[..|s| - 1]);
      assert v * Pow10(|s|) == v * Pow10(|s| - 1) * 10;
    }
  }

  lemma SameShort(x: int, y: int, q: int)
    requires x - y == 65536 * q
    ensures Short(x) == Short(y)
  {
  }

  lemma SameRead(u: int, w: int, q: int, s: string)
    requires AllDigits(s) && u - w == 65536 * q
    ensures Short(Read(u, s)) == Short(Read(w, s))
  {
    ReadShift(u, s);
    ReadShift(w, s);
    hide *;
    Multiplied(u, w, q, Pow10(|s|));
    SameShort(Read(u, s), Read(w, s), q * Pow10(|s|));
  }

  lemma Multiplied(u: int, w: int, q: int, p: int)
    requires u - w == 65536 * q
    ensures u * p - w * p == 65536 * (q * p)
  {
    assert u * p - w * p == (u - w) * p;
  }

  /** Two wraps are one. */
  lemma ShortTwice(x: int, d: int) returns (q: int)
    ensures Short(Short(x) + d) == Short(x + d)
    ensures Short(Short(x) + d) - (x + d) == 65536 * q
  {
    q := (Short(x) - x) / 65536 + (Short(Short(x) + d) - (Short(x) + d)) / 65536;
    SameShort(Short(x) + d, x + d, (Short(x) - x) / 65536);
  }

  /** Wrapping at every step is wrapping once at the end. */
  lemma {:induction false} ShortsWraps(v: int, s: string)
    requires AllDigits(s) && -32768 <= v <= 32767
    ensures Shorts(v, s) == Short(Read(v, s))
    decreases |s|
  {
    if s != [] {
      var d := (s[0] - '0') as int;
      var q := ShortTwice(v * 10, d);
      ReadFront(v, s);
      hide Read, Short;
      ShortsWraps(Short(Short(v * 10) + d), s[1..]);
      SameRead(Short(Short(v * 10) + d), v * 10 + d, q, s[1..]);
    }
  }

  lemma {:induction false} DigitsSize(n: nat)
    requires n >= 1
    ensures Pow10(|Digits(n)| - 1) <= n < Pow10(|Digits(n)|)
  {
    if n >= 10 {
      DigitsSize(n / 10);
    }
  }

  lemma Powers()
    ensures Pow10(0) == 1 && Pow10(1) == 10 && Pow10(2) == 100 && Pow10(3) == 1000 && Pow10(4) == 10000
    ensures Pow10(5) == 100000
  {
    assert Pow10(1) == 10;
    assert Pow10(3) == 1000;
  }

  lemma {:induction false} PowersGrow(j: nat, k: nat)
    requires j <= k
    ensures Pow10(j) <= Pow10(k)
  {
    if j < k {
      PowersGrow(j, k - 1);
    }
  }

  /** A minus sign is read as the digit -3. Of all negative shorts that gives back only -18928. */
  lemma NegativeIsReadWrong(n: int)
    requires 1 <= n <= 32768
    ensures Shorts(0, Print(-n)) == -n <==> n == 18928
  {
    hide Digits, Read, Shorts, Print, Pow10, Short;
    MinusIsRead(n);
    AtMostFive(n);
    ReadAfterMinus(n);
    ShortsWraps(-3, Digits(n));
    MinusThree(n, |Digits(n)|);
  }

  lemma ReadAfterMinus(n: int)
    requires n >= 1
    ensures Read(-3, Digits(n)) == n - 3 * Pow10(|Digits(n)|)
  {
    hide Digits, Pow10;
    ReadShift(-3, Digits(n));
    ReadDigits(n);
  }

  lemma MinusIsRead(n: int)
    requires n >= 1
    ensures Shorts(0, Print(-n)) == Shorts(-3, Digits(n))
  {
    assert Print(-n)[1..] == Digits(n) && Print(-n)[0] == '-';
    hide Print, Digits;
  }

  lemma AtMostFive(n: int)
    requires 1 <= n <= 32768
    ensures var k := |Digits(n)|; k <= 5 && Pow10(k - 1) <= n < Pow10(k)
  {
    DigitsSize(n);
    hide Digits;
    Powers();
    if |Digits(n)| > 5 {
      PowersGrow(5, |Digits(n)| - 1);
    }
  }

  lemma MinusThree(n: int, k: nat)
    requires 1 <= n <= 32768 && 1 <= k <= 5 && Pow10(k - 1) <= n < Pow10(k)
    ensures Short(n - 3 * Pow10(k)) == -n <==> n == 18928
  {
    Powers();
    hide Pow10, Short;
    if k == 1 {
      MinusThreeBelow(n, 10);
    } else if k == 2 {
      MinusThreeBelow(n, 100);
    } else if k == 3 {
      MinusThreeBelow(n, 1000);
    } else if k == 4 {
      MinusThreeBelow(n, 10000);
    } else {
      MinusThreeOfFive(n);
    }
  }

  lemma MinusThreeBelow(n: int, p: int)
    requires p in {10, 100, 1000, 10000} && 1 <= n < p
    ensures Short(n - 3 * p) != -n
  {
    if p == 10000 && n - 30000 >= -32768 {
      assert Short(n - 30000) == n - 30000;
    }
  }

  lemma MinusThreeOfFive(n: int)
    requires 10000 <= n <= 32768
    ensures Short(n - 300000) == -n <==> n == 18928
  {
    assert Short(n - 300000) == n - 37856;
  }

  /** A short comes back exactly if it is not negative, or -18928. */
  lemma ValueSurvives(v: int)
    requires -32768 <= v <= 32767
    ensures Shorts(0, Print(v)) == v <==> v >= 0 || v == -18928
  {
    if v < 0 {
      NegativeIsReadWrong(-v);
    } else {
      assert Print(v) == Digits(v);
      hide Shorts, Print;
      ShortsWraps(0, Digits(v));
      ReadDigits(v);
    }
  }

  // ---------------------------------------------------------------- the text of a progress

  function GoalText(g: Goal): (s: string)
  {
    g.key + "=" + Print(g.value)
  }

  function GoalsText(list: seq<Goal>): (s: string)
  {
    if list == [] then ""
    else if |list| == 1 then GoalText(list[0])
    else GoalText(list[0]) + "," + GoalsText(list[1..])
  }

  function ProgressText(list: seq<Goal>): (s: string)
  {
    "{" + GoalsText(list) + "}"
  }

  /** What a progress of two goals looks like. */
  lemma TwoGoals()
    ensures ProgressText([]) == "{}" && ProgressText([Goal("a", 36), Goal("b", -7)]) == "{a=36,b=-7}"
  {
    hide Print;
    PrintedText();
    assert [Goal("a", 36), Goal("b", -7)][1..] == [Goal("b", -7)];
    assert GoalsText([Goal("b", -7)]) == "b=-7";
  }

  /** The map's entries in its order. */
  method SerializeProgress(progress: seq<Goal>) returns (serialized: string)
    ensures serialized == ProgressText(progress)
  {
    hide Print;
    serialized := "{";
    for i := 0 to |progress|
      invariant serialized + GoalsText(progress[i..]) == "{" + GoalsText(progress)
    {
      ghost var before := serialized;
      serialized := serialized + progress[i].key;
      serialized := serialized + "=";
      serialized := serialized + Print(progress[i].value);
      assert serialized == before + GoalText(progress[i]);
      if i != |progress| - 1 {
        serialized := serialized + ",";
      }
      assert progress[i..][1..] == progress[i + 1..];
    }
    serialized := serialized + "}";
  }

  /** Reading on at `s`, in a key or in a value: the progress then, and the text that is left. */
  function ProgressFrom(s: string, key: string, value: int, inValue: bool, progress: map<string, int>)
    : (r: (map<string, int>, string))
    decreases |s|
  {
    if s == [] || s[0] == '}' then
      (if inValue then progress[key := value] else progress, if s == [] then s else s[1..])
    else if !inValue then
      if s[0] == '=' then ProgressFrom(s[1..], key, value, true, progress)
      else ProgressFrom(s[1..], key + [s[0]], value, false, progress)
    else if s[0] == ',' then ProgressFrom(s[1..], "", 0, false, progress[key := value])
    else ProgressFrom(s[1..], key, Short(Short(value * 10) + Code(s[0]) - '0' as int), true, progress)
  }

  function ProgressRead(s: string, progress: map<string, int>): (r: (map<string, int>, string))
  {
    if s == [] || s[0] != '{' then (progress, s) else ProgressFrom(s[1..], "", 0, false, progress)
  }

  class QuestContext {
    var progress: map<string, int>

    constructor ()
      ensures progress == map[]
    {
      progress := map[];
    }

    /** `it` is the position in the text; the position behind the closing brace is returned. */
    method UnserializeProgress(text: string, it: nat) returns (next: nat)
      requires it <= |text|
      modifies this
      ensures next <= |text| && (progress, text[next..]) == ProgressRead(text[it..], old(progress))
    {
      if it == |text| || text[it] != '{' {
        return it;
      }
      next := it + 1;
      var key := "";
      var value := 0;
      var state := 0;
      while next != |text| && text[next] != '}'
        invariant next <= |text| && 0 <= state <= 1
        invariant ProgressFrom(text[next..], key, value, state == 1, progress) ==
                  ProgressRead(text[it..], old(progress))
        decreases |text| - next
      {
        if state == 0 {
          if text[next] == '=' {
            state := 1;
          } else {
            key := key + [text[next]];
          }
        } else {
          if text[next] == ',' {
            progress := progress[key := value];
            key := "";
            value := 0;
            state := 0;
          } else {
            value := Short(value * 10);
            value := Short(value + Code(text[next]) - '0' as int);
          }
        }
        next := next + 1;
      }
      if state == 1 {
        progress := progress[key := value];
      }
      if next != |text| {
        next := next + 1;
      }
    }
  }

  // ---------------------------------------------------------------- the round trip

  predicate Clean(key: string)
  {
    '=' !in key && '}' !in key
  }

  lemma {:induction false} KeyIsRead(k: string, tail: string, key: string, value: int, progress: map<string, int>)
    requires Clean(k)
    ensures ProgressFrom(k + "=" + tail, key, value, false, progress) ==
            ProgressFrom(tail, key + k, value, true, progress)
    decreases |k|
  {
    var s := k + "=" + tail;
    if k == [] {
      assert s[1..] == tail && key + k == key;
    } else {
      assert s[1..] == k[1..] + "=" + tail && s[0] == k[0];
      KeyIsRead(k[1..], tail, key + [k[0]], value, progress);
      assert key + [k[0]] + k[1..] == key + k;
    }
  }

  lemma {:induction false} ValueIsRead(d: string, tail: string, key: string, value: int, progress: map<string, int>)
    requires ',' !in d && '}' !in d
    ensures ProgressFrom(d + tail, key, value, true, progress) ==
            ProgressFrom(tail, key, Shorts(value, d), true, progress)
    decreases |d|
  {
    if d == [] {
      assert d + tail == tail;
    } else {
      assert (d + tail)[1..] == d[1..] + tail && (d + tail)[0] == d[0];
      ValueIsRead(d[1..], tail, key, Short(Short(value * 10) + Code(d[0]) - '0' as int), progress);
    }
  }

  function Stored(list: seq<Goal>, progress: map<string, int>): (r: map<string, int>)
    decreases |list|
  {
    if list == [] then progress else Stored(list[1..], progress[list[0].key := list[0].value])
  }

  /** A goal as it is read back. */
  function ReadBack(g: Goal): (r: Goal)
  {
    Goal(g.key, Shorts(0, Print(g.value)))
  }

  function AllReadBack(list: seq<Goal>): (r: seq<Goal>)
    ensures |r| == |list|
  {
    seq(|list|, k requires 0 <= k < |list| => ReadBack(list[k]))
  }

  lemma GoalIsRead(g: Goal, tail: string, progress: map<string, int>)
    requires Clean(g.key)
    ensures ProgressFrom(GoalText(g) + tail, "", 0, false, progress) ==
            ProgressFrom(tail, g.key, ReadBack(g).value, true, progress)
  {
    PrintedChars(g.value);
    hide Print, ProgressFrom;
    assert GoalText(g) + tail == g.key + "=" + (Print(g.value) + tail);
    KeyIsRead(g.key, Print(g.value) + tail, "", 0, progress);
    assert "" + g.key == g.key;
    ValueIsRead(Print(g.value), tail, g.key, 0, progress);
  }

  lemma {:induction false} GoalsAreRead(list: seq<Goal>, rest: string, progress: map<string, int>)
    requires list != [] && forall k :: 0 <= k < |list| ==> Clean(list[k].key)
    ensures ProgressFrom(GoalsText(list) + ("}" + rest), "", 0, false, progress) ==
            (Stored(AllReadBack(list), progress), rest)
    decreases |list|
  {
    var g := list[0];
    var back := AllReadBack(list);
    assert back[0] == ReadBack(g) && back[1..] == AllReadBack(list[1..]);
    var value := back[0].value;
    assert Stored(back, progress) == Stored(back[1..], progress[g.key := value]);
    GoalsTextStarts(list, "}" + rest);
    hide ReadBack, AllReadBack, GoalText, GoalsText, ProgressFrom;
    if |list| == 1 {
      GoalIsRead(g, "}" + rest, progress);
      SeparatorIsRead(rest, g.key, value, progress);
    } else {
      hide Stored;
      var tail := GoalsText(list[1..]) + ("}" + rest);
      GoalIsRead(g, "," + tail, progress);
      SeparatorIsRead(tail, g.key, value, progress);
      GoalsAreRead(list[1..], rest, progress[g.key := value]);
    }
  }

  lemma GoalsTextStarts(list: seq<Goal>, tail: string)
    requires list != []
    ensures GoalsText(list) + tail ==
            GoalText(list[0]) + if |list| == 1 then tail else "," + (GoalsText(list[1..]) + tail)
  {
    if |list| > 1 {
      var first, others := GoalText(list[0]), GoalsText(list[1..]);
      assert GoalsText(list) == first + "," + others;
      hide *;
      Regrouped(first, ",", others, tail);
    }
  }

  lemma Regrouped(a: string, b: string, c: string, d: string)
    ensures a + b + c + d == a + (b + (c + d))
  {
  }

  lemma SeparatorIsRead(rest: string, key: string, value: int, progress: map<string, int>)
    ensures ProgressFrom("}" + rest, key, value, true, progress) == (progress[key := value], rest)
    ensures ProgressFrom("," + rest, key, value, true, progress) ==
            ProgressFrom(rest, "", 0, false, progress[key := value])
  {
    assert ("}" + rest)[1..] == rest && ("," + rest)[1..] == rest;
  }

  /** Only clean keys are ever read. */
  lemma {:induction false} ReadKeysAreClean(s: string, key: string, value: int, inValue: bool,
                                                  progress: map<string, int>)
    requires Clean(key) && forall k :: k in progress ==> Clean(k)
    ensures forall k :: k in ProgressFrom(s, key, value, inValue, progress).0 ==> Clean(k)
    decreases |s|
  {
    if s == [] || s[0] == '}' {
    } else if !inValue {
      if s[0] == '=' {
        ReadKeysAreClean(s[1..], key, value, true, progress);
      } else {
        ReadKeysAreClean(s[1..], key + [s[0]], value, false, progress);
      }
    } else if s[0] == ',' {
      ReadKeysAreClean(s[1..], "", 0, false, progress[key := value]);
    } else {
      ReadKeysAreClean(s[1..], key, Short(Short(value * 10) + Code(s[0]) - '0' as int), true, progress);
    }
  }

  predicate Distinct(list: seq<Goal>)
  {
    forall i, j :: 0 <= i < j < |list| ==> list[i].key != list[j].key
  }

  lemma {:induction false} StoredAt(list: seq<Goal>, progress: map<string, int>)
    requires Distinct(list)
    ensures forall k :: 0 <= k < |list| ==>
              list[k].key in Stored(list, progress) && Stored(list, progress)[list[k].key] == list[k].value
    ensures forall key :: key in progress && (forall k :: 0 <= k < |list| ==> list[k].key != key) ==>
              key in Stored(list, progress) && Stored(list, progress)[key] == progress[key]
    decreases |list|
  {
    if list != [] {
      StoredAt(list[1..], progress[list[0].key := list[0].value]);
      assert forall k :: 1 <= k < |list| ==> list[k] == list[1..][k - 1];
    }
  }

  predicate Safe(g: Goal)
  {
    Clean(g.key) && (g.value >= 0 || g.value == -18928)
  }

  lemma CleanProgress(list: seq<Goal>, rest: string)
    requires Distinct(list) && forall k :: 0 <= k < |list| ==> -32768 <= list[k].value <= 32767
    requires forall k :: 0 <= k < |list| ==> Clean(list[k].key)
    ensures var read := ProgressFrom(GoalsText(list) + ("}" + rest), "", 0, false, map[]);
            && read.1 == rest
            && (read.0 == Stored(list, map[]) <==> forall k :: 0 <= k < |list| ==> Safe(list[k]))
  {
    var back := AllReadBack(list);
    if list == [] {
      assert GoalsText(list) + ("}" + rest) == "}" + rest && ("}" + rest)[1..] == rest;
    } else {
      GoalsAreRead(list, rest, map[]);
      hide ProgressFrom, GoalsText;
      forall k | 0 <= k < |list|
        ensures back[k].key == list[k].key && (back[k].value == list[k].value <==> Safe(list[k]))
      {
        ValueSurvives(list[k].value);
      }
      hide Safe, AllReadBack, ReadBack;
      assert Distinct(back);
      StoredAt(back, map[]);
      StoredAt(list, map[]);
      hide Stored;
      if Stored(back, map[]) == Stored(list, map[]) {
        forall k | 0 <= k < |list|
          ensures Safe(list[k])
        {
          assert back[k].key == list[k].key;
        }
      }
      if forall k :: 0 <= k < |list| ==> Safe(list[k]) {
        assert back == list;
      }
    }
  }

  /** A progress comes back from its text exactly if every key is free of '=' and '}', and every value is not negative
      or, by wrapping around, -18928. Then the reading also stops exactly behind the text. */
  lemma ProgressSurvives(list: seq<Goal>, rest: string)
    requires Distinct(list) && forall k :: 0 <= k < |list| ==> -32768 <= list[k].value <= 32767
    ensures ProgressRead(ProgressText(list) + rest, map[]).0 == Stored(list, map[]) <==>
            forall k :: 0 <= k < |list| ==> Safe(list[k])
    ensures (forall k :: 0 <= k < |list| ==> Safe(list[k])) ==> ProgressRead(ProgressText(list) + rest, map[]).1 == rest
  {
    var s := GoalsText(list) + ("}" + rest);
    BracesAreRead(list, rest);
    hide ProgressFrom, GoalsText, ProgressRead, ProgressText, Stored, Distinct;
    if ProgressFrom(s, "", 0, false, map[]).0 == Stored(list, map[]) {
      WhatIsReadIsClean(list, s);
      CleanProgress(list, rest);
    } else if forall k :: 0 <= k < |list| ==> Clean(list[k].key) {
      CleanProgress(list, rest);
    }
  }

  lemma BracesAreRead(list: seq<Goal>, rest: string)
    ensures ProgressRead(ProgressText(list) + rest, map[]) ==
            ProgressFrom(GoalsText(list) + ("}" + rest), "", 0, false, map[])
  {
    hide ProgressFrom, GoalsText;
    var s := ProgressText(list) + rest;
    assert s[0] == '{' && s[1..] == GoalsText(list) + ("}" + rest);
  }

  lemma WhatIsReadIsClean(list: seq<Goal>, s: string)
    requires Distinct(list) && ProgressFrom(s, "", 0, false, map[]).0 == Stored(list, map[])
    ensures forall k :: 0 <= k < |list| ==> Clean(list[k].key)
  {
    ReadKeysAreClean(s, "", 0, false, map[]);
    StoredAt(list, map[]);
  }
}
