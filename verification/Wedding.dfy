/** The wedding ceremony of src/wedding.cpp: thirteen states, driven by a timer and by the couple. */
module Wedding {

  /** Who is on the map when something happens: the two partners and the priest. */
  datatype Env = Env(p1: bool, p2: bool, priest: bool) {
    predicate Complete() { p1 && p2 && priest }
  }

  datatype Effect =
    | Say(key: string, names: seq<string>)
    | Music
    | AskVow(name: string)
    | SpeakVow(name: string)
    | Marry(name1: string, name2: string)
    | Hearts
    | Fizz

  /** The fields of a wedding, and everything it has made happen so far. */
  datatype State = State(state: int, tick: int, timer: bool, partner1: string, partner2: string, log: seq<Effect>)

  datatype Event =
    | TimerTick(env: Env)
    | SayIDo(name: string, sameMap: bool, env: Env)
    | Start(name1: string, name2: string, env: Env)

  /** The tick at which a state gives way to the next, or, waiting for a vow in 4 and 6, gives up. */
  function Limit(state: int): (n: nat)
  {
    if state == 1 then 20
    else if state == 4 || state == 6 then 13
    else if state == 5 then 7
    else if state == 7 || state == 11 then 1
    else if state == 10 || state == 12 then 5
    else if 2 <= state <= 9 then 6
    else 0
  }

  // ---------------------------------------------------------------- the ceremony as a table

  function Spoken(env: Env, key: string): (r: seq<Effect>)
  {
    if env.priest then [Say(key, [])] else []
  }

  function Idle(log: seq<Effect>): (r: State)
  {
    State(0, 0, false, "", "", log)
  }

  /** What happens on entering a state, partners and priest being there. */
  function Opening(s: State, state: int): (r: seq<Effect>)
  {
    match state
    case 1 => [Say("wedding_wait", [])]
    case 2 => [Say("wedding_text1", [s.partner1, s.partner2])]
    case 3 => [Say("wedding_text2", [])]
    case 4 => [Say("wedding_doyou", [s.partner1, s.partner2])]
    case 6 => [Say("wedding_doyou", [s.partner2, s.partner1])]
    case 8 => [Marry(s.partner1, s.partner2)]
    case 9 => [Say("wedding_ring1", [])]
    case 10 => [Say("wedding_ring2", [])]
    case 11 => [Hearts]
    case 12 => [Say("wedding_finish1", [s.partner1, s.partner2]), Fizz]
    case 13 => [Say("wedding_finish2", [])]
    case _ => []
  }

  /** Somebody is missing: called off before the marriage, cut short after it. */
  function Missing(s: State, env: Env): (r: State)
  {
    if s.state < 8 then Idle(s.log + Spoken(env, "wedding_error")) else Idle(s.log + Spoken(env, "wedding_finish2"))
  }

  function Proceed(s: State, env: Env): (r: State)
  {
    if !env.Complete() then Missing(s, env)
    else if s.state == 12 then Idle(s.log + Opening(s, 13))
    else s.(state := s.state + 1, tick := 0, log := s.log + Opening(s, s.state + 1))
  }

  /** One tick of the timer. */
  function Ticked(s: State, env: Env): (r: State)
  {
    var t := s.tick + 1;
    if s.state == 0 then s.(timer := false)
    else if (s.state == 4 || s.state == 6) && t == 13 then Idle(s.log + Spoken(env, "wedding_error"))
    else if (s.state == 4 || s.state == 6) && t == 3 then
      if !env.Complete() then Missing(s, env)
      else s.(tick := t, log := s.log + [AskVow(if s.state == 4 then s.partner1 else s.partner2)])
    else if s.state == 5 && t == 1 then
      if !env.Complete() then Missing(s, env)
      else s.(tick := t, log := s.log + [SpeakVow(s.partner1)])
    else if s.state == 7 && t == 1 then
      if !env.Complete() then Missing(s, env)
      else Proceed(s.(log := s.log + [SpeakVow(s.partner2)]), env)
    else if t == Limit(s.state) then Proceed(s, env)
    else if s.state == 1 && t == 1 then s.(tick := t, log := s.log + [Music])
    else s.(tick := t)
  }

  /** The state in which a name's vow is awaited, 0 for anyone else. */
  function VowState(s: State, name: string): (n: int)
  {
    if name == s.partner1 then 4 else if name == s.partner2 then 6 else 0
  }

  function Vowed(s: State, name: string, sameMap: bool, env: Env): (r: State)
  {
    if VowState(s, name) == 0 || s.state != VowState(s, name) || !sameMap then s else Proceed(s, env)
  }

  /** Starting with somebody missing leaves the timer running for one tick. */
  function Started(s: State, name1: string, name2: string, env: Env): (r: State)
  {
    if s.state > 0 then s
    else
      var named := s.(partner1 := name1, partner2 := name2);
      if !env.Complete() then Missing(named, env).(timer := true)
      else Ticked(Proceed(named, env), env).(timer := true)
  }

  function Step(s: State, e: Event): (r: State)
  {
    match e
    case TimerTick(env) => Ticked(s, env)
    case SayIDo(name, sameMap, env) => Vowed(s, name, sameMap, env)
    case Start(name1, name2, env) => Started(s, name1, name2, env)
  }

  /** Never in state 13, and inside the time of the state. */
  predicate InTime(s: State)
  {
    && 0 <= s.state <= 12
    && (s.state == 0 ==> s.tick == 0)
    && (s.state != 0 ==> 0 <= s.tick < Limit(s.state))
  }

  /** Between two events the timer is running as well whenever a wedding is on. */
  predicate Settled(s: State)
  {
    InTime(s) && (s.state != 0 ==> s.timer)
  }

  lemma StepSettles(s: State, e: Event)
    requires Settled(s)
    ensures Settled(Step(s, e))
  {
  }

  // ---------------------------------------------------------------- the code

  class Wedding {
    var state: int
    var tick: int
    var tick_timer: bool
    var partner1: string
    var partner2: string
    var log: seq<Effect>

    function Value(): State
      reads this
    {
      State(state, tick, tick_timer, partner1, partner2, log)
    }

    constructor ()
      ensures Value() == Idle([])
    {
      state, tick, tick_timer, partner1, partner2, log := 0, 0, false, "", "", [];
    }

    method PriestSay(env: Env, key: string)
      modifies this`log
      ensures log == old(log) + Spoken(env, key)
    {
      if env.priest {
        log := log + [Say(key, [])];
      }
    }

    /** Only characters that are there can be shown, asked or married. */
    method Involve(env: Env, effect: Effect)
      requires env.p1 && env.p2
      modifies this`log
      ensures log == old(log) + [effect]
    {
      log := log + [effect];
    }

    method Reset()
      modifies this
      ensures Value() == Idle(old(log))
    {
      partner1 := "";
      partner2 := "";
      state := 0;
      tick := 0;
      tick_timer := false;
    }

    method ErrorOut(env: Env)
      modifies this
      ensures Value() == Idle(old(log) + Spoken(env, "wedding_error"))
    {
      PriestSay(env, "wedding_error");
      Reset();
    }

    /** The first tick of a state. Only 13 is ever entered with somebody missing. */
    method ChangeState(next: int, env: Env)
      requires 1 <= next <= 13 && (env.Complete() || next == 13)
      modifies this
      ensures Value() == if next == 13 then Idle(old(log) + Spoken(env, "wedding_finish2"))
                         else old(Value()).(state := next, tick := 0, log := old(log) + Opening(old(Value()), next))
      decreases 13 - next, 4
    {
      state := next;
      tick := -1;
      Tick(env);
    }

    method NextState(env: Env)
      requires 0 <= state <= 12
      modifies this
      ensures Value() == Proceed(old(Value()), env)
      decreases 13 - state, 1
    {
      var ok := Check(env);
      if !ok {
        return;
      }
      ChangeState(state + 1, env);
    }

    method Check(env: Env) returns (ok: bool)
      requires 0 <= state <= 12
      modifies this
      ensures ok == env.Complete()
      ensures Value() == if ok then old(Value()) else Missing(old(Value()), env)
      decreases 13 - state, 0
    {
      if !env.p1 || !env.p2 || !env.priest {
        if state < 8 {
          ErrorOut(env);
        } else {
          ChangeState(13, env);
        }
        return false;
      }
      return true;
    }

    /** Called by the timer between events, and with tick -1 on entering a state. */
    method Tick(env: Env)
      requires InTime(Value()) || (1 <= state <= 13 && tick == -1 && (env.Complete() || state == 13))
      modifies this
      ensures Value() ==
              if old(tick) != -1 then Ticked(old(Value()), env)
              else if old(state) == 13 then Idle(old(log) + Spoken(env, "wedding_finish2"))
              else old(Value()).(tick := 0, log := old(log) + Opening(old(Value()), old(state)))
      decreases 13 - state, 3
    {
      if state != 0 {
        tick := tick + 1;
      }
      match state {
        case 0 =>
          tick_timer := false;
        case 1 =>
          if tick == 0 {
            PriestSay(env, "wedding_wait");
          } else if tick == 1 {
            log := log + [Music];
          } else if tick == 20 {
            NextState(env);
          }
        case 2 =>
          if tick == 0 {
            Involve(env, Say("wedding_text1", [partner1, partner2]));
          } else if tick == 6 {
            NextState(env);
          }
        case 3 =>
          if tick == 0 {
            PriestSay(env, "wedding_text2");
          } else if tick == 6 {
            NextState(env);
          }
        case 4 => VowTick(env);
        case 5 => VowTick(env);
        case 6 => VowTick(env);
        case 7 => VowTick(env);
        case 8 =>
          if tick == 0 {
            Involve(env, Marry(partner1, partner2));
          }
          if tick == 6 {
            NextState(env);
          }
        case 9 =>
          if tick == 0 {
            PriestSay(env, "wedding_ring1");
          } else if tick == 6 {
            NextState(env);
          }
        case 10 =>
          if tick == 0 {
            PriestSay(env, "wedding_ring2");
          } else if tick == 5 {
            NextState(env);
          }
        case 11 =>
          if tick == 0 {
            Involve(env, Hearts);
          } else if tick == 1 {
            NextState(env);
          }
        case 12 =>
          if tick == 0 {
            Involve(env, Say("wedding_finish1", [partner1, partner2]));
            log := log + [Fizz];
          } else if tick == 5 {
            NextState(env);
          }
        case 13 =>
          if tick == 0 {
            PriestSay(env, "wedding_finish2");
            Reset();
          }
        case _ =>
          // Any other state would call the wedding off; there is none.
          assert false;
      }
    }

    /** The four states of the vows, after `tick` has been counted. */
    method VowTick(env: Env)
      requires 4 <= state <= 7 && 0 <= tick <= Limit(state) && (tick == 0 ==> env.Complete())
      modifies this
      ensures Value() ==
              if old(tick) != 0 then Ticked(old(Value()).(tick := old(tick) - 1), env)
              else old(Value()).(log := old(log) + Opening(old(Value()), old(state)))
      decreases 13 - state, 2
    {
      match state {
        case 4 =>
          if tick == 0 {
            Involve(env, Say("wedding_doyou", [partner1, partner2]));
          } else if tick == 3 {
            var ok := Check(env);
            if ok {
              Involve(env, AskVow(partner1));
            }
          } else if tick == 13 {
            ErrorOut(env);
          }
        case 5 =>
          if tick == 1 {
            var ok := Check(env);
            if ok {
              Involve(env, SpeakVow(partner1));
            }
          }
          if tick == 7 {
            NextState(env);
          }
        case 6 =>
          if tick == 0 {
            Involve(env, Say("wedding_doyou", [partner2, partner1]));
          } else if tick == 3 {
            var ok := Check(env);
            if ok {
              Involve(env, AskVow(partner2));
            }
          } else if tick == 13 {
            ErrorOut(env);
          }
        case 7 =>
          if tick == 1 {
            var ok := Check(env);
            if ok {
              Involve(env, SpeakVow(partner2));
              NextState(env);
            }
          }
        case _ =>
          assert false;
      }
    }

    method StartWedding(name1: string, name2: string, env: Env) returns (started: bool)
      requires Settled(Value())
      modifies this
      ensures started == (old(state) == 0)
      ensures Value() == Started(old(Value()), name1, name2, env)
    {
      if state > 0 {
        return false;
      }
      partner1 := name1;
      partner2 := name2;
      NextState(env);
      Tick(env);
      tick_timer := true;
      return true;
    }

    method IDo(name: string, sameMap: bool, env: Env)
      requires Settled(Value())
      modifies this
      ensures Value() == Vowed(old(Value()), name, sameMap, env)
    {
      var required_state := 0;
      if name == partner1 {
        required_state := 4;
      } else if name == partner2 {
        required_state := 6;
      }
      if required_state == 0 || state != required_state {
        return;
      }
      if !sameMap {
        return;
      }
      NextState(env);
    }
  }

  // ---------------------------------------------------------------- runs

  /** `Trace(s, es)[k]` is the state before event `k`. */
  function Trace(s: State, es: seq<Event>): (r: seq<State>)
    ensures |r| == |es| + 1 && r[0] == s
    ensures forall k | 0 <= k < |es| :: r[k + 1] == Step(r[k], es[k])
    decreases |es|
  {
    if es == [] then [s]
    else
      var rest := Trace(Step(s, es[0]), es[1..]);
      assert forall k | 1 <= k < |es| :: es[k] == es[1..][k - 1];
      [s] + rest
  }

  lemma {:induction false} TraceSettled(s: State, es: seq<Event>, k: nat)
    requires Settled(s) && k <= |es|
    ensures Settled(Trace(s, es)[k])
  {
    if k > 0 {
      TraceSettled(s, es, k - 1);
      StepSettles(Trace(s, es)[k - 1], es[k - 1]);
    }
  }

  /** Ticks until a wedding in this state and tick must be over. */
  function TicksLeft(state: int, tick: int): (n: int)
    requires 1 <= state <= 12
    decreases 12 - state
  {
    Limit(state) - tick + if state == 12 then 0 else TicksLeft(state + 1, 0)
  }

  function Remaining(s: State): (n: int)
    requires Settled(s)
  {
    if s.state == 0 then 0 else TicksLeft(s.state, s.tick)
  }

  lemma {:induction false} TicksLeftBounds(state: int, tick: int)
    requires 1 <= state <= 12 && 0 <= tick < Limit(state)
    ensures 1 <= TicksLeft(state, tick)
    ensures state < 12 ==> TicksLeft(state + 1, 0) < TicksLeft(state, tick)
    decreases 12 - state
  {
    if state < 12 {
      TicksLeftBounds(state + 1, 0);
    }
  }

  function IsTick(e: Event): (n: nat)
  {
    if e.TimerTick? then 1 else 0
  }

  /** Every tick brings the end nearer, and no vow or refused start moves it away. */
  lemma StepRemaining(s: State, e: Event)
    requires Settled(s) && Settled(Step(s, e)) && s.state != 0
    ensures Remaining(s) >= 1
    ensures Remaining(Step(s, e)) <= Remaining(s) - IsTick(e)
  {
    TicksLeftBounds(s.state, s.tick);
  }

  function Ticks(es: seq<Event>): (n: nat)
  {
    if es == [] then 0 else IsTick(es[0]) + Ticks(es[1..])
  }

  /** A wedding that is on comes to an end, married or not, within as many ticks as its state has left,
      whatever the couple and the priest do. */
  lemma {:induction false} ComesToAnEnd(s: State, es: seq<Event>)
    requires Settled(s) && Ticks(es) >= Remaining(s)
    ensures exists k | 0 <= k <= |es| :: Trace(s, es)[k].state == 0
    decreases |es|
  {
    if s.state == 0 {
      assert Trace(s, es)[0].state == 0;
    } else if es == [] {
      TicksLeftBounds(s.state, s.tick);
      assert false;
    } else {
      var t := Step(s, es[0]);
      StepSettles(s, es[0]);
      StepRemaining(s, es[0]);
      ComesToAnEnd(t, es[1..]);
      var k :| 0 <= k <= |es| - 1 && Trace(t, es[1..])[k].state == 0;
      assert Trace(s, es)[k + 1].state == 0;
    }
  }

  lemma {:induction false} TicksFrom(state: int)
    requires 1 <= state <= 12
    ensures TicksLeft(state, 0) == [89, 69, 63, 57, 44, 37, 24, 23, 17, 11, 6, 5][state - 1]
    decreases 12 - state
  {
    if state < 12 {
      TicksFrom(state + 1);
    }
  }

  /** From the moment it starts that is at most 88 ticks. */
  lemma EightyEightTicks(s: State, name1: string, name2: string, env: Env, es: seq<Event>)
    requires Settled(s) && s.state == 0 && Ticks(es) >= 88
    ensures exists k | 0 <= k <= |es| :: Trace(Started(s, name1, name2, env), es)[k].state == 0
  {
    StartedTicksLeft(s, name1, name2, env);
    hide Started, Settled;
    ComesToAnEnd(Started(s, name1, name2, env), es);
  }

  lemma StartedTicksLeft(s: State, name1: string, name2: string, env: Env)
    requires Settled(s) && s.state == 0
    ensures var t := Started(s, name1, name2, env);
            Settled(t) && Remaining(t) == if env.Complete() then 88 else 0
  {
    TicksFrom(1);
    TicksFrom(2);
  }

  /** A step stays, moves on by one, or ends the wedding; names change only when a wedding starts. */
  lemma StepMoves(s: State, e: Event)
    requires Settled(s)
    ensures var t := Step(s, e);
            && t.state in {0, s.state, s.state + 1}
            && (s.state != 0 && t.state != 0 ==> t.partner1 == s.partner1 && t.partner2 == s.partner2)
            && (s.state == 0 && t.state == 1 ==>
                  e.Start? && t.partner1 == e.name1 && t.partner2 == e.name2)
            && (s.state == 4 && t.state == 5 ==> e.SayIDo? && e.name == s.partner1 && e.sameMap && e.env.Complete())
            && (s.state == 6 && t.state == 7 ==> e.SayIDo? && e.name == s.partner2 && e.sameMap && e.env.Complete())
  {
  }

  /** If a run from idle is at or past `level`, it passed from `level - 1` to `level` at some last point,
      and the wedding has been on, with the same couple, ever since. */
  lemma {:induction false} LastPassage(s: State, es: seq<Event>, level: int, k: nat) returns (i: nat)
    requires Settled(s) && s.state == 0 && k <= |es| && level >= 1 && Trace(s, es)[k].state >= level
    ensures i < k && Trace(s, es)[i].state == level - 1 && Trace(s, es)[i + 1].state == level
    ensures forall l | i < l <= k :: Trace(s, es)[l].state >= level
    ensures Trace(s, es)[i + 1].partner1 == Trace(s, es)[k].partner1
    ensures Trace(s, es)[i + 1].partner2 == Trace(s, es)[k].partner2
  {
    var tr := Trace(s, es);
    TraceSettled(s, es, k - 1);
    StepMoves(tr[k - 1], es[k - 1]);
    if tr[k - 1].state >= level {
      i := LastPassage(s, es, level, k - 1);
    } else {
      i := k - 1;
    }
  }

  lemma {:induction false} SameCoupleSince(s: State, es: seq<Event>, from: nat, i: nat, k: nat)
    requires Settled(s) && from < i <= k <= |es|
    requires forall l | from < l <= k :: Trace(s, es)[l].state != 0
    ensures Trace(s, es)[i].partner1 == Trace(s, es)[k].partner1
    ensures Trace(s, es)[i].partner2 == Trace(s, es)[k].partner2
    decreases k
  {
    if i < k {
      SameCoupleSince(s, es, from, i, k - 1);
      TraceSettled(s, es, k - 1);
      StepMoves(Trace(s, es)[k - 1], es[k - 1]);
    }
  }

  /** The step into state 8 is a tick with everybody there, and marries the couple of the moment. */
  lemma MarryingStep(s: State, e: Event)
    requires Settled(s) && s.state == 7 && Step(s, e).state == 8
    ensures e.TimerTick? && e.env.Complete()
    ensures Step(s, e).log == s.log + [SpeakVow(s.partner2), Marry(s.partner1, s.partner2)]
  {
  }

  /** The only event that marries anybody is the one that leads from state 7 to 8: no other adds a marriage to what
      has happened, and none takes anything back. */
  lemma OnlyStateEightMarries(s: State, e: Event)
    requires Settled(s)
    ensures s.log <= Step(s, e).log
    ensures (exists i :: |s.log| <= i < |Step(s, e).log| && Step(s, e).log[i].Marry?)
            <==> s.state == 7 && Step(s, e).state == 8
  {
    var t := Step(s, e);
    if s.state == 7 && t.state == 8 {
      MarryingStep(s, e);
      assert t.log[|s.log| + 1].Marry?;
    } else {
      OthersMarryNobody(s, e);
    }
  }

  lemma OthersMarryNobody(s: State, e: Event)
    requires Settled(s) && !(s.state == 7 && Step(s, e).state == 8)
    ensures s.log <= Step(s, e).log
    ensures forall i | |s.log| <= i < |Step(s, e).log| :: !Step(s, e).log[i].Marry?
  {
  }

  // ---------------------------------------------------------------- who is asked, and who speaks

  /** An effect is among those of an event. */
  predicate Brings(s: State, e: Event, effect: Effect)
  {
    var t := Step(s, e);
    s.log <= t.log && effect in t.log[|s.log|..]
  }

  /** A partner is asked for the vow exactly three ticks into the state in which "I do" from that very partner moves
      the ceremony on; that is 4 for the first one named and 6 for the second. */
  lemma AskedWhenAwaited(s: State, e: Event, name: string)
    requires Settled(s) && s.partner1 != s.partner2
    ensures Brings(s, e, AskVow(name)) <==>
            e.TimerTick? && e.env.Complete() && s.tick == 2
            && ((s.state == 4 && name == s.partner1) || (s.state == 6 && name == s.partner2))
    ensures Brings(s, e, AskVow(name)) ==>
              forall env: Env :: env.Complete() ==> Step(Step(s, e), SayIDo(name, true, env)).state == s.state + 1
  {
    hide Limit;
    Asked(s, e, name);
  }

  lemma Asked(s: State, e: Event, name: string)
    requires Settled(s)
    ensures Brings(s, e, AskVow(name)) <==>
            e.TimerTick? && e.env.Complete() && s.tick == 2
            && ((s.state == 4 && name == s.partner1) || (s.state == 6 && name == s.partner2))
  {
  }

  /** A vow is spoken one tick into the state after it was given: the first partner's in 5, the second's in 7, on the
      way to the marriage. */
  lemma SpokenByWhoGaveIt(s: State, e: Event, name: string)
    requires Settled(s)
    ensures Brings(s, e, SpeakVow(name)) <==>
            e.TimerTick? && e.env.Complete() && s.tick == 0
            && ((s.state == 5 && name == s.partner1) || (s.state == 7 && name == s.partner2))
  {
    if s.state == 7 && s.tick == 0 && e.TimerTick? && e.env.Complete() {
      MarryingStep(s, e);
      assert Step(s, e).log[|s.log|..] == [SpeakVow(s.partner2), Marry(s.partner1, s.partner2)];
    }
  }

  /** Somebody who says "I do" is heard only in the state of the own vow, on the map of the wedding. */
  lemma HeardOnlyWhenAsked(s: State, name: string, sameMap: bool, env: Env)
    requires Settled(s) && s.partner1 != s.partner2
    ensures Step(s, SayIDo(name, sameMap, env)) != s <==>
            sameMap && ((s.state == 4 && name == s.partner1) || (s.state == 6 && name == s.partner2))
  {
  }

  // ---------------------------------------------------------------- a ceremony from end to end

  ghost function Ticking(s: State, n: nat): (r: State)
  {
    if n == 0 then s else Ticked(Ticking(s, n - 1), ALL)
  }

  const ALL := Env(true, true, true)

  /** Nothing happens at this tick of a state. */
  predicate Quiet(state: int, tick: int)
  {
    && tick != Limit(state)
    && !(state == 1 && tick == 1) && !(state in {4, 6} && tick == 3) && !(state in {5, 7} && tick == 1)
  }

  lemma {:induction false} Waiting(s: State, n: nat)
    requires s.state != 0 && forall t | s.tick < t <= s.tick + n :: Quiet(s.state, t)
    ensures Ticking(s, n) == s.(tick := s.tick + n)
  {
    if n > 0 {
      Waiting(s, n - 1);
      assert Quiet(s.state, s.tick + n);
    }
  }

  /** `n` ticks, of which only the last one is not quiet. */
  lemma LastTick(s: State, n: nat)
    requires n > 0 && s.state != 0 && forall t | s.tick < t < s.tick + n :: Quiet(s.state, t)
    ensures Ticking(s, n) == Ticked(s.(tick := s.tick + (n - 1)), ALL)
  {
    Waiting(s, n - 1);
  }

  /** The last tick of a state that is no vow leads on to the next. */
  lemma Onward(s: State, n: nat)
    requires n > 0 && 1 <= s.state <= 11 && s.state !in {4, 6, 7} && s.tick >= 0 && s.tick + n == Limit(s.state)
    requires forall t | s.tick < t < s.tick + n :: Quiet(s.state, t)
    ensures Ticking(s, n) == s.(state := s.state + 1, tick := 0, log := s.log + Opening(s, s.state + 1))
  {
    LastTick(s, n);
  }

  lemma {:induction false} TickingSum(s: State, a: nat, b: nat)
    ensures Ticking(s, a + b) == Ticking(Ticking(s, a), b)
  {
    hide Ticked;
    if b > 0 {
      TickingSum(s, a, b - 1);
      assert a + b - 1 == a + (b - 1);
    }
  }

  /** Everybody stays and gives the vow when asked. Then this is what happens, in this order, and it takes 68 ticks of
      the timer: 19 of waiting, 6 for each of the two texts, 3 until the first is asked; 7 and 3 until the second is;
      1 to the marriage; 6, 6, 5, 1 and 5 to the end. */
  lemma WholeCeremony(p1: string, p2: string)
    requires p1 != p2
    ensures var start := Step(Idle([]), Start(p1, p2, ALL));
            var asked1 := Ticking(start, 19 + 6 + 6 + 3);
            var asked2 := Ticking(Step(asked1, SayIDo(p1, true, ALL)), 7 + 3);
            var end := Ticking(Step(asked2, SayIDo(p2, true, ALL)), 1 + 6 + 6 + 5 + 1 + 5);
            end == Idle(UpToFirstVow(p1, p2) + UpToSecondVow(p1, p2) + UpToTheEnd(p1, p2))
  {
    var start := Step(Idle([]), Start(p1, p2, ALL));
    FirstAsked(p1, p2);
    var asked1 := Ticking(start, 34);
    var given1 := Step(asked1, SayIDo(p1, true, ALL));
    SecondAsked(given1, p1, p2);
    var asked2 := Ticking(given1, 10);
    var given2 := Step(asked2, SayIDo(p2, true, ALL));
    Married(given2, p1, p2);
  }

  function UpToFirstVow(p1: string, p2: string): seq<Effect>
  {
    [Say("wedding_wait", []), Music, Say("wedding_text1", [p1, p2]), Say("wedding_text2", []),
     Say("wedding_doyou", [p1, p2]), AskVow(p1)]
  }

  function UpToSecondVow(p1: string, p2: string): seq<Effect>
  {
    [SpeakVow(p1), Say("wedding_doyou", [p2, p1]), AskVow(p2)]
  }

  function UpToTheEnd(p1: string, p2: string): seq<Effect>
  {
    [SpeakVow(p2), Marry(p1, p2), Say("wedding_ring1", []), Say("wedding_ring2", []), Hearts,
     Say("wedding_finish1", [p1, p2]), Fizz, Say("wedding_finish2", [])]
  }

  /** A stage of a ceremony: after `n` ticks more, `effects` more. */
  lemma Stage(s: State, a: nat, mid: State, n: nat, effects: seq<Effect>)
    requires mid == Ticking(s, a) && n > 0 && 1 <= mid.state <= 11 && mid.state !in {4, 6, 7}
    requires mid.tick >= 0 && mid.tick + n == Limit(mid.state)
    requires forall t | mid.tick < t < mid.tick + n :: Quiet(mid.state, t)
    requires Opening(mid, mid.state + 1) == effects
    ensures Ticking(s, a + n) == mid.(state := mid.state + 1, tick := 0, log := mid.log + effects)
  {
    hide Limit, Quiet, Opening, Ticking;
    Onward(mid, n);
    TickingSum(s, a, n);
  }

  lemma FirstAsked(p1: string, p2: string)
    ensures Ticking(Step(Idle([]), Start(p1, p2, ALL)), 34) == State(4, 3, true, p1, p2, UpToFirstVow(p1, p2))
  {
    var s := Step(Idle([]), Start(p1, p2, ALL));
    WaitingForMusic(p1, p2);
    hide Ticking, Ticked, Step;
    Stage(s, 0, s, 19, [Say("wedding_text1", [p1, p2])]);
    Stage(s, 19, Ticking(s, 19), 6, [Say("wedding_text2", [])]);
    Stage(s, 25, Ticking(s, 25), 6, [Say("wedding_doyou", [p1, p2])]);
    AskedFor(Ticking(s, 31));
    TickingSum(s, 31, 3);
  }

  lemma WaitingForMusic(p1: string, p2: string)
    ensures var s := Step(Idle([]), Start(p1, p2, ALL));
            s == State(1, 1, true, p1, p2, [Say("wedding_wait", []), Music]) && Ticking(s, 0) == s
  {
  }

  lemma AskedFor(s: State)
    requires s.state in {4, 6} && s.tick == 0
    ensures Ticking(s, 3) ==
            s.(tick := 3, log := s.log + [AskVow(if s.state == 4 then s.partner1 else s.partner2)])
  {
    LastTick(s, 3);
  }

  lemma VowSpoken(s: State)
    requires s.state == 5 && s.tick == 0
    ensures Ticking(s, 1) == s.(tick := 1, log := s.log + [SpeakVow(s.partner1)])
  {
    LastTick(s, 1);
  }

  lemma SecondAsked(s: State, p1: string, p2: string)
    requires s.state == 5 && s.tick == 0 && s.partner1 == p1 && s.partner2 == p2
    ensures Ticking(s, 10) == s.(state := 6, tick := 3, log := s.log + UpToSecondVow(p1, p2))
  {
    hide Ticking, Ticked;
    VowSpoken(s);
    Stage(s, 1, Ticking(s, 1), 6, [Say("wedding_doyou", [p2, p1])]);
    AskedFor(Ticking(s, 7));
    TickingSum(s, 7, 3);
  }

  lemma MarryingTick(s: State)
    requires s.state == 7 && s.tick == 0
    ensures Ticking(s, 1) == s.(state := 8, log := s.log + [SpeakVow(s.partner2), Marry(s.partner1, s.partner2)])
  {
    LastTick(s, 1);
  }

  lemma LastWords(s: State)
    requires s.state == 12 && s.tick == 0
    ensures Ticking(s, 5) == Idle(s.log + [Say("wedding_finish2", [])])
  {
    LastTick(s, 5);
  }

  lemma Married(s: State, p1: string, p2: string)
    requires s.state == 7 && s.tick == 0 && s.partner1 == p1 && s.partner2 == p2
    ensures Ticking(s, 24) == Idle(s.log + UpToTheEnd(p1, p2))
  {
    hide Ticking, Ticked;
    MarryingTick(s);
    Stage(s, 1, Ticking(s, 1), 6, [Say("wedding_ring1", [])]);
    Stage(s, 7, Ticking(s, 7), 6, [Say("wedding_ring2", [])]);
    Stage(s, 13, Ticking(s, 13), 5, [Hearts]);
    Stage(s, 18, Ticking(s, 18), 1, [Say("wedding_finish1", [p1, p2]), Fizz]);
    LastWords(Ticking(s, 19));
    TickingSum(s, 19, 5);
    Together(s.log, p1, p2);
  }

  lemma Together(log: seq<Effect>, p1: string, p2: string)
    ensures log + [SpeakVow(p2), Marry(p1, p2)] + [Say("wedding_ring1", [])] + [Say("wedding_ring2", [])] + [Hearts]
            + [Say("wedding_finish1", [p1, p2]), Fizz] + [Say("wedding_finish2", [])] == log + UpToTheEnd(p1, p2)
  {
  }

  // ---------------------------------------------------------------- somebody is missing

  /** Whoever is not there when it matters ends the ceremony: with an apology of the priest before the marriage, with
      the last words after it, and without a word if the priest is not there himself. It matters at the end of every
      state, when a vow is asked for or spoken, and when one is given; waiting for a vow ends in the apology by
      itself. */
  lemma MissingEnds(s: State, e: Event)
    requires Settled(s) && s.state != 0 && !e.Start? && !e.env.Complete()
    ensures var t := Step(s, e);
            var matters := if e.TimerTick?
                           then s.tick + 1 == Limit(s.state) || (s.state in {4, 6} && s.tick == 2)
                                || (s.state in {5, 7} && s.tick == 0)
                           else e.sameMap && ((s.state == 4 && e.name == s.partner1)
                                              || (s.state == 6 && e.name == s.partner2 && e.name != s.partner1));
            && (t.state == 0 <==> matters)
            && (matters ==> t == Idle(s.log + if !e.env.priest then []
                                              else if s.state < 8 then [Say("wedding_error", [])]
                                              else [Say("wedding_finish2", [])]))
            && (!matters ==> t == s || t == s.(tick := s.tick + 1) || t == s.(tick := 1, log := s.log + [Music]))
  {
  }

  /** A vow that is not given within 13 ticks calls the wedding off, whoever is there. */
  lemma VowTimesOut(s: State, env: Env)
    requires Settled(s) && s.state in {4, 6} && s.tick == 12
    ensures Step(s, TimerTick(env)) == Idle(s.log + if env.priest then [Say("wedding_error", [])] else [])
  {
  }

  /** The last start, and what it named, for a wedding in state 7. */
  lemma StartedBefore(s: State, es: seq<Event>, k: nat) returns (i: nat)
    requires Settled(s) && s.state == 0 && k <= |es| && Trace(s, es)[k].state >= 1
    ensures i < k && es[i].Start? && Trace(s, es)[i].state == 0
    ensures forall l | i < l <= k :: Trace(s, es)[l].state != 0
    ensures forall l | i < l <= k :: Trace(s, es)[l].partner1 == es[i].name1 && Trace(s, es)[l].partner2 == es[i].name2
  {
    hide Step, Settled;
    i := LastPassage(s, es, 1, k);
    TraceSettled(s, es, i);
    StepMoves(Trace(s, es)[i], es[i]);
    forall l | i < l <= k
      ensures Trace(s, es)[l].partner1 == es[i].name1 && Trace(s, es)[l].partner2 == es[i].name2
    {
      SameCoupleSince(s, es, i, l, k);
    }
  }

  /** The vow that let a wedding past state 4 or 6, spoken by the partner it was asked of. */
  lemma VowBefore(s: State, es: seq<Event>, level: int, k: nat) returns (i: nat)
    requires Settled(s) && s.state == 0 && k <= |es| && level in {5, 7} && Trace(s, es)[k].state >= level
    ensures i < k && es[i].SayIDo? && es[i].sameMap && Trace(s, es)[i].state == level - 1
    ensures es[i].name == if level == 5 then Trace(s, es)[i].partner1 else Trace(s, es)[i].partner2
    ensures forall l | i < l <= k :: Trace(s, es)[l].state >= level
  {
    hide Step, Settled;
    i := LastPassage(s, es, level, k);
    TraceSettled(s, es, i);
    StepMoves(Trace(s, es)[i], es[i]);
  }

  /** Nobody is married without both vows. If event `k` of a run from idle moves a wedding into state 8, which
      marries (see `OnlyStateEightMarries`), then since the start that named this couple the first partner said
      "I do" in state 4, after that the second one did in state 6, and the wedding never stopped in between. */
  lemma MarriedOnlyAfterBothVows(s: State, es: seq<Event>, k: nat) returns (i0: nat, i1: nat, i2: nat)
    requires Settled(s) && s.state == 0 && k < |es|
    requires Trace(s, es)[k].state == 7 && Trace(s, es)[k + 1].state == 8
    ensures i0 < i1 < i2 < k
    ensures es[i0].Start? && Trace(s, es)[i0].state == 0
    ensures es[i1].SayIDo? && es[i1].sameMap && es[i1].name == es[i0].name1 && Trace(s, es)[i1].state == 4
    ensures es[i2].SayIDo? && es[i2].sameMap && es[i2].name == es[i0].name2 && Trace(s, es)[i2].state == 6
    ensures forall l | i0 < l <= k :: Trace(s, es)[l].state != 0
    ensures Trace(s, es)[k + 1].log ==
            Trace(s, es)[k].log + [SpeakVow(es[i0].name2), Marry(es[i0].name1, es[i0].name2)]
  {
    hide Step, Settled;
    i2 := VowBefore(s, es, 7, k);
    i1 := VowBefore(s, es, 5, i2);
    i0 := StartedBefore(s, es, k);
    assert i0 < i1 by {
      assert i0 < i2;
    }
    TraceSettled(s, es, k);
    MarryingStep(Trace(s, es)[k], es[k]);
  }
}
