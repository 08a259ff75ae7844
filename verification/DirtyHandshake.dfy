/**
 The dirty-page list and its flag, shared by writers and drainers without a common lock. A writer
 pushes its page, then sets the flag; a drainer loads the flag, swaps it, then takes the list.
 */
module DirtyHandshake {
  datatype Phase = Idle | Pushed | Loaded | Swapped

  /** `pushed` and `taken` record every page that ever went in and came out. */
  datatype System = System(list: seq<nat>, flag: bool, threads: map<nat, Phase>,
                           pushed: multiset<nat>, taken: multiset<nat>)

  datatype Action = Push(t: nat, page: nat) | SetFlag(t: nat) | Load(t: nat) | Swap(t: nat) | Take(t: nat)

  predicate Enabled(s: System, a: Action) {
    a.t in s.threads &&
    s.threads[a.t] == match a
                      case Push(_, _) => Idle
                      case SetFlag(_) => Pushed
                      case Load(_) => Idle
                      case Swap(_) => Loaded
                      case Take(_) => Swapped
  }

  function Next(s: System, a: Action): System
    requires Enabled(s, a)
  {
    match a
    case Push(t, page) =>
      s.(list := s.list + [page], threads := s.threads[t := Pushed], pushed := s.pushed + multiset{page})
    case SetFlag(t) => s.(flag := true, threads := s.threads[t := Idle])
    case Load(t) => s.(threads := s.threads[t := if s.flag then Loaded else Idle])
    case Swap(t) => s.(flag := false, threads := s.threads[t := if s.flag then Swapped else Idle])
    case Take(t) => s.(list := [], threads := s.threads[t := Idle], taken := s.taken + multiset(s.list))
  }

  ghost predicate IsRun(s: System, actions: seq<Action>)
    decreases |actions|
  {
    actions == [] || (Enabled(s, actions[0]) && IsRun(Next(s, actions[0]), actions[1..]))
  }

  function Run(s: System, actions: seq<Action>): System
    requires IsRun(s, actions)
    decreases |actions|
  {
    if actions == [] then s else Run(Next(s, actions[0]), actions[1..])
  }

  /** A thread that will set the flag, or has claimed it and will take the list. */
  ghost predicate MidProtocol(s: System) {
    exists t | t in s.threads :: s.threads[t] == Pushed || s.threads[t] == Swapped
  }

  ghost predicate Accounted(s: System) {
    && s.pushed == s.taken + multiset(s.list)
    && (s.list != [] ==> s.flag || MidProtocol(s))
  }

  lemma StepKeeps(s: System, a: Action)
    requires Accounted(s) && Enabled(s, a)
    ensures Accounted(Next(s, a))
  {
    var t := Next(s, a);
    match a
    case Push(me, page) =>
      assert t.threads[me] == Pushed;
    case SetFlag(_) =>
    case Take(_) =>
    case Load(me) => Carries(s, t, me);
    case Swap(me) =>
      if s.flag {
        assert t.threads[me] == Swapped;
      } else {
        Carries(s, t, me);
      }
  }

  lemma Carries(s: System, t: System, me: nat)
    requires me in s.threads && (s.threads[me] == Idle || s.threads[me] == Loaded)
    requires me in t.threads && t.threads == s.threads[me := t.threads[me]]
    ensures MidProtocol(s) ==> MidProtocol(t)
  {
    if MidProtocol(s) {
      var w :| w in s.threads && (s.threads[w] == Pushed || s.threads[w] == Swapped);
      assert t.threads[w] == s.threads[w];
    }
  }

  lemma InitiallyAccounted(threads: map<nat, Phase>)
    ensures Accounted(System([], false, threads, multiset{}, multiset{}))
  {
  }

  /** Theorem: in every interleaving no page is lost, and none is left behind a clear flag with nobody on its way. */
  lemma {:induction false} NoPageLost(s: System, actions: seq<Action>)
    requires Accounted(s) && IsRun(s, actions)
    ensures Accounted(Run(s, actions))
    decreases |actions|
  {
    hide Accounted;
    hide Next;
    hide Enabled;
    if actions != [] {
      StepKeeps(s, actions[0]);
      NoPageLost(Next(s, actions[0]), actions[1..]);
    }
  }

  /** Theorem: once every thread is idle, one drain takes all that was ever pushed and not yet taken. */
  lemma QuietDrainTakesAll(s: System, t: nat)
    requires Accounted(s) && t in s.threads && s.list != []
    requires forall w | w in s.threads :: s.threads[w] == Idle
    ensures IsRun(s, [Load(t), Swap(t), Take(t)])
    ensures var r := Run(s, [Load(t), Swap(t), Take(t)]); r.taken == r.pushed == s.pushed && r.list == []
  {
    assert !MidProtocol(s);
    var s1 := Next(s, Load(t));
    var s2 := Next(s1, Swap(t));
    var s3 := Next(s2, Take(t));
    assert [Load(t), Swap(t), Take(t)][1..] == [Swap(t), Take(t)];
    assert [Swap(t), Take(t)][1..] == [Take(t)];
    assert [Take(t)][1..] == [];
    assert IsRun(s3, []) && Run(s3, []) == s3;
    assert IsRun(s2, [Take(t)]) && Run(s2, [Take(t)]) == s3;
    assert IsRun(s1, [Swap(t), Take(t)]) && Run(s1, [Swap(t), Take(t)]) == s3;
  }
}
