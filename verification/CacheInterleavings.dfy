/**
 Any number of vcpus taking the cache's locks in any order. Each step below is what one lock-holding
 section does; a tier-up is three of them: snapshot the epoch, look the unit up, swap it in.
 */
module CacheInterleavings {
  import opened Pages
  import opened CodeState

  datatype Tier = Cold | Hot

  /** How far a vcpu is through a tier-up. */
  datatype Vcpu = Idle | Snapped(since: nat) | Holding(since: nat, key: nat, spans: seq<Span>)

  datatype System = System(blocks: map<nat, Tier>, spans: map<nat, seq<Span>>, tagged: set<nat>, epoch: nat,
                           vcpus: map<nat, Vcpu>)

  datatype Action =
    | Insert(key: nat, spans: seq<Span>, tier: Tier)
    | Invalidate(page: nat)
    | Snapshot(v: nat)
    | Lookup(v: nat, key: nat)
    | Upgrade(v: nat)
    | UpgradeRegion(v: nat, spans: seq<Span>)

  function Next(s: System, a: Action): System {
    match a
    case Insert(key, spans, tier) =>
      s.(blocks := s.blocks[key := tier], spans := s.spans[key := spans], tagged := s.tagged + PagesOf(spans))
    case Invalidate(page) =>
      var victims := Victims(s.spans, page * PAGE, page * PAGE + PAGE);
      s.(blocks := s.blocks - victims, spans := s.spans - victims, tagged := s.tagged - {page},
         epoch := if victims == {} then s.epoch else s.epoch + 1)
    case Snapshot(v) => s.(vcpus := s.vcpus[v := Snapped(s.epoch)])
    case Lookup(v, key) =>
      if v in s.vcpus && s.vcpus[v].Snapped? && key in s.blocks && key in s.spans then
        s.(vcpus := s.vcpus[v := Holding(s.vcpus[v].since, key, s.spans[key])])
      else s
    case Upgrade(v) =>
      if v in s.vcpus && s.vcpus[v].Holding? then
        var h, t := s.vcpus[v], s.(vcpus := s.vcpus[v := Idle]);
        if h.since == s.epoch then t.(blocks := s.blocks[h.key := Hot], spans := s.spans[h.key := h.spans]) else t
      else s
    case UpgradeRegion(v, spans) =>
      if v in s.vcpus && s.vcpus[v].Holding? then
        var h, t := s.vcpus[v], s.(vcpus := s.vcpus[v := Idle]);
        if h.since == s.epoch then
          t.(blocks := s.blocks[h.key := Hot], spans := s.spans[h.key := spans], tagged := s.tagged + PagesOf(spans))
        else t
      else s
  }

  function Run(s: System, actions: seq<Action>): System
    decreases |actions|
  {
    if actions == [] then s else Run(Next(s, actions[0]), actions[1..])
  }

  /** What the cache holds, the tags and the epoch are those of a one-vcpu state. */
  ghost predicate Matches(s: System, t: State) {
    s.spans == t.spans && s.blocks.Keys == t.blocks.Keys && s.tagged == t.tagged && s.epoch == t.epoch
  }

  /** Theorem: each locked section does to the cache what the same operation does for one vcpu. */
  lemma StepsAgree(s: System, t: State, page: nat, block: Cached, tier: Tier, v: nat)
    requires Matches(s, t)
    ensures Matches(Next(s, Invalidate(page)), DropPage(t, page))
    ensures Matches(Next(s, Insert(block.unit.key, block.unit.spans, tier)), Inserted(t, block))
    ensures v in s.vcpus && s.vcpus[v].Holding? && s.vcpus[v].key == block.unit.key ==>
              && (s.vcpus[v].since == s.epoch ==>
                    Matches(Next(s, UpgradeRegion(v, block.unit.spans)), Promoted(t, block.unit)))
              && (s.vcpus[v].since != s.epoch ==> Matches(Next(s, UpgradeRegion(v, block.unit.spans)), t))
  {
    hide PagesOf;
    hide Victims;
  }

  // ---- What every step keeps ----

  /** An upgrade that would still be let through swaps a live unit, all of whose pages are covered. */
  ghost predicate HolderOk(h: Vcpu, s: System) {
    match h
    case Idle => true
    case Snapped(since) => since <= s.epoch
    case Holding(since, key, spans) =>
      && since <= s.epoch && NonEmpty(spans)
      && (since == s.epoch ==> key in s.blocks && PagesOf(spans) <= Covered(s.spans))
  }

  ghost predicate Consistent(s: System) {
    && s.blocks.Keys == s.spans.Keys
    && (forall k | k in s.spans :: NonEmpty(s.spans[k]))
    && Covered(s.spans) <= s.tagged
    && forall v | v in s.vcpus :: HolderOk(s.vcpus[v], s)
  }

  /** Steps that give a key new spans. */
  predicate Respans(a: Action) { a.Insert? || a.Upgrade? || a.UpgradeRegion? }

  /** The step leaves no covered page uncovered, other than by dropping units. */
  ghost predicate KeepsCoverage(s: System, a: Action) {
    && (a.Insert? || a.UpgradeRegion? ==> NonEmpty(a.spans))
    && (Respans(a) ==> Covered(s.spans) <= Covered(Next(s, a).spans))
  }

  lemma VictimsOf(s: System, p: nat)
    requires Consistent(s)
    ensures var victims := Victims(s.spans, p * PAGE, p * PAGE + PAGE);
            && (forall k | k in s.spans :: k in victims <==> p in PagesOf(s.spans[k]))
            && (victims == {} <==> p !in Covered(s.spans))
  {
    forall k | k in s.spans
      ensures k in Victims(s.spans, p * PAGE, p * PAGE + PAGE) <==> p in PagesOf(s.spans[k])
    {
      OverlapIsTouch(s.spans[k], p);
    }
    if p in Covered(s.spans) {
      var k :| k in s.spans && p in PagesOf(s.spans[k]);
      assert k in Victims(s.spans, p * PAGE, p * PAGE + PAGE);
    }
  }

  lemma InvalidateKeeps(s: System, p: nat)
    requires Consistent(s)
    ensures Consistent(Next(s, Invalidate(p)))
  {
    hide PagesOf;
    hide AnyOverlaps;
    VictimsOf(s, p);
    var victims := Victims(s.spans, p * PAGE, p * PAGE + PAGE);
    var t := Next(s, Invalidate(p));
    assert t.blocks.Keys == t.spans.Keys;
    assert Covered(t.spans) <= Covered(s.spans) && p !in Covered(t.spans);
    if victims == {} {
      assert t.spans == s.spans && t.blocks == s.blocks;
    }
  }

  lemma RespannedCovers(spans: map<nat, seq<Span>>, k: nat, sp: seq<Span>)
    ensures Covered(spans[k := sp]) <= Covered(spans) + PagesOf(sp)
    ensures PagesOf(sp) <= Covered(spans[k := sp])
  {
    var t := spans[k := sp];
    assert t[k] == sp;
    forall p | p in Covered(t)
      ensures p in Covered(spans) + PagesOf(sp)
    {
      var j :| j in t && p in PagesOf(t[j]);
    }
  }

  lemma InsertKeeps(s: System, a: Action)
    requires Consistent(s) && a.Insert? && KeepsCoverage(s, a)
    ensures Consistent(Next(s, a))
  {
    hide PagesOf;
    hide Covered;
    RespannedCovers(s.spans, a.key, a.spans);
  }

  lemma UpgradeKeeps(s: System, a: Action)
    requires Consistent(s) && (a.Upgrade? || a.UpgradeRegion?) && KeepsCoverage(s, a)
    ensures Consistent(Next(s, a))
  {
    hide PagesOf;
    hide Covered;
    if a.v in s.vcpus && s.vcpus[a.v].Holding? {
      var h := s.vcpus[a.v];
      RespannedCovers(s.spans, h.key, if a.Upgrade? then h.spans else a.spans);
    }
  }

  lemma LookupKeeps(s: System, a: Action)
    requires Consistent(s) && (a.Snapshot? || a.Lookup?)
    ensures Consistent(Next(s, a))
  {
    hide PagesOf;
    hide Covered;
    if a.Lookup? && a.key in s.spans {
      PagesAreCovered(s.spans, a.key);
    }
  }

  lemma StepKeeps(s: System, a: Action)
    requires Consistent(s) && KeepsCoverage(s, a)
    ensures Consistent(Next(s, a))
  {
    hide Consistent;
    hide KeepsCoverage;
    match a
    case Insert(_, _, _) => InsertKeeps(s, a);
    case Invalidate(p) => InvalidateKeeps(s, p);
    case Snapshot(_) => LookupKeeps(s, a);
    case Lookup(_, _) => LookupKeeps(s, a);
    case Upgrade(_) => UpgradeKeeps(s, a);
    case UpgradeRegion(_, _) => UpgradeKeeps(s, a);
  }

  /** Every step of the run keeps coverage. */
  ghost predicate RunKeepsCoverage(s: System, actions: seq<Action>)
    decreases |actions|
  {
    actions == [] || (KeepsCoverage(s, actions[0]) && RunKeepsCoverage(Next(s, actions[0]), actions[1..]))
  }

  /**
   Theorem: in every interleaving whose re-spanning steps keep coverage, the two maps have the same keys,
   every page of every live span is tagged, and every upgrade the epoch would let through is of a live
   unit on covered pages.
   */
  lemma {:induction false} EveryInterleavingConsistent(s: System, actions: seq<Action>)
    requires Consistent(s) && RunKeepsCoverage(s, actions)
    ensures Consistent(Run(s, actions))
    decreases |actions|
  {
    hide Consistent;
    hide Next;
    hide KeepsCoverage;
    if actions != [] {
      StepKeeps(s, actions[0]);
      EveryInterleavingConsistent(Next(s, actions[0]), actions[1..]);
    }
  }

  /** An upgrade that is let through neither resurrects a dropped unit nor spans an untagged page. */
  lemma UpgradeNeverResurrects(s: System, v: nat)
    requires Consistent(s) && v in s.vcpus && s.vcpus[v].Holding?
    ensures var h, t := s.vcpus[v], Next(s, Upgrade(v));
            && t.blocks.Keys == s.blocks.Keys && t.spans.Keys == s.spans.Keys
            && (h.since == s.epoch ==> t.spans[h.key] == h.spans && PagesOf(h.spans) <= t.tagged)
            && (h.since != s.epoch ==> t.blocks == s.blocks && t.spans == s.spans)
  {
    hide PagesOf;
    hide Covered;
    assert HolderOk(s.vcpus[v], s);
  }

  // ---- Coverage is what it takes ----

  /** The key a step gives new spans to. */
  function KeyOf(s: System, a: Action): nat
    requires Respans(a) && (a.Insert? || (a.v in s.vcpus && s.vcpus[a.v].Holding?))
  {
    if a.Insert? then a.key else s.vcpus[a.v].key
  }

  lemma OnlyItsKeyChanges(s: System, a: Action, p: nat)
    requires Respans(a) && p in Covered(s.spans) && p !in Covered(Next(s, a).spans)
    ensures a.Insert? || (a.v in s.vcpus && s.vcpus[a.v].Holding?)
    ensures var key := KeyOf(s, a); key in s.spans && p in PagesOf(s.spans[key])
  {
    hide PagesOf;
    var t := Next(s, a);
    var j :| j in s.spans && p in PagesOf(s.spans[j]);
    assert j in t.spans && t.spans[j] == s.spans[j] ==> p in Covered(t.spans);
  }

  /** The run that turns a loss of coverage into a live unit on an untagged page. */
  function Exposing(s: System, a: Action, p: nat, w: nat): seq<Action>
    requires Respans(a) && (a.Insert? || (a.v in s.vcpus && s.vcpus[a.v].Holding?))
  {
    [Snapshot(w), Lookup(w, KeyOf(s, a)), a, Invalidate(p), Upgrade(w)]
  }

  lemma RunFive(s: System, a: seq<Action>)
    requires |a| == 5
    ensures Run(s, a) == Next(Next(Next(Next(Next(s, a[0]), a[1]), a[2]), a[3]), a[4])
  {
    hide Next;
    var s1 := Next(s, a[0]);
    var s2 := Next(s1, a[1]);
    var s3 := Next(s2, a[2]);
    var s4 := Next(s3, a[3]);
    assert Run(s, a) == Run(s1, a[1..]);
    assert a[1..][1..] == a[2..];
    assert Run(s1, a[1..]) == Run(s2, a[2..]);
    assert a[2..][1..] == a[3..];
    assert Run(s2, a[2..]) == Run(s3, a[3..]);
    assert a[3..][1..] == a[4..];
    assert Run(s3, a[3..]) == Run(s4, a[4..]);
    assert a[4..][1..] == [];
    assert Run(s4, a[4..]) == Next(s4, a[4]);
  }

  /** Once page `p` is spanned by no unit, writing it clears its tag and moves no epoch. */
  lemma InvalidateUnused(s: System, p: nat)
    requires (forall k | k in s.spans :: NonEmpty(s.spans[k])) && p !in Covered(s.spans)
    ensures Next(s, Invalidate(p)) == s.(tagged := s.tagged - {p})
  {
    forall k | k in s.spans
      ensures k !in Victims(s.spans, p * PAGE, p * PAGE + PAGE)
    {
      OverlapIsTouch(s.spans[k], p);
      PagesAreCovered(s.spans, k);
    }
    var victims := Victims(s.spans, p * PAGE, p * PAGE + PAGE);
    assert victims == {};
    assert s.blocks - victims == s.blocks && s.spans - victims == s.spans;
  }

  /** The state after the held unit has been re-spanned by `a`, seen from the vcpu that holds it too. */
  lemma AfterRespan(s: System, a: Action, w: nat, t: System)
    requires Respans(a) && (a.Insert? || (a.v in s.vcpus && s.vcpus[a.v].Holding? && a.v != w))
    requires Consistent(s) && (a.Insert? || a.UpgradeRegion? ==> NonEmpty(a.spans))
    requires KeyOf(s, a) in s.spans
    requires t == Next(s.(vcpus := s.vcpus[w := Holding(s.epoch, KeyOf(s, a), s.spans[KeyOf(s, a)])]), a)
    ensures t.epoch == s.epoch && t.spans == Next(s, a).spans
    ensures w in t.vcpus && t.vcpus[w] == Holding(s.epoch, KeyOf(s, a), s.spans[KeyOf(s, a)])
    ensures forall k | k in t.spans :: NonEmpty(t.spans[k])
  {
    hide PagesOf;
    hide Covered;
  }

  lemma TakeHold(s: System, key: nat, w: nat)
    requires Consistent(s) && key in s.spans
    ensures Next(Next(s, Snapshot(w)), Lookup(w, key)) == s.(vcpus := s.vcpus[w := Holding(s.epoch, key, s.spans[key])])
  {
    var t := Next(s, Snapshot(w));
    assert key in s.blocks;
    assert t.vcpus[w := Holding(s.epoch, key, s.spans[key])] == s.vcpus[w := Holding(s.epoch, key, s.spans[key])];
  }

  /** Swapping in the held unit covers page `p` again, without tagging it. */
  lemma SwapUntagged(s: System, w: nat, p: nat)
    requires w in s.vcpus && s.vcpus[w].Holding? && s.vcpus[w].since == s.epoch
    requires p in PagesOf(s.vcpus[w].spans) && p !in s.tagged
    ensures var t := Next(s, Upgrade(w)); p in Covered(t.spans) && p !in t.tagged && !Consistent(t)
  {
    hide PagesOf;
    PagesAreCovered(Next(s, Upgrade(w)).spans, s.vcpus[w].key);
  }

  /**
   Theorem: a step that leaves a page uncovered is unsafe, whatever the state: one more vcpu tiering up
   the same unit, and one write to that page, put a live unit on a page that is not tagged.
   */
  lemma LostCoverageBreaks(s: System, a: Action, p: nat, w: nat)
    requires Consistent(s) && Respans(a) && (a.Insert? || a.UpgradeRegion? ==> NonEmpty(a.spans))
    requires p in Covered(s.spans) && p !in Covered(Next(s, a).spans)
    requires a.Insert? || a.v != w
    ensures a.Insert? || (a.v in s.vcpus && s.vcpus[a.v].Holding?)
    ensures var t := Run(s, Exposing(s, a, p, w)); p in Covered(t.spans) && p !in t.tagged && !Consistent(t)
  {
    hide Run;
    hide Next;
    hide PagesOf;
    hide Covered;
    hide Consistent;
    OnlyItsKeyChanges(s, a, p);
    var key, steps := KeyOf(s, a), Exposing(s, a, p, w);
    RunFive(s, steps);
    TakeHold(s, key, w);
    var t := Next(s.(vcpus := s.vcpus[w := Holding(s.epoch, key, s.spans[key])]), a);
    AfterRespan(s, a, w, t);
    InvalidateUnused(t, p);
    SwapUntagged(t.(tagged := t.tagged - {p}), w, p);
  }

  // ---- When no write races a lift, coverage is never lost ----

  /** Every unit cached or held for a key spans what `lifted` says of it. */
  ghost predicate Stable(s: System, lifted: nat -> seq<Span>) {
    && (forall k | k in s.spans :: s.spans[k] == lifted(k))
    && forall v | v in s.vcpus && s.vcpus[v].Holding? :: s.vcpus[v].spans == lifted(s.vcpus[v].key)
  }

  /** Every lift of a block finds what `lifted` says of its key, and a publication is of such a block. */
  ghost predicate StableAction(s: System, a: Action, lifted: nat -> seq<Span>) {
    match a
    case Insert(key, spans, _) => NonEmpty(spans) && spans == lifted(key)
    case UpgradeRegion(v, spans) =>
      NonEmpty(spans) && (v in s.vcpus && s.vcpus[v].Holding? ==> spans == lifted(s.vcpus[v].key))
    case _ => true
  }

  ghost predicate StableRun(s: System, actions: seq<Action>, lifted: nat -> seq<Span>)
    decreases |actions|
  {
    actions == [] || (StableAction(s, actions[0], lifted) && StableRun(Next(s, actions[0]), actions[1..], lifted))
  }

  lemma StableStep(s: System, a: Action, lifted: nat -> seq<Span>)
    requires Consistent(s) && Stable(s, lifted) && StableAction(s, a, lifted)
    ensures KeepsCoverage(s, a) && Stable(Next(s, a), lifted)
  {
    hide PagesOf;
    var t := Next(s, a);
    if Respans(a) {
      forall p | p in Covered(s.spans)
        ensures p in Covered(t.spans)
      {
        var k :| k in s.spans && p in PagesOf(s.spans[k]);
        assert k in t.spans && t.spans[k] == s.spans[k];
      }
    }
  }

  /** Theorem: when every lift of an address finds the same spans, every interleaving of single blocks is consistent. */
  lemma {:induction false} StableLiftsConsistent(s: System, actions: seq<Action>, lifted: nat -> seq<Span>)
    requires Consistent(s) && Stable(s, lifted) && StableRun(s, actions, lifted)
    ensures Consistent(Run(s, actions))
    decreases |actions|
  {
    hide Consistent;
    hide Stable;
    hide StableAction;
    hide Next;
    hide KeepsCoverage;
    if actions != [] {
      StableStep(s, actions[0], lifted);
      StepKeeps(s, actions[0]);
      StableLiftsConsistent(Next(s, actions[0]), actions[1..], lifted);
    }
  }

  // ---- When no publication narrows its own unit, coverage is never lost ----

  /** The key that is given new spans keeps its own pages, as it does when a region replaces its first block. */
  ghost predicate KeepsOwnPages(s: System, a: Action) {
    && (a.Insert? || a.UpgradeRegion? ==> NonEmpty(a.spans))
    && (Respans(a) ==>
          var t := Next(s, a);
          forall k | k in s.spans :: k in t.spans && PagesOf(s.spans[k]) <= PagesOf(t.spans[k]))
  }

  ghost predicate RunKeepsOwnPages(s: System, actions: seq<Action>)
    decreases |actions|
  {
    actions == [] || (KeepsOwnPages(s, actions[0]) && RunKeepsOwnPages(Next(s, actions[0]), actions[1..]))
  }

  lemma OwnPagesAreCovered(s: System, a: Action)
    requires KeepsOwnPages(s, a)
    ensures KeepsCoverage(s, a)
  {
    hide PagesOf;
    var t := Next(s, a);
    if Respans(a) {
      forall p | p in Covered(s.spans)
        ensures p in Covered(t.spans)
      {
        var k :| k in s.spans && p in PagesOf(s.spans[k]);
        assert k in t.spans && p in PagesOf(t.spans[k]);
      }
    }
  }

  /** Theorem: when every new span list covers its key's old pages, every interleaving is consistent, with regions too. */
  lemma {:induction false} WideningUnitsConsistent(s: System, actions: seq<Action>)
    requires Consistent(s) && RunKeepsOwnPages(s, actions)
    ensures Consistent(Run(s, actions))
    decreases |actions|
  {
    hide Consistent;
    hide Next;
    hide KeepsOwnPages;
    hide KeepsCoverage;
    if actions != [] {
      OwnPagesAreCovered(s, actions[0]);
      StepKeeps(s, actions[0]);
      WideningUnitsConsistent(Next(s, actions[0]), actions[1..]);
    }
  }

  // ---- A run from nothing that loses coverage ----

  function Initial(vcpus: map<nat, Vcpu>): System { System(map[], map[], {}, 0, vcpus) }

  /** Nothing cached and every vcpu idle is consistent, and stable whatever lifts find. */
  lemma InitiallyConsistent(vcpus: map<nat, Vcpu>, lifted: nat -> seq<Span>)
    requires forall v | v in vcpus :: vcpus[v] == Idle
    ensures Consistent(Initial(vcpus)) && Stable(Initial(vcpus), lifted)
  {
  }

  /** Address 4090 is lifted over two pages, then, by a racing vcpu, over one. */
  const LONG := Insert(4090, [Span(4090, 16)], Cold)
  const SHORT := Insert(4090, [Span(4090, 4)], Cold)

  lemma TwoPagesThenOne()
    ensures PagesOf([Span(4090, 16)]) == {0, 1} && PagesOf([Span(4090, 4)]) == {0}
  {
    var long, short := [Span(4090, 16)], [Span(4090, 4)];
    assert forall p: nat :: Within(Page(4090), p, Page(LastByte(4090, 16))) <==> p == 0 || p == 1;
    assert forall p: nat :: Within(Page(4090), p, Page(LastByte(4090, 4))) <==> p == 0;
    assert long[0] == Span(4090, 16) && short[0] == Span(4090, 4);
    assert 0 in PageRange(long[0].start, long[0].len) && 1 in PageRange(long[0].start, long[0].len);
    assert 0 in PageRange(short[0].start, short[0].len);
  }

  lemma OneKeyCovers(sp: seq<Span>)
    ensures Covered(map[4090 := sp]) == PagesOf(sp)
  {
    var m := map[4090 := sp];
    assert m[4090] == sp;
  }

  /** From nothing cached: a second lift uncovers page 1, and the first's upgrade is let through untagged. */
  lemma RacingLiftsLoseATag() returns (actions: seq<Action>)
    ensures var t := Run(Initial(map[0 := Idle]), actions);
            1 in Covered(t.spans) && 1 !in t.tagged && !Consistent(t)
  {
    hide PagesOf;
    hide Covered;
    var s0 := Initial(map[0 := Idle]);
    var s1 := Next(s0, LONG);
    InitiallyConsistent(map[0 := Idle], k => []);
    TwoPagesThenOne();
    OneKeyCovers(LONG.spans);
    OneKeyCovers(SHORT.spans);
    assert s1.spans == map[4090 := LONG.spans] && Next(s1, SHORT).spans == map[4090 := SHORT.spans];
    EmptyCoversNothing();
    StepKeeps(s0, LONG);
    LostCoverageBreaks(s1, SHORT, 1, 0);
    var rest := Exposing(s1, SHORT, 1, 0);
    actions := [LONG] + rest;
    assert actions[1..] == rest;
  }

  lemma EmptyCoversNothing()
    ensures Covered(map[]) == {}
  {
  }
}
