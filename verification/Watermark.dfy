/**
 The packed code watermark: one word, `lo * 2^32 + len`, that generated code compares a store's page
 against, widened by compare-and-swap from any number of threads.
 */
module Watermark {
  const HALF: nat := 0x1_0000_0000

  /** The last page of the largest span whose code pages are tracked. */
  const LAST_PAGE: nat := HALF - 2

  function Lo(w: nat): nat { w / HALF }

  function Len(w: nat): nat { w % HALF }

  function Pack(lo: nat, len: nat): nat { lo * HALF + len }

  lemma Unpack(lo: nat, len: nat)
    requires len < HALF
    ensures Lo(Pack(lo, len)) == lo && Len(Pack(lo, len)) == len
  {
  }

  lemma EmptyWord()
    ensures Lo(0) == 0 && Len(0) == 0
  {
  }

  /** The test generated code makes, with its wrapping subtraction: an unsigned difference below `len`. */
  predicate Gate(w: nat, page: nat) {
    Lo(w) <= page < Lo(w) + Len(w)
  }

  /** The word a thread that saw `cur` wants in its place. */
  function Widened(cur: nat, page: nat): nat {
    var lo, len := Lo(cur), Len(cur);
    var wantLo, wantHi := if len == 0 then page else lo + 1, if len == 0 then page else lo + len - 1;
    var newLo, newHi := if page < wantLo then page else wantLo, if page > wantHi then page else wantHi;
    Pack(if newLo == 0 then 0 else newLo - 1, newHi - newLo + 2)
  }

  /** What every stored word satisfies: empty, or at least two pages long and within its halves. */
  predicate Sound(w: nat) {
    Len(w) == 0 || (2 <= Len(w) && Lo(w) + Len(w) <= HALF - 1)
  }

  /** The one widening whose length does not fit: down to page 0 from a range that ends with the last page. */
  predicate Wraps(cur: nat, page: nat) {
    page == 0 && Len(cur) != 0 && Lo(cur) + Len(cur) == HALF - 1
  }

  /** The gate admits at least what it admitted before. */
  ghost predicate OnlyGrows(v: nat, w: nat) {
    forall p | Gate(v, p) :: Gate(w, p)
  }

  /** Theorem: widening keeps every page that passed the gate, and adds the new one, exactly when it does not wrap. */
  lemma WidenGrowsIff(cur: nat, page: nat)
    requires Sound(cur) && page <= LAST_PAGE && !Gate(cur, page)
    ensures Sound(Widened(cur, page)) && Widened(cur, page) != cur
    ensures OnlyGrows(cur, Widened(cur, page)) && Gate(Widened(cur, page), page) <==> !Wraps(cur, page)
    ensures Wraps(cur, page) ==> Widened(cur, page) == HALF && Gate(cur, LAST_PAGE)
  {
    hide Pack;
    hide Lo;
    hide Len;
    var lo, len := Lo(cur), Len(cur);
    var wantLo, wantHi := if len == 0 then page else lo + 1, if len == 0 then page else lo + len - 1;
    var newLo, newHi := if page < wantLo then page else wantLo, if page > wantHi then page else wantHi;
    if Wraps(cur, page) {
      WrappedWord();
    } else {
      Unpack(if newLo == 0 then 0 else newLo - 1, newHi - newLo + 2);
    }
  }

  /** The length has carried into the other half: the word is empty. */
  lemma WrappedWord()
    ensures Pack(0, HALF) == HALF && Lo(HALF) == 1 && Len(HALF) == 0
  {
  }

  // ---- Threads ----

  /** A thread marking a page has tagged it, then loads the word, then retries until the word admits the page. */
  datatype Phase = Idle | Tagged(page: nat) | Trying(page: nat, cur: nat)

  datatype System = System(word: nat, tagged: set<nat>, threads: map<nat, Phase>)

  datatype Action =
    | Mark(t: nat, page: nat)
    | LoadWord(t: nat)
    | Try(t: nat, spurious: bool)
    | ClearTag(page: nat)

  predicate Enabled(s: System, a: Action) {
    match a
    case Mark(t, page) => t in s.threads && s.threads[t].Idle? && page <= LAST_PAGE
    case LoadWord(t) => t in s.threads && s.threads[t].Tagged?
    case Try(t, _) => t in s.threads && s.threads[t].Trying?
    case ClearTag(_) => true
  }

  function Next(s: System, a: Action): System
    requires Enabled(s, a)
  {
    match a
    case Mark(t, page) => s.(tagged := s.tagged + {page}, threads := s.threads[t := Tagged(page)])
    case LoadWord(t) => s.(threads := s.threads[t := Trying(s.threads[t].page, s.word)])
    case Try(t, spurious) =>
      var page, cur := s.threads[t].page, s.threads[t].cur;
      var packed := Widened(cur, page);
      if Gate(cur, page) || packed == cur then s.(threads := s.threads[t := Idle])
      else if s.word == cur && !spurious then s.(word := packed, threads := s.threads[t := Idle])
      else s.(threads := s.threads[t := Trying(page, s.word)])
    case ClearTag(page) => s.(tagged := s.tagged - {page})
  }

  /** A thread is still on its way to admit `page`. */
  ghost predicate Underway(s: System, page: nat) {
    exists t | t in s.threads :: !s.threads[t].Idle? && s.threads[t].page == page
  }

  /** What a thread saw was sound, and the gate has not shrunk since. */
  ghost predicate SawEarlier(c: Phase, word: nat) {
    c.Trying? ==> Sound(c.cur) && forall p | Gate(c.cur, p) :: Gate(word, p)
  }

  ghost predicate Guards(s: System) {
    && Sound(s.word)
    && (forall t | t in s.threads ::
          (!s.threads[t].Idle? ==> s.threads[t].page <= LAST_PAGE) && SawEarlier(s.threads[t], s.word))
    && forall p | p in s.tagged :: Gate(s.word, p) || Underway(s, p)
  }

  /** A change to one thread leaves every other page's marking underway. */
  lemma StillUnderway(s: System, t: System, me: nat, page: nat)
    requires Underway(s, page) && me in s.threads && me in t.threads && t.threads == s.threads[me := t.threads[me]]
    requires !s.threads[me].Idle? && s.threads[me].page == page ==> !t.threads[me].Idle? && t.threads[me].page == page
    ensures Underway(t, page)
  {
    var w :| w in s.threads && !s.threads[w].Idle? && s.threads[w].page == page;
    assert !t.threads[w].Idle? && t.threads[w].page == page;
  }

  /** The step installs a word whose length has wrapped. */
  predicate InstallsWrapped(s: System, a: Action)
    requires Enabled(s, a)
  {
    a.Try? &&
    var page, cur := s.threads[a.t].page, s.threads[a.t].cur;
    !Gate(cur, page) && s.word == cur && !a.spurious && Wraps(cur, page)
  }

  lemma TryKeeps(s: System, me: nat, spurious: bool)
    requires Guards(s) && Enabled(s, Try(me, spurious)) && !InstallsWrapped(s, Try(me, spurious))
    ensures var t := Next(s, Try(me, spurious)); Guards(t) && OnlyGrows(s.word, t.word)
  {
    hide Gate;
    hide Sound;
    hide Widened;
    hide Wraps;
    var page, cur := s.threads[me].page, s.threads[me].cur;
    var t := Next(s, Try(me, spurious));
    if !Gate(cur, page) {
      WidenGrowsIff(cur, page);
    }
    forall p | p in t.tagged
      ensures Gate(t.word, p) || Underway(t, p)
    {
      if !Gate(s.word, p) && !(p == page && t.threads[me].Idle?) {
        StillUnderway(s, t, me, p);
      }
    }
  }

  lemma MarkKeeps(s: System, a: Action)
    requires Guards(s) && Enabled(s, a) && !a.Try?
    ensures var t := Next(s, a); Guards(t) && t.word == s.word
  {
    hide Gate;
    hide Sound;
    var t := Next(s, a);
    forall p | p in t.tagged
      ensures Gate(t.word, p) || Underway(t, p)
    {
      if a.Mark? && p == a.page {
        assert !t.threads[a.t].Idle? && t.threads[a.t].page == p;
      } else if !Gate(s.word, p) && !a.ClearTag? {
        StillUnderway(s, t, a.t, p);
      }
    }
  }

  ghost predicate IsRun(s: System, actions: seq<Action>)
    decreases |actions|
  {
    actions == [] || (Enabled(s, actions[0]) && IsRun(Next(s, actions[0]), actions[1..]))
  }

  function Run(s: System, actions: seq<Action>): System
    requires IsRun(s, actions)
    decreases |actions|
  {
    if actions == [] then s else Run(Next(s, actions[0]), actions[1..])
  }

  /** No step of the run installs a wrapped word. */
  ghost predicate NeverWraps(s: System, actions: seq<Action>)
    requires IsRun(s, actions)
    decreases |actions|
  {
    actions == [] || (!InstallsWrapped(s, actions[0]) && NeverWraps(Next(s, actions[0]), actions[1..]))
  }

  /** The gate shrinks at no step of the run. */
  ghost predicate GrowsThroughout(s: System, actions: seq<Action>)
    requires IsRun(s, actions)
    decreases |actions|
  {
    actions == [] ||
    (OnlyGrows(s.word, Next(s, actions[0]).word) && GrowsThroughout(Next(s, actions[0]), actions[1..]))
  }

  lemma StepKeeps(s: System, a: Action)
    requires Guards(s) && Enabled(s, a) && !InstallsWrapped(s, a)
    ensures Guards(Next(s, a)) && OnlyGrows(s.word, Next(s, a).word)
  {
    if a.Try? {
      TryKeeps(s, a.t, a.spurious);
    } else {
      MarkKeeps(s, a);
    }
  }

  /** Installing a wrapped word shuts the gate on the last page. */
  lemma WrapShuts(s: System, a: Action)
    requires Guards(s) && Enabled(s, a) && InstallsWrapped(s, a)
    ensures Next(s, a).word == HALF && !OnlyGrows(s.word, Next(s, a).word)
  {
    hide Widened;
    WidenGrowsIff(s.word, s.threads[a.t].page);
    WrappedWord();
  }

  /**
   Theorem: over any interleaving that installs no wrapped word the gate only grows, and every tagged page passes
   it unless the thread that tagged it is still widening; and no other interleaving lets the gate only grow.
   */
  lemma {:induction false} TaggedPagesPassGate(s: System, actions: seq<Action>)
    requires Guards(s) && IsRun(s, actions)
    ensures GrowsThroughout(s, actions) <==> NeverWraps(s, actions)
    ensures NeverWraps(s, actions) ==> Guards(Run(s, actions)) && OnlyGrows(s.word, Run(s, actions).word)
    decreases |actions|
  {
    hide Guards;
    hide Next;
    hide Enabled;
    hide InstallsWrapped;
    if actions != [] {
      var a := actions[0];
      if InstallsWrapped(s, a) {
        WrapShuts(s, a);
      } else {
        StepKeeps(s, a);
        TaggedPagesPassGate(Next(s, a), actions[1..]);
      }
    }
  }

  /** With nothing marked, an empty word guards every page there is to guard. */
  lemma InitiallyGuards(threads: map<nat, Phase>)
    requires forall t | t in threads :: threads[t].Idle?
    ensures Guards(System(0, {}, threads))
  {
  }

  /** One thread marking one page, with nobody in its way. */
  function MarkSteps(t: nat, page: nat): seq<Action> { [Mark(t, page), LoadWord(t), Try(t, false)] }

  /** Marking alone leaves the word as it is when the page is admitted, and widened when it is not. */
  lemma MarkAlone(s: System, t: nat, page: nat)
    requires Guards(s) && t in s.threads && s.threads[t].Idle? && page <= LAST_PAGE
    ensures IsRun(s, MarkSteps(t, page))
    ensures Run(s, MarkSteps(t, page)) ==
            s.(tagged := s.tagged + {page}, word := if Gate(s.word, page) then s.word else Widened(s.word, page))
  {
    hide Gate;
    hide Sound;
    hide Widened;
    if !Gate(s.word, page) {
      WidenGrowsIff(s.word, page);
    }
    hide Guards;
    var s1 := Next(s, Mark(t, page));
    var s2 := Next(s1, LoadWord(t));
    var s3 := Next(s2, Try(t, false));
    assert s3.threads == s.threads;
    assert MarkSteps(t, page)[1..] == [LoadWord(t), Try(t, false)];
    assert [LoadWord(t), Try(t, false)][1..] == [Try(t, false)];
    assert [Try(t, false)][1..] == [];
    assert IsRun(s3, []) && Run(s3, []) == s3;
    assert IsRun(s2, [Try(t, false)]) && Run(s2, [Try(t, false)]) == s3;
    assert IsRun(s1, [LoadWord(t), Try(t, false)]) && Run(s1, [LoadWord(t), Try(t, false)]) == s3;
  }

  /** Theorem: re-marking a page that passes the gate leaves the word as it is. */
  lemma RemarkingIsIdempotent(s: System, t: nat, page: nat)
    requires Guards(s) && t in s.threads && s.threads[t].Idle? && page <= LAST_PAGE && Gate(s.word, page)
    ensures IsRun(s, MarkSteps(t, page)) && Run(s, MarkSteps(t, page)) == s.(tagged := s.tagged + {page})
  {
    hide Gate;
    hide Guards;
    MarkAlone(s, t, page);
  }

  // ---- The limits of the gate ----

  /** A store that starts on the page below a tagged one is admitted exactly when that page is not the stored `lo`. */
  lemma SpillGatedIff(w: nat, page: nat)
    requires 0 < page && Gate(w, page)
    ensures Gate(w, page - 1) <==> page != Lo(w)
  {
  }

  lemma MarkFive()
    ensures var w := Widened(0, 5); !Gate(0, 5) && Gate(w, 4) && Lo(w) == 4 && !Gate(w, 3)
  {
    Unpack(4, 2);
  }

  lemma {:induction false} RunJoins(s: System, first: seq<Action>, rest: seq<Action>)
    requires IsRun(s, first) && IsRun(Run(s, first), rest)
    ensures IsRun(s, first + rest) && Run(s, first + rest) == Run(Run(s, first), rest)
    decreases |first|
  {
    hide Next;
    hide Enabled;
    if first == [] {
      assert first + rest == rest;
    } else {
      assert (first + rest)[1..] == first[1..] + rest;
      RunJoins(Next(s, first[0]), first[1..], rest);
    }
  }

  /**
   Marking page 5, then page 4: both are tagged and nobody is marking, yet page 4 is the stored `lo`, so a store
   that starts on page 3 and spills into it is missed.
   */
  lemma SpillMissed() returns (actions: seq<Action>)
    ensures var s := System(0, {}, map[0 := Idle]);
            && IsRun(s, actions)
            && var t := Run(s, actions);
               t.threads == map[0 := Idle] && 4 in t.tagged && Gate(t.word, 4) && !Gate(t.word, 3)
  {
    hide Guards;
    hide Gate;
    hide Widened;
    hide Lo;
    var s := System(0, {}, map[0 := Idle]);
    InitiallyGuards(s.threads);
    MarkFive();
    MarkAlone(s, 0, 5);
    var five := MarkSteps(0, 5);
    TaggedPagesPassGate(s, five);
    var s5 := Run(s, five);
    MarkAlone(s5, 0, 4);
    RunJoins(s, five, MarkSteps(0, 4));
    actions := five + MarkSteps(0, 4);
  }

  // ---- Which pages may be marked ----

  /** Every page a thread sets out to mark is one of `pages`. */
  predicate MarksOnly(actions: seq<Action>, pages: set<nat>) {
    forall i | 0 <= i < |actions| && actions[i].Mark? :: actions[i].page in pages
  }

  /** However threads mark these pages, starting from nothing, the gate guards them. */
  ghost predicate AlwaysGuarded(pages: set<nat>) {
    forall threads: map<nat, Phase>, actions: seq<Action> |
      && (forall t | t in threads :: threads[t].Idle?)
      && IsRun(System(0, {}, threads), actions) && MarksOnly(actions, pages) ::
      Guards(Run(System(0, {}, threads), actions))
  }

  /** What keeps a word from wrapping when the last page, or page 0, is never marked. */
  predicate Clear(w: nat, pages: set<nat>) {
    LAST_PAGE !in pages && Len(w) != 0 && 0 < Lo(w) ==> Lo(w) + Len(w) < HALF - 1
  }

  ghost predicate Within(s: System, pages: set<nat>) {
    && Clear(s.word, pages)
    && forall t | t in s.threads ::
         var c := s.threads[t];
         (!c.Idle? ==> c.page in pages && c.page <= LAST_PAGE) && (c.Trying? ==> Clear(c.cur, pages))
  }

  lemma WidenClear(cur: nat, page: nat, pages: set<nat>)
    requires Sound(cur) && Clear(cur, pages) && page in pages && page <= LAST_PAGE && !Gate(cur, page)
    requires 0 !in pages || LAST_PAGE !in pages
    ensures !Wraps(cur, page) && Clear(Widened(cur, page), pages)
  {
    hide Pack;
    hide Lo;
    hide Len;
    var lo, len := Lo(cur), Len(cur);
    var wantLo, wantHi := if len == 0 then page else lo + 1, if len == 0 then page else lo + len - 1;
    var newLo, newHi := if page < wantLo then page else wantLo, if page > wantHi then page else wantHi;
    if newHi - newLo + 2 < HALF {
      Unpack(if newLo == 0 then 0 else newLo - 1, newHi - newLo + 2);
    }
  }

  lemma StepStaysWithin(s: System, a: Action, pages: set<nat>)
    requires Guards(s) && Enabled(s, a) && Within(s, pages) && (a.Mark? ==> a.page in pages)
    requires 0 !in pages || LAST_PAGE !in pages
    ensures !InstallsWrapped(s, a) && Within(Next(s, a), pages)
  {
    hide Gate;
    hide Widened;
    hide Clear;
    hide Wraps;
    hide Sound;
    if a.Try? {
      var page, cur := s.threads[a.t].page, s.threads[a.t].cur;
      if !Gate(cur, page) {
        WidenClear(cur, page, pages);
      }
    }
  }

  lemma {:induction false} RunNeverWraps(s: System, actions: seq<Action>, pages: set<nat>)
    requires Guards(s) && IsRun(s, actions) && Within(s, pages) && MarksOnly(actions, pages)
    requires 0 !in pages || LAST_PAGE !in pages
    ensures NeverWraps(s, actions)
    decreases |actions|
  {
    hide Guards;
    hide Next;
    hide Enabled;
    hide InstallsWrapped;
    hide Within;
    if actions != [] {
      StepStaysWithin(s, actions[0], pages);
      StepKeeps(s, actions[0]);
      RunNeverWraps(Next(s, actions[0]), actions[1..], pages);
    }
  }

  lemma MarkLast()
    ensures var w := Widened(0, LAST_PAGE);
            !Gate(0, LAST_PAGE) && Lo(w) == LAST_PAGE - 1 && Len(w) == 2 && !Gate(w, 0) && Wraps(w, 0)
  {
    Unpack(LAST_PAGE - 1, 2);
  }

  /** Marking the last page, then page 0: both are tagged and nobody is marking, yet the gate admits no page at all. */
  lemma LastThenFirstShuts() returns (actions: seq<Action>)
    ensures var s := System(0, {}, map[0 := Idle]);
            && IsRun(s, actions) && MarksOnly(actions, {0, LAST_PAGE})
            && var t := Run(s, actions);
               && t.threads == map[0 := Idle] && t.tagged == {0, LAST_PAGE}
               && (forall p: nat :: !Gate(t.word, p)) && !Guards(t)
  {
    hide Gate;
    hide Widened;
    hide Lo;
    hide Wraps;
    var s := System(0, {}, map[0 := Idle]);
    InitiallyGuards(s.threads);
    MarkLast();
    MarkAlone(s, 0, LAST_PAGE);
    var last, first := MarkSteps(0, LAST_PAGE), MarkSteps(0, 0);
    var s1 := Run(s, last);
    assert Guards(s1) by { GuardsAfterLast(s1); }
    MarkAlone(s1, 0, 0);
    WidenGrowsIff(s1.word, 0);
    WrappedWord();
    RunJoins(s, last, first);
    actions := last + first;
    ShutGate(Run(s, actions));
  }

  lemma GuardsAfterLast(s: System)
    requires s == System(Widened(0, LAST_PAGE), {LAST_PAGE}, map[0 := Idle])
    ensures Guards(s)
  {
    MarkLast();
  }

  lemma ShutGate(s: System)
    requires s.word == HALF && s.threads == map[0 := Idle] && 0 in s.tagged
    ensures (forall p: nat :: !Gate(s.word, p)) && !Guards(s)
  {
    WrappedWord();
    assert !Underway(s, 0);
  }

  /** Theorem: marking these pages, in any interleaving, is safe exactly when page 0 and the last are not both there. */
  lemma AlwaysGuardedIff(pages: set<nat>)
    ensures AlwaysGuarded(pages) <==> 0 !in pages || LAST_PAGE !in pages
  {
    hide Guards;
    hide IsRun;
    hide Run;
    hide NeverWraps;
    if 0 !in pages || LAST_PAGE !in pages {
      forall threads: map<nat, Phase>, actions: seq<Action> |
        && (forall t | t in threads :: threads[t].Idle?)
        && IsRun(System(0, {}, threads), actions) && MarksOnly(actions, pages)
        ensures Guards(Run(System(0, {}, threads), actions))
      {
        InitiallyGuards(threads);
        EmptyWord();
        RunNeverWraps(System(0, {}, threads), actions, pages);
        TaggedPagesPassGate(System(0, {}, threads), actions);
      }
    } else {
      var actions := LastThenFirstShuts();
      assert MarksOnly(actions, pages);
    }
  }
}
