// The scheduler (src/kernel/common/tasking/scheduler.c).

// What one call decides, and what that means for runs of calls.
module FairChoice {
  const WORD: int := 0x1_0000_0000

  /** From this age on the oldest process can no longer be passed over by a directed yield. */
  const PATIENCE: int := 42

  type Word = x: int | 0 <= x < WORD

  /** irq: the process has just been started as an interrupt handler. */
  datatype Proc = Proc(pid: int, stamp: Word, active: bool, irq: bool)

  /** A process: none, one that is not in the run queue, or an element of the run queue. Of the idle
      process, ready is false. */
  datatype Where = Nobody | Outside(ready: bool) | At(i: nat)

  const IDLE := Outside(false)

  datatype State = State(tick: Word, queue: seq<Proc>, current: Where, hasIdle: bool) {
    predicate Valid() { current.At? ==> current.i < |queue| }

    predicate Active(i: nat) { i < |queue| && queue[i].active }

    /** How many calls ago a process was stamped, as an unsigned difference. */
    function Age(i: nat): Word
      requires i < |queue|
    {
      (tick - queue[i].stamp) % WORD
    }

    /** Line 53. */
    function Stamped(): State {
      var q :=
        if current.At? && current.i < |queue| then queue[current.i := queue[current.i].(stamp := tick)] else queue;
      State((tick + 1) % WORD, q, current, hasIdle)
    }

    /** The first of the oldest active processes among the first n, -1 if there is none. Age zero does not count. */
    function Eldest(n: nat): (e: int)
      requires n <= |queue|
      ensures -1 <= e < n
      ensures e >= 0 ==> queue[e].active && Age(e) > 0
      ensures forall i :: 0 <= i < n && queue[i].active ==> Age(i) <= if e >= 0 then Age(e) else 0
      ensures forall i :: 0 <= i < e && queue[i].active ==> Age(i) < Age(e)
    {
      if n == 0 then -1 else
        var e := Eldest(n - 1);
        if queue[n - 1].active && Age(n - 1) > (if e >= 0 then Age(e) else 0) then n - 1 else e
    }

    /** The last active process with this number among the first n. */
    function Target(n: nat, pid: int): (t: int)
      requires n <= |queue|
      ensures -1 <= t < n && (t >= 0 ==> queue[t].active && queue[t].pid == pid)
      ensures forall i :: t < i < n && 0 <= i && queue[i].active ==> queue[i].pid != pid
    {
      if n == 0 then -1
      else if queue[n - 1].active && queue[n - 1].pid == pid then n - 1
      else Target(n - 1, pid)
    }

    /** The last active process that has a fresh interrupt to handle among the first n. */
    function Interrupt(n: nat): (t: int)
      requires n <= |queue|
      ensures -1 <= t < n && (t >= 0 ==> queue[t].active && queue[t].irq)
      ensures forall i :: t < i < n && 0 <= i && queue[i].active ==> !queue[i].irq
    {
      if n == 0 then -1
      else if queue[n - 1].active && queue[n - 1].irq then n - 1
      else Interrupt(n - 1)
    }

    /** Lines 67-112, from the time the current process has been stamped. */
    function Decide(switchTo: int): State {
      var n := |queue|;
      var e, t, q := Eldest(n), Target(n, switchTo), Interrupt(n);
      if e < 0 then this.(current := if hasIdle then IDLE else Nobody)
      else if q >= 0 then this.(queue := queue[q := queue[q].(irq := false)], current := At(q))
      else if t >= 0 && Age(e) < PATIENCE then this.(current := At(t))
      else this.(current := At(e))
    }

    /** Whether line 57 moves on to the head of the run queue. */
    predicate Leaves() {
      match current
      case Nobody => true
      case Outside(ready) => !ready
      case At(i) => !Active(i)
    }

    /** Lines 41-114. */
    function Step(switchTo: int): State {
      if current.Nobody? && !hasIdle then this
      else if Leaves() && queue == [] then Stamped().(current := Nobody)
      else Stamped().Decide(switchTo)
    }

    /** Whether a call would be decided by an interrupt. */
    predicate Overridden() {
      !(current.Nobody? && !hasIdle) && Stamped().Eldest(|queue|) >= 0 && Stamped().Interrupt(|queue|) >= 0
    }

    function Raised(irqs: set<nat>): State {
      this.(queue := seq(|queue|, i requires 0 <= i < |queue| =>
        if i in irqs then queue[i].(irq := true) else queue[i]))
    }

    /** The active processes that would be chosen before p by age, the current one excepted: it is
        about to be stamped. */
    function Ahead(p: nat): set<nat>
      requires p < |queue|
    {
      set q: nat | q < |queue| && queue[q].active && current != At(q) &&
        (Age(q) > Age(p) || (Age(q) == Age(p) && q < p))
    }

    /** No age will wrap around within the next m calls. */
    predicate Calm(m: nat) {
      forall q: nat :: q < |queue| && queue[q].active ==> Age(q) + m < WORD
    }
  }

  /** What happens before and in a call: some processes start handling interrupts, and somebody names a
      process to switch to. */
  datatype Event = Event(irqs: set<nat>, switchTo: int)

  function Call(s: State, e: Event): State { s.Raised(e.irqs).Step(e.switchTo) }

  predicate EverChosen(s: State, evs: seq<Event>, p: nat)
    decreases |evs|
  {
    evs != [] && (Call(s, evs[0]).current == At(p) || EverChosen(Call(s, evs[0]), evs[1..], p))
  }

  function Overrides(s: State, evs: seq<Event>): nat
    decreases |evs|
  {
    if evs == [] then 0
    else (if s.Raised(evs[0].irqs).Overridden() then 1 else 0) + Overrides(Call(s, evs[0]), evs[1..])
  }

  function ActiveSet(s: State): set<nat> { set q: nat | q < |s.queue| && s.queue[q].active }

  lemma DecideKeeps(u: State, switchTo: int)
    requires u.Valid()
    ensures var t := u.Decide(switchTo);
            && t.Valid() && t.hasIdle == u.hasIdle && |t.queue| == |u.queue| && t.tick == u.tick
            && forall q: nat :: q < |u.queue| ==>
              t.queue[q].stamp == u.queue[q].stamp && t.queue[q].active == u.queue[q].active
  {
  }

  /** Beyond the stamps a call changes neither who is active nor how old they are. */
  lemma OnlyStamps(s: State, e: Event)
    requires s.Valid() && !(s.current.Nobody? && !s.hasIdle)
    ensures var t, u := Call(s, e), s.Raised(e.irqs).Stamped();
            && t.Valid() && t.hasIdle == s.hasIdle && |t.queue| == |s.queue| == |u.queue| && t.tick == u.tick
            && forall q: nat :: q < |s.queue| ==>
              t.queue[q].stamp == u.queue[q].stamp && t.queue[q].active == s.queue[q].active
  {
    var r := s.Raised(e.irqs);
    DecideKeeps(r.Stamped(), e.switchTo);
  }

  /** What every call does to the ages: one more for all but the process that was current. */
  lemma Ages(s: State, e: Event, m: nat)
    requires s.Valid() && s.Calm(m + 1)
    requires !(s.current.Nobody? && !s.hasIdle)
    ensures var t := Call(s, e);
            && t.Valid() && |t.queue| == |s.queue| && t.hasIdle == s.hasIdle
            && (forall q: nat :: q < |s.queue| ==> t.queue[q].active == s.queue[q].active)
            && (forall q: nat :: q < |s.queue| && s.queue[q].active ==>
                 t.Age(q) == (if s.current == At(q) then 1 else s.Age(q) + 1))
  {
    hide Call, State.Raised, State.Stamped, State.Step;
    OnlyStamps(s, e);
    StampedAges(s, e, m);
    var t, u := Call(s, e), s.Raised(e.irqs).Stamped();
    assert forall q: nat :: q < |s.queue| ==> t.Age(q) == u.Age(q);
  }

  lemma AgeGrows(tick: Word, stamp: Word)
    ensures ((tick + 1) % WORD - tick) % WORD == 1
    ensures (tick - stamp) % WORD + 1 < WORD ==> ((tick + 1) % WORD - stamp) % WORD == (tick - stamp) % WORD + 1
  {
  }

  /** Whoever is ahead of p after a call was so before. */
  lemma NobodyOvertakes(s: State, e: Event, p: nat, m: nat)
    requires s.Valid() && s.Calm(m + 1) && s.Active(p) && s.current != At(p) && s.Age(p) > 0
    requires !(s.current.Nobody? && !s.hasIdle)
    requires Call(s, e).current != At(p)
    ensures Call(s, e).Valid() && p < |Call(s, e).queue| && Call(s, e).Ahead(p) <= s.Ahead(p)
  {
    hide Call, State.Step, State.Age, State.Raised;
    Ages(s, e, m);
  }

  /** Once p is old enough, a call that is not decided by an interrupt picks p or somebody ahead of it. */
  lemma OldestFirst(s: State, e: Event, p: nat, m: nat)
    requires s.Valid() && s.Calm(m + 1) && s.Active(p) && s.current != At(p)
    requires !(s.current.Nobody? && !s.hasIdle)
    requires s.Age(p) + 1 >= PATIENCE && !s.Raised(e.irqs).Overridden()
    ensures Call(s, e).current == At(p) || (Call(s, e).current.At? && Call(s, e).current.i in s.Ahead(p))
  {
    var r := s.Raised(e.irqs);
    var u := r.Stamped();
    StampedAges(s, e, m);
    hide State.Age, State.Raised, State.Stamped, State.Eldest, State.Target, State.Interrupt;
    var c := u.Eldest(|u.queue|);
    assert u.Age(c) >= u.Age(p);
    assert Call(s, e) == u.Decide(e.switchTo);
  }

  /** As long as some process is active, some process is chosen. */
  lemma SomebodyRuns(s: State, e: Event, p: nat, m: nat)
    requires s.Valid() && s.Calm(m + 1) && s.Active(p)
    requires !(s.current.Nobody? && !s.hasIdle) && (s.current == At(p) || s.Age(p) > 0)
    ensures Call(s, e).current.At? && Call(s, e).Active(Call(s, e).current.i)
  {
    var u := s.Raised(e.irqs).Stamped();
    StampedAges(s, e, m);
    hide State.Age, State.Raised, State.Stamped, State.Eldest, State.Target, State.Interrupt;
    assert u.Age(p) > 0;
    assert Call(s, e) == u.Decide(e.switchTo);
    assert u.Target(|u.queue|, e.switchTo) < |u.queue|;
  }

  /** The ages that a call decides by. */
  lemma StampedAges(s: State, e: Event, m: nat)
    requires s.Valid() && s.Calm(m + 1)
    ensures var u := s.Raised(e.irqs).Stamped();
            && |u.queue| == |s.queue| && s.Raised(e.irqs).current == s.current
            && (s.Raised(e.irqs).queue == [] <==> s.queue == [])
            && (forall q: nat :: q < |s.queue| ==> u.queue[q].active == s.queue[q].active)
            && (forall q: nat :: q < |s.queue| && s.queue[q].active ==>
                 u.Age(q) == (if s.current == At(q) then 1 else s.Age(q) + 1))
  {
    forall q: nat | q < |s.queue| && s.queue[q].active
      ensures s.Raised(e.irqs).Stamped().Age(q) == (if s.current == At(q) then 1 else s.Age(q) + 1)
    {
      AgeGrows(s.tick, s.queue[q].stamp);
    }
  }

  /** How many more calls p can be passed over. */
  function Patience(s: State, p: nat): nat
    requires p < |s.queue|
  {
    (if s.Age(p) < PATIENCE - 1 then PATIENCE - 1 - s.Age(p) else 0) + |s.Ahead(p)|
  }

  /** While p waits, every call that is not decided by an interrupt takes something from its patience. */
  lemma {:induction false} Waits(s: State, evs: seq<Event>, p: nat)
    requires s.Valid() && s.Calm(|evs|) && s.Active(p) && s.current != At(p) && s.Age(p) > 0
    requires !(s.current.Nobody? && !s.hasIdle)
    requires !EverChosen(s, evs, p)
    ensures |evs| <= Patience(s, p) + Overrides(s, evs)
    decreases |evs|
  {
    hide Call, State.Step, State.Age, State.Raised, State.Ahead, State.Overridden;
    if evs != [] {
      var e, m := evs[0], |evs| - 1;
      var t := Call(s, e);
      Ages(s, e, m);
      SomebodyRuns(s, e, p, m);
      NobodyOvertakes(s, e, p, m);
      Fewer(t.Ahead(p), s.Ahead(p));
      Waits(t, evs[1..], p);
      if s.Age(p) + 1 >= PATIENCE && !s.Raised(e.irqs).Overridden() {
        OldestFirst(s, e, p, m);
        NotAhead(t, p);
        Fewer(t.Ahead(p), s.Ahead(p) - {t.current.i});
      }
    }
  }

  lemma NotAhead(t: State, p: nat)
    requires t.current.At? && p < |t.queue|
    ensures t.current.i !in t.Ahead(p)
  {
  }

  lemma Fewer(a: set<nat>, b: set<nat>)
    requires a <= b
    ensures |a| <= |b|
  {
    assert b == a + (b - a);
  }

  /** Bounded waiting. Among n active processes the current one is chosen again within n + 40 calls, that
      in which it is stamped included, whatever processes are named, plus one for every call that is
      decided by an interrupt. The ticks may wrap around. */
  lemma BoundedWait(s: State, evs: seq<Event>, p: nat)
    requires s.Valid() && s.Active(p) && s.current == At(p) && s.Calm(|evs|)
    requires |evs| >= |ActiveSet(s)| + PATIENCE - 2 + Overrides(s, evs)
    ensures EverChosen(s, evs, p)
  {
    hide Call, ActiveSet, State.Step, State.Age, State.Raised, State.Ahead;
    SomeActive(s, p);
    if !EverChosen(s, evs, p) {
      var e, t, m := evs[0], Call(s, evs[0]), |evs| - 1;
      Ages(s, e, m);
      SomebodyRuns(s, e, p, m);
      AheadOfThem(s, t, p);
      Waits(t, evs[1..], p);
    }
  }

  lemma SomeActive(s: State, p: nat)
    requires s.Active(p)
    ensures |ActiveSet(s)| >= 1
  {
    assert p in ActiveSet(s);
    Fewer({p}, ActiveSet(s));
  }

  lemma AheadOfThem(s: State, t: State, p: nat)
    requires |t.queue| == |s.queue| && s.Active(p) && t.current.At? && t.current != At(p) && t.Active(t.current.i)
    requires forall q: nat :: q < |s.queue| ==> t.queue[q].active == s.queue[q].active
    ensures |t.Ahead(p)| <= |ActiveSet(s)| - 2
  {
    assert {p, t.current.i} <= ActiveSet(s);
    Fewer(t.Ahead(p), ActiveSet(s) - {p, t.current.i});
  }

  // ----- what a call chooses, and what becomes of interrupts -----

  /** The active processes that have a fresh interrupt to handle once these have been raised. */
  function Fresh(s: State, irqs: set<nat>): set<nat> {
    set q: nat | q < |s.queue| && s.queue[q].active && (s.queue[q].irq || q in irqs)
  }

  /** How old a process is when a call looks at it. */
  function NextAge(s: State, q: nat): nat
    requires q < |s.queue|
  {
    if s.current == At(q) then 1 else s.Age(q) + 1
  }

  /** One of the active processes with this number, unless somebody is too old to be passed over. */
  ghost predicate MayBeNamed(s: State, pid: int) {
    && (exists q: nat :: s.Active(q) && s.queue[q].pid == pid)
    && forall q: nat :: s.Active(q) ==> NextAge(s, q) < PATIENCE
  }

  /** The same, once the current process has been stamped. */
  ghost predicate Chooses(u: State, pid: int, t: State) {
    && t.current.At? && u.Active(t.current.i)
    && (Fresh(u, {}) != {} ==>
          && t.current.i in Fresh(u, {}) && (forall q :: q in Fresh(u, {}) ==> q <= t.current.i)
          && t.queue == u.queue[t.current.i := u.queue[t.current.i].(irq := false)])
    && (Fresh(u, {}) == {} ==>
          && t.queue == u.queue
          && if Named(u, pid)
             then u.queue[t.current.i].pid == pid
                  && (forall q: nat :: u.Active(q) && u.queue[q].pid == pid ==> q <= t.current.i)
             else forall q: nat :: u.Active(q) ==>
                    u.Age(q) < u.Age(t.current.i) || (u.Age(q) == u.Age(t.current.i) && t.current.i <= q))
  }

  ghost predicate Named(u: State, pid: int) {
    && (exists q: nat :: u.Active(q) && u.queue[q].pid == pid)
    && forall q: nat :: u.Active(q) ==> u.Age(q) < PATIENCE
  }

  lemma Decides(u: State, pid: int, p: nat)
    requires u.Active(p) && u.Age(p) > 0
    ensures Chooses(u, pid, u.Decide(pid))
  {
    hide State.Age, State.Eldest, State.Target, State.Interrupt;
    var n := |u.queue|;
    var e, t, q := u.Eldest(n), u.Target(n, pid), u.Interrupt(n);
    assert e >= 0;
    if q >= 0 {
      assert q in Fresh(u, {});
    } else {
      assert Fresh(u, {}) == {};
      if t >= 0 && u.Age(e) < PATIENCE {
        assert u.Active(t);
        assert Named(u, pid);
      } else {
        assert u.Active(e);
        assert !Named(u, pid);
      }
    }
  }

  /** What a call chooses: the last process with a fresh interrupt, which it uses up; otherwise the last one
      that is named; otherwise the first of the oldest. */
  lemma Choice(s: State, e: Event, p: nat)
    requires s.Valid() && s.Calm(1) && s.Active(p) && (s.current == At(p) || s.Age(p) > 0)
    requires !(s.current.Nobody? && !s.hasIdle)
    ensures var t, raised := Call(s, e), Fresh(s, e.irqs);
            && t.current.At? && s.Active(t.current.i) && Fresh(t, {}) == raised - {t.current.i}
            && (raised != {} ==> t.current.i in raised && forall q :: q in raised ==> q <= t.current.i)
            && (raised == {} && MayBeNamed(s, e.switchTo) ==> s.queue[t.current.i].pid == e.switchTo)
            && (raised == {} && MayBeNamed(s, e.switchTo) ==>
                  forall q: nat :: s.Active(q) && s.queue[q].pid == e.switchTo ==> q <= t.current.i)
            && (raised == {} && !MayBeNamed(s, e.switchTo) ==> forall q: nat :: s.Active(q) ==>
                  NextAge(s, q) < NextAge(s, t.current.i)
                  || (NextAge(s, q) == NextAge(s, t.current.i) && t.current.i <= q))
  {
    hide State.Age, State.Raised, State.Stamped, State.Decide;
    var u := s.Raised(e.irqs).Stamped();
    StampedAges(s, e, 0);
    StampedFlags(s, e);
    assert Fresh(u, {}) == Fresh(s, e.irqs);
    assert forall q: nat :: s.Active(q) ==> u.Active(q) && u.Age(q) == NextAge(s, q);
    assert Named(u, e.switchTo) <==> MayBeNamed(s, e.switchTo);
    Decides(u, e.switchTo, p);
    assert Call(s, e) == u.Decide(e.switchTo);
  }

  /** If nobody is active, nobody is chosen. */
  lemma NobodyRuns(s: State, e: Event)
    requires s.Valid() && forall q: nat :: !s.Active(q)
    ensures !Call(s, e).current.At?
  {
    StampedFlags(s, e);
    hide State.Age, State.Raised, State.Stamped, State.Eldest, State.Target, State.Interrupt;
    var u := s.Raised(e.irqs).Stamped();
    var c := u.Eldest(|u.queue|);
    assert c >= 0 ==> s.Active(c);
  }

  lemma StampedFlags(s: State, e: Event)
    ensures var u := s.Raised(e.irqs).Stamped();
            && |u.queue| == |s.queue| && s.Raised(e.irqs).hasIdle == u.hasIdle == s.hasIdle
            && forall q: nat :: q < |s.queue| ==>
              && u.queue[q].active == s.queue[q].active && u.queue[q].pid == s.queue[q].pid
              && (u.queue[q].irq <==> s.queue[q].irq || q in e.irqs)
  {
  }

  lemma StampedValid(s: State, e: Event)
    requires s.Valid()
    ensures var r := s.Raised(e.irqs);
            r.Valid() && r.Stamped().Valid() && |r.queue| == |s.queue| && Fresh(r, {}) == Fresh(s, e.irqs)
  {
  }

  /** How many interrupts are raised in a run. */
  function Raises(evs: seq<Event>): nat {
    if evs == [] then 0 else |evs[0].irqs| + Raises(evs[1..])
  }

  /** An interrupt decides one call at most. */
  lemma {:induction false} InterruptsAreUsedUp(s: State, evs: seq<Event>)
    requires s.Valid()
    ensures Overrides(s, evs) <= |Fresh(s, {})| + Raises(evs)
    decreases |evs|
  {
    if evs != [] {
      var e, t := evs[0], Call(s, evs[0]);
      OneUsedUp(s, e);
      hide Call, State.Overridden;
      InterruptsAreUsedUp(t, evs[1..]);
    }
  }

  lemma OneUsedUp(s: State, e: Event)
    requires s.Valid()
    ensures var t := Call(s, e);
            && t.Valid()
            && |Fresh(t, {})| + (if s.Raised(e.irqs).Overridden() then 1 else 0) <= |Fresh(s, {})| + |e.irqs|
  {
    hide State.Raised, State.Step, State.Overridden;
    StampedValid(s, e);
    Fewer(Fresh(s, e.irqs), Fresh(s, {}) + e.irqs);
    assert |Fresh(s, {}) + e.irqs| <= |Fresh(s, {})| + |e.irqs|;
    StepUses(s.Raised(e.irqs), e.switchTo);
  }

  lemma StepUses(r: State, pid: int)
    requires r.Valid()
    ensures var t := r.Step(pid);
            t.Valid() && |Fresh(t, {})| + (if r.Overridden() then 1 else 0) <= |Fresh(r, {})|
  {
    hide State.Stamped, State.Decide, State.Eldest, State.Interrupt;
    var u := r.Stamped();
    StampsOnly(r);
    DecideUses(u, pid);
    if r.Leaves() && r.queue == [] {
      assert u.(current := Nobody).queue == [];
    }
  }

  lemma StampsOnly(r: State)
    requires r.Valid()
    ensures var u := r.Stamped(); u.Valid() && |u.queue| == |r.queue| && Fresh(u, {}) == Fresh(r, {})
  {
  }

  lemma DecideUses(u: State, pid: int)
    requires u.Valid()
    ensures var t, n := u.Decide(pid), |u.queue|;
            && t.Valid() && Fresh(t, {}) <= Fresh(u, {})
            && |Fresh(t, {})| + (if u.Eldest(n) >= 0 && u.Interrupt(n) >= 0 then 1 else 0) <= |Fresh(u, {})|
  {
    hide State.Age, State.Eldest, State.Target, State.Interrupt, Fresh;
    var t, n := u.Decide(pid), |u.queue|;
    if u.Eldest(n) >= 0 && u.Interrupt(n) >= 0 {
      Cleared(u, t, u.Interrupt(n));
    } else {
      Untouched(u, t);
    }
  }

  lemma Cleared(u: State, t: State, q: nat)
    requires q < |u.queue| && u.queue[q].active && u.queue[q].irq
    requires t.queue == u.queue[q := u.queue[q].(irq := false)]
    ensures Fresh(t, {}) <= Fresh(u, {}) && |Fresh(t, {})| + 1 <= |Fresh(u, {})|
  {
    assert q in Fresh(u, {}) && Fresh(t, {}) == Fresh(u, {}) - {q};
  }

  lemma Untouched(u: State, t: State)
    requires t.queue == u.queue
    ensures Fresh(t, {}) == Fresh(u, {})
  {
  }

  /** Bounded waiting with the interrupts themselves: those that are fresh and those that are raised. */
  lemma BoundedWaitWithInterrupts(s: State, evs: seq<Event>, p: nat)
    requires s.Valid() && s.Active(p) && s.current == At(p) && s.Calm(|evs|)
    requires |evs| >= |ActiveSet(s)| + PATIENCE - 2 + |Fresh(s, {})| + Raises(evs)
    ensures EverChosen(s, evs, p)
  {
    InterruptsAreUsedUp(s, evs);
    BoundedWait(s, evs, p);
  }

  // ----- the bound is attained -----

  /** When each of n processes was stamped last: the first one at s, those before c when they were
      current, and the others never. */
  function CrowdStamp(s: Word, c: nat, i: nat): Word
    requires c < WORD - PATIENCE
  {
    if i == 0 then s else if i < c then PATIENCE - 1 + i else 0
  }

  /** n processes, the c-th of which is current. */
  function Crowd(n: nat, tick: Word, s: Word, c: nat, current: nat): State
    requires c < WORD - PATIENCE
  {
    State(tick, seq(n, i requires 0 <= i < n => Proc(i + 1, CrowdStamp(s, c, i), true, false)), At(current), true)
  }

  /** The first process is always named. */
  function NameFirst(m: nat): (evs: seq<Event>)
    ensures |evs| == m
  {
    seq(m, _ => Event({}, 1))
  }

  /** The oldest process is determined by its age, and by its place among those of the same age. */
  lemma EldestIs(u: State, x: nat)
    requires u.Active(x) && u.Age(x) > 0
    requires forall i: nat :: u.Active(i) ==> u.Age(i) <= u.Age(x)
    requires forall i: nat :: i < x && u.Active(i) ==> u.Age(i) < u.Age(x)
    ensures u.Eldest(|u.queue|) == x
  {
    hide State.Age;
    var e := u.Eldest(|u.queue|);
    assert e >= 0 && u.Active(e);
  }

  /** What a call makes of a crowd: while nobody is old enough the first process goes on, and then each
      gets its turn. */
  lemma CrowdCalled(n: nat, tick: Word, s: Word, c: nat, current: nat)
    requires 2 <= n < WORD - 2 * PATIENCE && current < n && c < n && tick <= n + PATIENCE - 3
    requires (tick == s == c == 0 && current == n - 1)
          || (c == current == 0 && 0 < tick < PATIENCE && s < tick)
          || (0 < c == current < n - 1 && s == PATIENCE - 1 && tick == PATIENCE - 1 + c)
    ensures var crowd := Crowd(n, tick, s, c, current);
            var t, o := Call(crowd, Event({}, 1)), crowd.Raised({}).Overridden();
            && !o
            && (tick < PATIENCE - 1 ==> t == Crowd(n, tick + 1, if current == 0 then tick else s, 0, 0))
            && (tick >= PATIENCE - 1 ==> t == Crowd(n, tick + 1, PATIENCE - 1, c + 1, c + 1))
  {
    hide State.Raised, State.Stamped, State.Decide, State.Interrupt, State.Eldest, State.Target, CrowdStamp;
    var s' := if current == 0 then tick else s;
    var c' := if current == 0 || tick == 0 then 0 else c + 1;
    CrowdStamped(n, tick, s, c, current, s', c');
    CrowdDecides(n, tick + 1, s', c', current);
    CrowdStarts(n, tick + 1, s');
  }

  lemma CrowdStamped(n: nat, tick: Word, s: Word, c: nat, current: nat, s': Word, c': nat)
    requires 2 <= n < WORD - 2 * PATIENCE && current < n && c < n && tick <= n + PATIENCE - 3
    requires (tick == s == c == 0 && current == n - 1)
          || (c == current == 0 && 0 < tick < PATIENCE && s < tick)
          || (0 < c == current < n - 1 && s == PATIENCE - 1 && tick == PATIENCE - 1 + c)
    requires s' == (if current == 0 then tick else s) && c' == if current == 0 || tick == 0 then 0 else c + 1
    ensures var v := Crowd(n, tick, s, c, current);
            v.Raised({}) == v && v.Stamped() == Crowd(n, tick + 1, s', c', current)
  {
    var v := Crowd(n, tick, s, c, current);
    assert v.Raised({}).queue == v.queue;
    assert v.Stamped().queue == Crowd(n, tick + 1, s', c', current).queue;
  }

  /** The first process counts as stamped either way. */
  lemma CrowdStarts(n: nat, tick: Word, s: Word)
    ensures Crowd(n, tick, s, 0, 0).queue == Crowd(n, tick, s, 1, 1).queue
  {
  }

  /** The decision in such a crowd, once the current process has been stamped. */
  lemma CrowdDecides(n: nat, tick: Word, s: Word, c: nat, current: nat)
    requires 2 <= n < WORD - 2 * PATIENCE && current < n && c <= n - 1 && 0 < tick <= n + PATIENCE - 2
    requires (tick == 1 && s == c == 0 && current == n - 1)
          || (c == current == 0 && 1 < tick <= PATIENCE && s == tick - 1)
          || (1 < c == current + 1 && s == PATIENCE - 1 && tick == PATIENCE - 1 + c)
    ensures var u := Crowd(n, tick, s, c, current);
            && u.Interrupt(n) < 0
            && u.Decide(1) == u.(current := At(if tick < PATIENCE then 0 else if c == 0 then 1 else c))
  {
    hide State.Age, CrowdStamp, State.Eldest, State.Interrupt, State.Target;
    var u := Crowd(n, tick, s, c, current);
    var x := if tick == 1 then 0 else if c == 0 then 1 else c;
    CrowdAges(n, tick, s, c, current);
    EldestIs(u, x);
    assert u.Interrupt(n) < 0;
    assert u.queue[0].pid == 1 && u.Target(n, 1) == 0;
  }

  lemma CrowdAges(n: nat, tick: Word, s: Word, c: nat, current: nat)
    requires 2 <= n < WORD - 2 * PATIENCE && current < n && c <= n - 1 && s < tick
    requires c > 0 ==> tick == PATIENCE - 1 + c && s == PATIENCE - 1
    ensures var u := Crowd(n, tick, s, c, current);
            forall i: nat :: i < n ==> u.Age(i) == if i == 0 then tick - s else if i < c then c - i else tick
  {
  }

  /** The last process is passed over until everybody else has had a turn. */
  lemma {:induction false} PassedOver(n: nat, tick: Word, s: Word, c: nat, current: nat, m: nat)
    requires 2 <= n < WORD - 2 * PATIENCE && current < n && c < n && tick + m <= n + PATIENCE - 3
    requires (tick == s == c == 0 && current == n - 1)
          || (c == current == 0 && 0 < tick < PATIENCE && s < tick)
          || (0 < c == current < n - 1 && s == PATIENCE - 1 && tick == PATIENCE - 1 + c)
    ensures !EverChosen(Crowd(n, tick, s, c, current), NameFirst(m), n - 1)
    ensures Overrides(Crowd(n, tick, s, c, current), NameFirst(m)) == 0
    decreases m
  {
    hide State.Step, State.Raised, State.Overridden, Call, CrowdStamp;
    if m > 0 {
      assert NameFirst(m)[1..] == NameFirst(m - 1);
      CrowdCalled(n, tick, s, c, current);
      if tick < PATIENCE - 1 {
        PassedOver(n, tick + 1, if current == 0 then tick else s, 0, 0, m - 1);
      } else {
        PassedOver(n, tick + 1, PATIENCE - 1, c + 1, c + 1, m - 1);
      }
    }
  }

  /** Among any number of processes there is one that can be passed over for n + 39 calls, that in which
      it is stamped included. */
  lemma BoundIsTight(n: nat)
    requires 2 <= n < WORD - 2 * PATIENCE
    ensures var s, evs := Crowd(n, 0, 0, 0, n - 1), NameFirst(n + PATIENCE - 3);
            && s.Valid() && s.Active(n - 1) && s.current == At(n - 1) && s.Calm(|evs|)
            && |ActiveSet(s)| == n && |evs| == |ActiveSet(s)| + PATIENCE - 3 + Overrides(s, evs)
            && !EverChosen(s, evs, n - 1)
  {
    hide EverChosen, Overrides, Call;
    PassedOver(n, 0, 0, 0, n - 1, n + PATIENCE - 3);
    var s := Crowd(n, 0, 0, 0, n - 1);
    Numbers(n);
    assert ActiveSet(s) == Below(n);
  }

  function Below(n: nat): set<nat> { if n == 0 then {} else Below(n - 1) + {n - 1} }

  lemma {:induction false} Numbers(n: nat)
    ensures |Below(n)| == n && forall i: nat :: i in Below(n) <==> i < n
  {
    if n > 0 {
      Numbers(n - 1);
    }
  }
}

// The scheduler on the run queue as it is linked in memory.
module Scheduling {
  import opened FairChoice

  /** The part of process_t that scheduling looks at. */
  class Process {
    const pid: int
    var active: bool
    var scheduleTick: Word
    var handledIrq: int
    var handlingIrq: bool
    var freshIrq: bool
    var rqNext: Process?

    constructor (pid: int)
      ensures this.pid == pid && !active && scheduleTick == 0 && handledIrq == -1 && !handlingIrq && !freshIrq &&
        rqNext == null
    {
      this.pid := pid;
      active, scheduleTick := false, 0;
      handledIrq, handlingIrq, freshIrq := -1, false, false;
      rqNext := null;
    }

    function Interrupted(): bool
      reads this
    {
      handledIrq >= 0 && handlingIrq && freshIrq
    }

    /** It would be chosen if its interrupt were fresh. */
    predicate Handles()
      reads this`active, this`handledIrq, this`handlingIrq
    {
      active && handledIrq >= 0 && handlingIrq
    }

    ghost function Seen(): Proc
      reads this
    {
      Proc(pid, scheduleTick, active, Interrupted())
    }
  }

  /** Whose interrupt is fresh. */
  ghost function Flags(q: seq<Process>): (f: seq<bool>)
    reads Members(q)`freshIrq
    ensures |f| == |q| && forall i :: 0 <= i < |f| ==> f[i] == q[i].freshIrq
  {
    if q == [] then [] else [q[0].freshIrq] + Flags(q[1..])
  }

  ghost predicate NoDuplicates(q: seq<Process>) {
    forall i, j :: 0 <= i < j < |q| ==> q[i] != q[j]
  }

  ghost function Members(q: seq<Process>): set<Process> { set p | p in q }

  ghost function Head(q: seq<Process>, i: nat): Process? { if i < |q| then q[i] else null }

  ghost predicate Linked(q: seq<Process>)
    reads Members(q)`rqNext
  {
    forall i :: 0 <= i < |q| ==> q[i].rqNext == Head(q, i + 1)
  }

  ghost function Snapshot(q: seq<Process>): (r: seq<Proc>)
    reads Members(q)
    ensures |r| == |q| && forall i :: 0 <= i < |q| ==> r[i] == q[i].Seen()
  {
    seq(|q|, i requires 0 <= i < |q| reads Members(q) => q[i].Seen())
  }

  /** Where in q the process p is. */
  ghost function Find(q: seq<Process>, p: Process): (i: nat)
    ensures i <= |q| && (i < |q| ==> q[i] == p) && (i == |q| ==> p !in q)
  {
    if q == [] then 0 else if q[0] == p then 0 else 1 + Find(q[1..], p)
  }

  class Scheduler {
    var scheduleTick: Word
    var current: Process?
    var idle: Process?
    var runqueue: Process?
    var locked: bool

    ghost var queue: seq<Process>

    ghost predicate Valid()
      reads this`queue, this`runqueue, this`idle, Members(queue)`rqNext
    {
      NoDuplicates(queue) && Linked(queue) && runqueue == Head(queue, 0) && (idle != null ==> idle !in queue)
    }

    ghost function Whereabouts(p: Process?): Where
      reads this`queue, this`idle, p
    {
      if p == null then Nobody
      else if p in queue then At(Find(queue, p))
      else Outside(p.active && p != idle)
    }

    ghost function View(): State
      reads this`scheduleTick, this`queue, this`current, this`idle, Members(queue), current
    {
      State(scheduleTick, Snapshot(queue), Whereabouts(current), idle != null)
    }

    /** The processes whose stamp a call may change. */
    ghost function Stampable(): set<Process>
      reads this`queue, this`current, this`idle
    {
      Members(queue) + (if current != null then {current} else {}) + (if idle != null then {idle} else {})
    }

    ghost function Nth(i: int): Process?
      reads this`queue
    {
      if 0 <= i < |queue| then queue[i] else null
    }

    /** What the loop knows after k processes. */
    ghost predicate Surveyed(s: State, switchTo: int, k: nat, eldest: Process?, target: Process?, irq: Process?,
                             maxDiff: Word)
      requires k <= |s.queue|
      reads this`queue
    {
      && eldest == Nth(s.Eldest(k)) && target == Nth(s.Target(k, switchTo)) && irq == Nth(s.Interrupt(k))
      && maxDiff == if s.Eldest(k) < 0 then 0 else s.Age(s.Eldest(k))
    }

    /** Lines 75-88. */
    method Look(proc: Process, switchTo: int, eldest: Process?, target: Process?, irq: Process?, maxDiff: Word,
                ghost k: nat)
      returns (eldest': Process?, target': Process?, irq': Process?, maxDiff': Word)
      requires k < |queue| && proc == queue[k] && Surveyed(View(), switchTo, k, eldest, target, irq, maxDiff)
      ensures Surveyed(View(), switchTo, k + 1, eldest', target', irq', maxDiff')
    {
      eldest', target', irq', maxDiff' := eldest, target, irq, maxDiff;
      assert View().queue[k] == proc.Seen();
      if proc.active {
        if proc.pid == switchTo {
          target' := proc;
        }
        if proc.Interrupted() {
          irq' := proc;
        }
        var diff := (scheduleTick - proc.scheduleTick) % WORD;
        if diff > maxDiff {
          maxDiff', eldest' := diff, proc;
        }
      }
    }

    /** The loop of lines 67-89. */
    method Survey(switchTo: int) returns (eldest: Process?, target: Process?, irq: Process?, maxDiff: Word)
      requires Valid()
      ensures Surveyed(View(), switchTo, |queue|, eldest, target, irq, maxDiff)
    {
      ghost var k := 0;
      eldest, target, irq, maxDiff := null, null, null, 0;
      var proc := runqueue;
      assert Surveyed(View(), switchTo, 0, eldest, target, irq, maxDiff);
      hide Surveyed;
      while proc != null
        invariant k <= |queue| && proc == Head(queue, k)
        invariant Surveyed(View(), switchTo, k, eldest, target, irq, maxDiff)
        decreases |queue| - k
      {
        eldest, target, irq, maxDiff := Look(proc, switchTo, eldest, target, irq, maxDiff, k);
        proc := proc.rqNext;
        k := k + 1;
      }
    }

    lemma Position(i: nat)
      requires Valid() && i < |queue|
      ensures Whereabouts(queue[i]) == At(i)
    {
      assert queue[Find(queue, queue[i])] == queue[i];
    }

    /** p.schedule_tick = ... shows in the place of p in the queue, if it has one. */
    method Stamp(p: Process)
      requires Valid()
      modifies p`scheduleTick
      ensures Valid() && Whereabouts(current) == old(Whereabouts(current)) && p.scheduleTick == scheduleTick
      ensures Snapshot(queue) ==
        match Whereabouts(p)
        case At(i) => old(Snapshot(queue))[i := old(p.Seen()).(stamp := scheduleTick)]
        case _ => old(Snapshot(queue))
    {
      ghost var was := Snapshot(queue);
      p.scheduleTick := scheduleTick;
      if p in queue {
        assert Snapshot(queue) == was[Find(queue, p) := p.Seen()];
      } else {
        assert Snapshot(queue) == was;
      }
    }

    /** Line 53, for the current process or the idle process. */
    method StampAndTick(p: Process)
      requires Valid() && p == if current == null then idle else current
      modifies this`scheduleTick, p`scheduleTick
      ensures Valid() && View() == old(View()).Stamped()
    {
      hide Snapshot, Linked, NoDuplicates, Find;
      Stamp(p);
      scheduleTick := (scheduleTick + 1) % WORD;
    }

    /** Lines 41-57, but for the case that there is nobody at all. */
    method StampCurrent() returns (onward: bool)
      requires Valid() && (current != null || idle != null)
      modifies this`current, this`scheduleTick, Stampable()`scheduleTick
      ensures Valid()
      ensures View() == old(View()).Stamped().(current := Whereabouts(current))
      ensures onward <==> !(old(View()).Leaves() && queue == [])
      ensures !onward ==> current == null
    {
      hide Snapshot, Linked, NoDuplicates, Find, State.Stamped;
      var p: Process := if current == null then idle else current;
      StampAndTick(p);
      current := if p == idle || !p.active then runqueue else p;
      onward := current != null;
    }

    lemma {:induction false} SameEldest(s: State, t: State, n: nat)
      requires s.tick == t.tick && s.queue == t.queue && n <= |s.queue|
      ensures s.Eldest(n) == t.Eldest(n)
    {
      assert forall i: nat :: i < |s.queue| ==> s.Age(i) == t.Age(i);
      hide State.Age;
      if n > 0 {
        SameEldest(s, t, n - 1);
      }
    }

    lemma {:induction false} SameTarget(s: State, t: State, n: nat, pid: int)
      requires s.queue == t.queue && n <= |s.queue|
      ensures s.Target(n, pid) == t.Target(n, pid) && s.Interrupt(n) == t.Interrupt(n)
    {
      if n > 0 {
        SameTarget(s, t, n - 1, pid);
      }
    }

    /** Who is current has no influence on what is decided. */
    lemma SameDecision(s: State, t: State, switchTo: int)
      requires s.tick == t.tick && s.queue == t.queue && s.hasIdle == t.hasIdle
      ensures s.Decide(switchTo) == t.Decide(switchTo)
    {
      var n := |s.queue|;
      SameEldest(s, t, n);
      SameTarget(s, t, n, switchTo);
      hide State.Eldest, State.Target, State.Interrupt;
      assert s.Eldest(n) >= 0 ==> s.Age(s.Eldest(n)) == t.Age(t.Eldest(n));
    }

    method SetCurrent(p: Process, ghost i: nat)
      requires Valid() && i < |queue| && p == queue[i]
      modifies this`current
      ensures Valid() && current == p && View() == old(View()).(current := At(i))
    {
      Position(i);
      hide Snapshot;
      current := p;
    }

    /** If active processes had fresh interrupts to handle, and somebody has been chosen at all, it is one of
        them, and it has none to handle any more. No other flag has changed. */
    ghost predicate UsedUp(flags: seq<bool>)
      requires |flags| == |queue|
      reads this`queue, this`current, Members(queue)`freshIrq
      reads Members(queue)`active, Members(queue)`handledIrq, Members(queue)`handlingIrq
    {
      && (forall i :: 0 <= i < |queue| ==>
            queue[i].freshIrq == (flags[i] && !(queue[i] == current && current.Handles())))
      && (forall i, j :: 0 <= i < |queue| && 0 <= j < |queue| && queue[i] == current && queue[j].Handles() && flags[j]
            ==> current.Handles() && flags[i])
    }

    lemma NobodyUsesUp()
      requires current == null || current !in queue
      ensures UsedUp(Flags(queue))
    {
    }

    /** q is the last process with an interrupt, if there is one, and c the one that has been chosen. */
    lemma InterruptUsed(flags: seq<bool>, q: int, c: nat)
      requires NoDuplicates(queue) && |flags| == |queue| && -1 <= q < |queue| && c < |queue| && current == queue[c]
      requires Flags(queue) == if q >= 0 then flags[q := false] else flags
      requires q >= 0 ==> c == q && current.Handles() && flags[q]
      requires q < 0 ==> forall j :: 0 <= j < |queue| ==> !(queue[j].Handles() && flags[j])
      ensures UsedUp(flags)
    {
    }

    lemma Interrupting(q: int)
      requires q == View().Interrupt(|queue|)
      ensures q >= 0 ==> queue[q].Handles() && Flags(queue)[q]
      ensures q < 0 ==> forall j :: 0 <= j < |queue| ==> !(queue[j].Handles() && Flags(queue)[j])
    {
      hide State.Interrupt;
      assert forall j :: 0 <= j < |queue| ==> View().queue[j] == queue[j].Seen();
    }

    method ClearInterrupt(p: Process, ghost i: nat)
      requires Valid() && i < |queue| && p == queue[i]
      modifies p`freshIrq
      ensures Flags(queue) == old(Flags(queue))[i := false]
      ensures Valid() && View() == old(View()).(queue := old(View()).queue[i := old(View()).queue[i].(irq := false)])
    {
      hide Snapshot, Linked, Flags, Find;
      ghost var was := Snapshot(queue);
      p.freshIrq := false;
      assert Snapshot(queue) == was[i := was[i].(irq := false)];
    }

    /** Lines 102-105. */
    method Prefer(eldest: Process, target: Process?, maxDiff: Word, ghost e: nat, ghost t: int)
      requires Valid() && e < |queue| && eldest == queue[e] && -1 <= t < |queue| && target == Nth(t)
      modifies this`current
      ensures Valid() && current == queue[if t >= 0 && maxDiff < 42 then t else e]
      ensures View() == old(View()).(current := At(if t >= 0 && maxDiff < 42 then t else e))
    {
      hide View, Valid;
      SetCurrent(eldest, e);
      if target != null && maxDiff < 42 {
        SetCurrent(target, t);
      }
    }

    /** Lines 102-112. */
    method Take(eldest: Process, target: Process?, irq: Process?, maxDiff: Word, ghost e: nat, ghost t: int,
                ghost q: int)
      requires Valid() && e < |queue| && eldest == queue[e]
      requires -1 <= t < |queue| && target == Nth(t) && -1 <= q < |queue| && irq == Nth(q)
      modifies this`current, Members(queue)`freshIrq
      ensures Valid() && Flags(queue) == if q >= 0 then old(Flags(queue))[q := false] else old(Flags(queue))
      ensures current == queue[if q >= 0 then q else if t >= 0 && maxDiff < 42 then t else e]
      ensures var s := old(View());
              View() == if q >= 0 then s.(queue := s.queue[q := s.queue[q].(irq := false)], current := At(q))
                        else if t >= 0 && maxDiff < 42 then s.(current := At(t))
                        else s.(current := At(e))
    {
      hide View, Flags, Valid;
      Viewed();
      Prefer(eldest, target, maxDiff, e, t);
      if irq != null {
        ClearInterrupt(irq, q);
        SetCurrent(irq, q);
      }
    }

    lemma Viewed()
      ensures |View().queue| == |queue| && View().hasIdle == (idle != null)
      ensures forall i :: 0 <= i < |queue| ==> View().queue[i].active == queue[i].active
    {
    }

    /** Lines 92-98: nobody else can run. */
    method GoIdle()
      requires Valid()
      modifies this`current
      ensures Valid() && current == idle && UsedUp(Flags(queue)) && Flags(queue) == old(Flags(queue))
      ensures View() == old(View()).(current := if old(View()).hasIdle then IDLE else Nobody)
    {
      hide Snapshot, Linked, Flags, UsedUp;
      current := idle;
      NobodyUsesUp();
    }

    /** Lines 92-112. */
    method Choose(switchTo: int)
      requires Valid()
      modifies this`current, Members(queue)`freshIrq
      ensures Valid() && View() == old(View()).Decide(switchTo) && (current == null ==> idle == null)
      ensures UsedUp(old(Flags(queue))) && (current == idle || (current in queue && current.active))
    {
      hide State.Eldest, State.Target, State.Interrupt, Linked, NoDuplicates, Flags, UsedUp, Snapshot, Find;
      hide Process.Handles, View, Whereabouts;
      Viewed();
      ghost var s, n, flags := View(), |queue|, Flags(queue);
      Interrupting(s.Interrupt(n));
      var eldest, target, irq, maxDiff := Survey(switchTo);
      if eldest == null {
        GoIdle();
        return;
      }
      ghost var e, t, q := s.Eldest(n), s.Target(n, switchTo), s.Interrupt(n);
      Take(eldest, target, irq, maxDiff, e, t, q);
      InterruptUsed(flags, q, if q >= 0 then q else if t >= 0 && maxDiff < 42 then t else e);
    }

    /** Lines 53-112, for whoever is current or for the idle process. */
    method Advance(switchTo: int) returns (r: Process?)
      requires Valid() && (current != null || idle != null)
      modifies this`current, this`scheduleTick, Stampable()`scheduleTick, Members(queue)`freshIrq
      ensures Valid() && View() == old(View()).Step(switchTo) && r == (if current == null then idle else current)
      ensures UsedUp(old(Flags(queue))) && (r == idle || (r in queue && r.active))
    {
      hide State.Decide, State.Stamped, State.Leaves, Linked, NoDuplicates, Snapshot, Flags, UsedUp;
      ghost var s := View();
      var onward := StampCurrent();
      if !onward {
        NobodyUsesUp();
        return idle;
      }
      SameDecision(View(), s.Stamped(), switchTo);
      Choose(switchTo);
      r := current;
    }

    lemma MembersAllocated()
      ensures forall p :: p in Members(queue) ==> allocated(p)
    {
    }

    lemma StepsNowhere(switchTo: int)
      requires Valid() && current == null && idle == null
      ensures View().Step(switchTo) == View()
    {
    }

    /** schedule. The process returned is the one that is current afterwards, or the idle process. */
    method Schedule(switchTo: int) returns (r: Process?)
      requires Valid()
      modifies this`current, this`scheduleTick, this`locked, Stampable()`scheduleTick, Members(queue)`freshIrq
      ensures Valid() && locked == old(locked)
      ensures locked ==> r == current == old(current) && View() == old(View())
      ensures !locked ==> View() == old(View()).Step(switchTo) && r == (if current == null then idle else current)
      ensures if locked then Flags(queue) == old(Flags(queue)) else UsedUp(old(Flags(queue)))
      ensures !locked ==> r == idle || (r in queue && r.active)
    {
      hide State.Step, View, Valid, Members, UsedUp, Flags;
      if locked {
        return current;
      }
      MembersAllocated();
      if current == null && idle == null {
        StepsNowhere(switchTo);
        NobodyUsesUp();
      }
      locked := true;
      if current == null && idle == null {
        r := null;
      } else {
        r := Advance(switchTo);
      }
      locked := false;
    }
  }
}
