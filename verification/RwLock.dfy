// The readers-writers lock (src/lib/common/system/rwl_lock.c) over lock.c, as atomic steps of any
// number of threads.

module RwLock {
  type Pid = x: int | 0 < x witness 1

  /** Where a thread is. A local copy of the reader count stands for the register that
      ++ and -- work on. */
  datatype Pc =
    | Out
    // rwl_lock_r
    | R0             // line 27, lock(&lock_lock)
    | R1             // line 29, reads reader_count
    | R2(tmp: int)   // line 29, writes reader_count
    | R3             // line 30, lock(&write_lock)
    | R4             // line 32, unlock(&lock_lock)
    | Reading
    // rwl_unlock_r
    | U0             // line 38, lock(&lock_lock)
    | U1             // line 40, reads reader_count
    | U2(tmp: int)   // line 40, writes reader_count
    | U3             // line 41, unlock(&write_lock)
    | U4             // line 42, reads write_lock
    | U5             // line 43, writes write_lock
    | U6             // line 45, unlock(&lock_lock)
    // rwl_lock_w, rwl_unlock_w
    | W0             // line 51, lock(&write_lock)
    | Writing
    | X0             // line 57, unlock(&write_lock)
    // rwl_require_w
    | Q0             // line 65, reads reader_count
    | Q1             // line 65, trylock(&lock_lock)
    | Q2             // line 68, reads reader_count
    | Q3             // line 71, unlock(&lock_lock)
    | Q4             // line 74, writes reader_count
    | Q5             // line 76, unlock(&lock_lock)

  datatype State = State(writeLock: int, lockLock: int, count: int, pcs: map<Pid, Pc>) {
    function At(t: Pid, pc: Pc): State { this.(pcs := pcs[t := pc]) }
  }

  ghost predicate Init(s: State) {
    s.writeLock == 0 && s.lockLock == 0 && s.count == 0 && forall t :: t in s.pcs ==> s.pcs[t] == Out
  }

  /** The next atomic step of thread t; write says what it calls when it has a choice. A failed attempt to
      take a lock leaves everything as it is. */
  function Move(s: State, t: Pid, write: bool): State
    requires t in s.pcs
  {
    match s.pcs[t]
    case Out => s.At(t, if write then W0 else R0)
    case R0 => if s.lockLock == 0 then s.(lockLock := t).At(t, R1) else s
    case R1 => s.At(t, R2(s.count))
    case R2(tmp) => s.(count := tmp + 1).At(t, if tmp == 0 then R3 else R4)
    case R3 => if s.writeLock == 0 then s.(writeLock := t).At(t, R4) else s
    case R4 => s.(lockLock := 0).At(t, Reading)
    case Reading => s.At(t, if write then Q0 else U0)
    case U0 => if s.lockLock == 0 then s.(lockLock := t).At(t, U1) else s
    case U1 => s.At(t, U2(s.count))
    case U2(tmp) => s.(count := tmp - 1).At(t, if tmp - 1 == 0 then U3 else U4)
    case U3 => s.(writeLock := 0).At(t, U6)
    case U4 => s.At(t, if s.writeLock == t then U5 else U6)
    case U5 => s.(writeLock := -1).At(t, U6)
    case U6 => s.(lockLock := 0).At(t, Out)
    case W0 => if s.writeLock == 0 then s.(writeLock := t).At(t, Writing) else s
    case Writing => s.At(t, X0)
    case X0 => s.(writeLock := 0).At(t, Out)
    case Q0 => if s.count > 1 then s else s.At(t, Q1)
    case Q1 => if s.lockLock == 0 then s.(lockLock := t).At(t, Q2) else s.At(t, Q0)
    case Q2 => s.At(t, if s.count == 1 then Q4 else Q3)
    case Q3 => s.(lockLock := 0).At(t, Q0)
    case Q4 => s.(count := 0).At(t, Q5)
    case Q5 => s.(lockLock := 0).At(t, Writing)
  }

  predicate Step(s: State, s': State, t: Pid) {
    t in s.pcs && (s' == Move(s, t, false) || s' == Move(s, t, true))
  }

  /** A run: in the i-th step thread turns[i] moves from states[i] to states[i + 1]. */
  ghost predicate Run(states: seq<State>, turns: seq<Pid>) {
    && |states| == |turns| + 1 && Init(states[0])
    && forall i :: 0 <= i < |turns| ==> Step(states[i], states[i + 1], turns[i])
  }

  // ----- what the program counters mean -----

  /** Owns lock_lock. */
  predicate Holds(pc: Pc) {
    match pc
    case R1 | R2(_) | R3 | R4 | U1 | U2(_) | U3 | U4 | U5 | U6 | Q2 | Q3 | Q4 | Q5 => true
    case _ => false
  }

  /** Counts as a reader. */
  predicate Counts(pc: Pc) {
    match pc
    case R3 | R4 | Reading | U0 | U1 | U2(_) | Q0 | Q1 | Q2 | Q3 | Q4 => true
    case _ => false
  }

  /** Is inside as a reader: counts and does not wait for write_lock any more. */
  predicate Reads(pc: Pc) { Counts(pc) && pc != R3 }

  /** Is inside as a writer, directly or by an upgrade. */
  predicate Writes(pc: Pc) {
    match pc
    case Writing | X0 | Q5 => true
    case _ => false
  }

  /** Keeps write_lock taken. */
  predicate Keeps(pc: Pc) { Reads(pc) || Writes(pc) || pc == U3 }

  /** Is entitled to be named in write_lock. */
  predicate Inside(pc: Pc) { Keeps(pc) || pc == U4 || pc == U5 }

  ghost function Counted(s: State): set<Pid> { set t | t in s.pcs && Counts(s.pcs[t]) }

  ghost predicate Locked(s: State) {
    && (s.lockLock != 0 ==> 0 < s.lockLock && s.lockLock in s.pcs && Holds(s.pcs[s.lockLock]))
    && (forall t :: t in s.pcs && Holds(s.pcs[t]) ==> s.lockLock == t)
  }

  /** What the local copy of the reader count, and the branches taken by it, tell thread t. */
  predicate Recalls(s: State, t: Pid, pc: Pc) {
    match pc
    case R2(tmp) => tmp == s.count
    case U2(tmp) => tmp == s.count
    case R3 => s.count == 1
    case Q4 => s.count == 1
    case U3 => s.count == 0
    case U4 => s.count > 0
    case U5 => s.count > 0 && s.writeLock == t
    case Q5 => s.count == 0
    case _ => true
  }

  ghost predicate Remembered(s: State) {
    forall t :: t in s.pcs ==> Recalls(s, t, s.pcs[t])
  }

  ghost predicate Exclusive(s: State) {
    forall w, x :: w in s.pcs && x in s.pcs && w != x && Writes(s.pcs[w]) ==> !Keeps(s.pcs[x])
  }

  /** write_lock is taken exactly while somebody is inside, and if it names a thread, that one is. */
  ghost predicate Guarded(s: State) {
    && (s.writeLock == 0 ==> forall t :: t in s.pcs ==> !Keeps(s.pcs[t]))
    && (s.writeLock != 0 ==> exists t :: t in s.pcs && Keeps(s.pcs[t]))
    && (s.writeLock > 0 ==> s.writeLock in s.pcs && Inside(s.pcs[s.writeLock]))
  }

  ghost predicate Invariant(s: State) {
    && Locked(s) && Remembered(s) && s.count == |Counted(s)| && Exclusive(s) && Guarded(s)
  }

  lemma InitHolds(s: State)
    requires Init(s)
    ensures Invariant(s)
  {
    assert Counted(s) == {};
  }

  /** How the number of readers changes when one thread moves on. */
  lemma CountAfter(s: State, t: Pid, pc: Pc)
    requires t in s.pcs
    ensures |Counted(s.At(t, pc))| == |Counted(s)| + (if Counts(pc) then 1 else 0) - (if Counts(s.pcs[t]) then 1 else 0)
  {
    var a, b := Counted(s), Counted(s.At(t, pc));
    assert a - {t} == b - {t};
    assert |a| == |a - {t}| + if t in a then 1 else 0;
    assert |b| == |b - {t}| + if t in b then 1 else 0;
  }

  /** If there are more readers than the thread that owns lock_lock, one of them is inside. */
  lemma AnotherReads(s: State, t: Pid)
    requires Invariant(s) && t in s.pcs && Holds(s.pcs[t]) && s.pcs[t] != R3
    requires s.count > if Counts(s.pcs[t]) then 1 else 0
    ensures exists c :: c != t && c in s.pcs && Reads(s.pcs[c])
  {
    var others := Counted(s) - {t};
    assert |Counted(s)| == |others| + if t in Counted(s) then 1 else 0;
    var c :| c in others;
  }

  /** If there are no more readers than the thread itself, nobody else reads. */
  lemma NobodyElseReads(s: State, t: Pid)
    requires Invariant(s) && t in s.pcs && s.count <= if Counts(s.pcs[t]) then 1 else 0
    ensures forall c :: c != t && c in s.pcs ==> !Counts(s.pcs[c])
  {
    var a := Counted(s) - {t};
    assert |Counted(s)| == |a| + if t in Counted(s) then 1 else 0;
    assert a == {};
    assert forall c :: c != t && c in s.pcs && Counts(s.pcs[c]) ==> c in a;
  }

  /** A step changes the program counter of one thread only. */
  predicate Moved(s: State, s': State, t: Pid) {
    s'.pcs.Keys == s.pcs.Keys && forall u :: u in s.pcs && u != t ==> s'.pcs[u] == s.pcs[u]
  }

  /** What a step does to lock_lock and the reader count, and who may do it. */
  predicate LockTable(s: State, s': State, t: Pid)
    requires t in s.pcs && t in s'.pcs
  {
    var pc, pc' := s.pcs[t], s'.pcs[t];
    && (|| (s'.lockLock == s.lockLock && Holds(pc') == Holds(pc))
        || (s.lockLock == 0 && s'.lockLock == t && Holds(pc') && !Holds(pc))
        || (Holds(pc) && s'.lockLock == 0 && !Holds(pc')))
    && s'.count == s.count + (if Counts(pc') then 1 else 0) - (if Counts(pc) then 1 else 0)
    && (s'.count != s.count ==> Holds(pc))
    && Recalls(s', t, pc')
  }

  /** What a step does to write_lock, and who is inside afterwards. */
  predicate WriteTable(s: State, s': State, t: Pid)
    requires t in s.pcs && t in s'.pcs
  {
    var pc, pc' := s.pcs[t], s'.pcs[t];
    && (Writes(pc') ==> Writes(pc) || s.writeLock == 0 || pc == Q4)
    && (Keeps(pc') && !Keeps(pc) ==> s.writeLock == 0 || (pc.R2? && s.count > 0))
    && (|| (s'.writeLock == s.writeLock && Keeps(pc') == Keeps(pc) && (s.writeLock == t ==> Inside(pc') || !Inside(pc)))
        || (s'.writeLock == s.writeLock && pc.R2? && s.count > 0 && Keeps(pc'))
        || (s'.writeLock == s.writeLock && pc.U2? && s.count > 1 && Inside(pc'))
        || (s.writeLock == 0 && s'.writeLock == t && Keeps(pc') && !Keeps(pc))
        || (s'.writeLock == 0 && Writes(pc) && !Keeps(pc'))
        || (s'.writeLock == 0 && pc == U3 && !Keeps(pc'))
        || (s'.writeLock == -1 && pc == U5 && !Keeps(pc')))
  }

  lemma CountsAtLeast(s: State, t: Pid)
    requires s.count == |Counted(s)| && t in s.pcs
    ensures s.count >= if Counts(s.pcs[t]) then 1 else 0
  {
    if Counts(s.pcs[t]) {
      assert t in Counted(s);
    }
  }

  lemma OneMoves(s: State, s': State, t: Pid)
    requires Step(s, s', t)
    ensures Moved(s, s', t)
  {
  }

  lemma FollowsLockTable(s: State, s': State, t: Pid)
    requires Locked(s) && t in s.pcs && Recalls(s, t, s.pcs[t]) && Step(s, s', t)
    requires s.count >= if Counts(s.pcs[t]) then 1 else 0
    ensures t in s'.pcs && LockTable(s, s', t)
  {
    hide Locked;
    OwnsLock(s, t);
  }

  lemma OwnsLock(s: State, t: Pid)
    requires Locked(s) && t in s.pcs
    ensures Holds(s.pcs[t]) ==> s.lockLock == t
  {
  }

  lemma FollowsWriteTable(s: State, s': State, t: Pid)
    requires t in s.pcs && Recalls(s, t, s.pcs[t]) && Step(s, s', t)
    requires s.count >= if Counts(s.pcs[t]) then 1 else 0
    ensures t in s'.pcs && WriteTable(s, s', t)
  {
  }

  lemma KeepsLocked(s: State, s': State, t: Pid)
    requires Locked(s) && t in s.pcs && Moved(s, s', t) && LockTable(s, s', t)
    ensures Locked(s')
  {
    hide Step;
  }

  lemma KeepsCount(s: State, s': State, t: Pid)
    requires s.count == |Counted(s)| && t in s.pcs && Moved(s, s', t) && LockTable(s, s', t)
    ensures s'.count == |Counted(s')|
  {
    CountAfter(s, t, s'.pcs[t]);
    assert Counted(s') == Counted(s.At(t, s'.pcs[t]));
  }

  lemma KeepsRemembered(s: State, s': State, t: Pid)
    requires Invariant(s) && t in s.pcs && Moved(s, s', t) && LockTable(s, s', t) && WriteTable(s, s', t)
    ensures Remembered(s')
  {
    forall u | u in s.pcs && u != t
      ensures Recalls(s', u, s'.pcs[u])
    {
      assert Recalls(s, u, s.pcs[u]);
      if s.pcs[u] == U5 {
        AnotherReads(s, u);
      }
    }
  }

  lemma KeepsExclusive(s: State, s': State, t: Pid)
    requires Invariant(s) && t in s.pcs && Moved(s, s', t) && WriteTable(s, s', t)
    ensures Exclusive(s')
  {
    if s.pcs[t].R2? && s.count > 0 {
      AnotherReads(s, t);
    }
    if s.pcs[t] == Q4 {
      assert Recalls(s, t, Q4);
      NobodyElseReads(s, t);
    }
    hide Remembered, Counted;
  }

  lemma KeepsGuarded(s: State, s': State, t: Pid)
    requires Invariant(s) && t in s.pcs && Moved(s, s', t) && WriteTable(s, s', t)
    ensures Guarded(s')
  {
    assert Recalls(s, t, s.pcs[t]);
    if (s.pcs[t].R2? && s.count > 0) || (s.pcs[t].U2? && s.count > 1) || s.pcs[t] == U5 {
      AnotherReads(s, t);
    }
    if s.pcs[t] == U3 {
      NobodyElseReads(s, t);
    }
    hide Remembered, Counted;
  }

  /** Every step of every thread keeps the invariant. */
  lemma StepKeeps(s: State, s': State, t: Pid)
    requires Invariant(s) && Step(s, s', t)
    ensures Invariant(s')
  {
    assert Recalls(s, t, s.pcs[t]);
    CountsAtLeast(s, t);
    OneMoves(s, s', t);
    hide Step, Locked, Counted, Remembered, Exclusive, Guarded, Moved, LockTable, WriteTable;
    FollowsLockTable(s, s', t);
    FollowsWriteTable(s, s', t);
    KeepsLocked(s, s', t);
    KeepsCount(s, s', t);
    KeepsRemembered(s, s', t);
    KeepsExclusive(s, s', t);
    KeepsGuarded(s, s', t);
  }

  // ----- what holds in every reachable state -----

  lemma {:induction false} Reachable(states: seq<State>, turns: seq<Pid>, i: nat)
    requires Run(states, turns) && i < |states|
    ensures Invariant(states[i])
  {
    if i == 0 {
      InitHolds(states[0]);
    } else {
      Reachable(states, turns, i - 1);
      StepKeeps(states[i - 1], states[i], turns[i - 1]);
    }
  }

  /** A writer, direct or upgraded, is never inside together with a reader or another writer. */
  lemma Exclusion(states: seq<State>, turns: seq<Pid>, i: nat, w: Pid, x: Pid)
    requires Run(states, turns) && i < |states| && w in states[i].pcs && x in states[i].pcs && w != x
    requires Writes(states[i].pcs[w])
    ensures !Reads(states[i].pcs[x]) && !Writes(states[i].pcs[x])
  {
    Reachable(states, turns, i);
  }

  /** The assertion in lock.c, line 34, fails for thread t: it already owns the lock it is about to take. */
  predicate LocksItselfOut(s: State, t: Pid)
    requires t in s.pcs
  {
    match s.pcs[t]
    case R0 | U0 => s.lockLock == t
    case R3 | W0 => s.writeLock == t
    case _ => false
  }

  lemma NeverLocksItselfOut(states: seq<State>, turns: seq<Pid>, i: nat, t: Pid)
    requires Run(states, turns) && i < |states| && t in states[i].pcs
    ensures !LocksItselfOut(states[i], t)
  {
    Reachable(states, turns, i);
  }

  /** When everybody has left, the lock is as it was in the beginning. */
  lemma NothingLeaks(states: seq<State>, turns: seq<Pid>, i: nat)
    requires Run(states, turns) && i < |states|
    requires forall t :: t in states[i].pcs ==> states[i].pcs[t] == Out
    ensures Init(states[i])
  {
    Reachable(states, turns, i);
    assert Counted(states[i]) == {};
  }

  /** Thread t can do nothing but try again, or has nothing to do. */
  predicate Waits(s: State, t: Pid)
    requires t in s.pcs
  {
    match s.pcs[t]
    case Out => true
    case R0 | U0 | Q1 => s.lockLock != 0
    case R3 | W0 => s.writeLock != 0
    case Q0 => s.count > 1 || s.lockLock != 0
    case _ => false
  }

  ghost predicate Stuck(s: State) {
    && (exists t :: t in s.pcs && s.pcs[t] != Out)
    && (forall t :: t in s.pcs ==> Waits(s, t))
  }

  /** Several readers wait for each other to leave so that they can write. */
  ghost predicate UpgradesCollide(s: State) {
    s.count > 1 && forall t :: t in s.pcs ==> s.pcs[t] == Out || s.pcs[t] == W0 || s.pcs[t] == Q0
  }

  /** The lock can only get stuck by upgrades that collide, and then it does. */
  lemma StuckByUpgradesOnly(states: seq<State>, turns: seq<Pid>, i: nat)
    requires Run(states, turns) && i < |states|
    ensures Stuck(states[i]) <==> UpgradesCollide(states[i])
  {
    var s := states[i];
    Reachable(states, turns, i);
    if s.lockLock != 0 {
      NobodyHolds(s);
    } else if Stuck(s) {
      OnlyUpgradersInside(s);
    }
    if UpgradesCollide(s) {
      SomeoneCounts(s);
    }
  }

  /** Is in rwl_require_w. */
  predicate Upgrades(pc: Pc) { pc == Q0 || pc == Q1 || pc == Q2 || pc == Q3 || pc == Q4 || pc == Q5 }

  /** Callers that never ask for two upgrades at the same time never get stuck. */
  lemma OneUpgradeIsSafe(states: seq<State>, turns: seq<Pid>, i: nat)
    requires Run(states, turns) && i < |states|
    requires forall t, u :: t in states[i].pcs && u in states[i].pcs && t != u ==>
      !(Upgrades(states[i].pcs[t]) && Upgrades(states[i].pcs[u]))
    ensures !Stuck(states[i])
  {
    var s := states[i];
    StuckByUpgradesOnly(states, turns, i);
    Reachable(states, turns, i);
    if UpgradesCollide(s) {
      TwoCount(s);
    }
  }

  lemma TwoCount(s: State)
    requires s.count == |Counted(s)| && s.count > 1
    ensures exists t, u :: t in s.pcs && u in s.pcs && t != u && Counts(s.pcs[t]) && Counts(s.pcs[u])
  {
    var t :| t in Counted(s);
    assert |Counted(s) - {t}| == |Counted(s)| - 1;
    var u :| u in Counted(s) - {t};
  }

  lemma SomeoneCounts(s: State)
    requires s.count == |Counted(s)| && s.count > 0
    ensures exists t :: t in s.pcs && Counts(s.pcs[t])
  {
    var t :| t in Counted(s);
  }

  /** While lock_lock is taken, its owner or, if that waits for a writer, the writer can go on. */
  lemma NobodyHolds(s: State)
    requires Invariant(s) && s.lockLock != 0
    ensures exists t :: t in s.pcs && !Waits(s, t)
  {
    var o := s.lockLock;
    if Waits(s, o) {
      assert Recalls(s, o, R3);
      NobodyElseReads(s, o);
      var k :| k in s.pcs && Keeps(s.pcs[k]);
      assert !Waits(s, k);
    }
  }

  lemma OnlyUpgradersInside(s: State)
    requires Invariant(s) && Stuck(s) && s.lockLock == 0
    ensures UpgradesCollide(s)
  {
    forall t | t in s.pcs
      ensures s.pcs[t] == Out || s.pcs[t] == W0 || s.pcs[t] == Q0
    {
      assert Waits(s, t);
    }
    var t :| t in s.pcs && s.pcs[t] != Out;
    assert Waits(s, t);
    if s.pcs[t] == W0 {
      var k :| k in s.pcs && Keeps(s.pcs[k]);
      assert Waits(s, k);
    }
  }

  // ----- what a thread can do on its own -----

  /** Thread t moves on from s, and nobody else does. */
  ghost predicate Solo(states: seq<State>, s: State, t: Pid) {
    && |states| > 0 && states[0] == s
    && forall i :: 0 <= i < |states| - 1 ==> Step(states[i], states[i + 1], t)
  }

  /** Compared with s, thread t is in the same attempt, and nothing else has changed. */
  predicate SameAttempt(s: State, s': State, t: Pid) {
    && t in s.pcs && t in s'.pcs && s' == s.At(t, s'.pcs[t])
    && (s'.pcs[t] == s.pcs[t] || (s.pcs[t] in {Q0, Q1} && s'.pcs[t] in {Q0, Q1}))
  }

  /** A thread that is not out waits if and only if whatever it does on its own is the same attempt again. */
  lemma WaitsIsRetrying(s: State, t: Pid)
    requires t in s.pcs && s.pcs[t] != Out
    ensures Waits(s, t) <==>
      forall states, i :: Solo(states, s, t) && 0 <= i < |states| ==> SameAttempt(s, states[i], t)
  {
    if Waits(s, t) {
      forall states, i | Solo(states, s, t) && 0 <= i < |states|
        ensures SameAttempt(s, states[i], t)
      {
        Retrying(states, s, t, i);
      }
    } else {
      var states := GoesOn(s, t);
      assert !SameAttempt(s, states[|states| - 1], t);
    }
  }

  lemma {:induction false} Retrying(states: seq<State>, s: State, t: Pid, i: nat)
    requires t in s.pcs && s.pcs[t] != Out && Waits(s, t) && Solo(states, s, t) && i < |states|
    ensures SameAttempt(s, states[i], t) && Waits(states[i], t)
  {
    if i == 0 {
      assert s.pcs == s.pcs[t := s.pcs[t]];
    } else {
      Retrying(states, s, t, i - 1);
      RetryStep(s, states[i - 1], states[i], t);
    }
  }

  lemma RetryStep(s: State, s1: State, s2: State, t: Pid)
    requires SameAttempt(s, s1, t) && s.pcs[t] != Out && Waits(s1, t) && Step(s1, s2, t)
    ensures SameAttempt(s, s2, t) && Waits(s2, t)
  {
    assert s1.pcs[t := s2.pcs[t]] == s.pcs[t := s2.pcs[t]];
    assert s1.pcs == s1.pcs[t := s1.pcs[t]];
  }

  /** Two steps are enough to see that a thread goes on. */
  lemma GoesOn(s: State, t: Pid) returns (states: seq<State>)
    requires t in s.pcs && !Waits(s, t)
    ensures Solo(states, s, t) && !SameAttempt(s, states[|states| - 1], t)
  {
    var s' := Move(s, t, false);
    states := [s, s'];
    if s.pcs[t] == Q0 {
      states := [s, s', Move(s', t, false)];
    }
  }

  predicate AtRest(pc: Pc) { pc == Out || pc == Reading || pc == Writing }

  /** Where the call ends that a thread is in. */
  function Goal(pc: Pc): Pc {
    match pc
    case R0 | R1 | R2(_) | R3 | R4 => Reading
    case W0 | Q0 | Q1 | Q2 | Q3 | Q4 | Q5 => Writing
    case U0 | U1 | U2(_) | U3 | U4 | U5 | U6 | X0 => Out
    case _ => pc
  }

  /** Nobody else is in a call, a reader finds no writer, and a writer nobody at all. */
  ghost predicate Clear(s: State, t: Pid)
    requires t in s.pcs
  {
    forall u :: u in s.pcs && u != t ==>
      && AtRest(s.pcs[u])
      && (Goal(s.pcs[t]) == Reading ==> s.pcs[u] != Writing)
      && (Goal(s.pcs[t]) == Writing ==> s.pcs[u] == Out)
  }

  /** How many steps the call takes at most. */
  function StepsLeft(pc: Pc): nat {
    match pc
    case R4 | U6 | W0 | X0 | Q5 => 1
    case R3 | U3 | U5 | Q4 => 2
    case R2(_) | U4 | Q2 => 3
    case R1 | U2(_) | Q1 => 4
    case R0 | U1 | Q0 => 5
    case U0 | Q3 => 6
    case _ => 0
  }

  /** What the words are when nobody else is in a call. */
  lemma AloneInside(s: State, t: Pid)
    requires Invariant(s) && t in s.pcs && !AtRest(s.pcs[t]) && Clear(s, t)
    ensures s.lockLock == 0 || s.lockLock == t
    ensures s.pcs[t] == R0 || s.pcs[t] == U0 || s.pcs[t] == Q1 ==> s.lockLock == 0
    ensures Goal(s.pcs[t]) == Writing ==> s.count == if Counts(s.pcs[t]) then 1 else 0
    ensures s.pcs[t] == W0 || s.pcs[t] == R3 ==> s.writeLock == 0
  {
    if Goal(s.pcs[t]) == Writing {
      assert Counted(s) == if Counts(s.pcs[t]) then {t} else {};
    }
    if s.pcs[t] == R3 {
      assert Recalls(s, t, R3);
      NobodyElseReads(s, t);
    }
    if s.writeLock != 0 {
      var k :| k in s.pcs && Keeps(s.pcs[k]);
    }
  }

  lemma NextAlone(s: State, s': State, t: Pid)
    requires Invariant(s) && t in s.pcs && !AtRest(s.pcs[t]) && Clear(s, t) && Step(s, s', t)
    ensures Invariant(s') && t in s'.pcs && Clear(s', t) && Goal(s'.pcs[t]) == Goal(s.pcs[t])
    ensures StepsLeft(s'.pcs[t]) < StepsLeft(s.pcs[t])
  {
    hide Invariant, Step, Recalls;
    AloneInside(s, t);
    StepKeeps(s, s', t);
    OneMoves(s, s', t);
    Shorter(s, s', t);
  }

  lemma Shorter(s: State, s': State, t: Pid)
    requires t in s.pcs && !AtRest(s.pcs[t]) && Step(s, s', t)
    requires s.lockLock == 0 || s.lockLock == t
    requires Goal(s.pcs[t]) == Writing ==> s.count == if Counts(s.pcs[t]) then 1 else 0
    requires s.pcs[t] == W0 || s.pcs[t] == R3 ==> s.writeLock == 0
    requires s.pcs[t] == R0 || s.pcs[t] == U0 || s.pcs[t] == Q1 ==> s.lockLock == 0
    ensures t in s'.pcs && Goal(s'.pcs[t]) == Goal(s.pcs[t]) && StepsLeft(s'.pcs[t]) < StepsLeft(s.pcs[t])
  {
  }

  /** A thread on its own. */
  lemma {:induction false} GetsThere(states: seq<State>, s: State, t: Pid) returns (i: nat)
    requires Invariant(s) && t in s.pcs && Clear(s, t) && Solo(states, s, t) && |states| > StepsLeft(s.pcs[t])
    ensures i <= StepsLeft(s.pcs[t]) && t in states[i].pcs && states[i].pcs[t] == Goal(s.pcs[t])
    decreases StepsLeft(s.pcs[t])
  {
    i := 0;
    if !AtRest(s.pcs[t]) {
      NextAlone(s, states[1], t);
      assert Solo(states[1..], states[1], t);
      var j := GetsThere(states[1..], states[1], t);
      i := j + 1;
    }
  }

  predicate ThereAt(states: seq<State>, i: nat, t: Pid, pc: Pc) {
    i < |states| && t in states[i].pcs && states[i].pcs[t] == pc
  }

  /** A run of n steps of thread t. */
  lemma {:induction false} SoloRun(s: State, t: Pid, n: nat) returns (states: seq<State>)
    requires t in s.pcs
    ensures Solo(states, s, t) && |states| == n + 1
    decreases n
  {
    states := [s];
    if n > 0 {
      hide Move;
      OneMoves(s, Move(s, t, false), t);
      var rest := SoloRun(Move(s, t, false), t, n - 1);
      states := [s] + rest;
    }
  }

  lemma {:induction false} OthersRest(states: seq<State>, s: State, t: Pid, i: nat)
    requires Invariant(s) && t in s.pcs && Solo(states, s, t) && i < |states|
    ensures Invariant(states[i]) && Moved(s, states[i], t)
  {
    hide Move, Invariant;
    if i > 0 {
      OthersRest(states, s, t, i - 1);
      StepKeeps(states[i - 1], states[i], t);
      OneMoves(states[i - 1], states[i], t);
    }
  }

  /** While all others are outside or inside, but not in a call, a call can be brought to its end without
      them if and only if the thread may be inside together with them. */
  lemma CallsEnd(s: State, t: Pid)
    requires Invariant(s) && t in s.pcs && !AtRest(s.pcs[t])
    requires forall u :: u in s.pcs && u != t ==> AtRest(s.pcs[u])
    ensures Clear(s, t) <==>
      exists states: seq<State>, i: nat :: Solo(states, s, t) && ThereAt(states, i, t, Goal(s.pcs[t]))
  {
    hide Invariant, Move;
    if Clear(s, t) {
      var states := SoloRun(s, t, StepsLeft(s.pcs[t]));
      var i := GetsThere(states, s, t);
      assert ThereAt(states, i, t, Goal(s.pcs[t]));
    }
    if states: seq<State>, i: nat :| Solo(states, s, t) && ThereAt(states, i, t, Goal(s.pcs[t])) {
      OthersRest(states, s, t, i);
      InsideTogether(states[i], t);
    }
  }

  lemma InsideTogether(s: State, t: Pid)
    requires Invariant(s) && t in s.pcs
    ensures forall u :: u in s.pcs && u != t && AtRest(s.pcs[u]) ==>
      && (s.pcs[t] == Reading ==> s.pcs[u] != Writing)
      && (s.pcs[t] == Writing ==> s.pcs[u] == Out)
  {
  }

  function Two(writeLock: int, lockLock: int, count: int, p: Pc, q: Pc): State {
    State(writeLock, lockLock, count, map[1 := p, 2 := q])
  }

  /** It does happen: two readers that both ask to write. */
  lemma UpgradesDoCollide() returns (states: seq<State>, turns: seq<Pid>)
    ensures Run(states, turns) && Stuck(states[|states| - 1])
  {
    hide Step, Two, Init, Stuck;
    states := [
      Two(0, 0, 0, Out, Out), Two(0, 0, 0, R0, Out), Two(0, 1, 0, R1, Out), Two(0, 1, 0, R2(0), Out),
      Two(0, 1, 1, R3, Out), Two(1, 1, 1, R4, Out), Two(1, 0, 1, Reading, Out), Two(1, 0, 1, Q0, Out),
      Two(1, 0, 1, Q0, R0), Two(1, 2, 1, Q0, R1), Two(1, 2, 1, Q0, R2(1)), Two(1, 2, 2, Q0, R4),
      Two(1, 0, 2, Q0, Reading), Two(1, 0, 2, Q0, Q0)];
    turns := [1, 1, 1, 1, 1, 1, 1, 2, 2, 2, 2, 2, 2];
    FirstEnters();
    SecondEnters();
    CollisionIsStuck();
  }

  lemma CollisionIsStuck()
    ensures Init(Two(0, 0, 0, Out, Out)) && Stuck(Two(1, 0, 2, Q0, Q0))
  {
    var last := Two(1, 0, 2, Q0, Q0);
    assert last.pcs[1] == Q0;
    assert Waits(last, 1) && Waits(last, 2);
  }

  lemma TwoAt(w: int, l: int, c: int, p: Pc, q: Pc)
    ensures forall r :: Two(w, l, c, p, q).At(1, r) == Two(w, l, c, r, q)
    ensures forall r :: Two(w, l, c, p, q).At(2, r) == Two(w, l, c, p, r)
  {
  }

  lemma FirstEnters()
    ensures Step(Two(0, 0, 0, Out, Out), Two(0, 0, 0, R0, Out), 1)
    ensures Step(Two(0, 0, 0, R0, Out), Two(0, 1, 0, R1, Out), 1)
    ensures Step(Two(0, 1, 0, R1, Out), Two(0, 1, 0, R2(0), Out), 1)
    ensures Step(Two(0, 1, 0, R2(0), Out), Two(0, 1, 1, R3, Out), 1)
    ensures Step(Two(0, 1, 1, R3, Out), Two(1, 1, 1, R4, Out), 1)
    ensures Step(Two(1, 1, 1, R4, Out), Two(1, 0, 1, Reading, Out), 1)
    ensures Step(Two(1, 0, 1, Reading, Out), Two(1, 0, 1, Q0, Out), 1)
  {
    TwoAt(0, 0, 0, Out, Out);
    TwoAt(0, 1, 0, R0, Out);
    TwoAt(0, 1, 0, R1, Out);
    TwoAt(0, 1, 1, R2(0), Out);
    TwoAt(1, 1, 1, R3, Out);
    TwoAt(1, 0, 1, R4, Out);
    TwoAt(1, 0, 1, Reading, Out);
  }

  lemma SecondEnters()
    ensures Step(Two(1, 0, 1, Q0, Out), Two(1, 0, 1, Q0, R0), 2)
    ensures Step(Two(1, 0, 1, Q0, R0), Two(1, 2, 1, Q0, R1), 2)
    ensures Step(Two(1, 2, 1, Q0, R1), Two(1, 2, 1, Q0, R2(1)), 2)
    ensures Step(Two(1, 2, 1, Q0, R2(1)), Two(1, 2, 2, Q0, R4), 2)
    ensures Step(Two(1, 2, 2, Q0, R4), Two(1, 0, 2, Q0, Reading), 2)
    ensures Step(Two(1, 0, 2, Q0, Reading), Two(1, 0, 2, Q0, Q0), 2)
  {
    TwoAt(1, 0, 1, Q0, Out);
    TwoAt(1, 2, 1, Q0, R0);
    TwoAt(1, 2, 1, Q0, R1);
    TwoAt(1, 2, 2, Q0, R2(1));
    TwoAt(1, 0, 2, Q0, R4);
    TwoAt(1, 0, 2, Q0, Reading);
  }

  /** The lock in memory, and its threads. */
  class Machine {
    var writeLock: int
    var lockLock: int
    var readerCount: int
    var pcs: map<Pid, Pc>

    ghost function View(): State
      reads this
    {
      State(writeLock, lockLock, readerCount, pcs)
    }

    ghost predicate Valid()
      reads this
    {
      Invariant(View())
    }

    /** No writer is inside together with anybody else, and nobody is about to wait for itself. */
    ghost predicate Safe()
      reads this
    {
      && (forall w, x :: w in pcs && x in pcs && w != x && Writes(pcs[w]) ==> !Reads(pcs[x]) && !Writes(pcs[x]))
      && (forall t :: t in pcs ==> !LocksItselfOut(View(), t))
    }

    constructor (threads: set<Pid>)
      ensures Valid() && Safe() && Init(View()) && pcs.Keys == threads
    {
      writeLock, lockLock, readerCount := 0, 0, 0;
      pcs := map t | t in threads :: Out;
      new;
      InitHolds(View());
      StaysSafe();
    }

    /** What thread t does next; write says what it calls when it has a choice. In the model no thread
        does anything between two accesses to the lock. Whatever the threads do, the state stays safe. */
    method Next(t: Pid, write: bool)
      requires Valid() && t in pcs
      modifies this
      ensures Valid() && Safe() && View() == Move(old(View()), t, write)
    {
      hide Move, Invariant, Safe;
      ghost var was := View();
      Change(t, write);
      StepKeeps(was, View(), t);
      StaysSafe();
    }

    lemma StaysSafe()
      requires Valid()
      ensures Safe()
    {
      hide Remembered, Counted;
    }

    method Change(t: Pid, write: bool)
      requires t in pcs
      modifies this
      ensures View() == Move(old(View()), t, write)
    {
      var pc := pcs[t];
      match pc {
        case Out => pc := if write then W0 else R0;
        case R0 => if lockLock == 0 { lockLock, pc := t, R1; }
        case R1 => pc := R2(readerCount);
        case R2(tmp) => readerCount, pc := tmp + 1, if tmp == 0 then R3 else R4;
        case R3 => if writeLock == 0 { writeLock, pc := t, R4; }
        case R4 => lockLock, pc := 0, Reading;
        case Reading => pc := if write then Q0 else U0;
        case U0 => if lockLock == 0 { lockLock, pc := t, U1; }
        case U1 => pc := U2(readerCount);
        case U2(tmp) => readerCount, pc := tmp - 1, if tmp - 1 == 0 then U3 else U4;
        case U3 => writeLock, pc := 0, U6;
        case U4 => pc := if writeLock == t then U5 else U6;
        case U5 => writeLock, pc := -1, U6;
        case U6 => lockLock, pc := 0, Out;
        case W0 => if writeLock == 0 { writeLock, pc := t, Writing; }
        case Writing => pc := X0;
        case X0 => writeLock, pc := 0, Out;
        case Q0 => if readerCount <= 1 { pc := Q1; }
        case Q1 => if lockLock == 0 { lockLock, pc := t, Q2; } else { pc := Q0; }
        case Q2 => pc := if readerCount == 1 then Q4 else Q3;
        case Q3 => lockLock, pc := 0, Q0;
        case Q4 => readerCount, pc := 0, Q5;
        case Q5 => lockLock, pc := 0, Writing;
      }
      assert pcs[t := pcs[t]] == pcs;
      pcs := pcs[t := pc];
    }
  }
}
