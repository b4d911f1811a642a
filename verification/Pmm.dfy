// The physical frame allocator (src/kernel/common/memory/pmm.c), call by call.

module FrameAllocator {
  const PAGE_SIZE: nat := 4096
  const COW_FLAG: nat := 128
  const MAX_USERS: nat := 127

  /** An entry of the bitmap: a user count and, as the top bit, the copy-on-write flag. */
  type Entry = e: nat | e < 256

  const WORD: nat := 0x1_0000_0000

  type Word = x: nat | x < WORD

  function Users(e: Entry): nat { e % COW_FLAG }

  predicate Cow(e: Entry) { e >= COW_FLAG }

  ghost function FreeEntries(entries: seq<Entry>): set<nat> { set i: nat | i < |entries| && entries[i] == 0 }

  lemma OneFreeLess(entries: seq<Entry>, k: nat)
    requires k < |entries| && entries[k] == 0
    ensures |FreeEntries(entries[k := 1])| == |FreeEntries(entries)| - 1
  {
    assert FreeEntries(entries[k := 1]) == FreeEntries(entries) - {k};
    assert k in FreeEntries(entries);
  }

  lemma NoneFree(entries: seq<Entry>)
    ensures |FreeEntries(entries)| == 0 <==> forall i :: 0 <= i < |entries| ==> entries[i] != 0
  {
    if i: nat :| i < |entries| && entries[i] == 0 {
      assert i in FreeEntries(entries);
    } else {
      assert FreeEntries(entries) == {};
    }
  }

  class Pmm {
    const memBase: nat
    const bitmap: array<Entry>
    var lookFromHere: nat

    ghost predicate Valid()
      reads this`lookFromHere, bitmap
    {
      && memBase % PAGE_SIZE == 0 && lookFromHere <= bitmap.Length
      && forall i :: 0 <= i < lookFromHere ==> bitmap[i] != 0
    }

    /** The frame has no users, and is not free either. */
    ghost predicate Lost(i: nat)
      reads bitmap
    {
      i < bitmap.Length && bitmap[i] == COW_FLAG
    }

    /** Whatever happens, frames that are lost stay so. */
    twostate predicate LossesStay()
      reads bitmap
    {
      forall i: nat :: old(Lost(i)) ==> Lost(i)
    }

    predicate IsFrame(paddr: int) {
      paddr % PAGE_SIZE == 0 && memBase <= paddr < memBase + bitmap.Length * PAGE_SIZE
    }

    function Index(paddr: int): (i: nat)
      requires memBase % PAGE_SIZE == 0 && IsFrame(paddr)
      ensures i < bitmap.Length && paddr == AddressOf(i)
    {
      (paddr - memBase) / PAGE_SIZE
    }

    function AddressOf(i: nat): int { memBase + i * PAGE_SIZE }

    lemma FrameAt(i: nat)
      requires memBase % PAGE_SIZE == 0 && i < bitmap.Length
      ensures IsFrame(AddressOf(i)) && Index(AddressOf(i)) == i
    {
    }

    constructor (memBase: nat, entries: nat)
      requires memBase % PAGE_SIZE == 0
      ensures Valid() && this.memBase == memBase && bitmap.Length == entries && fresh(bitmap)
      ensures forall i :: 0 <= i < entries ==> bitmap[i] == 0
    {
      this.memBase := memBase;
      bitmap := new Entry[entries](_ => 0);
      lookFromHere := 0;
    }

    /** How many frames can still be allocated. */
    ghost function FreeFrames(): nat
      reads bitmap
    {
      |FreeEntries(bitmap[..])|
    }

    /** pmm_alloc without interference: the lowest frame that is free. It panics if there is none. */
    method Alloc() returns (panicked: bool, paddr: int)
      requires Valid()
      modifies this`lookFromHere, bitmap
      ensures Valid() && LossesStay()
      ensures panicked <==> forall i :: 0 <= i < bitmap.Length ==> old(bitmap[i]) != 0
      ensures panicked ==> bitmap[..] == old(bitmap[..])
      ensures !panicked ==> IsFrame(paddr) && old(bitmap[Index(paddr)]) == 0
      ensures !panicked ==> forall j :: 0 <= j < Index(paddr) ==> old(bitmap[j]) != 0
      ensures !panicked ==> bitmap[..] == old(bitmap[..])[Index(paddr) := 1]
    {
      var i := lookFromHere;
      while i < bitmap.Length
        invariant lookFromHere <= i <= bitmap.Length
        invariant forall j :: 0 <= j < i ==> bitmap[j] != 0
      {
        if bitmap[i] == 0 {
          bitmap[i] := bitmap[i] + 1;
          lookFromHere := i;
          FrameAt(i);
          return false, AddressOf(i);
        }
        i := i + 1;
      }
      return true, 0;
    }

    /** pmm_free. It panics if the frame has no users. The frame can be allocated again if and only if this
        was the last user and the frame was not marked copy-on-write. */
    method Free(paddr: int) returns (panicked: bool)
      requires Valid() && IsFrame(paddr)
      modifies this`lookFromHere, bitmap
      ensures Valid() && LossesStay()
      ensures var e := old(bitmap[Index(paddr)]);
              && (panicked <==> Users(e) == 0)
              && (panicked ==> bitmap[..] == old(bitmap[..]))
              && (!panicked ==> bitmap[..] == old(bitmap[..])[Index(paddr) := e - 1])
              && (!panicked ==> Users(e - 1) == Users(e) - 1 && Cow(e - 1) == Cow(e))
              && (!panicked ==> (bitmap[Index(paddr)] == 0 <==> Users(e) == 1 && !Cow(e)))
    {
      var base := Index(paddr);
      if Users(bitmap[base]) == 0 {
        return true;
      }
      bitmap[base] := bitmap[base] - 1;
      if bitmap[base] == 0 && lookFromHere > base {
        lookFromHere := base;
      }
      return false;
    }

    /** pmm_use. It panics if the frame has no users or if the count is full. */
    method Use(paddr: int) returns (panicked: bool)
      requires Valid() && IsFrame(paddr)
      modifies bitmap
      ensures Valid() && LossesStay()
      ensures var e := old(bitmap[Index(paddr)]);
              && (panicked <==> Users(e) == 0 || Users(e) == MAX_USERS)
              && (panicked ==> bitmap[..] == old(bitmap[..]))
              && (!panicked ==> bitmap[..] == old(bitmap[..])[Index(paddr) := e + 1])
              && (!panicked ==> Users(e + 1) == Users(e) + 1 && Cow(e + 1) == Cow(e))
    {
      var base := Index(paddr);
      if Users(bitmap[base]) == 0 || Users(bitmap[base]) == MAX_USERS {
        return true;
      }
      bitmap[base] := bitmap[base] + 1;
      return false;
    }

    /** pmm_user_count. */
    function UserCount(paddr: int): (n: nat)
      requires memBase % PAGE_SIZE == 0 && IsFrame(paddr)
      reads bitmap
      ensures n <= MAX_USERS
    {
      Users(bitmap[Index(paddr)])
    }

    /** pmm_alloced: somebody uses the frame, and one more may. */
    predicate Alloced(paddr: int)
      requires memBase % PAGE_SIZE == 0 && IsFrame(paddr)
      reads bitmap
    {
      0 < UserCount(paddr) < MAX_USERS
    }

    /** pmm_mark_cow. The users stay as they are. */
    method MarkCow(paddr: int, flag: bool) returns (panicked: bool)
      requires Valid() && IsFrame(paddr)
      modifies bitmap
      ensures Valid() && LossesStay()
      ensures var i := Index(paddr);
              && (panicked <==> Users(old(bitmap[i])) == 0)
              && (panicked ==> bitmap[..] == old(bitmap[..]))
              && (forall j :: 0 <= j < bitmap.Length && j != i ==> bitmap[j] == old(bitmap[j]))
              && (!panicked ==> Cow(bitmap[i]) == flag && Users(bitmap[i]) == Users(old(bitmap[i])))
    {
      var base := Index(paddr);
      if Users(bitmap[base]) == 0 {
        return true;
      }
      bitmap[base] := if flag then COW_FLAG + Users(bitmap[base]) else Users(bitmap[base]);
      return false;
    }

    /** The number of frames for so many bytes (line 274), where the sum wraps around. */
    function Frames(length: Word): nat { (length + PAGE_SIZE - 1) % WORD / PAGE_SIZE }

    /** The frames are enough if and only if the sum does not wrap; beyond that it is none at all. */
    lemma FramesAreEnough(length: Word)
      ensures Frames(length) * PAGE_SIZE >= length <==> length <= WORD - PAGE_SIZE
      ensures length > WORD - PAGE_SIZE ==> Frames(length) == 0
    {
    }

    /** Where the search of pmm_alloc_advanced ends (lines 276-280). */
    function SearchEnd(length: Word, maxAddr: Word): int {
      var end := maxAddr / PAGE_SIZE - Frames(length);
      if bitmap.Length < end then bitmap.Length else end
    }

    /** Frame i is tried if and only if it exists, and from there on the frames and one more, counted from
        address 0, end at the limit or below. */
    lemma Searched(length: Word, maxAddr: Word, i: nat)
      ensures i < SearchEnd(length, maxAddr) <==>
        i < bitmap.Length && (i + Frames(length) + 1) * PAGE_SIZE <= maxAddr
    {
    }

    /** Frames from i on are free. */
    ghost predicate FreeRun(entries: seq<Entry>, i: nat, frames: nat) {
      i < |entries| && entries[i] == 0 && i + frames <= |entries| && forall j :: i <= j < i + frames ==> entries[j] == 0
    }

    /** Whether pmm_alloc_advanced would settle on frame i. */
    ghost predicate Suits(entries: seq<Entry>, i: nat, frames: nat, alignment: nat)
      requires alignment > 0
    {
      AddressOf(i) % alignment == 0 && FreeRun(entries, i, frames)
    }

    /** All frames from i on are free, but there are not enough of them. */
    ghost predicate RunsOut(entries: seq<Entry>, i: nat, frames: nat) {
      i < |entries| < i + frames && forall j :: i <= j < |entries| ==> entries[j] == 0
    }

    /** Whether pmm_alloc_advanced, when it tries frame i, looks beyond the end of the bitmap. */
    ghost predicate Oversteps(entries: seq<Entry>, i: nat, frames: nat, alignment: nat)
      requires alignment > 0
    {
      AddressOf(i) % alignment == 0 && RunsOut(entries, i, frames)
    }

    /** No frame from look_from_here up to k suits. */
    ghost predicate NoneSuits(entries: seq<Entry>, k: int, frames: nat, alignment: nat)
      requires alignment > 0
      reads this`lookFromHere
    {
      forall j :: lookFromHere <= j < k ==> !Suits(entries, j, frames, alignment)
    }

    /** pmm_alloc_advanced without interference: the first suitable run of free frames from look_from_here on,
        or nothing. The search leaves the bitmap, which nothing prevents, exactly if it comes to a frame from
        which all frames up to the last one are free, but too few; the model stops there. */
    method AllocAdvanced(length: Word, maxAddr: Word, alignment: nat)
      returns (base: int, found: bool, outside: bool, ghost i: nat)
      requires Valid() && alignment > 0
      modifies bitmap
      ensures Valid() && LossesStay()
      ensures !found ==> base == 0 && bitmap[..] == old(bitmap[..])
      ensures !found && !outside && length > 0 ==>
        NoneSuits(old(bitmap[..]), SearchEnd(length, maxAddr), Frames(length), alignment)
      ensures found ==> !outside && lookFromHere <= i < SearchEnd(length, maxAddr) && base == AddressOf(i)
      ensures found ==> Suits(old(bitmap[..]), i, Frames(length), alignment)
      ensures found ==> NoneSuits(old(bitmap[..]), i, Frames(length), alignment)
      ensures found ==> forall j :: 0 <= j < bitmap.Length ==>
        bitmap[j] == if i <= j < i + Frames(length) then 1 else old(bitmap[j])
      ensures outside <==> length > 0 && (exists m ::
        && lookFromHere <= m < SearchEnd(length, maxAddr)
        && Oversteps(old(bitmap[..]), m, Frames(length), alignment)
        && NoneSuits(old(bitmap[..]), m, Frames(length), alignment))
      ensures found && memBase + (SearchEnd(length, maxAddr) - 1 + Frames(length)) * PAGE_SIZE <= maxAddr ==>
        base + Frames(length) * PAGE_SIZE <= maxAddr
      ensures found ==> base + (Frames(length) + 1) * PAGE_SIZE <= memBase + maxAddr
      ensures !found && !outside && length > 0 ==> forall j: nat :: (j + Frames(length) + 1) * PAGE_SIZE <= maxAddr ==>
        !Suits(old(bitmap[..]), j, Frames(length), alignment)
    {
      base, found, outside, i := 0, false, false, 0;
      if length == 0 {
        return;
      }
      var frames, end := Frames(length), SearchEnd(length, maxAddr);
      ghost var was := bitmap[..];
      var k := lookFromHere;
      while k < end && !found && !outside
        invariant lookFromHere <= k
        invariant !found ==> bitmap[..] == was && NoneSuits(was, k, frames, alignment)
        invariant !found && !outside ==> forall m :: lookFromHere <= m < k ==> !Oversteps(was, m, frames, alignment)
        invariant outside ==> !found && k < end && Oversteps(was, k, frames, alignment)
        invariant found ==> k < end && base == AddressOf(k) && Suits(was, k, frames, alignment)
        invariant found ==> NoneSuits(was, k, frames, alignment)
        invariant found ==> forall m :: lookFromHere <= m < k ==> !Oversteps(was, m, frames, alignment)
        invariant found ==> forall j :: 0 <= j < bitmap.Length ==>
          bitmap[j] == if k <= j < k + frames then 1 else was[j]
        invariant !found ==> base == 0
        decreases end - k, !found && !outside
      {
        if AddressOf(k) % alignment == 0 {
          found, outside := CheckRun(k, frames);
        }
        if found {
          TakeRun(k, frames);
          base := AddressOf(k);
        } else if !outside {
          k := k + 1;
        }
      }
      i := k;
      if found {
        NoLaterOverstep(was, k, frames, alignment);
        Searched(length, maxAddr, k);
      } else {
        forall j: nat | (j + frames + 1) * PAGE_SIZE <= maxAddr
          ensures !outside ==> !Suits(was, j, frames, alignment)
        {
          Searched(length, maxAddr, j);
        }
      }
    }

    /** Where a run suits, the search does not get further. */
    lemma NoLaterOverstep(entries: seq<Entry>, i: nat, frames: nat, alignment: nat)
      requires alignment > 0 && Suits(entries, i, frames, alignment)
      ensures forall m: nat :: Oversteps(entries, m, frames, alignment) && i <= m && lookFromHere <= i ==>
        !NoneSuits(entries, m, frames, alignment)
    {
      forall m: nat | Oversteps(entries, m, frames, alignment) && i <= m && lookFromHere <= i
        ensures !NoneSuits(entries, m, frames, alignment)
      {
        assert i != m;
      }
    }

    /** Lines 294-308. */
    method CheckRun(i: nat, frames: nat) returns (free: bool, outside: bool)
      requires i < bitmap.Length
      ensures free <==> FreeRun(bitmap[..], i, frames)
      ensures outside <==> RunsOut(bitmap[..], i, frames)
    {
      free, outside := bitmap[i] == 0, false;
      ghost var entries := bitmap[..];
      assert entries[i] == bitmap[i];
      var j := 1;
      while free && !outside && j < frames
        invariant 1 <= j && (j <= frames || frames == 0)
        invariant free ==> i + j <= bitmap.Length && forall m :: i <= m < i + j ==> entries[m] == 0
        invariant !free ==>
          exists m :: i <= m < |entries| && m < i + (if frames == 0 then 1 else frames) && entries[m] != 0
        invariant outside ==> free && j < frames && i + j == bitmap.Length
        decreases frames - j, free && !outside
      {
        if i + j >= bitmap.Length {
          outside := true;
        } else if bitmap[i + j] != 0 {
          assert entries[i + j] != 0;
          free := false;
        } else {
          j := j + 1;
        }
      }
      free := free && !outside;
    }

    /** Lines 310-321, where nothing can have been taken in between. */
    method TakeRun(i: nat, frames: nat)
      requires FreeRun(bitmap[..], i, frames)
      modifies bitmap
      ensures forall j :: 0 <= j < bitmap.Length ==> bitmap[j] == if i <= j < i + frames then 1 else old(bitmap[j])
    {
      var j := 0;
      while j < frames
        invariant j <= frames
        invariant forall m :: 0 <= m < bitmap.Length ==> bitmap[m] == if i <= m < i + j then 1 else old(bitmap[m])
      {
        assert old(bitmap[..])[i + j] == 0;
        bitmap[i + j] := bitmap[i + j] + 1;
        j := j + 1;
      }
    }

    /** The limit that pmm_alloc_advanced is given is compared with frame numbers that do not include the
        base of the memory. All windows that are searched stay below it if and only if the last one does. */
    lemma LimitKept(length: Word, maxAddr: Word)
      requires lookFromHere < SearchEnd(length, maxAddr)
      ensures (forall i: nat :: lookFromHere <= i < SearchEnd(length, maxAddr) ==>
                 AddressOf(i) + Frames(length) * PAGE_SIZE <= maxAddr)
        <==> memBase + (SearchEnd(length, maxAddr) - 1 + Frames(length)) * PAGE_SIZE <= maxAddr
    {
      var last: nat := SearchEnd(length, maxAddr) - 1;
      assert AddressOf(last) + Frames(length) * PAGE_SIZE == memBase + (last + Frames(length)) * PAGE_SIZE;
      assert forall i: nat :: i <= last ==> AddressOf(i) <= AddressOf(last);
    }
  }

  /** A frame is lost if and only if it is marked copy-on-write when its last user goes. */
  lemma CowFrameIsLost(e: Entry)
    requires Users(e) > 0
    ensures e - 1 == COW_FLAG <==> Users(e) == 1 && Cow(e)
    ensures e - 1 == 0 <==> Users(e) == 1 && !Cow(e)
  {
  }

  /** A memory in which the first frames are in use. */
  method Memory(memBase: nat, entries: nat, used: nat) returns (pmm: Pmm)
    requires memBase % PAGE_SIZE == 0 && used <= entries
    ensures fresh(pmm) && fresh(pmm.bitmap) && pmm.Valid() && pmm.memBase == memBase && pmm.bitmap.Length == entries
    ensures forall i :: 0 <= i < entries ==> pmm.bitmap[i] == if i < used then 1 else 0
  {
    pmm := new Pmm(memBase, entries);
    for k := 0 to used
      invariant pmm.Valid() && fresh(pmm) && fresh(pmm.bitmap) && pmm.bitmap.Length == entries && pmm.memBase == memBase
      invariant forall i :: 0 <= i < entries ==> pmm.bitmap[i] == if i < k then 1 else 0
    {
      var panicked, paddr := pmm.Alloc();
      assert pmm.bitmap[..][k] == 1;
    }
  }

  /** One page below 16 KiB is asked for, and what is handed out begins at 16 KiB. */
  method LimitBroken() returns (base: int, found: bool)
    ensures found && base + PAGE_SIZE > 16384
  {
    var pmm := Memory(8192, 4, 2);
    var outside;
    ghost var i;
    ghost var entries, frames := pmm.bitmap[..], pmm.Frames(4096);
    assert frames == 1 && pmm.SearchEnd(4096, 16384) == 3;
    assert entries[0] == 1 && entries[1] == 1;
    assert pmm.bitmap[2] == 0 && pmm.lookFromHere <= 2;
    assert pmm.Suits(entries, 2, frames, 1);
    base, found, outside, i := pmm.AllocAdvanced(4096, 16384, 1);
  }

  /** Two pages without a limit are asked for, and only the last frame is free. */
  method BitmapLeft() returns (outside: bool)
    ensures outside
  {
    var pmm := Memory(0, 4, 3);
    var base, found;
    ghost var i;
    ghost var entries, frames := pmm.bitmap[..], pmm.Frames(8192);
    assert frames == 2 && pmm.SearchEnd(8192, WORD - 1) == 4;
    assert entries[0] == 1 && entries[1] == 1 && entries[2] == 1;
    assert pmm.Oversteps(entries, 3, frames, 1) && pmm.NoneSuits(entries, 3, frames, 1);
    assert pmm.bitmap[3] == 0 && pmm.lookFromHere <= 3;
    base, found, outside, i := pmm.AllocAdvanced(8192, WORD - 1, 1);
  }
}

// Any number of processors in pmm_alloc, pmm_alloc_advanced and pmm_free, one access to the bitmap at a time.
module FrameRace {
  type Cpu = nat

  /** Where a processor is. It only looks at an entry to decide whether trying is worth while, so that
      nothing is assumed about what it sees. */
  datatype Pc =
    | Idle
    | Look(i: nat)                        // lines 173-175
    | Add(i: nat)                         // line 177, fetch and add
    | Undo(i: nat)                        // line 178
    | LookRun(i: nat, n: nat)             // lines 286-308
    | AddRun(i: nat, n: nat, j: nat)      // line 312, fetch and add; j frames are taken
    | UndoRun(i: nat, n: nat, k: nat, j: nat) // lines 314-315; the frames from k to j have to be given back
    | Owns(i: nat, n: nat)                // has been handed n frames
    | Give(i: nat, n: nat, j: nat)        // line 207; j of the frames are given back

  datatype State = State(counts: seq<int>, pcs: map<Cpu, Pc>) {
    function Put(f: nat, d: int, t: Cpu, pc: Pc): State
      requires f < |counts|
    {
      State(counts[f := counts[f] + d], pcs[t := pc])
    }

    function Go(t: Cpu, pc: Pc): State { this.(pcs := pcs[t := pc]) }
  }

  /** The frames that a processor refers to exist. */
  predicate InRange(pc: Pc, size: nat) {
    match pc
    case Idle | Look(_) | LookRun(_, _) => true
    case Add(i) => i < size
    case Undo(i) => i < size
    case AddRun(i, n, j) => j < n && i + n <= size
    case UndoRun(i, n, k, j) => k <= j < n && i + n <= size
    case Owns(i, n) => 0 < n && i + n <= size
    case Give(i, n, j) => j < n && i + n <= size
  }

  ghost predicate Step(s: State, s': State, t: Cpu) {
    && t in s.pcs && InRange(s.pcs[t], |s.counts|)
    && match s.pcs[t]
       case Idle => s' == s.Go(t, Look(0))
                    || (t in s'.pcs && s'.pcs[t].LookRun? && s' == s.Go(t, LookRun(0, s'.pcs[t].n)))
       case Look(i) => s' == s.Go(t, Look(i + 1)) || s' == s.Go(t, Idle) || (i < |s.counts| && s' == s.Go(t, Add(i)))
       case Add(i) => s' == s.Put(i, 1, t, if s.counts[i] == 0 then Owns(i, 1) else Undo(i))
       case Undo(i) => s' == s.Put(i, -1, t, Look(i + 1))
       case LookRun(i, n) => s' == s.Go(t, LookRun(i + 1, n)) || s' == s.Go(t, Idle)
                          || (0 < n && i + n <= |s.counts| && s' == s.Go(t, AddRun(i, n, 0)))
       case AddRun(i, n, j) =>
         s' == s.Put(i + j, 1, t,
                     if s.counts[i + j] != 0 then UndoRun(i, n, 0, j)
                     else if j + 1 == n then Owns(i, n)
                     else AddRun(i, n, j + 1))
       case UndoRun(i, n, k, j) =>
         s' == s.Put(i + k, -1, t, if k == j then LookRun(i + 1, n) else UndoRun(i, n, k + 1, j))
       case Owns(i, n) => s' == s.Go(t, Give(i, n, 0))
       case Give(i, n, j) => s' == s.Put(i + j, -1, t, if j + 1 == n then Idle else Give(i, n, j + 1))
  }

  /** The processor's increment of the entry of f has not been taken back. */
  predicate Holds(pc: Pc, f: nat) {
    Claims(pc, f) || pc == Undo(f) || (pc.UndoRun? && f == pc.i + pc.j)
  }

  /** So it is, and the entry was zero before. */
  predicate Claims(pc: Pc, f: nat) {
    match pc
    case AddRun(i, n, j) => i <= f < i + j
    case UndoRun(i, n, k, j) => i + k <= f < i + j
    case Owns(i, n) => i <= f < i + n
    case Give(i, n, j) => i + j <= f < i + n
    case _ => false
  }

  ghost function Holders(s: State, f: nat): set<Cpu> { set t | t in s.pcs && Holds(s.pcs[t], f) }

  /** base is what the entries were before anybody started. */
  ghost predicate Invariant(s: State, base: seq<nat>) {
    && |s.counts| == |base|
    && (forall t :: t in s.pcs ==> InRange(s.pcs[t], |base|))
    && (forall f :: 0 <= f < |base| ==> s.counts[f] == base[f] + |Holders(s, f)|)
    && (forall f, t :: 0 <= f < |base| && t in s.pcs && Claims(s.pcs[t], f) ==> base[f] == 0)
    && (forall f, t, u :: 0 <= f < |base| && t in s.pcs && u in s.pcs && t != u && Claims(s.pcs[t], f) ==>
      !Claims(s.pcs[u], f))
  }

  ghost predicate Init(s: State, base: seq<nat>) {
    && |s.counts| == |base|
    && (forall f :: 0 <= f < |base| ==> s.counts[f] == base[f])
    && forall t :: t in s.pcs ==> s.pcs[t] == Idle
  }

  ghost predicate Run(states: seq<State>, turns: seq<Cpu>, base: seq<nat>) {
    && |states| == |turns| + 1 && Init(states[0], base)
    && forall i :: 0 <= i < |turns| ==> Step(states[i], states[i + 1], turns[i])
  }

  lemma InitHolds(s: State, base: seq<nat>)
    requires Init(s, base)
    ensures Invariant(s, base)
  {
    forall f | 0 <= f < |base|
      ensures Holders(s, f) == {}
    {
    }
  }

  /** A step moves one processor, and changes entries by what this processor holds more or less. */
  predicate OneMoves(s: State, s': State, t: Cpu) {
    && s'.pcs.Keys == s.pcs.Keys && t in s.pcs && (forall u :: u in s.pcs && u != t ==> s'.pcs[u] == s.pcs[u])
    && |s'.counts| == |s.counts|
  }

  predicate CountsFollow(s: State, s': State, t: Cpu)
    requires t in s.pcs && t in s'.pcs && |s'.counts| == |s.counts|
  {
    forall f :: 0 <= f < |s.counts| ==>
      s'.counts[f] == s.counts[f] + (if Holds(s'.pcs[t], f) then 1 else 0) - (if Holds(s.pcs[t], f) then 1 else 0)
  }

  /** A frame that is newly claimed was not counted. */
  predicate ClaimsFollow(s: State, s': State, t: Cpu)
    requires t in s.pcs && t in s'.pcs
  {
    forall f :: 0 <= f < |s.counts| && Claims(s'.pcs[t], f) && !Claims(s.pcs[t], f) ==> s.counts[f] == 0
  }

  lemma FollowsMove(s: State, s': State, t: Cpu)
    requires Step(s, s', t)
    ensures OneMoves(s, s', t)
  {
  }

  lemma FollowsRange(s: State, s': State, t: Cpu)
    requires Step(s, s', t)
    ensures OneMoves(s, s', t) && InRange(s'.pcs[t], |s.counts|)
  {
    FollowsMove(s, s', t);
    hide OneMoves;
  }

  lemma FollowsCounts(s: State, s': State, t: Cpu)
    requires Step(s, s', t)
    ensures OneMoves(s, s', t) && CountsFollow(s, s', t)
  {
    FollowsMove(s, s', t);
    hide OneMoves;
  }

  lemma FollowsClaims(s: State, s': State, t: Cpu)
    requires Step(s, s', t)
    ensures OneMoves(s, s', t) && ClaimsFollow(s, s', t)
  {
    FollowsMove(s, s', t);
    hide OneMoves;
  }

  lemma HoldersAfter(s: State, s': State, t: Cpu, f: nat)
    requires t in s.pcs && s'.pcs.Keys == s.pcs.Keys && forall u :: u in s.pcs && u != t ==> s'.pcs[u] == s.pcs[u]
    ensures |Holders(s', f)| ==
      |Holders(s, f)| + (if Holds(s'.pcs[t], f) then 1 else 0) - (if Holds(s.pcs[t], f) then 1 else 0)
  {
    var a, b := Holders(s, f), Holders(s', f);
    assert a - {t} == b - {t};
    assert |a| == |a - {t}| + if t in a then 1 else 0;
    assert |b| == |b - {t}| + if t in b then 1 else 0;
  }

  /** Where the count is zero, nobody holds the frame. */
  lemma NobodyHolds(s: State, base: seq<nat>, f: nat, u: Cpu)
    requires Invariant(s, base) && f < |base| && s.counts[f] == 0 && u in s.pcs
    ensures !Holds(s.pcs[u], f) && base[f] == 0
  {
    assert Holders(s, f) == {};
    assert u !in Holders(s, f);
  }

  lemma StepKeeps(s: State, s': State, t: Cpu, base: seq<nat>)
    requires Invariant(s, base) && Step(s, s', t)
    ensures Invariant(s', base)
  {
    hide Step, Holders, Claims, InRange;
    FollowsRange(s, s', t);
    FollowsCounts(s, s', t);
    FollowsClaims(s, s', t);
    forall f | 0 <= f < |base|
      ensures s'.counts[f] == base[f] + |Holders(s', f)|
    {
      HoldersAfter(s, s', t, f);
    }
    forall f, u | 0 <= f < |base| && u in s.pcs && Claims(s'.pcs[t], f) && !Claims(s.pcs[t], f)
      ensures !Holds(s.pcs[u], f) && base[f] == 0
    {
      NobodyHolds(s, base, f, u);
    }
  }

  lemma {:induction false} Reachable(states: seq<State>, turns: seq<Cpu>, base: seq<nat>, i: nat)
    requires Run(states, turns, base) && i < |states|
    ensures Invariant(states[i], base)
  {
    if i == 0 {
      InitHolds(states[0], base);
    } else {
      Reachable(states, turns, base, i - 1);
      StepKeeps(states[i - 1], states[i], turns[i - 1], base);
    }
  }

  /** No frame is handed to two processors, nor one that was in use before. */
  lemma Exclusive(states: seq<State>, turns: seq<Cpu>, base: seq<nat>, i: nat, t: Cpu, u: Cpu, f: nat)
    requires Run(states, turns, base) && i < |states| && t in states[i].pcs && u in states[i].pcs && t != u
    requires states[i].pcs[t].Owns? && states[i].pcs[t].i <= f < states[i].pcs[t].i + states[i].pcs[t].n
    ensures states[i].pcs[u].Owns? ==> !(states[i].pcs[u].i <= f < states[i].pcs[u].i + states[i].pcs[u].n)
    ensures f < |base| == |states[i].counts| && base[f] == 0 && states[i].counts[f] > 0
  {
    var s := states[i];
    Reachable(states, turns, base, i);
    assert Claims(s.pcs[t], f);
    assert t in Holders(s, f);
  }

  /** Attempts that fail leave no trace: what is counted beyond the beginning is what is owned, or is about to
      be given back. */
  lemma FailuresLeaveNothing(states: seq<State>, turns: seq<Cpu>, base: seq<nat>, i: nat)
    requires Run(states, turns, base) && i < |states|
    requires forall t :: t in states[i].pcs ==>
      states[i].pcs[t].Idle? || states[i].pcs[t].Look? || states[i].pcs[t].LookRun? || states[i].pcs[t].Owns?
    ensures |states[i].counts| == |base|
    ensures forall f :: 0 <= f < |base| ==>
      var pcs := states[i].pcs;
      states[i].counts[f] ==
      base[f] + |set t | t in pcs && pcs[t].Owns? && pcs[t].i <= f < pcs[t].i + pcs[t].n|
  {
    var s := states[i];
    Reachable(states, turns, base, i);
    forall f | 0 <= f < |base|
      ensures Holders(s, f) == set t | t in s.pcs && s.pcs[t].Owns? && s.pcs[t].i <= f < s.pcs[t].i + s.pcs[t].n
    {
    }
  }

  // ----- what becomes of an attempt -----

  /** Processor t moves on from s, and nobody else does. */
  ghost predicate Solo(states: seq<State>, s: State, t: Cpu) {
    && |states| > 0 && states[0] == s
    && forall i :: 0 <= i < |states| - 1 ==> Step(states[i], states[i + 1], t)
  }

  /** The processor is changing entries. */
  predicate Busy(pc: Pc) { pc.Add? || pc.Undo? || pc.AddRun? || pc.UndoRun? || pc.Give? }

  /** How many more entries it changes at most. */
  function StepsLeft(pc: Pc): int {
    match pc
    case Add(_) => 2
    case Undo(_) => 1
    case AddRun(_, n, j) => 2 * n - j + 1
    case UndoRun(_, _, k, j) => j - k + 1
    case Give(_, n, j) => n - j
    case _ => 0
  }

  /** What the processor still has to take is free. */
  predicate AllFree(s: State, t: Cpu)
    requires t in s.pcs
  {
    match s.pcs[t]
    case Add(i) => i < |s.counts| && s.counts[i] == 0
    case AddRun(i, n, j) => i + n <= |s.counts| && forall f :: i + j <= f < i + n ==> s.counts[f] == 0
    case _ => false
  }

  lemma NextStep(s: State, s': State, t: Cpu)
    requires t in s.pcs && Busy(s.pcs[t]) && Step(s, s', t)
    ensures t in s'.pcs && 0 <= StepsLeft(s'.pcs[t]) < StepsLeft(s.pcs[t])
    ensures s'.pcs[t].Owns? || Busy(s'.pcs[t]) || !AllFree(s, t)
    ensures AllFree(s, t) <==> s'.pcs[t].Owns? || (Busy(s'.pcs[t]) && AllFree(s', t))
  {
    if s.pcs[t].AddRun? && s'.pcs[t].AddRun? {
      var i, n, j := s.pcs[t].i, s.pcs[t].n, s.pcs[t].j;
      assert forall f :: i + j + 1 <= f < i + n ==> s'.counts[f] == s.counts[f];
      assert AllFree(s', t) ==> forall f :: i + j <= f < i + n ==> s.counts[f] == 0;
    }
  }

  /** Frames that are free can be taken. */
  lemma {:induction false} CanTake(s: State, t: Cpu, i: nat, n: nat, j: nat) returns (states: seq<State>)
    requires t in s.pcs && s.pcs[t] == AddRun(i, n, j) && j < n && AllFree(s, t)
    ensures Solo(states, s, t) && |states| == n - j + 1
    ensures var last := states[n - j];
            && t in last.pcs && last.pcs[t] == Owns(i, n) && |last.counts| == |s.counts|
            && forall f :: 0 <= f < |s.counts| ==> last.counts[f] == s.counts[f] + if i + j <= f < i + n then 1 else 0
    decreases n - j
  {
    var s' := s.Put(i + j, 1, t, if j + 1 == n then Owns(i, n) else AddRun(i, n, j + 1));
    assert Step(s, s', t);
    if j + 1 == n {
      states := [s, s'];
    } else {
      var rest := CanTake(s', t, i, n, j + 1);
      states := [s] + rest;
    }
  }

  /** Left alone, a processor comes to the end of an attempt to take frames, or of giving them back, and it
      gets them if and only if all are free. */
  lemma {:induction false} AttemptEnds(states: seq<State>, s: State, t: Cpu) returns (k: nat)
    requires t in s.pcs && Busy(s.pcs[t]) && InRange(s.pcs[t], |s.counts|)
    requires Solo(states, s, t) && |states| > StepsLeft(s.pcs[t])
    ensures k <= StepsLeft(s.pcs[t]) && k < |states| && t in states[k].pcs && !Busy(states[k].pcs[t])
    ensures states[k].pcs[t].Owns? <==> AllFree(s, t)
    decreases StepsLeft(s.pcs[t])
  {
    assert Step(s, states[1], t);
    NextStep(s, states[1], t);
    FollowsRange(s, states[1], t);
    k := 1;
    if Busy(states[1].pcs[t]) {
      assert Solo(states[1..], states[1], t);
      var rest := AttemptEnds(states[1..], states[1], t);
      k := rest + 1;
    }
  }
}
