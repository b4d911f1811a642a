// Shared memory segments over the frame allocator (src/kernel/common/memory/vmem.c, lines 68-273).

module SharedMemory {
  import opened FrameAllocator
  import opened Digest

  function Word32(x: int): bv32 { (x % WORD) as bv32 }

  /** size_t. */
  type Size = x: nat | x < WORD

  /** The number of frames for so many bytes, where the sum wraps around. */
  function Pages(size: Size): nat { (size + PAGE_SIZE - 1) % WORD / PAGE_SIZE }

  /** The frames are as many as needed if and only if the sum does not wrap; beyond that there are none. */
  lemma PagesAreEnough(size: Size)
    ensures size <= Pages(size) * PAGE_SIZE < size + PAGE_SIZE <==> size <= WORD - PAGE_SIZE
    ensures size > WORD - PAGE_SIZE ==> Pages(size) == 0
  {
  }

  /** A number of frames that makes a size. */
  lemma PagesOfFrames(n: nat)
    ensures Pages(n * PAGE_SIZE % WORD) == n <==> n * PAGE_SIZE < WORD
  {
    assert WORD == 0x10_0000 * PAGE_SIZE;
    if n * PAGE_SIZE < WORD {
      assert n * PAGE_SIZE + PAGE_SIZE - 1 < WORD;
    } else {
      assert n >= 0x10_0000;
    }
  }

  /** How often a frame occurs in a list of frames. */
  function Times(phys: seq<int>, a: int): nat { multiset(phys)[a] }

  lemma TimesOfNext(phys: seq<int>, i: nat, a: int)
    requires i < |phys|
    ensures Times(phys[..i + 1], a) == Times(phys[..i], a) + if phys[i] == a then 1 else 0
  {
    assert phys[..i + 1] == phys[..i] + [phys[i]];
  }

  lemma TimesOfAll(phys: seq<int>)
    ensures forall a :: Times(phys[..|phys|], a) == Times(phys, a)
  {
    assert phys[..|phys|] == phys;
  }

  lemma TimesIsMore(phys: seq<int>, i: nat)
    requires i < |phys|
    ensures Times(phys[..i], phys[i]) < Times(phys, phys[i])
  {
    TimesOfNext(phys, i, phys[i]);
    assert phys == phys[..i + 1] + phys[i + 1..];
  }

  function Flatten(areas: seq<seq<int>>): seq<int> {
    if areas == [] then [] else areas[0] + Flatten(areas[1..])
  }

  lemma {:induction false} FlattenConcat(s: seq<seq<int>>, t: seq<seq<int>>)
    ensures Flatten(s + t) == Flatten(s) + Flatten(t)
  {
    if s == [] {
      assert s + t == t;
    } else {
      assert (s + t)[1..] == s[1..] + t;
      FlattenConcat(s[1..], t);
    }
  }

  lemma FlattenEnds(areas: seq<seq<int>>)
    ensures areas[..|areas|] == areas && Flatten(areas[..0]) == []
  {
  }

  /** Where the i-th area lies among all. */
  lemma FlattenAt(areas: seq<seq<int>>, i: nat)
    requires i < |areas|
    ensures Flatten(areas[..i + 1]) == Flatten(areas[..i]) + areas[i]
    ensures |Flatten(areas[..i + 1])| <= |Flatten(areas)|
    ensures |Flatten(areas[..i])| + |areas[i]| == |Flatten(areas[..i + 1])|
    ensures Flatten(areas)[|Flatten(areas[..i])|..|Flatten(areas[..i + 1])|] == areas[i]
  {
    assert areas[..i + 1] == areas[..i] + [areas[i]];
    FlattenConcat(areas[..i], [areas[i]]);
    assert [areas[i]][1..] == [];
    assert areas == areas[..i + 1] + areas[i + 1..];
    FlattenConcat(areas[..i + 1], areas[i + 1..]);
  }

  // ----- what the segments hold -----

  /** A segment's references: so many to each of its frames. */
  datatype Share = Share(weight: nat, phys: seq<int>) {
    function Refs(a: int): nat { weight * Times(phys, a) }
  }

  function Total(shares: seq<Share>, a: int): nat {
    if shares == [] then 0 else shares[0].Refs(a) + Total(shares[1..], a)
  }

  lemma {:induction false} TotalConcat(s: seq<Share>, t: seq<Share>, a: int)
    ensures Total(s + t, a) == Total(s, a) + Total(t, a)
  {
    if s == [] {
      assert s + t == t;
    } else {
      assert (s + t)[1..] == s[1..] + t;
      TotalConcat(s[1..], t, a);
    }
  }

  lemma TotalAround(s: seq<Share>, i: nat, a: int)
    requires i < |s|
    ensures Total(s, a) == Total(s[..i], a) + s[i].Refs(a) + Total(s[i + 1..], a)
  {
    assert s == s[..i] + [s[i]] + s[i + 1..];
    TotalConcat(s[..i] + [s[i]], s[i + 1..], a);
    TotalConcat(s[..i], [s[i]], a);
    assert [s[i]][1..] == [];
  }

  lemma TotalUpdated(s: seq<Share>, i: nat, x: Share, a: int)
    requires i < |s|
    ensures Total(s[i := x], a) == Total(s, a) - s[i].Refs(a) + x.Refs(a)
  {
    var t := s[i := x];
    TotalAround(s, i, a);
    TotalAround(t, i, a);
    assert t[..i] == s[..i] && t[i + 1..] == s[i + 1..];
  }

  lemma TotalRemoved(s: seq<Share>, i: nat, a: int)
    requires i < |s|
    ensures Total(s[..i] + s[i + 1..], a) == Total(s, a) - s[i].Refs(a)
  {
    TotalAround(s, i, a);
    TotalConcat(s[..i], s[i + 1..], a);
  }

  datatype Fields = Fields(size: Size, users: int, offset: nat, keptAlive: bool)

  /** The fields of struct shm_sg up to the digest, in memory. */
  function HeaderOf(f: Fields, padding: seq<Byte>): seq<Byte> {
    LittleEndian(Word32(f.size), 4) + LittleEndian(Word32(f.users), 4) + LittleEndian(Word32(f.offset), 4)
    + LittleEndian(if f.keptAlive then 1 else 0, 1) + padding
  }

  /** If one of the fields is changed, as the 32 bits that it takes in memory, the digest is not the right
      one any more. */
  lemma FieldsProtected(f: Fields, g: Fields, padding: seq<Byte>)
    requires || (g == f.(size := g.size) && Word32(g.size) != Word32(f.size))
             || (g == f.(users := g.users) && Word32(g.users) != Word32(f.users))
             || (g == f.(offset := g.offset) && Word32(g.offset) != Word32(f.offset))
             || (g == f.(keptAlive := g.keptAlive) && g.keptAlive != f.keptAlive)
    ensures Crc(HeaderOf(f, padding)) != Crc(HeaderOf(g, padding))
  {
    hide Crc, HeaderOf, Word32;
    if g == f.(size := g.size) && Word32(g.size) != Word32(f.size) {
      SizeShows(f, g.size, padding);
    } else if g == f.(users := g.users) && Word32(g.users) != Word32(f.users) {
      UsersShow(f, g.users, padding);
    } else if g == f.(offset := g.offset) && Word32(g.offset) != Word32(f.offset) {
      OffsetShows(f, g.offset, padding);
    } else {
      KeptShows(f, padding);
    }
  }

  lemma SizeShows(f: Fields, size: Size, padding: seq<Byte>)
    requires Word32(size) != Word32(f.size)
    ensures Crc(HeaderOf(f, padding)) != Crc(HeaderOf(f.(size := size), padding))
  {
    hide Crc, LittleEndian, Word32, HeaderOf;
    Regrouped(f, padding);
    Regrouped(f.(size := size), padding);
    var u, o := LittleEndian(Word32(f.users), 4), LittleEndian(Word32(f.offset), 4);
    var k := LittleEndian(if f.keptAlive then 1 else 0, 1);
    FieldShows([], Word32(f.size), Word32(size), u + (o + (k + padding)));
  }

  lemma UsersShow(f: Fields, users: int, padding: seq<Byte>)
    requires Word32(users) != Word32(f.users)
    ensures Crc(HeaderOf(f, padding)) != Crc(HeaderOf(f.(users := users), padding))
  {
    hide Crc, LittleEndian, Word32, HeaderOf;
    Regrouped(f, padding);
    Regrouped(f.(users := users), padding);
    var o, k := LittleEndian(Word32(f.offset), 4), LittleEndian(if f.keptAlive then 1 else 0, 1);
    FieldShows(LittleEndian(Word32(f.size), 4), Word32(f.users), Word32(users), o + (k + padding));
  }

  lemma OffsetShows(f: Fields, offset: nat, padding: seq<Byte>)
    requires Word32(offset) != Word32(f.offset)
    ensures Crc(HeaderOf(f, padding)) != Crc(HeaderOf(f.(offset := offset), padding))
  {
    hide Crc, LittleEndian, Word32, HeaderOf;
    Regrouped(f, padding);
    Regrouped(f.(offset := offset), padding);
    var s, u := LittleEndian(Word32(f.size), 4), LittleEndian(Word32(f.users), 4);
    var k := LittleEndian(if f.keptAlive then 1 else 0, 1);
    FieldShows(s + u, Word32(f.offset), Word32(offset), k + padding);
  }

  lemma KeptShows(f: Fields, padding: seq<Byte>)
    ensures Crc(HeaderOf(f, padding)) != Crc(HeaderOf(f.(keptAlive := !f.keptAlive), padding))
  {
    hide Crc, LittleEndian, Word32, HeaderOf;
    Regrouped(f, padding);
    Regrouped(f.(keptAlive := !f.keptAlive), padding);
    var s, u, o := LittleEndian(Word32(f.size), 4), LittleEndian(Word32(f.users), 4), LittleEndian(Word32(f.offset), 4);
    FlagShows(s + u + o, padding);
  }

  lemma Regrouped(f: Fields, padding: seq<Byte>)
    ensures var s, u := LittleEndian(Word32(f.size), 4), LittleEndian(Word32(f.users), 4);
            var o, k := LittleEndian(Word32(f.offset), 4), LittleEndian(if f.keptAlive then 1 else 0, 1);
            && HeaderOf(f, padding) == [] + s + (u + (o + (k + padding)))
            && HeaderOf(f, padding) == s + u + (o + (k + padding))
            && HeaderOf(f, padding) == (s + u) + o + (k + padding)
            && HeaderOf(f, padding) == (s + u + o) + k + padding
  {
    hide LittleEndian, Word32;
    var s, u := LittleEndian(Word32(f.size), 4), LittleEndian(Word32(f.users), 4);
    var o, k := LittleEndian(Word32(f.offset), 4), LittleEndian(if f.keptAlive then 1 else 0, 1);
    Associate(s + u + o, k, padding);
    Associate(s + u, o, k + padding);
    Associate(s, u, o + (k + padding));
    assert [] + s == s;
  }

  lemma Associate(a: seq<Byte>, b: seq<Byte>, c: seq<Byte>)
    ensures (a + b) + c == a + (b + c)
  {
  }

  lemma FlagShows(before: seq<Byte>, after: seq<Byte>)
    ensures Crc(before + LittleEndian(0, 1) + after) != Crc(before + LittleEndian(1, 1) + after)
  {
    assert LittleEndian(0, 1) == [0] && LittleEndian(1, 1) == [1];
    FourBytesAreABurst(before, [0], [1], after);
    DifferentDigests(before + [0] + after, before + [1] + after, 8 * |before|);
  }

  /** struct shm_sg. */
  class Segment {
    var size: Size
    var users: int
    var offset: nat
    var keptAlive: bool

    /** The bytes between the last field and the digest. */
    const padding: seq<Byte>

    var digest: bv32
    var phys: seq<int>

    constructor (size: Size, users: int, offset: nat, phys: seq<int>)
      ensures this.size == size && this.users == users && this.offset == offset && !keptAlive && this.phys == phys
    {
      this.size, this.users, this.offset, keptAlive := size, users, offset, false;
      padding, digest := *, *;
      this.phys := phys;
    }

    /** Everything that the digest protects. */
    function Header(): seq<Byte>
      reads this`size, this`users, this`offset, this`keptAlive
    {
      HeaderOf(Fields(size, users, offset, keptAlive), padding)
    }

    /** sg->digest = calculate_checksum(*sg). */
    method Seal()
      modifies this`digest
      ensures Sealed()
    {
      digest := Crc32(Header());
    }

    ghost predicate Sealed()
      reads this`size, this`users, this`offset, this`keptAlive, this`digest
    {
      digest == Crc(Header())
    }

    /** is_valid_shm: a sealed segment in kernel memory passes, and only such a one. */
    method IsValid(inKernel: bool) returns (valid: bool)
      ensures valid <==> inKernel && Sealed()
    {
      if !inKernel {
        return false;
      }
      DigestChecks(Header(), digest);
      valid := CheckIntegrity(Header() + LittleEndian(digest, 4));
    }

    ghost function Weight(): int
      reads this`users, this`keptAlive
    {
      users + if keptAlive then 1 else 0
    }
  }
  class Memory {
    const pmm: Pmm

    /** The segments that have not been freed. */
    ghost var segments: seq<Segment>

    /** The references to each frame that are not held by a segment: mappings of processes, page tables, the kernel. */
    ghost var external: int -> nat

    constructor (pmm: Pmm)
      requires pmm.Valid()
      ensures Valid() && segments == [] && this.pmm == pmm
    {
      this.pmm := pmm;
      segments := [];
      new;
      ghost var frames, entries := pmm, pmm.bitmap[..];
      external := a =>
        if frames.memBase % PAGE_SIZE == 0 && frames.IsFrame(a) && frames.Index(a) < |entries|
        then Users(entries[frames.Index(a)]) else 0;
      assert Shares() == [];
    }

    // ----- frame by frame -----

    ghost predicate Frames(phys: seq<int>) { forall i :: 0 <= i < |phys| ==> pmm.IsFrame(phys[i]) }

    /** pmm_free, seen from all frames. */
    method FreeOne(paddr: int) returns (panicked: bool)
      requires pmm.Valid() && pmm.IsFrame(paddr)
      modifies pmm`lookFromHere, pmm.bitmap
      ensures pmm.Valid() && (panicked <==> old(pmm.UserCount(paddr)) == 0)
      ensures !panicked ==> forall a :: pmm.IsFrame(a) ==>
        pmm.UserCount(a) == old(pmm.UserCount(a)) - if a == paddr then 1 else 0
    {
      panicked := pmm.Free(paddr);
    }

    method UseOne(paddr: int) returns (panicked: bool)
      requires pmm.Valid() && pmm.IsFrame(paddr)
      modifies pmm.bitmap
      ensures pmm.Valid()
      ensures panicked <==> !old(pmm.Alloced(paddr))
      ensures !panicked ==> forall a :: pmm.IsFrame(a) ==>
        pmm.UserCount(a) == old(pmm.UserCount(a)) + if a == paddr then 1 else 0
    {
      panicked := pmm.Use(paddr);
    }

    method AllocOne() returns (panicked: bool, paddr: int)
      requires pmm.Valid()
      modifies pmm`lookFromHere, pmm.bitmap
      ensures pmm.Valid()
      ensures panicked <==> old(pmm.FreeFrames()) == 0
      ensures pmm.FreeFrames() == old(pmm.FreeFrames()) - if panicked then 0 else 1
      ensures !panicked ==> pmm.IsFrame(paddr) && old(pmm.UserCount(paddr)) == 0
      ensures !panicked ==> forall a :: pmm.IsFrame(a) ==>
        pmm.UserCount(a) == old(pmm.UserCount(a)) + if a == paddr then 1 else 0
    {
      ghost var was := pmm.bitmap[..];
      NoneFree(was);
      panicked, paddr := pmm.Alloc();
      if !panicked {
        OneFreeLess(was, pmm.Index(paddr));
      }
    }

    // ----- the loops over the frames of a segment -----

    /** Lines 204-205 and 233-234. It does not panic if every frame has enough users. */
    method FreeAll(phys: seq<int>) returns (panicked: bool)
      requires pmm.Valid() && Frames(phys)
      requires forall a :: pmm.IsFrame(a) ==> pmm.UserCount(a) >= Times(phys, a)
      modifies pmm`lookFromHere, pmm.bitmap
      ensures pmm.Valid() && !panicked
      ensures forall a :: pmm.IsFrame(a) ==> pmm.UserCount(a) == old(pmm.UserCount(a)) - Times(phys, a)
    {
      panicked := false;
      for i := 0 to |phys|
        invariant pmm.Valid() && !panicked
        invariant forall a :: pmm.IsFrame(a) ==> pmm.UserCount(a) == old(pmm.UserCount(a)) - Times(phys[..i], a)
      {
        TimesIsMore(phys, i);
        forall a { TimesOfNext(phys, i, a); }
        panicked := FreeOne(phys[i]);
      }
      TimesOfAll(phys);
    }

    /** Some frame of the list is not in use, or would get too many users. */
    ghost predicate Unusable(phys: seq<int>)
      requires pmm.Valid()
      reads pmm, pmm.bitmap
    {
      exists i :: 0 <= i < |phys| && UnusableAt(phys, i)
    }

    ghost predicate UnusableAt(phys: seq<int>, i: nat)
      requires pmm.Valid() && i < |phys|
      reads pmm, pmm.bitmap
    {
      var a := phys[i];
      pmm.IsFrame(a) && (pmm.UserCount(a) == 0 || pmm.UserCount(a) + Times(phys, a) > MAX_USERS)
    }

    /** Unusable, seen from the entries was. */
    ghost predicate TooOften(was: seq<Entry>, frames: seq<int>)
      requires pmm.memBase % PAGE_SIZE == 0 && |was| == pmm.bitmap.Length && Frames(frames)
    {
      exists i :: 0 <= i < |frames| && TooOftenAt(was, frames, i)
    }

    ghost predicate TooOftenAt(was: seq<Entry>, frames: seq<int>, i: nat)
      requires pmm.memBase % PAGE_SIZE == 0 && |was| == pmm.bitmap.Length && Frames(frames) && i < |frames|
    {
      var users := Users(was[pmm.Index(frames[i])]);
      users == 0 || users + Times(frames, frames[i]) > MAX_USERS
    }

    lemma SeenFrom(was: seq<Entry>, frames: seq<int>)
      requires pmm.Valid() && Frames(frames) && was == pmm.bitmap[..]
      ensures TooOften(was, frames) <==> Unusable(frames)
    {
      assert forall i :: 0 <= i < |frames| ==> (TooOftenAt(was, frames, i) <==> UnusableAt(frames, i));
    }

    lemma SeenBefore(frames: seq<int>, i: nat)
      requires i < |frames|
      ensures Times(frames[..i], frames[i]) > 0 ==> exists j :: 0 <= j < i && frames[j] == frames[i]
    {
      if Times(frames[..i], frames[i]) > 0 {
        assert frames[i] in frames[..i];
      }
    }

    /** Compared with the entries was, every frame has as many more users as it occurs in phys. */
    ghost predicate Plus(was: seq<Entry>, phys: seq<int>)
      requires pmm.Valid() && |was| == pmm.bitmap.Length
      reads pmm, pmm.bitmap
    {
      forall a :: pmm.IsFrame(a) ==> pmm.UserCount(a) == Users(was[pmm.Index(a)]) + Times(phys, a)
    }

    /** The first k frames have one user more each time they occur; they were in use before. */
    ghost predicate Used(frames: seq<int>, k: nat, was: seq<Entry>)
      requires pmm.Valid() && |was| == pmm.bitmap.Length && k <= |frames| && Frames(frames)
      reads pmm, pmm.bitmap
    {
      Plus(was, frames[..k]) && forall j :: 0 <= j < k ==> Users(was[pmm.Index(frames[j])]) > 0
    }

    method UseNext(paddr: int, ghost frames: seq<int>, ghost k: nat, ghost was: seq<Entry>) returns (panicked: bool)
      requires pmm.Valid() && Frames(frames) && k < |frames| && paddr == frames[k]
      requires |was| == pmm.bitmap.Length && Used(frames, k, was)
      modifies pmm.bitmap
      ensures pmm.Valid() && (panicked <==> !old(pmm.Alloced(paddr)))
      ensures !panicked ==> Used(frames, k + 1, was)
      ensures panicked ==> TooOften(was, frames)
    {
      hide Times;
      SeenBefore(frames, k);
      TimesIsMore(frames, k);
      forall a { TimesOfNext(frames, k, a); }
      assert !pmm.Alloced(paddr) ==> TooOftenAt(was, frames, k);
      panicked := UseOne(paddr);
    }

    lemma NoneUsed(frames: seq<int>, was: seq<Entry>)
      requires pmm.Valid() && Frames(frames) && was == pmm.bitmap[..]
      ensures Used(frames, 0, was)
    {
      assert frames[..0] == [];
    }

    lemma AllUsed(frames: seq<int>, was: seq<Entry>)
      requires pmm.Valid() && Frames(frames) && |was| == pmm.bitmap.Length && Used(frames, |frames|, was)
      ensures !TooOften(was, frames)
      ensures forall a :: pmm.IsFrame(a) ==> pmm.UserCount(a) == Users(was[pmm.Index(a)]) + Times(frames, a)
      ensures forall a :: a in frames ==> Users(was[pmm.Index(a)]) > 0
    {
      TimesOfAll(frames);
      assert frames[..|frames|] == frames;
    }

    /** Lines 162-163. It panics exactly if a frame cannot have so many more users. */
    method UseAll(phys: seq<int>) returns (panicked: bool)
      requires pmm.Valid() && Frames(phys)
      modifies pmm.bitmap
      ensures pmm.Valid()
      ensures panicked <==> old(Unusable(phys))
      ensures !panicked ==> forall a :: pmm.IsFrame(a) ==> pmm.UserCount(a) == old(pmm.UserCount(a)) + Times(phys, a)
    {
      hide Used, Unusable, TooOften, Times;
      ghost var was := pmm.bitmap[..];
      NoneUsed(phys, was);
      SeenFrom(was, phys);
      panicked := false;
      for i := 0 to |phys|
        invariant pmm.Valid()
        invariant if panicked then TooOften(was, phys) else Used(phys, i, was)
      {
        if !panicked {
          panicked := UseNext(phys[i], phys, i, was);
        }
      }
      if !panicked {
        AllUsed(phys, was);
      }
    }

    /** Lines 166-167. It panics if there are not enough free frames. */
    method AllocAll(n: nat) returns (panicked: bool, phys: seq<int>)
      requires pmm.Valid()
      modifies pmm`lookFromHere, pmm.bitmap
      ensures pmm.Valid() && (panicked <==> old(pmm.FreeFrames()) < n)
      ensures !panicked ==> |phys| == n && Frames(phys)
      ensures !panicked ==> forall a :: pmm.IsFrame(a) ==> pmm.UserCount(a) == old(pmm.UserCount(a)) + Times(phys, a)
    {
      panicked, phys := false, [];
      for i := 0 to n
        invariant pmm.Valid()
        invariant if panicked then old(pmm.FreeFrames()) < n else pmm.FreeFrames() == old(pmm.FreeFrames()) - i
        invariant !panicked ==> |phys| == i && Frames(phys)
        invariant !panicked ==> forall a :: pmm.IsFrame(a) ==>
          pmm.UserCount(a) == old(pmm.UserCount(a)) + Times(phys, a)
      {
        var exhausted, paddr := AllocOne();
        panicked := panicked || exhausted;
        phys := phys + [paddr];
      }
    }

    // ----- conservation -----

    ghost predicate SegmentOk(sg: Segment)
      reads sg
    {
      && sg.offset < PAGE_SIZE && |sg.phys| == Pages(sg.size) && sg.users >= 0 && sg.Sealed()
      && (sg.keptAlive ==> sg.users == 0)
      && (sg.Weight() > 0 ==> Frames(sg.phys))
    }

    ghost predicate AllOk()
      reads this`segments, set sg | sg in segments
    {
      && (forall i, j :: 0 <= i < j < |segments| ==> segments[i] != segments[j])
      && (forall sg :: sg in segments ==> SegmentOk(sg))
    }

    ghost function ShareOf(sg: Segment): Share
      reads sg
    {
      Share(if sg.Weight() >= 0 then sg.Weight() else 0, sg.phys)
    }

    ghost function Shares(): (s: seq<Share>)
      reads this`segments, set sg | sg in segments
      ensures |s| == |segments| && forall i :: 0 <= i < |s| ==> s[i] == ShareOf(segments[i])
    {
      var segs := segments;
      seq(|segs|, i requires 0 <= i < |segs| reads set sg | sg in segs => ShareOf(segs[i]))
    }

    /** Every frame has as many users as there are references to it: those from outside, and for each segment
        as many as it has users, or one if it is kept alive, for every time the frame occurs in it. */
    ghost predicate Balanced(shares: seq<Share>)
      requires pmm.Valid()
      reads this`external, pmm, pmm.bitmap
    {
      forall a :: pmm.IsFrame(a) ==> pmm.UserCount(a) == external(a) + Total(shares, a)
    }

    ghost predicate Valid()
      reads this, pmm, pmm.bitmap, set sg | sg in segments
    {
      pmm.Valid() && AllOk() && Balanced(Shares())
    }

    /** A segment has come to hold x instead of what it held, and the counts have followed. */
    lemma Rebalanced(before: seq<Share>, i: nat, x: Share)
      requires pmm.Valid() && i < |before| && |before| == |segments| && Shares() == before[i := x]
      requires forall a :: pmm.IsFrame(a) ==>
        pmm.UserCount(a) == external(a) + Total(before, a) - before[i].Refs(a) + x.Refs(a)
      ensures Balanced(Shares())
    {
      forall a | pmm.IsFrame(a)
        ensures pmm.UserCount(a) == external(a) + Total(before[i := x], a)
      {
        TotalUpdated(before, i, x, a);
      }
    }

    /** The references of one segment are part of the count. */
    lemma EnoughUsers(i: nat)
      requires Valid() && i < |segments|
      ensures forall a :: pmm.IsFrame(a) ==> pmm.UserCount(a) >= Shares()[i].Refs(a)
    {
      forall a | pmm.IsFrame(a)
        ensures pmm.UserCount(a) >= Shares()[i].Refs(a)
      {
        TotalAround(Shares(), i, a);
      }
    }

    /** vmmc_create_shm: a segment without frames. */
    method Create(size: Size) returns (sg: Segment)
      requires Valid()
      modifies this`segments
      ensures Valid() && fresh(sg) && segments == old(segments) + [sg]
      ensures sg.size == size && sg.users == 0 && !sg.keptAlive
      ensures pmm.bitmap[..] == old(pmm.bitmap[..])
    {
      hide AllOk, Balanced, Shares, SegmentOk, Segment.Sealed;
      sg := NewSegment(size, 0, 0, seq(Pages(size), _ => 0));
      NoShare(sg);
      Adopt(sg);
    }

    lemma NoShare(sg: Segment)
      requires pmm.Valid() && Balanced(Shares())
      requires sg.users == 0 && !sg.keptAlive && sg.offset < PAGE_SIZE && |sg.phys| == Pages(sg.size) && sg.Sealed()
      ensures SegmentOk(sg)
      ensures forall a :: pmm.IsFrame(a) ==> pmm.UserCount(a) == external(a) + Total(Shares(), a) + ShareOf(sg).Refs(a)
    {
      hide Segment.Sealed;
    }

    method NewSegment(size: Size, users: nat, offset: nat, phys: seq<int>) returns (sg: Segment)
      requires Valid()
      ensures Valid() && Shares() == old(Shares()) && fresh(sg) && sg !in segments && sg.Sealed()
      ensures sg.size == size && sg.users == users && sg.offset == offset && !sg.keptAlive && sg.phys == phys
    {
      SegmentsAllocated();
      hide AllOk, Balanced, Shares, Segment.Sealed;
      sg := new Segment(size, users, offset, phys);
      sg.Seal();
    }

    lemma SegmentsAllocated()
      ensures forall sg :: sg in segments ==> allocated(sg)
    {
    }

    /** A new segment joins the others; its references have been counted. */
    ghost method Adopt(sg: Segment)
      requires pmm.Valid() && AllOk() && SegmentOk(sg) && sg !in segments
      requires forall a :: pmm.IsFrame(a) ==> pmm.UserCount(a) == external(a) + Total(Shares(), a) + ShareOf(sg).Refs(a)
      modifies this`segments
      ensures Valid() && segments == old(segments) + [sg]
    {
      hide SegmentOk;
      ghost var before := Shares();
      segments := segments + [sg];
      assert Shares() == before + [ShareOf(sg)];
      Joined(before, sg);
    }

    lemma Joined(before: seq<Share>, sg: Segment)
      requires pmm.Valid() && Shares() == before + [ShareOf(sg)]
      requires forall a :: pmm.IsFrame(a) ==> pmm.UserCount(a) == external(a) + Total(before, a) + ShareOf(sg).Refs(a)
      ensures Balanced(Shares())
    {
      forall a | pmm.IsFrame(a)
        ensures pmm.UserCount(a) == external(a) + Total(Shares(), a)
      {
        TotalConcat(before, [ShareOf(sg)], a);
        assert [ShareOf(sg)][1..] == [];
      }
    }

    /** The segments other than the i-th are sound and hold what they held. */
    ghost predicate Others(i: nat, before: seq<Share>)
      reads this`segments, (set sg | sg in segments) - (if i < |segments| then {segments[i]} else {})
    {
      && i < |segments| == |before|
      && (forall j, k :: 0 <= j < k < |segments| ==> segments[j] != segments[k])
      && (forall j :: 0 <= j < |segments| && j != i ==> SegmentOk(segments[j]) && ShareOf(segments[j]) == before[j])
    }

    lemma OthersStay(i: nat)
      requires AllOk() && i < |segments|
      ensures Others(i, Shares())
      ensures forall sg :: sg in segments ==> allocated(sg)
    {
    }

    lemma TogetherAgain(i: nat, before: seq<Share>)
      requires Others(i, before) && SegmentOk(segments[i])
      ensures AllOk() && Shares() == before[i := ShareOf(segments[i])]
    {
      hide SegmentOk;
    }

    /** The fields of a segment change, and it is sealed again; the other segments stay as they are. */
    method Update(sg: Segment, users: nat, keptAlive: bool, ghost i: nat)
      requires AllOk() && i < |segments| && sg == segments[i]
      requires (keptAlive ==> users == 0) && (users > 0 || keptAlive ==> Frames(sg.phys))
      modifies sg`users, sg`keptAlive, sg`digest
      ensures AllOk() && sg.users == users && sg.keptAlive == keptAlive
      ensures Shares() == old(Shares())[i := Share(users + (if keptAlive then 1 else 0), sg.phys)]
    {
      hide AllOk, Others, Shares, Segment.Sealed;
      ghost var before := Shares();
      FieldsOk(i);
      OthersStay(i);
      sg.users, sg.keptAlive := users, keptAlive;
      sg.Seal();
      TogetherAgain(i, before);
    }

    lemma FieldsOk(i: nat)
      requires AllOk() && i < |segments|
      ensures SegmentOk(segments[i])
    {
    }

    /** kfree(sg). */
    ghost method Forget(i: nat)
      requires AllOk() && i < |segments|
      modifies this`segments
      ensures AllOk() && segments == old(segments)[..i] + old(segments)[i + 1..]
      ensures Shares() == old(Shares())[..i] + old(Shares())[i + 1..]
    {
      hide SegmentOk;
      ghost var before := Shares();
      segments := segments[..i] + segments[i + 1..];
      assert Shares() == before[..i] + before[i + 1..];
    }

    lemma BalancedWithout(before: seq<Share>, i: nat)
      requires pmm.Valid() && i < |before| && Shares() == before[..i] + before[i + 1..]
      requires forall a :: pmm.IsFrame(a) ==> pmm.UserCount(a) == external(a) + Total(before, a) - before[i].Refs(a)
      ensures Balanced(Shares())
    {
      forall a | pmm.IsFrame(a)
        ensures pmm.UserCount(a) == external(a) + Total(Shares(), a)
      {
        TotalRemoved(before, i, a);
      }
    }

    /** What vmmc_close_shm (lines 194-215) and vmmc_unmake_shm (lines 225-244) do: a user goes. The last one
        leaves its reference to the segment, which is then kept alive, or destroys the segment. Nothing can
        panic, and the other segments and references are not touched. If the segment has no user but is kept
        alive, which nothing prevents, its references go although it stays, and the count of its users drops
        below zero: the state is sound afterwards if and only if there was a user. */
    method Release(sg: Segment, destroy: bool, ghost i: nat) returns (panicked: bool)
      requires Valid() && i < |segments| && sg == segments[i] && (sg.users > 0 || sg.keptAlive)
      modifies this`segments, pmm`lookFromHere, pmm.bitmap, sg`users, sg`keptAlive, sg`digest
      ensures !panicked && (Valid() <==> old(sg.users) > 0)
      ensures segments ==
        if old(sg.users) == 1 && destroy then old(segments)[..i] + old(segments)[i + 1..] else old(segments)
      ensures !(old(sg.users) == 1 && destroy) ==> sg.users == old(sg.users) - 1
      ensures old(sg.users) > 0 && !(old(sg.users) == 1 && destroy) ==> sg.keptAlive == (sg.users == 0)
      ensures forall a :: pmm.IsFrame(a) ==>
        pmm.UserCount(a) == old(pmm.UserCount(a)) - if old(sg.users) == 1 && !destroy then 0 else Times(sg.phys, a)
    {
      hide AllOk, Balanced, Shares, Segment.Sealed, FrameAllocator.Pmm.UserCount, FrameAllocator.Pmm.Valid;
      hide Times, Total, Frames, Pages;
      ghost var before := Shares();
      Droppable(i);
      var intact := sg.IsValid(true);
      panicked := !intact;
      var last := sg.users == 1;
      if last && !destroy {
        Update(sg, 0, true, i);
        Rebalanced(before, i, ShareOf(sg));
      } else {
        var failed := FreeAll(sg.phys);
        panicked := panicked || failed;
        if sg.users == 0 {
          Underflow(sg, i);
        } else {
          FewerRefs(before, i, sg.users);
          if last {
            Forget(i);
            BalancedWithout(before, i);
          } else {
            Update(sg, sg.users - 1, false, i);
            Rebalanced(before, i, ShareOf(sg));
          }
        }
      }
    }

    /** A segment that has no users loses one. */
    method Underflow(sg: Segment, ghost i: nat)
      requires i < |segments| && sg == segments[i] && sg.users == 0
      modifies sg`users, sg`digest
      ensures sg.users == -1 && !AllOk()
    {
      hide AllOk;
      sg.users := sg.users - 1;
      sg.Seal();
      NegativeUsers(i);
    }

    lemma NegativeUsers(i: nat)
      requires i < |segments| && segments[i].users < 0
      ensures !AllOk()
    {
      assert segments[i] in segments;
    }

    /** What is known of a segment that holds its frames. */
    lemma Droppable(i: nat)
      requires Valid() && i < |segments| && (segments[i].users > 0 || segments[i].keptAlive)
      ensures var sg := segments[i];
              && sg.Sealed() && sg.keptAlive == (sg.users == 0) && sg.users >= 0 && Frames(sg.phys) && sg in segments
              && i < |Shares()| && (sg.users > 0 ==> Shares()[i] == Share(sg.users, sg.phys))
              && (forall a :: pmm.IsFrame(a) ==> pmm.UserCount(a) >= Times(sg.phys, a))
              && (forall a :: pmm.IsFrame(a) ==> pmm.UserCount(a) == external(a) + Total(Shares(), a))
    {
      hide Share.Refs, Times, Total, Segment.Sealed, Segment.Header;
      FieldsOk(i);
      EnoughUsers(i);
      forall a | pmm.IsFrame(a)
        ensures pmm.UserCount(a) >= Times(segments[i].phys, a)
      {
        RefsAtLeast(Shares()[i], a);
      }
    }

    lemma RefsAtLeast(x: Share, a: int)
      requires x.weight > 0
      ensures x.Refs(a) >= Times(x.phys, a)
    {
      AtLeastOnce(x.weight, Times(x.phys, a));
    }

    lemma AtLeastOnce(m: nat, n: nat)
      requires m > 0
      ensures m * n >= n && m * n - n == (m - 1) * n
    {
    }

    lemma FewerRefs(before: seq<Share>, i: nat, users: nat)
      requires i < |before| && before[i].weight == users > 0
      ensures forall a :: before[i].Refs(a) - Times(before[i].phys, a) == Share(users - 1, before[i].phys).Refs(a)
    {
      forall a
        ensures before[i].Refs(a) - Times(before[i].phys, a) == Share(users - 1, before[i].phys).Refs(a)
      {
        AtLeastOnce(users, Times(before[i].phys, a));
      }
    }

    // ----- opening -----

    /** vmmc_user_map_sg: some address, or NULL. */
    method UserMap() returns (m: int)
      ensures 0 <= m < WORD
    {
      m :| 0 <= m < WORD;
    }

    lemma Known(i: nat)
      requires Valid() && i < |segments|
      ensures var sg := segments[i];
              && sg.Sealed() && SegmentOk(sg) && sg in segments && i < |Shares()| && Shares()[i] == ShareOf(sg)
              && (sg.Weight() > 0 ==> Frames(sg.phys)) && |sg.phys| == Pages(sg.size)
              && (forall a :: pmm.IsFrame(a) ==> pmm.UserCount(a) == external(a) + Total(Shares(), a))
    {
      FieldsOk(i);
      hide SegmentOk;
    }

    /** Lines 149-158: the reference that kept the segment alive becomes that of its only user. */
    method OpenKept(sg: Segment, ghost i: nat) returns (mapping: int, ghost m: int)
      requires Valid() && i < |segments| && sg == segments[i] && sg.keptAlive
      modifies sg`users, sg`keptAlive, sg`digest
      ensures Valid() && mapping == (m + sg.offset) % WORD && 0 <= m < WORD
      ensures if mapping == 0 then sg.users == 0 && sg.keptAlive else sg.users == 1 && !sg.keptAlive
    {
      hide AllOk, Balanced, Shares, Segment.Sealed;
      ghost var before := Shares();
      Known(i);
      var start := UserMap();
      m := start;
      mapping := (start + sg.offset) % WORD;
      if mapping != 0 {
        Update(sg, 1, false, i);
        Rebalanced(before, i, ShareOf(sg));
      }
    }

    /** Lines 149-155 and 161-163: one more reference to every frame. */
    method OpenUsed(sg: Segment, ghost i: nat) returns (panicked: bool, mapping: int, ghost m: int)
      requires Valid() && i < |segments| && sg == segments[i] && sg.users > 0
      modifies pmm.bitmap, sg`users, sg`keptAlive, sg`digest
      ensures mapping == (m + sg.offset) % WORD && 0 <= m < WORD
      ensures panicked <==> mapping != 0 && old(Unusable(sg.phys))
      ensures !panicked ==> Valid() && !sg.keptAlive && sg.users == old(sg.users) + if mapping == 0 then 0 else 1
      ensures !panicked ==> forall a :: pmm.IsFrame(a) ==>
        pmm.UserCount(a) == old(pmm.UserCount(a)) + if mapping == 0 then 0 else Times(sg.phys, a)
    {
      hide AllOk, Balanced, Shares, Segment.Sealed, Share.Refs, Times, Total;
      ghost var before := Shares();
      Droppable(i);
      var start := UserMap();
      m, panicked := start, false;
      mapping := (start + sg.offset) % WORD;
      if mapping != 0 {
        panicked := UseAll(sg.phys);
        if !panicked {
          MoreRefs(before, i, sg.users);
          Update(sg, sg.users + 1, false, i);
          Rebalanced(before, i, ShareOf(sg));
        }
      }
    }

    lemma MoreRefs(before: seq<Share>, i: nat, users: nat)
      requires i < |before| && before[i].weight == users
      ensures forall a :: before[i].Refs(a) + Times(before[i].phys, a) == Share(users + 1, before[i].phys).Refs(a)
    {
      forall a
        ensures before[i].Refs(a) + Times(before[i].phys, a) == Share(users + 1, before[i].phys).Refs(a)
      {
        AtLeastOnce(users + 1, Times(before[i].phys, a));
      }
    }

    /** The frames of a segment are enough for its size and no more, if and only if the size, rounded up to
        pages, does not exceed the address space; otherwise there are none. */
    ghost predicate Covered(sg: Segment)
      reads sg`size, sg`phys
    {
      && (sg.size <= |sg.phys| * PAGE_SIZE < sg.size + PAGE_SIZE <==> sg.size <= WORD - PAGE_SIZE)
      && (sg.size > WORD - PAGE_SIZE ==> sg.phys == [])
    }

    /** Lines 170-178: the frames that have just been allocated are mapped, or given back. */
    method MapFresh(sg: Segment, phys: seq<int>, ghost before: seq<Share>, ghost i: nat)
      returns (mapping: int, ghost m: int)
      requires pmm.Valid() && AllOk() && i < |segments| == |before| && sg == segments[i]
      requires sg.users == 0 && !sg.keptAlive && sg.phys == phys && Frames(phys)
      requires before[i].weight == 0 && Shares() == before[i := Share(0, phys)]
      requires forall a :: pmm.IsFrame(a) ==> pmm.UserCount(a) == external(a) + Total(before, a) + Times(phys, a)
      modifies pmm`lookFromHere, pmm.bitmap, sg`users, sg`keptAlive, sg`digest
      ensures mapping == (m + sg.offset) % WORD && 0 <= m < WORD
      ensures Valid() && !sg.keptAlive && sg.users == if mapping == 0 then 0 else 1
      ensures forall a :: pmm.IsFrame(a) ==>
        pmm.UserCount(a) == old(pmm.UserCount(a)) - if mapping == 0 then Times(phys, a) else 0
    {
      hide AllOk, Balanced, Shares, Segment.Sealed, Times, Total, Frames, Pages;
      var start := UserMap();
      m := start;
      mapping := (start + sg.offset) % WORD;
      Unweighted(before, i);
      if mapping == 0 {
        EnoughAllocated(before, phys);
        var failed := FreeAll(phys);
        Rebalanced(before, i, ShareOf(sg));
      } else {
        MoreRefs([Share(0, phys)], 0, 0);
        Update(sg, 1, false, i);
        assert Shares() == before[i := Share(1, phys)];
        Rebalanced(before, i, Share(1, phys));
      }
    }

    /** Lines 166-178: the first user brings the frames, unless they cannot be mapped. */
    method OpenFresh(sg: Segment, ghost i: nat) returns (panicked: bool, mapping: int, ghost m: int)
      requires Valid() && i < |segments| && sg == segments[i] && sg.users == 0 && !sg.keptAlive
      modifies pmm`lookFromHere, pmm.bitmap, sg`users, sg`keptAlive, sg`digest, sg`phys
      ensures panicked <==> old(pmm.FreeFrames()) * PAGE_SIZE < sg.size <= WORD - PAGE_SIZE
      ensures !panicked ==> Covered(sg)
      ensures !panicked ==> mapping == (m + sg.offset) % WORD && 0 <= m < WORD
      ensures !panicked ==> Valid() && !sg.keptAlive && sg.users == if mapping == 0 then 0 else 1
      ensures !panicked ==> forall a :: pmm.IsFrame(a) ==>
        pmm.UserCount(a) == old(pmm.UserCount(a)) + if mapping == 0 then 0 else Times(sg.phys, a)
    {
      hide AllOk, Balanced, Shares, Segment.Sealed, Times, Total, Frames, Pages;
      ghost var before := Shares();
      Known(i);
      mapping, m := 0, 0;
      PagesAreEnough(sg.size);
      var phys;
      panicked, phys := AllocAll(Pages(sg.size));
      if !panicked {
        SetPhys(sg, phys, i);
        mapping, m := MapFresh(sg, phys, before, i);
      }
    }

    method SetPhys(sg: Segment, phys: seq<int>, ghost i: nat)
      requires AllOk() && i < |segments| && sg == segments[i] && sg.Weight() == 0 && |phys| == Pages(sg.size)
      modifies sg`phys
      ensures AllOk() && sg.phys == phys && Shares() == old(Shares())[i := Share(0, phys)]
    {
      hide AllOk, Others, Shares, Segment.Sealed;
      ghost var before := Shares();
      FieldsOk(i);
      OthersStay(i);
      sg.phys := phys;
      TogetherAgain(i, before);
    }

    lemma Unweighted(before: seq<Share>, i: nat)
      requires i < |before| && before[i].weight == 0
      ensures forall a :: before[i].Refs(a) == 0
      ensures forall phys, a :: Share(0, phys).Refs(a) == 0
    {
    }

    lemma EnoughAllocated(before: seq<Share>, phys: seq<int>)
      requires pmm.Valid()
      requires forall a :: pmm.IsFrame(a) ==> pmm.UserCount(a) == external(a) + Total(before, a) + Times(phys, a)
      ensures forall a :: pmm.IsFrame(a) ==> pmm.UserCount(a) >= Times(phys, a)
    {
    }

    /** vmmc_open_shm. Mapping a segment that has users, or is kept alive, leaves its frames as they are. A
        mapping that fails goes unnoticed if the segment has an offset. */
    method Open(sg: Segment, ghost i: nat) returns (panicked: bool, mapping: int, ghost m: int)
      requires Valid() && i < |segments| && sg == segments[i]
      modifies pmm`lookFromHere, pmm.bitmap, sg`users, sg`keptAlive, sg`digest, sg`phys
      ensures !panicked ==> Valid() && segments == old(segments) && Covered(sg)
      ensures panicked <==>
        if old(sg.keptAlive) then false
        else if old(sg.users) > 0 then mapping != 0 && old(Unusable(sg.phys))
        else old(pmm.FreeFrames()) * PAGE_SIZE < sg.size <= WORD - PAGE_SIZE
      ensures !panicked ==> 0 <= m < WORD && mapping == (m + sg.offset) % WORD
      ensures !panicked ==> (m == 0 ==> (mapping == 0 <==> sg.offset == 0))
      ensures !panicked && mapping == 0 ==> sg.users == old(sg.users) && sg.keptAlive == old(sg.keptAlive)
      ensures !panicked && mapping != 0 ==> sg.users == old(sg.users) + 1 && !sg.keptAlive
      ensures !panicked && old(sg.Weight()) > 0 ==> sg.phys == old(sg.phys)
      ensures !panicked ==> forall a :: pmm.IsFrame(a) ==>
        pmm.UserCount(a) == old(pmm.UserCount(a)) + if mapping == 0 || old(sg.keptAlive) then 0 else Times(sg.phys, a)
    {
      hide AllOk, Balanced, Shares, Segment.Sealed, Valid;
      Known(i);
      PagesAreEnough(sg.size);
      var intact := sg.IsValid(true);
      panicked := !intact;
      if sg.keptAlive {
        mapping, m := OpenKept(sg, i);
      } else if sg.users != 0 {
        panicked, mapping, m := OpenUsed(sg, i);
      } else {
        panicked, mapping, m := OpenFresh(sg, i);
      }
    }

    // ----- segments made of existing frames -----

    /** The first k frames have been added. */
    ghost predicate Added(sg: Segment, frames: seq<int>, k: nat, was: seq<Entry>)
      requires pmm.Valid() && |was| == pmm.bitmap.Length && k <= |frames| && Frames(frames)
      reads pmm, pmm.bitmap, sg`phys
    {
      sg.phys == frames[..k] && Used(frames, k, was)
    }

    /** Lines 111-132 for one frame: it must be in use already, and may be used once more. */
    method AddNext(sg: Segment, dst: int, ghost frames: seq<int>, ghost k: nat, ghost was: seq<Entry>)
      returns (panicked: bool)
      requires pmm.Valid() && Frames(frames) && k < |frames| && dst == frames[k]
      requires |was| == pmm.bitmap.Length && Added(sg, frames, k, was)
      modifies pmm.bitmap, sg`phys
      ensures pmm.Valid() && (!panicked ==> Added(sg, frames, k + 1, was))
      ensures panicked ==> TooOften(was, frames)
    {
      hide Used, TooOften;
      var alloced := pmm.Alloced(dst);
      panicked := UseNext(dst, frames, k, was);
      panicked := panicked || !alloced;
      sg.phys := sg.phys + [dst];
    }

    /** The inner loop of lines 111-132: the pages of one area, which are the frames from k on. */
    method AddArea(sg: Segment, area: seq<int>, ghost frames: seq<int>, ghost k: nat, ghost was: seq<Entry>)
      returns (panicked: bool)
      requires pmm.Valid() && Frames(frames) && k + |area| <= |frames| && frames[k..k + |area|] == area
      requires |was| == pmm.bitmap.Length && Added(sg, frames, k, was)
      modifies pmm.bitmap, sg`phys
      ensures pmm.Valid() && (!panicked ==> Added(sg, frames, k + |area|, was))
      ensures panicked ==> TooOften(was, frames)
    {
      hide Added, TooOften;
      panicked := false;
      for j := 0 to |area|
        invariant pmm.Valid() && pmm.bitmap.Length == |was|
        invariant !panicked ==> Added(sg, frames, k + j, was)
        invariant panicked ==> TooOften(was, frames)
      {
        if !panicked {
          assert frames[k + j] == frames[k..k + |area|][j];
          panicked := AddNext(sg, area[j], frames, k + j, was);
        }
      }
    }

    /** The loops of lines 107-133: the pages of every area, one area after the other. */
    method AddFrames(sg: Segment, areas: seq<seq<int>>) returns (panicked: bool)
      requires pmm.Valid() && Frames(Flatten(areas)) && sg.phys == []
      modifies pmm.bitmap, sg`phys
      ensures pmm.Valid() && (panicked <==> old(Unusable(Flatten(areas))))
      ensures !panicked ==> sg.phys == Flatten(areas)
      ensures !panicked ==> forall a :: pmm.IsFrame(a) ==>
        pmm.UserCount(a) == old(pmm.UserCount(a)) + Times(Flatten(areas), a)
      ensures !panicked ==> forall a :: a in Flatten(areas) ==> old(pmm.UserCount(a)) > 0
    {
      hide Used, Times, Flatten, Unusable, TooOften;
      panicked := false;
      ghost var was, frames := pmm.bitmap[..], Flatten(areas);
      FlattenEnds(areas);
      NoneUsed(frames, was);
      assert Added(sg, frames, 0, was);
      SeenFrom(was, frames);
      for i := 0 to |areas|
        invariant pmm.Valid() && pmm.bitmap.Length == |was|
        invariant |Flatten(areas[..i])| <= |frames|
        invariant !panicked ==> Added(sg, frames, |Flatten(areas[..i])|, was)
        invariant panicked ==> TooOften(was, frames)
      {
        FlattenAt(areas, i);
        if !panicked {
          panicked := AddArea(sg, areas[i], frames, |Flatten(areas[..i])|, was);
        }
      }
      if !panicked {
        AllUsed(frames, was);
        assert frames[..|frames|] == frames;
      }
    }

    /** vmmc_make_shm: areas lists for every area what its pages are mapped to. The segment has one user, and
        holds one more reference to every frame; these were in use before. If the areas are as large as the
        address space, the size of the segment wraps around. */
    method Make(areas: seq<seq<int>>, offset: int) returns (panicked: bool, sg: Segment?)
      requires Valid() && Frames(Flatten(areas))
      modifies this`segments, pmm.bitmap
      ensures panicked <==> areas == [] || offset < 0 || offset >= PAGE_SIZE || old(Unusable(Flatten(areas)))
      ensures !panicked ==> sg != null && fresh(sg) && segments == old(segments) + [sg]
      ensures !panicked ==> (Valid() <==> |Flatten(areas)| * PAGE_SIZE < WORD)
      ensures !panicked ==> sg.users == 1 && !sg.keptAlive && sg.offset == offset
      ensures !panicked ==> sg.phys == Flatten(areas) && sg.size == |Flatten(areas)| * PAGE_SIZE % WORD
      ensures !panicked ==> forall a :: pmm.IsFrame(a) ==>
        pmm.UserCount(a) == old(pmm.UserCount(a)) + Times(Flatten(areas), a)
      ensures !panicked ==> forall a :: a in Flatten(areas) ==> old(pmm.UserCount(a)) > 0
    {
      hide AllOk, Balanced, Shares, SegmentOk, Segment.Sealed, Share.Refs, Times, Total, Flatten, Unusable;
      if areas == [] || offset < 0 || offset >= PAGE_SIZE {
        return true, null;
      }
      SegmentsAllocated();
      Counting();
      var pages := CountPages(areas);
      var made := NewSegment(pages * PAGE_SIZE % WORD, 1, offset, []);
      panicked := AddFrames(made, areas);
      sg := made;
      if !panicked {
        PagesOfFrames(pages);
        if pages * PAGE_SIZE < WORD {
          OneShare(made);
          Adopt(made);
        } else {
          Misfit(made);
        }
      }
    }

    /** A segment whose size does not tell how many frames it has. */
    ghost method Misfit(sg: Segment)
      requires |sg.phys| != Pages(sg.size)
      modifies this`segments
      ensures segments == old(segments) + [sg] && !Valid()
    {
      segments := segments + [sg];
      assert sg in segments && !SegmentOk(sg);
    }

    /** Lines 93-96. */
    method CountPages(areas: seq<seq<int>>) returns (pages: nat)
      ensures pages == |Flatten(areas)|
    {
      hide Flatten;
      pages := 0;
      FlattenEnds(areas);
      for i := 0 to |areas|
        invariant pages == |Flatten(areas[..i])|
      {
        FlattenAt(areas, i);
        pages := pages + |areas[i]|;
      }
    }

    lemma Counting()
      requires Valid()
      ensures forall a :: pmm.IsFrame(a) ==> pmm.UserCount(a) == external(a) + Total(Shares(), a)
    {
    }

    lemma OneShare(sg: Segment)
      requires sg.users == 1 && !sg.keptAlive && sg.offset < PAGE_SIZE && |sg.phys| == Pages(sg.size)
      requires sg.Sealed() && Frames(sg.phys)
      ensures SegmentOk(sg)
      ensures forall a :: ShareOf(sg).Refs(a) == Times(sg.phys, a)
    {
      hide Segment.Sealed;
    }

    // ----- references from outside -----

    /** pmm_use by somebody else, who maps the frame as well. */
    method UseOutside(paddr: int) returns (panicked: bool)
      requires Valid() && pmm.IsFrame(paddr)
      modifies pmm.bitmap, this`external
      ensures !panicked ==> Valid() && external(paddr) == old(external)(paddr) + 1
      ensures !panicked ==> forall a :: a != paddr ==> external(a) == old(external)(a)
      ensures panicked <==> !old(pmm.Alloced(paddr))
    {
      hide AllOk, Shares;
      Counting();
      ghost var was := external;
      panicked := UseOne(paddr);
      if !panicked {
        external := a => if a == paddr then was(a) + 1 else was(a);
      }
    }

    /** pmm_alloc by somebody else. */
    method AllocOutside() returns (panicked: bool, paddr: int)
      requires Valid()
      modifies pmm`lookFromHere, pmm.bitmap, this`external
      ensures !panicked ==> Valid() && pmm.IsFrame(paddr) && external(paddr) == 1 && old(external)(paddr) == 0
      ensures !panicked ==> forall a :: a != paddr ==> external(a) == old(external)(a)
      ensures !panicked ==> forall sg :: sg in segments && sg.Weight() > 0 ==> paddr !in sg.phys
    {
      hide AllOk, Shares;
      Counting();
      ghost var was := external;
      AllInUse();
      panicked, paddr := AllocOne();
      if !panicked {
        external := a => if a == paddr then was(a) + 1 else was(a);
      }
    }

    /** What a segment holds has users. */
    lemma AllInUse()
      requires Valid()
      ensures forall sg, a :: sg in segments && sg.Weight() > 0 && a in sg.phys ==>
        pmm.IsFrame(a) && pmm.UserCount(a) > 0
    {
      forall sg, a | sg in segments && sg.Weight() > 0 && a in sg.phys
        ensures pmm.IsFrame(a) && pmm.UserCount(a) > 0
      {
        var i :| 0 <= i < |segments| && segments[i] == sg;
        NoDanglingFrames(i, a);
      }
    }

    /** pmm_free of a reference from outside. It cannot panic, and a frame that a segment holds keeps users. */
    method FreeOutside(paddr: int) returns (panicked: bool)
      requires Valid() && pmm.IsFrame(paddr) && external(paddr) > 0
      modifies pmm`lookFromHere, pmm.bitmap, this`external
      ensures !panicked && Valid() && external(paddr) == old(external)(paddr) - 1
      ensures forall a :: a != paddr ==> external(a) == old(external)(a)
    {
      hide AllOk, Shares;
      Counting();
      ghost var was := external;
      panicked := FreeOne(paddr);
      external := a => if a == paddr then was(a) - 1 else was(a);
    }

    /** A frame without users is in no segment that has users or is kept alive; and without segments there are
        only the references from outside. */
    lemma NoDanglingFrames(i: nat, a: int)
      requires Valid() && i < |segments| && segments[i].Weight() > 0 && a in segments[i].phys
      ensures pmm.IsFrame(a) && pmm.UserCount(a) > external(a)
    {
      hide Segment.Sealed;
      Known(i);
      TotalAround(Shares(), i, a);
      RefsAtLeast(Shares()[i], a);
    }

    /** In every state a segment that has not been freed passes the test of its digest, and if it is kept alive
        it has no users. */
    lemma SegmentsAreIntact(sg: Segment)
      requires Valid() && sg in segments
      ensures Crc(sg.Header() + LittleEndian(sg.digest, 4)) == RESIDUE
      ensures sg.users >= 0 && (sg.keptAlive ==> sg.users == 0)
    {
      hide Segment.Header, Crc, LittleEndian;
      DigestChecks(sg.Header(), sg.digest);
    }
  }

  lemma OneFrame(memory: Memory, a: int)
    requires memory.pmm.IsFrame(a)
    ensures memory.Frames(Flatten([[a]])) && |Flatten([[a]])| == 1
  {
    assert Flatten([[a]]) == [a];
  }

  /** A segment that begins 8 bytes into its first frame is opened a second time. If it cannot be mapped, the
      caller still gets an address, and the segment another user. */
  method FailureUnnoticed() returns (panicked: bool, mapping: int, users: int, ghost m: int)
    ensures !panicked && m == 0 ==> mapping == 8 && users == 2
  {
    hide Memory.Valid, Memory.Frames, Flatten, Times, Pages, Pmm.Valid, Pmm.UserCount;
    mapping, users, m := 0, 0, 0;
    var pmm := new Pmm(0, 2);
    var a;
    panicked, a := pmm.Alloc();
    if !panicked {
      var memory := new Memory(pmm);
      var sg;
      OneFrame(memory, a);
      panicked, sg := memory.Make([[a]], 8);
      if !panicked {
        panicked, mapping, m := memory.Open(sg, 0);
        users := sg.users;
      }
    }
  }

  /** A segment of almost the whole address space is opened, and there is no frame behind it. */
  method NothingBehind() returns (panicked: bool, mapping: int, size: nat, phys: seq<int>)
    ensures !panicked && size == 0xffff_f001 && phys == []
  {
    hide Memory.Valid, Memory.Frames, Memory.Unusable, Times, Pages, Pmm.Valid, Pmm.UserCount, Pmm.FreeFrames;
    var pmm := new Pmm(0, 2);
    var memory := new Memory(pmm);
    var sg := memory.Create(0xffff_f001);
    ghost var m;
    panicked, mapping, m := memory.Open(sg, 0);
    size, phys := sg.size, sg.phys;
  }
}
