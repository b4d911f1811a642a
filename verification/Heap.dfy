// The user heap (src/lib/common/stdlib/malloc.c, free.c and realloc.c).

// How blocks tile a stretch of memory.
module HeapTiles {
  const HEADER: int := 16

  datatype Tile = Tile(addr: int, size: int, free: bool) {
    function End(): int { addr + HEADER + size }
  }

  /** a is one of the bytes of x, the header not included. */
  predicate Within(x: Tile, a: int) { x.addr + HEADER <= a < x.End() }

  /** The tiles of t lie side by side from lo up to hi. */
  predicate Tiled(t: seq<Tile>, lo: int, hi: int) {
    if t == [] then lo == hi
    else t[0].addr == lo && t[0].size >= 0 && t[0].size % 16 == 0 && Tiled(t[1..], t[0].End(), hi)
  }

  function EndOf(t: seq<Tile>, lo: int): int {
    if t == [] then lo else t[|t| - 1].End()
  }

  /** No two neighbours are both free. */
  predicate Settled(t: seq<Tile>) {
    forall i :: 0 <= i < |t| - 1 ==> !(t[i].free && t[i + 1].free)
  }

  function FreeAddrs(t: seq<Tile>): seq<int> {
    if t == [] then [] else (if t[0].free then [t[0].addr] else []) + FreeAddrs(t[1..])
  }

  /** The tiles that are in use. */
  function Live(t: seq<Tile>): seq<Tile> {
    if t == [] then [] else (if t[0].free then [] else [t[0]]) + Live(t[1..])
  }

  /** Some tile in use has a as one of its bytes, headers not included. */
  predicate Owns(t: seq<Tile>, a: int) {
    exists x :: x in Live(t) && Within(x, a)
  }

  lemma {:induction false} TiledConcat(s: seq<Tile>, t: seq<Tile>, lo: int, hi: int)
    ensures Tiled(s + t, lo, hi) <==> Tiled(s, lo, EndOf(s, lo)) && Tiled(t, EndOf(s, lo), hi)
  {
    if s == [] {
      assert s + t == t;
    } else {
      assert (s + t)[1..] == s[1..] + t;
      TiledConcat(s[1..], t, s[0].End(), hi);
      assert EndOf(s[1..], s[0].End()) == EndOf(s, lo);
    }
  }

  lemma {:induction false} FreeConcat(s: seq<Tile>, t: seq<Tile>)
    ensures FreeAddrs(s + t) == FreeAddrs(s) + FreeAddrs(t)
  {
    if s == [] {
      assert s + t == t;
    } else {
      assert (s + t)[0] == s[0] && (s + t)[1..] == s[1..] + t;
      FreeConcat(s[1..], t);
    }
  }

  lemma {:induction false} LiveConcat(s: seq<Tile>, t: seq<Tile>)
    ensures Live(s + t) == Live(s) + Live(t)
  {
    if s == [] {
      assert s + t == t;
    } else {
      assert (s + t)[1..] == s[1..] + t;
      LiveConcat(s[1..], t);
    }
  }

  /** The three tiles around a place in the middle. */
  lemma Around(a: seq<Tile>, x: seq<Tile>, b: seq<Tile>)
    ensures FreeAddrs(a + x + b) == FreeAddrs(a) + FreeAddrs(x) + FreeAddrs(b)
    ensures Live(a + x + b) == Live(a) + Live(x) + Live(b)
  {
    FreeConcat(a + x, b);
    FreeConcat(a, x);
    LiveConcat(a + x, b);
    LiveConcat(a, x);
  }

  lemma {:induction false} Bounds(t: seq<Tile>, lo: int, hi: int)
    requires Tiled(t, lo, hi)
    ensures lo <= hi
    ensures forall i :: 0 <= i < |t| ==> lo <= t[i].addr && t[i].End() <= hi && t[i].size >= 0
    ensures forall i, j :: 0 <= i < j < |t| ==> t[i].End() <= t[j].addr
  {
    if t != [] {
      Bounds(t[1..], t[0].End(), hi);
      forall i | 1 <= i < |t|
        ensures t[0].End() <= t[i].addr && t[i].End() <= hi && t[i].size >= 0
      {
        assert t[i] == t[1..][i - 1];
      }
      forall i, j | 1 <= i < j < |t|
        ensures t[i].End() <= t[j].addr
      {
        assert t[i] == t[1..][i - 1] && t[j] == t[1..][j - 1];
      }
    }
  }

  lemma {:induction false} Aligned(t: seq<Tile>, lo: int, hi: int)
    requires Tiled(t, lo, hi) && lo % 16 == 0
    ensures hi % 16 == 0
    ensures forall i :: 0 <= i < |t| ==> t[i].addr % 16 == 0 && t[i].size % 16 == 0
  {
    if t != [] {
      Aligned(t[1..], t[0].End(), hi);
      forall i | 1 <= i < |t|
        ensures t[i].addr % 16 == 0 && t[i].size % 16 == 0
      {
        assert t[i] == t[1..][i - 1];
      }
    }
  }

  lemma {:induction false} LiveIsTile(t: seq<Tile>, x: Tile)
    ensures x in Live(t) <==> x in t && !x.free
  {
    if t != [] {
      LiveIsTile(t[1..], x);
      assert x in t <==> x == t[0] || x in t[1..];
    }
  }

  /** Headers, and the whole of free tiles, are nobody's bytes. */
  lemma Apart(t: seq<Tile>, lo: int, hi: int, i: nat, a: int)
    requires Tiled(t, lo, hi) && i < |t|
    requires t[i].addr <= a < if t[i].free then t[i].End() else t[i].addr + HEADER
    ensures !Owns(t, a)
  {
    Bounds(t, lo, hi);
    forall x | x in Live(t)
      ensures !Within(x, a)
    {
      LiveIsTile(t, x);
    }
  }

  /** The bytes of two different tiles in use have nothing in common. */
  lemma PayloadsApart(t: seq<Tile>, lo: int, hi: int, x: Tile, y: Tile, a: int)
    requires Tiled(t, lo, hi) && x in Live(t) && y in Live(t)
    requires Within(x, a) && Within(y, a)
    ensures x == y
  {
    Bounds(t, lo, hi);
    LiveIsTile(t, x);
    LiveIsTile(t, y);
  }

  // ----- free tiles and their list -----

  /** Which tile is the k-th free one. */
  lemma {:induction false} KthFree(t: seq<Tile>, k: nat) returns (i: nat)
    requires k < |FreeAddrs(t)|
    ensures i < |t| && t[i].free && t[i].addr == FreeAddrs(t)[k]
    ensures FreeAddrs(t[..i]) == FreeAddrs(t)[..k] && FreeAddrs(t[i + 1..]) == FreeAddrs(t)[k + 1..]
    ensures t == t[..i] + [t[i]] + t[i + 1..]
  {
    if t[0].free && k == 0 {
      i := 0;
    } else {
      var skip := if t[0].free then 1 else 0;
      i := KthFree(t[1..], k - skip);
      i := i + 1;
      assert t[..i][1..] == t[1..][..i - 1];
      assert t[i + 1..] == t[1..][i..];
    }
  }

  lemma {:induction false} FreeInTiles(t: seq<Tile>, k: nat)
    requires k < |FreeAddrs(t)|
    ensures exists i :: 0 <= i < |t| && t[i].addr == FreeAddrs(t)[k]
  {
    var i := KthFree(t, k);
  }

  /** The addresses of the free tiles strictly increase. */
  lemma {:induction false} FreeSorted(t: seq<Tile>, lo: int, hi: int)
    requires Tiled(t, lo, hi)
    ensures forall k :: 0 <= k < |FreeAddrs(t)| ==> lo <= FreeAddrs(t)[k] < hi
    ensures forall j, k :: 0 <= j < k < |FreeAddrs(t)| ==> FreeAddrs(t)[j] < FreeAddrs(t)[k]
  {
    if t != [] {
      FreeSorted(t[1..], t[0].End(), hi);
      Bounds(t, lo, hi);
    }
  }

  // ----- coalescing -----

  function Join(t: seq<Tile>): seq<Tile>
    decreases |t|
  {
    if |t| < 2 then t
    else if t[0].free && t[1].free then Join([Merged(t[0], t[1])] + t[2..])
    else [t[0]] + Join(t[1..])
  }

  function Merged(x: Tile, y: Tile): Tile { Tile(x.addr, x.size + HEADER + y.size, x.free) }

  lemma {:induction false} JoinSettles(t: seq<Tile>)
    ensures Settled(Join(t)) && (t == [] <==> Join(t) == [])
    ensures t != [] ==> Join(t)[0].free == t[0].free
    decreases |t|
  {
    if |t| >= 2 {
      if t[0].free && t[1].free {
        JoinSettles([Merged(t[0], t[1])] + t[2..]);
      } else {
        JoinSettles(t[1..]);
        var r := Join(t[1..]);
        assert forall i :: 0 < i < |Join(t)| ==> Join(t)[i] == r[i - 1];
      }
    }
  }

  lemma {:induction false} JoinTiles(t: seq<Tile>, lo: int, hi: int)
    requires Tiled(t, lo, hi)
    ensures Tiled(Join(t), lo, hi)
    decreases |t|
  {
    hide Tiled;
    if |t| >= 2 {
      TiledRest(t, lo, hi);
      if t[0].free && t[1].free {
        TiledRest(t[1..], t[0].End(), hi);
        assert t[1..][0] == t[1] && t[1..][1..] == t[2..];
        TiledWith(Merged(t[0], t[1]), t[2..], hi);
        JoinTiles([Merged(t[0], t[1])] + t[2..], lo, hi);
      } else {
        JoinTiles(t[1..], t[0].End(), hi);
        TiledWith(t[0], Join(t[1..]), hi);
      }
    }
  }

  lemma TiledRest(t: seq<Tile>, lo: int, hi: int)
    requires Tiled(t, lo, hi) && t != []
    ensures t[0].addr == lo && t[0].size >= 0 && t[0].size % 16 == 0 && Tiled(t[1..], t[0].End(), hi)
  {
  }

  lemma TiledWith(x: Tile, t: seq<Tile>, hi: int)
    requires x.size >= 0 && x.size % 16 == 0 && Tiled(t, x.End(), hi)
    ensures Tiled([x] + t, x.addr, hi)
  {
    assert ([x] + t)[1..] == t;
  }

  lemma {:induction false} JoinKeepsLive(t: seq<Tile>)
    ensures Live(Join(t)) == Live(t)
    decreases |t|
  {
    if |t| >= 2 {
      if t[0].free && t[1].free {
        var u := [Merged(t[0], t[1])] + t[2..];
        assert t[1..][1..] == t[2..] == u[1..];
        JoinKeepsLive(u);
      } else {
        JoinKeepsLive(t[1..]);
      }
    }
  }

  lemma {:induction false} JoinSkips(s: seq<Tile>, t: seq<Tile>)
    requires FreeAddrs(s) == []
    ensures Join(s + t) == s + Join(t)
  {
    if s == [] {
      assert s + t == t;
    } else {
      assert (s + t)[1..] == s[1..] + t;
      JoinSkips(s[1..], t);
    }
  }

  /** A free tile whose right neighbour is in use stays as it is. */
  lemma JoinPasses(c: Tile, s: seq<Tile>, t: seq<Tile>)
    requires FreeAddrs(s) == [] && (s == [] ==> t == [])
    ensures Join([c] + s + t) == [c] + s + Join(t)
  {
    var u := [c] + s + t;
    assert u[1..] == s + t;
    JoinSkips(s, t);
  }

  /** Merging two neighbours keeps the layout; the second one leaves the list. */
  lemma Merging(a: seq<Tile>, c: Tile, d: Tile, b: seq<Tile>, lo: int, hi: int)
    requires Tiled(a + [c] + [d] + b, lo, hi) && c.free && d.free
    ensures Tiled(a + [Merged(c, d)] + b, lo, hi)
    ensures Live(a + [Merged(c, d)] + b) == Live(a + [c] + [d] + b)
    ensures FreeAddrs(a + [c] + [d] + b) == FreeAddrs(a) + [c.addr] + [d.addr] + FreeAddrs(b)
    ensures FreeAddrs(a + [Merged(c, d)] + b) == FreeAddrs(a) + [c.addr] + FreeAddrs(b)
    ensures Join([c] + [d] + b) == Join([Merged(c, d)] + b)
  {
    var m := Merged(c, d);
    var cdb, mb := [c] + [d] + b, [m] + b;
    assert a + [c] + [d] + b == a + cdb && a + [m] + b == a + mb;
    assert cdb[1..] == [d] + b && ([d] + b)[1..] == b && mb[1..] == b && cdb[2..] == b;
    TiledConcat(a, cdb, lo, hi);
    TiledConcat(a, mb, lo, hi);
    FreeConcat(a, cdb);
    FreeConcat(a, mb);
    LiveConcat(a, cdb);
    LiveConcat(a, mb);
  }

  // ----- the tiles in use determine the rest -----

  /** Two layouts of the same stretch with the same tiles in use are the same. */
  lemma {:induction false} Canonical(s: seq<Tile>, t: seq<Tile>, lo: int, hi: int)
    requires Tiled(s, lo, hi) && Tiled(t, lo, hi) && Settled(s) && Settled(t)
    requires Live(s) == Live(t)
    ensures s == t
  {
    if s != [] && t != [] {
      Bounds(s, lo, hi);
      Bounds(t, lo, hi);
      assert Settled(s[1..]) by {
        assert forall i :: 0 <= i < |s| - 1 ==> s[1..][i] == s[i + 1];
      }
      assert Settled(t[1..]) by {
        assert forall i :: 0 <= i < |t| - 1 ==> t[1..][i] == t[i + 1];
      }
      FirstEnds(s, lo, hi);
      FirstEnds(t, lo, hi);
      if s[0].free != t[0].free {
        FirstLive(s, lo, hi);
        FirstLive(t, lo, hi);
        assert false;
      }
      assert s[0] == t[0];
      assert Live(s[1..]) == if s[0].free then Live(s) else Live(s)[1..];
      assert Live(t[1..]) == if t[0].free then Live(t) else Live(t)[1..];
      Canonical(s[1..], t[1..], s[0].End(), hi);
    } else {
      Bounds(s, lo, hi);
      Bounds(t, lo, hi);
    }
  }

  /** In a settled layout a free first tile reaches up to the first one in use. */
  lemma FirstEnds(t: seq<Tile>, lo: int, hi: int)
    requires Tiled(t, lo, hi) && Settled(t) && t != []
    ensures t[0].free ==> t[0].End() == if Live(t) == [] then hi else Live(t)[0].addr
    ensures !t[0].free ==> Live(t) != [] && Live(t)[0] == t[0]
  {
    if t[0].free && |t| > 1 {
      assert t[1..][0] == t[1];
      assert !t[1].free;
      assert Live(t) == Live(t[1..]);
    }
  }

  lemma FirstLive(t: seq<Tile>, lo: int, hi: int)
    requires Tiled(t, lo, hi) && t != []
    ensures t[0].free && Live(t) != [] ==> Live(t)[0].addr > lo
  {
    Bounds(t, lo, hi);
    if Live(t) != [] {
      LiveIsTile(t, Live(t)[0]);
    }
  }

  /** With everything given back, the whole stretch is one free tile. */
  lemma AllFree(t: seq<Tile>, lo: int, hi: int)
    requires Tiled(t, lo, hi) && Settled(t) && Live(t) == []
    ensures lo == hi ==> t == []
    ensures lo < hi ==> t == [Tile(lo, hi - lo - HEADER, true)]
  {
    Bounds(t, lo, hi);
    if t != [] {
      FirstEnds(t, lo, hi);
      assert t[0].free;
      Bounds(t[1..], t[0].End(), hi);
    }
  }
}

module UserHeap {
  import opened HeapTiles

  const WORD: int := 0x1_0000_0000

  type Word = x: int | 0 <= x < WORD

  /** Lines 41-45 of malloc.c, where the sum wraps around. */
  function Rounded(sz: Word): (need: Word) {
    var sz := if sz == 0 then 1 else sz;
    if sz % 16 != 0 then (sz + 15) % WORD / 16 * 16 else sz
  }

  /** The rounded size is the smallest multiple of sixteen that is large enough, unless the sum wraps. */
  lemma RoundedIsEnough(sz: Word)
    ensures Rounded(sz) % 16 == 0
    ensures Rounded(sz) >= sz <==> sz <= 0xFFFF_FFF0
    ensures sz <= 0xFFFF_FFF0 ==> 16 <= Rounded(sz) <= sz + 16 && (sz > 0 ==> Rounded(sz) < sz + 16)
    ensures sz > 0xFFFF_FFF0 ==> Rounded(sz) == 0
  {
  }

  /** One byte more than can be rounded up, and the block will be empty. */
  lemma RoundedWraps()
    ensures Rounded(0xFFFF_FFF0) == 0xFFFF_FFF0 && Rounded(0xFFFF_FFF1) == 0
  {
  }

  /** What sbrk makes of its argument. */
  function Signed(x: Word): int { if x < 0x8000_0000 then x else x - WORD }

  /** Lines 282-288 of src/kernel/common/memory/vmem.c. */
  function Increment(diff: Word): int {
    var inc := Signed(diff);
    if 0 <= inc < 16 then inc else if inc > 0 then (inc + 15) / 16 * 16 else inc / 16 * 16
  }

  /** Whether a block of this size fits between the end of the heap and the end of the addresses. */
  predicate Grows(brk: int, need: Word) {
    brk + need + HEADER < WORD
  }

  /** For the largest size that can be rounded up, sbrk is asked for nothing at all. */
  lemma LargestSize(brk: int)
    requires 0 < brk < WORD
    ensures Increment((Rounded(0xFFFF_FFF0) + 16) % WORD) == 0 && !Grows(brk, Rounded(0xFFFF_FFF0))
  {
  }

  /** The end of the heap moves by as much as the new block takes exactly if it does not wrap. */
  lemma GrowsExactly(brk: int, need: Word)
    requires 0 < brk < WORD && need % 16 == 0
    ensures (brk + Increment((need + 16) % WORD)) % WORD == brk + need + HEADER <==> Grows(brk, need)
    ensures 0 <= (brk + Increment((need + 16) % WORD)) % WORD < WORD
  {
    var diff := (need + 16) % WORD;
    assert Increment(diff) == Signed(diff);
    assert diff == need + 16 || diff == need + 16 - WORD;
  }

  /** The first free tile that is large enough, or |t|. */
  ghost predicate FirstFit(t: seq<Tile>, need: int, i: nat) {
    && i <= |t|
    && (forall j :: 0 <= j < i ==> !(t[j].free && t[j].size >= need))
    && (i < |t| ==> t[i].free && t[i].size >= need)
  }

  /** The free tile i of t is given away, as a whole or up to size s. */
  function Carve(t: seq<Tile>, i: nat, s: int): seq<Tile>
    requires i < |t|
  {
    var x := t[i];
    t[..i] + Cut(x, s) + t[i + 1..]
  }

  function Cut(x: Tile, s: int): seq<Tile> {
    if x.size - s < 32 then [Tile(x.addr, x.size, false)]
    else [Tile(x.addr, s, false), Tile(x.addr + HEADER + s, x.size - s - HEADER, true)]
  }

  function Freed(t: seq<Tile>, i: nat): seq<Tile>
    requires i < |t|
  {
    t[..i] + [Tile(t[i].addr, t[i].size, true)] + t[i + 1..]
  }

  lemma Middle(t: seq<Tile>, i: nat, x: seq<Tile>, lo: int, hi: int)
    requires i < |t| && Tiled(t, lo, hi) && x != [] && Tiled(x, t[i].addr, t[i].End())
    ensures Tiled(t[..i] + x + t[i + 1..], lo, hi)
  {
    var a, b := t[..i], t[i + 1..];
    assert t == a + ([t[i]] + b);
    TiledConcat(a, [t[i]] + b, lo, hi);
    TiledConcat([t[i]], b, t[i].addr, hi);
    EndInside(x, t[i].addr, t[i].End());
    TiledConcat(x, b, t[i].addr, hi);
    assert a + x + b == a + (x + b);
    assert ([t[i]] + b)[0] == t[i];
    TiledConcat(a, x + b, lo, hi);
  }

  lemma {:induction false} EndInside(x: seq<Tile>, lo: int, hi: int)
    requires Tiled(x, lo, hi)
    ensures EndOf(x, lo) == hi
  {
    if x != [] {
      EndInside(x[1..], x[0].End(), hi);
    }
  }

  /** Each tile by itself, free or not, is laid out well. */
  lemma Single(t: seq<Tile>, i: nat, lo: int, hi: int, free: bool)
    requires Tiled(t, lo, hi) && i < |t|
    ensures Tiled([Tile(t[i].addr, t[i].size, free)], t[i].addr, t[i].End())
  {
    var x := [Tile(t[i].addr, t[i].size, free)];
    assert x[1..] == [];
    assert t == t[..i] + t[i..];
    TiledConcat(t[..i], t[i..], lo, hi);
  }

  lemma LiveOne(x: Tile)
    ensures Live([x]) == if x.free then [] else [x]
  {
    assert [x][1..] == [];
  }

  lemma CutTiles(x: Tile, s: int)
    requires 0 <= s <= x.size && s % 16 == 0 && x.size % 16 == 0
    ensures Tiled(Cut(x, s), x.addr, x.End()) && Live(Cut(x, s)) == [Cut(x, s)[0]]
  {
    var y := Cut(x, s);
    LiveOne(y[0]);
    if |y| == 2 {
      LiveOne(y[1]);
      assert y[1..] == [y[1]];
      assert Tiled(y[1..][1..], y[1].End(), x.End());
      assert Tiled(y[1..], y[0].End(), x.End());
    }
  }

  /** Giving a free tile away keeps the layout, and adds one tile to those in use. */
  lemma CarveKeeps(t: seq<Tile>, i: nat, s: int, lo: int, hi: int)
    requires Tiled(t, lo, hi) && Settled(t) && i < |t| && t[i].free && 0 <= s <= t[i].size && s % 16 == 0
    ensures Tiled(Carve(t, i, s), lo, hi) && Settled(Carve(t, i, s))
    ensures Live(Carve(t, i, s)) == Live(t[..i]) + [Cut(t[i], s)[0]] + Live(t[i + 1..])
    ensures Live(t) == Live(t[..i]) + Live(t[i + 1..])
    ensures s <= Cut(t[i], s)[0].size < s + 32 && Cut(t[i], s)[0].addr == t[i].addr
  {
    hide Tiled, Live, FreeAddrs;
    var x := Cut(t[i], s);
    TileSize(t, i, lo, hi);
    CutTiles(t[i], s);
    Middle(t, i, x, lo, hi);
    Around(t[..i], x, t[i + 1..]);
    assert t == t[..i] + [t[i]] + t[i + 1..];
    Around(t[..i], [t[i]], t[i + 1..]);
    LiveOne(t[i]);
    assert Live(t[..i]) + [] == Live(t[..i]);
  }

  lemma TileSize(t: seq<Tile>, i: nat, lo: int, hi: int)
    requires Tiled(t, lo, hi) && i < |t|
    ensures t[i].size >= 0 && t[i].size % 16 == 0
  {
    Single(t, i, lo, hi, false);
  }

  /** A block that was given away from the free list goes back to where it came from. */
  lemma RoundTrip(t: seq<Tile>, i: nat, s: int, lo: int, hi: int)
    requires Tiled(t, lo, hi) && Settled(t) && i < |t| && t[i].free && 0 <= s <= t[i].size && s % 16 == 0
    ensures Join(Freed(Carve(t, i, s), i)) == t
  {
    hide Tiled, Settled, Live, FreeAddrs, Join, EndOf;
    var u := Carve(t, i, s);
    CarveKeeps(t, i, s, lo, hi);
    FreedKeeps(u, i, lo, hi);
    assert u[..i] == t[..i];
    assert u[i + 1..] == Cut(t[i], s)[1..] + t[i + 1..];
    LiveConcat(Cut(t[i], s)[1..], t[i + 1..]);
    Canonical(Join(Freed(u, i)), t, lo, hi);
  }

  /** Taking a block back keeps the layout, and takes one tile from those in use. */
  lemma FreedKeeps(t: seq<Tile>, i: nat, lo: int, hi: int)
    requires Tiled(t, lo, hi) && i < |t| && !t[i].free
    ensures Tiled(Freed(t, i), lo, hi)
    ensures Tiled(Join(Freed(t, i)), lo, hi) && Settled(Join(Freed(t, i)))
    ensures Live(t) == Live(t[..i]) + [t[i]] + Live(t[i + 1..])
    ensures Live(Join(Freed(t, i))) == Live(Freed(t, i)) == Live(t[..i]) + Live(t[i + 1..])
  {
    var x := Tile(t[i].addr, t[i].size, true);
    Single(t, i, lo, hi, true);
    LiveOne(x);
    LiveOne(t[i]);
    hide Tiled, Settled, Live, FreeAddrs, Join, EndOf;
    Middle(t, i, [x], lo, hi);
    assert t == t[..i] + [t[i]] + t[i + 1..];
    Around(t[..i], [t[i]], t[i + 1..]);
    Around(t[..i], [x], t[i + 1..]);
    assert Live(t[..i]) + [] == Live(t[..i]);
    JoinTiles(Freed(t, i), lo, hi);
    JoinSettles(Freed(t, i));
    JoinKeepsLive(Freed(t, i));
  }

  lemma {:induction false} FreeListed(t: seq<Tile>, x: Tile)
    requires x in t && x.free
    ensures x.addr in FreeAddrs(t)
  {
    if x != t[0] {
      FreeListed(t[1..], x);
    }
  }

  lemma FreeOne(x: Tile)
    ensures FreeAddrs([x]) == if x.free then [x.addr] else []
  {
    assert [x][1..] == [];
  }

  lemma CutFree(x: Tile, s: int)
    requires x.size - s >= 32
    ensures FreeAddrs(Cut(x, s)) == [x.addr + HEADER + s]
  {
    var y := Cut(x, s);
    assert y[1..] == [y[1]];
    FreeOne(y[1]);
  }

  function At(f: seq<int>, k: nat): int { if k < |f| then f[k] else 0 }

  /** The sizes in the headers are those of the tiles. */
  ghost predicate Recorded(size: map<int, int>, t: seq<Tile>) {
    forall i :: 0 <= i < |t| ==> t[i].addr in size && size[t[i].addr] == t[i].size
  }

  lemma RecordedCut(size: map<int, int>, t: seq<Tile>, i: nat, s: int, lo: int, hi: int)
    requires Recorded(size, t) && Tiled(t, lo, hi) && i < |t| && 0 <= s && t[i].size - s >= 32
    ensures Recorded(size[t[i].addr + HEADER + s := t[i].size - s - HEADER][t[i].addr := s], Carve(t, i, s))
  {
    Bounds(t, lo, hi);
    var u, sizes := Carve(t, i, s), size[t[i].addr + HEADER + s := t[i].size - s - HEADER][t[i].addr := s];
    forall j | 0 <= j < |u|
      ensures u[j].addr in sizes && sizes[u[j].addr] == u[j].size
    {
      if j < i {
        assert u[j] == t[j];
      } else if j > i + 1 {
        assert u[j] == t[j - 1];
      }
    }
  }

  lemma RecordedMerge(size: map<int, int>, a: seq<Tile>, c: Tile, d: Tile, b: seq<Tile>, lo: int, hi: int)
    requires Tiled(a + [c] + [d] + b, lo, hi) && Recorded(size, a + [c] + [d] + b)
    ensures c.addr in size && d.addr in size
    ensures Recorded(size[c.addr := size[c.addr] + (size[d.addr] + 16)], a + [Merged(c, d)] + b)
  {
    var t, u := a + [c] + [d] + b, a + [Merged(c, d)] + b;
    Bounds(t, lo, hi);
    assert t[|a|] == c && t[|a| + 1] == d;
    forall j | 0 <= j < |u| && j != |a|
      ensures u[j] == t[if j < |a| then j else j + 1]
    {
    }
  }

  predicate Distinct(f: seq<int>) {
    0 !in f && forall j, k :: 0 <= j < k < |f| ==> f[j] != f[k]
  }

  /** The list with the given head and links is f. */
  ghost predicate Chain(f: seq<int>, first: int, next: map<int, int>) {
    first == At(f, 0) && forall k :: 0 <= k < |f| ==> f[k] in next && next[f[k]] == At(f, k + 1)
  }

  /** h takes the place of t, the k-th element of the list. */
  lemma ChainReplace(f: seq<int>, k: nat, prev: int, t: int, h: int, first: int, next: map<int, int>)
    requires Chain(f, first, next) && Distinct(f) && k < |f| && t == f[k] && prev == Before(f, k) && h != 0 && h !in f
    ensures var n := if prev == 0 then next else next[prev := h];
            && t in n && n[t] == next[t]
            && Chain(f[..k] + [h] + f[k + 1..], if prev == 0 then h else first, n[h := next[t]])
  {
    var g, n := f[..k] + [h] + f[k + 1..], if prev == 0 then next else next[prev := h];
    forall j | 0 <= j < |g|
      ensures g[j] in n[h := next[t]] && n[h := next[t]][g[j]] == At(g, j + 1)
    {
      if j != k {
        assert g[j] == f[j];
      }
    }
  }

  /** a is not in the header of the block h, if there is such a block. */
  predicate Untouched(a: int, h: int) { h == 0 || !(h <= a < h + HEADER) }

  /** t belongs into the sorted list f as its p-th element. */
  predicate Fits(t: int, f: seq<int>, p: nat) {
    && p <= |f| && Distinct(f) && t > 0 && t !in f
    && (forall m :: 0 <= m < p ==> f[m] < t) && (forall m :: p <= m < |f| ==> t < f[m])
  }

  /** The place before f[k]: an address of a block, or 0 for the head of the list. */
  function Before(f: seq<int>, k: nat): int
    requires k <= |f|
  {
    if k == 0 then 0 else f[k - 1]
  }

  /** Two memories agree on the bytes of the blocks in live. */
  ghost predicate Same(live: seq<Tile>, m: int -> bv8, m': int -> bv8) {
    forall z, a :: z in live && Within(z, a) ==> m'(a) == m(a)
  }

  ghost predicate Copied(m: int -> bv8, m': int -> bv8, dst: int, src: int, n: int) {
    && (forall a {:trigger m'(a)} :: dst <= a < dst + n ==> m'(a) == m(src + (a - dst)))
    && (forall a {:trigger m'(a)} :: !(dst <= a < dst + n) ==> m'(a) == m(a))
  }

  function WithBytes(m: int -> bv8, dst: int, src: int, n: int): (m': int -> bv8)
    ensures Copied(m, m', dst, src, n)
  {
    a => if dst <= a < dst + n then m(src + (a - dst)) else m(a)
  }

  /** What a block holds after it was moved from x to y, and the other blocks before and after. */
  lemma CarriedOver(before: seq<Tile>, after: seq<Tile>, x: Tile, y: Tile, m0: int -> bv8, m1: int -> bv8,
                    m2: int -> bv8, m3: int -> bv8)
    requires x in before && y !in before && x.size <= y.size
    requires Same(before, m0, m1) && Same(after, m2, m3)
    requires Copied(m1, m2, y.addr + HEADER, x.addr + HEADER, x.size)
    requires forall z, a :: z in before && Within(z, a) ==> !Within(y, a)
    requires forall z :: z in after <==> z == y || (z in before && z != x)
    ensures forall z, a :: z in before && z != x && Within(z, a) ==> m3(a) == m0(a)
    ensures forall a :: y.addr + HEADER <= a < y.addr + HEADER + x.size ==>
      m3(a) == m0(x.addr + HEADER + (a - (y.addr + HEADER)))
  {
    forall a | y.addr + HEADER <= a < y.addr + HEADER + x.size
      ensures m3(a) == m0(x.addr + HEADER + (a - (y.addr + HEADER)))
    {
      assert Within(y, a);
      assert Within(x, x.addr + HEADER + (a - (y.addr + HEADER)));
    }
    forall z, a | z in before && z != x && Within(z, a)
      ensures m3(a) == m0(a)
    {
      assert z in after && !Within(y, a);
      assert m3(a) == m2(a);
      var dst := y.addr + HEADER;
      assert !(dst <= a < dst + x.size);
      assert m2(a) == m1(a);
    }
  }

  class Heap {
    const base: int
    var brk: int

    /** The head of the list of free blocks, and the two words of every header. */
    var first: int
    var next: map<int, int>
    var size: map<int, int>

    /** All bytes. What the bytes of a header look like is left open. */
    var mem: int -> bv8

    ghost var tiles: seq<Tile>

    ghost predicate Linked(f: seq<int>)
      reads this`first, this`next
    {
      Chain(f, first, next)
    }

    ghost predicate Sound()
      reads this`brk, this`first, this`next, this`size, this`tiles
    {
      && 0 < base && base % 16 == 0 && brk < WORD && Tiled(tiles, base, brk)
      && Linked(FreeAddrs(tiles)) && Recorded(size, tiles)
    }

    ghost predicate Valid()
      reads this`brk, this`first, this`next, this`size, this`tiles
    {
      Sound() && Settled(tiles)
    }

    /** The bytes of the blocks in t that are in use. */
    twostate predicate Kept(t: seq<Tile>)
      reads this`mem
    {
      forall a :: Owns(t, a) ==> mem(a) == old(mem)(a)
    }

    constructor (base: int)
      requires 0 < base < WORD && base % 16 == 0
      ensures Valid() && brk == base == this.base && tiles == []
    {
      this.base, brk := base, base;
      first, next, size := 0, map[], map[];
      mem := a => 0;
      tiles := [];
    }

    method SetNext(h: int, v: int)
      modifies this`next, this`mem
      ensures next == old(next)[h := v]
      ensures forall a :: !(h <= a < h + HEADER) ==> mem(a) == old(mem)(a)
    {
      next := next[h := v];
      var was, junk: int -> bv8 := mem, *;
      mem := a => if h <= a < h + HEADER then junk(a) else was(a);
    }

    method SetSize(h: int, v: int)
      modifies this`size, this`mem
      ensures size == old(size)[h := v]
      ensures forall a :: !(h <= a < h + HEADER) ==> mem(a) == old(mem)(a)
    {
      size := size[h := v];
      var was, junk: int -> bv8 := mem, *;
      mem := a => if h <= a < h + HEADER then junk(a) else was(a);
    }

    /** Assigns through a pointer to a link. */
    method SetLink(prev: int, v: int)
      modifies this`first, this`next, this`mem
      ensures if prev == 0 then first == v && next == old(next) else first == old(first) && next == old(next)[prev := v]
      ensures forall a :: prev == 0 || !(prev <= a < prev + HEADER) ==> mem(a) == old(mem)(a)
    {
      if prev == 0 {
        first := v;
      } else {
        SetNext(prev, v);
      }
    }

    /** src/kernel/common/memory/vmem.c, lines 276-318, without the pages. It may also fail. */
    method Sbrk(diff: Word) returns (t: int)
      requires 0 < brk
      modifies this`brk
      ensures t == 0 ==> brk == old(brk)
      ensures t != 0 ==> t == old(brk) && brk == (old(brk) + Increment(diff)) % WORD
    {
      var fails: bool := *;
      if fails {
        return 0;
      }
      t := brk;
      brk := (brk + Increment(diff)) % WORD;
    }

    lemma Sorted()
      requires Sound()
      ensures Distinct(FreeAddrs(tiles))
    {
      FreeSorted(tiles, base, brk);
    }

    /** Where the k-th free block lies among all, and what is known about it. */
    lemma Kth(k: nat) returns (i: nat)
      requires Sound() && k < |FreeAddrs(tiles)|
      ensures i < |tiles| && tiles[i].free && tiles[i].addr == FreeAddrs(tiles)[k]
      ensures FreeAddrs(tiles[..i]) == FreeAddrs(tiles)[..k] && FreeAddrs(tiles[i + 1..]) == FreeAddrs(tiles)[k + 1..]
      ensures tiles[i].addr in size && size[tiles[i].addr] == tiles[i].size >= 0 && tiles[i].addr >= base
    {
      i := KthFree(tiles, k);
      Bounds(tiles, base, brk);
    }

    /** *fb = t->next, where t is the k-th block of the list f. */
    method Unlink(prev: int, t: int, ghost f: seq<int>, ghost k: nat)
      requires Linked(f) && Distinct(f) && k < |f| && t == f[k] && prev == Before(f, k)
      modifies this`first, this`next, this`mem
      ensures Linked(f[..k] + f[k + 1..])
      ensures forall a :: Untouched(a, prev) ==> mem(a) == old(mem)(a)
    {
      SetLink(prev, next[t]);
    }

    /** current->next = current->next->next, where current is the k-th block of the list f. */
    method Bypass(current: int, ghost f: seq<int>, ghost k: nat)
      requires Linked(f) && Distinct(f) && k + 1 < |f| && current == f[k]
      modifies this`next, this`mem
      ensures Linked(f[..k + 1] + f[k + 2..])
      ensures forall a :: !(current <= a < current + HEADER) ==> mem(a) == old(mem)(a)
    {
      SetNext(current, next[next[current]]);
    }

    /** h becomes the k-th block of the list f. */
    method Link(prev: int, h: int, ghost f: seq<int>, ghost k: nat)
      requires Linked(f) && Distinct(f) && k <= |f| && prev == Before(f, k) && h != 0 && h !in f
      modifies this`first, this`next, this`mem
      ensures Linked(f[..k] + [h] + f[k..])
      ensures forall a :: (prev == 0 || !(prev <= a < prev + HEADER)) && !(h <= a < h + HEADER) ==>
        mem(a) == old(mem)(a)
    {
      SetNext(h, if prev == 0 then first else next[prev]);
      SetLink(prev, h);
    }

    /** Nobody owns a byte of the header of a free block. */
    lemma HeaderIsNobodys(k: nat)
      requires Sound() && k < |FreeAddrs(tiles)|
      ensures forall a :: FreeAddrs(tiles)[k] <= a < FreeAddrs(tiles)[k] + HEADER ==> !Owns(tiles, a)
    {
      var i := Kth(k);
      forall a | FreeAddrs(tiles)[k] <= a < FreeAddrs(tiles)[k] + HEADER
        ensures !Owns(tiles, a)
      {
        Apart(tiles, base, brk, i, a);
      }
    }

    /** *fb = h, where h takes the place of t, the k-th block of the list f (lines 68-73). */
    method Replace(prev: int, t: int, h: int, rest: int, s: int, ghost f: seq<int>, ghost k: nat)
      requires Linked(f) && Distinct(f) && k < |f| && t == f[k] && prev == Before(f, k) && h != 0 && h !in f
      modifies this`first, this`next, this`size, this`mem
      ensures Linked(f[..k] + [h] + f[k + 1..]) && size == old(size)[h := rest][t := s]
      ensures forall a :: Untouched(a, prev) && Untouched(a, h) && !(t <= a < t + HEADER) ==> mem(a) == old(mem)(a)
    {
      hide Chain, Distinct, Before;
      ChainReplace(f, k, prev, t, h, first, next);
      SetLink(prev, h);
      SetSize(h, rest);
      SetNext(h, next[t]);
      SetSize(t, s);
    }

    /** Block k of the list is tile i. */
    ghost predicate Found(k: nat, i: nat)
      reads this`tiles
    {
      && k < |FreeAddrs(tiles)| && i < |tiles| && tiles[i].free && tiles[i].addr == FreeAddrs(tiles)[k]
      && FreeAddrs(tiles[..i]) == FreeAddrs(tiles)[..k] && FreeAddrs(tiles[i + 1..]) == FreeAddrs(tiles)[k + 1..]
    }

    /** What other tiles in the place of tile i mean for the list. */
    lemma Listing(k: nat, i: nat, x: seq<Tile>)
      requires Found(k, i)
      ensures FreeAddrs(tiles[..i] + x + tiles[i + 1..]) ==
        FreeAddrs(tiles)[..k] + FreeAddrs(x) + FreeAddrs(tiles)[k + 1..]
    {
      Around(tiles[..i], x, tiles[i + 1..]);
    }

    /** Nobody owns a byte of a free block. */
    lemma FreeIsNobodys(i: nat)
      requires Sound() && i < |tiles| && tiles[i].free
      ensures forall a :: tiles[i].addr <= a < tiles[i].End() ==> !Owns(tiles, a)
    {
      forall a | tiles[i].addr <= a < tiles[i].End()
        ensures !Owns(tiles, a)
      {
        Apart(tiles, base, brk, i, a);
      }
    }

    lemma LinkIsNobodys(k: nat)
      requires Sound() && k <= |FreeAddrs(tiles)|
      ensures var prev := Before(FreeAddrs(tiles), k);
              forall a :: prev != 0 && prev <= a < prev + HEADER ==> !Owns(tiles, a)
    {
      if k > 0 {
        HeaderIsNobodys(k - 1);
      }
    }

    lemma BeforeTakeWhole(prev: int, k: nat, i: nat) returns (f: seq<int>, after: seq<Tile>)
      requires Sound() && Found(k, i) && prev == Before(FreeAddrs(tiles), k)
      ensures f == FreeAddrs(tiles) && Linked(f) && Distinct(f) && k < |f|
      ensures after == tiles[..i] + [Tile(tiles[i].addr, tiles[i].size, false)] + tiles[i + 1..]
      ensures FreeAddrs(after) == f[..k] + f[k + 1..] && Recorded(size, after)
      ensures forall a :: Owns(tiles, a) ==> Untouched(a, prev)
    {
      var x := [Tile(tiles[i].addr, tiles[i].size, false)];
      f, after := FreeAddrs(tiles), tiles[..i] + x + tiles[i + 1..];
      Sorted();
      LinkIsNobodys(k);
      Listing(k, i, x);
      FreeOne(x[0]);
      assert f[..k] + [] + f[k + 1..] == f[..k] + f[k + 1..];
    }

    /** Lines 64-65: the block is unlinked and given away as it is. */
    method TakeWhole(prev: int, t: int, ghost k: nat, ghost i: nat)
      requires Sound() && Found(k, i) && t == FreeAddrs(tiles)[k] && prev == Before(FreeAddrs(tiles), k)
      modifies this`first, this`next, this`mem, this`tiles
      ensures Linked(FreeAddrs(tiles)) && Recorded(size, tiles) && Kept(old(tiles))
      ensures tiles == old(tiles[..i] + [Tile(tiles[i].addr, tiles[i].size, false)] + tiles[i + 1..])
    {
      hide FreeAddrs, Tiled, Owns, Recorded, Chain, Distinct, Before, Untouched;
      ghost var f, after := BeforeTakeWhole(prev, k, i);
      Unlink(prev, t, f, k);
      tiles := after;
    }

    lemma BeforeTakeHead(prev: int, s: int, k: nat, i: nat) returns (f: seq<int>, after: seq<Tile>, h: int)
      requires Sound() && Found(k, i) && prev == Before(FreeAddrs(tiles), k)
      requires 0 <= s && tiles[i].size - s >= 32
      ensures f == FreeAddrs(tiles) && Linked(f) && Distinct(f) && k < |f|
      ensures h == tiles[i].addr + HEADER + s && h != 0 && h !in f
      ensures after == tiles[..i] + Cut(tiles[i], s) + tiles[i + 1..] && FreeAddrs(after) == f[..k] + [h] + f[k + 1..]
      ensures tiles[i].addr in size && size[tiles[i].addr] == tiles[i].size
      ensures Recorded(size[h := tiles[i].size - s - HEADER][tiles[i].addr := s], after)
      ensures forall a :: Owns(tiles, a) ==>
        Untouched(a, prev) && Untouched(a, h) && !(tiles[i].addr <= a < tiles[i].addr + HEADER)
    {
      var x := Cut(tiles[i], s);
      f, after, h := FreeAddrs(tiles), tiles[..i] + x + tiles[i + 1..], tiles[i].addr + HEADER + s;
      hide FreeAddrs, Tiled, Owns;
      Sorted();
      LinkIsNobodys(k);
      FreeIsNobodys(i);
      Listing(k, i, x);
      NotListed(k, i, h);
      CutFree(tiles[i], s);
      RecordedCut(size, tiles, i, s, base, brk);
    }

    /** Lines 68-73: the head of the block is given away, and the rest takes its place in the list. */
    method TakeHead(prev: int, t: int, s: int, ghost k: nat, ghost i: nat)
      requires Sound() && Found(k, i) && t == FreeAddrs(tiles)[k] && prev == Before(FreeAddrs(tiles), k)
      requires 0 <= s && tiles[i].size - s >= 32
      modifies this`first, this`next, this`size, this`mem, this`tiles
      ensures Linked(FreeAddrs(tiles)) && Recorded(size, tiles) && Kept(old(tiles))
      ensures tiles == old(tiles[..i] + Cut(tiles[i], s) + tiles[i + 1..])
    {
      hide FreeAddrs, Tiled, Owns, Recorded, Chain, Distinct, Before, Untouched, Cut;
      ghost var f, after, h := BeforeTakeHead(prev, s, k, i);
      var osize := size[t];
      Replace(prev, t, t + s + 16, osize - s - 16, s, f, k);
      tiles := after;
    }

    lemma NotListed(k: nat, i: nat, h: int)
      requires Sound() && Found(k, i) && tiles[i].addr < h < tiles[i].End()
      ensures h > 0 && h !in FreeAddrs(tiles)
    {
      Bounds(tiles, base, brk);
      forall m | 0 <= m < |FreeAddrs(tiles)|
        ensures FreeAddrs(tiles)[m] != h
      {
        var j := Kth(m);
        Bounds(tiles, base, brk);
      }
    }

    method Take(prev: int, t: int, s: int, ghost k: nat, ghost i: nat)
      requires Valid() && Found(k, i) && t == FreeAddrs(tiles)[k] && prev == Before(FreeAddrs(tiles), k)
      requires 0 <= s <= tiles[i].size && s % 16 == 0
      modifies this`first, this`next, this`size, this`mem, this`tiles
      ensures Valid() && Kept(old(tiles)) && tiles == Carve(old(tiles), i, s)
    {
      CarveKeeps(tiles, i, s, base, brk);
      SizeOf(i);
      hide *;
      hide FreeAddrs, Linked, Recorded, Tiled, Settled, Found, Owns;
      if size[t] - s < 32 {
        TakeWhole(prev, t, k, i);
      } else {
        TakeHead(prev, t, s, k, i);
      }
    }

    lemma SizeOf(i: nat)
      requires Sound() && i < |tiles|
      ensures tiles[i].addr in size && size[tiles[i].addr] == tiles[i].size
    {
    }

    /** The list has been searched up to its k-th block, which is tile i, or has no more blocks. */
    lemma Searched(k: nat, need: int) returns (i: nat)
      requires Sound() && k <= |FreeAddrs(tiles)|
      requires forall m :: 0 <= m < k ==> FreeAddrs(tiles)[m] in size && size[FreeAddrs(tiles)[m]] < need
      ensures k == |FreeAddrs(tiles)| ==> FirstFit(tiles, need, |tiles|)
      ensures k < |FreeAddrs(tiles)| ==>
        Found(k, i) && tiles[i].addr in size && size[tiles[i].addr] == tiles[i].size >= 0
      ensures k < |FreeAddrs(tiles)| && tiles[i].size >= need ==> FirstFit(tiles, need, i)
    {
      i := |tiles|;
      if k < |FreeAddrs(tiles)| {
        i := Kth(k);
      }
      forall j | 0 <= j < i && tiles[j].free
        ensures tiles[j].size < need
      {
        assert tiles[j] in tiles[..i];
        FreeListed(tiles[..i], tiles[j]);
        assert tiles[..|tiles|] == tiles;
        var m :| 0 <= m < k && FreeAddrs(tiles)[m] == tiles[j].addr;
      }
    }

    /** Lines 49-82. */
    method TakeFirstFit(need: Word) returns (t: int, ghost i: nat)
      requires Valid() && need % 16 == 0
      modifies this`first, this`next, this`size, this`mem, this`tiles
      ensures Valid() && FirstFit(old(tiles), need, i) && Kept(old(tiles))
      ensures i < |old(tiles)| ==> tiles == Carve(old(tiles), i, need) && t == old(tiles)[i].addr && t > 0
      ensures i == |old(tiles)| ==> tiles == old(tiles) && t == 0
    {
      ghost var f, k := FreeAddrs(tiles), 0;
      var prev := 0;
      t := first;
      Sorted();
      Bounds(tiles, base, brk);
      hide Tiled, Settled, FreeAddrs, Recorded, Owns, Found, FirstFit;
      while t != 0
        invariant unchanged(this) && k <= |f| && t == At(f, k) && prev == Before(f, k)
        invariant forall m :: 0 <= m < k ==> f[m] in size && size[f[m]] < need
        decreases |f| - k
      {
        i := Searched(k, need);
        if size[t] >= need {
          Take(prev, t, need, k, i);
          return;
        }
        prev, t := t, next[t];
        k := k + 1;
      }
      i := Searched(k, need);
      i := |tiles|;
    }

    /** What a new block at the end of the heap means. */
    lemma Grown(t: seq<Tile>, x: Tile, lo: int, hi: int, brk: int)
      requires Tiled(t, lo, hi) && x.addr == hi && x.size >= 0 && x.size % 16 == 0 && !x.free
      ensures Tiled(t + [x], lo, brk) <==> brk == x.End()
      ensures FreeAddrs(t + [x]) == FreeAddrs(t) && (Settled(t) ==> Settled(t + [x]))
      ensures forall a :: hi <= a ==> !Owns(t, a)
      ensures forall i :: 0 <= i < |t| ==> t[i].addr < hi
    {
      EndInside(t, lo, hi);
      TiledConcat(t, [x], lo, brk);
      assert [x][1..] == [];
      FreeConcat(t, [x]);
      FreeOne(x);
      Bounds(t, lo, hi);
      forall a | hi <= a
        ensures !Owns(t, a)
      {
        forall y | y in Live(t) ensures y.End() <= a { LiveIsTile(t, y); }
      }
    }

    /** Lines 86-90. The layout survives if and only if the addresses do not wrap around. */
    method Grow(need: Word) returns (t: int)
      requires Valid() && need % 16 == 0
      modifies this`brk, this`size, this`mem, this`tiles
      ensures Kept(old(tiles))
      ensures t == 0 ==> Valid() && tiles == old(tiles)
      ensures t != 0 ==> t == old(brk) && tiles == old(tiles) + [Tile(t, need, false)] && (Valid() <==> Grows(t, need))
    {
      hide Tiled, Settled, FreeAddrs, Owns, Increment;
      Bounds(tiles, base, brk);
      GrowsExactly(brk, need);
      t := Sbrk((need + 16) % WORD);
      if t == 0 {
        return;
      }
      Grown(tiles, Tile(t, need, false), base, t, brk);
      SetSize(t, need);
      tiles := tiles + [Tile(t, need, false)];
    }

    /** malloc. It fails, with the program being aborted, only if there is no block left that is large
        enough and sbrk fails. */
    method Malloc(sz: Word) returns (r: int, aborted: bool, grew: bool, ghost i: nat)
      requires Valid()
      modifies this`brk, this`first, this`next, this`size, this`mem, this`tiles
      ensures Kept(old(tiles)) && FirstFit(old(tiles), Rounded(sz), i) && (grew <==> i == |old(tiles)|)
      ensures aborted ==> Valid() && grew && tiles == old(tiles)
      ensures !grew ==> Valid() && tiles == Carve(old(tiles), i, Rounded(sz)) && brk == old(brk)
      ensures !grew ==> r == old(tiles)[i].addr + HEADER
      ensures !aborted && grew ==> tiles == old(tiles) + [Tile(old(brk), Rounded(sz), false)]
      ensures !aborted && grew ==> (Valid() <==> Grows(old(brk), Rounded(sz)))
      ensures !aborted && grew ==> r == (old(brk) + HEADER) % WORD
    {
      RoundedIsEnough(sz);
      var need := if sz == 0 then 1 else sz;
      if need % 16 != 0 {
        need := (need + 15) % WORD / 16 * 16;
      }
      assert need == Rounded(sz);
      var t;
      t, i := TakeFirstFit(need);
      if t != 0 {
        return t + 16, false, false, i;
      }
      t := Grow(need);
      r, aborted, grew := (t + 16) % WORD, t == 0, true;
    }

    // ----- giving back -----

    /** The list around the free tile c between a and b. */
    lemma InList(a: seq<Tile>, c: Tile, b: seq<Tile>)
      requires Sound() && tiles == a + [c] + b && c.free
      ensures FreeAddrs(tiles) == FreeAddrs(a) + [c.addr] + FreeAddrs(b)
      ensures c.addr in next && next[c.addr] == At(FreeAddrs(b), 0)
      ensures c.addr in size && size[c.addr] == c.size >= 0
      ensures forall x :: c.addr <= x < c.addr + HEADER ==> !Owns(tiles, x)
    {
      Around(a, [c], b);
      FreeOne(c);
      var f, k, i := FreeAddrs(tiles), |FreeAddrs(a)|, |a|;
      assert f[k] == c.addr && tiles[i] == c;
      assert next[f[k]] == At(f, k + 1);
      FreeIsNobodys(i);
      Bounds(tiles, base, brk);
    }

    lemma BeforeSwallow(a: seq<Tile>, c: Tile, d: Tile, b: seq<Tile>)
      requires Sound() && tiles == a + [c] + [d] + b && c.free && d.free
      ensures var f, k, u := FreeAddrs(tiles), |FreeAddrs(a)|, a + [Merged(c, d)] + b;
              && Linked(f) && Distinct(f) && k + 1 < |f| && f[k] == c.addr
              && FreeAddrs(u) == f[..k + 1] + f[k + 2..]
              && c.addr in next && next[c.addr] == d.addr && c.addr in size && d.addr in size
              && Tiled(u, base, brk) && Recorded(size[c.addr := size[c.addr] + (size[d.addr] + 16)], u)
      ensures forall x :: c.addr <= x < c.addr + HEADER ==> !Owns(tiles, x)
    {
      hide Join, Live, Tiled, FreeAddrs, Owns, Recorded;
      Sorted();
      Merging(a, c, d, b, base, brk);
      assert tiles == a + [c] + ([d] + b);
      InList(a, c, [d] + b);
      var f, k := FreeAddrs(tiles), |FreeAddrs(a)|;
      assert f[k] == c.addr && f[k + 1] == d.addr;
      assert f[..k + 1] + f[k + 2..] == FreeAddrs(a) + [c.addr] + FreeAddrs(b);
      assert next[f[k]] == At(f, k + 1);
      RecordedMerge(size, a, c, d, b, base, brk);
    }

    /** current swallows its right neighbour (lines 54-55). */
    method Swallow(current: int, ghost a: seq<Tile>, ghost c: Tile, ghost d: Tile, ghost b: seq<Tile>)
      requires Sound() && tiles == a + [c] + [d] + b && c.free && d.free && current == c.addr
      modifies this`next, this`size, this`mem, this`tiles
      ensures Sound() && tiles == a + [Merged(c, d)] + b && Kept(old(tiles))
    {
      hide FreeAddrs, Tiled, Owns, Recorded, Chain, Distinct, Merged;
      BeforeSwallow(a, c, d, b);
      ghost var f, k := FreeAddrs(tiles), |FreeAddrs(a)|;
      SetSize(current, size[current] + (size[next[current]] + 16));
      Bypass(current, f, k);
      tiles := a + [Merged(c, d)] + b;
    }

    /** The next free tile after c, if there is one, is its neighbour or further up. */
    lemma After(a: seq<Tile>, c: Tile, b: seq<Tile>) returns (i: nat)
      requires Sound() && tiles == a + [c] + b && c.free
      ensures c.addr in next && c.addr in size && size[c.addr] == c.size
      ensures next[c.addr] == 0 ==> FreeAddrs(b) == []
      ensures next[c.addr] != 0 ==> i < |b| && b[i].free && b[i].addr == next[c.addr] && FreeAddrs(b[..i]) == []
      ensures next[c.addr] != 0 ==>
        b == b[..i] + [b[i]] + b[i + 1..] && c.End() <= next[c.addr] && (c.End() == next[c.addr] <==> i == 0)
    {
      hide Live, Tiled, FreeAddrs, Owns, Recorded, Linked;
      InList(a, c, b);
      FreeSorted(tiles, base, brk);
      assert forall m :: 0 <= m < |FreeAddrs(b)| ==> FreeAddrs(b)[m] == FreeAddrs(tiles)[|FreeAddrs(a)| + 1 + m];
      i := 0;
      if next[c.addr] != 0 {
        i := KthFree(b, 0);
        Beyond(a, c, b, i);
      }
    }

    lemma Beyond(a: seq<Tile>, c: Tile, b: seq<Tile>, i: nat)
      requires Tiled(tiles, base, brk) && tiles == a + [c] + b && i < |b|
      ensures c.End() <= b[i].addr && (c.End() == b[i].addr <==> i == 0)
    {
      hide Tiled;
      Bounds(tiles, base, brk);
      Neighbours(tiles, |a|, base, brk);
      assert tiles[|a|] == c && tiles[|a| + 1] == b[0] && tiles[|a| + 1 + i] == b[i];
    }

    lemma {:induction false} Neighbours(t: seq<Tile>, i: nat, lo: int, hi: int)
      requires Tiled(t, lo, hi) && i + 1 < |t|
      ensures t[i].End() == t[i + 1].addr
    {
      if i > 0 {
        Neighbours(t[1..], i - 1, t[0].End(), hi);
      } else {
        assert t[1..][0] == t[1];
      }
    }

    /** What the loop of join_memory keeps: everything up to the tile c is done. */
    ghost predicate Joining(start: seq<Tile>, a: seq<Tile>, c: Tile, b: seq<Tile>)
      reads this`tiles
    {
      && tiles == a + [c] + b && c.free
      && Join(start) == a + Join([c] + b) && Live(tiles) == Live(start)
    }

    lemma MergedOn(start: seq<Tile>, a: seq<Tile>, c: Tile, d: Tile, b: seq<Tile>)
      requires Sound() && Joining(start, a, c, [d] + b) && d.free
      ensures tiles == a + [c] + [d] + b && Live(a + [Merged(c, d)] + b) == Live(start)
      ensures Join(start) == a + Join([Merged(c, d)] + b)
    {
      assert tiles == a + [c] + [d] + b;
      assert [c] + ([d] + b) == [c] + [d] + b;
      Merging(a, c, d, b, base, brk);
    }

    lemma Regroup(a: seq<Tile>, c: seq<Tile>, s: seq<Tile>, d: seq<Tile>, b: seq<Tile>, x: seq<Tile>)
      ensures c + (s + d + b) == c + s + (d + b)
      ensures a + (c + s + x) == (a + c + s) + x
      ensures a + c + (s + d + b) == (a + c + s) + d + b
    {
    }

    lemma MovedOn(start: seq<Tile>, a: seq<Tile>, c: Tile, s: seq<Tile>, d: Tile, b: seq<Tile>)
      requires Joining(start, a, c, s + [d] + b) && d.free && FreeAddrs(s) == [] && s != []
      ensures Joining(start, a + [c] + s, d, b)
    {
      hide Join, Live, FreeAddrs;
      Regroup(a, [c], s, [d], b, Join([d] + b));
      JoinPasses(c, s, [d] + b);
    }

    /** One round of lines 47-59. */
    method JoinStep(current: int, ghost start: seq<Tile>, ghost a: seq<Tile>, ghost c: Tile, ghost b: seq<Tile>)
      returns (following: int, trap: bool, ghost a': seq<Tile>, ghost c': Tile, ghost b': seq<Tile>)
      requires Sound() && Joining(start, a, c, b) && current == c.addr
      requires current in next && next[current] != 0
      modifies this`next, this`size, this`mem, this`tiles
      ensures Sound() && Joining(start, a', c', b') && following == c'.addr && |b'| < |b| && !trap
      ensures Kept(old(tiles))
    {
      ghost var i := After(a, c, b);
      hide Join, Live, FreeAddrs, Tiled, Recorded, Linked, Owns;
      trap := current + size[current] + 16 > next[current];
      if current + size[current] + 16 == next[current] {
        ghost var d := b[0];
        a', c', b' := a, Merged(c, d), b[1..];
        assert b == [d] + b';
        MergedOn(start, a, c, d, b');
        Swallow(current, a, c, d, b');
        following := current;
      } else {
        a', c', b' := a + [c] + b[..i], b[i], b[i + 1..];
        MovedOn(start, a, c, b[..i], c', b');
        following := next[current];
      }
    }

    /** The first free tile, before join_memory has done anything. */
    lemma JoinStart(i: nat)
      requires Sound() && Found(0, i)
      ensures Joining(tiles, tiles[..i], tiles[i], tiles[i + 1..])
    {
      var a, c, b := tiles[..i], tiles[i], tiles[i + 1..];
      assert tiles == a + ([c] + b) == a + [c] + b;
      JoinSkips(a, [c] + b);
    }

    lemma JoinEnd(start: seq<Tile>, a: seq<Tile>, c: Tile, b: seq<Tile>)
      requires Joining(start, a, c, b) && FreeAddrs(b) == []
      ensures tiles == Join(start)
    {
      hide Join, Live, FreeAddrs;
      Regroup(a, [c], b, [], [], []);
      JoinPasses(c, b, []);
      JoinOfNothing();
      assert [c] + b + [] == [c] + b;
      assert a + ([c] + b) == tiles;
    }

    lemma JoinOfNothing()
      ensures Join([]) == []
    {
    }

    /** join_memory. Nothing ever overlaps, so that the trap in line 50 is never reached. */
    method JoinMemory() returns (trap: bool)
      requires Sound()
      modifies this`next, this`size, this`mem, this`tiles
      ensures Sound() && tiles == Join(old(tiles)) && Kept(old(tiles)) && !trap
    {
      trap := false;
      ghost var start, was := tiles, mem;
      var current := first;
      if current == 0 {
        JoinNothing();
        return;
      }
      ghost var i := Kth(0);
      JoinStart(i);
      ghost var a, c, b := tiles[..i], tiles[i], tiles[i + 1..];
      assert current == c.addr;
      hide Join, Live, FreeAddrs, Tiled, Recorded, Linked;
      i := After(a, c, b);
      while next[current] != 0
        invariant Sound() && Joining(start, a, c, b) && current == c.addr && current in next && !trap
        invariant forall x :: Owns(start, x) ==> mem(x) == was(x)
        decreases |b|
      {
        var overlap;
        current, overlap, a, c, b := JoinStep(current, start, a, c, b);
        trap := trap || overlap;
        i := After(a, c, b);
      }
      i := After(a, c, b);
      JoinEnd(start, a, c, b);
    }

    lemma JoinNothing()
      requires Sound() && first == 0
      ensures Join(tiles) == tiles
    {
      FreeSorted(tiles, base, brk);
      assert FreeAddrs(tiles) == [];
      JoinSkips(tiles, []);
      assert tiles + [] == tiles;
    }

    /** Before tile i the list has lower addresses, behind it higher ones. */
    lemma Ordered(i: nat) returns (below: seq<int>, above: seq<int>)
      requires Sound() && i < |tiles| && !tiles[i].free
      ensures FreeAddrs(tiles) == below + above && below == FreeAddrs(tiles[..i]) && above == FreeAddrs(tiles[i + 1..])
      ensures forall m :: 0 <= m < |below| ==> below[m] < tiles[i].addr
      ensures forall m :: 0 <= m < |above| ==> tiles[i].addr < above[m]
    {
      var a, b := tiles[..i], tiles[i + 1..];
      assert tiles == a + [tiles[i]] + b;
      Around(a, [tiles[i]], b);
      FreeOne(tiles[i]);
      Bounds(tiles, base, brk);
      below, above := FreeAddrs(a), FreeAddrs(b);
      forall m | 0 <= m < |below|
        ensures below[m] < tiles[i].addr
      {
        FreeInTiles(a, m);
      }
      forall m | 0 <= m < |above|
        ensures tiles[i].addr < above[m]
      {
        FreeInTiles(b, m);
      }
    }

    /** Where in the list a block in use will have its place. */
    lemma PlaceOf(i: nat)
      requires Sound() && i < |tiles| && !tiles[i].free
      ensures var f, p, t := FreeAddrs(tiles), |FreeAddrs(tiles[..i])|, tiles[i].addr;
              p <= |f| && Fits(t, f, p) && FreeAddrs(Freed(tiles, i)) == f[..p] + [t] + f[p..]
    {
      var below, above := Ordered(i);
      var x := Tile(tiles[i].addr, tiles[i].size, true);
      Around(tiles[..i], [x], tiles[i + 1..]);
      FreeOne(x);
      Sorted();
      Bounds(tiles, base, brk);
    }

    /** Giving a block back gives nobody a byte. */
    lemma GivenBack(i: nat)
      requires Sound() && i < |tiles| && !tiles[i].free
      ensures Recorded(size, Freed(tiles, i)) && Tiled(Freed(tiles, i), base, brk)
      ensures forall a :: Owns(Freed(tiles, i), a) ==> Owns(tiles, a)
    {
      FreedKeeps(tiles, i, base, brk);
    }

    /** The headers that are written to are nobody's. */
    lemma HeadersApart(i: nat, prev: int)
      requires Sound() && i < |tiles| && !tiles[i].free
      requires |FreeAddrs(tiles[..i])| <= |FreeAddrs(tiles)| &&
        prev == Before(FreeAddrs(tiles), |FreeAddrs(tiles[..i])|)
      ensures forall a :: tiles[i].addr <= a < tiles[i].addr + HEADER ==> !Owns(tiles, a)
      ensures forall a :: prev != 0 && prev <= a < prev + HEADER ==> !Owns(tiles, a)
    {
      LinkIsNobodys(|FreeAddrs(tiles[..i])|);
      forall y | tiles[i].addr <= y < tiles[i].addr + HEADER
        ensures !Owns(tiles, y)
      {
        Apart(tiles, base, brk, i, y);
      }
    }

    /** Lines 72-84, as far as the list is concerned. */
    method Place(t: int, ghost f: seq<int>, ghost p: nat, ghost g: seq<int>) returns (trap: bool)
      requires Linked(f) && Fits(t, f, p) && g == f[..p] + [t] + f[p..]
      modifies this`first, this`next, this`mem
      ensures Linked(g) && !trap
      ensures forall a :: Untouched(a, Before(f, p)) && Untouched(a, t) ==> mem(a) == old(mem)(a)
    {
      ghost var k := 0;
      var pred, cur := 0, first;
      while cur < t && cur != 0
        invariant k <= p && cur == At(f, k) && pred == Before(f, k)
        decreases p - k
      {
        pred, cur := cur, next[cur];
        k := k + 1;
      }
      trap := cur == t;
      hide Linked;
      Link(pred, t, f, p);
    }

    /** Everything there is to know before the block is linked in as the p-th element of f. */
    lemma BeforeInsert(i: nat) returns (f: seq<int>, p: nat, g: seq<int>, after: seq<Tile>)
      requires Sound() && i < |tiles| && !tiles[i].free
      ensures Linked(f) && Fits(tiles[i].addr, f, p) && g == f[..p] + [tiles[i].addr] + f[p..]
      ensures after == Freed(tiles, i) && g == FreeAddrs(after) && Recorded(size, after) && Tiled(after, base, brk)
      ensures forall a :: Owns(after, a) ==> Untouched(a, Before(f, p)) && Untouched(a, tiles[i].addr)
    {
      f, p, after := FreeAddrs(tiles), |FreeAddrs(tiles[..i])|, Freed(tiles, i);
      PlaceOf(i);
      GivenBack(i);
      HeadersApart(i, Before(f, p));
      g := FreeAddrs(after);
    }

    /** Lines 72-84: the block goes back to its place in the list. */
    method Insert(t: int, ghost i: nat) returns (trap: bool)
      requires Sound() && i < |tiles| && !tiles[i].free && t == tiles[i].addr
      modifies this`first, this`next, this`mem, this`tiles
      ensures Sound() && tiles == Freed(old(tiles), i) && Kept(tiles) && !trap
    {
      hide FreeAddrs, Tiled, Settled, Owns, Freed, Linked, Live, Recorded, Join, Fits, Before, At, Distinct;
      ghost var f, p, g, after := BeforeInsert(i);
      trap := Place(t, f, p, g);
      tiles := after;
    }

    /** free. A block in use becomes free and is merged with its neighbours. */
    method Free(ptr: int, ghost i: nat) returns (trap: bool)
      requires Valid()
      requires ptr != 0 ==> i < |tiles| && !tiles[i].free && ptr == tiles[i].addr + HEADER
      modifies this`first, this`next, this`size, this`mem, this`tiles
      ensures Valid() && !trap && Kept(tiles)
      ensures tiles == if ptr == 0 then old(tiles) else Join(Freed(old(tiles), i))
    {
      if ptr == 0 {
        return false;
      }
      FreedKeeps(tiles, i, base, brk);
      ghost var after := Freed(tiles, i);
      hide Tiled, Recorded, Linked, Live, FreeAddrs, Join;
      trap := Insert(ptr - 16, i);
      var overlap := JoinMemory();
      trap := trap || overlap;
    }

    // ----- moving -----

    /** The block that malloc made: the only one in use that was not in use before. */
    lemma NewBlock(t: seq<Tile>, u: seq<Tile>, i: nat, need: Word, lo: int, hi: int) returns (y: Tile)
      requires Tiled(t, lo, hi) && Settled(t) && FirstFit(t, need, i) && need % 16 == 0
      requires u == if i < |t| then Carve(t, i, need) else t + [Tile(hi, need, false)]
      ensures y.addr == (if i < |t| then t[i].addr else hi) && need <= y.size < need + 32 && y !in Live(t)
      ensures forall z :: z in Live(u) <==> z == y || z in Live(t)
    {
      Bounds(t, lo, hi);
      if i < |t| {
        y := Cut(t[i], need)[0];
        CarveKeeps(t, i, need, lo, hi);
      } else {
        y := Tile(hi, need, false);
        LiveConcat(t, [y]);
        LiveOne(y);
      }
      LiveIsTile(t, y);
    }

    /** memcpy between two blocks in use. */
    method CopyBytes(dst: int, src: int, n: int)
      modifies this`mem
      ensures Copied(old(mem), mem, dst, src, n)
    {
      mem := WithBytes(mem, dst, src, n);
    }

    /** The block x in use that starts at ptr becomes free. */
    method FreeBlock(ptr: int, ghost x: Tile) returns (trap: bool)
      requires Valid() && x in Live(tiles) && ptr == x.addr + HEADER
      modifies this`first, this`next, this`size, this`mem, this`tiles
      ensures Valid() && !trap && Kept(tiles)
      ensures forall z :: z in Live(tiles) <==> z in old(Live(tiles)) && z != x
    {
      LiveIsTile(tiles, x);
      ghost var i :| 0 <= i < |tiles| && tiles[i] == x;
      Gone(i);
      hide Live, Tiled, Linked, Recorded, FreeAddrs, Join, Settled;
      trap := Free(ptr, i);
    }

    lemma Gone(i: nat)
      requires Sound() && i < |tiles| && !tiles[i].free
      ensures tiles[i].addr > 0
      ensures forall z :: z in Live(Join(Freed(tiles, i))) <==> z in Live(tiles) && z != tiles[i]
    {
      FreedKeeps(tiles, i, base, brk);
      Bounds(tiles, base, brk);
      forall z
        ensures z in Live(Join(Freed(tiles, i))) <==> z in Live(tiles) && z != tiles[i]
      {
        LiveIsTile(tiles[..i], tiles[i]);
        LiveIsTile(tiles[i + 1..], tiles[i]);
        assert z in Live(tiles[..i]) || z in Live(tiles[i + 1..]) <==> z in Live(tiles[..i]) + Live(tiles[i + 1..]);
      }
    }

    /** Whether malloc(sz) keeps its promises if it does not fail: the size itself can be rounded up, and
        a block at the end of the heap would not wrap around. */
    ghost predicate Serves(sz: Word)
      reads this`tiles, this`brk
    {
      sz <= 0xFFFF_FFF0 && (Grows(brk, Rounded(sz)) || !FirstFit(tiles, Rounded(sz), |tiles|))
    }

    /** malloc as its callers see it: one more block in use, and nothing else changes. The block is large
        enough and the heap is sound exactly under the condition above, which nobody checks. */
    method Allocate(sz: Word) returns (r: int, aborted: bool, served: bool, ghost y: Tile)
      requires Valid()
      modifies this`brk, this`first, this`next, this`size, this`mem, this`tiles
      ensures Kept(old(tiles))
      ensures aborted ==> Valid() && tiles == old(tiles)
      ensures !aborted ==> y !in old(Live(tiles)) && forall z :: z in Live(tiles) <==> z == y || z in old(Live(tiles))
      ensures !aborted ==> (served <==> old(Serves(sz))) && (served <==> Valid() && y.size >= sz)
      ensures !aborted && served ==> r == y.addr + HEADER && sz <= y.size < sz + 48
    {
      hide Live, Tiled, Linked, Recorded, FreeAddrs, Settled, Rounded, Carve;
      RoundedIsEnough(sz);
      ghost var t, hi := tiles, brk;
      Bounds(tiles, base, brk);
      var end, grew := brk, false;
      ghost var i;
      r, aborted, grew, i := Malloc(sz);
      served := sz <= 0xFFFF_FFF0 && (!grew || Grows(end, Rounded(sz)));
      y := Tile(0, 0, false);
      if !aborted {
        y := NewBlock(t, tiles, i, Rounded(sz), base, hi);
      }
    }

    /** Bytes of other blocks, and the first n bytes that were at src and are now at dst. */
    twostate predicate Carried(x: Tile, src: int, dst: int, n: int)
      reads this`mem, this`tiles
    {
      && (forall z, a :: z in old(Live(tiles)) && z != x && Within(z, a) ==> mem(a) == old(mem)(a))
      && (forall a :: dst <= a < dst + n ==> mem(a) == old(mem)(src + (a - dst)))
    }

    lemma Disjoint(y: Tile)
      requires Sound() && y in Live(tiles)
      ensures forall z, a :: z in Live(tiles) && z != y && Within(z, a) ==> !Within(y, a)
    {
      forall z, a | z in Live(tiles) && z != y && Within(z, a)
        ensures !Within(y, a)
      {
        if Within(y, a) {
          PayloadsApart(tiles, base, brk, y, z, a);
        }
      }
    }

    /** Lines 48-55 of realloc.c. If malloc could not serve the size, the C code copies all the same; the
        model stops there. */
    method Move(ptr: int, size: Word, osize: int, ghost x: Tile)
      returns (r: int, aborted: bool, served: bool, trap: bool, ghost y: Tile)
      requires Valid() && x in Live(tiles) && ptr == x.addr + HEADER && osize == x.size < size
      modifies this`brk, this`first, this`next, this`size, this`mem, this`tiles
      ensures !trap && (aborted ==> Valid() && tiles == old(tiles) && Kept(old(tiles)))
      ensures !aborted ==> (served <==> old(Serves(size)))
      ensures !aborted && !served ==> Kept(old(tiles)) && (!Valid() || y.size < size)
      ensures !aborted && served ==> Valid() && r == y.addr + HEADER && y.size >= size && y !in old(Live(tiles))
      ensures !aborted && served ==> forall z :: z in Live(tiles) <==> z == y || (z in old(Live(tiles)) && z != x)
      ensures !aborted && served ==> Carried(x, ptr, r, osize)
    {
      trap := false;
      hide Live, Tiled, Linked, Recorded, FreeAddrs, Settled, Serves;
      ghost var before, live := mem, Live(tiles);
      r, aborted, served, y := Allocate(size);
      if !aborted && served {
        ghost var enlarged := mem;
        Disjoint(y);
        assert Same(live, before, enlarged);
        CopyBytes(r, ptr, osize);
        ghost var copied := mem;
        trap := FreeBlock(ptr, x);
        assert Same(Live(tiles), copied, mem);
        CarriedOver(live, Live(tiles), x, y, before, enlarged, copied, mem);
      }
    }

    /** realloc. The contents are kept as far as they go; size 0 gives the block back; a block that is
        already large enough stays where it is. All this holds unless a new block is needed for a size that
        malloc cannot serve. */
    method Realloc(ptr: int, size: Word, ghost x: Tile)
      returns (r: int, aborted: bool, served: bool, trap: bool, ghost y: Tile)
      requires Valid() && (ptr != 0 ==> x in Live(tiles) && ptr == x.addr + HEADER)
      modifies this`brk, this`first, this`next, this`size, this`mem, this`tiles
      ensures !trap && (aborted ==> Valid() && tiles == old(tiles) && Kept(old(tiles)))
      ensures !aborted ==> (served <==> (ptr != 0 && size <= x.size) || old(Serves(size)))
      ensures !aborted && !served ==> Kept(old(tiles)) && (!Valid() || y.size < size)
      ensures !aborted && served && ptr == 0 ==> Valid() && r == y.addr + HEADER && y.size >= size && Kept(old(tiles))
      ensures !aborted && served && ptr == 0 ==>
        y !in old(Live(tiles)) && forall z :: z in Live(tiles) <==> z == y || z in old(Live(tiles))
      ensures ptr != 0 && size == 0 ==> r == 0 && !aborted && Valid() && Kept(tiles)
      ensures ptr != 0 && size == 0 ==> forall z :: z in Live(tiles) <==> z in old(Live(tiles)) && z != x
      ensures ptr != 0 && 0 < size <= x.size ==> r == ptr && !aborted && unchanged(this)
      ensures !aborted && served && ptr != 0 && x.size < size ==>
        Valid() && r == y.addr + HEADER && y.size >= size && Carried(x, ptr, r, x.size)
      ensures !aborted && served && ptr != 0 && x.size < size ==>
        y !in old(Live(tiles)) && forall z :: z in Live(tiles) <==> z == y || (z in old(Live(tiles)) && z != x)
    {
      hide Live, Tiled, Linked, FreeAddrs, Settled, Serves, Owns;
      trap := false;
      if ptr == 0 {
        r, aborted, served, y := Allocate(size);
        return;
      }
      y := x;
      LiveSize(x);
      if size == 0 {
        trap := FreeBlock(ptr, x);
        return 0, false, true, trap, x;
      }
      var osize := this.size[ptr - 16];
      if osize >= size {
        return ptr, false, true, false, x;
      }
      r, aborted, served, trap, y := Move(ptr, size, osize, x);
    }

    lemma LiveSize(x: Tile)
      requires Sound() && x in Live(tiles)
      ensures x.addr in size && size[x.addr] == x.size
      ensures x.size >= 0
    {
      LiveIsTile(tiles, x);
      Bounds(tiles, base, brk);
    }

    /** Once every block has been given back, the heap is a single free block again. */
    lemma UniformAgain()
      requires Valid() && Live(tiles) == []
      ensures brk > base ==> tiles == [Tile(base, brk - base - HEADER, true)] && first == base
      ensures brk == base ==> tiles == [] && first == 0
    {
      AllFree(tiles, base, brk);
      Bounds(tiles, base, brk);
      assert brk > base ==> FreeAddrs(tiles) == [base];
    }

    /** What malloc returns is aligned to sixteen bytes, and so is everything else. */
    lemma AlignedBlocks(x: Tile)
      requires Sound() && x in Live(tiles)
      ensures (x.addr + HEADER) % 16 == 0 && x.size % 16 == 0 && x.addr + HEADER > 0 && x.End() <= brk
    {
      Aligned(tiles, base, brk);
      Bounds(tiles, base, brk);
      LiveIsTile(tiles, x);
    }
  }

  /** An empty heap that is asked for 0xFFFFFFF0 bytes is not sound any more. */
  method HeapLost() returns (heap: Heap, aborted: bool)
    ensures !aborted ==> !heap.Valid()
  {
    heap := new Heap(16);
    var r, grew;
    ghost var i;
    LargestSize(16);
    hide Increment, Rounded;
    r, aborted, grew, i := heap.Malloc(0xFFFF_FFF0);
  }
}
