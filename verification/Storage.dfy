// Byte streams over block devices (src/lib/common/cdi/storage.c).

// Blocks laid end to end.
module BlockBytes {
  type Byte = bv8

  predicate Uniform(blocks: seq<seq<Byte>>, size: nat) {
    forall i :: 0 <= i < |blocks| ==> |blocks[i]| == size
  }

  function Flat(blocks: seq<seq<Byte>>): seq<Byte> {
    if blocks == [] then [] else blocks[0] + Flat(blocks[1..])
  }

  lemma {:induction false} FlatLength(blocks: seq<seq<Byte>>, size: nat)
    requires Uniform(blocks, size)
    ensures |Flat(blocks)| == |blocks| * size
  {
    if blocks != [] {
      FlatLength(blocks[1..], size);
      assert |blocks| * size == size + (|blocks| - 1) * size;
    }
  }

  lemma {:induction false} FlatConcat(s: seq<seq<Byte>>, t: seq<seq<Byte>>)
    ensures Flat(s + t) == Flat(s) + Flat(t)
  {
    if s == [] {
      assert s + t == t;
    } else {
      assert (s + t)[1..] == s[1..] + t;
      FlatConcat(s[1..], t);
    }
  }

  /** The blocks from i up to j are the bytes from i * size up to j * size. */
  lemma FlatSlice(blocks: seq<seq<Byte>>, size: nat, i: nat, j: nat)
    requires Uniform(blocks, size) && i <= j <= |blocks|
    ensures i * size <= j * size <= |Flat(blocks)| == |blocks| * size
    ensures Flat(blocks[i..j]) == Flat(blocks)[i * size..j * size] && |Flat(blocks[i..j])| == (j - i) * size
    ensures Flat(blocks) == Flat(blocks[..i]) + Flat(blocks[i..j]) + Flat(blocks[j..])
    ensures Flat(blocks[..i]) == Flat(blocks)[..i * size] && Flat(blocks[j..]) == Flat(blocks)[j * size..]
  {
    assert blocks == blocks[..i] + blocks[i..j] + blocks[j..];
    FlatConcat(blocks[..i] + blocks[i..j], blocks[j..]);
    FlatConcat(blocks[..i], blocks[i..j]);
    FlatLength(blocks, size);
    FlatLength(blocks[..i], size);
    FlatLength(blocks[i..j], size);
    FlatLength(blocks[j..], size);
    assert (j - i) * size == j * size - i * size;
    assert (|blocks| - j) * size == |blocks| * size - j * size;
  }

  /** Cuts a buffer into blocks. */
  function Blocks(bytes: seq<Byte>, size: nat, count: nat): (blocks: seq<seq<Byte>>)
    requires |bytes| == count * size
    ensures |blocks| == count && Uniform(blocks, size)
    decreases count
  {
    if count == 0 then [] else
      assert count * size == size + (count - 1) * size;
      [bytes[..size]] + Blocks(bytes[size..], size, count - 1)
  }

  lemma {:induction false} FlatOfBlocks(bytes: seq<Byte>, size: nat, count: nat)
    requires |bytes| == count * size
    ensures Flat(Blocks(bytes, size, count)) == bytes
    decreases count
  {
    if count > 0 {
      assert count * size == size + (count - 1) * size;
      var blocks := Blocks(bytes, size, count);
      assert blocks[0] == bytes[..size] && blocks[1..] == Blocks(bytes[size..], size, count - 1);
      FlatOfBlocks(bytes[size..], size, count - 1);
      assert bytes == bytes[..size] + bytes[size..];
    }
  }

  /** f with the bytes from p on replaced. */
  function Overwritten(f: seq<Byte>, p: nat, bytes: seq<Byte>): (r: seq<Byte>)
    requires p + |bytes| <= |f|
    ensures |r| == |f|
  {
    f[..p] + bytes + f[p + |bytes|..]
  }

  // ----- which blocks a stretch of bytes touches -----

  function First(p: nat, size: nat): nat
    requires size > 0
  {
    p / size
  }

  /** The number of blocks that n bytes from p on touch, as lines 362 and 412 compute it. */
  function Count(p: nat, n: nat, size: nat): nat
    requires size > 0
  {
    (n + p % size + size - 1) / size
  }

  lemma DivMod(x: nat, size: nat)
    requires size > 0
    ensures x == x / size * size + x % size && 0 <= x % size < size
  {
  }

  lemma DivUnique(x: nat, size: nat, q: nat, r: nat)
    requires size > 0 && x == q * size + r && r < size
    ensures x / size == q && x % size == r
  {
    DivMod(x, size);
    QuotientUnique(size, x / size, x % size, q, r);
  }

  lemma QuotientUnique(size: nat, d: nat, m: nat, q: nat, r: nat)
    requires d * size + m == q * size + r && m < size && r < size
    ensures d == q && m == r
  {
    if d < q {
      Gap(size, d, q);
    } else if q < d {
      Gap(size, q, d);
    }
  }

  lemma {:induction false} Gap(size: nat, a: nat, b: nat)
    requires a < b
    ensures a * size + size <= b * size
  {
    assert b * size == (b - 1) * size + size;
    if a < b - 1 {
      Gap(size, a, b - 1);
    }
  }

  /** The touched blocks begin at the last block boundary up to p, and end at the first one from p + n on. */
  lemma Touched(p: nat, n: nat, size: nat)
    requires size > 0
    ensures var lo, off, k := First(p, size) * size, p % size, Count(p, n, size);
            && p == lo + off && off < size
            && off + n <= k * size < off + n + size
            && (n > 0 ==> k > 0)
            && ((p + n) % size == 0 <==> off + n == k * size)
            && (First(p, size) + k) * size == lo + k * size
  {
    var off, k, q := p % size, Count(p, n, size), First(p, size);
    DivMod(p, size);
    DivMod(n + off + size - 1, size);
    assert (q + k) * size == q * size + k * size;
    var rest := k * size - (off + n);
    assert p + n + rest == (q + k) * size;
    if rest == 0 {
      DivUnique(p + n, size, q + k, 0);
    } else {
      assert k >= 1;
      assert (q + k - 1) * size == (q + k) * size - size;
      DivUnique(p + n, size, q + k - 1, size - rest);
    }
  }

  /** In which block the last byte but one lies, if it does not end a block. */
  lemma LastTouched(p: nat, n: nat, size: nat)
    requires size > 0 && (p + n) % size != 0
    ensures var off, k := p % size, Count(p, n, size);
            && k > 0 && (off + n) / size == k - 1 && (p + n) / size == First(p, size) + k - 1
            && (off + n) / size * size == k * size - size
            && (p + n) / size * size == First(p, size) * size + (off + n) / size * size
  {
    hide First, Count;
    Touched(p, n, size);
    var off, k, q := p % size, Count(p, n, size), First(p, size);
    BlockBefore(off + n, size, k);
    BlockBefore(p + n, size, q + k);
  }

  lemma BlockBefore(x: nat, size: nat, k: nat)
    requires k * size - size <= x < k * size
    ensures k > 0 && x / size == k - 1 && x / size * size == k * size - size
  {
    assert (k - 1) * size == k * size - size;
    DivUnique(x, size, k - 1, x - (k - 1) * size);
  }
}

module Storage {
  import opened BlockBytes

  const UINT64: int := 0x1_0000_0000_0000_0000

  function Min(a: nat, b: nat): nat { if a <= b then a else b }

  /** memcpy. */
  method Copy(dst: array<Byte>, at: nat, src: array<Byte>, from: nat, n: nat)
    requires dst != src && at + n <= dst.Length && from + n <= src.Length
    modifies dst
    ensures dst[..] == Overwritten(old(dst[..]), at, src[from..from + n])
  {
    forall i | 0 <= i < n {
      dst[at + i] := src[from + i];
    }
  }

  /** The device and its driver's callbacks. If it does not work, any call may fail. */
  class Device {
    const blockSize: nat
    const blockCount: nat
    const working: bool
    var blocks: seq<seq<Byte>>

    ghost predicate Valid()
      reads this`blocks
    {
      blockSize > 0 && |blocks| == blockCount && Uniform(blocks, blockSize) && blockCount * blockSize < UINT64
    }

    constructor (blockSize: nat, blocks: seq<seq<Byte>>, working: bool)
      requires blockSize > 0 && Uniform(blocks, blockSize) && |blocks| * blockSize < UINT64
      ensures Valid() && this.blockSize == blockSize && this.blocks == blocks && this.working == working
    {
      this.blockSize, this.blocks, this.working, blockCount := blockSize, blocks, working, |blocks|;
    }

    /** Blocks that the device does not have cannot be read. */
    method ReadBlocks(dst: array<Byte>, at: nat, start: nat, count: nat) returns (ok: bool)
      requires Valid() && at + count * blockSize <= dst.Length
      modifies dst
      ensures working && start + count <= blockCount ==> ok
      ensures ok ==> start + count <= blockCount && |Flat(blocks[start..start + count])| == count * blockSize
      ensures dst[..at] == old(dst[..at]) && dst[at + count * blockSize..] == old(dst[at + count * blockSize..])
      ensures ok ==> dst[at..at + count * blockSize] == Flat(blocks[start..start + count])
    {
      var fails: bool := *;
      ok := start + count <= blockCount && (working || !fails);
      if ok {
        var bytes := Flat(blocks[start..start + count]);
        FlatLength(blocks[start..start + count], blockSize);
        forall i | 0 <= i < count * blockSize {
          dst[at + i] := bytes[i];
        }
      }
    }

    method WriteBlocks(src: array<Byte>, start: nat, count: nat) returns (ok: bool)
      requires Valid() && count * blockSize <= src.Length
      modifies this`blocks
      ensures Valid()
      ensures working && start + count <= blockCount ==> ok
      ensures !ok ==> blocks == old(blocks)
      ensures ok ==> start + count <= blockCount && blocks[..start] == old(blocks)[..start]
      ensures ok ==> blocks[start + count..] == old(blocks)[start + count..]
      ensures ok ==> Flat(blocks[start..start + count]) == src[..count * blockSize]
    {
      var fails: bool := *;
      ok := start + count <= blockCount && (working || !fails);
      if ok {
        var written := Blocks(src[..count * blockSize], blockSize, count);
        FlatOfBlocks(src[..count * blockSize], blockSize, count);
        blocks := blocks[..start] + written + blocks[start + count..];
        assert blocks[start..start + count] == written;
      }
    }
  }

  datatype Partition = Whole | Part(start: nat, count: nat)

  datatype Kind = Dir(data: seq<Byte>) | Dev(dev: Device, part: Partition)

  /** A write of n bytes at position pos also writes bytes that nobody has chosen if the position begins
      a block that the bytes do not fill. */
  predicate Fills(pos: nat, n: nat, size: nat)
    requires size > 0
  {
    n == 0 || pos % size != 0 || n >= size
  }

  class File {
    const kind: Kind
    var pos: nat

    constructor (kind: Kind)
      ensures this.kind == kind && pos == 0
    {
      this.kind, pos := kind, 0;
    }

    /** F_FILESIZE (lines 448-454). */
    function Size(): nat {
      match kind
      case Dir(data) => |data|
      case Dev(dev, Whole) => dev.blockCount * dev.blockSize
      case Dev(dev, Part(start, count)) => count * dev.blockSize
    }

    function Start(): nat {
      if kind.Dev? && kind.part.Part? then kind.part.start else 0
    }

    /** F_PRESSURE (line 437), with the difference taken as an unsigned number. */
    function Pressure(): nat
      reads this`pos
    {
      (Size() - pos) % UINT64
    }

    /** The position is not beyond the end. */
    predicate Inside()
      reads this`pos
    {
      pos <= Size()
    }

    /** F_POSITION of pipe_set_flag (lines 504-517). For a partition the position is bounded by the size of
        the whole device, so that it can come to lie beyond the end. */
    method SetPosition(value: nat)
      modifies this`pos
      ensures kind.Dir? ==> Inside() && pos == Min(value, Size())
      ensures kind.Dev? ==> pos == Min(value, kind.dev.blockCount * kind.dev.blockSize)
      ensures kind.Dev? ==>
        (Inside() <==> kind.part.Whole? || value <= Size() || kind.dev.blockCount * kind.dev.blockSize <= Size())
    {
      match kind {
        case Dir(data) =>
          pos := if value > |data| then |data| else value;
        case Dev(dev, part) =>
          pos := if value > dev.blockCount * dev.blockSize then dev.blockCount * dev.blockSize else value;
      }
    }

    /** stream_recv (lines 333-377). Whatever it delivers are the bytes from the position on. */
    method Recv(data: array<Byte>, size: nat) returns (n: nat)
      requires size <= data.Length &&
        (match kind case Dir(bytes) => Inside() && |bytes| < UINT64 case Dev(dev, _) => dev.Valid())
      modifies this`pos, data
      ensures pos == old(pos) + n && n <= size && (n == Min(size, old(Pressure())) || (kind.Dev? && n == 0))
      ensures data[size..] == old(data[size..])
      ensures kind.Dir? ==> pos <= |kind.data| && data[..n] == kind.data[old(pos)..pos]
      ensures kind.Dev? && n > 0 ==>
        var dev, p := kind.dev, Start() * kind.dev.blockSize + old(pos);
        p + n <= |Flat(dev.blocks)| && data[..n] == Flat(dev.blocks)[p..p + n]
      ensures kind.Dev? && kind.dev.working &&
        Start() * kind.dev.blockSize + old(pos) + Min(size, old(Pressure())) <= kind.dev.blockCount * kind.dev.blockSize
        ==> n == Min(size, old(Pressure()))
    {
      match kind {
        case Dir(bytes) =>
          n := if size > |bytes| - pos then |bytes| - pos else size;
          forall i | 0 <= i < n {
            data[i] := bytes[pos + i];
          }
          pos := pos + n;
        case Dev(dev, part) =>
          var copySize := Min(size, Pressure());
          if copySize == 0 {
            return 0;
          }
          var ok := Fetch(dev, data, copySize, size);
          if ok {
            pos := pos + copySize;
          }
          n := if ok then copySize else 0;
      }
    }

    /** Lines 357-373: n bytes by way of whole blocks. */
    method Fetch(dev: Device, data: array<Byte>, n: nat, ghost size: nat) returns (ok: bool)
      requires kind.Dev? && kind.dev == dev && dev.Valid() && 0 < n <= size <= data.Length
      modifies data
      ensures data[size..] == old(data[size..])
      ensures var p := Start() * dev.blockSize + pos;
              && (dev.working && p + n <= dev.blockCount * dev.blockSize ==> ok)
              && (ok ==> p + n <= |Flat(dev.blocks)| && data[..n] == Flat(dev.blocks)[p..p + n])
    {
      hide Flat, Uniform, First, Count;
      if pos % dev.blockSize != 0 || n % dev.blockSize != 0 {
        ok := FetchBounced(dev, data, n, size);
      } else {
        ok := FetchWhole(dev, data, n, size);
      }
    }

    method FetchBounced(dev: Device, data: array<Byte>, n: nat, ghost size: nat) returns (ok: bool)
      requires kind.Dev? && kind.dev == dev && dev.Valid() && 0 < n <= size <= data.Length
      modifies data
      ensures data[size..] == old(data[size..])
      ensures var p := Start() * dev.blockSize + pos;
              && (dev.working && p + n <= dev.blockCount * dev.blockSize ==> ok)
              && (ok ==> p + n <= |Flat(dev.blocks)| && data[..n] == Flat(dev.blocks)[p..p + n])
    {
      hide Flat, Uniform, First, Count;
      var bs, off := dev.blockSize, pos % dev.blockSize;
      var first, count := Start() + First(pos, bs), Count(pos, n, bs);
      StretchFits(dev, Start(), pos, n);
      EndsArithmetic(n, bs);
      var target := new Byte[n + 2 * bs];
      ok := dev.ReadBlocks(target, 0, first, count);
      if ok {
        StretchOf(dev, Start(), pos, n);
        CopyOut(data, target, off, n, size, count * bs);
      }
    }

    /** memcpy out of the middle. */
    method CopyOut(dst: array<Byte>, src: array<Byte>, from: nat, n: nat, ghost size: nat, ghost m: nat)
      requires dst != src && n <= size <= dst.Length && from + n <= m <= src.Length
      modifies dst
      ensures dst[..n] == src[0..m][from..from + n] && dst[size..] == old(dst[size..])
    {
      Copy(dst, 0, src, from, n);
    }

    method FetchWhole(dev: Device, data: array<Byte>, n: nat, ghost size: nat) returns (ok: bool)
      requires kind.Dev? && kind.dev == dev && dev.Valid() && 0 < n <= size <= data.Length
      requires pos % dev.blockSize == 0 == n % dev.blockSize
      modifies data
      ensures data[size..] == old(data[size..])
      ensures var p := Start() * dev.blockSize + pos;
              && (dev.working && p + n <= dev.blockCount * dev.blockSize ==> ok)
              && (ok ==> p + n <= |Flat(dev.blocks)| && data[..n] == Flat(dev.blocks)[p..p + n])
    {
      hide Flat, Uniform, First, Count;
      var bs := dev.blockSize;
      var first, count := Start() + First(pos, bs), Count(pos, n, bs);
      StretchFits(dev, Start(), pos, n);
      Touched(pos, n, bs);
      WholeBlocks(n, count, bs);
      ok := dev.ReadBlocks(data, 0, first, count);
      if ok {
        StretchOf(dev, Start(), pos, n);
      }
    }

    lemma WholeBlocks(n: nat, count: nat, size: nat)
      requires size > 0 && n % size == 0 && n <= count * size < n + size
      ensures count * size == n
    {
      DivMod(n, size);
      if count * size != n {
        if n / size < count {
          Gap(size, n / size, count);
        } else if count < n / size {
          Gap(size, count, n / size);
        }
      }
    }

    /** The blocks that a stretch of bytes touches are among the first total ones if and only if the bytes are. */
    lemma Fit(bs: nat, start: nat, pos: nat, n: nat, total: nat)
      requires bs > 0 && n > 0
      ensures start + First(pos, bs) + Count(pos, n, bs) <= total <==> start * bs + pos + n <= total * bs
    {
      var f, k := First(pos, bs), Count(pos, n, bs);
      Touched(pos, n, bs);
      assert (start + (f + k)) * bs == start * bs + (f + k) * bs;
      if start + f + k < total {
        Gap(bs, start + f + k, total);
      } else if total < start + f + k {
        Gap(bs, total, start + f + k);
      }
    }

    lemma StretchFits(dev: Device, start: nat, pos: nat, n: nat)
      requires dev.Valid() && n > 0
      ensures start + First(pos, dev.blockSize) + Count(pos, n, dev.blockSize) <= dev.blockCount
         <==> start * dev.blockSize + pos + n <= dev.blockCount * dev.blockSize
    {
      Fit(dev.blockSize, start, pos, n, dev.blockCount);
    }

    /** Where in its blocks a stretch of bytes lies. */
    lemma StretchOf(dev: Device, start: nat, pos: nat, n: nat)
      requires dev.Valid() && start + First(pos, dev.blockSize) + Count(pos, n, dev.blockSize) <= dev.blockCount
      ensures var bs := dev.blockSize;
              var i, k, off, p := start + First(pos, bs), Count(pos, n, bs), pos % bs, start * bs + pos;
              && p + n <= |Flat(dev.blocks)| && |Flat(dev.blocks[i..i + k])| == k * bs && off + n <= k * bs
              && Flat(dev.blocks[i..i + k])[off..off + n] == Flat(dev.blocks)[p..p + n]
    {
      hide Flat, Uniform, First, Count;
      var bs := dev.blockSize;
      var i, k, off := start + First(pos, bs), Count(pos, n, bs), pos % bs;
      PlaceOf(bs, start, pos, n, i, k);
      FlatSlice(dev.blocks, bs, i, i + k);
      SliceOfSlice(Flat(dev.blocks), i * bs, (i + k) * bs, off, off + n);
    }

    lemma SliceOfSlice(s: seq<Byte>, a: nat, b: nat, c: nat, d: nat)
      requires a <= b <= |s| && c <= d <= b - a
      ensures s[a..b][c..d] == s[a + c..a + d]
    {
      var t := s[a..b];
      assert forall i :: c <= i < d ==> t[i] == s[a + i];
    }

    lemma PlaceOf(size: nat, start: nat, pos: nat, n: nat, i: nat, k: nat)
      requires size > 0 && i == start + First(pos, size) && k == Count(pos, n, size)
      ensures i * size + pos % size == start * size + pos && (i + k) * size == i * size + k * size
      ensures pos % size + n <= k * size
    {
      Touched(pos, n, size);
      assert i * size == start * size + First(pos, size) * size;
    }

    /** The first and the last of some blocks, as bytes. */
    lemma EndBlocks(blocks: seq<seq<Byte>>, size: nat, i: nat, k: nat)
      requires Uniform(blocks, size) && 0 < k && i + k <= |blocks|
      ensures var r := Flat(blocks[i..i + k]);
              && |r| == k * size && size <= k * size && k * size - size == (k - 1) * size
              && Flat(blocks[i..i + 1]) == r[..size] && Flat(blocks[i + k - 1..i + k]) == r[k * size - size..]
    {
      hide Flat;
      var b := blocks[i..i + k];
      FlatSlice(b, size, 0, 1);
      FlatSlice(b, size, k - 1, k);
      assert b[0..1] == blocks[i..i + 1] && b[k - 1..k] == blocks[i + k - 1..i + k];
      assert 1 * size == size && (k - 1) * size == k * size - size;
      assert Flat(b)[0 * size..1 * size] == Flat(b)[..size];
      assert |Flat(b)| == k * size;
    }

    /** The condition under which the last block is read before it is written (line 402). */
    predicate EndsInside(n: nat, size: nat)
      requires size > 0
      reads this`pos
    {
      (pos + n) % size != 0 && pos % size + n > size
    }

    /** Lines 399-404. */
    method ReadEnds(dev: Device, tmp: array<Byte>, n: nat)
      requires kind.Dev? && kind.dev == dev && dev.Valid() && 0 < n && tmp.Length == n + 2 * dev.blockSize
      modifies tmp
      ensures var bs := dev.blockSize;
              var i, k := Start() + First(pos, bs), Count(pos, n, bs);
              k > 0 && bs <= k * bs <= tmp.Length &&
              (dev.working && i + k <= dev.blockCount ==>
                 var r, t := Flat(dev.blocks[i..i + k]), tmp[..];
                 && |r| == k * bs
                 && (pos % bs != 0 ==> t[..bs] == r[..bs])
                 && (EndsInside(n, bs) ==> t[k * bs - bs..k * bs] == r[k * bs - bs..]))
    {
      hide Flat, Uniform, First, Count;
      var bs, off := dev.blockSize, pos % dev.blockSize;
      ghost var i, k := Start() + First(pos, bs), Count(pos, n, bs);
      Ends(dev, n);
      if off != 0 {
        var ok := dev.ReadBlocks(tmp, 0, Start() + pos / bs, 1);
        assert dev.working && i + k <= dev.blockCount ==> tmp[0..bs] == Flat(dev.blocks[i..i + 1]);
      }
      ghost var was := tmp[..];
      if (pos + n) % bs != 0 && off + n > bs {
        var ok := dev.ReadBlocks(tmp, (off + n) / bs * bs, Start() + (pos + n) / bs, 1);
        assert tmp[..bs] == tmp[..(off + n) / bs * bs][..bs] == was[..(off + n) / bs * bs][..bs] == was[..bs];
      }
      assert tmp[..][..bs] == tmp[..bs] && tmp[..][k * bs - bs..k * bs] == tmp[k * bs - bs..k * bs];
    }

    lemma EndsArithmetic(n: nat, bs: nat)
      requires bs > 0 && 0 < n
      ensures var off, k := pos % bs, Count(pos, n, bs);
              && k > 0 && bs <= k * bs <= n + 2 * bs
              && (EndsInside(n, bs) ==>
                    bs <= (off + n) / bs * bs == k * bs - bs && (pos + n) / bs == First(pos, bs) + k - 1)
    {
      var off, k := pos % bs, Count(pos, n, bs);
      Touched(pos, n, bs);
      Gap(bs, 0, k);
      assert k == 1 ==> k * bs == bs;
      if EndsInside(n, bs) {
        LastTouched(pos, n, bs);
        Gap(bs, 0, k - 1);
        assert k * bs == (k - 1) * bs + bs;
      }
    }

    /** What ReadEnds needs to know about blocks and bytes. */
    lemma Ends(dev: Device, n: nat)
      requires kind.Dev? && kind.dev == dev && dev.Valid() && 0 < n
      ensures var bs := dev.blockSize;
              var off, i, k := pos % bs, Start() + First(pos, bs), Count(pos, n, bs);
              && k > 0 && First(pos, bs) == pos / bs && bs <= k * bs <= n + 2 * bs && 1 * bs == bs && 0 * bs == 0
              && (EndsInside(n, bs) ==>
                    bs <= (off + n) / bs * bs == k * bs - bs && Start() + (pos + n) / bs == i + k - 1)
              && (i + k <= dev.blockCount ==>
                    var r := Flat(dev.blocks[i..i + k]);
                    && |r| == k * bs && Flat(dev.blocks[i..i + 1]) == r[..bs]
                    && Flat(dev.blocks[i + k - 1..i + k]) == r[k * bs - bs..])
    {
      hide Flat, Uniform, Count, EndsInside;
      var bs := dev.blockSize;
      var i, k := Start() + First(pos, bs), Count(pos, n, bs);
      EndsArithmetic(n, bs);
      if i + k <= dev.blockCount {
        EndBlocks(dev.blocks, bs, i, k);
      }
    }

    /** Lines 397-406: a buffer with the new bytes in the middle, and with what the device holds around them
        as far as it has been read. */
    method Bounce(dev: Device, data: array<Byte>, n: nat) returns (tmp: array<Byte>)
      requires kind.Dev? && kind.dev == dev && dev.Valid() && 0 < n <= data.Length
      ensures fresh(tmp) && tmp.Length == n + 2 * dev.blockSize
      ensures var bs := dev.blockSize;
              var off, i, k := pos % bs, Start() + First(pos, bs), Count(pos, n, bs);
              && off + n <= k * bs <= tmp.Length && tmp[off..off + n] == data[..n]
              && (dev.working && i + k <= dev.blockCount ==>
                    var r := Flat(dev.blocks[i..i + k]);
                    && |r| == k * bs && tmp[..off] == r[..off]
                    && (Fills(pos, n, bs) ==> tmp[off + n..k * bs] == r[off + n..]))
    {
      hide Flat, Uniform, First, Count, Fills, EndsInside;
      var bs, off := dev.blockSize, pos % dev.blockSize;
      ghost var i, k := Start() + First(pos, bs), Count(pos, n, bs);
      Touched(pos, n, bs);
      tmp := new Byte[n + 2 * bs];
      ReadEnds(dev, tmp, n);
      ghost var was := tmp[..];
      if dev.working && i + k <= dev.blockCount {
        Surrounds(was, Flat(dev.blocks[i..i + k]), bs, k, n);
      }
      CopyInto(tmp, off, data, n, k * bs);
    }

    /** memcpy into the middle, part by part. */
    method CopyInto(dst: array<Byte>, at: nat, src: array<Byte>, n: nat, ghost m: nat)
      requires dst != src && at + n <= m <= dst.Length && n <= src.Length
      modifies dst
      ensures dst[..at] == old(dst[..])[..at] && dst[at..at + n] == src[..n] &&
        dst[at + n..m] == old(dst[..])[at + n..m]
    {
      Copy(dst, at, src, 0, n);
      ThreeParts(old(dst[..]), at, src[..n], m);
      assert src[0..n] == src[..n];
      Parts(dst, Overwritten(old(dst[..]), at, src[..n]), at, n, m);
    }

    lemma Parts(t: array<Byte>, now: seq<Byte>, at: nat, n: nat, m: nat)
      requires at + n <= m <= t.Length && t[..] == now
      ensures t[..at] == now[..at] && t[at..at + n] == now[at..at + n] && t[at + n..m] == now[at + n..m]
    {
    }

    lemma ThreeParts(was: seq<Byte>, off: nat, d: seq<Byte>, m: nat)
      requires off + |d| <= m <= |was|
      ensures var now := Overwritten(was, off, d);
              now[..off] == was[..off] && now[off..off + |d|] == d && now[off + |d|..m] == was[off + |d|..m]
    {
    }

    /** What has been read is what is needed around the new bytes. */
    lemma Surrounds(was: seq<Byte>, r: seq<Byte>, bs: nat, k: nat, n: nat)
      requires bs > 0 && 0 < n && k == Count(pos, n, bs) && |r| == k * bs && bs <= k * bs <= |was|
      requires pos % bs != 0 ==> was[..bs] == r[..bs]
      requires EndsInside(n, bs) ==> was[k * bs - bs..k * bs] == r[k * bs - bs..]
      ensures pos % bs + n <= k * bs && was[..pos % bs] == r[..pos % bs]
      ensures Fills(pos, n, bs) ==> was[pos % bs + n..k * bs] == r[pos % bs + n..]
    {
      hide First, Count;
      var off := pos % bs;
      Touched(pos, n, bs);
      if off != 0 {
        SameStart(was, r, bs, off);
      }
      if off + n != k * bs && Fills(pos, n, bs) {
        if EndsInside(n, bs) {
          SameEnd(was, r, k * bs - bs, k * bs, off + n);
        } else {
          OneBlock(bs, k, off + n);
          SameMiddle(was, r, bs, off + n);
        }
      }
    }

    lemma SameStart(was: seq<Byte>, r: seq<Byte>, m: nat, off: nat)
      requires off <= m <= |was| && m <= |r| && was[..m] == r[..m]
      ensures was[..off] == r[..off]
    {
      assert was[..off] == was[..m][..off];
      assert r[..off] == r[..m][..off];
    }

    lemma SameEnd(was: seq<Byte>, r: seq<Byte>, q: nat, m: nat, at: nat)
      requires q <= at <= m <= |was| && m == |r| && was[q..m] == r[q..]
      ensures was[at..m] == r[at..]
    {
      assert was[at..m] == was[q..m][at - q..];
      assert r[at..] == r[q..][at - q..];
    }

    lemma SameMiddle(was: seq<Byte>, r: seq<Byte>, m: nat, at: nat)
      requires at <= m <= |was| && m == |r| && was[..m] == r[..m]
      ensures was[at..m] == r[at..]
    {
      assert was[at..m] == was[..m][at..];
      assert r[at..] == r[..m][at..];
    }

    lemma OneBlock(bs: nat, k: nat, m: nat)
      requires 0 < m <= bs && m <= k * bs < m + bs
      ensures k * bs == bs
    {
      if k > 1 {
        Gap(bs, 1, k);
      }
      assert k == 1;
    }

    /** stream_send (lines 380-427). The device is changed exactly from the position on, by the bytes that
        are sent; only if these begin a block that they do not fill, they are followed by a tail of bytes
        up to the end of the block that nobody has chosen. */
    method Send(data: array<Byte>, size: nat) returns (n: nat, ghost tail: seq<Byte>)
      requires size <= data.Length && (kind.Dev? ==> kind.dev.Valid())
      modifies this`pos, (if kind.Dev? then {kind.dev} else {})`blocks
      ensures kind.Dir? ==> n == 0
      ensures pos == old(pos) + n && (n == 0 || n == Min(size, old(Pressure())))
      ensures kind.Dev? ==> kind.dev.Valid() && (n == 0 ==> kind.dev.blocks == old(kind.dev.blocks))
      ensures kind.Dev? && n > 0 && kind.dev.working ==>
        var bs := kind.dev.blockSize; var p, f := Start() * bs + old(pos), old(Flat(kind.dev.blocks));
        && |tail| == (if Fills(old(pos), n, bs) then 0 else bs - n)
        && p + n + |tail| <= |f| && Flat(kind.dev.blocks) == Overwritten(f, p, data[..n] + tail)
      ensures kind.Dev? && kind.dev.working &&
        Start() * kind.dev.blockSize + old(pos) + Min(size, old(Pressure())) <= kind.dev.blockCount * kind.dev.blockSize
        ==> n == Min(size, old(Pressure()))
      ensures kind.Dev? && n > 0 ==> Elsewhere(kind.dev, FirstWritten(old(pos)), Count(old(pos), n, kind.dev.blockSize))
      ensures kind.Dev? && kind.part.Part? && n > 0 ==> (InPartition(old(pos), n) <==> old(Inside()))
      ensures kind.Dev? && kind.part.Part? && old(Inside()) ==> Confined()
    {
      hide Flat, Uniform, Overwritten, Fills, Min, Pressure, First, Count;
      n, tail := 0, [];
      Bounded(size);
      if kind.Dev? && kind.part.Part? && Min(size, Pressure()) > 0 {
        InsideOrNot(Min(size, Pressure()));
      }
      if kind.Dev? && Min(size, Pressure()) > 0 {
        n, tail := SendSome(kind.dev, data, Min(size, Pressure()));
      }
    }

    /** The first block that is written at a position. */
    function FirstWritten(pos: nat): nat
      requires kind.Dev? && kind.dev.blockSize > 0
    {
      Start() + First(pos, kind.dev.blockSize)
    }

    /** The blocks that n bytes at a position touch belong to the partition. */
    predicate InPartition(pos: nat, n: nat)
      requires kind.Dev? && kind.part.Part? && kind.dev.blockSize > 0
    {
      FirstWritten(pos) + Count(pos, n, kind.dev.blockSize) <= kind.part.start + kind.part.count
    }

    /** From a position inside, no more than the rest of the partition is touched, from one beyond the end no
        block of the partition. */
    lemma InsideOrNot(n: nat)
      requires kind.Dev? && kind.part.Part? && kind.dev.blockSize > 0 && n > 0
      ensures InPartition(pos, n) <==> pos + n <= Size()
      ensures !Inside() ==> FirstWritten(pos) >= kind.part.start + kind.part.count
    {
      var bs := kind.dev.blockSize;
      Fit(bs, 0, pos, n, kind.part.count);
      if !Inside() {
        DivMod(pos, bs);
        if First(pos, bs) < kind.part.count {
          Gap(bs, First(pos, bs), kind.part.count);
        }
      }
    }

    lemma Bounded(size: nat)
      ensures Min(size, Pressure()) <= size && (Inside() ==> pos + Min(size, Pressure()) <= Size())
    {
    }

    /** Lines 394-422. */
    method SendSome(dev: Device, data: array<Byte>, copySize: nat) returns (n: nat, ghost tail: seq<Byte>)
      requires kind.Dev? && kind.dev == dev && dev.Valid() && 0 < copySize <= data.Length
      modifies this`pos, dev`blocks
      ensures pos == old(pos) + n && (n == 0 || n == copySize)
      ensures dev.Valid() && (n == 0 ==> dev.blocks == old(dev.blocks))
      ensures var bs := dev.blockSize; var p, f := Start() * bs + old(pos), old(Flat(dev.blocks));
              && (dev.working && p + copySize <= dev.blockCount * bs ==> n == copySize)
              && (n > 0 && dev.working ==>
                    && |tail| == (if Fills(old(pos), n, bs) then 0 else bs - n)
                    && p + n + |tail| <= |f| && Flat(dev.blocks) == Overwritten(f, p, data[..n] + tail))
      ensures n > 0 ==> Elsewhere(dev, FirstWritten(old(pos)), Count(old(pos), n, dev.blockSize))
      ensures kind.part.Part? && old(pos) + copySize <= Size() ==> Confined()
    {
      hide Elsewhere;
      hide Flat, Uniform, Overwritten, Fills, Confined;
      var ok;
      ok, tail := PutInside(dev, data, copySize);
      n := 0;
      if ok {
        pos := pos + copySize;
        n := copySize;
      }
    }

    /** No block of the device outside the partition is changed. */
    twostate predicate Confined()
      requires kind.Dev? && kind.part.Part?
      reads kind.dev`blocks
    {
      && |kind.dev.blocks| == |old(kind.dev.blocks)|
      && forall i :: 0 <= i < |kind.dev.blocks| && !(kind.part.start <= i < kind.part.start + kind.part.count) ==>
           kind.dev.blocks[i] == old(kind.dev.blocks)[i]
    }

    method PutInside(dev: Device, data: array<Byte>, n: nat) returns (ok: bool, ghost tail: seq<Byte>)
      requires kind.Dev? && kind.dev == dev && dev.Valid() && 0 < n <= data.Length
      modifies dev`blocks
      ensures dev.Valid() && (!ok ==> dev.blocks == old(dev.blocks))
      ensures var bs := dev.blockSize; var p, f := Start() * bs + pos, old(Flat(dev.blocks));
              && (dev.working && p + n <= dev.blockCount * bs ==> ok)
              && (ok && dev.working ==>
                    && |tail| == (if Fills(pos, n, bs) then 0 else bs - n)
                    && p + n + |tail| <= |f| && Flat(dev.blocks) == Overwritten(f, p, data[..n] + tail))
      ensures ok ==> Elsewhere(dev, FirstWritten(pos), Count(pos, n, dev.blockSize))
      ensures kind.part.Part? && pos + n <= Size() ==> Confined()
    {
      hide Flat, Uniform, First, Count, Overwritten, Fills;
      ghost var was, i, k := dev.blocks, Start() + First(pos, dev.blockSize), Count(pos, n, dev.blockSize);
      if kind.part.Part? {
        Fit(dev.blockSize, 0, pos, n, kind.part.count);
      }
      ok, tail := Put(dev, data, n);
      if ok && kind.part.Part? && pos + n <= Size() {
        Spared(was, dev.blocks, i, k, kind.part.start, kind.part.start + kind.part.count);
      }
    }

    lemma Spared(was: seq<seq<Byte>>, now: seq<seq<Byte>>, i: nat, k: nat, a: nat, b: nat)
      requires |was| == |now| && a <= i && i + k <= b && i + k <= |was| && now[..i] == was[..i] &&
        now[i + k..] == was[i + k..]
      ensures forall j :: 0 <= j < |was| && !(a <= j < b) ==> now[j] == was[j]
    {
      forall j | 0 <= j < |was| && !(a <= j < b)
        ensures now[j] == was[j]
      {
        if j < i {
          assert now[..i][j] == was[..i][j];
        } else {
          assert now[i + k..][j - i - k] == was[i + k..][j - i - k];
        }
      }
    }

    /** Lines 394-412. */
    method Put(dev: Device, data: array<Byte>, n: nat) returns (ok: bool, ghost tail: seq<Byte>)
      requires kind.Dev? && kind.dev == dev && dev.Valid() && 0 < n <= data.Length
      modifies dev`blocks
      ensures dev.Valid() && (!ok ==> dev.blocks == old(dev.blocks))
      ensures var bs := dev.blockSize; var p, f := Start() * bs + pos, old(Flat(dev.blocks));
              && (dev.working && p + n <= dev.blockCount * bs ==> ok)
              && (ok && dev.working ==>
                    && |tail| == (if Fills(pos, n, bs) then 0 else bs - n)
                    && p + n + |tail| <= |f| && Flat(dev.blocks) == Overwritten(f, p, data[..n] + tail))
      ensures ok ==> Elsewhere(dev, Start() + First(pos, dev.blockSize), Count(pos, n, dev.blockSize))
    {
      hide Flat, Uniform, First, Count, Overwritten, Fills;
      var bs, off := dev.blockSize, pos % dev.blockSize;
      var first, count := Start() + First(pos, bs), Count(pos, n, bs);
      tail := [];
      StretchFits(dev, Start(), pos, n);
      ghost var was := dev.blocks;
      ghost var w: seq<Byte> := [];
      ok, w := WriteOut(dev, data, n);
      if ok && dev.working {
        tail := TailOf(Flat(was[first..first + count]), w, bs, count, n, data[..n]);
        Arrived(dev, was, first, count, off, w, data[..n] + tail);
        PlaceOf(bs, Start(), pos, n, first, count);
      }
    }

    /** Lines 394-412, block by block. */
    method WriteOut(dev: Device, data: array<Byte>, n: nat) returns (ok: bool, ghost w: seq<Byte>)
      requires kind.Dev? && kind.dev == dev && dev.Valid() && 0 < n <= data.Length
      modifies dev`blocks
      ensures dev.Valid() && (!ok ==> dev.blocks == old(dev.blocks))
      ensures var bs := dev.blockSize; var i, k, off := Start() + First(pos, bs), Count(pos, n, bs), pos % bs;
              && off + n <= k * bs && (dev.working && i + k <= dev.blockCount ==> ok)
              && (ok ==> Elsewhere(dev, i, k) && Flat(dev.blocks[i..i + k]) == w)
              && (ok && dev.working ==>
                    var r := Flat(old(dev.blocks)[i..i + k]);
                    && |w| == |r| == k * bs && w[off..off + n] == data[..n] && w[..off] == r[..off]
                    && (Fills(pos, n, bs) ==> w[off + n..] == r[off + n..]))
    {
      hide Flat, Uniform, First, Count, Fills, Elsewhere;
      if pos % dev.blockSize != 0 || n % dev.blockSize != 0 {
        ok, w := WriteBounced(dev, data, n);
      } else {
        ok, w := WriteWhole(dev, data, n);
      }
    }

    method WriteBounced(dev: Device, data: array<Byte>, n: nat) returns (ok: bool, ghost w: seq<Byte>)
      requires kind.Dev? && kind.dev == dev && dev.Valid() && 0 < n <= data.Length
      modifies dev`blocks
      ensures dev.Valid() && (!ok ==> dev.blocks == old(dev.blocks))
      ensures var bs := dev.blockSize; var i, k, off := Start() + First(pos, bs), Count(pos, n, bs), pos % bs;
              && off + n <= k * bs && (dev.working && i + k <= dev.blockCount ==> ok)
              && (ok ==> Elsewhere(dev, i, k) && Flat(dev.blocks[i..i + k]) == w)
              && (ok && dev.working ==>
                    var r := Flat(old(dev.blocks)[i..i + k]);
                    && |w| == |r| == k * bs && w[off..off + n] == data[..n] && w[..off] == r[..off]
                    && (Fills(pos, n, bs) ==> w[off + n..] == r[off + n..]))
    {
      hide Flat, Uniform, First, Count, Fills;
      var bs, off := dev.blockSize, pos % dev.blockSize;
      var first, count := Start() + First(pos, bs), Count(pos, n, bs);
      var target := Bounce(dev, data, n);
      w := target[..count * bs];
      SlicesOf(target, off, n, count * bs);
      ok := dev.WriteBlocks(target, first, count);
    }

    method WriteWhole(dev: Device, data: array<Byte>, n: nat) returns (ok: bool, ghost w: seq<Byte>)
      requires kind.Dev? && kind.dev == dev && dev.Valid() && 0 < n <= data.Length
      requires pos % dev.blockSize == 0 == n % dev.blockSize
      modifies dev`blocks
      ensures dev.Valid() && (!ok ==> dev.blocks == old(dev.blocks))
      ensures var bs := dev.blockSize; var i, k, off := Start() + First(pos, bs), Count(pos, n, bs), pos % bs;
              && off + n <= k * bs && (dev.working && i + k <= dev.blockCount ==> ok)
              && (ok ==> Elsewhere(dev, i, k) && Flat(dev.blocks[i..i + k]) == w)
              && (ok && dev.working ==>
                    var r := Flat(old(dev.blocks)[i..i + k]);
                    && |w| == |r| == k * bs && w[off..off + n] == data[..n] && w[..off] == r[..off]
                    && (Fills(pos, n, bs) ==> w[off + n..] == r[off + n..]))
    {
      hide Flat, Uniform, First, Count, Fills;
      var bs := dev.blockSize;
      var first, count := Start() + First(pos, bs), Count(pos, n, bs);
      Touched(pos, n, bs);
      WholeBlocks(n, count, bs);
      if first + count <= dev.blockCount {
        FlatSlice(dev.blocks, bs, first, first + count);
      }
      w := data[..n];
      ok := dev.WriteBlocks(data, first, count);
    }

    lemma SlicesOf(t: array<Byte>, off: nat, n: nat, m: nat)
      requires off + n <= m <= t.Length
      ensures var w := t[..m];
              w[off..off + n] == t[off..off + n] && w[..off] == t[..off] && w[off + n..] == t[off + n..m]
    {
    }

    /** The blocks other than the k from i on are as they were. */
    twostate predicate Elsewhere(dev: Device, i: nat, k: nat)
      reads dev`blocks
    {
      i + k <= |dev.blocks| == |old(dev.blocks)| && dev.blocks[..i] == old(dev.blocks)[..i] &&
        dev.blocks[i + k..] == old(dev.blocks)[i + k..]
    }

    /** The new bytes lie among the old ones, followed by a tail if they begin a block that they do not fill. */
    lemma TailOf(r: seq<Byte>, w: seq<Byte>, bs: nat, k: nat, n: nat, d: seq<Byte>) returns (tail: seq<Byte>)
      requires bs > 0 && 0 < n == |d| && k == Count(pos, n, bs) && |w| == |r| == k * bs && pos % bs + n <= k * bs
      requires w[pos % bs..pos % bs + n] == d && w[..pos % bs] == r[..pos % bs]
      requires Fills(pos, n, bs) ==> w[pos % bs + n..] == r[pos % bs + n..]
      ensures |tail| == if Fills(pos, n, bs) then 0 else bs - n
      ensures pos % bs + n + |tail| <= |r| && w == Overwritten(r, pos % bs, d + tail)
    {
      Touched(pos, n, bs);
      hide First, Count;
      if Fills(pos, n, bs) {
        tail := [];
      } else {
        tail := w[n..];
        OneBlock(bs, k, n);
      }
      Inner(r, w, pos % bs, d, tail);
    }

    /** What the device holds after the k blocks from i on have been written. */
    lemma Arrived(dev: Device, was: seq<seq<Byte>>, i: nat, k: nat, off: nat, w: seq<Byte>, d: seq<Byte>)
      requires dev.Valid() && i + k <= dev.blockCount && |was| == dev.blockCount && Uniform(was, dev.blockSize)
      requires dev.blocks[..i] == was[..i] && dev.blocks[i + k..] == was[i + k..] && Flat(dev.blocks[i..i + k]) == w
      requires off + |d| <= |Flat(was[i..i + k])| && w == Overwritten(Flat(was[i..i + k]), off, d)
      ensures i * dev.blockSize + off + |d| <= |Flat(was)|
      ensures Flat(dev.blocks) == Overwritten(Flat(was), i * dev.blockSize + off, d)
    {
      hide Flat, Uniform;
      var bs := dev.blockSize;
      FlatSlice(was, bs, i, i + k);
      FlatSlice(dev.blocks, bs, i, i + k);
      Outer(Flat(was[..i]), Flat(was[i..i + k]), Flat(was[i + k..]), off, d);
      assert |Flat(was)[..i * bs]| == i * bs;
    }

    lemma Inner(r: seq<Byte>, w: seq<Byte>, off: nat, d: seq<Byte>, tail: seq<Byte>)
      requires |w| == |r| && off + |d| + |tail| <= |r| && w[off..off + |d|] == d && w[..off] == r[..off]
      requires if tail == [] then w[off + |d|..] == r[off + |d|..] else w[off + |d|..] == tail
      ensures w == Overwritten(r, off, d + tail)
    {
      assert w == w[..off] + w[off..off + |d|] + w[off + |d|..];
    }

    lemma Outer(a: seq<Byte>, r: seq<Byte>, b: seq<Byte>, off: nat, d: seq<Byte>)
      requires off + |d| <= |r|
      ensures a + Overwritten(r, off, d) + b == Overwritten(a + r + b, |a| + off, d)
    {
    }

    lemma PressureInside()
      requires Ready(this)
      ensures Pressure() == Size() - pos
      ensures Start() * kind.dev.blockSize + Size() <= kind.dev.blockCount * kind.dev.blockSize
    {
    }

    /** Beyond the end nothing bounds a transfer any more but the device itself: the unsigned difference is huge. */
    lemma PressureBeyondTheEnd()
      requires pos < UINT64 && Size() < UINT64
      ensures Inside() ==> Pressure() == Size() - pos
      ensures !Inside() ==> Pressure() == UINT64 - (pos - Size()) > Size()
    {
    }
  }

  /** A tail changes nothing if and only if it is what was there. */
  lemma TailIsHarmless(f: seq<Byte>, p: nat, d: seq<Byte>, tail: seq<Byte>)
    requires p + |d| + |tail| <= |f|
    ensures Overwritten(f, p, d + tail) == Overwritten(f, p, d) <==> tail == f[p + |d|..p + |d| + |tail|]
  {
    var s, t := Overwritten(f, p, d + tail), Overwritten(f, p, d);
    var q := p + |d|;
    assert s[q..q + |tail|] == tail;
    assert t[q..q + |tail|] == f[q..q + |tail|];
    if tail == f[q..q + |tail|] {
      assert f[q..] == tail + f[q + |tail|..];
      assert s == t;
    }
  }

  /** stream_send changes exactly the bytes it is given, whatever its buffer held before, if and only if
      they do not begin a block without filling it. */
  lemma ExactWhenFilled(f: seq<Byte>, p: nat, pos: nat, d: seq<Byte>, size: nat)
    requires size > 0 && 0 < |d| && p + |d| + (if Fills(pos, |d|, size) then 0 else size - |d|) <= |f|
    ensures (forall tail :: |tail| == (if Fills(pos, |d|, size) then 0 else size - |d|) ==>
      Overwritten(f, p, d + tail) == Overwritten(f, p, d))
        <==> Fills(pos, |d|, size)
  {
    if Fills(pos, |d|, size) {
      assert forall tail :: |tail| == 0 ==> d + tail == d;
    } else {
      var m, q := size - |d|, p + |d|;
      var tail := seq(m, i requires 0 <= i < m => f[q + i] + 1);
      TailIsHarmless(f, p, d, tail);
      assert tail[0] != f[q..q + m][0];
    }
  }

  /** A file on a device that works, positioned inside, where all that it covers exists. */
  ghost predicate Ready(f: File)
    reads f`pos, (if f.kind.Dev? then {f.kind.dev} else {})`blocks
  {
    && f.kind.Dev? && f.kind.dev.Valid() && f.kind.dev.working && f.Inside()
    && f.Start() * f.kind.dev.blockSize + f.Size() <= f.kind.dev.blockCount * f.kind.dev.blockSize
  }

  ghost predicate Shows(f: File, pos: nat, bytes: seq<Byte>)
    requires f.kind.Dev?
    reads f.kind.dev`blocks
  {
    var p, flat := f.Start() * f.kind.dev.blockSize + pos, Flat(f.kind.dev.blocks);
    p + |bytes| <= |flat| && flat[p..p + |bytes|] == bytes
  }

  method SendInside(f: File, data: array<Byte>, size: nat) returns (n: nat)
    requires Ready(f) && size <= data.Length
    modifies f`pos, f.kind.dev`blocks
    ensures Ready(f) && n == Min(size, f.Size() - old(f.pos)) && f.pos == old(f.pos) + n
    ensures n > 0 ==> Shows(f, old(f.pos), data[..n])
  {
    hide Flat, Uniform, Fills, First, Count, Overwritten, File.Pressure;
    f.PressureInside();
    ghost var p, flat := f.Start() * f.kind.dev.blockSize + f.pos, Flat(f.kind.dev.blocks);
    ghost var tail;
    n, tail := f.Send(data, size);
    if n > 0 {
      OverwrittenHas(flat, p, data[..n], tail);
    }
  }

  method RecvInside(f: File, back: array<Byte>, size: nat) returns (m: nat)
    requires Ready(f) && size <= back.Length
    modifies f`pos, back
    ensures m == Min(size, f.Size() - old(f.pos)) && (m > 0 ==> Shows(f, old(f.pos), back[..m]))
  {
    hide Flat, Uniform, File.Pressure;
    f.PressureInside();
    m := f.Recv(back, size);
  }

  /** Receiving as much as there is delivers the bytes up to the end of the device, or of the partition. */
  method ReceiveAll(f: File, back: array<Byte>) returns (m: nat)
    requires Ready(f)
    modifies f`pos, back
    ensures var dev := f.kind.dev;
            var start := match f.kind.part case Whole => 0 case Part(first, _) => first * dev.blockSize;
            var end := (match f.kind.part case Whole => dev.blockCount case Part(_, count) => count) * dev.blockSize;
            && m == Min(back.Length, end - old(f.pos)) && start + end <= |Flat(dev.blocks)|
            && back[..m] == Flat(dev.blocks)[start + old(f.pos)..start + old(f.pos) + m]
  {
    hide Flat, Uniform;
    FlatLength(f.kind.dev.blocks, f.kind.dev.blockSize);
    m := RecvInside(f, back, back.Length);
  }

  /** What has been sent is what is received from the same position of a device that works. */
  method SendAndReceive(f: File, data: array<Byte>, back: array<Byte>, size: nat) returns (n: nat, m: nat)
    requires Ready(f) && size <= data.Length && size <= back.Length && data != back
    modifies f`pos, f.kind.dev`blocks, back
    ensures m == n == Min(size, f.Size() - old(f.pos)) && back[..n] == data[..n]
  {
    hide Flat, Uniform;
    var p := f.pos;
    n := SendInside(f, data, size);
    f.SetPosition(p);
    m := RecvInside(f, back, size);
  }

  lemma OverwrittenHas(f: seq<Byte>, p: nat, d: seq<Byte>, tail: seq<Byte>)
    requires p + |d| + |tail| <= |f|
    ensures Overwritten(f, p, d + tail)[p..p + |d|] == d
  {
  }

  lemma FlatOfTwo(blocks: seq<seq<Byte>>)
    requires |blocks| == 2
    ensures Flat(blocks) == blocks[0] + blocks[1]
  {
    assert blocks[1..] == [blocks[1]];
    assert blocks[1..][1..] == [];
    assert Flat(blocks[1..]) == blocks[1] + [];
  }

  /** A partition of one block on a device of two: a position in the second block is accepted, and sending
      there changes this block. */
  method PartitionLeft() returns (outside: Byte)
    ensures outside == 7
  {
    var dev := new Device(2, [[0, 0], [0, 0]], true);
    var f := new File(Dev(dev, Part(0, 1)));
    f.SetPosition(3);
    assert f.pos == 3;
    var data := new Byte[1] [7];
    ghost var tail;
    var n;
    n, tail := f.Send(data, 1);
    FlatOfTwo([[0, 0], [0, 0]]);
    FlatOfTwo(dev.blocks);
    OverwrittenHas([0, 0, 0, 0], 3, [7], tail);
    assert tail == [] && data[..1] == [7];
    assert Flat(dev.blocks)[3..4] == [7];
    assert (dev.blocks[0] + dev.blocks[1])[3] == Flat(dev.blocks)[3..4][0];
    outside := dev.blocks[1][1];
  }
}
