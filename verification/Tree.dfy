// The AVL tree with parent pointers (src/lib/common/cdi/tyndur-tree.c).

module TyndurTree {
  import opened TreeShape

  const KEY_COUNT: int := 0x1_0000_0000_0000_0000

  /** Keys are uint64_t. A fresh tree selects all bits of the key, so the mask is the identity. */
  type Key = k: int | 0 <= k < KEY_COUNT

  class Item {
    var parent: Item?
    var left: Item?
    var right: Item?
    var balance: int
    var key: Key

    /** The object this node is embedded in; the C code finds it by subtracting an offset. */
    var node: object?

    constructor (key: Key)
      ensures this.key == key && node == null
    {
      parent, left, right, balance := null, null, null, 0;
      node := null;
      this.key := key;
    }
  }

  type Path = seq<Frame<Item>>

  // ----- how a shape lies in the heap -----

  ghost function Root(s: Shape<Item>): (r: Item?)
    ensures r == null <==> s.Leaf?
    ensures r != null ==> r in Items(s)
  {
    if s.Leaf? then null else s.x
  }

  ghost function Under(s: Shape<Item>): set<Item> {
    if s.Leaf? then {} else Items(s.l) + Items(s.r)
  }

  ghost predicate ParentIs(s: Shape<Item>, p: Item?)
    reads (if s.Leaf? then {} else {s.x})`parent
  {
    s.Node? ==> s.x.parent == p
  }

  /** All links below the root of s; the root's own parent link is not part of it. */
  ghost predicate Hung(s: Shape<Item>)
    reads Items(s)`left, Items(s)`right, Under(s)`parent
  {
    match s
    case Leaf => true
    case Node(l, x, r) =>
      && x.left == Root(l) && x.right == Root(r)
      && ParentIs(l, x) && ParentIs(r, x)
      && Hung(l) && Hung(r)
  }

  ghost function AboveAt(path: Path, j: nat): Item?
    requires j <= |path|
  {
    if j == 0 then null else path[j - 1].x
  }

  ghost function BelowAt(path: Path, j: nat, hole: Item?): Item?
    requires j < |path|
  {
    if j + 1 < |path| then path[j + 1].x else hole
  }

  ghost predicate FrameLinked(f: Frame<Item>, above: Item?, below: Item?)
    reads FrameItems(f)`parent, FrameItems(f)`left, FrameItems(f)`right
  {
    && f.x.parent == above
    && f.x.left == (if f.dir == Left then below else Root(f.sib))
    && f.x.right == (if f.dir == Left then Root(f.sib) else below)
    && ParentIs(f.sib, f.x) && Hung(f.sib)
  }

  ghost predicate LinkedAt(path: Path, j: nat, hole: Item?)
    requires j < |path|
    reads FrameItems(path[j])`parent, FrameItems(path[j])`left, FrameItems(path[j])`right
  {
    FrameLinked(path[j], AboveAt(path, j), BelowAt(path, j, hole))
  }

  ghost predicate PathLinked(path: Path, hole: Item?)
    reads PathItems(path)`parent, PathItems(path)`left, PathItems(path)`right
  {
    forall j {:trigger LinkedAt(path, j, hole)} :: 0 <= j < |path| ==> LinkedAt(path, j, hole)
  }

  lemma ItemsAllocated(s: Shape<Item>)
    ensures forall y :: y in Items(s) ==> allocated(y)
  {
  }

  lemma SeqAllocated(c: seq<Item>)
    ensures forall y :: y in c ==> allocated(y)
  {
  }

  lemma Allocated(path: Path, s: Shape<Item>)
    ensures forall y :: y in PathItems(path) ==> allocated(y)
    ensures forall y :: y in Items(s) ==> allocated(y)
  {
    ItemsAllocated(s);
    forall y | y in PathItems(path)
      ensures allocated(y)
    {
      var j :| 0 <= j < |path| && y in FrameItems(path[j]);
      ItemsAllocated(path[j].sib);
    }
  }

  // ----- recorded balances -----

  ghost predicate Exact(s: Shape<Item>)
    reads Items(s)`balance
  {
    match s
    case Leaf => true
    case Node(l, x, r) => x.balance == Height(r) - Height(l) && Exact(l) && Exact(r)
  }

  ghost function Tilt(dir: Dir, sib: nat, below: nat): int {
    if dir == Left then sib - below else below - sib
  }

  ghost predicate ExactAt(path: Path, j: nat, h: nat)
    requires j < |path|
    reads path[j].x`balance
  {
    path[j].x.balance == Tilt(path[j].dir, Height(path[j].sib), HoleHeight(path, j + 1, h))
  }

  ghost predicate SpineExact(path: Path, h: nat)
    reads Spine(path)`balance
  {
    forall j {:trigger ExactAt(path, j, h)} :: 0 <= j < |path| ==> ExactAt(path, j, h)
  }

  ghost function SibItems(path: Path): set<Item> {
    set j, y | 0 <= j < |path| && y in Items(path[j].sib) :: y
  }

  ghost predicate SibsExact(path: Path)
    reads SibItems(path)`balance
  {
    forall j {:trigger path[j]} :: 0 <= j < |path| ==> Exact(path[j].sib)
  }

  lemma SpineApartFromSibs(path: Path)
    requires PathSeparate(path)
    ensures Spine(path) !! SibItems(path)
    ensures Spine(path) <= PathItems(path) && SibItems(path) <= PathItems(path)
  {
    forall i, j | 0 <= i < |path| && 0 <= j < |path|
      ensures path[i].x !in Items(path[j].sib)
    {
      if i < j {
        assert FrameItems(path[i]) !! FrameItems(path[j]);
      } else if j < i {
        assert FrameItems(path[j]) !! FrameItems(path[i]);
      }
      assert path[i].x in FrameItems(path[i]);
    }
    forall i | 0 <= i < |path|
      ensures FrameItems(path[i]) <= PathItems(path)
    {
    }
    forall y | y in SibItems(path)
      ensures y in PathItems(path) && y !in Spine(path)
    {
      var j :| 0 <= j < |path| && y in Items(path[j].sib);
      assert y in FrameItems(path[j]);
    }
  }

  lemma ExactParts(l: Shape<Item>, x: Item, r: Shape<Item>)
    ensures Exact(Node(l, x, r)) <==> x.balance == Height(r) - Height(l) && Exact(l) && Exact(r)
  {
  }

  lemma SpineDistinct(path: Path)
    requires PathSeparate(path)
    ensures forall i, j :: 0 <= i < j < |path| ==> path[i].x != path[j].x
  {
    forall i, j | 0 <= i < j < |path|
      ensures path[i].x != path[j].x
    {
      assert FrameItems(path[i]) !! FrameItems(path[j]);
      assert path[i].x in FrameItems(path[i]) && path[j].x in FrameItems(path[j]);
    }
  }

  /** The parent tells on which side the path comes up by comparing its left link. */
  lemma SideOfChild(path: Path, i: nat, item: Item)
    requires PathSeparate(path) && PathLinked(path, item) && item !in PathItems(path) && i < |path|
    ensures path[i].x.parent == AboveAt(path, i)
    ensures path[i].x.left == BelowAt(path, i, item) <==> path[i].dir == Left
    ensures path[i].x.right == BelowAt(path, i, item) <==> path[i].dir == Right
  {
    assert LinkedAt(path, i, item);
    var child := BelowAt(path, i, item);
    assert child !in FrameItems(path[i]) by {
      if i + 1 < |path| {
        assert FrameItems(path[i]) !! FrameItems(path[i + 1]);
        assert child in FrameItems(path[i + 1]);
      } else {
        assert FrameItems(path[i]) <= PathItems(path);
      }
    }
  }

  lemma ExactMoves(path: Path, j: nat, i: nat, h: nat, h': nat)
    requires j < i <= |path| && ExactAt(path, j, h)
    requires HoleHeight(path, i, h) == HoleHeight(path, i, h')
    ensures ExactAt(path, j, h')
  {
    HoleHeightsAgree(path, j + 1, i, h, h');
  }

  lemma SpineSettled(path: Path, i: nat, h: nat, h': nat)
    requires i <= |path|
    requires i == 0 || HoleHeight(path, i, h) == HoleHeight(path, i, h')
    requires forall j {:trigger ExactAt(path, j, h)} :: 0 <= j < i ==> ExactAt(path, j, h)
    requires forall j {:trigger ExactAt(path, j, h')} :: i <= j < |path| ==> ExactAt(path, j, h')
    ensures SpineExact(path, h')
  {
    hide HoleHeight, Height;
    forall j {:trigger ExactAt(path, j, h')} | 0 <= j < i
      ensures ExactAt(path, j, h')
    {
      assert ExactAt(path, j, h);
      ExactMoves(path, j, i, h, h');
    }
  }

  /** One climb of the loop body (lines 160-180): the new balance, and whether to stop. */
  method Bump(parent: Item, current: Item, value: int) returns (stop: bool)
    modifies parent`balance
    ensures parent.balance == old(parent.balance) + (if parent.left == current then -value else value)
    ensures stop == if parent.left == current then old(parent.balance) > 0 || parent.balance > 0
                    else old(parent.balance) < 0 || parent.balance < 0
  {
    stop := false;
    if parent.left == current {
      if parent.balance > 0 {
        stop := true;
      }
      parent.balance := parent.balance - value;
      if parent.balance > 0 {
        stop := true;
      }
    } else {
      if parent.balance < 0 {
        stop := true;
      }
      parent.balance := parent.balance + value;
      if parent.balance < 0 {
        stop := true;
      }
    }
  }

  /** What the climb keeps: from position i on the balances already fit the new height h' of the hole,
      and before it they still fit the old one. */
  ghost predicate Adjusting(path: Path, item: Item, i: nat, value: int, h: nat, h': nat, stop: bool)
    requires i <= |path|
    reads Spine(path)`balance, PathItems(path)`parent, PathItems(path)`left, PathItems(path)`right
  {
    && PathLinked(path, item)
    && HoleHeight(path, i, h') == HoleHeight(path, i, h) + (if stop then 0 else value)
    && (forall j {:trigger ExactAt(path, j, h)} :: 0 <= j < i ==> ExactAt(path, j, h))
    && (forall j {:trigger ExactAt(path, j, h')} :: i <= j < |path| ==> ExactAt(path, j, h'))
  }

  /** The next node of the climb, and what its balance means. */
  lemma NextUp(path: Path, item: Item, i: nat, value: int, h: nat, h': nat)
    requires PathSeparate(path) && item !in PathItems(path) && 0 < i <= |path|
    requires Adjusting(path, item, i, value, h, h', false)
    ensures path[i - 1].x.parent == AboveAt(path, i - 1) && path[i - 1].x in Spine(path) && ExactAt(path, i - 1, h)
    ensures path[i - 1].x.left == BelowAt(path, i - 1, item) <==> path[i - 1].dir == Left
    ensures forall j :: 0 <= j < |path| && j != i - 1 ==> path[j].x != path[i - 1].x
    ensures forall y :: y in Spine(path) ==> allocated(y)
    ensures forall y :: y in PathItems(path) ==> allocated(y)
  {
    hide HoleHeight, Height, LinkedAt, FrameLinked;
    SpineDistinct(path);
    SideOfChild(path, i - 1, item);
    Allocated(path, Leaf);
    SpineApartFromSibs(path);
  }

  /** One round of the loop. */
  method ClimbAndAdjust(item: Item, current: Item, value: int, ghost path: Path, ghost i: nat, ghost h: nat,
                        ghost h': nat)
    returns (parent: Item, stop: bool)
    requires (value == 1 || value == -1) && PathSeparate(path) && item !in PathItems(path) && 0 < i <= |path|
    requires current == BelowAt(path, i - 1, item) && current.parent == path[i - 1].x
    requires Adjusting(path, item, i, value, h, h', false)
    modifies path[i - 1].x`balance
    ensures parent == path[i - 1].x && parent.parent == AboveAt(path, i - 1)
    ensures Adjusting(path, item, i - 1, value, h, h', stop)
  {
    hide Height, PathLinked, PathSeparate, PathItems, Spine;
    NextUp(path, item, i, value, h, h');
    parent := current.parent;
    stop := Bump(parent, current, value);
  }

  /** Height change of the hole by value, pushed up the recorded balances (lines 155-183). */
  method AdjustBalance(item: Item, value: int, ghost path: Path, ghost h: nat, ghost h': nat)
    requires value == 1 || value == -1
    requires h' == h + value
    requires PathSeparate(path) && PathLinked(path, item) && SpineExact(path, h)
    requires item !in PathItems(path) && item.parent == AboveAt(path, |path|)
    modifies Spine(path)`balance
    ensures SpineExact(path, h')
  {
    var current, stop := item, false;
    ghost var i := |path|;
    assert Adjusting(path, item, i, value, h, h', false);
    hide Height, PathLinked, PathSeparate, PathItems, Adjusting, SpineExact;
    while current.parent != null && !stop
      invariant 0 <= i <= |path|
      invariant current == (if i < |path| then path[i].x else item) && current.parent == AboveAt(path, i)
      invariant Adjusting(path, item, i, value, h, h', stop)
      decreases i
    {
      current, stop := ClimbAndAdjust(item, current, value, path, i, h, h');
      i := i - 1;
    }
    Adjusted(path, item, i, value, h, h', stop);
  }

  lemma Adjusted(path: Path, item: Item, i: nat, value: int, h: nat, h': nat, stop: bool)
    requires i <= |path| && Adjusting(path, item, i, value, h, h', stop) && (i == 0 || stop)
    ensures SpineExact(path, h')
  {
    SpineSettled(path, i, h, h');
  }

  // ----- key order -----

  ghost predicate KeysBelow(c: seq<Item>, key: Key)
    reads (set x | x in c)`key
  {
    forall x :: x in c ==> x.key < key
  }

  ghost predicate KeysAbove(key: Key, c: seq<Item>)
    reads (set x | x in c)`key
  {
    forall x :: x in c ==> key < x.key
  }

  ghost predicate HasKey(c: seq<Item>, key: Key)
    reads (set x | x in c)`key
  {
    exists y :: y in c && y.key == key
  }

  ghost predicate Sorted(c: seq<Item>)
    reads (set x | x in c)`key
  {
    forall i, j :: 0 <= i < j < |c| ==> c[i].key < c[j].key
  }

  ghost predicate Ascending(s: Shape<Item>)
    reads Items(s)`key
  {
    ItemsInOrder(s);
    Sorted(InOrder(s))
  }

  lemma SortedParts(a: seq<Item>, x: Item, b: seq<Item>)
    requires Sorted(a + [x] + b)
    ensures Sorted(a) && Sorted(b) && KeysBelow(a, x.key) && KeysAbove(x.key, b)
  {
    var c := a + [x] + b;
    assert c[|a|] == x;
    forall i | 0 <= i < |a|
      ensures a[i] == c[i] && a[i].key < x.key
    {
    }
    forall i | 0 <= i < |b|
      ensures b[i] == c[|a| + 1 + i] && x.key < b[i].key
    {
    }
  }

  lemma SortedTogether(a: seq<Item>, x: Item, b: seq<Item>)
    requires Sorted(a + b) && KeysBelow(a, x.key) && KeysAbove(x.key, b)
    ensures Sorted(a + [x] + b)
  {
    var c, d := a + [x] + b, a + b;
    forall i | 0 <= i < |c|
      ensures c[i] == if i < |a| then d[i] else if i == |a| then x else d[i - 1]
    {
    }
    forall i, j | 0 <= i < j < |c|
      ensures c[i].key < c[j].key
    {
      if i == |a| {
        assert c[j] in b;
      } else if j == |a| {
        assert c[i] in a;
      } else {
        assert d[if i < |a| then i else i - 1].key < d[if j < |a| then j else j - 1].key;
      }
    }
  }

  /** y is what comes after x in c. */
  ghost predicate Follows(c: seq<Item>, x: Item, y: Item?) {
    forall i :: 0 <= i < |c| && c[i] == x ==> y == (if i + 1 < |c| then c[i + 1] else null)
  }

  /** y is what comes before x in c. */
  ghost predicate Precedes(c: seq<Item>, x: Item, y: Item?) {
    forall i :: 0 <= i < |c| && c[i] == x ==> y == (if i > 0 then c[i - 1] else null)
  }

  lemma FollowsAt(c: seq<Item>, i: nat, y: Item?)
    requires i < |c| && Follows(c, c[i], y)
    ensures y == if i + 1 < |c| then c[i + 1] else null
  {
  }

  lemma PrecedesAt(c: seq<Item>, i: nat, y: Item?)
    requires i < |c| && Precedes(c, c[i], y)
    ensures y == if i > 0 then c[i - 1] else null
  {
  }

  lemma NeighbourInside(c: seq<Item>, x: Item, y: Item?)
    requires x in c && (Follows(c, x, y) || Precedes(c, x, y))
    ensures y != null ==> y in c
  {
    var i :| 0 <= i < |c| && c[i] == x;
    if Follows(c, x, y) {
      FollowsAt(c, i, y);
    } else {
      PrecedesAt(c, i, y);
    }
  }

  lemma Neighbours(a: seq<Item>, x: Item, b: seq<Item>)
    requires KeysBelow(a, x.key) && KeysAbove(x.key, b)
    ensures var c := a + [x] + b;
            forall i :: 0 <= i < |c| && c[i] == x ==>
              && (i == |a|)
              && (if i + 1 < |c| then b != [] && c[i + 1] == b[0] else b == [])
              && (if i > 0 then a != [] && c[i - 1] == a[|a| - 1] else a == [])
  {
    var c := a + [x] + b;
    forall i | 0 <= i < |a|
      ensures c[i] != x
    {
      assert c[i] in a;
    }
    forall i | |a| < i < |c|
      ensures c[i] != x
    {
      assert c[i] in b;
    }
  }

  // ----- a path that runs through the left child of a node and then to the right -----

  /** down starts with path, turns left at item, and from there on only turns right, at least once. */
  ghost predicate Deep(path: Path, down: Path, item: Item, r: Shape<Item>) {
    && |path| + 1 < |down| && down[..|path|] == path && down[|path|] == Frame(Left, item, r)
    && (forall j :: |path| < j < |down| ==> down[j].dir == Right)
  }

  ghost function Swapped(down: Path, k: nat, subst: Item): Path
    requires k < |down|
  {
    down[k := Frame(down[k].dir, subst, down[k].sib)]
  }

  ghost function TailItems(path: Path, k: nat): set<Item> {
    set j, y | k <= j < |path| && y in FrameItems(path[j]) :: y
  }

  ghost predicate TailLinked(path: Path, k: nat, hole: Item?)
    reads TailItems(path, k)`parent, TailItems(path, k)`left, TailItems(path, k)`right
  {
    forall j {:trigger LinkedAt(path, j, hole)} :: k <= j < |path| ==> LinkedAt(path, j, hole)
  }

  lemma TailAllocated(path: Path, k: nat)
    ensures forall y :: y in TailItems(path, k) ==> allocated(y)
  {
    forall y | y in TailItems(path, k)
      ensures allocated(y)
    {
      var j :| k <= j < |path| && y in FrameItems(path[j]);
      ItemsAllocated(path[j].sib);
    }
  }

  lemma TailApart(path: Path, k: nat, y: Item, i: nat)
    requires PathSeparate(path) && i < k <= |path| && y in FrameItems(path[i])
    ensures y !in TailItems(path, k)
  {
    forall j | k <= j < |path|
      ensures y !in FrameItems(path[j])
    {
      assert FrameItems(path[i]) !! FrameItems(path[j]);
    }
  }

  lemma TailApartFromHole(path: Path, k: nat, s: Shape<Item>, y: Item)
    requires Separate(path, s) && y in Items(s)
    ensures y !in TailItems(path, k)
  {
    forall j | k <= j < |path|
      ensures y !in FrameItems(path[j])
    {
      assert FrameItems(path[j]) !! Items(s);
    }
  }

  lemma {:induction false} HoleHeightSwapped(down: Path, k: nat, subst: Item, j: nat, h: nat)
    requires k < |down| && j <= |down|
    ensures HoleHeight(Swapped(down, k, subst), j, h) == HoleHeight(down, j, h)
    decreases |down| - j
  {
    if j < |down| {
      HoleHeightSwapped(down, k, subst, j + 1, h);
    }
  }

  lemma AvlPathSwapped(down: Path, k: nat, subst: Item, h: nat)
    requires k < |down| && AvlPath(down, h)
    ensures AvlPath(Swapped(down, k, subst), h)
  {
    var p := Swapped(down, k, subst);
    hide Height, Avl, HoleHeight;
    forall j {:trigger AvlFrame(p, j, h)} | 0 <= j < |p|
      ensures AvlFrame(p, j, h)
    {
      assert AvlFrame(down, j, h);
      HoleHeightSwapped(down, k, subst, j + 1, h);
    }
  }

  lemma {:induction false} PostOfRights(path: Path, k: nat)
    requires k <= |path|
    requires forall j :: k <= j < |path| ==> path[j].dir == Right
    ensures Post(path) == Post(path[..k])
    decreases |path|
  {
    if k == |path| {
      assert path[..k] == path;
    } else {
      var up := Up(path);
      forall j | k <= j < |up|
        ensures up[j].dir == Right
      {
        assert up[j] == path[j];
      }
      PostOfRights(up, k);
      assert up[..k] == path[..k];
    }
  }

  lemma {:induction false} PreSwapped(down: Path, k: nat, subst: Item)
    requires k < |down| && down[k].dir == Left
    ensures Pre(Swapped(down, k, subst)) == Pre(down)
    decreases |down|
  {
    var p := Swapped(down, k, subst);
    if k == |down| - 1 {
      assert Up(p) == Up(down);
    } else {
      assert Up(p) == Swapped(Up(down), k, subst);
      assert Up(down)[k] == down[k];
      PreSwapped(Up(down), k, subst);
    }
  }

  /** In key order the substitute stands right before the node it replaces. */
  lemma DeepOrder(path: Path, down: Path, item: Item, r: Shape<Item>, ol: Shape<Item>, subst: Item)
    requires Deep(path, down, item, r)
    ensures var a, b := Pre(down) + InOrder(ol) + [subst], InOrder(r) + Post(path);
            && InOrder(Plug(down, Node(ol, subst, Leaf))) == a + [item] + b
            && InOrder(Plug(Swapped(down, |path|, subst), ol)) == a + b
  {
    var k, p, m := |path|, Swapped(down, |path|, subst), Node(ol, subst, Leaf);
    PlugInOrder(down, m);
    PlugInOrder(p, ol);
    PreSwapped(down, k, subst);
    DeepPost(path, down, item, r);
    DeepPost(path, p, subst, r);
    assert InOrder(m) == InOrder(ol) + [subst];
    hide InOrder, Pre, Post, Plug;
    Glue(Pre(down), InOrder(ol), subst, item, InOrder(r), Post(path));
  }

  lemma Glue(pre: seq<Item>, ol: seq<Item>, subst: Item, item: Item, r: seq<Item>, post: seq<Item>)
    ensures pre + (ol + [subst]) + (([item] + r) + post) == (pre + ol + [subst]) + [item] + (r + post)
    ensures pre + ol + (([subst] + r) + post) == (pre + ol + [subst]) + (r + post)
  {
  }

  lemma DeepPost(path: Path, down: Path, item: Item, r: Shape<Item>)
    requires Deep(path, down, item, r)
    ensures Post(down) == ([item] + InOrder(r)) + Post(path)
  {
    var k := |path|;
    PostOfRights(down, k + 1);
    assert Up(down[..k + 1]) == path && Last(down[..k + 1]) == down[k];
  }

  lemma SwappedSeparate(path: Path, down: Path, item: Item, r: Shape<Item>, ol: Shape<Item>, subst: Item)
    requires Deep(path, down, item, r) && Separate(down, Node(ol, subst, Leaf))
    ensures var p := Swapped(down, |path|, subst); Separate(p, ol)
  {
    var k, p, m := |path|, Swapped(down, |path|, subst), Node(ol, subst, Leaf);
    NodeApart(ol, subst, Leaf);
    assert FrameItems(p[k]) == {subst} + Items(r) && FrameItems(down[k]) == {item} + Items(r);
    assert subst in Items(m);
    hide Items, Distinct;
    forall i | 0 <= i < |p|
      ensures FrameItems(p[i]) !! Items(ol) && (i != k ==> FrameItems(p[i]) !! FrameItems(p[k]))
    {
      assert FrameItems(down[i]) !! Items(m);
      if i < k {
        assert FrameItems(down[i]) !! FrameItems(down[k]);
      } else if i > k {
        assert FrameItems(down[k]) !! FrameItems(down[i]);
      }
      assert FrameItems(down[k]) !! Items(m);
    }
    forall i, j | 0 <= i < j < |p|
      ensures FrameItems(p[i]) !! FrameItems(p[j])
    {
      if i != k && j != k {
        assert FrameItems(down[i]) !! FrameItems(down[j]);
      }
    }
    assert subst !in Items(r);
  }

  lemma DeepApart(path: Path, down: Path, item: Item, r: Shape<Item>, ol: Shape<Item>, subst: Item)
    requires Deep(path, down, item, r) && Separate(down, Node(ol, subst, Leaf))
    ensures var k := |path|; var x := down[k + 1].x;
            && item != subst && item != x && subst != x
            && item !in Items(r) && subst !in Items(r) && x !in Items(r)
            && Items(ol) !! Items(r) && item !in Items(ol) && subst !in Items(ol) && x !in Items(ol)
            && Distinct(r) && Distinct(ol)
            && subst !in TailItems(down, k + 2) && x !in TailItems(down, k + 2)
            && item !in FrameItems(down[k + 1]) && subst !in FrameItems(down[k + 1])
            && x !in Items(down[k + 1].sib) && Items(r) !! FrameItems(down[k + 1])
    ensures Items(r) !! TailItems(down, |path| + 2)
  {
    var k := |path|;
    NodeApart(ol, subst, Leaf);
    assert FrameItems(down[k]) !! FrameItems(down[k + 1]);
    assert FrameItems(down[k]) !! Items(Node(ol, subst, Leaf));
    assert FrameItems(down[k + 1]) !! Items(Node(ol, subst, Leaf));
    assert FrameItems(down[k]) == {item} + Items(r);
    hide Items;
    TailApartFromHole(down, k + 2, Node(ol, subst, Leaf), subst);
    TailApart(down, k + 2, down[k + 1].x, k + 1);
    forall y | y in Items(r)
      ensures y !in TailItems(down, k + 2)
    {
      TailApart(down, k + 2, y, k);
    }
  }

  lemma SwappedItems(path: Path, down: Path, item: Item, r: Shape<Item>, ol: Shape<Item>, subst: Item)
    requires Deep(path, down, item, r) && Separate(down, Node(ol, subst, Leaf))
    ensures var all := PathItems(Swapped(down, |path|, subst)) + Items(ol);
            PathItems(down) + Items(Node(ol, subst, Leaf)) == all + {item} && item !in all
  {
    var k, p, m := |path|, Swapped(down, |path|, subst), Node(ol, subst, Leaf);
    assert FrameItems(p[k]) == {subst} + Items(r) && FrameItems(down[k]) == {item} + Items(r);
    assert Items(m) == Items(ol) + {subst};
    DeepApart(path, down, item, r, ol, subst);
    hide Items;
    forall y | y in PathItems(p)
      ensures y in PathItems(down) + Items(m) && y != item
    {
      var j :| 0 <= j < |p| && y in FrameItems(p[j]);
      if j != k {
        assert y in FrameItems(down[j]);
        if j < k {
          assert FrameItems(down[j]) !! FrameItems(down[k]);
        } else {
          assert FrameItems(down[k]) !! FrameItems(down[j]);
        }
        assert item in FrameItems(down[k]);
      } else if y in Items(r) {
        assert y in FrameItems(down[k]);
      }
    }
    forall y | y in PathItems(down)
      ensures y in PathItems(p) || y == item
    {
      var j :| 0 <= j < |down| && y in FrameItems(down[j]);
      if j != k {
        assert y in FrameItems(p[j]);
      } else if y in Items(r) {
        assert y in FrameItems(p[k]);
      }
    }
    assert subst in FrameItems(p[k]);
  }

  /** Once the frame of the replaced node carries the substitute, only it and the next frame differ. */
  lemma TailSwapped(down: Path, k: nat, subst: Item, hole: Item?)
    requires k + 1 < |down|
    requires TailLinked(down, k + 2, hole)
    requires FrameLinked(down[k + 1], subst, BelowAt(down, k + 1, hole))
    requires FrameLinked(Frame(down[k].dir, subst, down[k].sib), AboveAt(down, k), down[k + 1].x)
    ensures TailLinked(Swapped(down, k, subst), k, hole)
  {
    var p := Swapped(down, k, subst);
    forall j {:trigger LinkedAt(p, j, hole)} | k <= j < |p|
      ensures LinkedAt(p, j, hole)
    {
      if j >= k + 2 {
        assert LinkedAt(down, j, hole);
      }
    }
  }

  /** The part of a path above a node and the part from that node on make up the path. */
  lemma PathFromParts(path: Path, p: Path, hole: Item?)
    requires |path| < |p| && p[..|path|] == path
    requires PathLinked(path, p[|path|].x) && TailLinked(p, |path|, hole)
    ensures PathLinked(p, hole)
  {
    forall j {:trigger LinkedAt(p, j, hole)} | 0 <= j < |p|
      ensures LinkedAt(p, j, hole)
    {
      if j < |path| {
        assert p[j] == path[j];
        assert LinkedAt(path, j, p[|path|].x);
      }
    }
  }

  // ----- slots: the pointer to the pointer to a node -----

  datatype Slot = RootSlot | LeftOf(of: Item) | RightOf(of: Item)

  ghost function SlotOf(path: Path): Slot {
    if path == [] then RootSlot
    else if Last(path).dir == Left then LeftOf(Last(path).x)
    else RightOf(Last(path).x)
  }

  lemma LastApart(path: Path)
    requires PathSeparate(path) && path != []
    ensures Last(path).x !in Items(Last(path).sib)
    ensures forall j :: 0 <= j < |path| - 1 ==> Last(path).x !in FrameItems(path[j])
  {
    forall j | 0 <= j < |path| - 1
      ensures Last(path).x !in FrameItems(path[j])
    {
      assert FrameItems(path[j]) !! FrameItems(path[|path| - 1]);
    }
  }

  lemma SeparateFacts(path: Path, s: Shape<Item>)
    requires Separate(path, s)
    ensures PathItems(path) !! Items(s)
    ensures path != [] ==> Last(path).x in PathItems(path)
  {
    if path != [] {
      assert Last(path).x in FrameItems(path[|path| - 1]);
    }
  }

  lemma NodeApart(l: Shape<Item>, x: Item, r: Shape<Item>)
    requires Distinct(Node(l, x, r))
    ensures Items(Node(l, x, r)) == Items(l) + {x} + Items(r)
    ensures x !in Items(l) && x !in Items(r) && Items(l) !! Items(r)
    ensures Distinct(l) && Distinct(r)
  {
  }

  lemma UnderRoot(s: Shape<Item>)
    requires Distinct(s)
    ensures Under(s) <= Items(s)
    ensures s.Node? ==> s.x in Items(s) && s.x !in Under(s)
  {
  }

  lemma NodeTogether(l: Shape<Item>, x: Item, r: Shape<Item>)
    requires Distinct(l) && Distinct(r)
    requires x !in Items(l) && x !in Items(r) && Items(l) !! Items(r)
    ensures Distinct(Node(l, x, r)) && Items(Node(l, x, r)) == Items(l) + {x} + Items(r)
  {
  }

  lemma HungParts(l: Shape<Item>, x: Item, r: Shape<Item>)
    requires Hung(Node(l, x, r))
    ensures x.left == Root(l) && x.right == Root(r)
    ensures ParentIs(l, x) && ParentIs(r, x) && Hung(l) && Hung(r)
  {
  }

  lemma HungNode(l: Shape<Item>, x: Item, r: Shape<Item>)
    requires x.left == Root(l) && x.right == Root(r)
    requires ParentIs(l, x) && ParentIs(r, x) && Hung(l) && Hung(r)
    ensures Hung(Node(l, x, r))
  {
  }

  lemma PathRehung(path: Path, hole: Item?, hole': Item?)
    requires forall j {:trigger LinkedAt(path, j, hole)} :: 0 <= j < |path| - 1 ==> LinkedAt(path, j, hole)
    requires path != [] ==> FrameLinked(Last(path), AboveAt(path, |path| - 1), hole')
    ensures PathLinked(path, hole')
  {
    forall j {:trigger LinkedAt(path, j, hole')} | 0 <= j < |path|
      ensures LinkedAt(path, j, hole')
    {
      if j < |path| - 1 {
        assert LinkedAt(path, j, hole);
      }
    }
  }

  method TurnLeft(item: Item, ghost s: Shape<Item>) returns (tmp: Item)
    requires s.Node? && s.r.Node? && item == s.x && Distinct(s) && Hung(s)
    modifies Items(s)`left, Items(s)`right, Items(s)`parent
    ensures tmp == s.r.x && tmp.parent == old(item.parent) && Hung(TreeShape.RotateLeft(s))
  {
    hide Items, Distinct, Hung, Under;
    ghost var a, b, c := s.l, s.r.l, s.r.r;
    NodeApart(a, item, s.r);
    NodeApart(b, s.r.x, c);
    HungParts(a, item, s.r);
    HungParts(b, s.r.x, c);
    UnderRoot(a);
    UnderRoot(b);
    UnderRoot(c);
    tmp := item.right;
    tmp.parent := item.parent;
    item.parent := tmp;
    if tmp.left != null {
      tmp.left.parent := item;
    }
    item.right := tmp.left;
    tmp.left := item;
    assert Hung(a) && Hung(b) && Hung(c);
    HungNode(a, item, b);
    HungNode(Node(a, item, b), tmp, c);
  }

  method TurnRight(item: Item, ghost s: Shape<Item>) returns (tmp: Item)
    requires s.Node? && s.l.Node? && item == s.x && Distinct(s) && Hung(s)
    modifies Items(s)`left, Items(s)`right, Items(s)`parent
    ensures tmp == s.l.x && tmp.parent == old(item.parent) && Hung(TreeShape.RotateRight(s))
  {
    hide Items, Distinct, Hung, Under;
    ghost var a, b, c := s.l.l, s.l.r, s.r;
    NodeApart(s.l, item, c);
    NodeApart(a, s.l.x, b);
    HungParts(s.l, item, c);
    HungParts(a, s.l.x, b);
    UnderRoot(a);
    UnderRoot(b);
    UnderRoot(c);
    tmp := item.left;
    tmp.parent := item.parent;
    item.parent := tmp;
    if tmp.right != null {
      tmp.right.parent := item;
    }
    item.left := tmp.right;
    tmp.right := item;
    assert Hung(a) && Hung(b) && Hung(c);
    HungNode(b, item, c);
    HungNode(a, tmp, Node(b, item, c));
  }

  method WeighLeft(low: Item, lowBalance: int, top: Item, topBalance: int, ghost t: Shape<Item>)
    requires t.Node? && t.l.Node? && t.x == top && t.l.x == low && Distinct(t)
    requires Exact(t.l.l) && Exact(t.l.r) && Exact(t.r)
    requires lowBalance == Tip(t.l) && topBalance == Tip(t)
    modifies low`balance, top`balance
    ensures Exact(t)
  {
    ghost var a, b, c := t.l.l, t.l.r, t.r;
    NodeApart(t.l, top, c);
    NodeApart(a, low, b);
    hide Height, Distinct, Exact, Items;
    low.balance := lowBalance;
    top.balance := topBalance;
    ExactParts(a, low, b);
    ExactParts(t.l, top, c);
  }

  method WeighRight(low: Item, lowBalance: int, top: Item, topBalance: int, ghost t: Shape<Item>)
    requires t.Node? && t.r.Node? && t.x == top && t.r.x == low && Distinct(t)
    requires Exact(t.r.l) && Exact(t.r.r) && Exact(t.l)
    requires lowBalance == Tip(t.r) && topBalance == Tip(t)
    modifies low`balance, top`balance
    ensures Exact(t)
  {
    ghost var a, b, c := t.l, t.r.l, t.r.r;
    NodeApart(a, top, t.r);
    NodeApart(b, low, c);
    hide Height, Distinct, Exact, Items;
    low.balance := lowBalance;
    top.balance := topBalance;
    ExactParts(b, low, c);
    ExactParts(a, top, t.r);
  }

  ghost predicate QuartersExact(t: Shape<Item>)
    requires t.Node? && t.l.Node? && t.r.Node?
    reads Items(t)`balance
  {
    assert Items(t) == Items(t.l) + {t.x} + Items(t.r);
    assert Items(t.l) == Items(t.l.l) + {t.l.x} + Items(t.l.r);
    assert Items(t.r) == Items(t.r.l) + {t.r.x} + Items(t.r.r);
    Exact(t.l.l) && Exact(t.l.r) && Exact(t.r.l) && Exact(t.r.r)
  }

  lemma BothApart(t: Shape<Item>)
    requires t.Node? && t.l.Node? && t.r.Node? && Distinct(t)
    ensures t.x != t.l.x && t.x != t.r.x && t.l.x != t.r.x
    ensures forall y :: y in Items(t.l.l) ==> y != t.x && y != t.l.x && y != t.r.x
    ensures forall y :: y in Items(t.l.r) ==> y != t.x && y != t.l.x && y != t.r.x
    ensures forall y :: y in Items(t.r.l) ==> y != t.x && y != t.l.x && y != t.r.x
    ensures forall y :: y in Items(t.r.r) ==> y != t.x && y != t.l.x && y != t.r.x
  {
    NodeApart(t.l, t.x, t.r);
    NodeApart(t.l.l, t.l.x, t.l.r);
    NodeApart(t.r.l, t.r.x, t.r.r);
    hide Distinct, Items;
  }

  lemma BothExact(t: Shape<Item>)
    requires t.Node? && t.l.Node? && t.r.Node?
    requires QuartersExact(t)
    requires t.x.balance == Tip(t) && t.l.x.balance == Tip(t.l) && t.r.x.balance == Tip(t.r)
    ensures Exact(t)
  {
    ExactParts(t.l.l, t.l.x, t.l.r);
    ExactParts(t.r.l, t.r.x, t.r.r);
    ExactParts(t.l, t.x, t.r);
    hide Exact, Height;
  }

  method WeighBoth(left: Item, top: Item, right: Item, ghost t: Shape<Item>)
    requires t.Node? && t.l.Node? && t.r.Node? && Distinct(t)
    requires t.x == top && t.l.x == left && t.r.x == right
    requires QuartersExact(t)
    requires Tip(t) == 0
    requires Tip(t.l) == (if top.balance == 1 then -1 else 0)
    requires Tip(t.r) == (if top.balance == -1 then 1 else 0)
    modifies left`balance, top`balance, right`balance
    ensures Exact(t)
  {
    BothApart(t);
    hide Height, Distinct, Exact, Items;
    left.balance := if top.balance == 1 then -1 else 0;
    right.balance := if top.balance == -1 then 1 else 0;
    top.balance := 0;
    BothExact(t);
  }

  class Tree {
    var root: Item?
    ghost var shape: Shape<Item>

    /** The tree is the path with s hanging in its hole. */
    ghost predicate Zip(path: Path, s: Shape<Item>)
      reads this`root
      reads PathItems(path)`parent, PathItems(path)`left, PathItems(path)`right
      reads Items(s)`parent, Items(s)`left, Items(s)`right
    {
      && Separate(path, s)
      && PathLinked(path, Root(s))
      && ParentIs(s, AboveAt(path, |path|)) && Hung(s)
      && TopIs(path, Root(s))
    }

    /** The pointer a slot denotes (lines 234-244 hand out such slots). */
    function Load(slot: Slot): Item?
      reads this, if slot.RootSlot? then {} else {slot.of}
    {
      match slot
      case RootSlot => root
      case LeftOf(i) => i.left
      case RightOf(i) => i.right
    }

    ghost predicate TopIs(path: Path, hole: Item?)
      reads this`root
    {
      root == (if path == [] then hole else path[0].x)
    }

    /** Assigning through the slot of the hole hangs another node into it. */
    method Store(slot: Slot, item: Item?, ghost path: Path, ghost hole: Item?)
      requires slot == SlotOf(path)
      requires PathSeparate(path) && PathLinked(path, hole) && TopIs(path, hole)
      modifies (if path == [] then {this} else {})`root
      modifies (if path == [] then {} else {Last(path).x})`left
      modifies (if path == [] then {} else {Last(path).x})`right
      ensures PathLinked(path, item) && TopIs(path, item)
    {
      if path != [] {
        LastApart(path);
        assert LinkedAt(path, |path| - 1, hole);
      }
      match slot {
        case RootSlot => root := item;
        case LeftOf(i) => i.left := item;
        case RightOf(i) => i.right := item;
      }
      assert forall j {:trigger LinkedAt(path, j, hole)} :: 0 <= j < |path| - 1 ==> LinkedAt(path, j, hole);
      PathRehung(path, hole, item);
    }

    /** Lines 189-203. */
    method RotateLeft(slot: Slot, ghost path: Path, ghost s: Shape<Item>)
      requires s.Node? && s.r.Node?
      requires Zip(path, s) && slot == SlotOf(path)
      modifies (if path == [] then {this} else {})`root
      modifies (if path == [] then {} else {Last(path).x})`left
      modifies (if path == [] then {} else {Last(path).x})`right
      modifies Items(s)`left, Items(s)`right, Items(s)`parent
      ensures Zip(path, TreeShape.RotateLeft(s))
    {
      SeparateFacts(path, s);
      SlotHoldsRoot(path, s);
      RotationsKeepItems(s);
      Allocated(path, s);
      UnderRoot(TreeShape.RotateLeft(s));
      hide Items, Distinct, PathSeparate, PathLinked, PathItems, Hung;
      var item := Load(slot);
      var tmp := TurnLeft(item, s);
      assert PathLinked(path, item);
      Store(slot, tmp, path, item);
      assert Hung(TreeShape.RotateLeft(s));
    }

    lemma SlotHoldsRoot(path: Path, s: Shape<Item>)
      requires Zip(path, s)
      ensures Load(SlotOf(path)) == Root(s)
    {
      if path != [] {
        assert LinkedAt(path, |path| - 1, Root(s));
      }
    }

    /** Lines 209-223. */
    method RotateRight(slot: Slot, ghost path: Path, ghost s: Shape<Item>)
      requires s.Node? && s.l.Node?
      requires Zip(path, s) && slot == SlotOf(path)
      modifies (if path == [] then {this} else {})`root
      modifies (if path == [] then {} else {Last(path).x})`left
      modifies (if path == [] then {} else {Last(path).x})`right
      modifies Items(s)`left, Items(s)`right, Items(s)`parent
      ensures Zip(path, TreeShape.RotateRight(s))
    {
      SeparateFacts(path, s);
      SlotHoldsRoot(path, s);
      RotationsKeepItems(s);
      Allocated(path, s);
      UnderRoot(TreeShape.RotateRight(s));
      hide Items, Distinct, PathSeparate, PathLinked, PathItems, Hung;
      var item := Load(slot);
      var tmp := TurnRight(item, s);
      assert PathLinked(path, item);
      Store(slot, tmp, path, item);
      assert Hung(TreeShape.RotateRight(s));
    }

    // ----- moving the hole -----

    lemma ZipUp(path: Path, s: Shape<Item>)
      requires path != [] && Zip(path, s)
      ensures Zip(Up(path), PlugOne(Last(path), s))
      ensures s.Node? ==> s.x.parent == Last(path).x
    {
      var up, f, t := Up(path), Last(path), PlugOne(Last(path), s);
      SeparateUp(path, s);
      assert LinkedAt(path, |path| - 1, Root(s));
      HungNode(t.l, t.x, t.r);
      hide Hung, Separate, FrameLinked;
      forall j {:trigger LinkedAt(up, j, t.x)} | 0 <= j < |up|
        ensures LinkedAt(up, j, t.x)
      {
        assert LinkedAt(path, j, Root(s));
        assert up[j] == path[j];
      }
    }

    lemma ZipDown(path: Path, f: Frame<Item>, s: Shape<Item>)
      requires Zip(path, PlugOne(f, s))
      ensures Zip(path + [f], s)
    {
      var down, t := path + [f], PlugOne(f, s);
      SeparateDown(path, f, s);
      HungParts(t.l, t.x, t.r);
      hide Hung, Separate;
      forall j {:trigger LinkedAt(down, j, Root(s))} | 0 <= j < |down|
        ensures LinkedAt(down, j, Root(s))
      {
        if j < |path| {
          assert LinkedAt(path, j, t.x);
          assert down[j] == path[j];
        } else {
          assert down[j] == f;
        }
      }
    }

    // ----- rebalancing -----

    /** Every balance field on the path records the true height difference for a hole of height h. */
    ghost predicate PathRecorded(path: Path, h: nat)
      reads Spine(path)`balance, SibItems(path)`balance
    {
      SpineExact(path, h) && SibsExact(path)
    }

    /** adjust_balance called on the root of what hangs in the hole. */
    method Shrink(top: Item, ghost path: Path, ghost t: Shape<Item>, ghost h: nat)
      requires Zip(path, t) && top == Root(t) && h == Height(t) + 1
      requires PathRecorded(path, h) && Exact(t)
      modifies Spine(path)`balance
      ensures Zip(path, t) && PathRecorded(path, Height(t)) && Exact(t)
    {
      SeparateFacts(path, t);
      SpineApartFromSibs(path);
      Allocated(path, t);
      hide PathSeparate, PathLinked, Exact, Items, SpineExact, Hung;
      AdjustBalance(top, -1, path, h, Height(t));
    }

    lemma SpaceFacts(path: Path, s: Shape<Item>)
      requires Separate(path, s)
      ensures Items(s) !! Spine(path) && Items(s) !! SibItems(path)
      ensures forall y :: y in Spine(path) ==> allocated(y)
      ensures forall y :: y in SibItems(path) ==> allocated(y)
      ensures forall y :: y in PathItems(path) ==> allocated(y)
      ensures forall y :: y in Items(s) ==> allocated(y)
      ensures path != [] ==> Last(path).x in Spine(path)
    {
      hide Items, Distinct;
      SeparateFacts(path, s);
      SpineApartFromSibs(path);
      Allocated(path, s);
      assert path != [] ==> path[|path| - 1].x in Spine(path);
    }

    lemma ZipSpace(path: Path, s: Shape<Item>)
      requires Zip(path, s)
      ensures Distinct(s) && Items(s) !! Spine(path) && Items(s) !! SibItems(path)
      ensures forall y :: y in Spine(path) ==> allocated(y)
      ensures forall y :: y in SibItems(path) ==> allocated(y)
      ensures forall y :: y in PathItems(path) ==> allocated(y)
      ensures forall y :: y in Items(s) ==> allocated(y)
      ensures path != [] ==> Last(path).x in Spine(path)
      ensures s.Node? ==> s.x.left == Root(s.l) && s.x.right == Root(s.r)
    {
      SpaceFacts(path, s);
    }

    lemma LeftTurnFacts(path: Path, s: Shape<Item>)
      requires Zip(path, s) && Exact(s)
      requires s.Node? && Avl(s.l) && Avl(s.r) && Tip(s) == 2
      ensures s.r.Node? && s.x.right == s.r.x && s.r.x.balance == Tip(s.r)
      ensures Exact(s.l) && Exact(s.r.l) && Exact(s.r.r)
      ensures var t := TreeShape.RotateLeft(s); Distinct(t) && Items(t) == Items(s)
      ensures s.x in Items(s) && s.r.x in Items(s)
      ensures Items(s.l) <= Items(s) && Items(s.r.l) <= Items(s) && Items(s.r.r) <= Items(s)
    {
      LeftRotationHeights(s);
      RotationsKeepItems(s);
      hide Height, Avl, PathLinked;
      ExactParts(s.l, s.x, s.r);
      ExactParts(s.r.l, s.r.x, s.r.r);
      HungParts(s.l, s.x, s.r);
      NodeApart(s.l, s.x, s.r);
      NodeApart(s.r.l, s.r.x, s.r.r);
    }

    method TurnLeftAndWeigh(item: Item, lowBalance: int, pitem: Slot, topBalance: int, ghost path: Path,
                            ghost s: Shape<Item>)
      requires Zip(path, s) && Exact(s) && pitem == SlotOf(path)
      requires s.Node? && item == s.x && Avl(s.l) && Avl(s.r) && Tip(s) == 2
      requires s.r.Node? && Tip(s.r) >= 0
      requires lowBalance == 1 - Tip(s.r) && topBalance == Tip(s.r) - 1
      modifies (if path == [] then {this} else {})`root
      modifies Spine(path)`left, Spine(path)`right
      modifies Items(s)`left, Items(s)`right, Items(s)`parent, Items(s)`balance
      ensures var t := TreeShape.RotateLeft(s); Zip(path, t) && Exact(t)
    {
      hide Height, Avl, Distinct, PathSeparate, PathLinked, Exact, Items, PathItems, Hung, Zip, SibItems, Spine;
      ghost var t := TreeShape.RotateLeft(s);
      LeftTurnFacts(path, s);
      LeftRotationHeights(s);
      ZipSpace(path, s);
      var tmp := item.right;
      RotateLeft(pitem, path, s);
      WeighLeft(item, lowBalance, tmp, topBalance, t);
    }

    /** The right child leans right (lines 263-268). */
    method SingleLeft(item: Item, pitem: Slot, ghost path: Path, ghost s: Shape<Item>) returns (ghost t: Shape<Item>)
      requires Zip(path, s) && Exact(s) && PathRecorded(path, Height(s)) && pitem == SlotOf(path)
      requires s.Node? && item == s.x && Avl(s.l) && Avl(s.r) && Tip(s) == 2
      requires s.r.Node? && Tip(s.r) > 0
      modifies (if path == [] then {this} else {})`root
      modifies Spine(path)`left, Spine(path)`right, Spine(path)`balance
      modifies Items(s)`left, Items(s)`right, Items(s)`parent, Items(s)`balance
      ensures t == TreeShape.RotateLeft(s)
      ensures Zip(path, t) && Exact(t) && PathRecorded(path, Height(t))
    {
      hide Height, Avl, PathRecorded, Exact, Items, PathItems, Zip, SibItems, Spine;
      t := TreeShape.RotateLeft(s);
      LeftRotationHeights(s);
      ZipSpace(path, s);
      ghost var h := Height(s);
      var tmp := item.right;
      TurnLeftAndWeigh(item, 0, pitem, 0, path, s);
      Shrink(tmp, path, t, h);
    }

    /** The right child is level (lines 269-273). */
    method EvenLeft(item: Item, pitem: Slot, ghost path: Path, ghost s: Shape<Item>) returns (ghost t: Shape<Item>)
      requires Zip(path, s) && Exact(s) && PathRecorded(path, Height(s)) && pitem == SlotOf(path)
      requires s.Node? && item == s.x && Avl(s.l) && Avl(s.r) && Tip(s) == 2
      requires s.r.Node? && Tip(s.r) == 0
      modifies (if path == [] then {this} else {})`root
      modifies Spine(path)`left, Spine(path)`right
      modifies Items(s)`left, Items(s)`right, Items(s)`parent, Items(s)`balance
      ensures t == TreeShape.RotateLeft(s)
      ensures Zip(path, t) && Exact(t) && PathRecorded(path, Height(t))
    {
      hide Height, Avl, PathRecorded, Exact, Items, PathItems, Zip, SibItems, Spine;
      t := TreeShape.RotateLeft(s);
      LeftRotationHeights(s);
      ZipSpace(path, s);
      TurnLeftAndWeigh(item, 1, pitem, -1, path, s);
    }

    lemma DoubleLeftFacts(path: Path, s: Shape<Item>)
      requires Zip(path, s) && Exact(s)
      requires s.Node? && Avl(s.l) && Avl(s.r) && Tip(s) == 2
      requires s.r.Node? && Tip(s.r) < 0
      ensures s.r.l.Node? && s.x.right == s.r.x && s.r.x.left == s.r.l.x
      ensures s.r.l.x.balance == Tip(s.r.l)
      ensures var t := DoubleLeft(s);
              && Distinct(t) && Items(t) == Items(s) && QuartersExact(t)
              && Tip(t) == 0
              && Tip(t.l) == (if s.r.l.x.balance == 1 then -1 else 0)
              && Tip(t.r) == (if s.r.l.x.balance == -1 then 1 else 0)
      ensures s.x in Items(s) && s.r.x in Items(s) && s.r.l.x in Items(s)
    {
      DoubleLeftHeights(s);
      hide Height, Avl, PathLinked;
      ghost var m := s.r.l;
      DoubleLeftKeepsItems(s);
      hide Distinct, Items;
      ExactParts(s.l, s.x, s.r);
      ExactParts(s.r.l, s.r.x, s.r.r);
      ExactParts(m.l, m.x, m.r);
      HungParts(s.l, s.x, s.r);
      HungParts(s.r.l, s.r.x, s.r.r);
    }

    lemma DoubleLeftKeepsItems(s: Shape<Item>)
      requires s.Node? && s.r.Node? && s.r.l.Node? && Distinct(s)
      ensures var t := DoubleLeft(s); Distinct(t) && Items(t) == Items(s)
      ensures s.x in Items(s) && s.r.x in Items(s) && s.r.l.x in Items(s)
      ensures Items(s.r) <= Items(s)
      ensures Items(s.l) <= Items(s) && Items(s.r.r) <= Items(s)
      ensures Items(s.r.l.l) <= Items(s) && Items(s.r.l.r) <= Items(s)
    {
      ghost var u := Node(s.l, s.x, TreeShape.RotateRight(s.r));
      hide Distinct, Items;
      NodeApart(s.l, s.x, s.r);
      NodeApart(s.r.l, s.r.x, s.r.r);
      NodeApart(s.r.l.l, s.r.l.x, s.r.l.r);
      RotationsKeepItems(s.r);
      NodeTogether(s.l, s.x, TreeShape.RotateRight(s.r));
      RotationsKeepItems(u);
    }

    /** Both rotations of the double rotation; balances are left alone. */
    method TurnTwiceLeft(item: Item, pitem: Slot, ghost path: Path, ghost s: Shape<Item>) returns (top: Item)
      requires Zip(path, s) && pitem == SlotOf(path)
      requires s.Node? && item == s.x && s.r.Node? && s.r.l.Node?
      modifies (if path == [] then {this} else {})`root
      modifies Spine(path)`left, Spine(path)`right
      modifies Items(s)`left, Items(s)`right, Items(s)`parent
      ensures Zip(path, DoubleLeft(s)) && top == DoubleLeft(s).x
    {
      ghost var f := Frame(Right, item, s.l);
      ghost var u := TreeShape.RotateRight(s.r);
      ghost var down := path + [f];
      SpaceFacts(path, s);
      ZipDown(path, f, s.r);
      DoubleLeftKeepsItems(s);
      RotationsKeepItems(s.r);
      NodeTogether(s.l, s.x, u);
      assert Up(down) == path && Last(down) == f;
      hide Zip, Items, PathItems, Spine, SibItems, PathLinked, PathSeparate, Hung, Distinct;
      RotateRight(RightOf(item), down, s.r);
      ZipUp(down, u);
      RotateLeft(pitem, path, Node(s.l, item, u));
      SlotHoldsRoot(path, DoubleLeft(s));
      top := Load(pitem);
    }

    method TurnTwiceLeftAndWeigh(item: Item, pitem: Slot, ghost path: Path, ghost s: Shape<Item>) returns (top: Item)
      requires Zip(path, s) && Exact(s) && pitem == SlotOf(path)
      requires s.Node? && item == s.x && Avl(s.l) && Avl(s.r) && Tip(s) == 2
      requires s.r.Node? && Tip(s.r) < 0
      modifies (if path == [] then {this} else {})`root
      modifies Spine(path)`left, Spine(path)`right
      modifies Items(s)`left, Items(s)`right, Items(s)`parent, Items(s)`balance
      ensures s.r.l.Node?
      ensures var t := DoubleLeft(s); Zip(path, t) && Exact(t) && top == t.x
    {
      hide Height, Avl, Exact, QuartersExact, Items, PathItems, Zip, SibItems, Spine, Distinct, Hung;
      DoubleLeftFacts(path, s);
      ghost var t := DoubleLeft(s);
      ZipSpace(path, s);
      var tmp := item.right;
      top := TurnTwiceLeft(item, pitem, path, s);
      WeighBoth(item, top, tmp, t);
    }

    /** The right child leans left (lines 274-282). */
    method DoubleLeftTurn(item: Item, pitem: Slot, ghost path: Path, ghost s: Shape<Item>)
      returns (ghost t: Shape<Item>)
      requires Zip(path, s) && Exact(s) && PathRecorded(path, Height(s)) && pitem == SlotOf(path)
      requires s.Node? && item == s.x && Avl(s.l) && Avl(s.r) && Tip(s) == 2
      requires s.r.Node? && Tip(s.r) < 0
      modifies (if path == [] then {this} else {})`root
      modifies Spine(path)`left, Spine(path)`right, Spine(path)`balance
      modifies Items(s)`left, Items(s)`right, Items(s)`parent, Items(s)`balance
      ensures s.r.l.Node? && t == DoubleLeft(s)
      ensures Zip(path, t) && Exact(t) && PathRecorded(path, Height(t))
    {
      hide Height, Avl, PathRecorded, Exact, Items, PathItems, Zip, SibItems, Spine, Distinct, Hung;
      DoubleLeftHeights(s);
      t := DoubleLeft(s);
      ZipSpace(path, s);
      DoubleLeftKeepsItems(s);
      ghost var h := Height(s);
      var top := TurnTwiceLeftAndWeigh(item, pitem, path, s);
      Shrink(top, path, t, h);
    }

    lemma RightTurnFacts(path: Path, s: Shape<Item>)
      requires Zip(path, s) && Exact(s)
      requires s.Node? && Avl(s.r) && Avl(s.l) && Tip(s) == -2
      ensures s.l.Node? && s.x.left == s.l.x && s.l.x.balance == Tip(s.l)
      ensures Exact(s.r) && Exact(s.l.r) && Exact(s.l.l)
      ensures var t := TreeShape.RotateRight(s); Distinct(t) && Items(t) == Items(s)
      ensures s.x in Items(s) && s.l.x in Items(s)
      ensures Items(s.r) <= Items(s) && Items(s.l.r) <= Items(s) && Items(s.l.l) <= Items(s)
    {
      RightRotationHeights(s);
      RotationsKeepItems(s);
      hide Height, Avl, PathLinked;
      ExactParts(s.l, s.x, s.r);
      ExactParts(s.l.l, s.l.x, s.l.r);
      HungParts(s.l, s.x, s.r);
      NodeApart(s.l, s.x, s.r);
      NodeApart(s.l.l, s.l.x, s.l.r);
    }

    method TurnRightAndWeigh(item: Item, lowBalance: int, pitem: Slot, topBalance: int, ghost path: Path,
                             ghost s: Shape<Item>)
      requires Zip(path, s) && Exact(s) && pitem == SlotOf(path)
      requires s.Node? && item == s.x && Avl(s.r) && Avl(s.l) && Tip(s) == -2
      requires s.l.Node? && Tip(s.l) <= 0
      requires lowBalance == -1 - Tip(s.l) && topBalance == Tip(s.l) + 1
      modifies (if path == [] then {this} else {})`root
      modifies Spine(path)`right, Spine(path)`left
      modifies Items(s)`right, Items(s)`left, Items(s)`parent, Items(s)`balance
      ensures var t := TreeShape.RotateRight(s); Zip(path, t) && Exact(t)
    {
      hide Height, Avl, Distinct, PathSeparate, PathLinked, Exact, Items, PathItems, Hung, Zip, SibItems, Spine;
      ghost var t := TreeShape.RotateRight(s);
      RightTurnFacts(path, s);
      RightRotationHeights(s);
      ZipSpace(path, s);
      var tmp := item.left;
      RotateRight(pitem, path, s);
      WeighRight(item, lowBalance, tmp, topBalance, t);
    }

    /** The left child leans left (lines 290-295). */
    method SingleRight(item: Item, pitem: Slot, ghost path: Path, ghost s: Shape<Item>) returns (ghost t: Shape<Item>)
      requires Zip(path, s) && Exact(s) && PathRecorded(path, Height(s)) && pitem == SlotOf(path)
      requires s.Node? && item == s.x && Avl(s.r) && Avl(s.l) && Tip(s) == -2
      requires s.l.Node? && Tip(s.l) < 0
      modifies (if path == [] then {this} else {})`root
      modifies Spine(path)`right, Spine(path)`left, Spine(path)`balance
      modifies Items(s)`right, Items(s)`left, Items(s)`parent, Items(s)`balance
      ensures t == TreeShape.RotateRight(s)
      ensures Zip(path, t) && Exact(t) && PathRecorded(path, Height(t))
    {
      hide Height, Avl, PathRecorded, Exact, Items, PathItems, Zip, SibItems, Spine;
      t := TreeShape.RotateRight(s);
      RightRotationHeights(s);
      ZipSpace(path, s);
      ghost var h := Height(s);
      var tmp := item.left;
      TurnRightAndWeigh(item, 0, pitem, 0, path, s);
      Shrink(tmp, path, t, h);
    }

    /** The left child is level (lines 296-300). */
    method EvenRight(item: Item, pitem: Slot, ghost path: Path, ghost s: Shape<Item>) returns (ghost t: Shape<Item>)
      requires Zip(path, s) && Exact(s) && PathRecorded(path, Height(s)) && pitem == SlotOf(path)
      requires s.Node? && item == s.x && Avl(s.l) && Avl(s.r) && Tip(s) == -2
      requires s.l.Node? && Tip(s.l) == 0
      modifies (if path == [] then {this} else {})`root
      modifies Spine(path)`left, Spine(path)`right
      modifies Items(s)`left, Items(s)`right, Items(s)`parent, Items(s)`balance
      ensures t == TreeShape.RotateRight(s)
      ensures Zip(path, t) && Exact(t) && PathRecorded(path, Height(t))
    {
      hide Height, Avl, PathRecorded, Exact, Items, PathItems, Zip, SibItems, Spine;
      t := TreeShape.RotateRight(s);
      RightRotationHeights(s);
      ZipSpace(path, s);
      TurnRightAndWeigh(item, -1, pitem, 1, path, s);
    }

    lemma DoubleRightFacts(path: Path, s: Shape<Item>)
      requires Zip(path, s) && Exact(s)
      requires s.Node? && Avl(s.r) && Avl(s.l) && Tip(s) == -2
      requires s.l.Node? && Tip(s.l) > 0
      ensures s.l.r.Node? && s.x.left == s.l.x && s.l.x.right == s.l.r.x
      ensures s.l.r.x.balance == Tip(s.l.r)
      ensures var t := DoubleRight(s);
              && Distinct(t) && Items(t) == Items(s) && QuartersExact(t)
              && Tip(t) == 0
              && Tip(t.l) == (if s.l.r.x.balance == 1 then -1 else 0)
              && Tip(t.r) == (if s.l.r.x.balance == -1 then 1 else 0)
      ensures s.x in Items(s) && s.l.x in Items(s) && s.l.r.x in Items(s)
    {
      DoubleRightHeights(s);
      hide Height, Avl, PathLinked;
      ghost var m := s.l.r;
      DoubleRightKeepsItems(s);
      hide Distinct, Items;
      ExactParts(s.l, s.x, s.r);
      ExactParts(s.l.l, s.l.x, s.l.r);
      ExactParts(m.l, m.x, m.r);
      HungParts(s.l, s.x, s.r);
      HungParts(s.l.l, s.l.x, s.l.r);
    }

    lemma DoubleRightKeepsItems(s: Shape<Item>)
      requires s.Node? && s.l.Node? && s.l.r.Node? && Distinct(s)
      ensures var t := DoubleRight(s); Distinct(t) && Items(t) == Items(s)
      ensures s.x in Items(s) && s.l.x in Items(s) && s.l.r.x in Items(s)
      ensures Items(s.l) <= Items(s)
      ensures Items(s.r) <= Items(s) && Items(s.l.l) <= Items(s)
      ensures Items(s.l.r.r) <= Items(s) && Items(s.l.r.l) <= Items(s)
    {
      ghost var u := Node(TreeShape.RotateLeft(s.l), s.x, s.r);
      hide Distinct, Items;
      NodeApart(s.l, s.x, s.r);
      NodeApart(s.l.l, s.l.x, s.l.r);
      NodeApart(s.l.r.l, s.l.r.x, s.l.r.r);
      RotationsKeepItems(s.l);
      NodeTogether(TreeShape.RotateLeft(s.l), s.x, s.r);
      RotationsKeepItems(u);
    }

    /** Both rotations of the double rotation; balances are left alone. */
    method TurnTwiceRight(item: Item, pitem: Slot, ghost path: Path, ghost s: Shape<Item>) returns (top: Item)
      requires Zip(path, s) && pitem == SlotOf(path)
      requires s.Node? && item == s.x && s.l.Node? && s.l.r.Node?
      modifies (if path == [] then {this} else {})`root
      modifies Spine(path)`right, Spine(path)`left
      modifies Items(s)`right, Items(s)`left, Items(s)`parent
      ensures Zip(path, DoubleRight(s)) && top == DoubleRight(s).x
    {
      ghost var f := Frame(Left, item, s.r);
      ghost var u := TreeShape.RotateLeft(s.l);
      ghost var down := path + [f];
      SpaceFacts(path, s);
      ZipDown(path, f, s.l);
      DoubleRightKeepsItems(s);
      RotationsKeepItems(s.l);
      NodeTogether(u, s.x, s.r);
      assert Up(down) == path && Last(down) == f;
      hide Zip, Items, PathItems, Spine, SibItems, PathLinked, PathSeparate, Hung, Distinct;
      RotateLeft(LeftOf(item), down, s.l);
      ZipUp(down, u);
      RotateRight(pitem, path, Node(u, item, s.r));
      SlotHoldsRoot(path, DoubleRight(s));
      top := Load(pitem);
    }

    method TurnTwiceRightAndWeigh(item: Item, pitem: Slot, ghost path: Path, ghost s: Shape<Item>) returns (top: Item)
      requires Zip(path, s) && Exact(s) && pitem == SlotOf(path)
      requires s.Node? && item == s.x && Avl(s.l) && Avl(s.r) && Tip(s) == -2
      requires s.l.Node? && Tip(s.l) > 0
      modifies (if path == [] then {this} else {})`root
      modifies Spine(path)`left, Spine(path)`right
      modifies Items(s)`left, Items(s)`right, Items(s)`parent, Items(s)`balance
      ensures s.l.r.Node?
      ensures var t := DoubleRight(s); Zip(path, t) && Exact(t) && top == t.x
    {
      hide Height, Avl, Exact, QuartersExact, Items, PathItems, Zip, SibItems, Spine, Distinct, Hung;
      DoubleRightFacts(path, s);
      ghost var t := DoubleRight(s);
      ZipSpace(path, s);
      var tmp := item.left;
      top := TurnTwiceRight(item, pitem, path, s);
      WeighBoth(tmp, top, item, t);
    }

    /** The left child leans right (lines 301-309). */
    method DoubleRightTurn(item: Item, pitem: Slot, ghost path: Path, ghost s: Shape<Item>)
      returns (ghost t: Shape<Item>)
      requires Zip(path, s) && Exact(s) && PathRecorded(path, Height(s)) && pitem == SlotOf(path)
      requires s.Node? && item == s.x && Avl(s.r) && Avl(s.l) && Tip(s) == -2
      requires s.l.Node? && Tip(s.l) > 0
      modifies (if path == [] then {this} else {})`root
      modifies Spine(path)`right, Spine(path)`left, Spine(path)`balance
      modifies Items(s)`right, Items(s)`left, Items(s)`parent, Items(s)`balance
      ensures s.l.r.Node? && t == DoubleRight(s)
      ensures Zip(path, t) && Exact(t) && PathRecorded(path, Height(t))
    {
      hide Height, Avl, PathRecorded, Exact, Items, PathItems, Zip, SibItems, Spine, Distinct, Hung;
      DoubleRightHeights(s);
      t := DoubleRight(s);
      ZipSpace(path, s);
      DoubleRightKeepsItems(s);
      ghost var h := Height(s);
      var top := TurnTwiceRightAndWeigh(item, pitem, path, s);
      Shrink(top, path, t, h);
    }

    lemma ChildrenKnowParent(path: Path, t: Shape<Item>)
      requires Zip(path, t) && t.Node?
      ensures t.l.Node? ==> t.l.x.parent == t.x
      ensures t.r.Node? ==> t.r.x.parent == t.x
    {
      HungParts(t.l, t.x, t.r);
    }

    /** The branch for a right-heavy node (lines 258-283). */
    method MendRightHeavy(item: Item, pitem: Slot, ghost path: Path, ghost s: Shape<Item>, ghost h: nat)
      returns (ghost t: Shape<Item>)
      requires Zip(path, s) && Exact(s) && PathRecorded(path, Height(s)) && pitem == SlotOf(path)
      requires Fixable(s, h) && item == s.x && item.balance >= 2
      modifies (if path == [] then {this} else {})`root
      modifies Spine(path)`left, Spine(path)`right, Spine(path)`balance
      modifies Items(s)`left, Items(s)`right, Items(s)`parent, Items(s)`balance
      ensures Mended(s, t, h) && item.parent == t.x
      ensures Zip(path, t) && Exact(t) && PathRecorded(path, Height(t))
    {
      LeftTurnMends(s, h);
      LeftTurnFacts(path, s);
      hide Mended, Height, PathRecorded, Exact, Items, InOrder, PathItems, Zip, SibItems, Spine, Distinct, Hung;
      if item.right.balance > 0 {
        t := SingleLeft(item, pitem, path, s);
      } else if item.right.balance == 0 {
        t := EvenLeft(item, pitem, path, s);
      } else {
        t := DoubleLeftTurn(item, pitem, path, s);
      }
      ChildrenKnowParent(path, t);
    }

    /** The branch for a left-heavy node (lines 285-310). */
    method MendLeftHeavy(item: Item, pitem: Slot, ghost path: Path, ghost s: Shape<Item>, ghost h: nat)
      returns (ghost t: Shape<Item>)
      requires Zip(path, s) && Exact(s) && PathRecorded(path, Height(s)) && pitem == SlotOf(path)
      requires Fixable(s, h) && item == s.x && item.balance <= -2
      modifies (if path == [] then {this} else {})`root
      modifies Spine(path)`right, Spine(path)`left, Spine(path)`balance
      modifies Items(s)`right, Items(s)`left, Items(s)`parent, Items(s)`balance
      ensures Mended(s, t, h) && item.parent == t.x
      ensures Zip(path, t) && Exact(t) && PathRecorded(path, Height(t))
    {
      RightTurnMends(s, h);
      RightTurnFacts(path, s);
      hide Mended, Height, PathRecorded, Exact, Items, InOrder, PathItems, Zip, SibItems, Spine, Distinct, Hung;
      if item.left.balance < 0 {
        t := SingleRight(item, pitem, path, s);
      } else if item.left.balance == 0 {
        t := EvenRight(item, pitem, path, s);
      } else {
        t := DoubleRightTurn(item, pitem, path, s);
      }
      ChildrenKnowParent(path, t);
    }

    lemma ExactAtUp(path: Path, j: nat, h: nat)
      requires j < |path| - 1 && ExactAt(path, j, h)
      ensures ExactAt(Up(path), j, 1 + Max(Height(Last(path).sib), h))
    {
      HoleHeightUp(path, j + 1, h);
    }

    lemma RecordedUp(path: Path, s: Shape<Item>)
      requires path != [] && Exact(s) && PathRecorded(path, Height(s))
      ensures var t := PlugOne(Last(path), s); Exact(t) && PathRecorded(Up(path), Height(t))
    {
      var up, f, t := Up(path), Last(path), PlugOne(Last(path), s);
      assert Height(t) == 1 + Max(Height(f.sib), Height(s));
      assert HoleHeight(path, |path|, Height(s)) == Height(s);
      assert ExactAt(path, |path| - 1, Height(s));
      hide Exact, Height, HoleHeight;
      assert Exact(path[|path| - 1].sib);
      ExactParts(t.l, t.x, t.r);
      hide ExactAt;
      forall j {:trigger ExactAt(up, j, Height(t))} | 0 <= j < |up|
        ensures ExactAt(up, j, Height(t))
      {
        assert ExactAt(path, j, Height(s));
        ExactAtUp(path, j, Height(s));
      }
      forall j {:trigger up[j]} | 0 <= j < |up|
        ensures Exact(up[j].sib)
      {
        assert up[j] == path[j];
      }
    }

    /** The state rebalance keeps while it climbs: s hangs in the path, nothing is recorded wrongly,
        and the path is balanced for a hole of height h. */
    ghost predicate Climbing(path: Path, s: Shape<Item>, h: nat)
      reads this`root
      reads PathItems(path)`parent, PathItems(path)`left, PathItems(path)`right
      reads Items(s)`parent, Items(s)`left, Items(s)`right
      reads Spine(path)`balance, SibItems(path)`balance, Items(s)`balance
    {
      Zip(path, s) && Exact(s) && PathRecorded(path, Height(s)) && AvlPath(path, h)
    }

    lemma ClimbOne(path: Path, s: Shape<Item>, h: nat)
      requires path != [] && Climbing(path, s, h) && Avl(s) && Near(Height(s), h)
      ensures var t, h' := PlugOne(Last(path), s), 1 + Max(Height(Last(path).sib), h);
              && Climbing(Up(path), t, h') && Fixable(t, h')
              && (s.Node? ==> t.x == s.x.parent)
    {
      hide Height, Avl, AvlPath, Fixable, Zip, Exact, PathRecorded, Items, PathItems, Spine, SibItems;
      AvlPathUp(path, h);
      ClimbIsFixable(Last(path), s, h);
      ZipUp(path, s);
      RecordedUp(path, s);
    }

    lemma ClimbOneKeeps(path: Path, s: Shape<Item>)
      requires path != []
      ensures var t := PlugOne(Last(path), s);
              && InOrder(Plug(Up(path), t)) == InOrder(Plug(path, s))
              && PathItems(Up(path)) + Items(t) == PathItems(path) + Items(s)
    {
      PathItemsUp(path);
    }

    lemma PlugMended(path: Path, s: Shape<Item>, t: Shape<Item>, h: nat)
      requires Mended(s, t, h)
      ensures InOrder(Plug(path, t)) == InOrder(Plug(path, s)) && Items(t) == Items(s)
      ensures t.Node? && Avl(t) && Near(Height(t), h) && Fixable(t, h)
    {
      PlugInOrder(path, s);
      PlugInOrder(path, t);
    }

    /** One round of the loop body at a node that stands in the way of the AVL property, or not (lines 256-310). */
    method Mend(item: Item, ghost path: Path, ghost s: Shape<Item>, ghost h: nat) returns (ghost t: Shape<Item>)
      requires Climbing(path, s, h) && Fixable(s, h) && item == s.x
      modifies (if path == [] then {this} else {})`root
      modifies Spine(path)`left, Spine(path)`right, Spine(path)`balance
      modifies Items(s)`left, Items(s)`right, Items(s)`parent, Items(s)`balance
      ensures Climbing(path, t, h) && Mended(s, t, h)
      ensures if Avl(s) then t == s && item.parent == old(item.parent) else item.parent == t.x
    {
      ExactParts(s.l, s.x, s.r);
      LinkIsSlot(path, s);
      var pitem := LinkFromParent(item);
      hide Zip, Exact, PathRecorded, AvlPath, Items, Height, Mended, InOrder;
      t := s;
      if item.balance >= 2 {
        t := MendRightHeavy(item, pitem, path, s, h);
      } else if item.balance <= -2 {
        t := MendLeftHeavy(item, pitem, path, s, h);
      } else {
        NothingToMend(s, h);
      }
    }

    lemma NothingToMend(s: Shape<Item>, h: nat)
      requires Fixable(s, h) && -1 <= Tip(s) <= 1
      ensures Mended(s, s, h)
    {
    }

    /** Lines 234-244. */
    function LinkFromParent(item: Item): Slot
      reads item, if item.parent == null then {} else {item.parent}
    {
      if item.parent == null then RootSlot
      else if item.parent.left == item then LeftOf(item.parent)
      else RightOf(item.parent)
    }

    lemma LinkIsSlot(path: Path, s: Shape<Item>)
      requires Zip(path, s) && s.Node?
      ensures LinkFromParent(s.x) == SlotOf(path)
    {
      SeparateFacts(path, s);
      if path != [] {
        SideOfChild(path, |path| - 1, s.x);
      }
    }

    /** Where the loop of rebalance stands: at the root of s, or past the root of the whole tree. */
    ghost predicate Standing(item: Item?, path: Path, s: Shape<Item>, h: nat, all: set<Item>, order: seq<Item>)
      reads this`root
      reads PathItems(path)`parent, PathItems(path)`left, PathItems(path)`right
      reads Items(s)`parent, Items(s)`left, Items(s)`right
      reads Spine(path)`balance, SibItems(path)`balance, Items(s)`balance
    {
      && Climbing(path, s, h)
      && (if item == null then path == [] && Avl(s) else Fixable(s, h) && item == s.x)
      && PathItems(path) + Items(s) == all
      && InOrder(Plug(path, s)) == order
    }

    ghost function RoundsLeft(item: Item?, path: Path, s: Shape<Item>): nat {
      3 * |path| + if item == null then 0 else if Avl(s) then 1 else 2
    }

    /** After a node that was already balanced the walk goes up one level; after a rotation it
        stays at the level of the rotation. */
    ghost function Onward(path: Path, s: Shape<Item>, t: Shape<Item>, h: nat): (Path, Shape<Item>, nat) {
      if Avl(s) && path != []
      then (Up(path), PlugOne(Last(path), t), 1 + Max(Height(Last(path).sib), h))
      else (path, t, h)
    }

    lemma Advance(next: Item?, path: Path, s: Shape<Item>, t: Shape<Item>, h: nat, all: set<Item>, order: seq<Item>)
      requires Climbing(path, t, h) && Mended(s, t, h)
      requires if Avl(s) then t == s && next == s.x.parent else next == t.x
      requires PathItems(path) + Items(s) == all && InOrder(Plug(path, s)) == order
      ensures var o := Onward(path, s, t, h); Standing(next, o.0, o.1, o.2, all, order)
    {
      hide Climbing, Fixable, Mended, Avl, Height, Near, Items, PathItems, InOrder, Plug;
      PlugMended(path, s, t, h);
      Inside(path, t, h);
      if Avl(s) && path != [] {
        ClimbOne(path, t, h);
        ClimbOneKeeps(path, t);
      }
    }

    /** The loop body: mend the node, then go on to its parent. */
    method Round(item: Item, ghost path: Path, ghost s: Shape<Item>, ghost h: nat, ghost all: set<Item>,
                 ghost order: seq<Item>)
      returns (next: Item?, ghost p: Path, ghost t: Shape<Item>, ghost g: nat)
      requires Standing(item, path, s, h, all, order)
      modifies this`root, all`left, all`right, all`parent, all`balance
      ensures Standing(next, p, t, g, all, order)
      ensures RoundsLeft(next, p, t) < RoundsLeft(item, path, s)
    {
      Inside(path, s, h);
      hide Climbing, Fixable, Mended, Avl, Items, PathItems, InOrder, Plug, Standing;
      ghost var u := Mend(item, path, s, h);
      next := item.parent;
      Advance(next, path, s, u, h, all, order);
      Descends(next, item, path, s, u, h);
      p, t, g := Onward(path, s, u, h).0, Onward(path, s, u, h).1, Onward(path, s, u, h).2;
    }

    lemma Descends(next: Item?, item: Item, path: Path, s: Shape<Item>, t: Shape<Item>, h: nat)
      requires Mended(s, t, h) && (Avl(s) && path == [] ==> next == null)
      ensures var o := Onward(path, s, t, h); RoundsLeft(next, o.0, o.1) < RoundsLeft(item, path, s)
    {
    }

    /** Lines 249-316: walk to the root, rotating where a node is out of balance. */
    method Rebalance(start: Item?, ghost path: Path, ghost s: Shape<Item>, ghost h: nat)
      requires Climbing(path, s, h)
      requires if start == null then path == [] && Avl(s) else Fixable(s, h) && start == s.x
      modifies this`root, this`shape
      modifies (PathItems(path) + Items(s))`left, (PathItems(path) + Items(s))`right
      modifies (PathItems(path) + Items(s))`parent, (PathItems(path) + Items(s))`balance
      ensures Zip([], shape) && Exact(shape) && Avl(shape)
      ensures InOrder(shape) == InOrder(Plug(path, s))
      ensures Items(shape) == PathItems(path) + Items(s)
    {
      var item := start;
      ghost var all, order := PathItems(path) + Items(s), InOrder(Plug(path, s));
      ghost var p, t := path, s;
      ghost var g: nat := h;
      while item != null
        invariant Standing(item, p, t, g, all, order)
        decreases RoundsLeft(item, p, t)
      {
        hide Standing, RoundsLeft;
        item, p, t, g := Round(item, p, t, g, all, order);
      }
      Finished(t, g);
      shape := t;
    }

    lemma Inside(path: Path, s: Shape<Item>, h: nat)
      requires Climbing(path, s, h) && Fixable(s, h)
      ensures Spine(path) <= PathItems(path)
      ensures s.x.parent == AboveAt(path, |path|)
      ensures Mended(s, s, h) <==> Avl(s)
    {
      SpineApartFromSibs(path);
    }

    lemma Finished(s: Shape<Item>, h: nat)
      requires Climbing([], s, h)
      ensures Zip([], s) && Exact(s)
      ensures Plug([], s) == s && PathItems<Item>([]) == {}
    {
    }

    // ----- the tree as a whole -----

    /** The objects of the tree in key order. */
    ghost function Contents(): seq<Item>
      reads this`shape
    {
      InOrder(shape)
    }

    ghost predicate Valid()
      reads this`root, this`shape
      reads Items(shape)`parent, Items(shape)`left, Items(shape)`right, Items(shape)`balance, Items(shape)`key
    {
      && Zip([], shape) && Exact(shape) && Avl(shape)
      && Ascending(shape)
    }

    constructor ()
      ensures Valid() && Contents() == []
    {
      root := null;
      shape := Leaf;
    }

    /** The whole tree is shape, seen from a place inside it. */
    ghost predicate At(path: Path, s: Shape<Item>)
      reads this`root, this`shape
      reads PathItems(path)`parent, PathItems(path)`left, PathItems(path)`right
      reads Items(s)`parent, Items(s)`left, Items(s)`right
      reads Spine(path)`balance, SibItems(path)`balance, Items(s)`balance
    {
      Climbing(path, s, Height(s)) && Avl(s) && Plug(path, s) == shape
    }

    lemma ExactAtDown(path: Path, f: Frame<Item>, j: nat, h: nat)
      requires j < |path| && ExactAt(path, j, 1 + Max(Height(f.sib), h))
      ensures ExactAt(path + [f], j, h)
    {
      assert (path + [f])[j] == path[j];
      HoleHeightDown(path, f, j + 1, h);
    }

    lemma RecordedDown(path: Path, f: Frame<Item>, s: Shape<Item>)
      requires var t := PlugOne(f, s); Exact(t) && PathRecorded(path, Height(t))
      ensures Exact(s) && PathRecorded(path + [f], Height(s))
    {
      var t, down, h := PlugOne(f, s), path + [f], Height(s);
      assert Height(t) == 1 + Max(Height(f.sib), h);
      assert HoleHeight(down, |down|, h) == h;
      ExactParts(t.l, t.x, t.r);
      hide Exact, Height, HoleHeight;
      assert down[|path|] == f;
      assert ExactAt(down, |path|, h);
      hide ExactAt;
      forall j {:trigger ExactAt(down, j, h)} | 0 <= j < |down|
        ensures ExactAt(down, j, h)
      {
        if j < |path| {
          assert ExactAt(path, j, Height(t));
          ExactAtDown(path, f, j, h);
        }
      }
      forall j {:trigger down[j]} | 0 <= j < |down|
        ensures Exact(down[j].sib)
      {
        if j < |path| {
          assert down[j] == path[j];
        }
      }
    }

    lemma AtChild(path: Path, f: Frame<Item>, s: Shape<Item>)
      requires At(path, PlugOne(f, s))
      ensures At(path + [f], s)
    {
      hide Height, Avl, AvlPath, Zip, Exact, PathRecorded, Items, PathItems, Spine, SibItems, Plug;
      var t := PlugOne(f, s);
      NodeHeight(t.l, t.x, t.r);
      ZipDown(path, f, s);
      RecordedDown(path, f, s);
      AvlPathDown(path, f, Height(s));
      PlugDown(path, f, s);
    }

    lemma AtRoot()
      requires Valid()
      ensures At([], shape)
      ensures root == Root(shape)
    {
    }

    // ----- search -----

    /** The same without heights and balances, which a search does not need. */
    ghost predicate On(path: Path, s: Shape<Item>)
      reads this`root, this`shape
      reads PathItems(path)`parent, PathItems(path)`left, PathItems(path)`right
      reads Items(s)`parent, Items(s)`left, Items(s)`right
    {
      Zip(path, s) && Plug(path, s) == shape
    }

    /** All links are right and the keys ascend. */
    ghost predicate Ordered()
      reads this`root, this`shape
      reads Items(shape)`parent, Items(shape)`left, Items(shape)`right, Items(shape)`key
    {
      Zip([], shape) && Ascending(shape)
    }

    lemma {:induction false} OnIsAt(path: Path, s: Shape<Item>)
      requires Valid() && On(path, s)
      ensures At(path, s)
      decreases |path|
    {
      if path == [] {
        AtRoot();
      } else {
        hide Valid, At, Zip, Items, PathItems;
        ZipUp(path, s);
        OnIsAt(Up(path), PlugOne(Last(path), s));
        AtChild(Up(path), Last(path), s);
        assert Up(path) + [Last(path)] == path;
      }
    }

    lemma OnOrder(path: Path, s: Shape<Item>)
      requires On(path, s)
      ensures Contents() == Pre(path) + InOrder(s) + Post(path)
      ensures |path| + Height(s) <= Height(shape)
    {
      PlugInOrder(path, s);
      PlugHeight(path, s);
    }

    lemma OrderAt(path: Path, s: Shape<Item>)
      requires At(path, s)
      ensures Contents() == Pre(path) + InOrder(s) + Post(path)
      ensures |path| + Height(s) <= Height(shape)
    {
      OnOrder(path, s);
    }

    /** A node of the tree splits its contents into the smaller and the greater keys. */
    lemma SplitAt(path: Path, s: Shape<Item>)
      requires At(path, s) && s.Node? && Ascending(shape)
      ensures Contents() == (Pre(path) + InOrder(s.l)) + [s.x] + (InOrder(s.r) + Post(path))
      ensures KeysBelow(Pre(path) + InOrder(s.l), s.x.key) && KeysAbove(s.x.key, InOrder(s.r) + Post(path))
    {
      OnSplit(path, s);
    }

    lemma OnSplit(path: Path, s: Shape<Item>)
      requires On(path, s) && s.Node? && Ascending(shape)
      ensures Contents() == (Pre(path) + InOrder(s.l)) + [s.x] + (InOrder(s.r) + Post(path))
      ensures KeysBelow(Pre(path) + InOrder(s.l), s.x.key) && KeysAbove(s.x.key, InOrder(s.r) + Post(path))
    {
      OnOrder(path, s);
      hide On;
      var a, b := Pre(path) + InOrder(s.l), InOrder(s.r) + Post(path);
      RegroupAround(Pre(path), InOrder(s.l), s.x, InOrder(s.r), Post(path));
      hide InOrder, Pre, Post, Sorted;
      SortedParts(a, s.x, b);
    }

    lemma GoLeft(path: Path, s: Shape<Item>, key: Key)
      requires On(path, s) && s.Node? && Ascending(shape) && key < s.x.key
      requires KeysBelow(Pre(path), key) && KeysAbove(key, Post(path))
      ensures var down := path + [Frame(Left, s.x, s.r)];
              On(down, s.l) && KeysBelow(Pre(down), key) && KeysAbove(key, Post(down))
    {
      OnSplit(path, s);
      ZipDown(path, Frame(Left, s.x, s.r), s.l);
      PlugDown(path, Frame(Left, s.x, s.r), s.l);
    }

    lemma GoRight(path: Path, s: Shape<Item>, key: Key)
      requires On(path, s) && s.Node? && Ascending(shape) && s.x.key < key
      requires KeysBelow(Pre(path), key) && KeysAbove(key, Post(path))
      ensures var down := path + [Frame(Right, s.x, s.l)];
              On(down, s.r) && KeysBelow(Pre(down), key) && KeysAbove(key, Post(down))
    {
      OnSplit(path, s);
      ZipDown(path, Frame(Right, s.x, s.l), s.r);
      PlugDown(path, Frame(Right, s.x, s.l), s.r);
    }

    lemma NodeAt(path: Path, s: Shape<Item>)
      requires At(path, s) && s.Node?
      ensures s.x in Contents() && s.x in Items(shape)
      ensures s.x.left == Root(s.l) && s.x.right == Root(s.r) && s.x.parent == AboveAt(path, |path|)
      ensures |path| + 1 <= Height(shape)
    {
      NodeOn(path, s);
    }

    lemma NodeOn(path: Path, s: Shape<Item>)
      requires On(path, s) && s.Node?
      ensures s.x in Contents() && s.x in Items(shape)
      ensures s.x.left == Root(s.l) && s.x.right == Root(s.r) && s.x.parent == AboveAt(path, |path|)
      ensures |path| + 1 <= Height(shape)
    {
      OnOrder(path, s);
      ItemsInOrder(shape);
      HungParts(s.l, s.x, s.r);
    }

    /** Lines 109-129. The path that is returned leads to the node found, or to the empty place
        where a node with this key belongs. Balances do not matter. */
    method DoSearch(key: Key)
      returns (found: bool, node: Item?, ghost path: Path, ghost s: Shape<Item>, ghost rounds: nat)
      requires Ordered()
      ensures On(path, s)
      ensures found ==> node != null && node in Contents() && node.key == key
      ensures found ==> s.Node? && node == s.x
      ensures !found ==> s.Leaf? && node == AboveAt(path, |path|)
      ensures !found ==> KeysBelow(Pre(path), key) && KeysAbove(key, Post(path))
      ensures !found && node != null ==> (Last(path).dir == Left <==> key < node.key)
      ensures rounds <= Height(shape)
    {
      hide Ordered, On, Ascending, InOrder, Pre, Post, Items, KeysBelow, KeysAbove, Height;
      var res: Item?, current := null, root;
      var currentKey: Key := (key + KEY_COUNT - 1) % KEY_COUNT;
      path, s, rounds := [], shape, 0;
      StartOfSearch(key);
      while current != null
        invariant On(path, s) && Ascending(shape)
        invariant current == Root(s) && res == AboveAt(path, |path|)
        invariant KeysBelow(Pre(path), key) && KeysAbove(key, Post(path))
        invariant res == null ==> currentKey == (key + KEY_COUNT - 1) % KEY_COUNT
        invariant res != null ==>
          currentKey == res.key && currentKey != key && (Last(path).dir == Left <==> key < currentKey)
        invariant rounds == |path|
        decreases s
      {
        NodeOn(path, s);
        res := current;
        currentKey := current.key;
        rounds := rounds + 1;
        if key == currentKey {
          break;
        } else if key < currentKey {
          GoLeft(path, s, key);
          current := current.left;
          path, s := path + [Frame(Left, s.x, s.r)], s.l;
        } else {
          GoRight(path, s, key);
          current := current.right;
          path, s := path + [Frame(Right, s.x, s.l)], s.r;
        }
      }
      LengthAt(path, s);
      node := res;
      found := key == currentKey;
    }

    lemma StartOfSearch(key: Key)
      requires Ordered()
      ensures On([], shape) && Ascending(shape) && root == Root(shape)
      ensures KeysBelow(Pre([]), key) && KeysAbove(key, Post([]))
    {
    }

    lemma LengthAt(path: Path, s: Shape<Item>)
      requires On(path, s)
      ensures |path| <= Height(shape)
    {
      OnOrder(path, s);
    }

    /** Lines 137-146: a hit is the object with that key, a miss means that no object has it, and
        the walk is logarithmic in the number of objects. */
    method Search(key: Key) returns (item: Item?, ghost rounds: nat)
      requires Valid()
      ensures item != null ==> item in Contents() && item in Items(shape) && item.key == key
      ensures item == null ==> forall x :: x in Contents() ==> x.key != key
      ensures Fib(rounds + 2) <= |Contents()| + 1
    {
      ghost var path, s;
      var found, node;
      found, node, path, s, rounds := DoSearch(key);
      OnOrder(path, s);
      if s.Node? {
        NodeOn(path, s);
      }
      Logarithmic(shape, rounds);
      item := if found then node else null;
    }

    lemma Logarithmic(t: Shape<Item>, rounds: nat)
      requires Avl(t) && rounds <= Height(t)
      ensures Fib(rounds + 2) <= |InOrder(t)| + 1
    {
      AvlIsShallow(t);
      SizeIsLength(t);
      FibMonotone(rounds + 2, Height(t) + 2);
    }

    // ----- neighbours -----

    lemma AtParent(path: Path, s: Shape<Item>)
      requires path != [] && At(path, s)
      ensures At(Up(path), PlugOne(Last(path), s))
    {
      hide AvlPath, Exact, PathRecorded, Zip, Items, PathItems, Spine, SibItems;
      AvlPathUp(path, Height(s));
      ClimbOne(path, s, Height(s));
    }

    /** Where an object of the tree hangs. */
    lemma Locate(path: Path, s: Shape<Item>, x: Item) returns (path': Path, s': Shape<Item>)
      requires At(path, s) && x in InOrder(s)
      ensures At(path', s') && s'.Node? && s'.x == x
      decreases s
    {
      path', s' := path, s;
      if x == s.x {
      } else if x in InOrder(s.l) {
        AtChild(path, Frame(Left, s.x, s.r), s.l);
        path', s' := Locate(path + [Frame(Left, s.x, s.r)], s.l, x);
      } else {
        AtChild(path, Frame(Right, s.x, s.l), s.r);
        path', s' := Locate(path + [Frame(Right, s.x, s.l)], s.r, x);
      }
    }

    lemma UpSide(path: Path, s: Shape<Item>)
      requires At(path, s) && s.Node? && path != []
      ensures Last(path).x.left == s.x <==> Last(path).dir == Left
      ensures Last(path).x.right == s.x <==> Last(path).dir == Right
    {
      SeparateFacts(path, s);
      SideOfChild(path, |path| - 1, s.x);
    }

    lemma PostUp(path: Path)
      requires path != [] && Last(path).dir == Right
      ensures Post(path) == Post(Up(path))
    {
    }

    lemma PreUp(path: Path)
      requires path != [] && Last(path).dir == Left
      ensures Pre(path) == Pre(Up(path))
    {
    }

    lemma PostFirst(path: Path)
      requires path != [] ==> Last(path).dir == Left
      ensures AboveAt(path, |path|) == (if Post(path) == [] then null else Post(path)[0])
    {
    }

    lemma PreLast(path: Path)
      requires path != [] ==> Last(path).dir == Right
      ensures AboveAt(path, |path|) == (if Pre(path) == [] then null else Pre(path)[|Pre(path)| - 1])
    {
      if path != [] {
        var a, b := Pre(Up(path)), InOrder(Last(path).sib) + [Last(path).x];
        assert Pre(path) == a + b && b[|b| - 1] == Last(path).x;
      }
    }

    lemma FirstOf(s: Shape<Item>)
      requires s.Node?
      ensures |InOrder(s)| > 0
      ensures InOrder(s)[0] == (if s.l.Leaf? then s.x else if |InOrder(s.l)| > 0 then InOrder(s.l)[0] else s.x)
      ensures s.l.Node? ==> |InOrder(s.l)| > 0
    {
    }

    lemma LastOf(s: Shape<Item>)
      requires s.Node?
      ensures |InOrder(s)| > 0
      ensures InOrder(s)[|InOrder(s)| - 1] ==
        (if s.r.Leaf? then s.x else if |InOrder(s.r)| > 0 then InOrder(s.r)[|InOrder(s.r)| - 1] else s.x)
      ensures s.r.Node? ==> |InOrder(s.r)| > 0
    {
    }

    /** Lines 517-547: from NULL the object with the least key, else the one that follows. */
    method Next(node: Item?) returns (next: Item?)
      requires Valid() && (node != null ==> node in Contents())
      ensures node == null ==> next == (if Contents() == [] then null else Contents()[0])
      ensures node != null ==> Follows(Contents(), node, next)
      ensures next != null ==> next in Contents()
    {
      AtRoot();
      OrderAt([], shape);
      if node == null {
        if root == null {
          return null;
        }
        next := LeftMost(root, [], shape);
      } else {
        ghost var path, s := Locate([], shape, node);
        NextInOrder(path, s);
        hide At;
        next := NextOf(node, path, s);
        NeighbourInside(Contents(), node, next);
      }
    }

    lemma NextInOrder(path: Path, s: Shape<Item>)
      requires At(path, s) && s.Node? && Ascending(shape)
      ensures var rest := InOrder(s.r) + Post(path);
              Follows(Contents(), s.x, if rest == [] then null else rest[0])
    {
      SplitAt(path, s);
      hide At, InOrder, Pre, Post;
      Neighbours(Pre(path) + InOrder(s.l), s.x, InOrder(s.r) + Post(path));
    }

    method NextOf(node: Item, ghost path: Path, ghost s: Shape<Item>) returns (next: Item?)
      requires At(path, s) && s.Node? && node == s.x
      ensures var rest := InOrder(s.r) + Post(path); next == if rest == [] then null else rest[0]
    {
      NodeAt(path, s);
      hide At;
      if node.right == null {
        next := ClimbNext(node, path, s);
      } else {
        AtChild(path, Frame(Right, s.x, s.l), s.r);
        next := LeftMost(node.right, path + [Frame(Right, s.x, s.l)], s.r);
      }
    }

    method ClimbNext(node: Item, ghost path: Path, ghost s: Shape<Item>) returns (next: Item?)
      requires At(path, s) && s.Node? && node == s.x
      ensures next == (if Post(path) == [] then null else Post(path)[0])
    {
      ghost var p, t := path, s;
      NodeAt(p, t);
      var child := node;
      var current := node.parent;
      if p != [] {
        UpSide(p, t);
      }
      hide At, Post, Height;
      while current != null && current.right == child
        invariant At(p, t) && t.Node? && child == t.x && current == AboveAt(p, |p|)
        invariant Post(p) == Post(path)
        invariant p == [] || (current.right == child <==> Last(p).dir == Right)
        decreases |p|
      {
        AtParent(p, t);
        PostUp(p);
        p, t := Up(p), PlugOne(Last(p), t);
        NodeAt(p, t);
        if p != [] {
          UpSide(p, t);
        }
        child := current;
        current := current.parent;
      }
      PostFirst(p);
      next := current;
    }

    method LeftMost(start: Item, ghost path: Path, ghost s: Shape<Item>) returns (first: Item)
      requires At(path, s) && s.Node? && start == s.x
      ensures |InOrder(s)| > 0 && first == InOrder(s)[0]
    {
      var current := start;
      ghost var p, t := path, s;
      NodeAt(p, t);
      while current.left != null
        invariant At(p, t) && t.Node? && current == t.x
        invariant current.left == Root(t.l)
        invariant InOrder(s)[0] == InOrder(t)[0]
        decreases t
      {
        FirstOf(t);
        AtChild(p, Frame(Left, t.x, t.r), t.l);
        hide At;
        p, t := p + [Frame(Left, t.x, t.r)], t.l;
        NodeAt(p, t);
        current := current.left;
      }
      FirstOf(t);
      first := current;
    }

    /** Lines 470-506: from NULL the object with the greatest key, else the one that precedes. */
    method Prev(node: Item?) returns (prev: Item?)
      requires Valid() && (node != null ==> node in Contents())
      ensures node == null ==> prev == (if Contents() == [] then null else Contents()[|Contents()| - 1])
      ensures node != null ==> Precedes(Contents(), node, prev)
      ensures prev != null ==> prev in Contents()
    {
      AtRoot();
      OrderAt([], shape);
      if node == null {
        if root == null {
          return null;
        }
        prev := RightMost(root, [], shape);
      } else {
        ghost var path, s := Locate([], shape, node);
        PrevInOrder(path, s);
        hide At;
        prev := PrevOf(node, path, s);
        NeighbourInside(Contents(), node, prev);
      }
    }

    /** Iterating tree_next from NULL until it returns NULL visits every object once, by ascending keys. */
    method Ascend() returns (order: seq<Item>)
      requires Valid()
      ensures order == Contents()
    {
      ItemsAllocated(shape);
      hide Valid, InOrder, Contents, Items;
      order := [];
      ghost var c := Contents();
      KeysDiffer();
      var node := Next(null);
      while node != null
        invariant Valid() && Contents() == c && |order| <= |c| && order == c[..|order|]
        invariant node == if |order| < |c| then c[|order|] else null
        decreases |c| - |order|
      {
        ghost var k := |order|;
        assert c[k] == node && node in c;
        order := order + [node];
        node := Next(node);
        FollowsAt(c, k, node);
      }
    }

    /** Iterating tree_prev from NULL visits them the other way round. */
    method Descend() returns (order: seq<Item>)
      requires Valid()
      ensures |order| == |Contents()| && forall i :: 0 <= i < |order| ==> order[i] == Contents()[|order| - 1 - i]
    {
      ItemsAllocated(shape);
      hide Valid, InOrder, Contents, Items;
      order := [];
      ghost var c := Contents();
      KeysDiffer();
      var node := Prev(null);
      while node != null
        invariant Valid() && Contents() == c && |order| <= |c|
        invariant forall i :: 0 <= i < |order| ==> order[i] == c[|c| - 1 - i]
        invariant node == if |order| < |c| then c[|c| - 1 - |order|] else null
        decreases |c| - |order|
      {
        ghost var k := |c| - 1 - |order|;
        assert c[k] == node && node in c;
        order := order + [node];
        node := Prev(node);
        PrecedesAt(c, k, node);
      }
    }

    lemma KeysDiffer()
      requires Valid()
      ensures forall i, j :: 0 <= i < j < |Contents()| ==> Contents()[i].key < Contents()[j].key
    {
    }

    lemma PrevInOrder(path: Path, s: Shape<Item>)
      requires At(path, s) && s.Node? && Ascending(shape)
      ensures var rest := Pre(path) + InOrder(s.l);
              Precedes(Contents(), s.x, if rest == [] then null else rest[|rest| - 1])
    {
      SplitAt(path, s);
      hide At, InOrder, Pre, Post;
      Neighbours(Pre(path) + InOrder(s.l), s.x, InOrder(s.r) + Post(path));
    }

    method PrevOf(node: Item, ghost path: Path, ghost s: Shape<Item>) returns (prev: Item?)
      requires At(path, s) && s.Node? && node == s.x
      ensures var rest := Pre(path) + InOrder(s.l); prev == if rest == [] then null else rest[|rest| - 1]
    {
      NodeAt(path, s);
      hide At;
      if node.left == null {
        prev := ClimbPrev(node, path, s);
      } else {
        AtChild(path, Frame(Left, s.x, s.r), s.l);
        prev := RightMost(node.left, path + [Frame(Left, s.x, s.r)], s.l);
      }
    }

    method ClimbPrev(node: Item, ghost path: Path, ghost s: Shape<Item>) returns (prev: Item?)
      requires At(path, s) && s.Node? && node == s.x
      ensures prev == (if Pre(path) == [] then null else Pre(path)[|Pre(path)| - 1])
    {
      ghost var p, t := path, s;
      NodeAt(p, t);
      var child := node;
      var current := node.parent;
      if p != [] {
        UpSide(p, t);
      }
      hide At, Pre, Height;
      while current != null && current.left == child
        invariant At(p, t) && t.Node? && child == t.x && current == AboveAt(p, |p|)
        invariant Pre(p) == Pre(path)
        invariant p == [] || (current.left == child <==> Last(p).dir == Left)
        decreases |p|
      {
        AtParent(p, t);
        PreUp(p);
        p, t := Up(p), PlugOne(Last(p), t);
        NodeAt(p, t);
        if p != [] {
          UpSide(p, t);
        }
        child := current;
        current := current.parent;
      }
      PreLast(p);
      prev := current;
    }

    method RightMost(start: Item, ghost path: Path, ghost s: Shape<Item>) returns (last: Item)
      requires At(path, s) && s.Node? && start == s.x
      ensures |InOrder(s)| > 0 && last == InOrder(s)[|InOrder(s)| - 1]
    {
      var current := start;
      ghost var p, t := path, s;
      NodeAt(p, t);
      while current.right != null
        invariant At(p, t) && t.Node? && current == t.x
        invariant current.right == Root(t.r)
        invariant |InOrder(t)| > 0 && InOrder(s)[|InOrder(s)| - 1] == InOrder(t)[|InOrder(t)| - 1]
        decreases t
      {
        LastOf(t);
        AtChild(p, Frame(Right, t.x, t.l), t.r);
        hide At;
        p, t := p + [Frame(Right, t.x, t.l)], t.r;
        NodeAt(p, t);
        current := current.right;
      }
      LastOf(t);
      last := current;
    }

    // ----- insertion -----

    ghost function Single(x: Item): Shape<Item> { Node(Leaf, x, Leaf) }

    lemma SingleFacts(x: Item)
      ensures Items(Single(x)) == {x} && InOrder(Single(x)) == [x] && Distinct(Single(x))
      ensures Height(Single(x)) == 1 && Avl(Single(x)) && Fixable(Single(x), 0)
      ensures Root(Single(x)) == x
      ensures x.left == null && x.right == null ==> Hung(Single(x))
      ensures x.balance == 0 ==> Exact(Single(x))
    {
    }

    lemma SeparateFromOutsider(path: Path, x: Item)
      requires PathSeparate(path) && x !in PathItems(path)
      ensures Separate(path, Single(x))
    {
      SingleFacts(x);
      forall j | 0 <= j < |path|
        ensures FrameItems(path[j]) !! {x}
      {
        assert FrameItems(path[j]) <= PathItems(path);
      }
    }

    /** Lines 345-351: hang the new node below the leaf the search ended at. */
    method Attach(x: Item, parent: Item, ghost path: Path)
      requires Zip(path, Leaf) && x !in PathItems(path)
      requires path != [] && parent == Last(path).x && (Last(path).dir == Left <==> x.key < parent.key)
      requires x.left == null && x.right == null
      modifies x`parent, parent`left, parent`right
      ensures Zip(path, Single(x))
    {
      SeparateFromOutsider(path, x);
      SeparateFacts(path, Single(x));
      SingleFacts(x);
      Allocated(path, Leaf);
      hide PathSeparate, PathItems, PathLinked, Items, Hung;
      x.parent := parent;
      if x.key < parent.key {
        Store(LeftOf(parent), x, path, null);
      } else {
        Store(RightOf(parent), x, path, null);
      }
      SingleFacts(x);
    }

    /** adjust_balance called for a freshly attached node. */
    method Grow(x: Item, ghost path: Path)
      requires Zip(path, Single(x)) && PathRecorded(path, 0) && AvlPath(path, 0) && x.balance == 0
      modifies Spine(path)`balance
      ensures Climbing(path, Single(x), 0) && Fixable(Single(x), 0)
    {
      SingleFacts(x);
      SeparateFacts(path, Single(x));
      SpineApartFromSibs(path);
      Allocated(path, Single(x));
      hide PathSeparate, PathLinked, PathItems, Items, SpineExact, Hung, Exact, Height, Avl, Fixable;
      AdjustBalance(x, 1, path, 0, 1);
    }

    lemma SpaceAt(path: Path, s: Shape<Item>)
      requires At(path, s)
      ensures Items(shape) == PathItems(path) + Items(s)
      ensures forall y :: y in Items(shape) ==> allocated(y)
      ensures Spine(path) <= PathItems(path)
      ensures path != [] ==> Last(path).x in PathItems(path)
      ensures PathItems(path) !! Items(s)
    {
      PlugItems(path, s);
      Allocated(path, s);
      SeparateFacts(path, s);
      SpineApartFromSibs(path);
    }

    lemma PlugSingle(path: Path, x: Item)
      requires At(path, Leaf) && Ascending(shape)
      requires KeysBelow(Pre(path), x.key) && KeysAbove(x.key, Post(path))
      ensures Contents() == Pre(path) + Post(path)
      ensures InOrder(Plug(path, Single(x))) == Pre(path) + [x] + Post(path)
      ensures Sorted(Pre(path) + [x] + Post(path))
    {
      hide At, Pre, Post, Plug, Sorted;
      OrderAt(path, Leaf);
      PlugInOrder(path, Single(x));
      assert Pre(path) + InOrder<Item>(Leaf) + Post(path) == Pre(path) + Post(path);
      SortedTogether(Pre(path), x, Post(path));
    }

    lemma ValidFrom(order: seq<Item>)
      requires Zip([], shape) && Exact(shape) && Avl(shape)
      requires InOrder(shape) == order && Sorted(order)
      ensures Valid() && Contents() == order
    {
    }

    method AttachAndGrow(x: Item, parent: Item, ghost path: Path)
      requires At(path, Leaf) && x !in PathItems(path)
      requires path != [] && parent == Last(path).x && (Last(path).dir == Left <==> x.key < parent.key)
      requires x.left == null && x.right == null && x.balance == 0
      modifies x`parent, Spine(path)`left, Spine(path)`right, Spine(path)`balance
      ensures Climbing(path, Single(x), 0) && Fixable(Single(x), 0)
    {
      SpaceFacts(path, Leaf);
      hide Zip, PathRecorded, Spine, SibItems, PathItems;
      Attach(x, parent, path);
      Grow(x, path);
    }

    method InsertAt(x: Item, parent: Item, ghost path: Path)
      requires At(path, Leaf) && Ascending(shape) && x !in Items(shape)
      requires path != [] && parent == Last(path).x && (Last(path).dir == Left <==> x.key < parent.key)
      requires KeysBelow(Pre(path), x.key) && KeysAbove(x.key, Post(path))
      requires x.left == null && x.right == null && x.balance == 0
      modifies this`root, this`shape, x`left, x`right, x`parent, x`balance
      modifies Items(shape)`left, Items(shape)`right, Items(shape)`parent, Items(shape)`balance
      ensures Valid() && Contents() == Pre(path) + [x] + Post(path)
      ensures Items(shape) == old(Items(shape)) + {x}
    {
      hide At, Items, PathItems, Spine, Hung, Climbing, Fixable, Height, Avl, InOrder, Sorted, Pre, Post, Plug;
      SpaceAt(path, Leaf);
      PlugSingle(path, x);
      SingleFacts(x);
      ghost var order := Pre(path) + [x] + Post(path);
      ghost var all := Items(shape);
      SeqAllocated(order);
      AttachAndGrow(x, parent, path);
      Rebalance(x, path, Single(x), 0);
      assert Sorted(order);
      ValidFrom(order);
    }

    lemma KeyMissing(path: Path, key: Key)
      requires On(path, Leaf) && KeysBelow(Pre(path), key) && KeysAbove(key, Post(path))
      ensures forall y :: y in Contents() ==> y.key != key
    {
      OnOrder(path, Leaf);
    }

    lemma Missing(path: Path, x: Item)
      requires At(path, Leaf) && Ascending(shape)
      requires KeysBelow(Pre(path), x.key) && KeysAbove(x.key, Post(path))
      ensures !HasKey(Contents(), x.key)
      ensures var c, pos := Contents(), |Pre(path)|;
              pos <= |c| && Pre(path) + [x] + Post(path) == c[..pos] + [x] + c[pos..]
    {
      KeyMissing(path, x.key);
      PlugSingle(path, x);
      assert Contents()[..|Pre(path)|] == Pre(path) && Contents()[|Pre(path)|..] == Post(path);
    }

    lemma Present(path: Path, s: Shape<Item>)
      requires On(path, s) && s.Node?
      ensures HasKey(Contents(), s.x.key)
    {
      NodeOn(path, s);
    }

    method InsertByKey(x: Item) returns (ghost pos: int)
      requires Ordered() && root != null && (x !in Items(shape) ==> Valid())
      requires x.left == null && x.right == null && x.balance == 0
      modifies this`root, this`shape, x`left, x`right, x`parent, x`balance
      modifies Items(shape)`left, Items(shape)`right, Items(shape)`parent, Items(shape)`balance
      ensures x !in old(Items(shape)) ==> Valid()
      ensures pos < 0 <==> HasKey(old(Contents()), x.key)
      ensures pos < 0 ==> Contents() == old(Contents()) && shape == old(shape) && (Valid() <==> old(Valid()))
      ensures pos >= 0 ==>
        pos <= |old(Contents())| && Contents() == old(Contents())[..pos] + [x] + old(Contents())[pos..]
      ensures pos >= 0 ==> Items(shape) == old(Items(shape)) + {x}
    {
      hide *;
      ghost var path, s, rounds;
      var found, parent;
      WholeTree();
      SeqAllocated(Contents());
      found, parent, path, s, rounds := DoSearch(x.key);
      if found {
        Present(path, s);
        pos := -1;
      } else {
        KeyMissing(path, x.key);
        InsideOrOutside(x);
        OnIsAt(path, s);
        Missing(path, x);
        BelowSomething(path);
        pos := |Pre(path)|;
        InsertAt(x, parent, path);
      }
    }

    lemma WholeTree()
      requires Ordered()
      ensures root == Root(shape) && Ascending(shape)
      ensures forall y :: y in Items(shape) ==> allocated(y)
    {
      ItemsAllocated(shape);
    }

    lemma BelowSomething(path: Path)
      requires At(path, Leaf) && root != null
      ensures path != [] && AboveAt(path, |path|) == Last(path).x
    {
    }

    // ----- a node that is in the tree already -----

    lemma {:induction false} ZipTop(path: Path, s: Shape<Item>)
      requires Zip(path, s)
      ensures Zip([], Plug(path, s))
      decreases |path|
    {
      if path != [] {
        ZipUp(path, s);
        ZipTop(Up(path), PlugOne(Last(path), s));
      }
    }

    lemma {:induction false} ExactInside(path: Path, s: Shape<Item>)
      requires Exact(Plug(path, s))
      ensures Exact(s)
      decreases |path|
    {
      if path != [] {
        ExactInside(Up(path), PlugOne(Last(path), s));
      }
    }

    /** What there is to know about a node of the tree before its links are cleared. */
    lemma BeforeClear(x: Item) returns (path: Path, s: Shape<Item>)
      requires Valid() && x in Items(shape)
      ensures At(path, s) && s.Node? && s.x == x && Contents() == Pre(path) + InOrder(s) + Post(path)
      ensures PathSeparate(path) && PathLinked(path, x) && TopIs(path, x) && x !in PathItems(path)
      ensures x.parent == AboveAt(path, |path|)
      ensures Sorted(Pre(path) + [x] + Post(path))
      ensures s == Single(x) ==> x.balance == 0 && Exact(shape)
      ensures Plug(path, s) == shape && Avl(shape) && PathItems(path) + {x} <= Items(shape)
      ensures forall y :: y in PathItems(path) ==> allocated(y)
      ensures forall y :: y in Pre(path) + [x] + Post(path) ==> allocated(y)
      ensures path == [] ==> root == x && x.parent == null
      ensures path != [] ==> Last(path).x != x && Last(path).x in PathItems(path)
      ensures path != [] ==> Last(path).x.balance == Tilt(Last(path).dir, Height(Last(path).sib), Height(s))
    {
      ItemsInOrder(shape);
      AtRoot();
      path, s := Locate([], shape, x);
      hide Valid;
      PlugItems(path, s);
      Allocated(path, s);
      SeqAllocated(Pre(path) + [x] + Post(path));
      OrderAt(path, s);
      SplitAt(path, s);
      SeparateFacts(path, s);
      if path != [] {
        assert ExactAt(path, |path| - 1, Height(s));
      }
      hide At, InOrder;
      Thinned(Pre(path), InOrder(s.l), x, InOrder(s.r), Post(path));
    }

    lemma Thinned(a: seq<Item>, b: seq<Item>, x: Item, c: seq<Item>, d: seq<Item>)
      requires Sorted((a + b) + [x] + (c + d))
      ensures Sorted(a + [x] + d)
    {
      var w, t := (a + b) + [x] + (c + d), a + [x] + d;
      forall i | 0 <= i < |t|
        ensures t[i] == w[if i < |a| then i else if i == |a| then i + |b| else i + |b| + |c|]
      {
      }
    }

    /** The state after the links have been cleared, for a node that was at this place. */
    lemma Cleared(x: Item, path: Path, s: Shape<Item>, all: set<Item>)
      requires PathSeparate(path) && PathLinked(path, x) && TopIs(path, x) && x !in PathItems(path)
      requires x.parent == AboveAt(path, |path|) && x.left == null && x.right == null && x.balance == 0
      requires Sorted(Pre(path) + [x] + Post(path)) && shape == Plug(path, Single(x))
      requires PathItems(path) + {x} <= all
      ensures Ordered() && Contents() == Pre(path) + [x] + Post(path) && Items(shape) <= all
    {
      SeparateFromOutsider(path, x);
      SingleFacts(x);
      ZipTop(path, Single(x));
      PlugInOrder(path, Single(x));
      PlugItems(path, Single(x));
    }

    /** Only the balances tell whether something has fallen off. */
    lemma ClearedIsValid(x: Item, path: Path, s: Shape<Item>)
      requires Ordered() && shape == Plug(path, Single(x)) && s.Node? && s.x == x && Avl(Plug(path, s))
      requires root == x || path != []
      requires path == [] ==> x.parent == null && x.left == null && x.right == null && x.balance == 0
      requires path != [] ==> Last(path).x.balance == Tilt(Last(path).dir, Height(Last(path).sib), Height(s))
      requires s == Single(x) ==> Exact(shape)
      ensures Valid() <==> path == [] || s == Single(x)
    {
      if path == [] {
        SingleIsValid(x);
      } else if Exact(shape) {
        ExactInside(Up(path), PlugOne(Last(path), Single(x)));
        assert Height(s) == 1;
      }
    }

    /** Lines 330-332. If the node was in the tree, everything below it has fallen off. */
    method Clear(x: Item) returns (ghost path: Path, ghost s: Shape<Item>)
      requires Valid()
      modifies this`shape, x`left, x`right, x`balance
      ensures x.left == null && x.right == null && x.balance == 0 && Items(shape) <= old(Items(shape)) && Ordered()
      ensures x !in old(Contents()) ==> Valid() && shape == old(shape) && Contents() == old(Contents())
      ensures x in old(Contents()) ==>
        && x in Contents() && Plug(path, s) == old(shape) && s.Node? && s.x == x
        && Contents() == Pre(path) + [x] + Post(path) && (Valid() <==> path == [] || s == Single(x))
    {
      hide *;
      ghost var linked, all := x in Contents(), Items(shape);
      InsideOrOutside(x);
      path, s := [], Leaf;
      if linked {
        path, s := BeforeClear(x);
      }
      x.left := null;
      x.right := null;
      x.balance := 0;
      if linked {
        assert s == Single(x) ==> Exact(shape);
        shape := Plug(path, Single(x));
        Cleared(x, path, s, all);
        ClearedIsValid(x, path, s);
      } else {
        ValidIsOrdered();
      }
    }

    lemma ValidIsOrdered()
      requires Valid()
      ensures Ordered()
    {
    }

    /** Lines 324-357. A node whose key is taken leaves the tree as it is; otherwise the node takes
        its place in the key order and nothing else changes. A node that is in the tree already loses
        everything that hangs below it: path and s are the place where it stood. */
    method Insert(x: Item) returns (ghost pos: int, ghost path: Path, ghost s: Shape<Item>)
      requires Valid()
      modifies this`root, this`shape, x`left, x`right, x`parent, x`balance
      modifies Items(shape)`left, Items(shape)`right, Items(shape)`parent, Items(shape)`balance
      ensures x !in old(Contents()) ==> Valid()
      ensures pos < 0 <==> HasKey(old(Contents()), x.key)
      ensures pos < 0 && x !in old(Contents()) ==> Contents() == old(Contents()) && Items(shape) == old(Items(shape))
      ensures pos >= 0 ==>
        pos <= |old(Contents())| && Contents() == old(Contents())[..pos] + [x] + old(Contents())[pos..]
      ensures pos >= 0 ==> Items(shape) == old(Items(shape)) + {x}
      ensures x in old(Contents()) ==>
        && Plug(path, s) == old(shape) && s.Node? && s.x == x && Contents() == Pre(path) + [x] + Post(path)
        && (Valid() <==> path == [] || s == Single(x))
    {
      hide *;
      EmptyRoot();
      InsideOrOutside(x);
      SeqAllocated(Contents());
      path, s := Clear(x);
      InsideOrOutside(x);
      SeqAllocated(Contents());
      if root == null {
        x.parent := null;
        root := x;
        shape := Single(x);
        pos := 0;
        SingleIsValid(x);
        EmptyHasNoKey(x.key);
      } else {
        pos := InsertByKey(x);
      }
    }

    lemma InsideOrOutside(x: Item)
      ensures x in Contents() <==> x in Items(shape)
      ensures x in Contents() ==> HasKey(Contents(), x.key)
      ensures forall y :: y in Items(shape) ==> allocated(y)
    {
      ItemsInOrder(shape);
      ItemsAllocated(shape);
    }

    lemma EmptyRoot()
      requires Valid()
      ensures root == null ==> Contents() == [] && Items(shape) == {}
    {
    }

    lemma EmptyHasNoKey(key: Key)
      ensures !HasKey([], key)
    {
    }

    lemma SingleIsValid(x: Item)
      requires shape == Single(x) && root == x && x.parent == null
      requires x.left == null && x.right == null && x.balance == 0
      ensures Valid() && Contents() == [x] && Items(shape) == {x}
    {
      SingleFacts(x);
    }

    // ----- removal -----

    /** Where rebalancing starts when the hole itself needs none: one step up, or nowhere. */
    lemma AboveStart(path: Path, c: Shape<Item>, h: nat) returns (p: Path, t: Shape<Item>, g: nat)
      requires Climbing(path, c, h) && Avl(c) && Near(Height(c), h)
      ensures Climbing(p, t, g)
      ensures if path == [] then p == [] && Avl(t) else t.Node? && t.x == Last(path).x && Fixable(t, g)
      ensures InOrder(Plug(p, t)) == InOrder(Plug(path, c)) && PathItems(p) + Items(t) == PathItems(path) + Items(c)
    {
      hide Climbing, Fixable, Avl, Height, Items, PathItems, InOrder, Plug;
      p, t, g := path, c, h;
      if path != [] {
        ClimbOne(path, c, h);
        ClimbOneKeeps(path, c);
        p, t, g := Up(path), PlugOne(Last(path), c), 1 + Max(Height(Last(path).sib), h);
      }
    }

    /** rebalance called on the parent of the hole. */
    method RebalanceAbove(start: Item?, ghost path: Path, ghost c: Shape<Item>, ghost h: nat)
      requires Climbing(path, c, h) && Avl(c) && Near(Height(c), h)
      requires start == AboveAt(path, |path|)
      modifies this`root, this`shape
      modifies (PathItems(path) + Items(c))`left, (PathItems(path) + Items(c))`right
      modifies (PathItems(path) + Items(c))`parent, (PathItems(path) + Items(c))`balance
      ensures Zip([], shape) && Exact(shape) && Avl(shape)
      ensures InOrder(shape) == InOrder(Plug(path, c))
      ensures Items(shape) == PathItems(path) + Items(c)
    {
      hide Climbing, Fixable, Avl, Height, Items, PathItems, InOrder, Plug, Zip, Exact, Near;
      ghost var p, t, g := AboveStart(path, c, h);
      Rebalance(start, p, t, g);
    }

    lemma OnlyChild(path: Path, s: Shape<Item>, c: Shape<Item>)
      requires At(path, s) && s.Node? && ((s.l == c && s.r.Leaf?) || (s.l.Leaf? && s.r == c))
      ensures Height(s) == Height(c) + 1 && Avl(c) && Hung(c) && Exact(c)
      ensures Separate(path, c) && Items(c) <= Items(s) && s.x !in Items(c) && PathItems(path) !! Items(s)
      ensures s.x.parent == AboveAt(path, |path|) && s.x in Items(s)
      ensures Under(c) <= Items(c) && (c.Node? ==> c.x in Items(c) && c.x !in Under(c))
      ensures Climbing(path, s, Height(s)) && PathLinked(path, s.x) && TopIs(path, s.x)
      ensures Items(s) == {s.x} + Items(c)
    {
      NodeApart(s.l, s.x, s.r);
      HungParts(s.l, s.x, s.r);
      ExactParts(s.l, s.x, s.r);
      SeparateFacts(path, s);
      UnderRoot(c);
    }

    method ShrinkHole(item: Item, ghost path: Path, ghost h: nat, ghost h': nat)
      requires PathSeparate(path) && PathLinked(path, item) && PathRecorded(path, h) && h == h' + 1
      requires item !in PathItems(path) && item.parent == AboveAt(path, |path|)
      modifies Spine(path)`balance
      ensures PathRecorded(path, h')
    {
      SpineApartFromSibs(path);
      Allocated(path, Leaf);
      hide PathSeparate, PathLinked, Exact, Items, PathItems, SpineExact;
      AdjustBalance(item, -1, path, h, h');
    }

    /** Lines 372-376, 382-386 and 390-394 up to the call of rebalance: the only child, if any, takes
        the place of the node. */
    method Unlink(item: Item, pitem: Slot, child: Item?, ghost path: Path, ghost s: Shape<Item>, ghost c: Shape<Item>)
      requires At(path, s) && s.Node? && s.x == item && pitem == SlotOf(path)
      requires (s.l == c && s.r.Leaf?) || (s.l.Leaf? && s.r == c)
      requires child == Root(c)
      modifies (if path == [] then {this} else {})`root
      modifies Spine(path)`left, Spine(path)`right, Spine(path)`balance
      modifies Items(c)`parent
      ensures Climbing(path, c, Height(s)) && Avl(c) && Height(s) == Height(c) + 1
    {
      hide PathSeparate, PathLinked, PathItems, PathRecorded, Items, Hung, Exact, Avl, Height, AvlPath, Climbing, At;
      hide Zip, Spine, SibItems;
      OnlyChild(path, s, c);
      ZipSpace(path, s);
      SpineApartFromSibs(path);
      assert PathRecorded(path, Height(s)) && AvlPath(path, Height(s));
      ShrinkHole(item, path, Height(s), Height(c));
      Rehang(item, pitem, child, path, c);
      assert Climbing(path, c, Height(s)) by {
        UnlinkedIsClimbing(path, c, Height(s));
      }
    }

    method Rehang(item: Item, pitem: Slot, child: Item?, ghost path: Path, ghost c: Shape<Item>)
      requires Separate(path, c) && PathLinked(path, item) && TopIs(path, item)
      requires pitem == SlotOf(path) && child == Root(c) && Hung(c)
      requires item.parent == AboveAt(path, |path|) && item !in Items(c)
      modifies (if path == [] then {this} else {})`root
      modifies Spine(path)`left, Spine(path)`right
      modifies Items(c)`parent
      ensures Zip(path, c)
    {
      hide PathSeparate, PathLinked, PathItems, Items, Hung, Spine, SibItems;
      SpaceFacts(path, c);
      SeparateFacts(path, c);
      UnderRoot(c);
      Store(pitem, child, path, item);
      if child != null {
        child.parent := item.parent;
      }
    }

    lemma UnlinkedIsClimbing(path: Path, c: Shape<Item>, h: nat)
      requires Zip(path, c) && Exact(c)
      requires PathRecorded(path, Height(c)) && AvlPath(path, h)
      ensures Climbing(path, c, h)
    {
    }

    lemma DirectFacts(path: Path, s: Shape<Item>)
      requires At(path, s) && s.Node? && s.l.Node? && s.l.r.Leaf?
      ensures var t := Node(s.l.l, s.l.x, s.r);
              && Separate(path, t) && Items(s) == Items(t) + {s.x} && s.x !in Items(t)
              && Items(t) == Items(s.l.l) + {s.l.x} + Items(s.r)
              && s.l.x !in Items(s.l.l) && s.l.x !in Items(s.r) && Items(s.l.l) !! Items(s.r)
      ensures s.x.left == s.l.x && s.x.right == Root(s.r) && s.l.x.left == Root(s.l.l)
      ensures Hung(s.l.l) && Hung(s.r) && ParentIs(s.l.l, s.l.x)
      ensures s.r.Node? ==> s.r.x in Items(s.r) && s.r.x !in Under(s.r)
      ensures Under(s.l.l) <= Items(s.l.l) && Under(s.r) <= Items(s.r)
      ensures s.x.parent == AboveAt(path, |path|) && PathLinked(path, s.x) && TopIs(path, s.x)
      ensures s.x.balance == Tip(s) && Exact(s.l.l) && Exact(s.r)
    {
      DirectReplacementItems(s);
      HungParts(s.l, s.x, s.r);
      HungParts(s.l.l, s.l.x, Leaf);
      ExactParts(s.l, s.x, s.r);
      ExactParts(s.l.l, s.l.x, Leaf);
      NodeApart(s.l.l, s.l.x, s.r);
      UnderRoot(s.l.l);
      UnderRoot(s.r);
    }

    /** Lines 441 and 436-437 when the substitute was the left child itself; item is out of the tree
        by then, so what line 436 writes into it is never read again. */
    method SettleDirect(item: Item, subst: Item, pitem: Slot, oldLeft: Item?, ghost path: Path, ghost ol: Shape<Item>,
                        ghost r: Shape<Item>)
      requires Separate(path, Node(ol, subst, r)) && PathLinked(path, item) && TopIs(path, item) &&
        pitem == SlotOf(path)
      requires item !in Items(Node(ol, subst, r)) && item !in PathItems(path)
      requires subst.parent == AboveAt(path, |path|) && subst.right == Root(r) && oldLeft == Root(ol)
      requires ParentIs(ol, subst) && ParentIs(r, subst) && Hung(ol) && Hung(r)
      modifies (if path == [] then {this} else {})`root
      modifies Spine(path)`left, Spine(path)`right
      modifies item`left, subst`left, subst`balance
      ensures Zip(path, Node(ol, subst, r))
      ensures subst.balance == old(subst.balance) + 1
    {
      hide Items, Under, PathItems, PathSeparate, PathLinked, Spine, SibItems, Hung, Distinct;
      ghost var t := Node(ol, subst, r);
      SpaceFacts(path, t);
      SeparateFacts(path, t);
      UnderRoot(t);
      NodeApart(ol, subst, r);
      item.left := oldLeft;
      LowerLeft(subst, oldLeft, ol, r);
      Store(pitem, subst, path, item);
    }

    lemma SeparateAt(path: Path, s: Shape<Item>)
      requires At(path, s)
      ensures Separate(path, s)
    {
    }

    lemma ItemsOfDirect(s: Shape<Item>)
      requires s.Node? && s.l.Node? && s.l.r.Leaf?
      ensures Items(s) == Items(s.l.l) + {s.l.x} + Items(s.r) + {s.x}
    {
      assert Items(s.l) == Items(s.l.l) + {s.l.x};
    }

    method TakeOverDirect(item: Item, subst: Item, pitem: Slot, ghost path: Path, ghost s: Shape<Item>)
      requires At(path, s) && s.Node? && s.l.Node? && s.l.r.Leaf?
      requires item == s.x && subst == s.l.x && pitem == SlotOf(path)
      modifies (if path == [] then {this} else {})`root
      modifies Spine(path)`left, Spine(path)`right
      modifies item`left, subst`left, subst`right, subst`parent, subst`balance, Items(s.r)`parent
      ensures Zip(path, Node(s.l.l, s.l.x, s.r))
      ensures subst.balance == old(item.balance) + 1
    {
      hide At, Items, Under, PathItems, PathSeparate, PathLinked, Spine, SibItems, Hung, Exact, Zip, Separate;
      hide Distinct, Height, Tip, TopIs, InOrder;
      ghost var ol, r := s.l.l, s.r;
      DirectFacts(path, s);
      SeparateAt(path, s);
      SeparateFacts(path, s);
      SpaceFacts(path, s);
      ItemsOfDirect(s);
      var oldLeft := subst.left;
      TakeFields(item, subst);
      SettleDirect(item, subst, pitem, oldLeft, path, ol, r);
    }

    method TakeOverExact(item: Item, subst: Item, pitem: Slot, ghost path: Path, ghost s: Shape<Item>,
                         ghost t: Shape<Item>)
      requires At(path, s) && s.Node? && s.l.Node? && s.l.r.Leaf?
      requires item == s.x && subst == s.l.x && pitem == SlotOf(path)
      requires t == Node(s.l.l, s.l.x, s.r) && Tip(t) == Tip(s) + 1
      modifies (if path == [] then {this} else {})`root
      modifies Spine(path)`left, Spine(path)`right
      modifies item`left, subst`left, subst`right, subst`parent, subst`balance, Items(s.r)`parent
      ensures Zip(path, t) && Exact(t) && subst.balance == Tip(t)
    {
      DirectFacts(path, s);
      DirectItems(s);
      ItemsAllocated(s);
      hide At, Items, PathItems, PathSeparate, PathLinked, Spine, SibItems, Hung, Exact, Zip, Separate, Distinct;
      hide Height;
      TakeOverDirect(item, subst, pitem, path, s);
      ExactParts(t.l, subst, t.r);
    }

    /** Lines 442-444 and 451-454: the height change, if there is one, is passed on upwards. */
    method PassOn(top: Item, ghost path: Path, ghost t: Shape<Item>, ghost h: nat, lower: bool)
      requires Zip(path, t) && Exact(t) && PathRecorded(path, h) && AvlPath(path, h) && top == Root(t)
      requires h == Height(t) + (if lower then 1 else 0)
      modifies Spine(path)`balance
      ensures Climbing(path, t, h)
    {
      hide Zip, Exact, PathRecorded, AvlPath, Height, Climbing;
      if lower {
        Shrink(top, path, t, h);
      }
      UnlinkedIsClimbing(path, t, h);
    }

    /** The branch old_parent == item (lines 439-444, with lines 417-437). */
    method ReplaceDirect(item: Item, subst: Item, pitem: Slot, ghost path: Path, ghost s: Shape<Item>)
      returns (ghost t: Shape<Item>)
      requires At(path, s) && s.Node? && s.l.Node? && s.l.r.Leaf?
      requires item == s.x && subst == s.l.x && pitem == SlotOf(path)
      modifies (if path == [] then {this} else {})`root
      modifies Spine(path)`left, Spine(path)`right, Spine(path)`balance
      modifies item`left, subst`left, subst`right, subst`parent, subst`balance, Items(s.r)`parent
      ensures t == Node(s.l.l, s.l.x, s.r)
      ensures Climbing(path, t, Height(s)) && Fixable(t, Height(s))
    {
      t := Node(s.l.l, s.l.x, s.r);
      ghost var h := Height(s);
      DirectReplacement(s);
      SpaceFacts(path, s);
      DirectItems(s);
      assert PathRecorded(path, h) && AvlPath(path, h);
      hide At, Items, PathItems, PathSeparate, PathRecorded, Spine, SibItems, Exact, Zip, Distinct, Avl, AvlPath;
      hide Height, Fixable, Climbing;
      TakeOverExact(item, subst, pitem, path, s, t);
      PassOn(subst, path, t, h, subst.balance <= 0);
    }

    lemma DirectItems(s: Shape<Item>)
      requires s.Node? && Distinct(s) && s.l.Node? && s.l.r.Leaf?
      ensures Items(s.l.l) <= Items(s) && Items(s.r) <= Items(s) && s.x in Items(s) && s.l.x in Items(s)
    {
      DirectReplacementItems(s);
    }

    lemma DeepFacts(path: Path, down: Path, item: Item, r: Shape<Item>, ol: Shape<Item>, subst: Item)
      requires Deep(path, down, item, r) && Zip(down, Node(ol, subst, Leaf))
      ensures var k := |path|;
              && item.left == down[k + 1].x && item.right == Root(r) && item.parent == AboveAt(down, k)
              && Hung(r) && Hung(ol) && ParentIs(ol, subst) && subst.left == Root(ol)
              && FrameLinked(down[k + 1], item, BelowAt(down, k + 1, subst))
              && subst.parent == Last(down).x
      ensures TailLinked(down, |path| + 2, subst) && PathLinked(path, item) && TopIs(path, item)
    {
      hide Hung, Separate, Items, PathItems, PathSeparate, TailLinked, PathLinked;
      var k := |path|;
      ZipLinks(down, Node(ol, subst, Leaf), k);
      ZipLinks(down, Node(ol, subst, Leaf), k + 1);
      HungParts(ol, subst, Leaf);
      DeepLinks(path, down, item, r, subst);
    }

    lemma ZipLinks(path: Path, s: Shape<Item>, j: nat)
      requires Zip(path, s) && s.Node? && j < |path|
      ensures LinkedAt(path, j, s.x) && PathLinked(path, s.x) && TopIs(path, s.x) && Hung(s) &&
        s.x.parent == AboveAt(path, |path|)
    {
      hide Hung, Separate, FrameLinked;
    }

    lemma DeepLinks(path: Path, down: Path, item: Item, r: Shape<Item>, hole: Item)
      requires Deep(path, down, item, r) && PathLinked(down, hole) && TopIs(down, hole)
      ensures TailLinked(down, |path| + 2, hole) && PathLinked(path, item) && TopIs(path, item)
    {
      hide FrameLinked;
      forall j {:trigger LinkedAt(path, j, item)} | 0 <= j < |path|
        ensures LinkedAt(path, j, item)
      {
        assert LinkedAt(down, j, hole);
        assert down[j] == path[j];
      }
      assert path != [] ==> path[0] == down[0];
    }

    lemma DeepParts(path: Path, down: Path, item: Item, r: Shape<Item>, s: Shape<Item>)
      requires Deep(path, down, item, r) && Zip(down, s)
      ensures |path| + 1 < |down| && down[|path|] == Frame(Left, item, r)
      ensures Separate(down, s) && Distinct(down[|path| + 1].sib)
    {
      hide Distinct, Items, Hung;
    }

    /** Lines 420-434 when the substitute hangs further down. */
    method TakeOverDeep(item: Item, subst: Item, ghost path: Path, ghost down: Path, ghost r: Shape<Item>,
                        ghost ol: Shape<Item>)
      requires Deep(path, down, item, r) && Zip(down, Node(ol, subst, Leaf))
      modifies subst`parent, subst`left, subst`right, subst`balance
      modifies down[|path| + 1].x`parent, Items(r)`parent
      ensures TailLinked(Swapped(down, |path|, subst), |path|, subst)
      ensures PathLinked(path, item) && TopIs(path, item)
      ensures Hung(ol) && subst.balance == old(item.balance)
    {
      hide Items, Under, Hung, TailLinked, TailItems, PathItems, PathLinked, Zip, Separate, PathSeparate, Distinct;
      hide TopIs, Deep;
      DeepParts(path, down, item, r, Node(ol, subst, Leaf));
      ghost var k, x := |path|, down[|path| + 1].x;
      ghost var sib, below := down[k + 1].sib, BelowAt(down, k + 1, subst);
      DeepFacts(path, down, item, r, ol, subst);
      DeepApart(path, down, item, r, ol, subst);
      DeepAllocated(path, down, item, r, ol, subst, sib, k + 2);
      UnderRoot(r);
      UnderRoot(sib);
      UnderRoot(ol);
      assert FrameItems(down[k + 1]) == {x} + Items(sib);
      TakeFields(item, subst);
      assert Hung(r) && ParentIs(r, subst);
      assert Hung(sib) && ParentIs(sib, x);
      TailSwapped(down, k, subst, subst);
    }

    lemma DeepAllocated(path: Path, down: Path, item: Item, r: Shape<Item>, ol: Shape<Item>, subst: Item,
                        sib: Shape<Item>, rest: nat)
      requires Deep(path, down, item, r) && Separate(down, Node(ol, subst, Leaf))
      requires sib == down[|path| + 1].sib && rest == |path| + 2
      ensures forall y :: y in PathItems(path) ==> allocated(y)
      ensures forall y :: y in Items(r) ==> allocated(y)
      ensures forall y :: y in Items(ol) ==> allocated(y)
      ensures forall y :: y in Items(sib) ==> allocated(y)
      ensures forall y :: y in TailItems(down, rest) ==> allocated(y)
      ensures subst !in PathItems(path) && down[|path| + 1].x !in PathItems(path)
      ensures Items(r) !! PathItems(path) && item !in PathItems(path)
    {
      var k := |path|;
      Allocated(path, r);
      ItemsAllocated(ol);
      ItemsAllocated(sib);
      TailAllocated(down, rest);
      forall j | 0 <= j < k
        ensures FrameItems(path[j]) !! {subst, item, down[k + 1].x} + Items(r)
      {
        assert down[j] == path[j];
        assert FrameItems(down[j]) !! FrameItems(down[k]);
        assert FrameItems(down[j]) !! FrameItems(down[k + 1]);
        assert FrameItems(down[j]) !! Items(Node(ol, subst, Leaf));
      }
    }

    /** Line 436: the substitute leaves its old place to its left subtree. */
    method CutOut(subst: Item, psubst: Slot, oldLeft: Item?, ghost k: nat, ghost p: Path)
      requires PathSeparate(p) && k + 1 < |p| && Last(p).dir == Right && psubst == RightOf(Last(p).x)
      requires TailLinked(p, k, subst)
      modifies Last(p).x`right
      ensures TailLinked(p, k, oldLeft)
    {
      LastApart(p);
      assert LinkedAt(p, |p| - 1, subst);
      psubst.of.right := oldLeft;
      assert forall j {:trigger LinkedAt(p, j, subst)} :: k <= j < |p| - 1 ==> LinkedAt(p, j, subst);
      forall j {:trigger LinkedAt(p, j, oldLeft)} | k <= j < |p|
        ensures LinkedAt(p, j, oldLeft)
      {
        if j < |p| - 1 {
          assert LinkedAt(p, j, subst);
        }
      }
    }

    /** Lines 436-437 and 447-449. */
    method SettleDeep(item: Item, subst: Item, pitem: Slot, psubst: Slot, oldLeft: Item?, oldParent: Item,
                      ghost path: Path, ghost p: Path, ghost ol: Shape<Item>)
      requires Separate(p, ol) && |path| + 1 < |p| && p[..|path|] == path && p[|path|].x == subst
      requires Last(p).dir == Right && psubst == RightOf(oldParent) && oldParent == Last(p).x
      requires TailLinked(p, |path|, subst) && PathLinked(path, item) && TopIs(path, item)
      requires pitem == SlotOf(path) && Hung(ol) && oldLeft == Root(ol)
      modifies (if path == [] then {this} else {})`root
      modifies Spine(path)`left, Spine(path)`right
      modifies oldParent`right, Items(ol)`parent
      ensures Zip(p, ol)
    {
      EndFacts(path, p, ol, |path|);
      hide Items, Under, Hung, TailLinked, PathItems, PathLinked, Separate, PathSeparate, Spine;
      CutOut(subst, psubst, oldLeft, |path|, p);
      HangSubstitute(item, subst, pitem, path, p, ol);
      if oldLeft != null {
        oldLeft.parent := oldParent;
      }
    }

    /** Line 437. */
    method HangSubstitute(item: Item, subst: Item, pitem: Slot, ghost path: Path, ghost p: Path, ghost ol: Shape<Item>)
      requires Separate(p, ol) && |path| + 1 < |p| && p[..|path|] == path && p[|path|].x == subst
      requires TailLinked(p, |path|, Root(ol)) && PathLinked(path, item) && TopIs(path, item)
      requires pitem == SlotOf(path)
      modifies (if path == [] then {this} else {})`root
      modifies Spine(path)`left, Spine(path)`right
      ensures PathLinked(p, Root(ol)) && TopIs(p, Root(ol))
    {
      PartsFacts(path, p, ol, |path|);
      hide Items, TailLinked, TailItems, PathItems, PathLinked, Separate, PathSeparate, Spine;
      Store(pitem, subst, path, item);
      PathFromParts(path, p, Root(ol));
    }

    lemma EndFacts(path: Path, p: Path, ol: Shape<Item>, k: nat)
      requires Separate(p, ol) && k == |path| && k + 1 < |p| && p[..k] == path
      ensures PathSeparate(p) && Last(p).x !in PathItems(path) && Last(p).x !in Items(ol)
      ensures PathItems(p) !! Items(ol) && Spine(path) !! Items(ol)
      ensures forall y :: y in PathItems(path) ==> allocated(y)
      ensures forall y :: y in PathItems(p) ==> allocated(y)
      ensures forall y :: y in Items(ol) ==> allocated(y)
      ensures Under(ol) <= Items(ol) && (ol.Node? ==> ol.x in Items(ol) && ol.x !in Under(ol))
    {
      PartsFacts(path, p, ol, k);
      UnderRoot(ol);
      Allocated(p, ol);
      SeparateFacts(p, ol);
      hide Items, Distinct, Separate, TailItems;
      SpineApartFromSibs(path);
    }

    lemma PartsFacts(path: Path, p: Path, ol: Shape<Item>, k: nat)
      requires Separate(p, ol) && k == |path| && k + 1 < |p| && p[..k] == path
      ensures PathSeparate(path)
      ensures path != [] ==> Last(path).x in Spine(path) && Last(path).x in PathItems(path)
      ensures PathItems(path) !! TailItems(p, k) && Last(p).x !in PathItems(path)
      ensures Items(ol) !! PathItems(path) && Items(ol) !! TailItems(p, k) && Last(p).x !in Items(ol)
      ensures forall y :: y in PathItems(path) ==> allocated(y)
      ensures forall y :: y in TailItems(p, k) ==> allocated(y)
      ensures forall y :: y in Items(ol) ==> allocated(y)
      ensures path != [] ==> path[0] == p[0]
    {
      Allocated(path, ol);
      TailAllocated(p, k);
      forall j | 0 <= j < k
        ensures path[j] == p[j]
      {
      }
      hide Items;
      forall j, i | 0 <= j < k && k <= i < |p|
        ensures FrameItems(path[j]) !! FrameItems(p[i])
      {
        assert FrameItems(p[j]) !! FrameItems(p[i]);
      }
      forall j | 0 <= j < k
        ensures FrameItems(path[j]) !! Items(ol)
      {
        assert FrameItems(p[j]) !! Items(ol);
      }
      assert Last(p).x in FrameItems(p[|p| - 1]);
      assert path != [] ==> path[k - 1].x in Spine(path) && path[k - 1].x in FrameItems(path[k - 1]);
    }

    lemma RecordedSwapped(down: Path, k: nat, subst: Item, h: nat)
      requires k < |down| && PathRecorded(down, h) && subst.balance == down[k].x.balance
      ensures PathRecorded(Swapped(down, k, subst), h)
    {
      var p := Swapped(down, k, subst);
      hide Height, HoleHeight, Exact;
      forall j {:trigger ExactAt(p, j, h)} | 0 <= j < |p|
        ensures ExactAt(p, j, h)
      {
        assert ExactAt(down, j, h);
        HoleHeightSwapped(down, k, subst, j + 1, h);
      }
      forall j {:trigger p[j]} | 0 <= j < |p|
        ensures Exact(p[j].sib)
      {
        assert Exact(down[j].sib);
      }
    }

    lemma PathRecordedUp(path: Path, h: nat)
      requires path != [] && PathRecorded(path, h)
      ensures PathRecorded(Up(path), 1 + Max(Height(Last(path).sib), h))
      ensures Last(path).x.balance == Tilt(Last(path).dir, Height(Last(path).sib), h) && Exact(Last(path).sib)
    {
      var up, g := Up(path), 1 + Max(Height(Last(path).sib), h);
      assert ExactAt(path, |path| - 1, h);
      assert HoleHeight(path, |path|, h) == h;
      assert Exact(path[|path| - 1].sib);
      hide Height, HoleHeight, Exact, ExactAt;
      forall j {:trigger ExactAt(up, j, g)} | 0 <= j < |up|
        ensures ExactAt(up, j, g)
      {
        assert ExactAt(path, j, h);
        ExactAtUp(path, j, h);
      }
      forall j {:trigger up[j]} | 0 <= j < |up|
        ensures Exact(up[j].sib)
      {
        assert up[j] == path[j];
      }
    }

    /** Lines 420-437 and 447-449: the substitute stands where the node stood, and its left subtree
        stands where it stood. */
    method RelinkDeep(item: Item, subst: Item, pitem: Slot, psubst: Slot, ghost path: Path, ghost down: Path,
                      ghost r: Shape<Item>, ghost ol: Shape<Item>, ghost p: Path) returns (oldParent: Item)
      requires Deep(path, down, item, r) && Zip(down, Node(ol, subst, Leaf))
      requires pitem == SlotOf(path) && psubst == RightOf(Last(down).x) && p == Swapped(down, |path|, subst)
      modifies (if path == [] then {this} else {})`root
      modifies PathItems(down)`left, PathItems(down)`right, PathItems(down)`parent
      modifies Items(ol)`parent, subst`parent, subst`left, subst`right, subst`balance
      ensures Zip(p, ol) && oldParent == Last(p).x && subst.balance == item.balance
    {
      DeepFacts(path, down, item, r, ol, subst);
      SwappedSeparate(path, down, item, r, ol, subst);
      DeepFrames(path, down, item, r, ol, subst);
      hide Items, Hung, TailLinked, PathItems, PathLinked, Separate, PathSeparate, Spine, SibItems, Zip;
      var oldLeft := subst.left;
      oldParent := subst.parent;
      TakeOverDeep(item, subst, path, down, r, ol);
      SettleDeep(item, subst, pitem, psubst, oldLeft, oldParent, path, p, ol);
    }

    lemma BeforeReplaceDeep(path: Path, down: Path, subst: Item, ol: Shape<Item>, h: nat)
      requires At(down, Node(ol, subst, Leaf)) && |path| < |down| && h == Height(Node(ol, subst, Leaf))
      ensures h == Height(ol) + 1 && PathRecorded(down, h) && AvlPath(down, h) && Exact(ol) && Avl(ol)
      ensures Separate(down, Node(ol, subst, Leaf)) && Zip(down, Node(ol, subst, Leaf))
    {
      ExactParts(ol, subst, Leaf);
    }

    method ReplaceDeep(item: Item, subst: Item, pitem: Slot, psubst: Slot, ghost path: Path, ghost down: Path,
                       ghost r: Shape<Item>, ghost ol: Shape<Item>, ghost p: Path) returns (oldParent: Item)
      requires Deep(path, down, item, r) && At(down, Node(ol, subst, Leaf))
      requires pitem == SlotOf(path) && psubst == RightOf(Last(down).x) && p == Swapped(down, |path|, subst)
      modifies (if path == [] then {this} else {})`root
      modifies PathItems(down)`left, PathItems(down)`right, PathItems(down)`parent
      modifies Items(ol)`parent, subst`parent, subst`left, subst`right, subst`balance
      ensures Zip(p, ol) && Exact(ol) && PathRecorded(p, Height(ol) + 1) && AvlPath(p, Height(ol) + 1)
      ensures Avl(ol) && oldParent == Last(p).x
    {
      hide At, Items, PathItems, Separate, Spine, SibItems, PathRecorded, AvlPath, Exact, Zip, Avl, Height;
      ghost var h := Height(Node(ol, subst, Leaf));
      BeforeReplaceDeep(path, down, subst, ol, h);
      DeepFrames(path, down, item, r, ol, subst);
      AvlPathSwapped(down, |path|, subst, h);
      oldParent := RelinkDeep(item, subst, pitem, psubst, path, down, r, ol, p);
      RecordedSwapped(down, |path|, subst, h);
    }

    lemma DeepFrames(path: Path, down: Path, item: Item, r: Shape<Item>, ol: Shape<Item>, subst: Item)
      requires Deep(path, down, item, r) && Separate(down, Node(ol, subst, Leaf))
      ensures subst !in Spine(down) && subst !in SibItems(down) && subst !in Items(ol)
      ensures Spine(path) <= PathItems(down) && Last(down).x in PathItems(down)
      ensures Items(r) <= PathItems(down) && down[|path| + 1].x in PathItems(down)
      ensures Items(ol) <= Items(Node(ol, subst, Leaf)) && subst in Items(Node(ol, subst, Leaf))
      ensures forall y :: y in Spine(down) ==> allocated(y)
      ensures forall y :: y in SibItems(down) ==> allocated(y)
      ensures forall y :: y in Items(ol) ==> allocated(y)
    {
      var k, m := |path|, Node(ol, subst, Leaf);
      NodeApart(ol, subst, Leaf);
      SpaceFacts(down, m);
      SpineApartFromSibs(down);
      SeparateFacts(down, m);
      ItemsAllocated(ol);
      hide Items;
      assert Items(r) <= FrameItems(down[k]) && FrameItems(down[k]) <= PathItems(down);
      assert down[k + 1].x in FrameItems(down[k + 1]);
      forall j | 0 <= j < k
        ensures path[j].x in PathItems(down)
      {
        assert path[j] == down[j];
        assert path[j].x in FrameItems(down[j]);
      }
    }

    lemma LowerRightFacts(p: Path, ol: Shape<Item>, h: nat)
      requires p != [] && Last(p).dir == Right && h == Height(ol) + 1
      requires Zip(p, ol) && Exact(ol) && PathRecorded(p, h) && AvlPath(p, h) && Avl(ol)
      ensures var u, g := PlugOne(Last(p), ol), 1 + Max(Height(Last(p).sib), h);
              && Zip(Up(p), u) && PathRecorded(Up(p), g) && AvlPath(Up(p), g) && Fixable(u, g)
              && u == Node(Last(p).sib, Last(p).x, ol) && Exact(Last(p).sib)
              && Last(p).x.balance - 1 == Tip(u)
              && g == Height(u) + (if Tip(u) >= 0 then 1 else 0)
              && Items(u) == Items(Last(p).sib) + {Last(p).x} + Items(ol)
              && Distinct(u) && Separate(Up(p), u)
    {
      hide AvlPath, Avl, Fixable, PathRecorded, Exact;
      AvlPathUp(p, h);
      ClimbIsFixable(Last(p), ol, h);
      ZipUp(p, ol);
      PathRecordedUp(p, h);
    }

    lemma SpineUp(p: Path)
      requires p != []
      ensures Spine(Up(p)) <= Spine(p) && Last(p).x in Spine(p)
    {
      assert p[|p| - 1].x in Spine(p);
      forall j | 0 <= j < |p| - 1
        ensures Up(p)[j].x in Spine(p)
      {
        assert Up(p)[j] == p[j];
      }
    }

    lemma Surroundings(path: Path, s: Shape<Item>)
      requires Separate(path, s)
      ensures PathItems(path) !! Items(s) && Spine(path) <= PathItems(path) && SibItems(path) <= PathItems(path)
    {
      SeparateFacts(path, s);
      SpineApartFromSibs(path);
    }

    /** What LowerRight starts from: u is the tree that it passes on, g the height it had. */
    lemma LowerRightPlan(p: Path, ol: Shape<Item>, h: nat) returns (sib: Shape<Item>, up: Path, u: Shape<Item>, g: nat)
      requires p != [] && Last(p).dir == Right && h == Height(ol) + 1
      requires Zip(p, ol) && Exact(ol) && PathRecorded(p, h) && AvlPath(p, h) && Avl(ol)
      ensures sib == Last(p).sib && up == Up(p) && u == PlugOne(Last(p), ol) && g == 1 + Max(Height(sib), h)
      ensures u == Node(sib, Last(p).x, ol) && Exact(sib) && Last(p).x.balance - 1 == Tip(u)
      ensures Zip(up, u) && PathRecorded(up, g) && AvlPath(up, g) && Fixable(u, g)
      ensures g == Height(u) + (if Tip(u) >= 0 then 1 else 0)
      ensures Last(p).x !in Items(sib) && Last(p).x !in Items(ol) && Last(p).x !in PathItems(up)
      ensures Spine(up) <= Spine(p) && Last(p).x in Spine(p)
      ensures forall y :: y in Items(sib) ==> allocated(y)
      ensures forall y :: y in Items(ol) ==> allocated(y)
      ensures forall y :: y in Items(u) ==> allocated(y)
      ensures forall y :: y in PathItems(up) ==> allocated(y)
      ensures Spine(up) <= PathItems(up) && SibItems(up) <= PathItems(up)
    {
      hide Zip, PathRecorded, AvlPath, Avl, Fixable, Spine, SibItems, PathItems, Exact;
      sib, up, u, g := Last(p).sib, Up(p), PlugOne(Last(p), ol), 1 + Max(Height(Last(p).sib), h);
      LowerRightFacts(p, ol, h);
      SpineUp(p);
      Surroundings(up, u);
      NodeApart(sib, Last(p).x, ol);
      ItemsAllocated(sib);
      ItemsAllocated(ol);
      Allocated(up, u);
    }

    /** Lines 451-454. */
    method LowerRight(oldParent: Item, ghost p: Path, ghost ol: Shape<Item>, ghost h: nat)
      requires p != [] && Last(p).dir == Right && oldParent == Last(p).x && h == Height(ol) + 1
      requires Zip(p, ol) && Exact(ol) && PathRecorded(p, h) && AvlPath(p, h) && Avl(ol)
      modifies Spine(p)`balance
      ensures var u, g := PlugOne(Last(p), ol), 1 + Max(Height(Last(p).sib), h);
              Climbing(Up(p), u, g) && Fixable(u, g)
    {
      hide Zip, PathRecorded, AvlPath, Avl, Exact, Fixable, Items, PathItems, Spine, SibItems, Separate, Distinct;
      hide Climbing, Height, Up, Last, PlugOne, Max;
      ghost var sib, up, u, g := LowerRightPlan(p, ol, h);
      oldParent.balance := oldParent.balance - 1;
      ExactParts(sib, oldParent, ol);
      PassOn(oldParent, up, u, g, oldParent.balance >= 0);
    }

    /** The branch old_parent != item (lines 445-455, with lines 417-437). */
    method ReplaceAndLower(item: Item, subst: Item, pitem: Slot, psubst: Slot, ghost path: Path, ghost down: Path,
                           ghost r: Shape<Item>, ghost ol: Shape<Item>, ghost p: Path, ghost h: nat)
      returns (oldParent: Item)
      requires Deep(path, down, item, r) && At(down, Node(ol, subst, Leaf))
      requires pitem == SlotOf(path) && psubst == RightOf(Last(down).x)
      requires p == Swapped(down, |path|, subst) && h == Height(ol) + 1
      modifies this`root
      modifies Items(shape)`left, Items(shape)`right, Items(shape)`parent, Items(shape)`balance
      ensures p != [] && oldParent == Last(p).x && Last(p).dir == Right
      ensures var u, g := PlugOne(Last(p), ol), 1 + Max(Height(Last(p).sib), h);
              Climbing(Up(p), u, g) && Fixable(u, g)
    {
      DeepSpace(path, down, item, r, ol, subst, p);
      hide At, Items, PathItems, Spine, PathRecorded, AvlPath, Exact, Zip, Avl, Height, Climbing, Fixable;
      oldParent := ReplaceDeep(item, subst, pitem, psubst, path, down, r, ol, p);
      LowerRight(oldParent, p, ol, h);
    }

    /** What is known before the substitute further down takes over: where the loop starts to rebalance,
        and what the tree will hold. */
    lemma RemovalPlan(path: Path, down: Path, item: Item, r: Shape<Item>, ol: Shape<Item>, subst: Item)
      returns (p: Path, h: nat, up: Path, u: Shape<Item>, g: nat)
      requires Deep(path, down, item, r) && At(down, Node(ol, subst, Leaf))
      ensures p == Swapped(down, |path|, subst) && h == Height(ol) + 1 && p != []
      ensures up == Up(p) && u == PlugOne(Last(p), ol) && g == 1 + Max(Height(Last(p).sib), h)
      ensures u.Node? && u.x == Last(p).x && PathItems(up) + Items(u) == Items(shape) - {item}
      ensures InOrder(Plug(up, u)) == (Pre(down) + InOrder(ol) + [subst]) + (InOrder(r) + Post(path))
    {
      p, h := Swapped(down, |path|, subst), Height(ol) + 1;
      DeepOrder(path, down, item, r, ol, subst);
      DeepSpace(path, down, item, r, ol, subst, p);
      up, u, g := Up(p), PlugOne(Last(p), ol), 1 + Max(Height(Last(p).sib), h);
      ClimbOneKeeps(p, ol);
      hide At, Items, PathItems, Deep, InOrder, Pre, Post, Plug;
    }

    method RemoveDeep(item: Item, subst: Item, pitem: Slot, psubst: Slot, ghost path: Path, ghost down: Path,
                      ghost r: Shape<Item>, ghost ol: Shape<Item>)
      requires Deep(path, down, item, r) && At(down, Node(ol, subst, Leaf))
      requires pitem == SlotOf(path) && psubst == RightOf(Last(down).x)
      modifies this`root, this`shape
      modifies Items(shape)`left, Items(shape)`right, Items(shape)`parent, Items(shape)`balance
      ensures Zip([], shape) && Exact(shape) && Avl(shape)
      ensures InOrder(shape) == (Pre(down) + InOrder(ol) + [subst]) + (InOrder(r) + Post(path))
      ensures Items(shape) == old(Items(shape)) - {item}
    {
      hide At, Items, PathItems, Deep, Swapped, SlotOf, Exact, Zip, Avl, Height, Climbing, Fixable, InOrder, Pre;
      hide Post, Plug, PlugOne, Up, Last, Max;
      ghost var p, h, up, u, g := RemovalPlan(path, down, item, r, ol, subst);
      var oldParent := ReplaceAndLower(item, subst, pitem, psubst, path, down, r, ol, p, h);
      Rebalance(oldParent, up, u, g);
    }

    lemma DeepSpace(path: Path, down: Path, item: Item, r: Shape<Item>, ol: Shape<Item>, subst: Item, p: Path)
      requires Deep(path, down, item, r) && At(down, Node(ol, subst, Leaf)) && p == Swapped(down, |path|, subst)
      ensures p != [] && Last(p) == Last(down) && Last(p).dir == Right
      ensures Items(ol) <= Items(shape) && subst in Items(shape) && PathItems(down) <= Items(shape)
      ensures Spine(p) <= Items(shape) && (path != [] ==> Last(path).x in Items(shape))
      ensures PathItems(p) + Items(ol) == Items(shape) - {item} && item in Items(shape)
    {
      var m := Node(ol, subst, Leaf);
      hide Items, PathItems, Spine, Distinct, PathSeparate;
      SpaceAt(down, m);
      DeepFrames(path, down, item, r, ol, subst);
      SwappedItems(path, down, item, r, ol, subst);
      SwappedSeparate(path, down, item, r, ol, subst);
      SpineApartFromSibs(p);
      LastOnPath(path, down);
    }

    lemma LastOnPath(path: Path, down: Path)
      requires |path| < |down| && down[..|path|] == path
      ensures path != [] ==> Last(path).x in PathItems(down)
    {
      if path != [] {
        assert down[|path| - 1] == path[|path| - 1];
        assert Last(path).x in FrameItems(down[|path| - 1]);
      }
    }

    /** The contents without the node that stands at the given place. */
    ghost function Without(path: Path, s: Shape<Item>): seq<Item>
      requires s.Node?
    {
      (Pre(path) + InOrder(s.l)) + (InOrder(s.r) + Post(path))
    }

    lemma RemoveChildSpace(path: Path, s: Shape<Item>, c: Shape<Item>)
      requires At(path, s) && s.Node? && ((s.l == c && s.r.Leaf?) || (s.l.Leaf? && s.r == c))
      ensures Items(c) <= Items(shape) && PathItems(path) + Items(c) == Items(shape) - {s.x}
      ensures Spine(path) <= Items(shape) && s.x in Items(shape)
      ensures path != [] ==> Last(path).x in Items(shape)
      ensures InOrder(Plug(path, c)) == Without(path, s)
      ensures s.x.parent == AboveAt(path, |path|)
    {
      hide Items, PathItems, Spine, Height, InOrder, Pre, Post, Plug, Without;
      SpaceAt(path, s);
      OnlyChild(path, s, c);
      OnlyChildOrder(path, s, c);
    }

    lemma OnlyChildOrder(path: Path, s: Shape<Item>, c: Shape<Item>)
      requires s.Node? && ((s.l == c && s.r.Leaf?) || (s.l.Leaf? && s.r == c))
      ensures InOrder(Plug(path, c)) == Without(path, s)
    {
      PlugInOrder(path, c);
      assert InOrder<Item>(Leaf) == [];
      var a, b, z := Pre(path), InOrder(c), Post(path);
      hide InOrder, Pre, Post, Plug;
      assert a + [] == a && [] + z == z;
      assert (a + b) + z == a + (b + z);
    }

    /** Lines 372-396: at most one child. */
    method RemoveShallow(item: Item, pitem: Slot, child: Item?, ghost path: Path, ghost s: Shape<Item>,
                         ghost c: Shape<Item>)
      requires At(path, s) && s.Node? && s.x == item && pitem == SlotOf(path)
      requires (s.l == c && s.r.Leaf?) || (s.l.Leaf? && s.r == c)
      requires child == Root(c)
      modifies this`root, this`shape
      modifies Items(shape)`left, Items(shape)`right, Items(shape)`parent, Items(shape)`balance
      ensures Zip([], shape) && Exact(shape) && Avl(shape)
      ensures InOrder(shape) == Without(path, s) && Items(shape) == old(Items(shape)) - {item}
    {
      ghost var h, all := Height(s), Items(shape);
      RemoveChildSpace(path, s, c);
      OnlyChild(path, s, c);
      hide At, Items, PathItems, Spine, Separate, PathLinked, Hung, Exact, Zip, Avl, Height, Climbing, Fixable;
      hide InOrder, Pre, Post, Plug, Without;
      Unlink(item, pitem, child, path, s, c);
      RebalanceAbove(item.parent, path, c, h);
    }

    lemma RemoveDirectSpace(path: Path, s: Shape<Item>)
      requires At(path, s) && s.Node? && s.l.Node? && s.l.r.Leaf?
      ensures var t := Node(s.l.l, s.l.x, s.r);
              && PathItems(path) + Items(t) == Items(shape) - {s.x}
              && InOrder(Plug(path, t)) == Without(path, s)
      ensures Spine(path) <= Items(shape) && s.x in Items(shape) && s.l.x in Items(shape) && Items(s.r) <= Items(shape)
      ensures path != [] ==> Last(path).x in Items(shape)
    {
      var t := Node(s.l.l, s.l.x, s.r);
      SpaceAt(path, s);
      DirectFacts(path, s);
      PlugInOrder(path, t);
      assert InOrder(s.l) == InOrder(s.l.l) + [s.l.x];
      Reassociate(Pre(path), InOrder(s.l), InOrder(s.r), Post(path));
    }

    lemma Reassociate(a: seq<Item>, b: seq<Item>, c: seq<Item>, d: seq<Item>)
      ensures a + (b + c) + d == (a + b) + (c + d)
    {
    }

    method RemoveDirect(item: Item, subst: Item, pitem: Slot, ghost path: Path, ghost s: Shape<Item>)
      requires At(path, s) && s.Node? && s.l.Node? && s.l.r.Leaf?
      requires item == s.x && subst == s.l.x && pitem == SlotOf(path)
      modifies this`root, this`shape
      modifies Items(shape)`left, Items(shape)`right, Items(shape)`parent, Items(shape)`balance
      ensures Zip([], shape) && Exact(shape) && Avl(shape)
      ensures InOrder(shape) == Without(path, s) && Items(shape) == old(Items(shape)) - {item}
    {
      ghost var h, all := Height(s), Items(shape);
      RemoveDirectSpace(path, s);
      hide At, Items, PathItems, Spine, Exact, Zip, Avl, Height, Climbing, Fixable, InOrder, Pre, Post, Plug, Without;
      ghost var t := ReplaceDirect(item, subst, pitem, path, s);
      Rebalance(subst, path, t, h);
    }

    lemma DeepWithout(path: Path, s: Shape<Item>, down: Path, ol: Shape<Item>, subst: Item)
      requires At(path, s) && s.Node? && Deep(path, down, s.x, s.r) && At(down, Node(ol, subst, Leaf))
      ensures (Pre(down) + InOrder(ol) + [subst]) + (InOrder(s.r) + Post(path)) == Without(path, s)
    {
      DeepOrder(path, down, s.x, s.r, ol, subst);
      OrderAt(path, s);
      RegroupAround(Pre(path), InOrder(s.l), s.x, InOrder(s.r), Post(path));
      hide At, InOrder, Pre, Post, Plug, Deep;
      SameHead(Pre(down) + InOrder(ol) + [subst], Pre(path) + InOrder(s.l), s.x, InOrder(s.r) + Post(path));
    }

    lemma SameHead(a: seq<Item>, b: seq<Item>, x: Item, c: seq<Item>)
      requires a + [x] + c == b + [x] + c
      ensures a == b
    {
      assert |a| == |b|;
      assert a == (a + [x] + c)[..|a|] && b == (b + [x] + c)[..|b|];
    }

    /** down starts with path, turns left at item, and from there on only turns right. */
    ghost predicate LeftThenRight(path: Path, down: Path, item: Item, r: Shape<Item>) {
      && |path| < |down| && down[..|path|] == path && down[|path|] == Frame(Left, item, r)
      && (forall j :: |path| < j < |down| ==> down[j].dir == Right)
    }

    /** Lines 403-418: the rightmost node of the left subtree. */
    method FindSubstitute(item: Item, ghost path: Path, ghost s: Shape<Item>)
      returns (subst: Item, ghost down: Path, ghost m: Shape<Item>)
      requires At(path, s) && s.Node? && s.x == item && s.l.Node?
      ensures At(down, m) && m.Node? && m.x == subst && m.r.Leaf?
      ensures LeftThenRight(path, down, item, s.r)
      ensures |down| == |path| + 1 ==> m == s.l
    {
      hide At, Items;
      NodeAt(path, s);
      AtChild(path, Frame(Left, item, s.r), s.l);
      subst := item.left;
      down, m := path + [Frame(Left, item, s.r)], s.l;
      NodeAt(down, m);
      while subst.right != null
        invariant At(down, m) && m.Node? && m.x == subst && subst.right == Root(m.r)
        invariant LeftThenRight(path, down, item, s.r)
        invariant |down| == |path| + 1 ==> m == s.l
        decreases m
      {
        AtChild(down, Frame(Right, m.x, m.l), m.r);
        subst := subst.right;
        down, m := down + [Frame(Right, m.x, m.l)], m.r;
        NodeAt(down, m);
      }
    }

    lemma OldParent(path: Path, s: Shape<Item>, down: Path, m: Shape<Item>, item: Item)
      requires s.Node? && At(down, m) && m.Node? && LeftThenRight(path, down, item, s.r)
      ensures m.x.parent == Last(down).x
      ensures m.x.parent == item <==> |down| == |path| + 1
      ensures |down| != |path| + 1 ==> Deep(path, down, item, s.r) && SlotOf(down) == RightOf(Last(down).x)
    {
      NodeAt(down, m);
      SpineDistinct(down);
    }

    /** Lines 398-456: both children are there. */
    method RemoveInner(item: Item, pitem: Slot, ghost path: Path, ghost s: Shape<Item>)
      requires At(path, s) && s.Node? && s.x == item && pitem == SlotOf(path) && s.l.Node?
      modifies this`root, this`shape
      modifies Items(shape)`left, Items(shape)`right, Items(shape)`parent, Items(shape)`balance
      ensures Zip([], shape) && Exact(shape) && Avl(shape)
      ensures InOrder(shape) == Without(path, s) && Items(shape) == old(Items(shape)) - {item}
    {
      ghost var all := Items(shape);
      SpaceAt(path, s);
      AllocatedAt(path, s);
      hide Items, PathItems, Spine, SibItems, Exact, Zip, Avl, Height, InOrder, Plug, Pre, Post, Without;
      ghost var down, m;
      var subst;
      subst, down, m := FindSubstitute(item, path, s);
      OldParent(path, s, down, m, item);
      LinkAt(down, m);
      var psubst := LinkFromParent(subst);
      var oldParent := subst.parent;
      if oldParent == item {
        RemoveDirect(item, subst, pitem, path, s);
      } else {
        DeepWithout(path, s, down, m.l, subst);
        RemoveDeep(item, subst, pitem, psubst, path, down, s.r, m.l);
      }
    }

    lemma LinkAt(path: Path, s: Shape<Item>)
      requires At(path, s) && s.Node?
      ensures LinkFromParent(s.x) == SlotOf(path)
    {
      LinkIsSlot(path, s);
    }

    lemma AllocatedAt(path: Path, s: Shape<Item>)
      requires At(path, s)
      ensures forall y :: y in PathItems(path) ==> allocated(y)
      ensures forall y :: y in Items(s) ==> allocated(y)
      ensures forall y :: y in Spine(path) ==> allocated(y)
      ensures forall y :: y in SibItems(path) ==> allocated(y)
    {
      SpaceFacts(path, s);
    }

    method RemoveAt(item: Item, ghost path: Path, ghost s: Shape<Item>)
      requires At(path, s) && s.Node? && s.x == item
      modifies this`root, this`shape
      modifies Items(shape)`left, Items(shape)`right, Items(shape)`parent, Items(shape)`balance
      ensures Zip([], shape) && Exact(shape) && Avl(shape)
      ensures InOrder(shape) == Without(path, s) && Items(shape) == old(Items(shape)) - {item}
    {
      NodeAt(path, s);
      LinkAt(path, s);
      hide At, Items, InOrder, Without, Zip, Exact, Avl, Contents;
      var pitem := LinkFromParent(item);
      if item.left == null && item.right == null {
        RemoveShallow(item, pitem, null, path, s, Leaf);
      } else if item.right == null {
        RemoveShallow(item, pitem, item.left, path, s, s.l);
      } else if item.left == null {
        RemoveShallow(item, pitem, item.right, path, s, s.r);
      } else {
        RemoveInner(item, pitem, path, s);
      }
    }

    lemma RemovedIsSorted(path: Path, s: Shape<Item>)
      requires At(path, s) && s.Node? && Ascending(shape)
      ensures var pos := |Pre(path) + InOrder(s.l)|;
              && pos < |Contents()| && Contents()[pos] == s.x
              && Without(path, s) == Contents()[..pos] + Contents()[pos + 1..]
      ensures Sorted(Without(path, s))
    {
      SplitAt(path, s);
      var a, b := Pre(path) + InOrder(s.l), InOrder(s.r) + Post(path);
      hide At, InOrder, Pre, Post;
      Dropped(a, s.x, b);
    }

    lemma Dropped(a: seq<Item>, x: Item, b: seq<Item>)
      requires Sorted(a + [x] + b)
      ensures var c := a + [x] + b; c[|a|] == x && a + b == c[..|a|] + c[|a| + 1..]
      ensures Sorted(a + b)
    {
      var c, d := a + [x] + b, a + b;
      assert c[..|a|] == a && c[|a| + 1..] == b;
      forall i, j | 0 <= i < j < |d|
        ensures d[i].key < d[j].key
      {
        assert c[if i < |a| then i else i + 1].key < c[if j < |a| then j else j + 1].key;
      }
    }

    /** Lines 365-459: exactly the given node leaves the tree. */
    method Remove(item: Item) returns (ghost pos: nat)
      requires Valid() && item in Contents()
      modifies this`root, this`shape
      modifies Items(shape)`left, Items(shape)`right, Items(shape)`parent, Items(shape)`balance
      ensures Valid()
      ensures pos < |old(Contents())| && old(Contents())[pos] == item
      ensures Contents() == old(Contents())[..pos] + old(Contents())[pos + 1..]
      ensures Items(shape) == old(Items(shape)) - {item}
    {
      hide Valid, At, Items, InOrder, Pre, Post, Without, Ascending, Sorted, Zip, Exact, Avl, Contents;
      ghost var path, s, order;
      path, s, order, pos := FoundIn(item);
      RemoveAt(item, path, s);
      ValidFrom(order);
    }

    /** Where the object stands, and what the tree holds without it. */
    lemma FoundIn(item: Item) returns (path: Path, s: Shape<Item>, order: seq<Item>, pos: nat)
      requires Valid() && item in Contents()
      ensures At(path, s) && s.Node? && s.x == item && order == Without(path, s) && Sorted(order)
      ensures pos < |Contents()| && Contents()[pos] == item && order == Contents()[..pos] + Contents()[pos + 1..]
      ensures forall y :: y in order ==> allocated(y)
    {
      AtRoot();
      path, s := Locate([], shape, item);
      order := Without(path, s);
      pos := |Pre(path) + InOrder(s.l)|;
      RemovedIsSorted(path, s);
      SeqAllocated(order);
    }
  }

  method LowerLeft(subst: Item, oldLeft: Item?, ghost ol: Shape<Item>, ghost r: Shape<Item>)
    requires Distinct(Node(ol, subst, r)) && subst.right == Root(r) && oldLeft == Root(ol)
    requires ParentIs(ol, subst) && ParentIs(r, subst) && Hung(ol) && Hung(r)
    modifies subst`left, subst`balance
    ensures Hung(Node(ol, subst, r)) && subst.balance == old(subst.balance) + 1
  {
    NodeApart(ol, subst, r);
    hide Items, Hung, Distinct;
    subst.balance := subst.balance + 1;
    subst.left := oldLeft;
    HungNode(ol, subst, r);
  }

  /** Lines 420-434: the substitute takes over the links and the balance of the node it replaces. */
  method TakeFields(item: Item, subst: Item)
    requires item != subst && item.left != item && item.right != item && item.right != subst
    modifies subst`parent, subst`left, subst`right, subst`balance
    modifies (if item.left == null then {} else {item.left})`parent
    modifies (if item.right == null then {} else {item.right})`parent
    ensures subst.parent == item.parent && subst.right == item.right && subst.balance == item.balance
    ensures subst.left == if item.left == subst then null else item.left
    ensures subst.left != null ==> subst.left.parent == subst
    ensures subst.right != null ==> subst.right.parent == subst
  {
    subst.parent := item.parent;
    subst.right := item.right;
    subst.left := item.left;
    subst.balance := item.balance;
    if subst.left == subst {
      subst.left := null;
    }
    if subst.left != null {
      subst.left.parent := subst;
    }
    if subst.right != null {
      subst.right.parent := subst;
    }
  }
}
