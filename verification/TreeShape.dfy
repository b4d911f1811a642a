// The shapes of binary trees, and trees with a hole in them.
//
// A Shape says which objects hang where. A path is the list of frames from the root
// (index 0) down to a hole; each frame names the node on the path, the side on which the
// path continues and the subtree on the other side. Nothing here reads the heap.

module TreeShape {

  datatype Shape<T> = Leaf | Node(l: Shape<T>, x: T, r: Shape<T>)

  datatype Dir = Left | Right

  datatype Frame<T> = Frame(dir: Dir, x: T, sib: Shape<T>)

  // ----- contents -----

  ghost function InOrder<T>(s: Shape<T>): seq<T> {
    match s
    case Leaf => []
    case Node(l, x, r) => InOrder(l) + [x] + InOrder(r)
  }

  ghost function Items<T>(s: Shape<T>): set<T> {
    match s
    case Leaf => {}
    case Node(l, x, r) => Items(l) + {x} + Items(r)
  }

  ghost predicate Distinct<T>(s: Shape<T>) {
    match s
    case Leaf => true
    case Node(l, x, r) =>
      && Distinct(l) && Distinct(r)
      && x !in Items(l) && x !in Items(r) && Items(l) !! Items(r)
  }

  ghost function Size<T>(s: Shape<T>): nat {
    match s
    case Leaf => 0
    case Node(l, _, r) => Size(l) + 1 + Size(r)
  }

  lemma {:induction false} ItemsInOrder<T>(s: Shape<T>)
    ensures forall y :: y in Items(s) <==> y in InOrder(s)
  {
    match s
    case Leaf =>
    case Node(l, x, r) =>
      ItemsInOrder(l);
      ItemsInOrder(r);
  }

  lemma InOrderIsItem<T>(s: Shape<T>, x: T)
    requires x in InOrder(s)
    ensures x in Items(s)
  {
    ItemsInOrder(s);
  }

  lemma {:induction false} SizeIsLength<T>(s: Shape<T>)
    ensures |InOrder(s)| == Size(s)
  {
    match s
    case Leaf =>
    case Node(l, _, r) =>
      SizeIsLength(l);
      SizeIsLength(r);
  }

  // ----- heights -----

  ghost function Max(a: nat, b: nat): nat { if a > b then a else b }

  ghost function Height<T>(s: Shape<T>): nat {
    match s
    case Leaf => 0
    case Node(l, _, r) => 1 + Max(Height(l), Height(r))
  }

  ghost predicate Near(a: int, b: int) { -1 <= a - b <= 1 }

  ghost predicate Avl<T>(s: Shape<T>) {
    match s
    case Leaf => true
    case Node(l, _, r) => Near(Height(l), Height(r)) && Avl(l) && Avl(r)
  }

  ghost function Fib(n: nat): nat {
    if n < 2 then n else Fib(n - 1) + Fib(n - 2)
  }

  lemma {:induction false} FibGrows(n: nat)
    ensures Fib(n) <= Fib(n + 1)
  {
    if n >= 2 {
      FibGrows(n - 1);
      FibGrows(n - 2);
    }
  }

  lemma {:induction false} FibMonotone(m: nat, n: nat)
    requires m <= n
    ensures Fib(m) <= Fib(n)
    decreases n - m
  {
    if m < n {
      FibGrows(m);
      FibMonotone(m + 1, n);
    }
  }

  /** The classical height bound: a balanced tree of height h has at least Fib(h + 2) - 1 nodes. */
  lemma {:induction false} AvlIsShallow<T>(s: Shape<T>)
    requires Avl(s)
    ensures Size(s) + 1 >= Fib(Height(s) + 2)
  {
    match s
    case Leaf =>
    case Node(l, _, r) =>
      AvlIsShallow(l);
      AvlIsShallow(r);
      hide Fib;
      FibOfHigher(Height(l), Height(r));
  }

  lemma FibOfHigher(a: nat, b: nat)
    requires Near(a, b)
    ensures Fib(a + 2) + Fib(b + 2) >= Fib(Max(a, b) + 3)
  {
    FibGrows(Max(a, b) + 1);
    assert Fib(Max(a, b) + 3) == Fib(Max(a, b) + 2) + Fib(Max(a, b) + 1);
  }

  // ----- trees with a hole -----

  ghost function FrameItems<T>(f: Frame<T>): set<T> { {f.x} + Items(f.sib) }

  ghost function PathItems<T>(path: seq<Frame<T>>): set<T> {
    set j, y | 0 <= j < |path| && y in FrameItems(path[j]) :: y
  }

  ghost function Spine<T>(path: seq<Frame<T>>): set<T> {
    set j | 0 <= j < |path| :: path[j].x
  }

  ghost function PlugOne<T>(f: Frame<T>, s: Shape<T>): Shape<T> {
    if f.dir == Left then Node(s, f.x, f.sib) else Node(f.sib, f.x, s)
  }

  ghost function Plug<T>(path: seq<Frame<T>>, s: Shape<T>): Shape<T> {
    if path == [] then s else Plug(Up(path), PlugOne(Last(path), s))
  }

  ghost function Last<T>(path: seq<Frame<T>>): Frame<T>
    requires path != []
  {
    path[|path| - 1]
  }

  ghost function Up<T>(path: seq<Frame<T>>): seq<Frame<T>>
    requires path != []
  {
    path[..|path| - 1]
  }

  /** What stands before the hole in the in-order sequence of the whole tree. */
  ghost function Pre<T>(path: seq<Frame<T>>): seq<T> {
    if path == [] then []
    else if Last(path).dir == Left then Pre(Up(path))
    else Pre(Up(path)) + (InOrder(Last(path).sib) + [Last(path).x])
  }

  /** What stands after the hole. */
  ghost function Post<T>(path: seq<Frame<T>>): seq<T> {
    if path == [] then []
    else if Last(path).dir == Left then ([Last(path).x] + InOrder(Last(path).sib)) + Post(Up(path))
    else Post(Up(path))
  }

  lemma {:induction false} PlugInOrder<T>(path: seq<Frame<T>>, s: Shape<T>)
    ensures InOrder(Plug(path, s)) == Pre(path) + InOrder(s) + Post(path)
    decreases |path|
  {
    if path == [] {
    } else {
      PlugInOrder(Up(path), PlugOne(Last(path), s));
    }
  }

  lemma {:induction false} PlugItems<T>(path: seq<Frame<T>>, s: Shape<T>)
    ensures Items(Plug(path, s)) == PathItems(path) + Items(s)
    decreases |path|
  {
    if path == [] {
    } else {
      PlugItems(Up(path), PlugOne(Last(path), s));
      PathItemsUp(path);
    }
  }

  lemma PathItemsUp<T>(path: seq<Frame<T>>)
    requires path != []
    ensures PathItems(path) == PathItems(Up(path)) + FrameItems(Last(path))
  {
    var up := Up(path);
    forall y | y in PathItems(path)
      ensures y in PathItems(up) + FrameItems(Last(path))
    {
      var j :| 0 <= j < |path| && y in FrameItems(path[j]);
      if j < |up| {
        assert up[j] == path[j];
      }
    }
    forall y | y in PathItems(up) + FrameItems(Last(path))
      ensures y in PathItems(path)
    {
      if y in PathItems(up) {
        var j :| 0 <= j < |up| && y in FrameItems(up[j]);
        assert up[j] == path[j];
      } else {
        assert y in FrameItems(path[|path| - 1]);
      }
    }
  }

  // ----- nothing occurs twice -----

  ghost predicate PathSeparate<T>(path: seq<Frame<T>>) {
    && (forall j :: 0 <= j < |path| ==> path[j].x !in Items(path[j].sib) && Distinct(path[j].sib))
    && (forall i, j :: 0 <= i < j < |path| ==> FrameItems(path[i]) !! FrameItems(path[j]))
  }

  ghost predicate Separate<T>(path: seq<Frame<T>>, s: Shape<T>) {
    && PathSeparate(path)
    && Distinct(s)
    && (forall j :: 0 <= j < |path| ==> FrameItems(path[j]) !! Items(s))
  }

  lemma SeparateUp<T>(path: seq<Frame<T>>, s: Shape<T>)
    requires path != [] && Separate(path, s)
    ensures Separate(Up(path), PlugOne(Last(path), s))
  {
    var up, t := Up(path), PlugOne(Last(path), s);
    assert Items(t) == FrameItems(Last(path)) + Items(s);
    forall j | 0 <= j < |up|
      ensures FrameItems(up[j]) !! Items(t)
    {
      assert up[j] == path[j];
      assert FrameItems(path[j]) !! FrameItems(path[|path| - 1]);
    }
  }

  lemma SeparateDown<T>(path: seq<Frame<T>>, f: Frame<T>, s: Shape<T>)
    requires Separate(path, PlugOne(f, s))
    ensures Separate(path + [f], s)
  {
    assert Items(PlugOne(f, s)) == FrameItems(f) + Items(s);
  }

  // ----- heights along a path whose hole has height h -----

  ghost function HoleHeight<T>(path: seq<Frame<T>>, j: nat, h: nat): nat
    requires j <= |path|
    decreases |path| - j
  {
    if j == |path| then h else 1 + Max(Height(path[j].sib), HoleHeight(path, j + 1, h))
  }

  ghost predicate AvlFrame<T>(path: seq<Frame<T>>, j: nat, h: nat)
    requires j < |path|
  {
    Avl(path[j].sib) && Near(Height(path[j].sib), HoleHeight(path, j + 1, h))
  }

  ghost predicate AvlPath<T>(path: seq<Frame<T>>, h: nat) {
    forall j {:trigger AvlFrame(path, j, h)} :: 0 <= j < |path| ==> AvlFrame(path, j, h)
  }

  lemma {:induction false} HoleHeightUp<T>(path: seq<Frame<T>>, j: nat, h: nat)
    requires path != [] && j < |path|
    ensures HoleHeight(Up(path), j, 1 + Max(Height(Last(path).sib), h)) == HoleHeight(path, j, h)
    decreases |path| - j
  {
    if j < |path| - 1 {
      HoleHeightUp(path, j + 1, h);
    } else {
      assert HoleHeight(path, j + 1, h) == h;
    }
  }

  lemma AvlPathUp<T>(path: seq<Frame<T>>, h: nat)
    requires path != [] && AvlPath(path, h)
    ensures AvlPath(Up(path), 1 + Max(Height(Last(path).sib), h))
    ensures Avl(Last(path).sib) && Near(Height(Last(path).sib), h)
  {
    var up, h' := Up(path), 1 + Max(Height(Last(path).sib), h);
    assert AvlFrame(path, |path| - 1, h);
    forall j | 0 <= j < |up|
      ensures AvlFrame(up, j, h')
    {
      assert AvlFrame(path, j, h);
      assert up[j] == path[j];
      HoleHeightUp(path, j + 1, h);
    }
  }

  lemma {:induction false} HoleHeightDown<T>(path: seq<Frame<T>>, f: Frame<T>, j: nat, h: nat)
    requires j <= |path|
    ensures HoleHeight(path + [f], j, h) == HoleHeight(path, j, 1 + Max(Height(f.sib), h))
    decreases |path| - j
  {
    var down := path + [f];
    if j < |path| {
      assert down[j] == path[j];
      HoleHeightDown(path, f, j + 1, h);
    } else {
      assert down[j] == f;
      assert HoleHeight(down, j + 1, h) == h;
    }
  }

  lemma AvlPathDown<T>(path: seq<Frame<T>>, f: Frame<T>, h: nat)
    requires AvlPath(path, 1 + Max(Height(f.sib), h))
    requires Avl(f.sib) && Near(Height(f.sib), h)
    ensures AvlPath(path + [f], h)
  {
    var down, h' := path + [f], 1 + Max(Height(f.sib), h);
    forall j | 0 <= j < |down|
      ensures AvlFrame(down, j, h)
    {
      if j < |path| {
        assert AvlFrame(path, j, h');
        assert down[j] == path[j];
        HoleHeightDown(path, f, j + 1, h);
      } else {
        assert down[j] == f;
      }
    }
  }

  /** Two hole heights that agree somewhere on the path agree everywhere above. */
  lemma {:induction false} HoleHeightsAgree<T>(path: seq<Frame<T>>, j: nat, i: nat, a: nat, b: nat)
    requires j <= i <= |path|
    requires HoleHeight(path, i, a) == HoleHeight(path, i, b)
    ensures HoleHeight(path, j, a) == HoleHeight(path, j, b)
    decreases i - j
  {
    if j < i {
      HoleHeightsAgree(path, j + 1, i, a, b);
    }
  }

  // ----- rotations -----

  ghost function RotateLeft<T>(s: Shape<T>): Shape<T>
    requires s.Node? && s.r.Node?
  {
    Node(Node(s.l, s.x, s.r.l), s.r.x, s.r.r)
  }

  ghost function RotateRight<T>(s: Shape<T>): Shape<T>
    requires s.Node? && s.l.Node?
  {
    Node(s.l.l, s.l.x, Node(s.l.r, s.x, s.r))
  }

  lemma RotationsKeepItems<T>(s: Shape<T>)
    requires Distinct(s)
    ensures s.Node? && s.r.Node? ==> Distinct(RotateLeft(s)) && Items(RotateLeft(s)) == Items(s)
    ensures s.Node? && s.l.Node? ==> Distinct(RotateRight(s)) && Items(RotateRight(s)) == Items(s)
  {
    if s.Node? && s.r.Node? {
      assert Distinct(s.r) && Items(s.r) == Items(s.r.l) + {s.r.x} + Items(s.r.r);
    }
    if s.Node? && s.l.Node? {
      assert Distinct(s.l) && Items(s.l) == Items(s.l.l) + {s.l.x} + Items(s.l.r);
    }
  }

  lemma RotationsKeepOrder<T>(s: Shape<T>)
    ensures s.Node? && s.r.Node? ==> InOrder(RotateLeft(s)) == InOrder(s)
    ensures s.Node? && s.l.Node? ==> InOrder(RotateRight(s)) == InOrder(s)
  {
    if s.Node? && s.r.Node? {
      Regroup(InOrder(s.l), s.x, InOrder(s.r.l), s.r.x, InOrder(s.r.r));
    }
    if s.Node? && s.l.Node? {
      Regroup(InOrder(s.l.l), s.l.x, InOrder(s.l.r), s.x, InOrder(s.r));
    }
  }

  lemma RegroupAround<T>(p: seq<T>, l: seq<T>, x: T, r: seq<T>, q: seq<T>)
    ensures p + (l + [x] + r) + q == (p + l) + [x] + (r + q)
  {
  }

  lemma Regroup<T>(a: seq<T>, x: T, b: seq<T>, y: T, c: seq<T>)
    ensures (a + [x] + b) + [y] + c == a + [x] + (b + [y] + c)
  {
  }

  // ----- what rebalancing does to heights -----

  /** Right height minus left height: what a node's balance field is meant to record. */
  ghost function Tip<T>(s: Shape<T>): int
    requires s.Node?
  {
    Height(s.r) - Height(s.l)
  }

  /** At most one level away from what the path was balanced for, or one rotation away from that. */
  ghost predicate Fixable<T>(s: Shape<T>, h: nat) {
    && s.Node? && Avl(s.l) && Avl(s.r)
    && if Near(Height(s.l), Height(s.r)) then Near(Height(s), h)
       else (Tip(s) == 2 || Tip(s) == -2) && h <= Height(s) <= h + 1
  }

  lemma ClimbIsFixable<T>(f: Frame<T>, s: Shape<T>, h: nat)
    requires Avl(s) && Near(Height(s), h)
    requires Avl(f.sib) && Near(Height(f.sib), h)
    ensures Fixable(PlugOne(f, s), 1 + Max(Height(f.sib), h))
  {
  }

  lemma LeftRotationHeights<T>(s: Shape<T>)
    requires s.Node? && Avl(s.l) && Avl(s.r) && Tip(s) == 2
    ensures s.r.Node? && -1 <= Tip(s.r) <= 1
    ensures Tip(s.r) >= 0 ==>
              var t := RotateLeft(s);
              && Avl(t) && t.l.Node?
              && Height(t) == Height(s) - Tip(s.r)
              && Tip(t) == Tip(s.r) - 1 && Tip(t.l) == 1 - Tip(s.r)
  {
    var t := RotateLeft(s);
    assert Avl(s.r.l) && Avl(s.r.r);
  }

  lemma RightRotationHeights<T>(s: Shape<T>)
    requires s.Node? && Avl(s.l) && Avl(s.r) && Tip(s) == -2
    ensures s.l.Node? && -1 <= Tip(s.l) <= 1
    ensures Tip(s.l) <= 0 ==>
              var t := RotateRight(s);
              && Avl(t) && t.r.Node?
              && Height(t) == Height(s) + Tip(s.l)
              && Tip(t) == Tip(s.l) + 1 && Tip(t.r) == -1 - Tip(s.l)
  {
    var t := RotateRight(s);
    assert Avl(s.l.l) && Avl(s.l.r);
  }

  ghost function DoubleLeft<T>(s: Shape<T>): Shape<T>
    requires s.Node? && s.r.Node? && s.r.l.Node?
  {
    RotateLeft(Node(s.l, s.x, RotateRight(s.r)))
  }

  ghost function DoubleRight<T>(s: Shape<T>): Shape<T>
    requires s.Node? && s.l.Node? && s.l.r.Node?
  {
    RotateRight(Node(RotateLeft(s.l), s.x, s.r))
  }

  lemma NodeHeight<T>(l: Shape<T>, x: T, r: Shape<T>)
    ensures var s := Node(l, x, r);
            && Height(s) == 1 + Max(Height(l), Height(r))
            && (Avl(s) <==> Near(Height(l), Height(r)) && Avl(l) && Avl(r))
  {
  }

  lemma TallIsNode<T>(s: Shape<T>)
    requires Height(s) > 0
    ensures s.Node?
  {
  }

  lemma DoubleLeftHeights<T>(s: Shape<T>)
    requires s.Node? && Avl(s.l) && Avl(s.r) && Tip(s) == 2
    requires s.r.Node? && Tip(s.r) < 0
    ensures s.r.l.Node?
    ensures var t := DoubleLeft(s);
            && Avl(t) && Height(t) == Height(s) - 1 && Tip(t) == 0
            && Tip(t.l) == (if Tip(s.r.l) == 1 then -1 else 0)
            && Tip(t.r) == (if Tip(s.r.l) == -1 then 1 else 0)
  {
    hide Height, Avl;
    NodeHeight(s.l, s.x, s.r);
    NodeHeight(s.r.l, s.r.x, s.r.r);
    TallIsNode(s.r.l);
    var m := s.r.l;
    NodeHeight(m.l, m.x, m.r);
    NodeHeight(s.l, s.x, m.l);
    NodeHeight(m.r, s.r.x, s.r.r);
    NodeHeight(Node(s.l, s.x, m.l), m.x, Node(m.r, s.r.x, s.r.r));
  }

  lemma DoubleRightHeights<T>(s: Shape<T>)
    requires s.Node? && Avl(s.l) && Avl(s.r) && Tip(s) == -2
    requires s.l.Node? && Tip(s.l) > 0
    ensures s.l.r.Node?
    ensures var t := DoubleRight(s);
            && Avl(t) && Height(t) == Height(s) - 1 && Tip(t) == 0
            && Tip(t.r) == (if Tip(s.l.r) == -1 then 1 else 0)
            && Tip(t.l) == (if Tip(s.l.r) == 1 then -1 else 0)
  {
    hide Height, Avl;
    NodeHeight(s.l, s.x, s.r);
    NodeHeight(s.l.l, s.l.x, s.l.r);
    TallIsNode(s.l.r);
    var m := s.l.r;
    NodeHeight(m.l, m.x, m.r);
    NodeHeight(m.r, s.x, s.r);
    NodeHeight(s.l.l, s.l.x, m.l);
    NodeHeight(Node(s.l.l, s.l.x, m.l), m.x, Node(m.r, s.x, s.r));
  }

  lemma DoubleRotationsKeepOrder<T>(s: Shape<T>)
    ensures s.Node? && s.r.Node? && s.r.l.Node? ==> InOrder(DoubleLeft(s)) == InOrder(s)
    ensures s.Node? && s.l.Node? && s.l.r.Node? ==> InOrder(DoubleRight(s)) == InOrder(s)
  {
    if s.Node? && s.r.Node? && s.r.l.Node? {
      RotationsKeepOrder(s.r);
      RotationsKeepOrder(Node(s.l, s.x, RotateRight(s.r)));
    }
    if s.Node? && s.l.Node? && s.l.r.Node? {
      RotationsKeepOrder(s.l);
      RotationsKeepOrder(Node(RotateLeft(s.l), s.x, s.r));
    }
  }

  /** What one round of rebalancing must achieve for the subtree it works on. */
  ghost predicate Mended<T>(s: Shape<T>, t: Shape<T>, h: nat) {
    t.Node? && Avl(t) && Near(Height(t), h) && InOrder(t) == InOrder(s) && Items(t) == Items(s)
  }

  lemma LeftTurnMends<T>(s: Shape<T>, h: nat)
    requires Fixable(s, h) && Tip(s) == 2 && Distinct(s)
    ensures s.r.Node?
    ensures Tip(s.r) >= 0 ==> Mended(s, RotateLeft(s), h)
    ensures Tip(s.r) < 0 ==> s.r.l.Node? && Mended(s, DoubleLeft(s), h)
  {
    LeftRotationHeights(s);
    RotationsKeepOrder(s);
    RotationsKeepItems(s);
    if Tip(s.r) < 0 {
      DoubleLeftHeights(s);
      DoubleRotationsKeepOrder(s);
      RotationsKeepItems(s.r);
      RotationsKeepItems(Node(s.l, s.x, RotateRight(s.r)));
    }
  }

  lemma RightTurnMends<T>(s: Shape<T>, h: nat)
    requires Fixable(s, h) && Tip(s) == -2 && Distinct(s)
    ensures s.l.Node?
    ensures Tip(s.l) <= 0 ==> Mended(s, RotateRight(s), h)
    ensures Tip(s.l) > 0 ==> s.l.r.Node? && Mended(s, DoubleRight(s), h)
  {
    RightRotationHeights(s);
    RotationsKeepOrder(s);
    RotationsKeepItems(s);
    if Tip(s.l) > 0 {
      DoubleRightHeights(s);
      DoubleRotationsKeepOrder(s);
      RotationsKeepItems(s.l);
      RotationsKeepItems(Node(RotateLeft(s.l), s.x, s.r));
    }
  }

  lemma PlugDown<T>(path: seq<Frame<T>>, f: Frame<T>, s: Shape<T>)
    ensures Plug(path + [f], s) == Plug(path, PlugOne(f, s))
    ensures Pre(path + [f]) == if f.dir == Left then Pre(path) else Pre(path) + (InOrder(f.sib) + [f.x])
    ensures Post(path + [f]) == if f.dir == Left then ([f.x] + InOrder(f.sib)) + Post(path) else Post(path)
  {
    var down := path + [f];
    assert Up(down) == path && Last(down) == f;
  }

  lemma {:induction false} PlugHeight<T>(path: seq<Frame<T>>, s: Shape<T>)
    ensures |path| + Height(s) <= Height(Plug(path, s))
    decreases |path|
  {
    if path != [] {
      PlugHeight(Up(path), PlugOne(Last(path), s));
    }
  }

  /** Replacing the root by the root of its left subtree, which has no right child. */
  lemma DirectReplacement<T>(s: Shape<T>)
    requires s.Node? && Avl(s) && s.l.Node? && s.l.r.Leaf?
    ensures var t := Node(s.l.l, s.l.x, s.r);
            && Fixable(t, Height(s)) && Tip(t) == Tip(s) + 1
            && Height(t) == Height(s) - (if Tip(t) <= 0 then 1 else 0)
  {
    assert Avl(s.l);
  }

  lemma DirectReplacementItems<T>(s: Shape<T>)
    requires s.Node? && Distinct(s) && s.l.Node? && s.l.r.Leaf?
    ensures var t := Node(s.l.l, s.l.x, s.r);
            && Distinct(t) && Items(s) == Items(t) + {s.x} && s.x !in Items(t)
            && InOrder(s) == InOrder(s.l.l) + [s.l.x] + [s.x] + InOrder(s.r)
  {
    assert Distinct(s.l) && Items(s.l) == Items(s.l.l) + {s.l.x};
    assert InOrder(s.l) == InOrder(s.l.l) + [s.l.x];
  }
}
