/** The tidy layout of the tree drawn from a maze (`TreeNode` in
    ts/maze/renderers/tree-renderer.ts). Each node places its children on
    the layer below it, left to right, as close together as their subtrees
    allow without touching, and centred under itself; it records, for every
    layer of its subtree, the leftmost and rightmost x, relative to itself.
    Positions are exact `real`s: the source's floating point, and its
    `Infinity` sentinels for a layer not yet seen, are not modelled. */
module TreeLayout {

  /** A tree node: the maze cell it stands for, its depth, and its children
      in the order the search found them. */
  datatype Tree = Tree(mazeNode: nat, depth: nat, children: seq<Tree>)

  /** What `calculateTreeLayout` leaves in a node: each child's x relative
      to the node, the leftmost and rightmost x of each layer below the node
      (layer 0 is the children's), and the children's own layouts. */
  datatype Layout = Layout(childPositions: seq<real>, leftEdge: seq<real>, rightEdge: seq<real>, children: seq<Layout>)

  function MinR(a: real, b: real): real
  {
    if a <= b then a else b
  }

  function MaxR(a: real, b: real): real
  {
    if a >= b then a else b
  }

  function MaxNat(xs: seq<nat>): nat
  {
    if xs == [] then 0 else if xs[0] >= MaxNat(xs[1..]) then xs[0] else MaxNat(xs[1..])
  }

  /** A bound every element meets and one element reaches is the largest. */
  lemma {:induction false} MaxNatIs(xs: seq<nat>, v: nat)
    requires forall i :: 0 <= i < |xs| ==> xs[i] <= v
    requires exists i :: 0 <= i < |xs| && xs[i] == v
    ensures MaxNat(xs) == v
  {
    if xs[0] != v {
      var i :| 0 <= i < |xs| && xs[i] == v;
      assert xs[1..][i - 1] == v;
      MaxNatIs(xs[1..], v);
    } else if |xs| > 1 {
      MaxNatBound(xs[1..], v);
    }
  }

  lemma {:induction false} MaxNatBound(xs: seq<nat>, v: nat)
    requires forall i :: 0 <= i < |xs| ==> xs[i] <= v
    ensures MaxNat(xs) <= v
  {
    if xs != [] {
      MaxNatBound(xs[1..], v);
    }
  }

  /** The number of layers below a node: 0 for a leaf. */
  function Height(t: Tree): nat
    decreases t
  {
    if t.children == [] then 0
    else 1 + MaxNat(seq(|t.children|, i requires 0 <= i < |t.children| => Height(t.children[i])))
  }

  // ---------------------------------------------------------------------
  // getMinimumRequiredGap

  /** The loop of `getMinimumRequiredGap` after its first `n` layers: the
      largest `leftEdge[i] - rightEdge[i]`, and never less than 0. */
  function GapUpTo(leftEdge: seq<real>, rightEdge: seq<real>, n: nat): (g: real)
    requires n <= |leftEdge| && n <= |rightEdge|
    ensures g >= 0.0
    ensures forall i :: 0 <= i < n ==> leftEdge[i] <= rightEdge[i] + g
    ensures g == 0.0 || exists i :: 0 <= i < n && leftEdge[i] == rightEdge[i] + g
  {
    if n == 0 then 0.0
    else MaxR(GapUpTo(leftEdge, rightEdge, n - 1), leftEdge[n - 1] - rightEdge[n - 1])
  }

  /** `getMinimumRequiredGap(leftEdge, rightEdge)`: the least `g >= 0` with
      `leftEdge[i] <= rightEdge[i] + g` on every layer both have. It is
      least because it is 0 or some layer needs all of it. */
  function MinimumRequiredGap(leftEdge: seq<real>, rightEdge: seq<real>): (g: real)
    ensures g >= 0.0
    ensures forall i :: 0 <= i < |leftEdge| && i < |rightEdge| ==> leftEdge[i] <= rightEdge[i] + g
    ensures g == 0.0 || exists i :: 0 <= i < |leftEdge| && i < |rightEdge| && leftEdge[i] == rightEdge[i] + g
  {
    GapUpTo(leftEdge, rightEdge, if |leftEdge| <= |rightEdge| then |leftEdge| else |rightEdge|)
  }

  /** No smaller non-negative gap keeps the two edges apart. */
  lemma GapIsLeast(leftEdge: seq<real>, rightEdge: seq<real>, g: real)
    requires g >= 0.0
    requires forall i :: 0 <= i < |leftEdge| && i < |rightEdge| ==> leftEdge[i] <= rightEdge[i] + g
    ensures MinimumRequiredGap(leftEdge, rightEdge) <= g
  {
    var m := MinimumRequiredGap(leftEdge, rightEdge);
    if m != 0.0 {
      var i :| 0 <= i < |leftEdge| && i < |rightEdge| && leftEdge[i] == rightEdge[i] + m;
    }
  }

  // ---------------------------------------------------------------------
  // calculatePositionOfChildren

  /** The 1 unit of space kept between neighbouring subtrees. */
  const Padding: real := 1.0

  /** `gapsBetweenChildren`: from each child to the next, the gap that keeps
      the first's right edge clear of the second's left edge, plus padding. */
  function Gaps(kids: seq<Layout>): (gaps: seq<real>)
    ensures |kids| > 0 ==> |gaps| == |kids| - 1
    ensures |kids| == 0 ==> gaps == []
  {
    if |kids| == 0 then []
    else seq(|kids| - 1, i requires 0 <= i < |kids| - 1 => MinimumRequiredGap(kids[i].rightEdge, kids[i + 1].leftEdge) + Padding)
  }

  /** `reduce((a, b) => a + b, 0)`: the sum, added from the left. */
  function Sum(xs: seq<real>): real
  {
    if xs == [] then 0.0 else Sum(xs[..|xs| - 1]) + xs[|xs| - 1]
  }

  /** The running total grows by one gap per child. */
  lemma PrefixSums(xs: seq<real>)
    ensures forall i :: 0 <= i < |xs| ==> Sum(xs[..i + 1]) == Sum(xs[..i]) + xs[i]
    ensures Sum(xs[..|xs|]) == Sum(xs)
  {
    forall i | 0 <= i < |xs|
      ensures Sum(xs[..i + 1]) == Sum(xs[..i]) + xs[i]
    {
      assert xs[..i + 1][..i] == xs[..i];
    }
    assert xs[..|xs|] == xs;
  }

  /** `childPositions`: the running total of the gaps before each child,
      shifted left by half of all the gaps. Empty for a leaf, which returns
      before computing anything. */
  function ChildPositions(kids: seq<Layout>): (pos: seq<real>)
    ensures |pos| == |kids|
    ensures |kids| > 0 ==> pos[0] == -Sum(Gaps(kids)) / 2.0 && pos[|kids| - 1] == Sum(Gaps(kids)) / 2.0
    ensures forall i :: 0 <= i < |kids| - 1 ==> pos[i + 1] == pos[i] + Gaps(kids)[i]
  {
    var gaps := Gaps(kids);
    var half := Sum(gaps) / 2.0;
    PrefixSums(gaps);
    var pos := seq(|kids|, i requires 0 <= i < |kids| => Sum(gaps[..i]) - half);
    assert forall i :: 0 <= i < |kids| ==> pos[i] == Sum(gaps[..i]) - half;
    pos
  }

  /** Neighbouring subtrees do not touch: on the children's layer and on
      every deeper layer both reach, the first subtree ends at least the
      padding before the second starts. And they are as close as that
      allows: the padding is all the space between them on some layer. */
  lemma ChildrenApart(kids: seq<Layout>, i: nat)
    requires i + 1 < |kids|
    ensures var pos := ChildPositions(kids);
      && pos[i] + Padding <= pos[i + 1]
      && (forall k :: 0 <= k < |kids[i].rightEdge| && k < |kids[i + 1].leftEdge| ==>
            pos[i] + kids[i].rightEdge[k] + Padding <= pos[i + 1] + kids[i + 1].leftEdge[k])
      && (pos[i] + Padding == pos[i + 1] ||
          exists k :: 0 <= k < |kids[i].rightEdge| && k < |kids[i + 1].leftEdge| &&
            pos[i] + kids[i].rightEdge[k] + Padding == pos[i + 1] + kids[i + 1].leftEdge[k])
  {
    var g := MinimumRequiredGap(kids[i].rightEdge, kids[i + 1].leftEdge);
    assert Gaps(kids)[i] == g + Padding;
  }

  /** Children's positions strictly increase, at least the padding apart
      per step. */
  lemma {:induction false} PositionsIncrease(kids: seq<Layout>, i: nat, j: nat)
    requires i <= j < |kids|
    ensures ChildPositions(kids)[i] + (j - i) as real * Padding <= ChildPositions(kids)[j]
    decreases j - i
  {
    if i < j {
      PositionsIncrease(kids, i, j - 1);
      ChildrenApart(kids, j - 1);
    }
  }

  // ---------------------------------------------------------------------
  // calculateEdges

  /** Which edge: the left edges keep the least x of a layer, the right
      edges the greatest. */
  datatype Side = Left | Right

  function EdgeOf(l: Layout, side: Side): seq<real>
  {
    if side == Left then l.leftEdge else l.rightEdge
  }

  /** `a` is at least as far out as `b` on that side. */
  predicate Outside(a: real, b: real, side: Side)
  {
    if side == Left then a <= b else a >= b
  }

  function Outer(a: real, b: real, side: Side): real
  {
    if side == Left then MinR(a, b) else MaxR(a, b)
  }

  /** Child `c`'s subtree seen from its parent: the child itself on layer
      0, then its own edge, all moved by the child's position. */
  function Outline(kids: seq<Layout>, pos: seq<real>, side: Side, c: nat): (o: seq<real>)
    requires c < |kids| == |pos|
  {
    [pos[c]] + seq(|EdgeOf(kids[c], side)|, k requires 0 <= k < |EdgeOf(kids[c], side)| => pos[c] + EdgeOf(kids[c], side)[k])
  }

  /** One child's outline merged into the edge built so far, layer by
      layer; a layer only one of them has keeps that one's value (the
      source's `?? Infinity`). */
  function Merge(acc: seq<real>, o: seq<real>, side: Side): (r: seq<real>)
    ensures |r| == |acc| || |r| == |o|
    ensures forall k :: 0 <= k < |acc| ==> k < |r| && Outside(r[k], acc[k], side)
    ensures forall k :: 0 <= k < |o| ==> k < |r| && Outside(r[k], o[k], side)
    ensures forall k :: 0 <= k < |r| ==> (k < |acc| && r[k] == acc[k]) || (k < |o| && r[k] == o[k])
  {
    var n := if |acc| >= |o| then |acc| else |o|;
    seq(n, k requires 0 <= k < n =>
      if k < |acc| && k < |o| then Outer(acc[k], o[k], side)
      else if k < |acc| then acc[k] else o[k])
  }

  /** Merging keeps every layer at least as far out as it was. */
  lemma MergeOutside(acc: seq<real>, o: seq<real>, side: Side, kids: seq<Layout>, pos: seq<real>, n: nat)
    requires |kids| == |pos| && n <= |kids|
    requires forall c :: 0 <= c < n ==> |Outline(kids, pos, side, c)| <= |acc|
    requires forall c, k :: 0 <= c < n && 0 <= k < |Outline(kids, pos, side, c)| ==>
               Outside(acc[k], Outline(kids, pos, side, c)[k], side)
    ensures forall c, k :: 0 <= c < n && 0 <= k < |Outline(kids, pos, side, c)| ==>
               Outside(Merge(acc, o, side)[k], Outline(kids, pos, side, c)[k], side)
  {
    var r := Merge(acc, o, side);
    forall c, k | 0 <= c < n && 0 <= k < |Outline(kids, pos, side, c)|
      ensures Outside(r[k], Outline(kids, pos, side, c)[k], side)
    {
      var x := Outline(kids, pos, side, c)[k];
      assert Outside(acc[k], x, side);
      assert Outside(r[k], acc[k], side);
    }
  }

  /** `calculateEdges` for one side after its first `n` children: every
      layer holds the outermost x any of those children's subtrees reaches
      on it, and a layer exists exactly when one of them reaches it. */
  function EdgeUpTo(kids: seq<Layout>, pos: seq<real>, side: Side, n: nat): (e: seq<real>)
    requires |kids| == |pos| && n <= |kids|
    ensures forall c :: 0 <= c < n ==> |Outline(kids, pos, side, c)| <= |e|
    ensures forall c, k :: 0 <= c < n && 0 <= k < |Outline(kids, pos, side, c)| ==>
              Outside(e[k], Outline(kids, pos, side, c)[k], side)
    ensures forall k :: 0 <= k < |e| ==>
              exists c :: 0 <= c < n && k < |Outline(kids, pos, side, c)| && e[k] == Outline(kids, pos, side, c)[k]
    ensures n > 0 ==> exists c :: 0 <= c < n && |e| == |Outline(kids, pos, side, c)|
    ensures n == 0 ==> e == []
  {
    if n == 0 then []
    else
      var acc := EdgeUpTo(kids, pos, side, n - 1);
      var o := Outline(kids, pos, side, n - 1);
      assert |acc| > 0 ==> exists c :: 0 <= c < n - 1 && |acc| == |Outline(kids, pos, side, c)|;
      MergeOutside(acc, o, side, kids, pos, n - 1);
      Merge(acc, o, side)
  }

  /** `calculateEdges`: empty for a leaf, else every child merged in. */
  function Edge(kids: seq<Layout>, pos: seq<real>, side: Side): seq<real>
    requires |kids| == |pos|
  {
    EdgeUpTo(kids, pos, side, |kids|)
  }

  // ---------------------------------------------------------------------
  // calculateTreeLayout

  /** The layers below a node whose children have these layouts. */
  function Layers(kids: seq<Layout>): nat
  {
    if kids == [] then 0
    else 1 + MaxNat(seq(|kids|, i requires 0 <= i < |kids| => |kids[i].leftEdge|))
  }

  /** The node's part of `calculateTreeLayout`, once its children are laid
      out: `calculatePositionOfChildren`, then `calculateEdges`. Both edges
      get one entry per layer below the node. */
  function Place(kids: seq<Layout>): (l: Layout)
    requires forall i :: 0 <= i < |kids| ==> |kids[i].leftEdge| == |kids[i].rightEdge|
    ensures l.children == kids && |l.childPositions| == |kids|
    ensures |l.leftEdge| == Layers(kids) && |l.rightEdge| == Layers(kids)
  {
    var pos := ChildPositions(kids);
    EdgeLayers(kids, pos, Left);
    EdgeLayers(kids, pos, Right);
    Layout(pos, Edge(kids, pos, Left), Edge(kids, pos, Right), kids)
  }

  lemma EdgeLayers(kids: seq<Layout>, pos: seq<real>, side: Side)
    requires |kids| == |pos|
    requires forall i :: 0 <= i < |kids| ==> |kids[i].leftEdge| == |kids[i].rightEdge|
    ensures |Edge(kids, pos, side)| == Layers(kids)
  {
    var e := Edge(kids, pos, side);
    if kids != [] {
      var hs := seq(|kids|, i requires 0 <= i < |kids| => |kids[i].leftEdge|);
      var c :| 0 <= c < |kids| && |e| == |Outline(kids, pos, side, c)|;
      forall i | 0 <= i < |hs|
        ensures hs[i] <= |e| - 1
      {
        assert |Outline(kids, pos, side, i)| <= |e|;
      }
      assert hs[c] == |e| - 1;
      MaxNatIs(hs, |e| - 1);
    }
  }

  /** `calculateTreeLayout`: the children's layouts first, then the node's
      own. Both edges get one entry per layer below the node. */
  function LayoutOf(t: Tree): (l: Layout)
    ensures |l.children| == |l.childPositions| == |t.children|
    ensures |l.leftEdge| == Height(t) && |l.rightEdge| == Height(t)
    decreases t
  {
    var kids := seq(|t.children|, i requires 0 <= i < |t.children| => LayoutOf(t.children[i]));
    assert seq(|kids|, i requires 0 <= i < |kids| => |kids[i].leftEdge|)
        == seq(|t.children|, i requires 0 <= i < |t.children| => Height(t.children[i]));
    Place(kids)
  }
}
