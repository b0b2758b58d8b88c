/** A red-black tree of time intervals, each node carrying the largest right
    end stored below it (IntervalTree.h, IntervalTree.cc). */
module IntervalTrees {
  import opened Bitwise

  // A simulation time in raw ticks; SimTime::getMaxTime() is the largest one, but its negative, the value
  // of nil, is not the smallest. Stored intervals do not end before that.
  const MAX_TIME: int := 0x7FFF_FFFF_FFFF_FFFF
  type Time = t: int | -MAX_TIME - 1 <= t <= MAX_TIME witness 0
  type EndTime = t: int | -MAX_TIME <= t <= MAX_TIME witness 0

  function Max(a: EndTime, b: EndTime): EndTime {
    if a < b then b else a
  }

  predicate Overlap(a1: Time, a2: Time, b1: Time, b2: Time) {
    if a1 <= b1 then b1 <= a2 else a1 <= b2
  }

  // Intervals are closed: [low, high].
  predicate During(t: Time, low: Time, high: Time) {
    low <= t <= high
  }

  ghost predicate ShareTime(a1: Time, a2: Time, b1: Time, b2: Time) {
    exists t: Time :: During(t, a1, a2) && During(t, b1, b2)
  }

  // Overlapping is having a time in common, but for intervals that run backwards.
  lemma OverlapExactly(a1: Time, a2: Time, b1: Time, b2: Time)
    ensures ShareTime(a1, a2, b1, b2) <==> Overlap(a1, a2, b1, b2) && a1 <= a2 && b1 <= b2
  {
    if Overlap(a1, a2, b1, b2) && a1 <= a2 && b1 <= b2 {
      var t := if a1 <= b1 then b1 else a1;
      assert During(t, a1, a2) && During(t, b1, b2);
    }
  }

  class Interval {
    const low: Time
    const high: EndTime

    constructor (low: Time, high: EndTime)
      ensures this.low == low && this.high == high
    {
      this.low, this.high := low, high;
    }
  }

  datatype Side = Left | Right {
    function Other(): Side {
      if Left? then Right else Left
    }
  }

  class Node {
    const storedInterval: Interval?
    const key: Time
    const high: EndTime
    var maxHigh: EndTime
    var red: bool
    var left: Node
    var right: Node
    var parent: Node
    ghost var sub: set<Node>  // the nodes of the subtree hanging here
    ghost var bh: nat  // the number of black nodes on each path down from here

    constructor Sentinel(bound: EndTime)
      ensures storedInterval == null && key == high == maxHigh == bound
      ensures !red && left == right == parent == this
      ensures sub == {} && bh == 0
    {
      storedInterval, key, high, maxHigh := null, bound, bound, bound;
      red, left, right, parent := false, this, this, this;
      sub, bh := {}, 0;
    }

    constructor (interval: Interval)
      ensures storedInterval == interval && key == interval.low && high == maxHigh == interval.high
      ensures !red && left == right == parent == this
      ensures sub == {} && bh == 0
    {
      storedInterval, key, high, maxHigh := interval, interval.low, interval.high, interval.high;
      red, left, right, parent := false, this, this, this;
      sub, bh := {}, 0;
    }

    function Kid(s: Side): Node
      reads this`left, this`right
    {
      if s.Left? then left else right
    }
  }

  // A node whose left subtree is being searched (it_recursion_node).
  datatype Entry = Entry(startNode: Node?, parentIndex: nat, tryRightBranch: bool)

  // ---------- searching a tree without a stack ----------

  // A tree as a value.
  datatype Tree = Leaf | Bin(node: Node, maxHigh: EndTime, left: Tree, right: Tree) {
    function Reach(): EndTime {
      if Leaf? then -MAX_TIME else maxHigh
    }
  }

  predicate Hit(n: Node, low: Time, high: Time) {
    Overlap(low, high, n.key, n.high)
  }

  function Here(n: Node, low: Time, high: Time): seq<Node> {
    if Hit(n, low, high) then [n] else []
  }

  // What a search reports, in order: a node itself, what is found on its left if the left reaches
  // low, and what is found on its right if the left does not or yields something.
  function Found(t: Tree, low: Time, high: Time): seq<Node> {
    match t
    case Leaf => []
    case Bin(n, _, l, r) =>
      if l.Reach() >= low then
        var left := Found(l, low, high);
        Here(n, low, high) + (left + (if left != [] then Found(r, low, high) else []))
      else Here(n, low, high) + Found(r, low, high)
  }

  // How many nodes it visits.
  function Visits(t: Tree, low: Time, high: Time): nat {
    match t
    case Leaf => 0
    case Bin(_, _, l, r) =>
      if l.Reach() >= low then
        1 + Visits(l, low, high) + (if Found(l, low, high) != [] then Visits(r, low, high) else 0)
      else 1 + Visits(r, low, high)
  }

  // A search interrupted on the left of a node: what is on its right, and whether a hit was recorded.
  datatype Pending = Pending(right: Tree, hit: bool)

  // What is still to be reported once the search under the last entry is over; carry says whether
  // that found anything. The first entry stands for the top.
  function Rest(stack: seq<Pending>, carry: bool, low: Time, high: Time): seq<Node> {
    if |stack| <= 1 then []
    else
      var top, below := stack[|stack| - 1], stack[..|stack| - 1];
      if carry || top.hit then Found(top.right, low, high) + Rest(below, true, low, high)
      else Rest(below, false, low, high)
  }

  function RestVisits(stack: seq<Pending>, carry: bool, low: Time, high: Time): nat {
    if |stack| <= 1 then 0
    else
      var top, below := stack[|stack| - 1], stack[..|stack| - 1];
      if carry || top.hit then Visits(top.right, low, high) + RestVisits(below, true, low, high)
      else RestVisits(below, false, low, high)
  }

  function Marked(stack: seq<Pending>): (r: seq<Pending>)
    requires stack != []
    ensures |r| == |stack|
  {
    stack[|stack| - 1 := stack[|stack| - 1].(hit := true)]
  }

  // Recording a hit is as good as carrying it.
  lemma MarkCarries(stack: seq<Pending>, carry: bool, low: Time, high: Time)
    requires stack != []
    ensures Rest(Marked(stack), carry, low, high) == Rest(stack, true, low, high)
    ensures RestVisits(Marked(stack), carry, low, high) == RestVisits(stack, true, low, high)
  {
    assert Marked(stack)[..|stack| - 1] == stack[..|stack| - 1];
  }

  // Where a search of the tree all stands: hits were reported, t is being searched, and the stack
  // holds what was put off.
  ghost predicate Searching(all: Tree, stack: seq<Pending>, t: Tree, hits: seq<Node>, low: Time, high: Time) {
    stack != [] && Found(all, low, high) ==
      hits + (Found(t, low, high) + Rest(stack, Found(t, low, high) != [], low, high))
  }

  function Remaining(stack: seq<Pending>, t: Tree, low: Time, high: Time): nat {
    Visits(t, low, high) + RestVisits(stack, Found(t, low, high) != [], low, high)
  }

  // The stack once the node n was looked at.
  function Noted(stack: seq<Pending>, n: Node, low: Time, high: Time): (r: seq<Pending>)
    requires stack != []
    ensures |r| == |stack|
  {
    if Hit(n, low, high) then Marked(stack) else stack
  }

  lemma Regroup<T>(hits: seq<T>, here: seq<T>, left: seq<T>, right: seq<T>, rest: seq<T>)
    ensures hits + ((here + (left + right)) + rest) == (hits + here) + (left + (right + rest))
  {
  }

  // The left subtree reaches low: put off the right one.
  lemma WentLeft(all: Tree, stack: seq<Pending>, t: Tree, hits: seq<Node>, low: Time, high: Time)
    requires Searching(all, stack, t, hits, low, high) && t.Bin? && t.left.Reach() >= low
    ensures var stack' := Noted(stack, t.node, low, high) + [Pending(t.right, false)];
      && Searching(all, stack', t.left, hits + Here(t.node, low, high), low, high)
      && Remaining(stack', t.left, low, high) < Remaining(stack, t, low, high)
  {
    var left, noted := Found(t.left, low, high), Noted(stack, t.node, low, high);
    var right := if left != [] then Found(t.right, low, high) else [];
    MarkCarries(stack, left != [], low, high);
    assert (noted + [Pending(t.right, false)])[..|noted|] == noted;
    Regroup(hits, Here(t.node, low, high), left, right, Rest(stack, Found(t, low, high) != [], low, high));
    assert [] + Rest(noted, false, low, high) == Rest(noted, false, low, high);
  }

  // It ends before low: go on to the right.
  lemma WentRight(all: Tree, stack: seq<Pending>, t: Tree, hits: seq<Node>, low: Time, high: Time)
    requires Searching(all, stack, t, hits, low, high) && t.Bin? && t.left.Reach() < low
    ensures var stack' := Noted(stack, t.node, low, high);
      && Searching(all, stack', t.right, hits + Here(t.node, low, high), low, high)
      && Remaining(stack', t.right, low, high) < Remaining(stack, t, low, high)
  {
    var right := Found(t.right, low, high);
    MarkCarries(stack, right != [], low, high);
    Regroup(hits, Here(t.node, low, high), [], right, Rest(stack, Found(t, low, high) != [], low, high));
    assert [] + right == right;
    assert [] + (right + Rest(stack, Found(t, low, high) != [], low, high)) ==
      right + Rest(stack, Found(t, low, high) != [], low, high);
  }

  // Back at an entry: with a hit recorded its right subtree is searched, for the entry below.
  lemma CameBack(all: Tree, stack: seq<Pending>, hits: seq<Node>, low: Time, high: Time)
    requires Searching(all, stack, Leaf, hits, low, high) && |stack| > 1
    ensures var top, below := stack[|stack| - 1], stack[..|stack| - 1];
      if top.hit then
        && Searching(all, Marked(below), top.right, hits, low, high)
        && Remaining(Marked(below), top.right, low, high) == Remaining(stack, Leaf, low, high)
      else
        && Searching(all, below, Leaf, hits, low, high)
        && Remaining(below, Leaf, low, high) == Remaining(stack, Leaf, low, high)
  {
    var top, below := stack[|stack| - 1], stack[..|stack| - 1];
    MarkCarries(below, Found(top.right, low, high) != [], low, high);
    assert [] + Rest(stack, false, low, high) == Rest(stack, false, low, high);
    assert [] + Rest(below, false, low, high) == Rest(below, false, low, high);
  }

  class IntervalTree {
    const root: Node  // the fake root; the real tree hangs at root.left
    const nil: Node  // stands for every missing child
    var recursionStack: seq<Entry>
    var recursionStackTop: nat
    var currentParent: nat
    ghost var nodes: set<Node>  // the stored nodes

    // ---------- what a well-formed tree is, node by node ----------

    ghost predicate Sentinels()
      reads this`nodes, root`left, root`right, nil`left, nil`right, nil`sub, nil`maxHigh
    {
      && root != nil && root !in nodes && nil !in nodes && root.storedInterval == null
      && nil.left == nil && nil.right == nil && nil.sub == {} && nil.maxHigh == -MAX_TIME
      && root.right == nil
      && (root.left == nil || root.left in nodes)
    }

    // The children of n are distinct and point back at it.
    ghost predicate Down(n: Node)
      reads this`nodes, n`left, n`right, nodes`parent
    {
      && (n.left == nil || (n.left in nodes && n.left.parent == n))
      && (n.right == nil || (n.right in nodes && n.right.parent == n))
      && (n.left == n.right ==> n.left == nil)
    }

    // n is a child of its parent.
    ghost predicate Up(n: Node)
      reads this`nodes, n`parent, nodes`left, nodes`right, root`left
    {
      if n.parent == root then root.left == n
      else n.parent in nodes && (n.parent.left == n || n.parent.right == n)
    }

    // The subtree at n is n and two disjoint subtrees.
    ghost predicate Sub(n: Node)
      reads this`nodes, n`left, n`right, n`sub, nodes`sub, nil`sub
    {
      && (n.left == nil || n.left in nodes)
      && (n.right == nil || n.right in nodes)
      && n.sub == {n} + n.left.sub + n.right.sub
      && n !in n.left.sub && n !in n.right.sub && n.left.sub !! n.right.sub
    }

    // Keys are in search order around n.
    ghost predicate Ordered(n: Node)
      reads this`nodes, n`left, n`right, nodes`sub, nil`sub
    {
      && (n.left == nil || n.left in nodes)
      && (n.right == nil || n.right in nodes)
      && (forall m {:trigger m.key} :: m in n.left.sub ==> m.key <= n.key)
      && (forall m {:trigger m.key} :: m in n.right.sub ==> n.key <= m.key)
    }

    ghost predicate Maxed(n: Node)
      reads this`nodes, n`left, n`right, n`maxHigh, nodes`maxHigh, nil`maxHigh
    {
      && (n.left == nil || n.left in nodes)
      && (n.right == nil || n.right in nodes)
      && n.maxHigh == Max(n.high, Max(n.left.maxHigh, n.right.maxHigh))
    }

    ghost predicate AllLinked()
      reads this`nodes, nodes`left, nodes`right, nodes`parent, root`left
    {
      && (root.left in nodes ==> root.left.parent == root)
      && (forall n {:trigger Down(n)} :: n in nodes ==> Down(n))
      && (forall n {:trigger Up(n)} :: n in nodes ==> Up(n))
    }

    ghost predicate AllSub()
      reads this`nodes, nodes`left, nodes`right, nodes`sub, nil`sub, root`left
    {
      && (root.left == nil || root.left in nodes)
      && root.left.sub == nodes
      && (forall n {:trigger Sub(n)} :: n in nodes ==> Sub(n))
    }

    ghost predicate AllOrdered()
      reads this`nodes, nodes`left, nodes`right, nodes`sub, nil`sub
    {
      forall n {:trigger Ordered(n)} :: n in nodes ==> Ordered(n)
    }

    ghost predicate AllMaxed()
      reads this`nodes, nodes`left, nodes`right, nodes`maxHigh, nil`maxHigh
    {
      forall n {:trigger Maxed(n)} :: n in nodes ==> Maxed(n)
    }

    // A search tree with consistent links.
    ghost predicate Shape()
      reads this`nodes, root`left, root`right, nil`left, nil`right, nil`sub, nil`maxHigh
      reads nodes`left, nodes`right, nodes`parent, nodes`sub
    {
      Sentinels() && AllLinked() && AllSub() && AllOrdered()
    }

    ghost predicate Structure()
      reads this`nodes, root`left, root`right, nil`left, nil`right, nil`sub, nil`maxHigh
      reads nodes`left, nodes`right, nodes`parent, nodes`sub, nodes`maxHigh
    {
      Shape() && AllMaxed()
    }

    constructor ()
      ensures Valid() && nodes == {} && fresh(root) && fresh(nil)
    {
      nil := new Node.Sentinel(-MAX_TIME);
      root := new Node.Sentinel(MAX_TIME);
      nodes := {};
      recursionStack, recursionStackTop, currentParent := [Entry(null, 0, false)], 1, 0;
      new;
      root.parent, root.left, root.right := nil, nil, nil;
    }

    // ---------- rotations ----------

    // The nodes around a rotation of x with its child y, whose inner child b
    // changes sides; p is the parent of x.
    ghost predicate Pivot(x: Node, y: Node, b: Node, p: Node)
      reads this`nodes, x, y, p`left, p`right, nodes`parent
    {
      && x in nodes && y in nodes && x != y
      && x.parent == p && y.parent == x && p != x && p != y && p != nil
      && (p == root || p in nodes)
      && ((x.right == y && y.left == b) || (x.left == y && y.right == b))
      && (b == nil || (b in nodes && b.parent == y && b != x && b != y && b != p && y.left != y.right))
      && (p.left == x || p.right == x) && p.left != p.right && x.left != x.right
    }

    lemma PivotHere(x: Node, s: Side)
      requires Shape() && x in nodes && x.Kid(s) != nil
      ensures Pivot(x, x.Kid(s), x.Kid(s).Kid(s.Other()), x.parent)
    {
      assert Down(x) && Up(x) && Sub(x);
      var y := x.Kid(s);
      assert Down(y) && Sub(y);
      var b := y.Kid(s.Other());
      if b != nil { assert Sub(b); }
      if x.parent != root { assert Sub(x.parent); }
    }

    // What the rotation leaves behind.
    twostate predicate Turned(x: Node, y: Node, b: Node, p: Node)
      reads this`nodes, root, nil, nodes, x, y, b, p, x.left, x.right, y.left, y.right
    {
      && nodes == old(nodes)
      && (if old(x.right) == y
          then x.left == old(x.left) && x.right == b && y.left == x && y.right == old(y.right)
          else x.right == old(x.right) && x.left == b && y.right == x && y.left == old(y.left))
      && x.parent == y && y.parent == p
      && (if old(p.left) == x then p.left == y && p.right == old(p.right)
           else p.right == y && p.left == old(p.left))
      && (b != nil ==> b.parent == x)
      && y.sub == old(x.sub)
      && x.sub == {x} + x.left.sub + x.right.sub
      && x.maxHigh == Max(x.high, Max(x.left.maxHigh, x.right.maxHigh))
      && y.maxHigh == Max(y.high, Max(y.left.maxHigh, y.right.maxHigh))
      && (p != root ==> root.left == old(root.left) && root.right == old(root.right))
      && nil.left == old(nil.left) && nil.right == old(nil.right) && nil.sub == old(nil.sub)
      && nil.maxHigh == old(nil.maxHigh) && nil.parent == old(nil.parent)
      && (forall n {:trigger n.sub} :: n in nodes && n != x && n != y ==> n.sub == old(n.sub))
      && (forall n {:trigger n.maxHigh} :: n in nodes && n != x && n != y ==> n.maxHigh == old(n.maxHigh))
      && (forall n {:trigger n.left} :: n in nodes && n != x && n != y && n != p ==> n.left == old(n.left))
      && (forall n {:trigger n.right} :: n in nodes && n != x && n != y && n != p ==> n.right == old(n.right))
      && (forall n {:trigger n.parent} :: n in nodes && n != x && n != y && n != b ==> n.parent == old(n.parent))
    }

    // The link changes of leftRotate.
    method SwingLeft(x: Node)
      requires Sentinels() && x in nodes && x.right != nil
      requires Pivot(x, x.right, x.right.left, x.parent)
      modifies x`right, x`parent, x.right`left, x.right`parent
      modifies x.parent`left, x.parent`right, x.right.left`parent
      ensures x.right == old(x.right.left) && x.parent == old(x.right)
      ensures x.parent.left == x && x.parent.parent == old(x.parent)
      ensures x.right == nil ==> nil.parent == old(nil.parent)
      ensures x.right != nil ==> x.right.parent == x
      ensures old(x.parent.left) == x ==>
        x.parent.parent.left == x.parent && x.parent.parent.right == old(x.parent.right)
      ensures old(x.parent.left) != x ==>
        x.parent.parent.right == x.parent && x.parent.parent.left == old(x.parent.left)
    {
      var y := x.right;
      x.right := y.left;
      if y.left != nil {
        y.left.parent := x;
      }
      y.parent := x.parent;
      if x == x.parent.left {
        x.parent.left := y;
      } else {
        x.parent.right := y;
      }
      y.left := x;
      x.parent := y;
    }

    // The link changes of rightRotate.
    method SwingRight(y: Node)
      requires Sentinels() && y in nodes && y.left != nil
      requires Pivot(y, y.left, y.left.right, y.parent)
      modifies y`left, y`parent, y.left`right, y.left`parent
      modifies y.parent`left, y.parent`right, y.left.right`parent
      ensures y.left == old(y.left.right) && y.parent == old(y.left)
      ensures y.parent.right == y && y.parent.parent == old(y.parent)
      ensures y.left == nil ==> nil.parent == old(nil.parent)
      ensures y.left != nil ==> y.left.parent == y
      ensures old(y.parent.left) == y ==>
        y.parent.parent.left == y.parent && y.parent.parent.right == old(y.parent.right)
      ensures old(y.parent.left) != y ==>
        y.parent.parent.right == y.parent && y.parent.parent.left == old(y.parent.left)
    {
      var x := y.left;
      y.left := x.right;
      if nil != x.right {
        x.right.parent := y;
      }
      x.parent := y.parent;
      if y == y.parent.left {
        y.parent.left := x;
      } else {
        y.parent.right := x;
      }
      x.right := y;
      y.parent := x;
    }

    method LeftRotate(x: Node)
      requires Structure() && x in nodes && x.right != nil
      modifies x`right, x`parent, x`maxHigh, x`sub
      modifies x.right`left, x.right`parent, x.right`maxHigh, x.right`sub
      modifies x.parent`left, x.parent`right, x.right.left`parent
      ensures old(Pivot(x, x.right, x.right.left, x.parent))
      ensures Turned(x, old(x.right), old(x.right.left), old(x.parent))
      ensures Structure()
    {
      PivotHere(x, Right);
      var y := x.right;
      SwingLeft(x);
      x.maxHigh := Max(x.left.maxHigh, Max(x.right.maxHigh, x.high));
      y.maxHigh := Max(x.maxHigh, Max(y.right.maxHigh, y.high));
      y.sub := x.sub;
      x.sub := {x} + x.left.sub + x.right.sub;
      TurnedStructure(x, y, old(x.right.left), old(x.parent));
    }

    method RightRotate(y: Node)
      requires Structure() && y in nodes && y.left != nil
      modifies y`left, y`parent, y`maxHigh, y`sub
      modifies y.left`right, y.left`parent, y.left`maxHigh, y.left`sub
      modifies y.parent`left, y.parent`right, y.left.right`parent
      ensures old(Pivot(y, y.left, y.left.right, y.parent))
      ensures Turned(y, old(y.left), old(y.left.right), old(y.parent))
      ensures Structure()
    {
      PivotHere(y, Left);
      var x := y.left;
      SwingRight(y);
      y.maxHigh := Max(y.left.maxHigh, Max(y.right.maxHigh, y.high));
      x.maxHigh := Max(x.left.maxHigh, Max(y.maxHigh, x.high));
      x.sub := y.sub;
      y.sub := {y} + y.left.sub + y.right.sub;
      TurnedStructure(y, x, old(y.left.right), old(y.parent));
    }

    twostate lemma TurnedLinked(new x: Node, new y: Node, new b: Node, new p: Node)
      requires {x, y, b, p} <= old(nodes) + {root, nil}
      requires old(Shape()) && old(Pivot(x, y, b, p)) && Turned(x, y, b, p)
      ensures AllLinked() && Sentinels()
    {
      forall n | n in nodes ensures Down(n) {
        assert old(Down(n));
        assert old(Down(x) && Down(y));
      }
      forall n | n in nodes ensures Up(n) {
        assert old(Up(n) && Up(x));
      }
    }

    twostate lemma TurnedSubX(new x: Node, new y: Node, new b: Node, new p: Node)
      requires {x, y, b, p} <= old(nodes) + {root, nil}
      requires old(Shape()) && old(Pivot(x, y, b, p)) && Turned(x, y, b, p)
      ensures Sub(x)
    {
      assert old(Sub(x) && Sub(y));
    }

    twostate lemma TurnedSubY(new x: Node, new y: Node, new b: Node, new p: Node)
      requires {x, y, b, p} <= old(nodes) + {root, nil}
      requires old(Shape()) && old(Pivot(x, y, b, p)) && Turned(x, y, b, p)
      ensures Sub(y)
    {
      assert old(Sub(x) && Sub(y));
    }

    twostate lemma TurnedSub(new x: Node, new y: Node, new b: Node, new p: Node)
      requires {x, y, b, p} <= old(nodes) + {root, nil}
      requires old(Shape()) && old(Pivot(x, y, b, p)) && Turned(x, y, b, p)
      ensures AllSub()
    {
      TurnedSubX(x, y, b, p);
      TurnedSubY(x, y, b, p);
      forall n | n in nodes && n != x && n != y ensures Sub(n) {
        assert old(Sub(n) && Down(n));
      }
    }

    twostate lemma TurnedOrdered(new x: Node, new y: Node, new b: Node, new p: Node)
      requires {x, y, b, p} <= old(nodes) + {root, nil}
      requires old(Shape()) && old(Pivot(x, y, b, p)) && Turned(x, y, b, p)
      ensures AllOrdered()
    {
      assert old(Sub(x) && Sub(y) && Ordered(x) && Ordered(y));
      assert y.key == y.key && x.key == x.key;
      forall n | n in nodes ensures Ordered(n) {
        assert old(Ordered(n) && Down(n));
      }
    }

    twostate lemma TurnedMaxed(new x: Node, new y: Node, new b: Node, new p: Node)
      requires {x, y, b, p} <= old(nodes) + {root, nil}
      requires old(Structure()) && old(Pivot(x, y, b, p)) && Turned(x, y, b, p)
      ensures AllMaxed() && y.maxHigh == old(x.maxHigh)
    {
      assert old(Maxed(x) && Maxed(y) && Down(x) && Down(y));
      assert y.maxHigh == old(x.maxHigh);
      forall n | n in nodes ensures Maxed(n) {
        assert old(Maxed(n) && Down(n));
      }
    }

    twostate lemma TurnedStructure(new x: Node, new y: Node, new b: Node, new p: Node)
      requires {x, y, b, p} <= old(nodes) + {root, nil}
      requires old(Structure()) && old(Pivot(x, y, b, p)) && Turned(x, y, b, p)
      ensures Structure()
    {
      TurnedLinked(x, y, b, p);
      TurnedSub(x, y, b, p);
      TurnedOrdered(x, y, b, p);
      TurnedMaxed(x, y, b, p);
    }

    // leftRotate or rightRotate: the child on side s.Other() of the result is n.
    method Rotate(n: Node, s: Side)
      requires Structure() && n in nodes && n.Kid(s.Other()) != nil
      modifies n`left, n`right, n`parent, n`maxHigh, n`sub
      modifies n.Kid(s.Other())`left, n.Kid(s.Other())`right
      modifies n.Kid(s.Other())`parent, n.Kid(s.Other())`maxHigh, n.Kid(s.Other())`sub
      modifies n.parent`left, n.parent`right, n.Kid(s.Other()).Kid(s)`parent
      ensures old(Pivot(n, n.Kid(s.Other()), n.Kid(s.Other()).Kid(s), n.parent))
      ensures Turned(n, old(n.Kid(s.Other())), old(n.Kid(s.Other()).Kid(s)), old(n.parent))
      ensures Structure()
    {
      if s.Left? {
        LeftRotate(n);
      } else {
        RightRotate(n);
      }
    }

    // ---------- colours ----------

    // No red node has a red child, except that x may clash with its parent or its children.
    ghost predicate RedOk(n: Node, x: Node)
      reads this`nodes, n`left, n`right, n`red, nodes`red, nil`red
    {
      && (n.left == nil || n.left in nodes)
      && (n.right == nil || n.right in nodes)
      && (n.red && n != x ==> (n.left.red ==> n.left == x) && (n.right.red ==> n.right == x))
    }

    // Both sides of n have equally many black nodes.
    ghost predicate BlackOk(n: Node)
      reads this`nodes, n`left, n`right, n`red, n`bh, nodes`bh, nil`bh
    {
      && (n.left == nil || n.left in nodes)
      && (n.right == nil || n.right in nodes)
      && n.left.bh == n.right.bh
      && n.bh == n.left.bh + (if n.red then 0 else 1)
    }

    // The side s of p is short by one black node.
    ghost predicate Owes(p: Node, s: Side)
      reads this`nodes, p`left, p`right, p`red, p`bh, nodes`bh, nil`bh
    {
      && (p.left == nil || p.left in nodes)
      && (p.right == nil || p.right in nodes)
      && p.Kid(s).bh + 1 == p.Kid(s.Other()).bh
      && p.bh == p.Kid(s.Other()).bh + (if p.red then 0 else 1)
    }

    // The colours are right, but for red nodes around x and for the side s of
    // p (the fake root owes nothing).
    ghost predicate Coloured(x: Node, p: Node, s: Side)
      reads this`nodes, root`red, nil`red, nil`bh, p`left, p`right, p`red, p`bh, nodes`left, nodes`right, nodes`red, nodes`bh
    {
      && !root.red && !nil.red && nil.bh == 0
      && (forall n {:trigger RedOk(n, x)} :: n in nodes ==> RedOk(n, x))
      && (forall n {:trigger BlackOk(n)} :: n in nodes && n != p ==> BlackOk(n))
      && (p in nodes ==> Owes(p, s))
    }

    ghost predicate Balanced()
      reads this`nodes, root`red, nil`red, nil`bh, root`left, root`right, root`bh, nodes`left, nodes`right, nodes`red, nodes`bh
    {
      && Coloured(root, root, Left)
      && (root.left == nil || (root.left in nodes && !root.left.red))
    }

    // ---------- ancestors ----------

    // Every node below n is stored, and so is its parent unless it is n itself.
    lemma {:induction false} SubUp(n: Node, m: Node)
      requires Shape() && n in nodes && m in n.sub
      ensures m in nodes && (m != n ==> m.parent in n.sub)
      decreases n.sub
    {
      assert Sub(n) && Down(n);
      if m in n.left.sub {
        assert n !in n.left.sub;
        SubUp(n.left, m);
      } else if m in n.right.sub {
        SubUp(n.right, m);
      }
    }

    ghost predicate Inside()
      reads this`nodes, nodes`sub
    {
      forall n {:trigger n.sub} :: n in nodes ==> n.sub <= nodes
    }

    lemma AllUp()
      requires Shape()
      ensures Inside()
      ensures forall n, m {:trigger m in n.sub} :: n in nodes && m in n.sub ==> m in nodes && (m != n ==> m.parent in n.sub)
    {
      forall n, m | n in nodes && m in n.sub
        ensures m in nodes && (m != n ==> m.parent in n.sub)
      {
        SubUp(n, m);
      }
    }

    // ---------- insertion ----------

    // If y is below n, then z belongs on the same side of n.
    ghost predicate Fits(z: Node, y: Node, n: Node)
      reads this`nodes, n`left, n`right, nil`sub, nodes`sub
    {
      && (n.left == nil || n.left in nodes)
      && (n.right == nil || n.right in nodes)
      && (y in n.left.sub ==> z.key <= n.key)
      && (y in n.right.sub ==> n.key <= z.key)
    }

    // z may become the child on side s of y.
    ghost predicate Slot(z: Node, y: Node, s: Side)
      reads this`nodes, y`left, y`right, nil`sub, nodes`left, nodes`right, nodes`sub
    {
      && (y == root || y in nodes)
      && (y == root ==> s == Left)
      && (y in nodes ==> if s.Left? then z.key <= y.key else y.key <= z.key)
      && (forall n {:trigger Fits(z, y, n)} :: n in nodes ==> Fits(z, y, n))
    }

    lemma Descend(z: Node, y: Node, s: Side)
      requires Shape() && Slot(z, y, s) && y.Kid(s) in nodes
      ensures forall n {:trigger Fits(z, y.Kid(s), n)} :: n in nodes ==> Fits(z, y.Kid(s), n)
    {
      var x := y.Kid(s);
      if y in nodes { assert Down(y) && Sub(y); }
      forall n | n in nodes ensures Fits(z, x, n) {
        assert Sub(n) && Down(n) && Fits(z, y, n);
        if x in n.left.sub { SubUp(n.left, x); }
        if x in n.right.sub { SubUp(n.right, x); }
      }
    }

    // The descent of recursiveInsert.
    method FindSlot(z: Node) returns (y: Node)
      requires Shape() && z !in nodes
      ensures (y == root || y.key > z.key) ==> Slot(z, y, Left) && y.left == nil
      ensures !(y == root || y.key > z.key) ==> Slot(z, y, Right) && y.right == nil
    {
      AllUp();
      y := root;
      var x := root.left;
      ghost var s := Left;
      forall n | n in nodes ensures Fits(z, y, n) {
        assert Sub(n);
      }
      while x != nil
        invariant x == nil || x in nodes
        invariant x == y.Kid(s) && Slot(z, y, s)
        invariant s.Left? <==> (y == root || y.key > z.key)
        decreases x.sub
      {
        assert Sub(x);
        Descend(z, y, s);
        y := x;
        if x.key > z.key {
          x := x.left;
          s := Left;
        } else {
          x := x.right;
          s := Right;
        }
      }
    }

    // ---------- linking a new leaf ----------

    twostate predicate Linked(new z: Node, y: Node, s: Side)
      reads this`nodes, root, nil, nodes, z, y
    {
      && nodes == old(nodes) + {z} && z !in old(nodes) && z != root && z != nil
      && z.left == nil && z.right == nil && z.parent == y && z.sub == {z}
      && y.left == (if s.Left? then z else old(y.left))
      && y.right == (if s.Left? then old(y.right) else z)
      && (y != root ==> root.left == old(root.left) && root.right == old(root.right))
      && nil.left == old(nil.left) && nil.right == old(nil.right) && nil.sub == old(nil.sub)
      && nil.maxHigh == old(nil.maxHigh)
      && (forall n {:trigger n.sub} :: n in old(nodes) ==> n.sub == old(if y in n.sub then n.sub + {z} else n.sub))
      && (forall n {:trigger n.left} :: n in old(nodes) && n != y ==> n.left == old(n.left))
      && (forall n {:trigger n.right} :: n in old(nodes) && n != y ==> n.right == old(n.right))
      && (forall n {:trigger n.parent} :: n in old(nodes) ==> n.parent == old(n.parent))
    }

    twostate lemma LinkedLinks(new z: Node, new y: Node, s: Side)
      requires y in old(nodes) + {root} && old(allocated(z))
      requires old(Shape() && Slot(z, y, s) && y.Kid(s) == nil) && Linked(z, y, s)
      ensures Sentinels() && AllLinked()
    {
      forall n | n in nodes ensures Down(n) {
        if n != z { assert old(Down(n)); }
      }
      forall n | n in nodes ensures Up(n) {
        if n != z { assert old(Up(n)); }
      }
    }

    twostate lemma LinkedSub(new z: Node, new y: Node, s: Side)
      requires y in old(nodes) + {root} && old(allocated(z))
      requires old(Shape() && Slot(z, y, s) && y.Kid(s) == nil) && Linked(z, y, s)
      requires old(Inside())
      ensures AllSub()
    {
      forall n | n in nodes ensures Sub(n) {
        if n != z { assert old(Sub(n)); }
      }
    }

    twostate lemma LinkedOrdered(new z: Node, new y: Node, s: Side)
      requires y in old(nodes) + {root} && old(allocated(z))
      requires old(Shape() && Slot(z, y, s) && y.Kid(s) == nil) && Linked(z, y, s)
      ensures AllOrdered()
    {
      forall n | n in nodes ensures Ordered(n) {
        if n != z { assert old(Ordered(n) && Fits(z, y, n)); }
      }
    }

    twostate lemma LinkedMaxed(new z: Node, new y: Node, s: Side)
      requires y in old(nodes) + {root} && old(allocated(z))
      requires old(Structure() && Slot(z, y, s) && y.Kid(s) == nil) && Linked(z, y, s)
      requires z.maxHigh == z.high && forall n {:trigger n.maxHigh} :: n in old(nodes) ==> n.maxHigh == old(n.maxHigh)
      ensures forall n {:trigger Maxed(n)} :: n in nodes ==> Maxed(n) || y in n.sub
    {
      forall n | n in nodes ensures Maxed(n) || y in n.sub {
        if n != z { assert old(Maxed(n) && Sub(n)); }
      }
    }

    // Hangs z under y.
    method Link(z: Node, y: Node)
      requires Shape() && z !in nodes && z != root && z != nil
      requires (y == root || y in nodes) && z.maxHigh == z.high && z.left == nil && z.right == nil
      requires if y == root || y.key > z.key then y.left == nil else y.right == nil
      modifies this`nodes, y`left, y`right, nodes`sub, z`parent, z`sub
      ensures Linked(z, y, if y == root || y.key > z.key then Left else Right)
      ensures forall n {:trigger n.maxHigh} :: n in old(nodes) ==> n.maxHigh == old(n.maxHigh)
    {
      AllUp();
      z.parent := y;
      if y == root || y.key > z.key {
        y.left := z;
      } else {
        y.right := z;
      }
      forall n | n in nodes && y in n.sub {
        n.sub := n.sub + {z};
      }
      z.sub := {z};
      nodes := nodes + {z};
    }

    // Inserts z as into an ordinary binary tree.
    method RecursiveInsert(z: Node) returns (ghost y: Node, ghost s: Side)
      requires Structure() && z !in nodes && z != root && z != nil && z.maxHigh == z.high
      modifies this`nodes, root`left, root`right, nodes`left, nodes`right, nodes`sub
      modifies z`left, z`right, z`parent, z`sub
      ensures y in old(nodes) + {root}
      ensures old(Slot(z, y, s) && y.Kid(s) == nil) && Linked(z, y, s)
      ensures s.Left? <==> (y == root || y.key > z.key)
      ensures Shape()
      ensures forall n {:trigger Maxed(n)} :: n in nodes ==> Maxed(n) || z.parent in n.sub
    {
      z.left, z.right := nil, nil;
      AllUp();
      var at := FindSlot(z);
      y := at;
      s := if y == root || y.key > z.key then Left else Right;
      LinkLeaf(z, at, s);
    }

    method LinkLeaf(z: Node, y: Node, ghost s: Side)
      requires Structure() && Inside() && z !in nodes && z != root && z != nil && z.maxHigh == z.high
      requires y in nodes + {root} && z.left == nil && z.right == nil && Slot(z, y, s) && y.Kid(s) == nil
      requires s.Left? <==> (y == root || y.key > z.key)
      modifies this`nodes, y`left, y`right, nodes`sub, z`parent, z`sub
      ensures Linked(z, y, s) && Shape()
      ensures forall n {:trigger Maxed(n)} :: n in nodes ==> Maxed(n) || y in n.sub
    {
      Link(z, y);
      LinkedLinks(z, y, s);
      LinkedSub(z, y, s);
      LinkedOrdered(z, y, s);
      LinkedMaxed(z, y, s);
    }

    // One step of fixupMaxHigh.
    method RefreshMax(x: Node)
      requires Shape() && x in nodes
      requires forall n {:trigger Maxed(n)} :: n in nodes ==> Maxed(n) || x in n.sub
      requires forall n {:trigger n.sub} :: n in nodes && x in n.sub && n != x ==> x.parent in n.sub
      modifies x`maxHigh
      ensures forall n {:trigger Maxed(n)} :: n in nodes ==> Maxed(n) || x.parent in n.sub
    {
      assert Down(x) && Up(x) && Sub(x);
      if x.parent != root { assert Sub(x.parent); }
      x.maxHigh := Max(x.high, Max(x.left.maxHigh, x.right.maxHigh));
      forall n | n in nodes ensures Maxed(n) || x.parent in n.sub {
        assert old(Maxed(n)) || x in n.sub;
        assert Down(n) && Sub(n);
      }
    }

    // Travels up to the root repairing maxHigh.
    method FixupMaxHigh(start: Node)
      requires Shape() && (start == root || start in nodes)
      requires forall n {:trigger Maxed(n)} :: n in nodes ==> Maxed(n) || start in n.sub
      modifies nodes`maxHigh
      ensures Structure()
    {
      AllUp();
      var x := start;
      while x != root
        invariant Shape() && (x == root || x in nodes)
        invariant forall n {:trigger Maxed(n)} :: n in nodes ==> Maxed(n) || x in n.sub
        invariant forall n, m {:trigger m in n.sub} :: n in nodes && m in n.sub ==> m in nodes && (m != n ==> m.parent in n.sub)
        decreases if x == root then {} else nodes - x.sub + {x}
      {
        RefreshMax(x);
        assert Sub(x) && Up(x);
        if x.parent != root { assert Sub(x.parent); }
        x := x.parent;
      }
    }

    // ---------- recolouring after an insertion ----------

    twostate lemma LinkedColours(new z: Node, new y: Node, s: Side)
      requires y in old(nodes) + {root} && old(allocated(z))
      requires old(Shape() && Slot(z, y, s) && y.Kid(s) == nil) && Linked(z, y, s)
      requires old(Balanced())
      requires z.red && z.bh == 0 && nil.red == old(nil.red) && nil.bh == old(nil.bh) && root.red == old(root.red)
      requires forall n {:trigger n.red} :: n in old(nodes) ==> n.red == old(n.red)
      requires forall n {:trigger n.bh} :: n in old(nodes) ==> n.bh == old(n.bh)
      ensures Coloured(z, root, Left)
      ensures root.left.red ==> root.left == z
    {
      forall n | n in nodes ensures RedOk(n, z) {
        if n != z { assert old(RedOk(n, root)); }
      }
      forall n | n in nodes ensures BlackOk(n) {
        if n != z { assert old(BlackOk(n)); }
      }
    }

    // The loop invariant of insert: only x may be a red child of a red node.
    ghost predicate Rising(x: Node)
      reads this`nodes, root`left, root`right, nil`left, nil`right, nil`sub, nil`maxHigh
      reads nodes`left, nodes`right, nodes`parent, nodes`sub, nodes`maxHigh
      reads root`red, root`bh, nil`red, nil`bh, nodes`red, nodes`bh, x`red, x`left, x`right
    {
      && Structure() && Coloured(x, root, Left) && x in nodes && x.red
      && (x.left == nil || x.left in nodes) && (x.right == nil || x.right in nodes)
      && !x.left.red && !x.right.red
      && (root.left.red ==> root.left == x)
    }

    // Nothing but colours changed.
    twostate predicate Painted()
      reads this`nodes, root, nil, nodes
    {
      && nodes == old(nodes)
      && root.left == old(root.left) && root.right == old(root.right)
      && nil.left == old(nil.left) && nil.right == old(nil.right)
      && nil.sub == old(nil.sub) && nil.maxHigh == old(nil.maxHigh)
      && (forall n {:trigger n.left} :: n in nodes ==> n.left == old(n.left))
      && (forall n {:trigger n.right} :: n in nodes ==> n.right == old(n.right))
      && (forall n {:trigger n.parent} :: n in nodes ==> n.parent == old(n.parent))
      && (forall n {:trigger n.sub} :: n in nodes ==> n.sub == old(n.sub))
      && (forall n {:trigger n.maxHigh} :: n in nodes ==> n.maxHigh == old(n.maxHigh))
    }

    twostate lemma PaintedStructure()
      requires old(Structure()) && Painted()
      ensures Structure()
    {
      forall n | n in nodes ensures Down(n) { assert old(Down(n)); }
      forall n | n in nodes ensures Up(n) { assert old(Up(n)); }
      forall n | n in nodes ensures Sub(n) { assert old(Sub(n)); }
      forall n | n in nodes ensures Ordered(n) { assert old(Ordered(n)); }
      forall n | n in nodes ensures Maxed(n) { assert old(Maxed(n)); }
    }

    // p and its sibling u turned black and their parent g red.
    twostate predicate Pushed(p: Node, g: Node, u: Node)
      requires {p, g, u} <= old(nodes)
      reads this`nodes, root, nil, nodes, p, g, u
    {
      && nodes == old(nodes)
      && !p.red && !u.red && g.red && nil.red == old(nil.red) && nil.bh == old(nil.bh) && root.red == old(root.red)
      && p.bh == old(p.bh) + 1 && u.bh == old(u.bh) + 1 && g.bh == old(g.bh)
      && (forall n {:trigger n.left} :: n in nodes ==> n.left == old(n.left))
      && (forall n {:trigger n.right} :: n in nodes ==> n.right == old(n.right))
      && (forall n {:trigger n.red} :: n in nodes && n != p && n != u && n != g ==> n.red == old(n.red))
      && (forall n {:trigger n.bh} :: n in nodes && n != p && n != u && n != g ==> n.bh == old(n.bh))
    }

    ghost predicate Family(x: Node, s: Side, p: Node, g: Node, u: Node)
      reads this`nodes, x`parent, p`parent, g`left, g`right
    {
      && x in nodes && p in nodes && g in nodes && u in nodes + {nil}
      && p == x.parent && g == p.parent && p == g.Kid(s) && u == g.Kid(s.Other())
    }

    twostate lemma PushedColours(new x: Node, s: Side, new p: Node, new g: Node, new u: Node)
      requires {x, p, g, u} <= old(nodes)
      requires old(Rising(x) && p.red && u.red) && old(Family(x, s, p, g, u)) && Pushed(p, g, u)
      ensures Coloured(g, root, Left)
      ensures !p.red && !u.red
    {
      assert old(Down(g) && Sub(g) && RedOk(g, x) && BlackOk(g) && Down(p) && Sub(p) && RedOk(p, x));
      forall n | n in nodes ensures RedOk(n, g) {
        assert old(RedOk(n, x) && Down(n));
      }
      forall n | n in nodes ensures BlackOk(n) {
        assert old(BlackOk(n) && Down(n));
      }
    }

    // The uncle of x is red: recolour and go on two levels higher.
    method PushUp(x: Node, s: Side) returns (g: Node)
      requires Rising(x) && x.parent.red && x.parent.parent.Kid(s.Other()).red
      requires Family(x, s, x.parent, x.parent.parent, x.parent.parent.Kid(s.Other()))
      modifies x.parent`red, x.parent`bh, x.parent.parent`red
      modifies x.parent.parent.Kid(s.Other())`red, x.parent.parent.Kid(s.Other())`bh
      ensures g == x.parent.parent && Rising(g)
    {
      g := x.parent.parent;
      var y := g.Kid(s.Other());
      assert Down(g) && Sub(g);
      x.parent.red := false;
      y.red := false;
      g.red := true;
      x.parent.bh := x.parent.bh + 1;
      y.bh := y.bh + 1;
      PaintedStructure();
      PushedColours(x, s, x.parent, g, y);
    }

    // Turning two red nodes around each other moves the clash to the lower one.
    twostate lemma StraightenedColours(new p: Node, new x: Node, new b: Node, new g: Node)
      requires {p, x, g} <= old(nodes) && b in old(nodes) + {nil}
      requires old(Rising(x) && p.red) && old(Pivot(p, x, b, g)) && Turned(p, x, b, g)
      requires forall n {:trigger n.red} :: n in nodes ==> n.red == old(n.red)
      requires forall n {:trigger n.bh} :: n in nodes ==> n.bh == old(n.bh)
      requires nil.red == old(nil.red) && nil.bh == old(nil.bh) && root.red == old(root.red)
      ensures Coloured(p, root, Left) && (root.left.red ==> root.left == p)
      ensures !p.left.red && !p.right.red
    {
      assert old(RedOk(p, x) && RedOk(g, x) && BlackOk(x) && BlackOk(p));
      forall n | n in nodes ensures RedOk(n, p) {
        assert old(RedOk(n, x) && Down(n));
      }
      forall n | n in nodes ensures BlackOk(n) {
        assert old(BlackOk(n) && Down(n));
      }
    }

    // x is an inner grandchild: make it an outer one.
    method Straighten(x: Node, s: Side)
      requires Rising(x) && x.parent.red && x == x.parent.Kid(s.Other())
      requires Family(x, s, x.parent, x.parent.parent, x.parent.parent.Kid(s.Other()))
      modifies nodes`left, nodes`right, nodes`parent, nodes`maxHigh, nodes`sub, root`left, root`right, nil`parent
      ensures old(x.parent) in nodes && Rising(old(x.parent)) && x.red
      ensures Family(old(x.parent), s, x, old(x.parent.parent), old(x.parent.parent.Kid(s.Other())))
      ensures old(x.parent) == x.Kid(s)
    {
      var p, g := x.parent, x.parent.parent;
      assert Down(g) && Down(p) && Down(x) && Sub(x);
      Rotate(p, s);
      StraightenedColours(p, x, old(x.Kid(s)), g);
      assert Down(p);
    }

    // Once p is black and g red, the side of g away from p lacks one black node.
    ghost predicate Dipped(x: Node, s: Side, p: Node, g: Node)
      reads this`nodes, root`left, root`right, nil`left, nil`right, nil`sub, nil`maxHigh
      reads nodes`left, nodes`right, nodes`parent, nodes`sub, nodes`maxHigh
      reads root`red, root`bh, nil`red, nil`bh, nodes`red, nodes`bh, x`red, x`left, x`right, x`parent, p, g
      reads p.left`red, p.right`red, g.left`red, g.right`red
    {
      && Structure() && Coloured(g, g, s.Other()) && {x, p, g} <= nodes
      && x.parent == p && p.parent == g && p.Kid(s) == x && g.Kid(s) == p
      && x.red && !p.red && g.red && !p.Kid(s.Other()).red && !g.Kid(s.Other()).red
      && (x.left == nil || x.left in nodes) && (x.right == nil || x.right in nodes)
      && (x.left in nodes ==> !x.left.red) && (x.right in nodes ==> !x.right.red)
      && (root.left.red ==> root.left == g)
    }

    method Dip(x: Node, s: Side)
      requires Rising(x) && x.parent.red && x == x.parent.Kid(s)
      requires Family(x, s, x.parent, x.parent.parent, x.parent.parent.Kid(s.Other()))
      requires !x.parent.parent.Kid(s.Other()).red
      modifies x.parent`red, x.parent`bh, x.parent.parent`red
      ensures Dipped(x, s, x.parent, x.parent.parent)
    {
      ghost var p, g := x.parent, x.parent.parent;
      Apart(x, p, g);
      x.parent.red := false;
      x.parent.parent.red := true;
      p.bh := p.bh + 1;
      PaintedStructure();
      DippedColours(x, s, p, g);
    }

    twostate lemma DippedColours(new x: Node, s: Side, new p: Node, new g: Node)
      requires {x, g, p} <= old(nodes) && x != p && x != g && p != g
      requires old(Rising(x) && p.red && x == p.Kid(s) && Family(x, s, p, g, g.Kid(s.Other())) && !g.Kid(s.Other()).red)
      requires Painted() && Structure()
      requires !p.red && g.red && p.bh == old(p.bh) + 1
      requires forall n {:trigger n.red} :: n in nodes && n != p && n != g ==> n.red == old(n.red)
      requires forall n {:trigger n.bh} :: n in nodes && n != p ==> n.bh == old(n.bh)
      requires nil.red == old(nil.red) && nil.bh == old(nil.bh) && root.red == old(root.red)
      ensures Dipped(x, s, p, g)
    {
      assert old(Down(g) && Down(p) && Down(x) && BlackOk(g) && RedOk(g, x) && RedOk(p, x));
      forall n | n in nodes ensures RedOk(n, g) {
        assert old(RedOk(n, x) && Down(n));
      }
      forall n | n in nodes && n != g ensures BlackOk(n) {
        assert old(BlackOk(n) && Down(n));
      }
    }

    twostate lemma RaisedColours(new x: Node, s: Side, new p: Node, new g: Node, new b: Node, new t: Node)
      requires {x, g, p} <= old(nodes) && b in old(nodes) + {nil} && t in old(nodes) + {root}
      requires old(Dipped(x, s, p, g)) && old(Pivot(g, p, b, t)) && Turned(g, p, b, t)
      requires x != b && x != g && x != p && x != t && Structure()
      requires forall n {:trigger n.red} :: n in nodes ==> n.red == old(n.red)
      requires forall n {:trigger n.bh} :: n in nodes ==> n.bh == old(if n == g then p.bh - 1 else n.bh)
      requires nil.red == old(nil.red) && nil.bh == old(nil.bh) && root.red == old(root.red)
      ensures Rising(x) && !x.parent.red
    {
      assert old(Owes(g, s.Other()) && BlackOk(p) && Down(p) && Down(g) && Down(x));
      forall n | n in nodes ensures RedOk(n, x) {
        assert old(RedOk(n, g) && Down(n));
      }
      forall n | n in nodes ensures BlackOk(n) {
        if n != g { assert old(BlackOk(n) && Down(n)); }
      }
    }

    lemma Apart(x: Node, p: Node, g: Node)
      requires Shape() && x in nodes && p in nodes && g in nodes
      requires x.parent == p && p.parent == g
      requires (p.left == x || p.right == x) && (g.left == p || g.right == p)
      ensures x != p && x != g && p != g && x != g.parent && p != g.parent
    {
      assert Sub(x) && Sub(p) && Sub(g) && Up(g);
      if g.parent != root { assert Sub(g.parent); }
    }

    // The uncle of the outer grandchild x is black: one rotation settles the clash.
    method Settle(x: Node, s: Side)
      requires Rising(x) && x.parent.red && x == x.parent.Kid(s)
      requires Family(x, s, x.parent, x.parent.parent, x.parent.parent.Kid(s.Other()))
      requires !x.parent.parent.Kid(s.Other()).red
      modifies nodes`left, nodes`right, nodes`parent, nodes`maxHigh, nodes`sub, root`left, root`right, nil`parent
      modifies nodes`red, nodes`bh
      ensures Rising(x) && !x.parent.red
    {
      ghost var p, g := x.parent, x.parent.parent;
      Dip(x, s);
      Raise(x, s, p, g);
    }

    method Raise(x: Node, s: Side, ghost p: Node, ghost g: Node)
      requires Dipped(x, s, p, g)
      modifies nodes`left, nodes`right, nodes`parent, nodes`maxHigh, nodes`sub, root`left, root`right, nil`parent
      modifies nodes`red, nodes`bh
      ensures Rising(x) && !x.parent.red
    {
      ghost var b, t := p.Kid(s.Other()), g.parent;
      assert x != b && x != g && x != p && x != t && b in nodes + {nil} && t in nodes + {root} && p.bh > 0 by {
        Apart(x, p, g);
        assert Down(p) && Down(g) && Up(g) && BlackOk(p);
      }
      Rotate(x.parent.parent, s.Other());
      g.bh := p.bh - 1;
      RaisedColours(x, s, p, g, b, t);
    }

    // The two mirror images of the loop body of insert, picked by s.
    method Lift(x: Node, s: Side) returns (x': Node)
      requires Rising(x) && x.parent.red && x.parent in nodes
      requires x.parent.parent in nodes && x.parent == x.parent.parent.Kid(s)
      modifies nodes`left, nodes`right, nodes`parent, nodes`maxHigh, nodes`sub, root`left, root`right, nil`parent
      modifies nodes`red, nodes`bh
      ensures Rising(x') && (!x'.parent.red || (x' == old(x.parent.parent) && x'.sub == old(x.parent.parent.sub)))
    {
      x' := x;
      var y := x'.parent.parent.Kid(s.Other());
      assert Down(x'.parent.parent) && Up(x');
      if y.red {
        x' := PushUp(x', s);
      } else {
        if x' == x'.parent.Kid(s.Other()) {
          x' := x'.parent;
          Straighten(x, s);
        }
        Settle(x', s);
      }
    }

    // A red x whose parent is black clashes with nothing.
    lemma RisenColours(x: Node)
      requires Rising(x) && !x.parent.red
      ensures Coloured(root, root, Left) && (x == root.left || !root.left.red)
    {
      forall n | n in nodes ensures RedOk(n, root) {
        assert RedOk(n, x) && Down(n);
      }
    }

    lemma Grandparent(x: Node)
      requires Rising(x) && x.parent.red
      ensures x.parent in nodes && x.parent.parent in nodes && x.sub < x.parent.parent.sub
      ensures x.parent.parent !in x.sub && x in x.sub
      ensures x.parent == x.parent.parent.left || x.parent == x.parent.parent.right
    {
      assert Up(x) && Sub(x);
      assert Up(x.parent) && Sub(x.parent) && Sub(x.parent.parent);
    }

    // Blackens the top node.
    method BlackenTop()
      requires Structure() && Coloured(root, root, Left) && root.left != nil
      modifies root.left`red, root.left`bh
      ensures Structure() && Balanced()
    {
      ghost var t := root.left;
      if t.red {
        t.bh := t.bh + 1;
      }
      root.left.red := false;
      PaintedStructure();
      forall n | n in nodes ensures RedOk(n, root) {
        assert old(RedOk(n, root));
      }
      forall n | n in nodes ensures BlackOk(n) {
        assert old(BlackOk(n)) && Down(n);
      }
    }

    ghost predicate Stored()
      reads this`nodes
    {
      forall n {:trigger n.storedInterval} :: n in nodes ==>
        n.storedInterval != null && n.key == n.storedInterval.low && n.high == n.storedInterval.high
    }

    // The query stack holds nothing but its bottom entry.
    ghost predicate Idle()
      reads this`recursionStack, this`recursionStackTop
    {
      recursionStackTop == 1 <= |recursionStack|
    }

    ghost predicate Valid()
      reads this`nodes, root`left, root`right, nil`left, nil`right, nil`sub, nil`maxHigh
      reads nodes`left, nodes`right, nodes`parent, nodes`sub, nodes`maxHigh
      reads root`red, root`bh, nil`red, nil`bh, nodes`red, nodes`bh
      reads this`recursionStack, this`recursionStackTop
    {
      Structure() && Balanced() && Stored() && Idle()
    }

    // Hangs x in and repairs maxHigh.
    method Place(x: Node) returns (ghost y: Node, ghost s: Side)
      requires Structure() && x !in nodes && x != root && x != nil && x.maxHigh == x.high
      modifies this`nodes, root`left, root`right, x`left, x`right, x`parent, x`sub, x`maxHigh
      modifies nodes`left, nodes`right, nodes`maxHigh, nodes`sub
      ensures y in old(nodes) + {root} && (s.Left? <==> (y == root || y.key > x.key))
      ensures old(Slot(x, y, s) && y.Kid(s) == nil) && Linked(x, y, s) && Structure()
    {
      y, s := RecursiveInsert(x);
      FixupMaxHigh(x.parent);
    }

    // The part of insert before its loop.
    method PlaceRed(x: Node) returns (ghost y: Node, ghost s: Side)
      requires Structure() && Balanced() && x !in nodes && x != root && x != nil && x.maxHigh == x.high && x.bh == 0
      modifies this`nodes, root`left, root`right, nil`parent, x`red, x`left, x`right, x`parent, x`sub, x`maxHigh
      modifies nodes`left, nodes`right, nodes`parent, nodes`maxHigh, nodes`sub, nodes`red, nodes`bh
      ensures Rising(x) && nodes == old(nodes) + {x}
      ensures y in old(nodes) + {root} && y == x.parent && (s.Left? <==> (y == root || y.key > x.key))
      ensures old(y.Kid(s)) == nil && y.Kid(s) == x && y.Kid(s.Other()) == old(y.Kid(s.Other())) && y.red == old(y.red)
    {
      y, s := Place(x);
      x.red := true;
      LinkedColours(x, y, s);
    }

    // A tree of one node is that node, black.
    lemma SingleNode()
      requires Structure() && Balanced()
      ensures forall a {:trigger Sub(a)} {:trigger a.left} :: nodes == {a} ==> root.left == a && a.left == nil && a.right == nil && !a.red
    {
      forall a | nodes == {a} ensures root.left == a && a.left == nil && a.right == nil && !a.red {
        assert Sub(a) && Down(a);
      }
    }

    // x is the only child of a, on its side.
    ghost predicate Beside(a: Node, x: Node)
      reads a`left, a`right
    {
      if a.key > x.key then a.left == x && a.right == nil else a.right == x && a.left == nil
    }

    // The loop of insert.
    method RestoreColours(start: Node)
      requires Rising(start)
      modifies root`left, root`right, nil`parent
      modifies nodes`left, nodes`right, nodes`parent, nodes`maxHigh, nodes`sub, nodes`red, nodes`bh
      ensures Structure() && Balanced()
      ensures !old(start.parent.red) ==>
        forall n {:trigger n.left} {:trigger n.right} :: n in nodes ==> n.left == old(n.left) && n.right == old(n.right)
    {
      var x := start;
      while x.parent.red
        invariant Rising(x)
        invariant !old(start.parent.red) ==> x == start && !x.parent.red
        invariant !old(start.parent.red) ==>
          forall n {:trigger n.left} {:trigger n.right} :: n in nodes ==> n.left == old(n.left) && n.right == old(n.right)
        decreases if x.parent.red then nodes - x.sub + {x} else {}
      {
        Grandparent(x);
        if x.parent == x.parent.parent.left {
          x := Lift(x, Left);
        } else {
          x := Lift(x, Right);
        }
      }
      RisenColours(x);
      BlackenTop();
    }

    method Insert(newInterval: Interval) returns (newNode: Node)
      requires Valid()
      modifies this`nodes, root`left, root`right, nil`parent
      modifies nodes`left, nodes`right, nodes`parent, nodes`maxHigh, nodes`sub, nodes`red, nodes`bh
      ensures Valid() && fresh(newNode) && nodes == old(nodes) + {newNode}
      ensures newNode.storedInterval == newInterval
      ensures forall a {:trigger a in old(nodes)} :: a in old(nodes) && old(nodes) == {a} ==> Beside(a, newNode)
    {
      SingleNode();
      newNode := new Node(newInterval);
      ghost var y, s := PlaceRed(newNode);
      RestoreColours(newNode);
    }

    // ---------- recolouring after a deletion ----------

    // The loop invariant of deleteFixup: the side s of x.parent, where x hangs,
    // lacks one black node.
    ghost predicate Sinking(x: Node, s: Side)
      reads this`nodes, root, nil, nodes, x, x.parent
    {
      && Structure() && Coloured(x, x.parent, s) && (x in nodes || x == nil)
      && (if x.parent == root then root.left == x && s.Left? else x.parent in nodes && x.parent.Kid(s) == x)
      && (root.left.red ==> root.left == x)
    }

    // w is the sibling of x, p their parent and t hers.
    ghost predicate Kin(x: Node, s: Side, p: Node, w: Node, t: Node)
      reads this`nodes, x`parent, nodes`parent, nodes`left, nodes`right
    {
      && p in nodes && w in nodes && (x in nodes || x == nil)
      && x.parent == p && p.parent == t && p.Kid(s) == x && p.Kid(s.Other()) == w && x != w && p != w
      && (w.left == nil || w.left in nodes) && (w.right == nil || w.right in nodes)
    }

    lemma KinHere(x: Node, s: Side)
      requires Sinking(x, s) && !x.red && x.parent in nodes
      ensures Kin(x, s, x.parent, x.parent.Kid(s.Other()), x.parent.parent)
      ensures x.parent.Kid(s.Other()).bh == x.bh + 1 && !root.left.red
    {
      assert Owes(x.parent, s) && Down(x.parent) && Sub(x.parent);
      assert Down(x.parent.Kid(s.Other())) && Sub(x.parent.Kid(s.Other()));
    }

    // Besides the links, no field but the colours in c and the ghost counts in e changed.
    twostate predicate PaintedOnly(c: set<Node>, e: set<Node>)
      reads this`nodes, root, nil, nodes
    {
      && Painted()
      && (forall n {:trigger n.red} :: n in nodes && n !in c ==> n.red == old(n.red))
      && (forall n {:trigger n.bh} :: n in nodes && n !in e ==> n.bh == old(n.bh))
      && nil.red == old(nil.red) && nil.bh == old(nil.bh) && root.red == old(root.red) && nil.parent == old(nil.parent)
    }

    // Colours are right, but for red nodes around r and for the black counts at e.
    ghost predicate ColouredBut(r: Node, e: set<Node>)
      reads this`nodes, root, nil, nodes
    {
      && Structure() && !root.red && !nil.red && nil.bh == 0
      && (forall n {:trigger RedOk(n, r)} :: n in nodes ==> RedOk(n, r))
      && (forall n {:trigger BlackOk(n)} :: n in nodes && n !in e ==> BlackOk(n))
    }

    // t balances once w stands for its child p.
    ghost predicate Exchanged(t: Node, p: Node, w: Node)
      reads this`nodes, t`left, t`right, t`red, t`bh, nodes`bh, nil`bh, w`bh
    {
      t in nodes ==>
        && (t.left == nil || t.left in nodes) && (t.right == nil || t.right in nodes)
        && (t.left == p ==> w.bh == t.right.bh) && (t.right == p ==> w.bh == t.left.bh)
        && t.bh == w.bh + (if t.red then 0 else 1)
    }

    // The rotation that follows a repaint.
    twostate predicate TurnedOnly(x: Node, y: Node, b: Node, p: Node)
      reads this`nodes, root, nil, nodes, x, y, b, p, x.left, x.right, y.left, y.right
    {
      && old(Pivot(x, y, b, p)) && Turned(x, y, b, p) && Structure()
      && (forall n {:trigger n.red} :: n in nodes ==> n.red == old(n.red))
      && (forall n {:trigger n.bh} :: n in nodes ==> n.bh == old(n.bh))
      && nil.red == old(nil.red) && nil.bh == old(nil.bh) && root.red == old(root.red)
    }

    // Case 1 of deleteFixup, half way: the red sibling w was painted black, and p red.
    ghost predicate Case1(x: Node, s: Side, p: Node, w: Node, t: Node)
      reads this`nodes, root, nil, nodes, x, p, w, t
    {
      && Kin(x, s, p, w, t) && ColouredBut(p, {p, w, t}) && Exchanged(t, p, w)
      && w.left in nodes && w.right in nodes && !x.red && p.red && !w.red && !w.left.red && !w.right.red
      && w.bh == p.bh + 1 && w.left.bh == w.right.bh == p.bh == x.bh + 1
      && (root.left.red ==> root.left == p)
    }

    twostate lemma Case1PaintedRed(new x: Node, new s: Side, new p: Node, new w: Node, new t: Node)
      requires {p, w} <= old(nodes) && x in old(nodes) + {nil} && t in old(nodes) + {root}
      requires old(Sinking(x, s) && Kin(x, s, p, w, t) && w.red && w.bh == x.bh + 1 && !root.left.red)
      requires Structure() && PaintedOnly({p, w}, {p, w}) && p.red && !w.red && !x.red
      requires p.bh == old(p.bh) - 1 && w.bh == old(w.bh) + 1
      ensures forall n {:trigger RedOk(n, p)} :: n in nodes ==> RedOk(n, p)
    {
      assert old(RedOk(w, x) && Down(p));
      forall n | n in nodes ensures RedOk(n, p) {
        assert old(RedOk(n, x) && Down(n));
      }
    }

    twostate lemma Case1PaintedTop(new x: Node, new s: Side, new p: Node, new w: Node, new t: Node)
      requires {p, w} <= old(nodes) && x in old(nodes) + {nil} && t in old(nodes) + {root}
      requires old(Sinking(x, s) && Kin(x, s, p, w, t) && w.red && w.bh == x.bh + 1 && !root.left.red)
      requires Structure() && PaintedOnly({p, w}, {p, w}) && p.red && !w.red && !x.red
      requires p.bh == old(p.bh) - 1 && w.bh == old(w.bh) + 1
      ensures Exchanged(t, p, w) && t != p && t != w
    {
      assert t != p && t != w by {
        assert old(Up(p) && Sub(p) && Sub(w) && Down(p));
      }
      if t != root {
        assert old(BlackOk(t) && Down(t));
        assert old(Owes(p, s) && RedOk(p, x));
      }
    }

    twostate lemma Case1PaintedBlack(new x: Node, new s: Side, new p: Node, new w: Node, new t: Node)
      requires {p, w} <= old(nodes) && x in old(nodes) + {nil} && t in old(nodes) + {root}
      requires old(Sinking(x, s) && Kin(x, s, p, w, t) && w.red && w.bh == x.bh + 1 && !root.left.red)
      requires Structure() && PaintedOnly({p, w}, {p, w}) && p.red && !w.red && !x.red
      requires p.bh == old(p.bh) - 1 && w.bh == old(w.bh) + 1
      ensures forall n {:trigger BlackOk(n)} :: n in nodes && n !in {p, w, t} ==> BlackOk(n)
    {
      assert old(Down(p) && Down(w));
      forall n | n in nodes && n !in {p, w, t} ensures BlackOk(n) {
        assert old(BlackOk(n) && Down(n));
      }
    }

    twostate lemma Case1Painted(new x: Node, new s: Side, new p: Node, new w: Node, new t: Node)
      requires {p, w} <= old(nodes) && x in old(nodes) + {nil} && t in old(nodes) + {root}
      requires old(Sinking(x, s) && Kin(x, s, p, w, t) && w.red && w.bh == x.bh + 1 && !root.left.red)
      requires Structure() && PaintedOnly({p, w}, {p, w}) && p.red && !w.red && !x.red
      requires p.bh == old(p.bh) - 1 && w.bh == old(w.bh) + 1
      ensures Case1(x, s, p, w, t)
    {
      Case1PaintedRed(x, s, p, w, t);
      Case1PaintedTop(x, s, p, w, t);
      Case1PaintedBlack(x, s, p, w, t);
      assert old(RedOk(p, x) && RedOk(w, x));
      assert old(BlackOk(w) && Owes(p, s) && Down(p) && Down(w));
    }

    method Case1Paint(x: Node, s: Side)
      requires Sinking(x, s) && !x.red && x.parent in nodes && x.parent.Kid(s.Other()).red
      modifies x.parent`red, x.parent`bh, x.parent.Kid(s.Other())`red, x.parent.Kid(s.Other())`bh
      ensures x.parent in nodes && Case1(x, s, x.parent, x.parent.Kid(s.Other()), x.parent.parent)
    {
      KinHere(x, s);
      var w := x.parent.Kid(s.Other());
      assert Up(x.parent) && Owes(x.parent, s);
      w.red := false;
      x.parent.red := true;
      x.parent.bh := x.parent.bh - 1;
      w.bh := w.bh + 1;
      PaintedStructure();
      Case1Painted(x, s, x.parent, w, x.parent.parent);
    }

    twostate lemma Case1TurnedRed(new x: Node, new s: Side, new p: Node, new w: Node, new b: Node, new t: Node)
      requires {p, w, b} <= old(nodes) && x in old(nodes) + {nil} && t in old(nodes) + {root}
      requires old(Case1(x, s, p, w, t)) && TurnedOnly(p, w, b, t)
      ensures forall n {:trigger RedOk(n, x)} :: n in nodes ==> RedOk(n, x)
    {
      assert old(Down(p) && Down(w));
      forall n | n in nodes ensures RedOk(n, x) {
        assert old(RedOk(n, p) && Down(n));
      }
    }

    twostate lemma Case1Turned(new x: Node, new s: Side, new p: Node, new w: Node, new b: Node, new t: Node)
      requires {p, w, b} <= old(nodes) && x in old(nodes) + {nil} && t in old(nodes) + {root}
      requires old(Case1(x, s, p, w, t)) && TurnedOnly(p, w, b, t)
      ensures Sinking(x, s) && x.parent == p && p.Kid(s.Other()) == b && !b.red && p.red && !x.red && !root.left.red
      ensures root.left == (if old(root.left) == p then w else old(root.left))
    {
      assert old(Down(p) && Down(w) && Up(p));
      if t != root { assert old(Down(t)); }
      Case1TurnedRed(x, s, p, w, b, t);
      forall n | n in nodes && n != p ensures BlackOk(n) {
        if n !in {p, w, t} { assert old(BlackOk(n) && Down(n)); }
      }
    }

    method Case1Turn(x: Node, s: Side, ghost p: Node, ghost w: Node, ghost t: Node)
      requires Case1(x, s, p, w, t)
      modifies nodes`left, nodes`right, nodes`parent, nodes`maxHigh, nodes`sub, root`left, root`right, nil`parent
      ensures Sinking(x, s) && x.parent == p && !x.red && x.sub == old(x.sub)
      ensures p in nodes && p.red && !p.Kid(s.Other()).red && !root.left.red
      ensures root.left == (if old(root.left) == p then w else old(root.left))
    {
      ghost var b := w.Kid(s);
      assert Up(p) && Down(p) && Down(w);
      Rotate(x.parent, s);
      Case1Turned(x, s, p, w, b, t);
    }

    // Case 2: the sibling and both nephews are black, so the sibling turns red
    // and the shortage moves up to p.
    twostate lemma Case2PaintedRed(new x: Node, new s: Side, new p: Node, new w: Node, new t: Node, new s': Side)
      requires {p, w} <= old(nodes) && x in old(nodes) + {nil} && t in old(nodes) + {root}
      requires old(Sinking(x, s) && Kin(x, s, p, w, t) && w.bh == x.bh + 1 && !w.red && !root.left.red)
      requires old(!w.left.red && !w.right.red && !x.red)
      requires old(if t == root then root.left == p && s' == Left else t.Kid(s') == p)
      requires Structure() && PaintedOnly({w}, {p, w}) && w.red
      requires p.bh == old(p.bh) - 1 && w.bh == old(w.bh) - 1
      ensures forall n {:trigger RedOk(n, p)} :: n in nodes ==> RedOk(n, p)
    {
      assert old(Down(p));
      forall n | n in nodes ensures RedOk(n, p) {
        assert old(RedOk(n, x) && Down(n));
      }
    }

    twostate lemma Case2PaintedBlack(new x: Node, new s: Side, new p: Node, new w: Node, new t: Node, new s': Side)
      requires {p, w} <= old(nodes) && x in old(nodes) + {nil} && t in old(nodes) + {root}
      requires old(Sinking(x, s) && Kin(x, s, p, w, t) && w.bh == x.bh + 1 && !w.red && !root.left.red)
      requires old(!w.left.red && !w.right.red && !x.red)
      requires old(if t == root then root.left == p && s' == Left else t.Kid(s') == p)
      requires Structure() && PaintedOnly({w}, {p, w}) && w.red
      requires p.bh == old(p.bh) - 1 && w.bh == old(w.bh) - 1
      ensures forall n {:trigger BlackOk(n)} :: n in nodes && n != t ==> BlackOk(n)
    {
      assert old(Owes(p, s) && BlackOk(w));
      assert old(Down(p));
      forall n | n in nodes && n != t ensures BlackOk(n) {
        if n != p { assert old(BlackOk(n) && Down(n)); }
      }
    }

    twostate lemma Case2Painted(new x: Node, new s: Side, new p: Node, new w: Node, new t: Node, new s': Side)
      requires {p, w} <= old(nodes) && x in old(nodes) + {nil} && t in old(nodes) + {root}
      requires old(Sinking(x, s) && Kin(x, s, p, w, t) && w.bh == x.bh + 1 && !w.red && !root.left.red)
      requires old(!w.left.red && !w.right.red && !x.red)
      requires old(if t == root then root.left == p && s' == Left else t.Kid(s') == p)
      requires Structure() && PaintedOnly({w}, {p, w}) && w.red
      requires p.bh == old(p.bh) - 1 && w.bh == old(w.bh) - 1
      ensures Sinking(p, s')
    {
      Case2PaintedRed(x, s, p, w, t, s');
      Case2PaintedBlack(x, s, p, w, t, s');
      assert old(Owes(p, s) && Down(p) && BlackOk(w));
      if t != root {
        assert t != p by { assert old(Up(p) && Sub(p)); }
        assert old(BlackOk(t) && Down(t));
      }
    }

    method Recolour2(w: Node, ghost p: Node)
      requires p != w && p.bh > 0 && w.bh > 0
      modifies w`red, w`bh, p`bh
      ensures w.red && w.bh == old(w.bh) - 1 && p.bh == old(p.bh) - 1
    {
      w.red := true;
      w.bh := w.bh - 1;
      p.bh := p.bh - 1;
    }

    method Case2(x: Node, s: Side) returns (p: Node, ghost s': Side)
      requires Sinking(x, s) && !x.red && x.parent in nodes
      requires Kin(x, s, x.parent, x.parent.Kid(s.Other()), x.parent.parent)
      requires !x.parent.Kid(s.Other()).red && !x.parent.Kid(s.Other()).left.red && !x.parent.Kid(s.Other()).right.red
      modifies x.parent.Kid(s.Other())`red, x.parent.Kid(s.Other())`bh, x.parent`bh
      ensures p == old(x.parent) && Sinking(p, s') && p.red == old(p.red)
    {
      KinHere(x, s);
      p := x.parent;
      var w := x.parent.Kid(s.Other());
      s' := if p.parent == root || p.parent.left == p then Left else Right;
      assert Up(p) && BlackOk(w) && Owes(p, s);
      Recolour2(w, p);
      PaintedStructure();
      Case2Painted(x, s, p, w, p.parent, s');
    }

    // Case 3, half way: the red inner nephew i was painted black, and w red.
    ghost predicate Case3(x: Node, s: Side, p: Node, w: Node, i: Node, t: Node)
      reads this`nodes, root, nil, nodes, x
    {
      && Kin(x, s, p, w, t) && ColouredBut(w, {w, i, p}) && !root.left.red
      && i in nodes && w.Kid(s) == i && i != w && i != p && !w.Kid(s.Other()).red
      && i.left in nodes + {nil} && i.right in nodes + {nil} && !i.left.red && !i.right.red
      && !x.red && w.red && !i.red && w.bh == x.bh && i.bh == x.bh + 1
      && i.left.bh == i.right.bh == w.Kid(s.Other()).bh == x.bh
      && p.bh == i.bh + (if p.red then 0 else 1)
    }

    twostate lemma Case3PaintedRed(new x: Node, new s: Side, new p: Node, new w: Node, new i: Node, new t: Node)
      requires {p, w, i} <= old(nodes) && x in old(nodes) + {nil} && t in old(nodes) + {root} && i != p && i != w
      requires old(Sinking(x, s) && Kin(x, s, p, w, t) && w.bh == x.bh + 1 && !w.red && !root.left.red)
      requires old(w.Kid(s) == i && i.red && !w.Kid(s.Other()).red)
      requires Structure() && PaintedOnly({w, i}, {w, i}) && w.red && !i.red && !x.red
      requires w.bh == old(w.bh) - 1 && i.bh == old(i.bh) + 1
      ensures forall n {:trigger RedOk(n, w)} :: n in nodes ==> RedOk(n, w)
    {
      assert old(RedOk(i, x) && Down(w));
      forall n | n in nodes ensures RedOk(n, w) {
        assert old(RedOk(n, x) && Down(n));
      }
    }

    twostate lemma Case3Painted(new x: Node, new s: Side, new p: Node, new w: Node, new i: Node, new t: Node)
      requires {p, w, i} <= old(nodes) && x in old(nodes) + {nil} && t in old(nodes) + {root} && i != p && i != w
      requires old(Sinking(x, s) && Kin(x, s, p, w, t) && w.bh == x.bh + 1 && !w.red && !root.left.red)
      requires old(w.Kid(s) == i && i.red && !w.Kid(s.Other()).red)
      requires Structure() && PaintedOnly({w, i}, {w, i}) && w.red && !i.red && !x.red
      requires w.bh == old(w.bh) - 1 && i.bh == old(i.bh) + 1
      ensures Case3(x, s, p, w, i, t)
    {
      assert old(RedOk(i, x) && BlackOk(w) && BlackOk(i) && Owes(p, s) && Down(p) && Down(w) && Down(i));
      Case3PaintedRed(x, s, p, w, i, t);
      forall n | n in nodes && n !in {w, i, p} ensures BlackOk(n) {
        assert old(BlackOk(n) && Down(n));
      }
    }

    method Recolour3(s: Side, w: Node, ghost i: Node)
      requires i == w.Kid(s) && i != w && w.bh > 0
      modifies w`red, w`bh, i`red, i`bh
      ensures w.red && !i.red && w.bh == old(w.bh) - 1 && i.bh == old(i.bh) + 1
    {
      w.Kid(s).red := false;
      w.red := true;
      i.bh := i.bh + 1;
      w.bh := w.bh - 1;
    }

    method Case3Paint(x: Node, s: Side)
      requires Sinking(x, s) && !x.red && x.parent in nodes
      requires Kin(x, s, x.parent, x.parent.Kid(s.Other()), x.parent.parent)
      requires !x.parent.Kid(s.Other()).red && x.parent.Kid(s.Other()).Kid(s).red && !x.parent.Kid(s.Other()).Kid(s.Other()).red
      modifies x.parent.Kid(s.Other())`red, x.parent.Kid(s.Other())`bh
      modifies x.parent.Kid(s.Other()).Kid(s)`red, x.parent.Kid(s.Other()).Kid(s)`bh
      ensures Case3(x, s, x.parent, x.parent.Kid(s.Other()), x.parent.Kid(s.Other()).Kid(s), x.parent.parent)
    {
      KinHere(x, s);
      var w := x.parent.Kid(s.Other());
      ghost var i := w.Kid(s);
      assert Up(x.parent) && Sub(w) && Sub(x.parent) && Sub(i);
      Recolour3(s, w, i);
      PaintedStructure();
      Case3Painted(x, s, x.parent, w, i, x.parent.parent);
    }

    twostate lemma Case3TurnedRed(new x: Node, new s: Side, new p: Node, new w: Node, new i: Node, new b: Node, new t: Node)
      requires {p, w, i} <= old(nodes) && {x, b} <= old(nodes) + {nil} && t in old(nodes) + {root}
      requires old(Case3(x, s, p, w, i, t)) && TurnedOnly(w, i, b, p)
      ensures forall n {:trigger RedOk(n, x)} :: n in nodes ==> RedOk(n, x)
    {
      assert old(Down(i) && Down(w) && Down(p));
      forall n | n in nodes ensures RedOk(n, x) {
        assert old(RedOk(n, w) && Down(n));
      }
    }

    twostate lemma Case3Turned(new x: Node, new s: Side, new p: Node, new w: Node, new i: Node, new b: Node, new t: Node)
      requires {p, w, i} <= old(nodes) && {x, b} <= old(nodes) + {nil} && t in old(nodes) + {root}
      requires old(Case3(x, s, p, w, i, t)) && TurnedOnly(w, i, b, p)
      ensures Sinking(x, s) && x.parent == p && p.Kid(s.Other()) == i && i.Kid(s.Other()) == w && !i.red && w.red && !x.red
      ensures root.left == old(root.left) && !root.left.red && Kin(x, s, p, i, t)
    {
      assert old(Down(i) && Down(w) && Down(p) && Up(p));
      Case3TurnedRed(x, s, p, w, i, b, t);
      forall n | n in nodes && n != p ensures BlackOk(n) {
        if n !in {w, i, p} { assert old(BlackOk(n) && Down(n)); }
      }
    }

    method Case3Turn(x: Node, s: Side, w: Node, ghost p: Node, ghost i: Node)
      requires Case3(x, s, p, w, i, p.parent)
      modifies nodes`left, nodes`right, nodes`parent, nodes`maxHigh, nodes`sub, root`left, root`right, nil`parent
      ensures Sinking(x, s) && x.parent == p && !x.red && root.left == old(root.left) && !root.left.red
      ensures Kin(x, s, p, i, p.parent) && i.Kid(s.Other()) == w && !i.red && w.red
    {
      ghost var b, t := i.Kid(s.Other()), p.parent;
      assert Up(p) && Down(p) && Down(w) && Down(i);
      Rotate(w, s.Other());
      Case3Turned(x, s, p, w, i, b, t);
    }

    // Case 4, half way: w took the colour of p; p and the red outer nephew o turned black.
    ghost predicate Case4(x: Node, s: Side, p: Node, w: Node, o: Node, t: Node)
      reads this`nodes, root, nil, nodes, x, p, w, o, t
    {
      && Kin(x, s, p, w, t) && ColouredBut(w, {p, w, o, t}) && Exchanged(t, p, w) && !root.left.red
      && o in nodes && w.Kid(s.Other()) == o && o != w && o != p && o != t
      && o.left in nodes + {nil} && o.right in nodes + {nil}
      && !x.red && !p.red && !o.red && (w.red ==> !t.red) && (t == root ==> !w.red)
      && w.Kid(s).bh == x.bh && p.bh == o.bh == x.bh + 1 && w.bh == p.bh + (if w.red then 0 else 1)
      && o.left.bh == o.right.bh == x.bh
    }

    twostate lemma Case4PaintedRed(new x: Node, new s: Side, new p: Node, new w: Node, new o: Node, new t: Node)
      requires {p, w, o} <= old(nodes) && x in old(nodes) + {nil} && t in old(nodes) + {root} && o != p && o != w && o != t
      requires old(Sinking(x, s) && Kin(x, s, p, w, t) && w.bh == x.bh + 1 && !w.red && !root.left.red)
      requires old(w.Kid(s.Other()) == o && o.red)
      requires Structure() && PaintedOnly({p, w, o}, {p, w, o}) && w.red == old(p.red) && !p.red && !o.red && !x.red
      requires w.bh == old(p.bh) && o.bh == old(o.bh) + 1 && p.bh == old(w.bh)
      ensures forall n {:trigger RedOk(n, w)} :: n in nodes ==> RedOk(n, w)
    {
      assert old(RedOk(p, x) && Down(p) && Down(w));
      forall n | n in nodes ensures RedOk(n, w) {
        assert old(RedOk(n, x) && Down(n));
      }
    }

    twostate lemma Case4PaintedTop(new x: Node, new s: Side, new p: Node, new w: Node, new o: Node, new t: Node)
      requires {p, w, o} <= old(nodes) && x in old(nodes) + {nil} && t in old(nodes) + {root} && o != p && o != w && o != t
      requires old(Sinking(x, s) && Kin(x, s, p, w, t) && w.bh == x.bh + 1 && !w.red && !root.left.red)
      requires old(w.Kid(s.Other()) == o && o.red)
      requires Structure() && PaintedOnly({p, w, o}, {p, w, o}) && w.red == old(p.red) && !p.red && !o.red && !x.red
      requires w.bh == old(p.bh) && o.bh == old(o.bh) + 1 && p.bh == old(w.bh)
      ensures Exchanged(t, p, w) && (w.red ==> !t.red) && (t == root ==> !w.red)
    {
      if t != root { assert old(RedOk(t, x) && BlackOk(t) && Down(t) && Up(p)); }
      assert old(Down(p) && Down(w) && Up(p));
    }

    twostate lemma Case4PaintedBlack(new x: Node, new s: Side, new p: Node, new w: Node, new o: Node, new t: Node)
      requires {p, w, o} <= old(nodes) && x in old(nodes) + {nil} && t in old(nodes) + {root} && o != p && o != w && o != t
      requires old(Sinking(x, s) && Kin(x, s, p, w, t) && w.bh == x.bh + 1 && !w.red && !root.left.red)
      requires old(w.Kid(s.Other()) == o && o.red)
      requires Structure() && PaintedOnly({p, w, o}, {p, w, o}) && w.red == old(p.red) && !p.red && !o.red && !x.red
      requires w.bh == old(p.bh) && o.bh == old(o.bh) + 1 && p.bh == old(w.bh)
      ensures forall n {:trigger BlackOk(n)} :: n in nodes && n !in {p, w, o, t} ==> BlackOk(n)
    {
      assert old(Down(p) && Down(w));
      forall n | n in nodes && n !in {p, w, o, t} ensures BlackOk(n) {
        assert old(BlackOk(n) && Down(n));
      }
    }

    twostate lemma Case4Painted(new x: Node, new s: Side, new p: Node, new w: Node, new o: Node, new t: Node)
      requires {p, w, o} <= old(nodes) && x in old(nodes) + {nil} && t in old(nodes) + {root} && o != p && o != w && o != t
      requires old(Sinking(x, s) && Kin(x, s, p, w, t) && w.bh == x.bh + 1 && !w.red && !root.left.red)
      requires old(w.Kid(s.Other()) == o && o.red)
      requires Structure() && PaintedOnly({p, w, o}, {p, w, o}) && w.red == old(p.red) && !p.red && !o.red && !x.red
      requires w.bh == old(p.bh) && o.bh == old(o.bh) + 1 && p.bh == old(w.bh)
      ensures Case4(x, s, p, w, o, t)
    {
      Case4PaintedRed(x, s, p, w, o, t);
      Case4PaintedTop(x, s, p, w, o, t);
      Case4PaintedBlack(x, s, p, w, o, t);
      assert old(BlackOk(w) && BlackOk(o) && Owes(p, s) && Down(p) && Down(w) && Down(o));
    }

    method Recolour4(x: Node, s: Side, w: Node, ghost o: Node)
      requires o == w.Kid(s.Other()) && o != w && o != x.parent && w != x.parent
      modifies w`red, w`bh, o`red, o`bh, x.parent`red, x.parent`bh
      ensures w.red == old(x.parent.red) && !x.parent.red && !o.red
      ensures w.bh == old(x.parent.bh) && x.parent.bh == old(w.bh) && o.bh == old(o.bh) + 1
    {
      w.red := x.parent.red;
      x.parent.red := false;
      w.Kid(s.Other()).red := false;
      o.bh := o.bh + 1;
      x.parent.bh, w.bh := w.bh, x.parent.bh;
    }

    method Case4Paint(x: Node, s: Side)
      requires Sinking(x, s) && !x.red && x.parent in nodes
      requires Kin(x, s, x.parent, x.parent.Kid(s.Other()), x.parent.parent)
      requires !x.parent.Kid(s.Other()).red && x.parent.Kid(s.Other()).Kid(s.Other()).red
      modifies x.parent`red, x.parent`bh, x.parent.Kid(s.Other())`red, x.parent.Kid(s.Other())`bh
      modifies x.parent.Kid(s.Other()).Kid(s.Other())`red, x.parent.Kid(s.Other()).Kid(s.Other())`bh
      ensures Case4(x, s, x.parent, x.parent.Kid(s.Other()), x.parent.Kid(s.Other()).Kid(s.Other()), x.parent.parent)
    {
      KinHere(x, s);
      var w := x.parent.Kid(s.Other());
      ghost var o, p := w.Kid(s.Other()), x.parent;
      assert Down(w) && Down(p) && Up(p) && BlackOk(w) && Owes(p, s);
      Apart(o, w, p);
      Recolour4(x, s, w, o);
      PaintedStructure();
      Case4Painted(x, s, p, w, o, p.parent);
    }

    twostate lemma Case4TurnedRed(new x: Node, new s: Side, new p: Node, new w: Node, new o: Node, new b: Node, new t: Node)
      requires {p, w, o} <= old(nodes) && {x, b} <= old(nodes) + {nil} && t in old(nodes) + {root}
      requires old(Case4(x, s, p, w, o, t)) && TurnedOnly(p, w, b, t)
      ensures forall n {:trigger RedOk(n, root)} :: n in nodes ==> RedOk(n, root)
    {
      assert old(Down(p) && Down(w));
      forall n | n in nodes ensures RedOk(n, root) {
        assert old(RedOk(n, w) && Down(n));
      }
    }

    twostate lemma Case4Turned(new x: Node, new s: Side, new p: Node, new w: Node, new o: Node, new b: Node, new t: Node)
      requires {p, w, o} <= old(nodes) && {x, b} <= old(nodes) + {nil} && t in old(nodes) + {root}
      requires old(Case4(x, s, p, w, o, t)) && TurnedOnly(p, w, b, t)
      ensures Balanced()
    {
      assert old(Down(p) && Down(w) && Up(p));
      if t != root { assert old(Down(t)); }
      Case4TurnedRed(x, s, p, w, o, b, t);
      forall n | n in nodes ensures BlackOk(n) {
        if n !in {p, w, o, t} { assert old(BlackOk(n) && Down(n)); }
      }
    }

    method Case4Turn(x: Node, s: Side, ghost p: Node, ghost w: Node, ghost o: Node, ghost t: Node)
      requires Case4(x, s, p, w, o, t)
      modifies nodes`left, nodes`right, nodes`parent, nodes`maxHigh, nodes`sub, root`left, root`right, nil`parent
      ensures Structure() && Balanced()
      ensures root.left == (if old(root.left) == p then w else old(root.left)) && !p.red
    {
      ghost var b := w.Kid(s);
      assert Up(p) && Down(p) && Down(w);
      Rotate(x.parent, s);
      Case4Turned(x, s, p, w, o, b, t);
    }

    // The sibling is red: turn it into the grandparent.
    method RedSibling(x: Node, s: Side)
      requires Sinking(x, s) && !x.red && x.parent in nodes && x.parent.Kid(s.Other()).red
      modifies nodes`left, nodes`right, nodes`parent, nodes`maxHigh, nodes`sub, root`left, root`right, nil`parent
      modifies nodes`red, nodes`bh
      ensures Sinking(x, s) && !x.red && x.parent == old(x.parent) && x.sub == old(x.sub)
      ensures x.parent in nodes && x.parent.red && !x.parent.Kid(s.Other()).red
      ensures root.left == old(root.left) || old(root.left) == x.parent
    {
      KinHere(x, s);
      ghost var p, w := x.parent, x.parent.Kid(s.Other());
      Case1Paint(x, s);
      Case1Turn(x, s, p, w, p.parent);
    }

    // Only the inner nephew is red: turn it into the sibling.
    method InnerNephew(x: Node, s: Side)
      requires Sinking(x, s) && !x.red && x.parent in nodes
      requires Kin(x, s, x.parent, x.parent.Kid(s.Other()), x.parent.parent)
      requires !x.parent.Kid(s.Other()).red
      requires x.parent.Kid(s.Other()).Kid(s).red && !x.parent.Kid(s.Other()).Kid(s.Other()).red
      modifies nodes`left, nodes`right, nodes`parent, nodes`maxHigh, nodes`sub, root`left, root`right, nil`parent
      modifies nodes`red, nodes`bh
      ensures Sinking(x, s) && !x.red && x.parent == old(x.parent) && root.left == old(root.left)
      ensures x.parent in nodes && Kin(x, s, x.parent, x.parent.Kid(s.Other()), x.parent.parent)
      ensures !x.parent.Kid(s.Other()).red && x.parent.Kid(s.Other()).Kid(s.Other()).red
    {
      var w := x.parent.Kid(s.Other());
      ghost var p := x.parent;
      Case3Paint(x, s);
      Case3Turn(x, s, w, p, w.Kid(s));
    }

    // A nephew is red: one or two rotations end the shortage.
    method RedNephew(x: Node, s: Side, ghost top: Node)
      requires Sinking(x, s) && !x.red && x.parent in nodes && (root.left == top || x.parent == top)
      requires Kin(x, s, x.parent, x.parent.Kid(s.Other()), x.parent.parent)
      requires !x.parent.Kid(s.Other()).red
      requires x.parent.Kid(s.Other()).Kid(s).red || x.parent.Kid(s.Other()).Kid(s.Other()).red
      modifies nodes`left, nodes`right, nodes`parent, nodes`maxHigh, nodes`sub, root`left, root`right, nil`parent
      modifies nodes`red, nodes`bh
      ensures Structure() && Balanced() && top in nodes && !top.red
    {
      ghost var p := x.parent;
      if !x.parent.Kid(s.Other()).Kid(s.Other()).red {
        InnerNephew(x, s);
      }
      ghost var w := x.parent.Kid(s.Other());
      Case4Paint(x, s);
      Case4Turn(x, s, p, w, w.Kid(s.Other()), p.parent);
    }

    // The two mirror images of the loop body of deleteFixup, picked by s. It
    // ends either with the shortage one level higher or with none.
    method Sink(x: Node, s: Side, rootLeftNode: Node) returns (x': Node, ghost s': Side, ghost short: bool)
      requires Sinking(x, s) && !x.red && x.parent in nodes && rootLeftNode == root.left
      modifies nodes`left, nodes`right, nodes`parent, nodes`maxHigh, nodes`sub, root`left, root`right, nil`parent
      modifies nodes`red, nodes`bh
      ensures short ==> Sinking(x', s') && x' in nodes && old(x.sub) + {x'} <= x'.sub && x' !in old(x.sub)
      ensures short ==> root.left == rootLeftNode || (x' == rootLeftNode && x'.red)
      ensures !short ==> Structure() && Balanced() && x' == rootLeftNode && x' in nodes && !x'.red
    {
      x', s' := rootLeftNode, s;
      KinHere(x, s);
      var w := x.parent.Kid(s.Other());
      if w.red {
        RedSibling(x, s);
        w := x.parent.Kid(s.Other());
        KinHere(x, s);
      }
      short := !w.Kid(s.Other()).red && !w.Kid(s).red;
      if !w.Kid(s.Other()).red && !w.Kid(s).red {
        assert Sub(x.parent);
        x', s' := Case2(x, s);
      } else {
        RedNephew(x, s, rootLeftNode);
      }
    }

    // Blackening x ends the shortage, if one is left.
    method PayOff(x: Node, ghost s: Side, ghost short: bool)
      requires if short then Sinking(x, s) && (x.red || x == root.left)
               else Structure() && Balanced() && x in nodes && !x.red
      modifies x`red, x`bh
      ensures Structure() && Balanced()
    {
      ghost var p := x.parent;
      assert short && p in nodes ==> Owes(p, s);
      if x.red {
        x.bh := x.bh + 1;
      }
      x.red := false;
      PaintedStructure();
      forall n | n in nodes ensures RedOk(n, root) {
        assert old(if short then RedOk(n, x) else RedOk(n, root));
      }
      forall n | n in nodes ensures BlackOk(n) {
        assert Down(n) && old(if short && n == p then Owes(n, s) else BlackOk(n));
      }
    }

    method DeleteFixup(start: Node, ghost side: Side)
      requires Sinking(start, side)
      modifies nodes`left, nodes`right, nodes`parent, nodes`maxHigh, nodes`sub, root`left, root`right, nil`parent
      modifies nodes`red, nodes`bh, nil`red, nil`bh
      ensures Structure() && Balanced() && nodes == old(nodes)
    {
      var x := start;
      ghost var s, short := side, true;
      var rootLeftNode := root.left;
      while !x.red && rootLeftNode != x
        invariant short ==> Sinking(x, s)
        invariant short ==> root.left == rootLeftNode || (x == rootLeftNode && x.red)
        invariant !short ==> Structure() && Balanced() && x == rootLeftNode && x in nodes && !x.red
        decreases if x == rootLeftNode then {} else nodes - x.sub + {rootLeftNode}
      {
        assert x.parent in nodes ==> Owes(x.parent, s) && Sub(x.parent);
        if x == x.parent.left {
          x, s, short := Sink(x, Left, rootLeftNode);
        } else {
          x, s, short := Sink(x, Right, rootLeftNode);
        }
      }
      PayOff(x, s, short);
    }

    // ---------- deletion ----------

    lemma {:induction false} Nested(n: Node, m: Node)
      requires Shape() && n in nodes && m in n.sub
      ensures m in nodes && m.sub <= n.sub
      decreases n.sub
    {
      assert Sub(n);
      if m in n.left.sub {
        Nested(n.left, m);
      } else if m in n.right.sub {
        Nested(n.right, m);
      }
    }

    method GetMinimum(start: Node) returns (x: Node)
      requires Shape() && start in nodes
      ensures x in nodes && x in start.sub && x.left == nil
      ensures forall m {:trigger m.key} :: m in start.sub ==> x.key <= m.key
    {
      x := start;
      assert Sub(x);
      while x.left != nil
        invariant x in nodes && x in start.sub
        invariant forall m {:trigger m.key} :: m in start.sub ==> m in x.sub || x.key <= m.key
        decreases x.sub
      {
        assert Sub(x) && Ordered(x) && Sub(x.left);
        Nested(start, x);
        assert x.left.key <= x.key;
        x := x.left;
      }
      assert Sub(x) && Ordered(x);
    }

    // y left the tree and its only child x took its place under p.
    twostate predicate Cut(y: Node, x: Node, p: Node)
      reads this`nodes, root, nil, nodes, x, p
    {
      && y in old(nodes) && nodes == old(nodes) - {y} && p == old(y.parent)
      && old(y.left == nil || y.right == nil) && x == old(if y.left == nil then y.right else y.left)
      && p.left == (if old(p.left) == y then x else old(p.left))
      && p.right == (if old(p.left) == y then old(p.right) else x)
      && x.parent == p
      && (p != root ==> root.left == old(root.left) && root.right == old(root.right))
      && nil.left == old(nil.left) && nil.right == old(nil.right) && nil.sub == old(nil.sub)
      && nil.maxHigh == old(nil.maxHigh)
      && (forall n {:trigger n.sub} :: n in nodes ==> n.sub == old(n.sub) - {y})
      && (forall n {:trigger n.left} :: n in nodes && n != p ==> n.left == old(n.left))
      && (forall n {:trigger n.right} :: n in nodes && n != p ==> n.right == old(n.right))
      && (forall n {:trigger n.parent} :: n in nodes && n != x ==> n.parent == old(n.parent))
      && (forall n {:trigger n.maxHigh} :: n in nodes ==> n.maxHigh == old(n.maxHigh))
      && (forall n {:trigger n.red} :: n in nodes ==> n.red == old(n.red))
      && (forall n {:trigger n.bh} :: n in nodes ==> n.bh == old(n.bh))
      && nil.red == old(nil.red) && nil.bh == old(nil.bh) && root.red == old(root.red)
    }

    twostate lemma CutLinks(new y: Node, new x: Node, new p: Node)
      requires old(Structure()) && y in old(nodes) && x in old(nodes) + {nil} && p in old(nodes) + {root} && Cut(y, x, p)
      ensures Sentinels() && AllLinked()
    {
      assert old(Down(y) && Up(y) && Sub(y));
      if p != root { assert old(Down(p) && Sub(p)); }
      forall n | n in nodes ensures Down(n) {
        assert old(Down(n));
      }
      forall n | n in nodes ensures Up(n) {
        assert old(Up(n));
      }
    }

    twostate lemma CutSub(new y: Node, new x: Node, new p: Node)
      requires old(Structure() && Inside()) && y in old(nodes) && x in old(nodes) + {nil} && p in old(nodes) + {root} && Cut(y, x, p)
      ensures AllSub()
    {
      assert old(Down(y) && Up(y) && Sub(y));
      if p != root { assert old(Down(p)); }
      forall n | n in nodes ensures Sub(n) {
        assert old(Sub(n) && Down(n));
      }
    }

    twostate lemma CutOrdered(new y: Node, new x: Node, new p: Node)
      requires old(Structure()) && y in old(nodes) && x in old(nodes) + {nil} && p in old(nodes) + {root} && Cut(y, x, p)
      ensures AllOrdered()
    {
      assert old(Down(y) && Up(y) && Sub(y));
      if p != root { assert old(Down(p)); }
      forall n | n in nodes ensures Ordered(n) {
        assert old(Ordered(n) && Down(n));
      }
    }

    twostate lemma CutMaxed(new y: Node, new x: Node, new p: Node)
      requires old(Structure()) && y in old(nodes) && x in old(nodes) + {nil} && p in old(nodes) + {root} && Cut(y, x, p)
      requires Sentinels() && AllSub()
      ensures forall n {:trigger Maxed(n)} :: n in nodes ==> Maxed(n) || p in n.sub
    {
      forall n | n in nodes ensures Maxed(n) || p in n.sub {
        assert old(Maxed(n) && Down(n)) && Sub(n);
      }
    }

    twostate lemma CutColours(new y: Node, new x: Node, new p: Node, new s: Side)
      requires old(Structure() && Balanced()) && y in old(nodes) && x in old(nodes) + {nil} && p in old(nodes) + {root} && Cut(y, x, p)
      requires s == (if old(p.left) == y then Left else Right)
      ensures !old(y.red) ==> Coloured(x, p, s) && (root.left.red ==> root.left == x)
      ensures old(y.red) ==> Balanced() && p != root
    {
      assert old(Down(y) && Up(y) && Sub(y) && BlackOk(y) && RedOk(y, root));
      if p != root { assert old(Down(p) && BlackOk(p)); }
      forall n | n in nodes ensures RedOk(n, x) {
        assert old(RedOk(n, root) && Down(n));
      }
      forall n | n in nodes && n != p ensures BlackOk(n) {
        assert old(BlackOk(n) && Down(n));
      }
      if old(y.red) {
        forall n | n in nodes ensures RedOk(n, root) {
          assert old(RedOk(n, root) && Down(n));
        }
      }
    }

    twostate lemma CutTree(new y: Node, new x: Node, new p: Node, new s: Side)
      requires old(Structure() && Balanced() && Inside()) && y in old(nodes) && x in old(nodes) + {nil} && p in old(nodes) + {root}
      requires Cut(y, x, p) && s == (if old(p.left) == y then Left else Right)
      ensures Shape()
      ensures forall n {:trigger Maxed(n)} :: n in nodes ==> Maxed(n) || p in n.sub
      ensures !old(y.red) ==> Coloured(x, p, s) && (root.left.red ==> root.left == x)
      ensures old(y.red) ==> Balanced() && p != root
    {
      CutLinks(y, x, p);
      CutSub(y, x, p);
      CutOrdered(y, x, p);
      CutMaxed(y, x, p);
      CutColours(y, x, p, s);
    }

    // Hangs the only child x of y under the parent of y.
    method Bypass(y: Node) returns (x: Node)
      requires Structure() && y in nodes && (y.left == nil || y.right == nil)
      requires y.parent != y.left && y.parent != y.right && y.parent != y && y.parent != nil && y.left != y && y.right != y
      modifies y.left`parent, y.right`parent, y.parent`left, y.parent`right
      ensures x == old(if y.left == nil then y.right else y.left) && x.parent == y.parent
      ensures y.left == old(y.left) && y.right == old(y.right) && y.parent == old(y.parent)
      ensures y.parent.left == (if old(y.parent.left) == y then x else old(y.parent.left))
      ensures y.parent.right == (if old(y.parent.left) == y then old(y.parent.right) else x)
      ensures x != nil ==> nil.parent == old(nil.parent)
      ensures x == y.left ==> x == y.right || y.right.parent == old(y.right.parent)
      ensures x == y.right ==> x == y.left || y.left.parent == old(y.left.parent)
    {
      assert Up(y);
      x := if y.left == nil then y.right else y.left;
      x.parent := y.parent;
      if root == x.parent {
        root.left := x;
      } else {
        if y == y.parent.left {
          y.parent.left := x;
        } else {
          y.parent.right := x;
        }
      }
    }

    // Takes y, which has at most one child x, out of the tree.
    method SpliceOut(y: Node) returns (x: Node)
      requires Structure() && y in nodes && (y.left == nil || y.right == nil)
      modifies this`nodes, nodes`sub, y.left`parent, y.right`parent, y.parent`left, y.parent`right
      ensures x == old(if y.left == nil then y.right else y.left)
      ensures Cut(y, x, old(y.parent)) && y.parent == old(y.parent)
      ensures y.left == old(y.left) && y.right == old(y.right) && nil.parent == (if x == nil then y.parent else old(nil.parent))
    {
      assert Down(y) && Up(y) && Sub(y);
      if y.parent != root { assert Down(y.parent) && Sub(y.parent); }
      if y.left != nil { assert Sub(y.left); }
      if y.right != nil { assert Sub(y.right); }
      x := Bypass(y);
      forall n | n in nodes {
        n.sub := n.sub - {y};
      }
      nodes := nodes - {y};
    }

    // y took over the place of z, under t.
    twostate predicate Replaced(z: Node, y: Node, t: Node)
      reads this`nodes, root, nil, nodes, t
    {
      && z in old(nodes) && y !in old(nodes) && y != root && y != nil && nodes == old(nodes) - {z} + {y}
      && t == old(z.parent) && y.parent == t && y.left == old(z.left) && y.right == old(z.right)
      && t.left == (if old(t.left) == z then y else old(t.left))
      && t.right == (if old(t.left) == z then old(t.right) else y)
      && y.sub == old(z.sub) - {z} + {y}
      && (t != root ==> root.left == old(root.left) && root.right == old(root.right))
      && nil.left == old(nil.left) && nil.right == old(nil.right) && nil.sub == old(nil.sub)
      && nil.maxHigh == old(nil.maxHigh)
      && (forall n {:trigger n.sub} :: n in nodes && n != y ==> n.sub == old(if z in n.sub then n.sub - {z} + {y} else n.sub))
      && (forall n {:trigger n.left} :: n in nodes && n != y && n != t ==> n.left == old(n.left))
      && (forall n {:trigger n.right} :: n in nodes && n != y && n != t ==> n.right == old(n.right))
      && (forall n {:trigger n.parent} :: n in nodes && n != y && n != y.left && n != y.right ==> n.parent == old(n.parent))
      && (y.left in nodes ==> y.left.parent == y) && (y.right in nodes ==> y.right.parent == y)
    }

    twostate lemma ReplacedLinks(new z: Node, new y: Node, new t: Node)
      requires old(Shape()) && z in old(nodes) && old(allocated(y)) && t in old(nodes) + {root} && Replaced(z, y, t)
      ensures Sentinels() && AllLinked()
    {
      assert old(Down(z) && Up(z) && Sub(z));
      if t != root { assert old(Down(t) && Sub(t)); }
      forall n | n in nodes ensures Down(n) {
        if n != y { assert old(Down(n)); }
      }
      forall n | n in nodes ensures Up(n) {
        if n != y { assert old(Up(n)); }
      }
    }

    twostate lemma ReplacedSubAbove(new z: Node, new y: Node, new t: Node, new n: Node)
      requires old(Shape() && Inside()) && z in old(nodes) && old(allocated(y)) && t in old(nodes) + {root} && Replaced(z, y, t)
      requires n in old(nodes) && n != z && z in old(n.sub)
      ensures Sub(n)
    {
      assert old(Down(z) && Up(z) && Sub(z) && Sub(n) && Down(n));
      assert n.sub == old(n.sub) - {z} + {y};
    }

    twostate lemma ReplacedSub(new z: Node, new y: Node, new t: Node)
      requires old(Shape() && Inside()) && z in old(nodes) && old(allocated(y)) && t in old(nodes) + {root} && Replaced(z, y, t)
      ensures AllSub()
    {
      assert old(Down(z) && Up(z) && Sub(z));
      if t != root { assert old(Down(t) && Sub(t)); }
      assert Sub(y);
      forall n | n in nodes ensures Sub(n) {
        if n != y {
          assert old(Sub(n) && Down(n));
          if z in old(n.sub) { ReplacedSubAbove(z, y, t, n); }
        }
      }
    }

    // The key of y fits where z is.
    ghost predicate FitsFor(z: Node, y: Node)
      reads this`nodes, z, nil, nodes
    {
      && (z.left == nil || z.left in nodes) && (z.right == nil || z.right in nodes)
      && (forall n {:trigger Fits(y, z, n)} :: n in nodes ==> Fits(y, z, n))
      && (forall m {:trigger m.key} :: m in z.left.sub ==> m.key <= y.key)
      && (forall m {:trigger m.key} :: m in z.right.sub ==> y.key <= m.key)
    }

    twostate lemma ReplacedOrdered(new z: Node, new y: Node, new t: Node)
      requires old(Shape()) && z in old(nodes) && old(allocated(y)) && t in old(nodes) + {root} && Replaced(z, y, t)
      requires old(FitsFor(z, y))
      ensures AllOrdered()
    {
      assert old(Down(z) && Up(z) && Sub(z));
      if t != root { assert old(Down(t)); }
      forall n | n in nodes ensures Ordered(n) {
        if n != y { assert old(Ordered(n) && Down(n) && Fits(y, z, n)); }
      }
    }

    twostate lemma ReplacedMaxed(new z: Node, new y: Node, new t: Node, new p: Node)
      requires old(Shape()) && z in old(nodes) && old(allocated(y)) && t in old(nodes) + {root} && Replaced(z, y, t)
      requires old(forall n {:trigger Maxed(n)} :: n in nodes ==> Maxed(n) || p in n.sub)
      requires p in old(nodes) && p in old(z.sub)
      requires old(forall n {:trigger n.sub} :: n in nodes && z in n.sub ==> z.sub <= n.sub)
      requires forall n {:trigger n.maxHigh} :: n in nodes && n != y ==> n.maxHigh == old(n.maxHigh)
      requires Sentinels() && AllSub()
      ensures forall n {:trigger Maxed(n)} :: n in nodes ==> Maxed(n) || (if p == z then y else p) in n.sub
    {
      forall n | n in nodes ensures Maxed(n) || (if p == z then y else p) in n.sub {
        if n != y { assert old(Maxed(n) || p in n.sub) && old(Down(n)) && Sub(n); }
      }
    }

    twostate lemma ReplacedRed(new z: Node, new y: Node, new t: Node, new x: Node, new p: Node, new s: Side)
      requires old(Shape()) && z in old(nodes) && old(allocated(y)) && t in old(nodes) + {root} && Replaced(z, y, t)
      requires {x, p} <= old(nodes) + {root, nil}
      requires old(Coloured(x, p, s)) && x != z && x != y
      requires y.red == old(z.red) && y.bh == old(z.bh)
      requires forall n {:trigger n.red} :: n in nodes && n != y ==> n.red == old(n.red)
      requires forall n {:trigger n.bh} :: n in nodes && n != y ==> n.bh == old(n.bh)
      requires nil.red == old(nil.red) && nil.bh == old(nil.bh) && root.red == old(root.red)
      ensures forall n {:trigger RedOk(n, x)} :: n in nodes ==> RedOk(n, x)
    {
      assert old(RedOk(z, x) && Down(z) && Up(z) && Sub(z));
      forall n | n in nodes ensures RedOk(n, x) {
        if n != y { assert old(RedOk(n, x) && Down(n)); }
      }
    }

    twostate lemma ReplacedBlack(new z: Node, new y: Node, new t: Node, new x: Node, new p: Node, new s: Side)
      requires old(Shape()) && z in old(nodes) && old(allocated(y)) && t in old(nodes) + {root} && Replaced(z, y, t)
      requires {x, p} <= old(nodes) + {root, nil}
      requires old(Coloured(x, p, s)) && x != z && x != y
      requires y.red == old(z.red) && y.bh == old(z.bh)
      requires forall n {:trigger n.red} :: n in nodes && n != y ==> n.red == old(n.red)
      requires forall n {:trigger n.bh} :: n in nodes && n != y ==> n.bh == old(n.bh)
      requires nil.red == old(nil.red) && nil.bh == old(nil.bh) && root.red == old(root.red)
      ensures forall n {:trigger BlackOk(n)} :: n in nodes && n != (if p == z then y else p) ==> BlackOk(n)
    {
      assert old(Down(z) && Up(z) && Sub(z));
      if p != z { assert old(BlackOk(z)); }
      forall n | n in nodes && n != (if p == z then y else p) ensures BlackOk(n) {
        if n != y { assert old(BlackOk(n) && Down(n)); }
      }
    }

    twostate lemma ReplacedColours(new z: Node, new y: Node, new t: Node, new x: Node, new p: Node, new s: Side)
      requires old(Shape()) && z in old(nodes) && old(allocated(y)) && t in old(nodes) + {root} && Replaced(z, y, t)
      requires {x, p} <= old(nodes) + {root, nil}
      requires old(Coloured(x, p, s)) && x != z && x != y
      requires y.red == old(z.red) && y.bh == old(z.bh)
      requires forall n {:trigger n.red} :: n in nodes && n != y ==> n.red == old(n.red)
      requires forall n {:trigger n.bh} :: n in nodes && n != y ==> n.bh == old(n.bh)
      requires nil.red == old(nil.red) && nil.bh == old(nil.bh) && root.red == old(root.red)
      ensures Coloured(x, if p == z then y else p, s)
    {
      ReplacedRed(z, y, t, x, p, s);
      ReplacedBlack(z, y, t, x, p, s);
      assert old(Down(z) && Up(z) && Sub(z));
      if p in old(nodes) { assert old(Down(p)); }
    }

    // Puts y, which is out of the tree, where z is.
    method Replace(z: Node, y: Node)
      requires Shape() && z in nodes && y !in nodes && y != root && y != nil
      modifies this`nodes, nodes`sub, y`left, y`right, y`parent, y`sub, y`maxHigh
      modifies z.left`parent, z.right`parent, z.parent`left, z.parent`right
      ensures Replaced(z, y, old(z.parent))
      ensures z.left == old(z.left) && z.right == old(z.right)
      ensures nil.parent == (if z.left == nil || z.right == nil then y else old(nil.parent))
    {
      assert Down(z) && Up(z) && Sub(z);
      if z.parent != root { assert Down(z.parent) && Sub(z.parent); }
      if z.left != nil { assert Sub(z.left); }
      if z.right != nil { assert Sub(z.right); }
      TakePlace(z, y);
      Recount(z, y);
    }

    // The node sets once y stands for z.
    ghost method Recount(z: Node, y: Node)
      requires z in nodes && y !in nodes
      modifies this`nodes, nodes`sub, y`sub
      ensures nodes == old(nodes) - {z} + {y} && y.sub == old(z.sub) - {z} + {y}
      ensures forall n {:trigger n.sub} :: n in nodes && n != y ==>
        n.sub == old(if z in n.sub then n.sub - {z} + {y} else n.sub)
    {
      y.sub := z.sub - {z} + {y};
      nodes := nodes - {z};
      forall n | n in nodes && z in n.sub {
        n.sub := n.sub - {z} + {y};
      }
      nodes := nodes + {y};
    }

    // The link changes of Replace.
    method TakePlace(z: Node, y: Node)
      requires y != z.parent && y != z.left && y != z.right && z != y
      requires z.parent != z.left && z.parent != z.right && z.left != z && z.right != z && z.parent != z
      modifies y`left, y`right, y`parent, y`maxHigh
      modifies z.left`parent, z.right`parent, z.parent`left, z.parent`right
      ensures y.left == z.left && y.right == z.right && y.parent == z.parent
      ensures z.left == old(z.left) && z.right == old(z.right) && z.parent == old(z.parent)
      ensures z.left.parent == y && z.right.parent == y
      ensures z.parent.left == (if old(z.parent.left) == z then y else old(z.parent.left))
      ensures z.parent.right == (if old(z.parent.left) == z then old(z.parent.right) else y)
    {
      y.maxHigh := -MAX_TIME;
      y.left := z.left;
      y.right := z.right;
      y.parent := z.parent;
      z.right.parent := y;
      z.left.parent := y;
      if z == z.parent.left {
        z.parent.left := y;
      } else {
        z.parent.right := y;
      }
    }

    // The in-order successor; the fake root if x holds the last interval.
    method GetSuccessor(start: Node) returns (y: Node)
      requires Shape() && start in nodes
      ensures start.right != nil ==>
        y in nodes && y in start.right.sub && y.left == nil && forall m {:trigger m.key} :: m in start.right.sub ==> y.key <= m.key
      ensures start.right == nil && y == root ==> forall m {:trigger m.key} :: m in nodes ==> m.key <= start.key
      ensures start.right == nil && y != root ==>
        y in nodes && start in y.left.sub && forall m {:trigger m.key} :: m in y.left.sub ==> m.key <= start.key
    {
      if nil != start.right {
        assert Down(start);
        y := GetMinimum(start.right);
      } else {
        var x := start;
        y := x.parent;
        assert Up(x) && Sub(x) && Ordered(x);
        while y != nil && x == y.right
          invariant x in nodes && (y == root || y in nodes) && y == x.parent && (x == y.left || x == y.right)
          invariant start in x.sub && forall m {:trigger m.key} :: m in x.sub ==> m.key <= start.key
          decreases nodes - x.sub
        {
          assert Up(x) && Sub(y) && Sub(x) && Ordered(y);
          assert y.key <= start.key;
          SubUp(y, x);
          assert Up(y);
          x := y;
          y := y.parent;
        }
      }
    }

    // Deletes a node with a missing child; x is what replaces it, and its side
    // is short if the node was black.
    method Detach(y: Node) returns (x: Node, ghost s: Side)
      requires Structure() && Balanced() && y in nodes && (y.left == nil || y.right == nil)
      modifies this`nodes, nodes`sub, y.left`parent, y.right`parent, y.parent`left, y.parent`right
      ensures x in old(nodes) + {nil} && Cut(y, x, old(y.parent)) && Shape() && x.parent == old(y.parent) == y.parent
      ensures forall n {:trigger Maxed(n)} :: n in nodes ==> Maxed(n) || x.parent in n.sub
      ensures (x in nodes || x == nil) && (x.parent in nodes || x.parent == root)
      ensures if x.parent == root then root.left == x && s.Left? else x.parent.Kid(s) == x
      ensures !y.red ==> Coloured(x, x.parent, s) && (root.left.red ==> root.left == x)
      ensures y.red ==> Balanced() && x.parent in nodes
    {
      AllUp();
      assert Down(y) && Up(y) && Sub(y);
      if y.left != nil { assert Sub(y.left); }
      if y.right != nil { assert Sub(y.right); }
      ghost var p := y.parent;
      s := if p.left == y then Left else Right;
      x := SpliceOut(y);
      CutTree(y, x, p, s);
    }

    // z was stored and has two children; y, the smallest node right of it, has
    // left the tree, and x, its child, hangs under p on side s.
    twostate predicate Freed(z: Node, y: Node, x: Node, p: Node)
      reads this`nodes, root, nil, nodes, x, p
    {
      && old(Structure()) && z in old(nodes) && z != y && y in old(nodes) && Cut(y, x, p) && Shape()
      && old(z.left in nodes && z.right in nodes && y in z.right.sub && y.left == nil)
      && old(forall m {:trigger m.key} :: m in z.right.sub ==> y.key <= m.key)
      && old(forall n, m {:trigger m in n.sub} :: n in nodes && m in n.sub ==>
          m in nodes && m.sub <= n.sub && (m != n ==> m.parent in n.sub))
    }

    twostate lemma FreedFits(new z: Node, new y: Node, new x: Node, new p: Node)
      requires {z, y} <= old(nodes) && x in old(nodes) + {nil} && p in old(nodes) + {root} && Freed(z, y, x, p)
      ensures FitsFor(z, y)
      ensures p in nodes && p in z.sub
      ensures x != z && (p == z ==> x == z.right) && (p != z ==> z.right in nodes) && z.left in nodes
    {
      assert old(Sub(z) && Ordered(z) && Down(z) && Sub(y) && Down(y) && Up(y));
      assert old(y in z.sub && y.sub <= z.right.sub);
      assert p == old(y.parent);
      forall n | n in nodes ensures Fits(y, z, n) {
        assert Sub(n) && old(Sub(n) && Ordered(n) && Down(n));
      }
    }

    lemma AllNested()
      requires Shape()
      ensures Inside()
      ensures forall n, m {:trigger m in n.sub} :: n in nodes && m in n.sub ==>
          m in nodes && m.sub <= n.sub && (m != n ==> m.parent in n.sub)
    {
      AllUp();
      forall n, m | n in nodes && m in n.sub
        ensures m in nodes && m.sub <= n.sub && (m != n ==> m.parent in n.sub)
      {
        Nested(n, m);
      }
    }

    // Puts the detached y in the place of z.
    method Reseat(z: Node, y: Node, ghost x: Node, ghost p: Node)
      requires Shape() && z in nodes && y !in nodes && y != root && y != nil && FitsFor(z, y)
      requires forall n {:trigger Maxed(n)} :: n in nodes ==> Maxed(n) || p in n.sub
      requires p in nodes && p in z.sub && x.parent == p && z.left in nodes && (x in nodes || x == nil)
      requires if p == z then x == z.right else z.right in nodes && x != z.left && x != z.right
      modifies this`nodes, nodes`sub, y`left, y`right, y`parent, y`sub, y`maxHigh
      modifies z.left`parent, z.right`parent, z.parent`left, z.parent`right
      ensures Shape() && z.parent == old(z.parent) && z.parent in old(nodes) + {root}
      ensures Replaced(z, y, z.parent)
      ensures x.parent == if p == z then y else p
      ensures forall n {:trigger Maxed(n)} :: n in nodes ==> Maxed(n) || x.parent in n.sub
    {
      AllNested();
      assert Up(z) && Down(z) && Sub(z) && z.parent != z;
      ghost var t := z.parent;
      Replace(z, y);
      ReplacedLinks(z, y, t);
      ReplacedSub(z, y, t);
      ReplacedOrdered(z, y, t);
      ReplacedMaxed(z, y, t, p);
    }

    // Replaces z, which has two children, by the detached y and repairs
    // maxHigh and the colour of y.
    method Substitute(z: Node, y: Node, x: Node, ghost p: Node, ghost s: Side)
      requires Shape() && z in nodes && y !in nodes && y != root && y != nil && FitsFor(z, y)
      requires forall n {:trigger Maxed(n)} :: n in nodes ==> Maxed(n) || p in n.sub
      requires p in nodes && p in z.sub && x.parent == p && z.left in nodes && (x in nodes || x == nil)
      requires if p == z then x == z.right else z.right in nodes && x != z.left && x != z.right
      requires p.Kid(s) == x
      modifies this`nodes, nodes`sub, nodes`left, nodes`right, nodes`parent, nodes`maxHigh, nil`parent
      modifies y`left, y`right, y`parent, y`sub, y`maxHigh, root`left, root`right
      ensures Structure() && z.parent == old(z.parent) && z.parent in old(nodes) + {root}
      ensures Replaced(z, y, z.parent)
      ensures x.parent == (if p == z then y else p) && x.parent in nodes && x.parent.Kid(s) == x
    {
      assert Down(z) && Sub(z) && Up(z) && Sub(p);
      Reseat(z, y, x, p);
      label reseated:
      FixupMaxHigh(x.parent);
    }

    // Takes the successor y of z out; x replaces it.
    method PullSuccessor(z: Node) returns (y: Node, x: Node, ghost s: Side)
      requires Structure() && Balanced() && z in nodes && z.left != nil && z.right != nil
      modifies this`nodes, nodes`sub, nodes`parent, nodes`left, nodes`right, nil`parent
      ensures y in old(nodes) && y != z && nodes == old(nodes) - {y}
      ensures Shape() && FitsFor(z, y) && x.parent in nodes && x.parent in z.sub && x.parent.Kid(s) == x
      ensures forall n {:trigger Maxed(n)} :: n in nodes ==> Maxed(n) || x.parent in n.sub
      ensures z.left in nodes && (x in nodes || x == nil) && x != z
      ensures if x.parent == z then x == z.right else z.right in nodes && x != z.left && x != z.right
      ensures !y.red ==> Coloured(x, x.parent, s)
      ensures y.red ==> Coloured(root, root, s)
      ensures root.left in nodes && !root.left.red
    {
      AllNested();
      assert Down(z) && Sub(z) && Up(z);
      y := GetSuccessor(z);
      assert Sub(y) && Down(y);
      label before:
      x, s := Detach(y);
      FreedFits@before(z, y, x, x.parent);
      assert Down(z) && Sub(z) && Down(x.parent) && Sub(x.parent);
    }

    method Inherit(z: Node, y: Node)
      modifies y`red, y`bh
      ensures y.red == old(z.red) && y.bh == old(z.bh)
    {
      y.red := z.red;
      y.bh := z.bh;
    }

    // Puts y in the place of z and gives it the colour of z.
    method TakeOver(z: Node, y: Node, x: Node, ghost s: Side)
      requires Shape() && z in nodes && y !in nodes && y != root && y != nil && FitsFor(z, y)
      requires x.parent in nodes && x.parent in z.sub && x.parent.Kid(s) == x
      requires forall n {:trigger Maxed(n)} :: n in nodes ==> Maxed(n) || x.parent in n.sub
      requires z.left in nodes && (x in nodes || x == nil) && x != z
      requires if x.parent == z then x == z.right else z.right in nodes && x != z.left && x != z.right
      requires if y.red then Coloured(root, root, s) else Coloured(x, x.parent, s)
      requires root.left in nodes && !root.left.red
      modifies this`nodes, root`left, root`right, nil`parent, y`left, y`right, y`parent, y`sub, y`maxHigh, y`red, y`bh
      modifies nodes`left, nodes`right, nodes`parent, nodes`maxHigh, nodes`sub
      ensures nodes == old(nodes) - {z} + {y}
      ensures !old(y.red) ==> Sinking(x, s)
      ensures old(y.red) ==> Structure() && Balanced()
    {
      ghost var p := x.parent;
      ghost var red := y.red;
      assert Sub(z) && Down(z) && Up(z);
      Substitute(z, y, x, p, s);
      label seated:
      Inherit(z, y);
      PaintedStructure@seated();
      ReplacedColours(z, y, z.parent, if red then root else x, if red then root else p, s);
    }

    // The part of deleteNode that concerns the tree.
    method Remove(z: Node)
      requires Structure() && Balanced() && z in nodes
      modifies this`nodes, root`left, root`right, nil`parent, nil`red, nil`bh
      modifies nodes`left, nodes`right, nodes`parent, nodes`maxHigh, nodes`sub, nodes`red, nodes`bh
      ensures Structure() && Balanced() && nodes == old(nodes) - {z}
    {
      assert Down(z) && Up(z);
      if z.left == nil || z.right == nil {
        var x, s := Detach(z);
        FixupMaxHigh(x.parent);
        if !z.red {
          DeleteFixup(x, s);
        }
      } else {
        RemoveInner(z);
      }
    }

    // The node to remove has two children.
    method RemoveInner(z: Node)
      requires Structure() && Balanced() && z in nodes && z.left != nil && z.right != nil
      modifies this`nodes, root`left, root`right, nil`parent, nil`red, nil`bh
      modifies nodes`left, nodes`right, nodes`parent, nodes`maxHigh, nodes`sub, nodes`red, nodes`bh
      ensures Structure() && Balanced() && nodes == old(nodes) - {z}
    {
      var y, x, s := PullSuccessor(z);
      var red := y.red;
      TakeOver(z, y, x, s);
      if !red {
        DeleteFixup(x, s);
      }
    }

    // Deletes the stored node z.
    method DeleteNode(z: Node) returns (nodeToDelete: Interval?)
      requires Valid() && z in nodes
      modifies this`nodes, root`left, root`right, nil`parent, nil`red, nil`bh
      modifies nodes`left, nodes`right, nodes`parent, nodes`maxHigh, nodes`sub, nodes`red, nodes`bh
      ensures Valid() && nodes == old(nodes) - {z}
      ensures nodeToDelete == z.storedInterval
    {
      nodeToDelete := z.storedInterval;
      Remove(z);
    }

    // The first node in preorder that stores ivl, or nil.
    function RecursiveSearch(node: Node, ivl: Interval): (r: Node)
      requires Shape() && (node in nodes || node == nil || node == root)
      reads this`nodes, root, nil, nodes
      ensures r == nil || (r in nodes && r.storedInterval == ivl)
      ensures node != root ==> r == nil || r in node.sub
      ensures r == nil ==> forall m {:trigger m.storedInterval} ::
        m in (if node == root then nodes else node.sub) ==> m.storedInterval != ivl
      decreases node == root, if node == root then {} else node.sub
    {
      if node != nil then
        assert node != root ==> Sub(node);
        if node.storedInterval == ivl then node
        else
          var left := RecursiveSearch(node.left, ivl);
          if left != nil then left
          else RecursiveSearch(node.right, ivl)
      else nil
    }

    // Deletes one node storing ivl, if there is one.
    method DeleteInterval(ivl: Interval)
      requires Valid()
      modifies this`nodes, root`left, root`right, nil`parent, nil`red, nil`bh
      modifies nodes`left, nodes`right, nodes`parent, nodes`maxHigh, nodes`sub, nodes`red, nodes`bh
      ensures Valid()
      ensures (forall n :: n in old(nodes) ==> n.storedInterval != ivl) ==> nodes == old(nodes)
      ensures (exists n :: n in old(nodes) && n.storedInterval == ivl) ==>
        exists n :: n in old(nodes) && n.storedInterval == ivl && nodes == old(nodes) - {n}
    {
      var node := RecursiveSearch(root, ivl);
      if node != nil {
        var _ := DeleteNode(node);
      }
    }

    // ---------- queries ----------

    lemma {:induction false} MaxBound(n: Node, m: Node)
      requires Structure() && n in nodes && m in n.sub
      ensures m.high <= n.maxHigh
      decreases n.sub
    {
      assert Sub(n) && Maxed(n);
      if m in n.left.sub {
        MaxBound(n.left, m);
      } else if m in n.right.sub {
        MaxBound(n.right, m);
      }
    }

    lemma {:induction false} MaxWitness(n: Node) returns (m: Node)
      requires Structure() && n in nodes && n.maxHigh > -MAX_TIME
      ensures m in n.sub && m.high == n.maxHigh
      decreases n.sub
    {
      assert Sub(n) && Maxed(n);
      m := n;
      if n.high < n.maxHigh {
        if n.left.maxHigh == n.maxHigh {
          m := MaxWitness(n.left);
        } else {
          m := MaxWitness(n.right);
        }
      }
    }

    // Every stored interval runs forwards.
    ghost predicate Forward()
      reads this`nodes
    {
      forall n {:trigger n.key} {:trigger n.high} :: n in nodes ==> n.key <= n.high
    }

    // Nothing overlaps in a subtree that ends before low.
    lemma PruneLeft(n: Node, low: Time, high: Time)
      requires Structure() && Forward() && (n in nodes || n == nil) && n.maxHigh < low
      ensures forall m {:trigger Hit(m, low, high)} :: m in n.sub ==> !Hit(m, low, high)
    {
      if n in nodes {
        AllNested();
        forall m | m in n.sub ensures !Hit(m, low, high) {
          MaxBound(n, m);
        }
      }
    }

    // If the left subtree reaches low without a hit, there is none on the right either.
    lemma PruneRight(n: Node, low: Time, high: Time)
      requires Structure() && Forward() && n in nodes && -MAX_TIME < low <= n.left.maxHigh
      requires forall m {:trigger Hit(m, low, high)} :: m in n.left.sub ==> !Hit(m, low, high)
      ensures forall m {:trigger Hit(m, low, high)} :: m in n.right.sub ==> !Hit(m, low, high)
      ensures !Hit(n, low, high)
    {
      AllNested();
      assert Sub(n) && Ordered(n);
      var w := MaxWitness(n.left);
      assert !Hit(w, low, high) && w.key <= n.key;
    }

    // A search that starts at the sentinel bound or before takes every missing child for one that
    // reaches it. It then looks left in vain, and misses a right child that has no sibling.
    ghost predicate Overlooked(m: Node, low: Time)
      reads this`nodes, nodes`parent, nodes`left, root`left
    {
      low <= -MAX_TIME && m in nodes && (m.parent == root || m.parent in nodes) && m.parent.left == nil
    }

    // In a balanced tree a right child without a sibling has no children.
    lemma LoneRight(n: Node)
      requires Structure() && Balanced() && n in nodes && n.left == nil
      ensures forall m {:trigger m in n.right.sub} :: m in n.right.sub ==> m in nodes && m.parent == n
      ensures n.right == nil || (n.right.left == nil && n.right.right == nil)
    {
      assert Sub(n) && Down(n) && BlackOk(n);
      var r := n.right;
      if r != nil {
        assert Sub(r) && Down(r) && BlackOk(r) && RedOk(r, root);
        assert r.left != nil ==> BlackOk(r.left);
        assert r.right != nil ==> BlackOk(r.right);
      }
    }

    // The least node of a subtree is at its left end.
    lemma {:induction false} LeftEnd(n: Node) returns (w: Node)
      requires Shape() && n in nodes
      ensures w in n.sub && w in nodes && (w == n || (w.parent in nodes && w.parent.left == w))
      ensures forall m {:trigger m.key} :: m in n.sub ==> w.key <= m.key
      decreases n.sub
    {
      assert Sub(n) && Ordered(n) && Down(n);
      w := n;
      if n.left != nil {
        w := LeftEnd(n.left);
        assert w.key <= n.key;
      }
    }

    // From the sentinel bound on, too, a left subtree without a hit means that there is none.
    lemma PruneRightLow(n: Node, low: Time, high: Time)
      requires Structure() && Forward() && n in nodes && n.left != nil && low <= -MAX_TIME
      requires forall m {:trigger Hit(m, low, high)} :: m in n.left.sub && Hit(m, low, high) ==> Overlooked(m, low)
      ensures forall m {:trigger Hit(m, low, high)} :: m in n.right.sub ==> !Hit(m, low, high)
    {
      AllNested();
      assert Sub(n) && Ordered(n) && Down(n);
      var w := LeftEnd(n.left);
      assert !Overlooked(w, low) && !Hit(w, low, high);
      assert w.key <= n.key;
    }

    // The tree at n as a value.
    ghost function TreeAt(n: Node): (t: Tree)
      requires Structure() && (n in nodes || n == nil)
      reads this`nodes, root, nil, nodes
      ensures if n == nil then t == Leaf else t.Bin? && t.node == n
      ensures t.Reach() == n.maxHigh
      decreases n.sub
    {
      if n == nil then Leaf
      else
        assert Sub(n);
        Bin(n, n.maxHigh, TreeAt(n.left), TreeAt(n.right))
    }

    // The tree t hangs at n.
    ghost predicate Shows(n: Node, t: Tree)
      reads this`nodes, nodes`left, nodes`right, nodes`maxHigh
      decreases t
    {
      match t
      case Leaf => n == nil
      case Bin(m, maxHigh, left, right) =>
        n == m && n in nodes && n.maxHigh == maxHigh && Shows(n.left, left) && Shows(n.right, right)
    }

    lemma {:induction false} TreeShows(n: Node)
      requires Structure() && (n in nodes || n == nil)
      ensures Shows(n, TreeAt(n))
      decreases n.sub
    {
      if n != nil {
        assert Sub(n);
        TreeShows(n.left);
        TreeShows(n.right);
      }
    }

    // The stack of query is the one of the search.
    ghost predicate Mirrors(stack: seq<Pending>)
      reads this`nodes, this`recursionStack, this`recursionStackTop, nodes`left, nodes`right, nodes`maxHigh
    {
      && |stack| == recursionStackTop && 0 < recursionStackTop <= |recursionStack|
      && forall i {:trigger recursionStack[i]} :: 1 <= i < recursionStackTop ==> Mirrored(recursionStack[i], i, stack[i])
    }

    ghost predicate Mirrored(e: Entry, i: nat, p: Pending)
      reads this`nodes, nodes`left, nodes`right, nodes`maxHigh
    {
      && e.startNode in nodes && e.parentIndex == i - 1
      && e.tryRightBranch == p.hit && Shows(e.startNode.right, p.right)
    }

    // A search of the tree all stands at the node x, below which there is t.
    ghost predicate At(x: Node, all: Tree, stack: seq<Pending>, t: Tree, hits: seq<Node>, low: Time, high: Time)
      reads this`nodes, this`recursionStack, this`recursionStackTop, nodes`left, nodes`right, nodes`maxHigh, nil`maxHigh
    {
      && nil !in nodes && nil.maxHigh == -MAX_TIME
      && Mirrors(stack) && Shows(x, t) && Searching(all, stack, t, hits, low, high)
    }

    // Records a hit at the entry that is searched under.
    method MarkEntry(ghost stack: seq<Pending>)
      requires Mirrors(stack) && currentParent + 1 == recursionStackTop
      modifies this`recursionStack
      ensures Mirrors(Marked(stack))
    {
      recursionStack := recursionStack[currentParent := recursionStack[currentParent].(tryRightBranch := true)];
    }

    method Push(x: Node, ghost stack: seq<Pending>, ghost right: Tree)
      requires Mirrors(stack) && currentParent + 1 == recursionStackTop && x in nodes && Shows(x.right, right)
      modifies this`recursionStack, this`recursionStackTop, this`currentParent
      ensures Mirrors(stack + [Pending(right, false)]) && currentParent + 1 == recursionStackTop
    {
      recursionStack := recursionStack[..recursionStackTop] + [Entry(x, currentParent, false)];
      currentParent := recursionStackTop;
      recursionStackTop := recursionStackTop + 1;
    }

    // One step of query at the node x.
    method Visit(x: Node, low: Time, high: Time, result: seq<Interval?>, ghost all: Tree, ghost stack: seq<Pending>,
                 ghost t: Tree, ghost hits: seq<Node>)
      returns (x': Node, result': seq<Interval?>, ghost stack': seq<Pending>, ghost t': Tree, ghost hits': seq<Node>)
      requires At(x, all, stack, t, hits, low, high) && x != nil && currentParent + 1 == recursionStackTop
      requires result == Intervals(hits)
      modifies this`recursionStack, this`recursionStackTop, this`currentParent
      ensures At(x', all, stack', t', hits', low, high) && currentParent + 1 == recursionStackTop
      ensures result' == Intervals(hits')
      ensures Remaining(stack', t', low, high) < Remaining(stack, t, low, high)
    {
      assert Shows(x.left, t.left) && Shows(x.right, t.right);
      hits', stack' := hits + Here(x, low, high), Noted(stack, x, low, high);
      result' := Report(x, low, high, result, stack, hits);
      if x.left.maxHigh >= low {
        WentLeft(all, stack, t, hits, low, high);
        Push(x, stack', t.right);
        x', t', stack' := x.left, t.left, stack' + [Pending(t.right, false)];
      } else {
        WentRight(all, stack, t, hits, low, high);
        x', t' := x.right, t.right;
      }
    }

    // Reports x if it overlaps, and records the hit.
    method Report(x: Node, low: Time, high: Time, result: seq<Interval?>, ghost stack: seq<Pending>, ghost hits: seq<Node>)
      returns (result': seq<Interval?>)
      requires Mirrors(stack) && currentParent + 1 == recursionStackTop && result == Intervals(hits)
      modifies this`recursionStack
      ensures Mirrors(Noted(stack, x, low, high)) && result' == Intervals(hits + Here(x, low, high))
    {
      result' := result;
      IntervalsOfSum(hits, Here(x, low, high));
      if Overlap(low, high, x.key, x.high) {
        result' := result' + [x.storedInterval];
        MarkEntry(stack);
      }
    }

    // Drops the innermost entry; x is where the search goes on, if anywhere.
    method DropEntry(low: Time, high: Time, ghost all: Tree, ghost stack: seq<Pending>, ghost hits: seq<Node>)
      returns (x: Node, ghost stack': seq<Pending>, ghost t: Tree)
      requires At(nil, all, stack, Leaf, hits, low, high) && 1 < recursionStackTop
      modifies this`recursionStack, this`recursionStackTop, this`currentParent
      ensures recursionStackTop == old(recursionStackTop) - 1 && At(x, all, stack', t, hits, low, high)
      ensures x != nil ==> currentParent + 1 == recursionStackTop
      ensures Remaining(stack', t, low, high) == Remaining(stack, Leaf, low, high)
    {
      x, stack', t := nil, stack[..|stack| - 1], Leaf;
      CameBack(all, stack, hits, low, high);
      recursionStackTop := recursionStackTop - 1;
      assert Mirrored(recursionStack[recursionStackTop], recursionStackTop, stack[recursionStackTop]);
      if recursionStack[recursionStackTop].tryRightBranch {
        x, t := recursionStack[recursionStackTop].startNode.right, stack[recursionStackTop].right;
        currentParent := recursionStack[recursionStackTop].parentIndex;
        MarkEntry(stack');
        stack' := Marked(stack');
      }
    }

    // The inner loop of query: drops entries until one has a hit recorded.
    method Backtrack(start: Node, low: Time, high: Time, ghost all: Tree, ghost stack: seq<Pending>, ghost top: Tree,
                     ghost hits: seq<Node>)
      returns (x: Node, ghost stack': seq<Pending>, ghost t: Tree)
      requires At(start, all, stack, top, hits, low, high) && currentParent + 1 == recursionStackTop
      modifies this`recursionStack, this`recursionStackTop, this`currentParent
      ensures At(x, all, stack', t, hits, low, high)
      ensures if x == nil then recursionStackTop == 1 else currentParent + 1 == recursionStackTop
      ensures Remaining(stack', t, low, high) == Remaining(stack, top, low, high)
    {
      x, stack', t := start, stack, top;
      var run := x != nil;
      while !run && recursionStackTop > 1
        invariant run == (x != nil) && At(x, all, stack', t, hits, low, high)
        invariant run ==> currentParent + 1 == recursionStackTop
        invariant Remaining(stack', t, low, high) == Remaining(stack, top, low, high)
        decreases recursionStackTop
      {
        x, stack', t := DropEntry(low, high, all, stack', hits);
        run := x != nil;
      }
    }

    // The loops of query.
    method SearchAll(low: Time, high: Time, ghost all: Tree) returns (result: seq<Interval?>)
      requires nil !in nodes && nil.maxHigh == -MAX_TIME && Idle() && Shows(root.left, all)
      modifies this`recursionStack, this`recursionStackTop, this`currentParent
      ensures Idle() && result == Intervals(Found(all, low, high))
    {
      result := [];
      ghost var hits: seq<Node>, stack, t := [], [Pending(Leaf, false)], all;
      var x := root.left;
      currentParent := 0;
      assert [] + (Found(all, low, high) + []) == Found(all, low, high);
      while x != nil
        invariant At(x, all, stack, t, hits, low, high) && result == Intervals(hits)
        invariant if x == nil then recursionStackTop == 1 else currentParent + 1 == recursionStackTop
        decreases Remaining(stack, t, low, high)
      {
        x, result, stack, t, hits := Visit(x, low, high, result, all, stack, t, hits);
        x, stack, t := Backtrack(x, low, high, all, stack, t, hits);
      }
      assert hits + ([] + []) == hits;
    }

    // Reports what a search of the tree finds, in the same order.
    method Query(low: Time, high: Time) returns (result: seq<Interval?>)
      requires Valid()
      modifies this`recursionStack, this`recursionStackTop, this`currentParent
      ensures Valid() && result == Intervals(Found(TreeAt(root.left), low, high))
    {
      TreeShows(root.left);
      result := SearchAll(low, high, TreeAt(root.left));
    }

    // ---------- what a search finds ----------

    // Nothing overlaps below s.
    ghost predicate Silent(s: Node, low: Time, high: Time)
      reads s`sub
    {
      forall m {:trigger Hit(m, low, high)} :: m in s.sub ==> !Hit(m, low, high)
    }

    // The side of n that a search leaves out has nothing to report: the left one, if it ends before low, or
    // the right one, if the left one has nothing.
    ghost predicate Fair(n: Node, low: Time, high: Time)
      reads n`left, n`right, n.left`maxHigh, n.left`sub, n.right`sub
    {
      if n.left.maxHigh < low then Silent(n.left, low, high)
      else Silent(n.left, low, high) ==> Silent(n.right, low, high)
    }

    ghost predicate AllFair(s: set<Node>, low: Time, high: Time)
      reads s, set n | n in s :: n.left, set n | n in s :: n.right
    {
      forall n {:trigger Fair(n, low, high)} :: n in s ==> Fair(n, low, high)
    }

    // What is found below n is there and overlaps, each node once.
    ghost predicate Sound(found: seq<Node>, n: Node, low: Time, high: Time)
      reads n`sub
    {
      && (forall i, j :: 0 <= i < j < |found| ==> found[i] != found[j])
      && (forall m {:trigger m in found} :: m in found ==> m in n.sub && Hit(m, low, high))
    }

    // And all that is there and overlaps is found.
    ghost predicate Complete(found: seq<Node>, n: Node, low: Time, high: Time)
      reads n`sub
    {
      forall m {:trigger Hit(m, low, high)} :: m in n.sub && Hit(m, low, high) ==> m in found
    }

    lemma SoundBoth(n: Node, left: seq<Node>, right: seq<Node>, low: Time, high: Time)
      requires Structure() && n in nodes && Sound(left, n.left, low, high) && Sound(right, n.right, low, high)
      ensures Sound(Here(n, low, high) + (left + right), n, low, high)
      ensures Complete(Here(n, low, high) + (left + right), n, low, high) <==>
        Complete(left, n.left, low, high) && Complete(right, n.right, low, high)
    {
      assert Sub(n);
      var here, both := Here(n, low, high), left + right;
      assert forall i :: 0 <= i < |left| ==> left[i] in left;
      assert forall i :: 0 <= i < |right| ==> right[i] in right;
      assert forall m :: m in here + both <==> m in here || m in left || m in right;
    }

    lemma {:induction false} FoundSound(n: Node, low: Time, high: Time)
      requires Structure() && (n in nodes || n == nil)
      ensures Sound(Found(TreeAt(n), low, high), n, low, high)
      decreases n.sub
    {
      if n != nil {
        assert Sub(n);
        var left, right := Found(TreeAt(n.left), low, high), Found(TreeAt(n.right), low, high);
        FoundSound(n.left, low, high);
        FoundSound(n.right, low, high);
        SoundBoth(n, left, right, low, high);
        SoundBoth(n, left, [], low, high);
        SoundBoth(n, [], right, low, high);
        assert [] + right == right;
      }
    }

    // Whatever the intervals, a search finds all below a node exactly if it is fair everywhere there.
    lemma {:induction false} FoundComplete(n: Node, low: Time, high: Time)
      requires Structure() && (n in nodes || n == nil)
      ensures Complete(Found(TreeAt(n), low, high), n, low, high) <==> AllFair(n.sub, low, high)
      decreases n.sub
    {
      if n != nil {
        assert Sub(n);
        var left, right := Found(TreeAt(n.left), low, high), Found(TreeAt(n.right), low, high);
        FoundComplete(n.left, low, high);
        FoundComplete(n.right, low, high);
        FoundSound(n.left, low, high);
        FoundSound(n.right, low, high);
        FairBoth(n, low, high);
        if n.left.maxHigh < low {
          assert [] + right == right;
          SkipLeft(n, right, low, high);
        } else if left == [] {
          SkipRight(n, low, high);
        } else {
          assert left[0] in left && !Silent(n.left, low, high);
          SoundBoth(n, left, right, low, high);
        }
      }
    }

    lemma SkipLeft(n: Node, right: seq<Node>, low: Time, high: Time)
      requires Structure() && n in nodes && Sound(right, n.right, low, high)
      ensures Complete(Here(n, low, high) + ([] + right), n, low, high) <==> Silent(n.left, low, high) && Complete(right, n.right, low, high)
      ensures Silent(n.left, low, high) ==> AllFair(n.left.sub, low, high)
    {
      assert Sub(n);
      SoundBoth(n, [], right, low, high);
      SilentComplete(n.left, low, high);
      if Silent(n.left, low, high) {
        SilentFair(n.left, low, high);
      }
    }

    lemma SkipRight(n: Node, low: Time, high: Time)
      requires Structure() && n in nodes
      ensures Complete(Here(n, low, high) + ([] + []), n, low, high) <==> Silent(n.left, low, high) && Silent(n.right, low, high)
      ensures Complete([], n.left, low, high) <==> Silent(n.left, low, high)
      ensures Silent(n.right, low, high) ==> AllFair(n.right.sub, low, high)
    {
      assert Sub(n);
      SoundBoth(n, [], [], low, high);
      SilentComplete(n.left, low, high);
      SilentComplete(n.right, low, high);
      if Silent(n.right, low, high) {
        SilentFair(n.right, low, high);
      }
    }

    lemma FairBoth(n: Node, low: Time, high: Time)
      requires Structure() && n in nodes
      ensures AllFair(n.sub, low, high) <==>
        Fair(n, low, high) && AllFair(n.left.sub, low, high) && AllFair(n.right.sub, low, high)
    {
      assert Sub(n);
    }

    lemma SilentComplete(s: Node, low: Time, high: Time)
      ensures Complete([], s, low, high) <==> Silent(s, low, high)
    {
    }

    lemma SilentFair(s: Node, low: Time, high: Time)
      requires Structure() && (s in nodes || s == nil) && Silent(s, low, high)
      ensures AllFair(s.sub, low, high)
    {
      AllNested();
      forall n | n in s.sub ensures Fair(n, low, high) {
        assert Sub(n);
      }
    }

    // The answers of a search are the hits below its start, each once, but for the overlooked ones.
    ghost predicate FindsAll(found: seq<Node>, n: Node, low: Time, high: Time)
      reads this`nodes, nodes`parent, nodes`left, root`left, n`sub
    {
      && (forall i, j :: 0 <= i < j < |found| ==> found[i] != found[j])
      && (forall m {:trigger m in found} :: m in found ==> m in n.sub && Hit(m, low, high) && !Overlooked(m, low))
      && (forall m {:trigger Hit(m, low, high)} :: m in n.sub && Hit(m, low, high) && !Overlooked(m, low) ==> m in found)
    }

    // Where nothing that counts is found on the left, nothing is to be found on the right.
    lemma NothingRight(n: Node, low: Time, high: Time)
      requires Structure() && Balanced() && Forward() && n in nodes && n.left.maxHigh >= low
      requires forall m {:trigger Hit(m, low, high)} :: m in n.left.sub && Hit(m, low, high) ==> Overlooked(m, low)
      ensures forall m {:trigger Hit(m, low, high)} :: m in n.right.sub && Hit(m, low, high) ==> Overlooked(m, low)
    {
      if low > -MAX_TIME {
        PruneRight(n, low, high);
      } else if n.left == nil {
        LoneRight(n);
      } else {
        PruneRightLow(n, low, high);
      }
    }

    lemma {:induction false} FoundExactly(n: Node, low: Time, high: Time)
      requires Structure() && Balanced() && Forward() && (n in nodes || n == nil) && (n in nodes ==> !Overlooked(n, low))
      ensures FindsAll(Found(TreeAt(n), low, high), n, low, high)
      decreases n.sub
    {
      if n != nil {
        assert Sub(n) && Down(n);
        if n.left.maxHigh >= low {
          FoundExactly(n.left, low, high);
          var left := Found(TreeAt(n.left), low, high);
          if left == [] {
            NothingRight(n, low, high);
            FindsBoth(n, left, [], low, high);
          } else {
            FoundExactly(n.right, low, high);
            FindsBoth(n, left, Found(TreeAt(n.right), low, high), low, high);
          }
        } else {
          PruneLeft(n.left, low, high);
          FoundExactly(n.right, low, high);
          FindsBoth(n, [], Found(TreeAt(n.right), low, high), low, high);
          assert [] + Found(TreeAt(n.right), low, high) == Found(TreeAt(n.right), low, high);
        }
      }
    }

    // What is found at a node and in both its subtrees.
    lemma FindsBoth(n: Node, left: seq<Node>, right: seq<Node>, low: Time, high: Time)
      requires Structure() && n in nodes && !Overlooked(n, low)
      requires FindsAll(left, n.left, low, high) && FindsAll(right, n.right, low, high)
      ensures FindsAll(Here(n, low, high) + (left + right), n, low, high)
    {
      assert Sub(n);
      var here, both := Here(n, low, high), left + right;
      assert forall i :: 0 <= i < |left| ==> left[i] in left;
      assert forall i :: 0 <= i < |right| ==> right[i] in right;
      assert forall m :: m in here + both <==> m in here || m in left || m in right;
    }

    // So a query reports every stored interval that overlaps and is not overlooked, once, and no other.
    lemma FoundFromTop(low: Time, high: Time)
      requires Valid() && Forward()
      ensures FindsAll(Found(TreeAt(root.left), low, high), root.left, low, high) && root.left.sub == nodes
    {
      FoundExactly(root.left, low, high);
    }

    // A tree where a query fails: of two stored intervals that both overlap, only the first is found.
    static method Overlooks() returns (tree: IntervalTree, a: Node, b: Node)
      ensures tree.Valid() && tree.Forward() && !tree.AllSeen(-MAX_TIME, MAX_TIME)
      ensures tree.nodes == {a, b} && a != b && Hit(a, -MAX_TIME, MAX_TIME) && Hit(b, -MAX_TIME, MAX_TIME)
      ensures Found(tree.TreeAt(tree.root.left), -MAX_TIME, MAX_TIME) == [a]
    {
      var first, second;
      first := new Interval(0, 1);
      second := new Interval(2, 3);
      tree, a, b := Pair(first, second);
      tree.OverlooksSecond(a, b);
    }

    // A tree of two intervals.
    static method Pair(first: Interval, second: Interval) returns (tree: IntervalTree, a: Node, b: Node)
      ensures fresh(tree) && tree.Valid() && tree.nodes == {a, b} && a != b && tree.Beside(a, b)
      ensures a.storedInterval == first && a.key == first.low && a.high == first.high
      ensures b.storedInterval == second && b.key == second.low && b.high == second.high
    {
      tree := new IntervalTree();
      a := tree.Insert(first);
      b := tree.Insert(second);
    }

    lemma OverlooksSecond(a: Node, b: Node)
      requires Valid() && Forward() && nodes == {a, b} && a != b && a.left == nil && a.right == b && b.key < MAX_TIME
      ensures Found(TreeAt(root.left), -MAX_TIME, MAX_TIME) == [a] && !AllSeen(-MAX_TIME, MAX_TIME)
    {
      assert Up(a) && Down(a) && Up(b);
      assert Sub(a) && Sub(b) && Ordered(a);
      FoundFromTop(-MAX_TIME, MAX_TIME);
      var found := Found(TreeAt(root.left), -MAX_TIME, MAX_TIME);
      assert Overlooked(b, -MAX_TIME) && !Overlooked(a, -MAX_TIME);
      assert Hit(a, -MAX_TIME, MAX_TIME) && Hit(b, -MAX_TIME, MAX_TIME);
      assert a in found;
      forall i | 0 <= i < |found| ensures found[i] == a {
        assert found[i] in found;
      }
    }

    // ---------- height ----------

    // The number of nodes on the longest path down from n.
    ghost function Height(n: Node): (h: nat)
      requires Shape() && (n in nodes || n == nil)
      reads this`nodes, root, nil, nodes
      ensures h == 0 <==> n == nil
      decreases n.sub
    {
      if n == nil then 0
      else
        assert Sub(n);
        var l, r := Height(n.left), Height(n.right);
        1 + if l < r then r else l
    }

    lemma {:induction false} HeightByBlack(n: Node)
      requires Structure() && Balanced() && (n in nodes || n == nil)
      ensures Height(n) <= 2 * n.bh + (if n.red then 1 else 0)
      ensures Pow2(n.bh) <= |n.sub| + 1
      decreases n.sub
    {
      if n != nil {
        assert Sub(n) && RedOk(n, root) && BlackOk(n);
        HeightByBlack(n.left);
        HeightByBlack(n.right);
        assert |n.sub| == 1 + |n.left.sub| + |n.right.sub| by {
          assert n.sub == {n} + (n.left.sub + n.right.sub);
        }
      }
    }

    // The height h of the tree satisfies h <= 2 * log2(|nodes| + 1).
    lemma HeightBound()
      requires Valid()
      ensures Pow2((Height(root.left) + 1) / 2) <= |nodes| + 1
    {
      var t := root.left;
      HeightByBlack(t);
      Pow2Grows((Height(t) + 1) / 2, t.bh);
    }

    // ---------- queries against a linear scan ----------

    static function Scan(listing: seq<Node>, low: Time, high: Time): (r: seq<Node>) {
      if listing == [] then []
      else if Hit(listing[0], low, high) then [listing[0]] + Scan(listing[1..], low, high)
      else Scan(listing[1..], low, high)
    }

    static function Intervals(listing: seq<Node>): (r: seq<Interval?>) {
      if listing == [] then [] else [listing[0].storedInterval] + Intervals(listing[1..])
    }

    static lemma {:induction false} ScanCounts(listing: seq<Node>, low: Time, high: Time, n: Node)
      ensures multiset(Scan(listing, low, high))[n] == if Hit(n, low, high) then multiset(listing)[n] else 0
    {
      if listing != [] {
        assert listing == [listing[0]] + listing[1..];
        ScanCounts(listing[1..], low, high, n);
      }
    }

    static lemma TakeOut<T>(a: seq<T>, b: seq<T>, k: nat)
      requires multiset(a) == multiset(b) && a != [] && k < |b| && b[k] == a[0]
      ensures multiset(a[1..]) == multiset(b[..k] + b[k + 1..])
      ensures b == b[..k] + ([a[0]] + b[k + 1..])
    {
      assert a == [a[0]] + a[1..];
      assert b == b[..k] + [a[0]] + b[k + 1..];
      assert multiset(a[1..]) == multiset(a) - multiset{a[0]};
      assert multiset(b[..k] + b[k + 1..]) == multiset(b) - multiset{a[0]};
    }

    static lemma {:induction false} SameIntervals(a: seq<Node>, b: seq<Node>)
      requires multiset(a) == multiset(b)
      ensures multiset(Intervals(a)) == multiset(Intervals(b))
    {
      if a == [] {
        assert |multiset(a)| == |multiset(b)|;
      } else {
        assert a[0] in multiset(b);
        var k :| 0 <= k < |b| && b[k] == a[0];
        TakeOut(a, b, k);
        SameIntervals(a[1..], b[..k] + b[k + 1..]);
        IntervalsOfSum(b[..k], [a[0]] + b[k + 1..]);
        IntervalsOfSum(b[..k], b[k + 1..]);
        MoveToFront(Intervals(b[..k]), Intervals(b[k + 1..]), a[0].storedInterval);
        assert Intervals([a[0]] + b[k + 1..]) == [a[0].storedInterval] + Intervals(b[k + 1..]) by {
          assert ([a[0]] + b[k + 1..])[1..] == b[k + 1..];
        }
      }
    }

    static lemma MoveToFront<T>(a: seq<T>, b: seq<T>, x: T)
      ensures multiset(a + ([x] + b)) == multiset([x] + (a + b))
    {
    }

    static lemma {:induction false} IntervalsOfSum(a: seq<Node>, b: seq<Node>)
      ensures Intervals(a + b) == Intervals(a) + Intervals(b)
    {
      if a == [] {
        assert a + b == b;
      } else {
        assert (a + b)[1..] == a[1..] + b;
        IntervalsOfSum(a[1..], b);
      }
    }

    static lemma {:induction false} CountsOnce(a: seq<Node>, n: Node)
      requires forall i, j :: 0 <= i < j < |a| ==> a[i] != a[j]
      ensures multiset(a)[n] == if n in a then 1 else 0
    {
      if a != [] {
        assert a == [a[0]] + a[1..];
        CountsOnce(a[1..], n);
      }
    }

    static lemma SameCounts<T>(a: seq<T>, b: seq<T>)
      requires forall i :: 0 <= i < |a| ==> multiset(a)[a[i]] == multiset(b)[a[i]]
      requires forall i :: 0 <= i < |b| ==> multiset(a)[b[i]] == multiset(b)[b[i]]
      ensures multiset(a) == multiset(b)
    {
      assert forall x :: x in multiset(a) ==> exists i :: 0 <= i < |a| && a[i] == x;
      assert forall x :: x in multiset(b) ==> exists i :: 0 <= i < |b| && b[i] == x;
    }

    // Of the nodes that a scan finds, the lost ones aside, hits holds each once.
    static lemma HitsAreScan(hits: seq<Node>, listing: seq<Node>, s: set<Node>, lost: set<Node>, low: Time, high: Time)
      requires multiset(listing) == multiset(s)
      requires lost <= s && forall n {:trigger n in lost} :: n in lost ==> Hit(n, low, high)
      requires forall i, j :: 0 <= i < j < |hits| ==> hits[i] != hits[j]
      requires forall n {:trigger n in hits} :: n in hits <==> n in s && Hit(n, low, high) && n !in lost
      ensures lost == {} ==> multiset(hits) == multiset(Scan(listing, low, high))
      ensures lost != {} ==> |hits| < |Scan(listing, low, high)|
    {
      var scan := Scan(listing, low, high);
      forall i | 0 <= i < |hits| ensures multiset(hits)[hits[i]] == multiset(scan)[hits[i]] && hits[i] in multiset(scan) {
        assert hits[i] in hits;
        ScanCounts(listing, low, high, hits[i]);
        CountsOnce(hits, hits[i]);
      }
      if n :| n in lost {
        ScanCounts(listing, low, high, n);
        assert n !in hits;
        Fewer(hits + [n], scan);
      } else {
        forall i | 0 <= i < |scan| ensures multiset(hits)[scan[i]] == multiset(scan)[scan[i]] {
          assert scan[i] in multiset(scan);
          ScanCounts(listing, low, high, scan[i]);
          assert scan[i] in multiset(listing) && scan[i] in hits;
          CountsOnce(hits, scan[i]);
        }
        SameCounts(hits, scan);
      }
    }

    static lemma {:induction false} Fewer(a: seq<Node>, b: seq<Node>)
      requires forall i, j :: 0 <= i < j < |a| ==> a[i] != a[j]
      requires forall i :: 0 <= i < |a| ==> a[i] in multiset(b)
      ensures |a| <= |b|
      decreases |a|
    {
      if a != [] {
        assert a[0] in multiset(b);
        var k :| 0 <= k < |b| && b[k] == a[0];
        var rest := b[..k] + b[k + 1..];
        assert b == b[..k] + [a[0]] + b[k + 1..];
        forall i | 0 <= i < |a[1..]| ensures a[1..][i] in multiset(rest) {
          assert a[i + 1] in multiset(b) && a[i + 1] != a[0];
        }
        Fewer(a[1..], rest);
      }
    }

    static lemma {:induction false} IntervalsLength(a: seq<Node>)
      ensures |Intervals(a)| == |a|
    {
      if a != [] {
        IntervalsLength(a[1..]);
      }
    }

    // Whatever the order in which the stored nodes are listed, a query answers as scanning the
    // list does - exactly if it is fair at every node. If all intervals run forwards, that is exactly
    // if no overlapping interval is overlooked.
    lemma QueryAsScan(listing: seq<Node>, low: Time, high: Time)
      requires Valid() && multiset(listing) == multiset(nodes)
      ensures multiset(Intervals(Found(TreeAt(root.left), low, high))) == multiset(Intervals(Scan(listing, low, high))) <==>
        AllFair(nodes, low, high)
      ensures Forward() ==> (AllFair(nodes, low, high) <==> AllSeen(low, high))
    {
      FoundSound(root.left, low, high);
      FoundComplete(root.left, low, high);
      FoundAsScan(Found(TreeAt(root.left), low, high), listing, low, high);
      if Forward() {
        FoundFromTop(low, high);
      }
    }

    // The interval has a time in common with [low, high].
    static ghost predicate Occurs(i: Interval?, low: Time, high: Time) {
      i != null && exists t: Time :: i.low <= t <= i.high && During(t, low, high)
    }

    // The intervals listed that do.
    static ghost function Occurring(listing: seq<Interval?>, low: Time, high: Time): seq<Interval?> {
      if listing == [] then []
      else if Occurs(listing[0], low, high) then [listing[0]] + Occurring(listing[1..], low, high)
      else Occurring(listing[1..], low, high)
    }

    lemma HitMeans(n: Node, low: Time, high: Time)
      requires Stored() && Forward() && n in nodes && low <= high
      ensures Hit(n, low, high) <==> Occurs(n.storedInterval, low, high)
    {
      assert n.storedInterval != null && n.key <= n.high;
      OverlapExactly(low, high, n.key, n.high);
      if Hit(n, low, high) {
        var t: Time :| During(t, low, high) && During(t, n.key, n.high);
        assert n.storedInterval.low <= t <= n.storedInterval.high && During(t, low, high);
      }
      if Occurs(n.storedInterval, low, high) {
        var t: Time :| n.storedInterval.low <= t <= n.storedInterval.high && During(t, low, high);
        assert During(t, n.key, n.high);
      }
    }

    lemma {:induction false} ScanMeans(listing: seq<Node>, low: Time, high: Time)
      requires Stored() && Forward() && low <= high && forall n :: n in listing ==> n in nodes
      ensures Intervals(Scan(listing, low, high)) == Occurring(Intervals(listing), low, high)
    {
      if listing != [] {
        HitMeans(listing[0], low, high);
        ScanMeans(listing[1..], low, high);
      }
    }

    // While all intervals run forwards, a query answers with exactly those stored that have a time in common
    // with [low, high], each as often as it is stored - for every low later than the sentinel bound, and
    // from there on exactly if none of them is overlooked.
    lemma QueryMeans(listing: seq<Node>, low: Time, high: Time)
      requires Valid() && Forward() && low <= high && multiset(listing) == multiset(nodes)
      ensures multiset(Intervals(Found(TreeAt(root.left), low, high))) == multiset(Occurring(Intervals(listing), low, high)) <==>
        forall n {:trigger Overlooked(n, low)} :: n in nodes && Occurs(n.storedInterval, low, high) ==> !Overlooked(n, low)
      ensures low > -MAX_TIME ==>
        multiset(Intervals(Found(TreeAt(root.left), low, high))) == multiset(Occurring(Intervals(listing), low, high))
    {
      forall n | n in listing ensures n in nodes {
        assert n in multiset(listing);
      }
      QueryAsScan(listing, low, high);
      ScanMeans(listing, low, high);
      forall n | n in nodes ensures Hit(n, low, high) <==> Occurs(n.storedInterval, low, high) {
        HitMeans(n, low, high);
      }
    }

    // What is found is what a scan finds exactly if it is complete.
    lemma FoundAsScan(hits: seq<Node>, listing: seq<Node>, low: Time, high: Time)
      requires Valid() && multiset(listing) == multiset(nodes) && Sound(hits, root.left, low, high)
      ensures multiset(Intervals(hits)) == multiset(Intervals(Scan(listing, low, high))) <==> Complete(hits, root.left, low, high)
    {
      var scan := Scan(listing, low, high);
      var lost := set n | n in nodes && Hit(n, low, high) && n !in hits;
      HitsAreScan(hits, listing, nodes, lost, low, high);
      if lost == {} {
        assert forall n :: n in nodes && Hit(n, low, high) && n !in hits ==> n in lost;
        SameIntervals(hits, scan);
      } else {
        var n :| n in lost;
        assert Hit(n, low, high);
        IntervalsLength(hits);
        IntervalsLength(scan);
        assert |multiset(Intervals(hits))| == |hits| && |multiset(Intervals(scan))| == |scan|;
      }
    }

    // Another tree where a query fails: an interval that runs backwards ends before the query starts, and is
    // left out for that, though it overlaps as the code has it.
    static method SkipsBackward() returns (tree: IntervalTree, a: Node, b: Node)
      ensures tree.Valid() && tree.nodes == {a, b} && a != b && Hit(b, 1, 1)
      ensures Found(tree.TreeAt(tree.root.left), 1, 1) == [] && !tree.AllFair(tree.nodes, 1, 1)
    {
      var first, second;
      first := new Interval(2, 3);
      second := new Interval(1, 0);
      tree, a, b := Pair(first, second);
      tree.SkipsLeft(a, b);
    }

    lemma SkipsLeft(a: Node, b: Node)
      requires Valid() && nodes == {a, b} && a != b && a.left == b && a.right == nil
      requires a.key == 2 && a.high == 3 && b.key == 1 && b.high == 0
      ensures Found(TreeAt(root.left), 1, 1) == [] && !Fair(a, 1, 1) && Hit(b, 1, 1)
    {
      assert Up(a) && Down(a) && Up(b) && Down(b);
      assert Sub(a) && Sub(b) && Maxed(b);
      assert b in b.sub && root.left == a && Hit(b, 1, 1);
      assert b.left == nil && b.right == nil;
      assert b.maxHigh == 0;
      assert TreeAt(b) == Bin(b, b.maxHigh, Leaf, Leaf) && TreeAt(a) == Bin(a, a.maxHigh, TreeAt(b), Leaf);
      assert !Hit(a, 1, 1);
    }

    // No overlapping interval is overlooked.
    ghost predicate AllSeen(low: Time, high: Time)
      reads this`nodes, nodes`parent, nodes`left, root`left
    {
      forall n {:trigger Hit(n, low, high)} :: n in nodes && Hit(n, low, high) ==> !Overlooked(n, low)
    }

    // What is overlooked, as the tree shows it: from the sentinel bound on, a leaf on the right
    // of a node that has nothing on its left.
    lemma OverlookedExactly(m: Node, low: Time)
      requires Valid() && m in nodes
      ensures Overlooked(m, low) <==>
        low <= -MAX_TIME && m.parent in nodes && m.parent.left == nil && m.parent.right == m && m.left == m.right == nil
    {
      assert Up(m);
      if m.parent in nodes && m.parent.left == nil {
        LoneRight(m.parent);
      }
    }
  }
}
