/** A directed graph of network modules with shortest paths towards a target
    (Topology.h, Topology.cc). */
module Topologies {

  // A weight or distance: a number or infinity.
  datatype Cost = Finite(value: real) | Infinity {
    function Plus(other: Cost): Cost {
      if Finite? && other.Finite? then Finite(value + other.value) else Infinity
    }

    predicate AtMost(other: Cost) {
      other.Infinity? || (Finite? && value <= other.value)
    }
  }

  // The elements of s that are not gone, in their order.
  function Keep<T(==)>(s: seq<T>, gone: set<T>): (r: seq<T>)
    ensures forall i :: 0 <= i < |r| ==> r[i] in s && r[i] !in gone
    ensures forall i :: 0 <= i < |s| && s[i] !in gone ==> s[i] in r
  {
    if s == [] then []
    else if s[0] in gone then Keep(s[1..], gone)
    else [s[0]] + Keep(s[1..], gone)
  }

  predicate Distinct<T(==)>(s: seq<T>) {
    forall i, j :: 0 <= i < j < |s| ==> s[i] != s[j]
  }

  lemma DistinctTail<T>(s: seq<T>)
    requires Distinct(s) && s != []
    ensures Distinct(s[1..]) && s[0] !in s[1..]
  {
    assert forall i :: 0 <= i < |s[1..]| ==> s[1..][i] == s[i + 1];
  }

  type Int32 = x: int | -0x8000_0000 <= x < 0x8000_0000

  // The cast to unsigned int; it puts the id -1 behind all others.
  function Unsigned(x: Int32): nat {
    if x < 0 then x + 0x1_0000_0000 else x
  }

  class Link {
    var srcNode: Node?
    var srcGateId: Int32
    var destNode: Node?
    var destGateId: Int32
    var weight: Cost
    var enabled: bool

    constructor (weight: Cost)
      ensures srcNode == null && destNode == null && this.weight == weight && enabled
      ensures srcGateId == destGateId == -1
    {
      srcGateId, destGateId := -1, -1;
      srcNode, destNode, this.weight, enabled := null, null, weight, true;
    }
  }

  class Node {
    const moduleId: Int32
    var weight: Cost
    var enabled: bool
    var inLinks: seq<Link>
    var outLinks: seq<Link>
    var dist: Cost
    var outPath: Link?
    ghost var rank: nat  // how many nodes a shortest-path method had settled before this one

    constructor (moduleId: Int32)
      ensures this.moduleId == moduleId && weight == Finite(0.0) && enabled
      ensures inLinks == [] && outLinks == [] && dist == Infinity && outPath == null
    {
      this.moduleId, weight, enabled := moduleId, Finite(0.0), true;
      inLinks, outLinks, dist, outPath, rank := [], [], Infinity, null, 0;
    }
  }

  class Topology {
    var nodes: seq<Node>
    var target: Node?
    ghost var links: set<Link>  // the links of the graph

    constructor ()
      ensures Valid() && nodes == [] && links == {} && target == null
    {
      nodes, target, links := [], null, {};
    }

    // l ends at n and starts at a node of the graph.
    ghost predicate Enters(l: Link, n: Node)
      reads this`nodes, this`links, links`srcNode, links`destNode
    {
      l in links && l.destNode == n && l.srcNode != null && l.srcNode in nodes
    }

    ghost predicate Incoming()
      reads this`nodes, this`links, links`srcNode, links`destNode, nodes`inLinks
    {
      forall n, l {:trigger Enters(l, n)} :: n in nodes && l in n.inLinks ==> Enters(l, n)
    }

    // ---------- paths ----------

    // l may be travelled.
    ghost predicate Usable(l: Link)
      reads this`nodes, this`links, links`enabled, links`srcNode, links`destNode, nodes`enabled, nodes`inLinks
    {
      && l in links && l.enabled && l.srcNode != null && l.srcNode in nodes && l.srcNode.enabled
      && l.destNode != null && l.destNode in nodes && l in l.destNode.inLinks
    }

    // What travelling l adds: its weight and that of the node it leads to,
    // unless that is the target t; or one hop.
    ghost function Step(l: Link, t: Node, weighted: bool): Cost
      requires Usable(l)
      reads this`nodes, this`links, links`enabled, links`srcNode, links`destNode, links`weight
      reads nodes`enabled, nodes`inLinks, nodes`weight
    {
      if !weighted then Finite(1.0)
      else if l.destNode == t then l.weight
      else l.weight.Plus(l.destNode.weight)
    }

    // p leads from v to t over usable links.
    ghost predicate Path(p: seq<Link>, v: Node, t: Node)
      reads this`nodes, this`links, links`enabled, links`srcNode, links`destNode, nodes`enabled, nodes`inLinks
      decreases p
    {
      if p == [] then v == t
      else Usable(p[0]) && p[0].srcNode == v && Path(p[1..], p[0].destNode, t)
    }

    ghost function Length(p: seq<Link>, v: Node, t: Node, weighted: bool): Cost
      requires Path(p, v, t)
      reads this`nodes, this`links, links`enabled, links`srcNode, links`destNode, links`weight
      reads nodes`enabled, nodes`inLinks, nodes`weight
      decreases p
    {
      if p == [] then Finite(0.0)
      else Step(p[0], t, weighted).Plus(Length(p[1..], p[0].destNode, t, weighted))
    }

    // ---------- the labels of a finished computation ----------

    // dist and outPath of v come from a link to a node settled earlier.
    ghost predicate Tight(v: Node, t: Node, weighted: bool)
      reads v`dist, v`outPath, v`rank, this`nodes, this`links, links`enabled, links`srcNode, links`destNode, links`weight
      reads nodes`enabled, nodes`inLinks, nodes`weight, nodes`dist, nodes`rank
    {
      && v.outPath != null && Usable(v.outPath) && v.outPath.srcNode == v
      && v.outPath.destNode.rank < v.rank
      && v.dist.Finite? && v.dist == Step(v.outPath, t, weighted).Plus(v.outPath.destNode.dist)
    }

    // l offers no shorter way.
    ghost predicate Relaxed(l: Link, t: Node, weighted: bool)
      reads this`nodes, this`links, links`enabled, links`srcNode, links`destNode, links`weight
      reads nodes`enabled, nodes`inLinks, nodes`weight, nodes`dist
    {
      Usable(l) ==> l.srcNode.dist.AtMost(Step(l, t, weighted).Plus(l.destNode.dist))
    }

    // The target and the nodes without a label lead nowhere.
    ghost predicate Unmarked(v: Node, t: Node)
      reads v`dist, v`outPath
    {
      v == t || v.dist == Infinity ==> v.outPath == null
    }

    ghost predicate Labelled(t: Node, weighted: bool)
      reads this`nodes, this`links, links`enabled, links`srcNode, links`destNode, links`weight
      reads nodes`enabled, nodes`inLinks, nodes`weight, nodes`dist, nodes`rank, nodes`outPath
    {
      && t in nodes && t.dist == Finite(0.0)
      && (forall v {:trigger Tight(v, t, weighted)} :: v in nodes && v != t && v.dist.Finite? ==> Tight(v, t, weighted))
      && (forall l {:trigger Relaxed(l, t, weighted)} :: l in links ==> Relaxed(l, t, weighted))
      && (forall v {:trigger Unmarked(v, t)} :: v in nodes ==> Unmarked(v, t))
    }

    // A node has an outPath exactly if it is not the target and the target can be reached from it.
    lemma MarkedExactly(v: Node, t: Node, weighted: bool)
      requires Labelled(t, weighted) && v in nodes
      ensures v.outPath != null <==> v != t && v.dist.Finite?
      ensures v.dist.Finite? <==> exists p :: Path(p, v, t) && Length(p, v, t, weighted).Finite?
    {
      assert Unmarked(v, t);
      if v.dist.Finite? {
        assert v != t ==> Tight(v, t, weighted);
        RouteIsShortest(v, t, weighted);
      }
      forall p | Path(p, v, t) ensures v.dist.AtMost(Length(p, v, t, weighted)) {
        NoShorter(p, v, t, weighted);
      }
    }

    // What the labels are, link by link: an outPath is an enabled link from an enabled node, and dist is
    // the dist at its end, the weight of the link, and that of the node there if that is not the target.
    lemma LabelsAttained(v: Node, t: Node, weighted: bool)
      requires Labelled(t, weighted) && v in nodes && v.outPath != null
      ensures var l, u := v.outPath, v.outPath.destNode;
        && l in links && l.enabled && v.enabled && l.srcNode == v && u != null && u in nodes && l in u.inLinks
        && v.dist.Finite? && u.dist.Finite? && u.rank < v.rank
        && (weighted ==> l.weight.Finite? && (u == t || u.weight.Finite?))
        && v.dist.value == u.dist.value +
          if !weighted then 1.0 else if u == t then l.weight.value else l.weight.value + u.weight.value
    {
      assert Unmarked(v, t);
      assert Tight(v, t, weighted);
    }

    // And no enabled link from an enabled node offers less.
    lemma LabelsLeast(l: Link, t: Node, weighted: bool)
      requires Labelled(t, weighted) && l in links && l.enabled && l.srcNode != null && l.srcNode in nodes && l.srcNode.enabled
      requires l.destNode != null && l.destNode in nodes && l in l.destNode.inLinks && l.destNode.dist.Finite?
      requires weighted ==> l.weight.Finite? && (l.destNode == t || l.destNode.weight.Finite?)
      ensures var v, u := l.srcNode, l.destNode;
        && v.dist.Finite?
        && v.dist.value <= u.dist.value +
          if !weighted then 1.0 else if u == t then l.weight.value else l.weight.value + u.weight.value
    {
      assert Usable(l) && Relaxed(l, t, weighted);
    }

    // No path is shorter than dist.
    lemma {:induction false} NoShorter(p: seq<Link>, v: Node, t: Node, weighted: bool)
      requires Labelled(t, weighted) && v in nodes && Path(p, v, t)
      ensures v.dist.AtMost(Length(p, v, t, weighted))
      decreases p
    {
      if p != [] {
        assert Relaxed(p[0], t, weighted);
        NoShorter(p[1..], p[0].destNode, t, weighted);
      }
    }

    // The links met by following outPath from v.
    ghost function Route(v: Node, t: Node, weighted: bool): (p: seq<Link>)
      requires Labelled(t, weighted) && v in nodes && v.dist.Finite?
      reads this`nodes, this`links, links`enabled, links`srcNode, links`destNode, links`weight
      reads nodes`enabled, nodes`inLinks, nodes`weight, nodes`dist, nodes`rank, nodes`outPath
      decreases v.rank
    {
      if v == t then []
      else
        assert Tight(v, t, weighted);
        [v.outPath] + Route(v.outPath.destNode, t, weighted)
    }

    // Following outPath leads to the target, over exactly the distance.
    lemma {:induction false} RouteIsShortest(v: Node, t: Node, weighted: bool)
      requires Labelled(t, weighted) && v in nodes && v.dist.Finite?
      ensures Path(Route(v, t, weighted), v, t)
      ensures Length(Route(v, t, weighted), v, t, weighted) == v.dist
      ensures !weighted ==> v.dist == Finite(|Route(v, t, weighted)| as real)
      decreases v.rank
    {
      if v != t {
        assert Tight(v, t, weighted);
        var u := v.outPath.destNode;
        RouteIsShortest(u, t, weighted);
        assert Route(v, t, weighted)[1..] == Route(u, t, weighted);
      }
    }

    // It goes through nodes settled ever earlier, hence never twice through one.
    lemma {:induction false} RouteDescends(v: Node, t: Node, weighted: bool)
      requires Labelled(t, weighted) && v in nodes && v.dist.Finite?
      ensures forall i :: 0 <= i < |Route(v, t, weighted)| ==>
        Usable(Route(v, t, weighted)[i]) && Route(v, t, weighted)[i].srcNode.rank <= v.rank &&
        Route(v, t, weighted)[i].srcNode != t
      ensures forall i, j :: 0 <= i < j < |Route(v, t, weighted)| ==>
        Route(v, t, weighted)[i].srcNode != Route(v, t, weighted)[j].srcNode
      decreases v.rank
    {
      if v != t {
        assert Tight(v, t, weighted);
        var u := v.outPath.destNode;
        RouteDescends(u, t, weighted);
        var rest := Route(u, t, weighted);
        var p := Route(v, t, weighted);
        assert p == [v.outPath] + rest;
        forall i, j | 0 <= i < j < |p| ensures p[i].srcNode != p[j].srcNode {
          assert p[j] == rest[j - 1];
          if i > 0 {
            assert p[i] == rest[i - 1];
          }
        }
      }
    }

    // ---------- the weighted method ----------

    // What the assertions of the weighted method demand of its caller: the nodes and links that the
    // search meets, all within the set met, have no bad weights.
    ghost predicate Weighable(t: Node, met: set<Node>)
      reads this`nodes, this`links, links`enabled, links`srcNode, links`destNode, links`weight
      reads nodes`enabled, nodes`inLinks, nodes`weight
    {
      && t in met
      && (forall n {:trigger n in met} :: n in met ==> n in nodes && (n.weight.Finite? ==> n.weight.value >= 0.0))
      && (forall l {:trigger Usable(l)} :: l in links && Usable(l) && l.destNode in met ==>
            && (l.weight.Finite? ==> l.weight.value > 0.0)
            && (Step(l, t, true).Finite? ==> l.srcNode in met))
    }

    // No bad weights anywhere.
    ghost predicate Positive()
      reads this`nodes, this`links, links`weight, nodes`weight
    {
      && (forall n {:trigger n.weight} :: n in nodes && n.weight.Finite? ==> n.weight.value >= 0.0)
      && (forall l {:trigger l.weight} :: l in links && l.weight.Finite? ==> l.weight.value > 0.0)
    }

    lemma PositiveWeighable(t: Node)
      requires Positive() && t in nodes
      ensures Weighable(t, set n | n in nodes)
    {
    }

    // done are the settled nodes, q the labelled ones waiting.
    ghost predicate Waiting(done: set<Node>, q: seq<Node>, t: Node)
      reads this`nodes, nodes`dist
    {
      && t in nodes && t.dist == Finite(0.0)
      && (t in done || (done == {} && q == [t]))
      && (forall n {:trigger n in done} :: n in done ==> n in nodes && n !in q)
      && (forall n {:trigger n in q} :: n in q ==> n in nodes)
      && (forall n {:trigger n.dist} :: n in nodes ==> (n.dist.Finite? <==> n in done || n in q))
      && Distinct(q)
    }

    // The queue is in order of distance, and nothing in it is nearer than d.
    ghost predicate Ascending(q: seq<Node>, d: Cost)
      reads q`dist
    {
      && (forall i, j :: 0 <= i < j < |q| ==> q[i].dist.AtMost(q[j].dist))
      && (forall i {:trigger q[i]} :: 0 <= i < |q| ==> d.AtMost(q[i].dist))
    }

    // Only nodes that the search may meet are labelled.
    ghost predicate Within(met: set<Node>)
      reads this`nodes, nodes`dist
    {
      forall n {:trigger n.dist} :: n in nodes && n.dist.Finite? ==> n in met
    }

    // The labels are sound: a label that is not settled yet is one step from a settled node.
    ghost predicate Sound(done: set<Node>, t: Node, weighted: bool)
      reads this`nodes, this`links, links`enabled, links`srcNode, links`destNode, links`weight
      reads nodes`enabled, nodes`inLinks, nodes`weight, nodes`dist, nodes`rank, nodes`outPath
    {
      && (forall n {:trigger n in done} :: n in done && n in nodes ==> n.rank < |done|)
      && (forall v {:trigger LabelOk(v, done, t, weighted)} :: v in nodes && v != t && v.dist.Finite? ==> LabelOk(v, done, t, weighted))
      && (forall v {:trigger Unmarked(v, t)} :: v in nodes ==> Unmarked(v, t))
    }

    ghost predicate LabelOk(v: Node, done: set<Node>, t: Node, weighted: bool)
      reads v`dist, v`outPath, v`rank, this`nodes, this`links, links`enabled, links`srcNode, links`destNode, links`weight
      reads nodes`enabled, nodes`inLinks, nodes`weight, nodes`dist, nodes`rank
    {
      && v.outPath != null && Usable(v.outPath) && v.outPath.srcNode == v && v.outPath.destNode in done
      && (v in done ==> v.outPath.destNode.rank < v.rank)
      && v.dist == Step(v.outPath, t, weighted).Plus(v.outPath.destNode.dist)
    }

    // All links into the settled nodes but d are relaxed, and the first i into d.
    ghost predicate Scanned(done: set<Node>, d: Node, i: nat, t: Node, weighted: bool)
      reads this`nodes, this`links, links`enabled, links`srcNode, links`destNode, links`weight
      reads nodes`enabled, nodes`inLinks, nodes`weight, nodes`dist, d`inLinks, d`dist
    {
      && (forall l {:trigger Relaxed(l, t, weighted)} :: l in links && l.destNode in done && l.destNode != d ==> Relaxed(l, t, weighted))
      && (forall j {:trigger d.inLinks[j]} :: 0 <= j < i && j < |d.inLinks| ==> Relaxed(d.inLinks[j], t, weighted))
      && (forall n {:trigger n in done} :: n in done && n in nodes ==> n.dist.AtMost(d.dist))
    }

    // Inserts src in front of the first farther node.
    method Enqueue(q: seq<Node>, src: Node, ghost d: Cost) returns (q': seq<Node>, ghost k: nat)
      requires Ascending(q, d) && d.AtMost(src.dist) && src !in q && Distinct(q)
      ensures k <= |q| && q' == q[..k] + [src] + q[k..]
      ensures Ascending(q', d) && Distinct(q')
    {
      var i := 0;
      while i < |q| && q[i].dist.AtMost(src.dist)
        invariant i <= |q|
        invariant forall j :: 0 <= j < i ==> q[j].dist.AtMost(src.dist)
      {
        i := i + 1;
      }
      k := i;
      q' := q[..i] + [src] + q[i..];
      assert forall j {:trigger q[j]} :: i <= j < |q| ==> src.dist.AtMost(q[j].dist);
      assert forall j {:trigger q'[j]} :: i < j < |q'| ==> q'[j] == q[j - 1];
    }

    lemma {:induction false} WithoutKeeps(q: seq<Node>, n: Node, d: Cost)
      requires Ascending(q, d) && Distinct(q)
      ensures Ascending(Keep(q, {n}), d) && Distinct(Keep(q, {n}))
    {
      if q != [] {
        assert forall i, j :: 0 <= i < j < |q[1..]| ==> q[1..][i] == q[i + 1] && q[1..][j] == q[j + 1];
        WithoutKeeps(q[1..], n, d);
      }
    }

    // src got a finite label that is shorter than before; nothing else changed.
    twostate predicate Shortened(src: Node, l: Link)
      reads this, links, nodes, src
    {
      && nodes == old(nodes) && links == old(links) && src in nodes
      && src.dist.Finite? && src.dist.AtMost(old(src.dist)) && src.outPath == l
      && (forall k {:trigger k.enabled} :: k in links ==> k.enabled == old(k.enabled))
      && (forall k {:trigger k.srcNode} :: k in links ==> k.srcNode == old(k.srcNode))
      && (forall k {:trigger k.destNode} :: k in links ==> k.destNode == old(k.destNode))
      && (forall k {:trigger k.weight} :: k in links ==> k.weight == old(k.weight))
      && (forall n {:trigger n.enabled} :: n in nodes ==> n.enabled == old(n.enabled))
      && (forall n {:trigger n.inLinks} :: n in nodes ==> n.inLinks == old(n.inLinks))
      && (forall n {:trigger n.weight} :: n in nodes ==> n.weight == old(n.weight))
      && (forall n {:trigger n.rank} :: n in nodes ==> n.rank == old(n.rank))
      && (forall n {:trigger n.dist} :: n in nodes && n != src ==> n.dist == old(n.dist))
      && (forall n {:trigger n.outPath} :: n in nodes && n != src ==> n.outPath == old(n.outPath))
    }

    twostate lemma ShortenedSound(new src: Node, new l: Link, new done: set<Node>, new t: Node, new weighted: bool)
      requires src in old(nodes) && l in old(links) && done <= set n | n in old(nodes)
      requires t in old(nodes)
      requires Shortened(src, l) && src !in done && src != t && old(Sound(done, t, weighted))
      requires old(Usable(l) && l.srcNode == src && l.destNode in done) && src.dist == old(Step(l, t, weighted).Plus(l.destNode.dist))
      ensures Sound(done, t, weighted)
    {
      forall v | v in nodes && v != t && v.dist.Finite? ensures LabelOk(v, done, t, weighted) {
        if v != src { assert old(LabelOk(v, done, t, weighted)); }
      }
      forall v | v in nodes ensures Unmarked(v, t) {
        assert old(Unmarked(v, t));
      }
    }

    twostate lemma ShortenedScanned(new src: Node, new l: Link, new done: set<Node>, new d: Node, new i: nat,
                                    new t: Node, new weighted: bool)
      requires src in old(nodes) && l in old(links) && d in old(nodes) && t in old(nodes) && done <= set n | n in old(nodes)
      requires Shortened(src, l) && src !in done && d in done && old(Incoming())
      requires old(Scanned(done, d, i, t, weighted) && Usable(l) && l.srcNode == src && l.destNode == d)
      requires i < |d.inLinks| && l == d.inLinks[i] && src.dist == old(Step(l, t, weighted).Plus(d.dist))
      ensures Scanned(done, d, i + 1, t, weighted)
    {
      forall k | k in links && k.destNode in done && k.destNode != d ensures Relaxed(k, t, weighted) {
        assert old(Relaxed(k, t, weighted));
      }
      forall j | 0 <= j < i + 1 && j < |d.inLinks| ensures Relaxed(d.inLinks[j], t, weighted) {
        assert old(Enters(d.inLinks[j], d));
        if j < i { assert old(Relaxed(d.inLinks[j], t, weighted)); }
      }
    }

    // l, the link number i into dest, offers src a shorter way.
    method Improve(src: Node, dest: Node, ghost i: nat, l: Link, newdist: Cost, q: seq<Node>, ghost done: set<Node>, ghost t: Node)
      returns (q': seq<Node>)
      requires Incoming() && t in done && dest in done
      requires i < |dest.inLinks| && l == dest.inLinks[i] && Usable(l) && src == l.srcNode && dest == l.destNode
      requires Waiting(done, q, t) && Ascending(q, dest.dist) && Sound(done, t, true) && Scanned(done, dest, i, t, true)
      requires newdist.Finite? && newdist == Step(l, t, true).Plus(dest.dist) && dest.dist.AtMost(newdist) && !src.dist.AtMost(newdist)
      modifies src`dist, src`outPath
      ensures Waiting(done, q', t) && Ascending(q', dest.dist) && Sound(done, t, true) && Scanned(done, dest, i + 1, t, true)
      ensures dest.dist == old(dest.dist)
    {
      assert src !in done;
      q' := Requeue(src, newdist, l, q, done, t, dest.dist);
      ShortenedSound(src, l, done, t, true);
      ShortenedScanned(src, l, done, dest, i, t, true);
    }

    // The queue without src, which is in it only if it has a label.
    method Unqueue(src: Node, q: seq<Node>, ghost d: Cost) returns (q': seq<Node>)
      requires Ascending(q, d) && Distinct(q) && (src.dist == Infinity ==> src !in q)
      ensures Ascending(q', d) && Distinct(q') && src !in q'
      ensures forall n {:trigger n in q'} :: n in q' <==> n in q && n != src
    {
      q' := q;
      if src.dist != Infinity {
        WithoutKeeps(q, src, d);
        q' := Keep(q, {src});
      }
    }

    // Gives src its new label and its new place in the queue.
    method Requeue(src: Node, newdist: Cost, l: Link, q: seq<Node>, ghost done: set<Node>, ghost t: Node, ghost d: Cost)
      returns (q': seq<Node>)
      requires src in nodes && src !in done && t in done
      requires Waiting(done, q, t) && Ascending(q, d) && newdist.Finite? && d.AtMost(newdist)
      modifies src`dist, src`outPath
      ensures Waiting(done, q', t) && Ascending(q', d) && src.dist == newdist && src.outPath == l
    {
      q' := Unqueue(src, q, d);
      src.dist := newdist;
      src.outPath := l;
      ghost var before, k := q', 0;
      q', k := Enqueue(q', src, d);
      assert forall n {:trigger n in q'} :: n in q' <==> n in before || n == src;
    }

    // The loop over the incoming links of dest.
    method Scan(dest: Node, queue: seq<Node>, ghost done: set<Node>, t: Node, ghost met: set<Node>) returns (q: seq<Node>)
      requires Incoming() && Weighable(t, met) && t in done && dest in done && dest in met && dest.dist.Finite?
      requires Waiting(done, queue, t) && Ascending(queue, dest.dist) && Sound(done, t, true) && Scanned(done, dest, 0, t, true)
      requires Within(met)
      modifies nodes`dist, nodes`outPath
      ensures Waiting(done, q, t) && Ascending(q, dest.dist) && Sound(done, t, true) && Within(met)
      ensures Scanned(done, dest, |dest.inLinks|, t, true) && dest.dist == old(dest.dist)
    {
      q := queue;
      for i := 0 to |dest.inLinks|
        invariant Waiting(done, q, t) && Ascending(q, dest.dist) && Sound(done, t, true) && Within(met)
        invariant Scanned(done, dest, i, t, true) && dest.dist == old(dest.dist)
      {
        q := ScanLink(dest, i, q, done, t, met);
      }
    }

    // One round of it.
    method ScanLink(dest: Node, i: nat, queue: seq<Node>, ghost done: set<Node>, t: Node, ghost met: set<Node>)
      returns (q: seq<Node>)
      requires Incoming() && Weighable(t, met) && t in done && dest in done && dest in met && dest.dist.Finite?
      requires i < |dest.inLinks| && Within(met) && Waiting(done, queue, t) && Ascending(queue, dest.dist)
      requires Sound(done, t, true) && Scanned(done, dest, i, t, true)
      modifies nodes`dist, nodes`outPath
      ensures Waiting(done, q, t) && Ascending(q, dest.dist) && Sound(done, t, true) && Within(met)
      ensures Scanned(done, dest, i + 1, t, true) && dest.dist == old(dest.dist)
    {
      q := queue;
      var l := dest.inLinks[i];
      assert Enters(l, dest);
      if !l.enabled {
        return;
      }
      var src := l.srcNode;
      if !src.enabled {
        return;
      }
      assert Usable(l);
      var newdist := dest.dist.Plus(l.weight);
      if dest != t {
        newdist := newdist.Plus(dest.weight);
      }
      if newdist != Infinity && !src.dist.AtMost(newdist) {
        q := Improve(src, dest, i, l, newdist, q, done, t);
      }
    }

    // All links into settled nodes are relaxed.
    ghost predicate AllScanned(done: set<Node>, t: Node, weighted: bool)
      reads this`nodes, this`links, links`enabled, links`srcNode, links`destNode, links`weight
      reads nodes`enabled, nodes`inLinks, nodes`weight, nodes`dist
    {
      forall l {:trigger Relaxed(l, t, weighted)} :: l in links && l.destNode in done ==> Relaxed(l, t, weighted)
    }

    // No settled node is farther than a waiting one.
    ghost predicate Ahead(done: set<Node>, q: seq<Node>)
      reads done`dist, q`dist
    {
      && (forall i, j :: 0 <= i < j < |q| ==> q[i].dist.AtMost(q[j].dist))
      && (forall d, i {:trigger d in done, q[i]} :: d in done && 0 <= i < |q| ==> d.dist.AtMost(q[i].dist))
    }

    // Taking the nearest waiting node off the queue.
    lemma Popped(dest: Node, done: set<Node>, q: seq<Node>, t: Node)
      requires q != [] && dest == q[0] && Waiting(done, q, t) && Ahead(done, q)
      ensures Waiting(done + {dest}, q[1..], t) && Ascending(q[1..], dest.dist) && t in done + {dest}
      ensures dest in nodes && dest !in done && forall n {:trigger n in done} :: n in done ==> n in nodes && n.dist.AtMost(dest.dist)
    {
      assert q == [dest] + q[1..];
      assert dest in q && dest !in q[1..];
      forall n {:trigger n in q[1..]} ensures n in q <==> n == dest || n in q[1..] {
      }
      assert forall i {:trigger q[1..][i]} :: 0 <= i < |q[1..]| ==> q[1..][i] == q[i + 1];
    }

    // Settles dest.
    ghost method Settle(dest: Node, done: set<Node>, t: Node, weighted: bool)
      requires dest in nodes && dest !in done && t in nodes && (t in done || t == dest)
      requires forall n {:trigger n in done} :: n in done ==> n in nodes && n.dist.AtMost(dest.dist)
      requires Sound(done, t, weighted) && AllScanned(done, t, weighted) && dest.dist.Finite?
      modifies dest`rank
      ensures Sound(done + {dest}, t, weighted) && Scanned(done + {dest}, dest, 0, t, weighted)
    {
      SettledScanned(dest, done, t, weighted);
      dest.rank := |done|;
      forall v | v in nodes && v != t && v.dist.Finite? ensures LabelOk(v, done + {dest}, t, weighted) {
        assert old(LabelOk(v, done, t, weighted));
      }
      forall v | v in nodes ensures Unmarked(v, t) {
        assert old(Unmarked(v, t));
      }
    }

    lemma SettledScanned(dest: Node, done: set<Node>, t: Node, weighted: bool)
      requires dest in nodes && forall n {:trigger n in done} :: n in done ==> n in nodes && n.dist.AtMost(dest.dist)
      requires AllScanned(done, t, weighted) && dest.dist.Finite?
      ensures Scanned(done + {dest}, dest, 0, t, weighted)
    {
    }

    lemma ScannedAll(done: set<Node>, dest: Node, q: seq<Node>, t: Node, weighted: bool)
      requires Incoming() && dest in nodes && dest in done && forall n {:trigger n in done} :: n in done ==> n in nodes
      requires Scanned(done, dest, |dest.inLinks|, t, weighted) && Ascending(q, dest.dist)
      ensures AllScanned(done, t, weighted) && Ahead(done, q)
    {
      forall l | l in links && l.destNode in done ensures Relaxed(l, t, weighted) {
        if l.destNode == dest && Usable(l) {
          assert l in dest.inLinks;
          var j :| 0 <= j < |dest.inLinks| && dest.inLinks[j] == l;
        }
      }
    }

    lemma AllLabelled(done: set<Node>, t: Node, weighted: bool)
      requires Waiting(done, [], t) && Sound(done, t, weighted) && AllScanned(done, t, weighted)
      ensures Labelled(t, weighted)
    {
      forall v | v in nodes && v != t && v.dist.Finite? ensures Tight(v, t, weighted) {
        assert LabelOk(v, done, t, weighted);
      }
      assert forall v :: v in nodes ==> Unmarked(v, t);
      forall l | l in links ensures Relaxed(l, t, weighted) {
        if l.destNode !in done && Usable(l) { assert l.destNode.dist == Infinity; }
      }
    }

    // Clears the labels and gives the target distance 0.
    method ResetLabels(t: Node)
      requires t in nodes
      modifies nodes`dist, nodes`outPath
      ensures Waiting({}, [t], t) && forall v {:trigger Unmarked(v, t)} :: v in nodes ==> Unmarked(v, t)
    {
      for i := 0 to |nodes|
        invariant forall j :: 0 <= j < i ==> nodes[j].dist == Infinity && nodes[j].outPath == null
      {
        nodes[i].dist, nodes[i].outPath := Infinity, null;
      }
      t.dist := Finite(0.0);
    }

    // The loop invariant of both methods.
    ghost predicate Progress(done: set<Node>, q: seq<Node>, t: Node, weighted: bool)
      reads this`nodes, this`links, links`enabled, links`srcNode, links`destNode, links`weight
      reads nodes`enabled, nodes`inLinks, nodes`weight, nodes`dist, nodes`rank, nodes`outPath, done`dist, q`dist
    {
      Waiting(done, q, t) && Ahead(done, q) && Sound(done, t, weighted) && AllScanned(done, t, weighted)
    }

    // One round of the weighted method.
    method SettleNext(dest: Node, queue: seq<Node>, ghost done: set<Node>, t: Node, ghost met: set<Node>) returns (q: seq<Node>)
      requires queue != [] && dest == queue[0] && Incoming() && Weighable(t, met) && Progress(done, queue, t, true) && Within(met)
      modifies nodes`dist, nodes`outPath, nodes`rank
      ensures Progress(done + {dest}, q, t, true) && dest !in done && Within(met)
    {
      Popped(dest, done, queue, t);
      Settle(dest, done, t, true);
      q := Scan(dest, queue[1..], done + {dest}, t, met);
      ScannedAll(done + {dest}, dest, q, t, true);
    }

    // The main loop of the weighted method.
    method SettleAll(t: Node, ghost met: set<Node>)
      requires Incoming() && Weighable(t, met) && Waiting({}, [t], t) && forall v {:trigger Unmarked(v, t)} :: v in nodes ==> Unmarked(v, t)
      modifies nodes`dist, nodes`outPath, nodes`rank
      ensures Labelled(t, true)
    {
      var q: seq<Node> := [t];
      ghost var done: set<Node> := {};
      while q != []
        invariant Progress(done, q, t, true) && Within(met)
        decreases (set n | n in nodes) - done
      {
        ghost var dest := q[0];
        q := SettleNext(q[0], q, done, t, met);
        done := done + {dest};
      }
      AllLabelled(done, t, true);
    }

    // Shortest paths to t over link and node weights. It fails if there is no target.
    method CalculateWeightedSingleShortestPathsTo(t: Node?, ghost met: set<Node>) returns (ok: bool)
      requires t != null ==> t in nodes && Weighable(t, met)
      requires Incoming()
      modifies this`target, nodes`dist, nodes`outPath, nodes`rank
      ensures ok <==> t != null
      ensures ok ==> target == t && Labelled(t, true)
      ensures ok ==> forall v {:trigger v.outPath} :: v in nodes ==> (v.outPath != null <==> v != t && v.dist.Finite?)
      ensures ok ==> forall v, p {:trigger Path(p, v, t)} :: v in nodes && Path(p, v, t) ==> v.dist.AtMost(Length(p, v, t, true))
      ensures ok ==> forall v {:trigger Route(v, t, true)} :: v in nodes && v.dist.Finite? ==>
        Path(Route(v, t, true), v, t) && Length(Route(v, t, true), v, t, true) == v.dist
    {
      ok := t != null;
      if !ok {
        return;
      }
      target := t;
      ResetLabels(t);
      SettleAll(t, met);
      forall v | v in nodes ensures v.outPath != null <==> v != t && v.dist.Finite? {
        MarkedExactly(v, t, true);
      }
      forall v, p | v in nodes && Path(p, v, t) ensures v.dist.AtMost(Length(p, v, t, true)) {
        NoShorter(p, v, t, true);
      }
      forall v | v in nodes && v.dist.Finite?
        ensures Path(Route(v, t, true), v, t) && Length(Route(v, t, true), v, t, true) == v.dist
      {
        RouteIsShortest(v, t, true);
      }
    }

    // ---------- the unweighted method ----------

    // Nothing in q is more than a hop farther than d.
    ghost predicate Level(q: seq<Node>, d: Cost)
      reads q`dist
    {
      forall i {:trigger q[i]} :: 0 <= i < |q| ==> q[i].dist.AtMost(d.Plus(Finite(1.0)))
    }

    // Labels src and appends it to the queue.
    method Append(src: Node, dest: Node, ghost i: nat, l: Link, q: seq<Node>, ghost done: set<Node>, ghost t: Node)
      returns (q': seq<Node>)
      requires Incoming() && t in done && dest in done && src.dist == Infinity
      requires i < |dest.inLinks| && l == dest.inLinks[i] && Usable(l) && src == l.srcNode && dest == l.destNode
      requires Waiting(done, q, t) && Ascending(q, dest.dist) && Level(q, dest.dist)
      requires Sound(done, t, false) && Scanned(done, dest, i, t, false) && dest.dist.Finite?
      modifies src`dist, src`outPath
      ensures q' == q + [src] && dest.dist == old(dest.dist)
      ensures Waiting(done, q', t) && Ascending(q', dest.dist) && Level(q', dest.dist)
      ensures Sound(done, t, false) && Scanned(done, dest, i + 1, t, false)
    {
      assert src !in done && src !in q;
      src.dist := dest.dist.Plus(Finite(1.0));
      src.outPath := l;
      q' := q + [src];
      assert forall n {:trigger n in q'} :: n in q' <==> n in q || n == src;
      ShortenedSound(src, l, done, t, false);
      ShortenedScanned(src, l, done, dest, i, t, false);
    }

    // The loop over the incoming links of dest.
    method Spread(dest: Node, queue: seq<Node>, ghost done: set<Node>, ghost t: Node) returns (q: seq<Node>)
      requires Incoming() && t in done && dest in done && dest.dist.Finite?
      requires Waiting(done, queue, t) && Ascending(queue, dest.dist) && Level(queue, dest.dist)
      requires Sound(done, t, false) && Scanned(done, dest, 0, t, false)
      modifies nodes`dist, nodes`outPath
      ensures Waiting(done, q, t) && Ascending(q, dest.dist) && Level(q, dest.dist)
      ensures Sound(done, t, false) && Scanned(done, dest, |dest.inLinks|, t, false) && dest.dist == old(dest.dist)
    {
      q := queue;
      for i := 0 to |dest.inLinks|
        invariant Waiting(done, q, t) && Ascending(q, dest.dist) && Level(q, dest.dist)
        invariant Sound(done, t, false) && Scanned(done, dest, i, t, false) && dest.dist == old(dest.dist)
      {
        var l := dest.inLinks[i];
        assert Enters(l, dest);
        if !l.enabled {
          continue;
        }
        var w := l.srcNode;
        if !w.enabled {
          continue;
        }
        assert Usable(l);
        if w.dist == Infinity {
          q := Append(w, dest, i, l, q, done, t);
        }
      }
    }

    // One round of the unweighted method.
    method SpreadNext(v: Node, queue: seq<Node>, ghost done: set<Node>, ghost t: Node) returns (q: seq<Node>)
      requires queue != [] && v == queue[0] && Incoming() && Progress(done, queue, t, false) && Level(queue, v.dist)
      modifies nodes`dist, nodes`outPath, nodes`rank
      ensures Progress(done + {v}, q, t, false) && v !in done
      ensures q != [] ==> Level(q, q[0].dist)
    {
      Popped(v, done, queue, t);
      Settle(v, done, t, false);
      assert forall i {:trigger queue[1..][i]} :: 0 <= i < |queue[1..]| ==> queue[1..][i] == queue[i + 1];
      q := Spread(v, queue[1..], done + {v}, t);
      ScannedAll(done + {v}, v, q, t, false);
    }

    // The fewest hops to t. It fails if there is no target.
    method CalculateUnweightedSingleShortestPathsTo(t: Node?) returns (ok: bool)
      requires t != null ==> t in nodes
      requires Incoming()
      modifies this`target, nodes`dist, nodes`outPath, nodes`rank
      ensures ok <==> t != null
      ensures ok ==> target == t && Labelled(t, false)
      ensures ok ==> forall v {:trigger v.outPath} :: v in nodes ==> (v.outPath != null <==> v != t && v.dist.Finite?)
      ensures ok ==> forall v, p {:trigger Path(p, v, t)} :: v in nodes && Path(p, v, t) ==> v.dist.AtMost(Finite(|p| as real))
      ensures ok ==> forall v {:trigger Route(v, t, false)} :: v in nodes && v.dist.Finite? ==>
        Path(Route(v, t, false), v, t) && v.dist == Finite(|Route(v, t, false)| as real)
    {
      ok := t != null;
      if !ok {
        return;
      }
      target := t;
      ResetLabels(t);
      Flood(t);
      forall v | v in nodes ensures v.outPath != null <==> v != t && v.dist.Finite? {
        MarkedExactly(v, t, false);
      }
      forall v, p | v in nodes && Path(p, v, t) ensures v.dist.AtMost(Finite(|p| as real)) {
        NoShorter(p, v, t, false);
        Hops(p, v, t);
      }
      forall v | v in nodes && v.dist.Finite?
        ensures Path(Route(v, t, false), v, t) && v.dist == Finite(|Route(v, t, false)| as real)
      {
        RouteIsShortest(v, t, false);
      }
    }

    lemma {:induction false} Hops(p: seq<Link>, v: Node, t: Node)
      requires Path(p, v, t)
      ensures Length(p, v, t, false) == Finite(|p| as real)
      decreases p
    {
      if p != [] {
        Hops(p[1..], p[0].destNode, t);
      }
    }

    // The main loop of the unweighted method.
    method Flood(t: Node)
      requires Incoming() && Waiting({}, [t], t) && forall v {:trigger Unmarked(v, t)} :: v in nodes ==> Unmarked(v, t)
      modifies nodes`dist, nodes`outPath, nodes`rank
      ensures Labelled(t, false)
    {
      var q: seq<Node> := [t];
      ghost var done: set<Node> := {};
      while q != []
        invariant Progress(done, q, t, false) && (q != [] ==> Level(q, q[0].dist))
        decreases (set n | n in nodes) - done
      {
        ghost var v := q[0];
        q := SpreadNext(q[0], q, done, t);
        done := done + {v};
      }
      AllLabelled(done, t, false);
    }

    // ---------- editing the graph ----------

    // n lists links of the graph, each once and at the right end.
    ghost predicate Lists(n: Node)
      reads n`inLinks, n`outLinks, this`links, links`srcNode, links`destNode
    {
      && Distinct(n.inLinks) && Distinct(n.outLinks)
      && (forall l {:trigger l in n.inLinks} :: l in n.inLinks ==> l in links && l.destNode == n)
      && (forall l {:trigger l in n.outLinks} :: l in n.outLinks ==> l in links && l.srcNode == n)
    }

    // l is listed at both its ends.
    ghost predicate Listed(l: Link)
      reads l`srcNode, l`destNode, this`nodes, nodes`inLinks, nodes`outLinks
    {
      && l.srcNode != null && l.srcNode in nodes && l in l.srcNode.outLinks
      && l.destNode != null && l.destNode in nodes && l in l.destNode.inLinks
    }

    ghost predicate Wired()
      reads this`nodes, this`links, nodes`inLinks, nodes`outLinks, links`srcNode, links`destNode
    {
      && (forall n {:trigger Lists(n)} :: n in nodes ==> Lists(n))
      && (forall l {:trigger Listed(l)} :: l in links ==> Listed(l))
    }

    // The nodes come in order of their unsigned module ids.
    ghost predicate InOrder()
      reads this`nodes
    {
      && Distinct(nodes)
      && (forall i, j :: 0 <= i < j < |nodes| ==> Unsigned(nodes[i].moduleId) <= Unsigned(nodes[j].moduleId))
    }

    ghost predicate Valid()
      reads this`nodes, this`links, nodes`inLinks, nodes`outLinks, links`srcNode, links`destNode
    {
      Wired() && InOrder()
    }

    // What the shortest-path methods need of the graph.
    lemma ValidIncoming()
      requires Valid()
      ensures Incoming()
    {
      forall n, l | n in nodes && l in n.inLinks ensures Enters(l, n) {
        assert Lists(n) && Listed(l);
      }
    }

    // std::lower_bound over the module ids.
    method LowerBound(id: Int32) returns (k: nat)
      requires InOrder()
      ensures k <= |nodes|
      ensures forall i :: 0 <= i < k ==> Unsigned(nodes[i].moduleId) < Unsigned(id)
      ensures forall i :: k <= i < |nodes| ==> Unsigned(id) <= Unsigned(nodes[i].moduleId)
    {
      var lo, hi := 0, |nodes|;
      while lo < hi
        invariant 0 <= lo <= hi <= |nodes|
        invariant forall i :: 0 <= i < lo ==> Unsigned(nodes[i].moduleId) < Unsigned(id)
        invariant forall i :: hi <= i < |nodes| ==> Unsigned(id) <= Unsigned(nodes[i].moduleId)
      {
        var mid := (lo + hi) / 2;
        if Unsigned(nodes[mid].moduleId) < Unsigned(id) {
          lo := mid + 1;
        } else {
          hi := mid;
        }
      }
      k := lo;
    }

    // Some node of the graph stands for the module with this id.
    ghost predicate HasModule(id: Int32)
      reads this`nodes
    {
      exists i :: 0 <= i < |nodes| && nodes[i].moduleId == id
    }

    // The node of the module with this id, if there is one.
    method GetNodeFor(id: Int32) returns (node: Node?)
      requires InOrder()
      ensures node != null <==> HasModule(id)
      ensures node != null ==> node in nodes && node.moduleId == id
    {
      var k := LowerBound(id);
      node := if k == |nodes| || nodes[k].moduleId != id then null else nodes[k];
    }

    method AddNode(node: Node) returns (k: nat)
      requires Valid() && node !in nodes && node.inLinks == [] && node.outLinks == []
      modifies this`nodes
      ensures Valid() && k <= |old(nodes)| && nodes == old(nodes)[..k] + [node] + old(nodes)[k..]
      ensures node.moduleId == -1 ==> k == |old(nodes)|
      ensures node.moduleId != -1 ==> forall i :: 0 <= i < k ==> Unsigned(old(nodes)[i].moduleId) < Unsigned(node.moduleId)
      ensures forall n {:trigger n in nodes} :: n in nodes <==> n in old(nodes) || n == node
      ensures links == old(links)
    {
      if node.moduleId == -1 {
        k := |nodes|;
      } else {
        k := LowerBound(node.moduleId);
      }
      ghost var before := nodes;
      nodes := nodes[..k] + [node] + nodes[k..];
      assert forall n {:trigger n in nodes} :: n in nodes <==> n in before || n == node;
      forall n | n in nodes ensures Lists(n) {
        if n != node { assert old(Lists(n)); }
      }
      forall l | l in links ensures Listed(l) {
        assert old(Listed(l));
      }
    }

    // Erasing the first occurrence, as find and erase do.
    static function Erase<T(==)>(s: seq<T>, x: T): (r: seq<T>)
    {
      if s == [] then []
      else if s[0] == x then s[1..]
      else [s[0]] + Erase(s[1..], x)
    }

    static lemma {:induction false} EraseKeeps<T>(s: seq<T>, x: T)
      requires Distinct(s)
      ensures Erase(s, x) == Keep(s, {x})
    {
      if s != [] {
        DistinctTail(s);
        EraseKeeps(s[1..], x);
        if s[0] == x {
          KeepAll(s[1..], {x});
        }
      }
    }

    static lemma {:induction false} KeepAll<T>(s: seq<T>, gone: set<T>)
      requires forall i :: 0 <= i < |s| ==> s[i] !in gone
      ensures Keep(s, gone) == s
    {
      if s != [] {
        KeepAll(s[1..], gone);
      }
    }

    static lemma {:induction false} KeepTwice<T>(s: seq<T>, a: set<T>, b: set<T>)
      ensures Keep(Keep(s, a), b) == Keep(s, a + b)
    {
      if s != [] {
        KeepTwice(s[1..], a, b);
        if s[0] !in a {
          assert Keep(s, a)[1..] == Keep(s[1..], a);
        }
      }
    }

    static lemma {:induction false} KeepDistinct<T>(s: seq<T>, gone: set<T>)
      requires Distinct(s)
      ensures Distinct(Keep(s, gone))
    {
      if s != [] {
        DistinctTail(s);
        KeepDistinct(s[1..], gone);
      }
    }

    method UnlinkFromSourceNode(link: Link)
      requires link.srcNode != null && link in link.srcNode.outLinks && Distinct(link.srcNode.outLinks)
      modifies link.srcNode`outLinks
      ensures link.srcNode.outLinks == Keep(old(link.srcNode.outLinks), {link})
    {
      EraseKeeps(link.srcNode.outLinks, link);
      link.srcNode.outLinks := Erase(link.srcNode.outLinks, link);
    }

    method UnlinkFromDestNode(link: Link)
      requires link.destNode != null && link in link.destNode.inLinks && Distinct(link.destNode.inLinks)
      modifies link.destNode`inLinks
      ensures link.destNode.inLinks == Keep(old(link.destNode.inLinks), {link})
    {
      EraseKeeps(link.destNode.inLinks, link);
      link.destNode.inLinks := Erase(link.destNode.inLinks, link);
    }

    // The links in gone were dropped from all lists.
    twostate predicate Dropped(new gone: set<Link>)
      reads this, nodes
    {
      && nodes == old(nodes) && links == old(links) - gone
      && (forall n {:trigger n.inLinks} :: n in nodes ==> n.inLinks == Keep(old(n.inLinks), gone))
      && (forall n {:trigger n.outLinks} :: n in nodes ==> n.outLinks == Keep(old(n.outLinks), gone))
    }

    twostate lemma DroppedWired(new gone: set<Link>)
      requires old(Wired()) && Dropped(gone)
      requires forall l {:trigger l.srcNode} {:trigger l.destNode} :: l in links ==>
        l.srcNode == old(l.srcNode) && l.destNode == old(l.destNode)
      ensures Wired()
    {
      forall n | n in nodes ensures Lists(n) {
        assert old(Lists(n));
        KeepDistinct(old(n.inLinks), gone);
        KeepDistinct(old(n.outLinks), gone);
      }
      forall l | l in links ensures Listed(l) {
        assert old(Listed(l));
      }
    }

    // Drops link from both lists it is in, if it is in the graph.
    method Unlink(link: Link)
      requires Wired() && (link in links || (link.srcNode == null && link.destNode == null))
      modifies this`links, nodes`inLinks, nodes`outLinks
      ensures Wired() && Dropped({link})
    {
      if link in links {
        assert Listed(link) && Lists(link.srcNode) && Lists(link.destNode);
      }
      if link.srcNode != null {
        UnlinkFromSourceNode(link);
      }
      if link.destNode != null {
        UnlinkFromDestNode(link);
      }
      links := links - {link};
      forall n | n in nodes
        ensures n.inLinks == Keep(old(n.inLinks), {link}) && n.outLinks == Keep(old(n.outLinks), {link})
      {
        assert old(Lists(n));
        if n != link.srcNode { assert link !in n.outLinks; KeepAll(n.outLinks, {link}); }
        if n != link.destNode { assert link !in n.inLinks; KeepAll(n.inLinks, {link}); }
      }
      DroppedWired({link});
    }

    method DeleteLink(link: Link)
      requires Valid() && link in links
      modifies this`links, nodes`inLinks, nodes`outLinks
      ensures Valid() && Dropped({link})
    {
      Unlink(link);
    }

    // Lists link, which is in no list, at its two ends.
    method Attach(link: Link)
      requires Wired() && link !in links
      requires link.srcNode != null && link.srcNode in nodes && link.destNode != null && link.destNode in nodes
      modifies this`links, link.srcNode`outLinks, link.destNode`inLinks
      ensures Wired() && links == old(links) + {link}
      ensures link.srcNode.outLinks == old(link.srcNode.outLinks) + [link]
      ensures link.destNode.inLinks == old(link.destNode.inLinks) + [link]
    {
      assert Lists(link.srcNode) && Lists(link.destNode);
      assert link !in link.srcNode.outLinks && link !in link.destNode.inLinks;
      link.srcNode.outLinks := link.srcNode.outLinks + [link];
      link.destNode.inLinks := link.destNode.inLinks + [link];
      links := links + {link};
      forall n | n in nodes ensures Lists(n) {
        assert old(Lists(n));
      }
      forall l | l in links ensures Listed(l) {
        if l != link { assert old(Listed(l)); }
      }
    }

    // Puts link between srcNode and destNode, taking it from where it was before.
    method AddLink(link: Link, srcNode: Node, destNode: Node)
      requires Valid() && srcNode in nodes && destNode in nodes
      requires Placeable(link)
      modifies this`links, nodes`inLinks, nodes`outLinks
      modifies link`srcNode, link`destNode, link`srcGateId, link`destGateId
      ensures Valid() && links == old(links) + {link} && nodes == old(nodes)
      ensures link.srcNode == srcNode && link.destNode == destNode
      ensures link.srcGateId == (if old(link.srcNode) == srcNode then old(link.srcGateId) else -1)
      ensures link.destGateId == (if old(link.destNode) == destNode then old(link.destGateId) else -1)
      ensures forall n {:trigger n.inLinks} :: n in nodes ==>
        n.inLinks == Keep(old(n.inLinks), {link}) + (if n == destNode then [link] else [])
      ensures forall n {:trigger n.outLinks} :: n in nodes ==>
        n.outLinks == Keep(old(n.outLinks), {link}) + (if n == srcNode then [link] else [])
    {
      Unlink(link);
      SetEnds(link, srcNode, destNode);
      Attach(link);
    }

    // A link with a good weight may be added to a graph that has no others.
    method AddGoodLink(link: Link, srcNode: Node, destNode: Node)
      requires Valid() && Positive() && srcNode in nodes && destNode in nodes && Placeable(link)
      requires link.weight.Finite? ==> link.weight.value > 0.0
      modifies this`links, nodes`inLinks, nodes`outLinks
      modifies link`srcNode, link`destNode, link`srcGateId, link`destGateId
      ensures Valid() && Positive() && links == old(links) + {link} && link.srcNode == srcNode && link.destNode == destNode
    {
      AddLink(link, srcNode, destNode);
    }

    static method SetEnds(link: Link, srcNode: Node, destNode: Node)
      modifies link`srcNode, link`destNode, link`srcGateId, link`destGateId
      ensures link.srcNode == srcNode && link.destNode == destNode
      ensures link.srcGateId == (if old(link.srcNode) == srcNode then old(link.srcGateId) else -1)
      ensures link.destGateId == (if old(link.destNode) == destNode then old(link.destGateId) else -1)
    {
      if link.srcNode != srcNode {
        link.srcGateId := -1;
      }
      if link.destNode != destNode {
        link.destGateId := -1;
      }
      link.srcNode := srcNode;
      link.destNode := destNode;
    }

    // The link l may be handed to addLink: it is in the graph, or has no ends.
    ghost predicate Placeable(l: Link)
      reads this`links, l`srcNode, l`destNode
    {
      l in links || (l.srcNode == null && l.destNode == null)
    }

    // Gives link, which is in no list, its ends and lists it there.
    method Connect(link: Link, srcNode: Node, srcGate: Int32, destNode: Node, destGate: Int32)
      requires Wired() && link !in links && srcNode in nodes && destNode in nodes
      modifies this`links, nodes`inLinks, nodes`outLinks
      modifies link`srcNode, link`destNode, link`srcGateId, link`destGateId
      ensures Wired() && links == old(links) + {link}
      ensures link.srcNode == srcNode && link.destNode == destNode
      ensures link.srcGateId == srcGate && link.destGateId == destGate
      ensures forall n {:trigger n.inLinks} :: n in nodes ==>
        n.inLinks == old(n.inLinks) + (if n == destNode then [link] else [])
      ensures forall n {:trigger n.outLinks} :: n in nodes ==>
        n.outLinks == old(n.outLinks) + (if n == srcNode then [link] else [])
    {
      forall n | n in nodes ensures Lists(n) && link !in n.inLinks && link !in n.outLinks {
        assert old(Lists(n));
      }
      link.srcNode, link.destNode := srcNode, destNode;
      link.srcGateId, link.destGateId := srcGate, destGate;
      forall n | n in nodes ensures Lists(n) {
        assert old(Lists(n));
      }
      forall l | l in links ensures Listed(l) {
        assert old(Listed(l));
      }
      Attach(link);
    }

    // Puts link, which is in no list, between the nodes of two modules, if they have nodes.
    method ConnectModules(link: Link, srcModule: Int32, srcGate: Int32, destModule: Int32, destGate: Int32)
      returns (ok: bool)
      requires Valid() && link !in links
      modifies this`links, nodes`inLinks, nodes`outLinks
      modifies link`srcNode, link`destNode, link`srcGateId, link`destGateId
      ensures Valid() && ok == (HasModule(srcModule) && HasModule(destModule))
      ensures ok ==> links == old(links) + {link} && link.srcGateId == srcGate && link.destGateId == destGate
      ensures ok ==> link.srcNode != null && link.srcNode.moduleId == srcModule
      ensures ok ==> link.destNode != null && link.destNode.moduleId == destModule
      ensures ok ==> forall n {:trigger n.inLinks} :: n in nodes ==>
        n.inLinks == old(n.inLinks) + (if n == link.destNode then [link] else [])
      ensures ok ==> forall n {:trigger n.outLinks} :: n in nodes ==>
        n.outLinks == old(n.outLinks) + (if n == link.srcNode then [link] else [])
      ensures !ok ==> unchanged(this, link) && forall n {:trigger n.inLinks} {:trigger n.outLinks} :: n in nodes ==> unchanged(n)
    {
      var srcNode := GetNodeFor(srcModule);
      var destNode := GetNodeFor(destModule);
      ok := srcNode != null && destNode != null;
      if ok {
        Connect(link, srcNode, srcGate, destNode, destGate);
      }
    }

    // Puts link between the nodes of two gates, given by their modules and ids. If
    // a module has no node it fails, but by then the link has left the graph with
    // its old ends still set, and must not be handed to addLink or deleteLink again.
    method AddLinkBetweenGates(link: Link, srcModule: Int32, srcGate: Int32, destModule: Int32, destGate: Int32)
      returns (ok: bool)
      requires Valid() && Placeable(link)
      modifies this`links, nodes`inLinks, nodes`outLinks
      modifies link`srcNode, link`destNode, link`srcGateId, link`destGateId
      ensures Valid() && nodes == old(nodes)
      ensures ok == (HasModule(srcModule) && HasModule(destModule))
      ensures ok ==> links == old(links) + {link} && link.srcGateId == srcGate && link.destGateId == destGate
      ensures ok ==> link.srcNode != null && link.srcNode.moduleId == srcModule
      ensures ok ==> link.destNode != null && link.destNode.moduleId == destModule
      ensures ok ==> forall n {:trigger n.inLinks} :: n in nodes ==>
        n.inLinks == Keep(old(n.inLinks), {link}) + (if n == link.destNode then [link] else [])
      ensures ok ==> forall n {:trigger n.outLinks} :: n in nodes ==>
        n.outLinks == Keep(old(n.outLinks), {link}) + (if n == link.srcNode then [link] else [])
      ensures !ok ==> Dropped({link}) && link.srcNode == old(link.srcNode) && link.destNode == old(link.destNode)
      ensures Placeable(link) <==> ok || old(link !in links)
    {
      assert link in links ==> Listed(link);
      Unlink(link);
      ok := ConnectModules(link, srcModule, srcGate, destModule, destGate);
    }

    // A graph of one node and a link from it to itself, before a call that fails and loses the link: moving
    // the link to module 2, for which there is no node.
    static method LosesLink() returns (topology: Topology, link: Link)
      ensures topology.Valid() && topology.Placeable(link) && link in topology.links
      ensures topology.HasModule(1) && !topology.HasModule(2)
    {
      topology := new Topology();
      var node := new Node(1);
      link := new Link(Finite(1.0));
      var k := topology.AddNode(node);
      topology.AddLink(link, node, node);
      assert topology.nodes == [node] && node.moduleId == 1;
    }

    static lemma {:induction false} KeepAgrees<T>(s: seq<T>, a: set<T>, b: set<T>)
      requires forall x {:trigger x in s} :: x in s ==> (x in a <==> x in b)
      ensures Keep(s, a) == Keep(s, b)
    {
      if s != [] {
        assert s[0] in s;
        forall x | x in s[1..] ensures x in a <==> x in b { assert x in s; }
        KeepAgrees(s[1..], a, b);
      }
    }

    static ghost function Elems<T>(s: seq<T>): set<T> {
      set x | x in s
    }

    static lemma ElemsGrow<T>(s: seq<T>, i: nat)
      requires i < |s|
      ensures Elems(s[..i + 1]) == Elems(s[..i]) + {s[i]}
    {
      assert s[..i + 1] == s[..i] + [s[i]];
    }

    // One round of the loops of deleteNode.
    method DropIncomingAt(link: Link, ghost gone: set<Link>, ghost lists: map<Node, seq<Link>>)
      requires link.destNode != null && link !in gone && link in link.destNode.inLinks
      requires link.destNode in lists
      requires forall n {:trigger n.inLinks} :: n in lists ==> n.inLinks == Keep(lists[n], gone) && Distinct(lists[n])
      requires forall n {:trigger lists[n]} :: n in lists && n != link.destNode ==> link !in lists[n]
      modifies link.destNode`inLinks
      ensures forall n {:trigger n.inLinks} :: n in lists ==> n.inLinks == Keep(lists[n], gone + {link})
    {
      KeepDistinct(lists[link.destNode], gone);
      UnlinkFromDestNode(link);
      forall n | n in lists ensures n.inLinks == Keep(lists[n], gone + {link}) {
        KeepTwice(lists[n], gone, {link});
        if n != link.destNode {
          KeepAgrees(lists[n], gone, gone + {link});
        }
      }
    }

    method DropOutgoingAt(link: Link, ghost gone: set<Link>, ghost lists: map<Node, seq<Link>>)
      requires link.srcNode != null && link !in gone && link in link.srcNode.outLinks
      requires link.srcNode in lists
      requires forall n {:trigger n.outLinks} :: n in lists ==> n.outLinks == Keep(lists[n], gone) && Distinct(lists[n])
      requires forall n {:trigger lists[n]} :: n in lists && n != link.srcNode ==> link !in lists[n]
      modifies link.srcNode`outLinks
      ensures forall n {:trigger n.outLinks} :: n in lists ==> n.outLinks == Keep(lists[n], gone + {link})
    {
      KeepDistinct(lists[link.srcNode], gone);
      UnlinkFromSourceNode(link);
      forall n | n in lists ensures n.outLinks == Keep(lists[n], gone + {link}) {
        KeepTwice(lists[n], gone, {link});
        if n != link.srcNode {
          KeepAgrees(lists[n], gone, gone + {link});
        }
      }
    }

    // The first loop of deleteNode: the links out of node are dropped where they end.
    method DropOutgoing(node: Node, ghost lists: map<Node, seq<Link>>)
      requires Distinct(node.outLinks)
      requires forall n {:trigger n.inLinks} :: n in lists ==> n.inLinks == lists[n] && Distinct(lists[n])
      requires forall n, l {:trigger l in lists[n]} :: n in lists && l in lists[n] ==> l.destNode == n
      requires forall l {:trigger l in node.outLinks} :: l in node.outLinks ==>
        l.destNode != null && l.destNode in lists && l in lists[l.destNode]
      modifies lists.Keys`inLinks
      ensures forall n {:trigger n.inLinks} :: n in lists ==> n.inLinks == Keep(lists[n], Elems(node.outLinks))
    {
      forall n | n in lists ensures n.inLinks == Keep(lists[n], {}) {
        KeepAll(n.inLinks, {});
      }
      assert Elems(node.outLinks[..0]) == {};
      for i := 0 to |node.outLinks|
        invariant forall n {:trigger n.inLinks} :: n in lists ==> n.inLinks == Keep(lists[n], Elems(node.outLinks[..i]))
      {
        var link := node.outLinks[i];
        assert link in node.outLinks && link !in node.outLinks[..i];
        DropIncomingAt(link, Elems(node.outLinks[..i]), lists);
        ElemsGrow(node.outLinks, i);
      }
      assert node.outLinks[..|node.outLinks|] == node.outLinks;
    }

    // The second loop: the remaining links into node are dropped where they start.
    method DropIncoming(node: Node, ghost lists: map<Node, seq<Link>>)
      requires Distinct(node.inLinks) && node !in lists
      requires forall n {:trigger n.outLinks} :: n in lists ==> n.outLinks == lists[n] && Distinct(lists[n])
      requires forall n, l {:trigger l in lists[n]} :: n in lists && l in lists[n] ==> l.srcNode == n
      requires forall l {:trigger l in node.inLinks} :: l in node.inLinks ==>
        l.srcNode != null && l.srcNode in lists && l in lists[l.srcNode]
      modifies lists.Keys`outLinks
      ensures forall n {:trigger n.outLinks} :: n in lists ==> n.outLinks == Keep(lists[n], Elems(node.inLinks))
    {
      forall n | n in lists ensures n.outLinks == Keep(lists[n], {}) {
        KeepAll(n.outLinks, {});
      }
      assert Elems(node.inLinks[..0]) == {};
      for i := 0 to |node.inLinks|
        invariant forall n {:trigger n.outLinks} :: n in lists ==> n.outLinks == Keep(lists[n], Elems(node.inLinks[..i]))
      {
        var link := node.inLinks[i];
        assert link in node.inLinks && link !in node.inLinks[..i];
        DropOutgoingAt(link, Elems(node.inLinks[..i]), lists);
        ElemsGrow(node.inLinks, i);
      }
      assert node.inLinks[..|node.inLinks|] == node.inLinks;
    }

    // Deletes node and the links at it; the other lists keep their order.
    method DeleteNode(node: Node)
      requires Valid() && node in nodes
      modifies this`nodes, this`links, nodes`inLinks, nodes`outLinks
      ensures Valid() && nodes == Keep(old(nodes), {node})
      ensures links == old(links) - old(Touching(node))
      ensures forall n {:trigger n.inLinks} :: n in nodes ==> n.inLinks == Keep(old(n.inLinks), old(Touching(node)))
      ensures forall n {:trigger n.outLinks} :: n in nodes ==> n.outLinks == Keep(old(n.outLinks), old(Touching(node)))
    {
      ghost var gone := Touching(node);
      CutLoose(node);
      EraseKeeps(nodes, node);
      nodes := Erase(nodes, node);
      links := links - gone;
      KeepDistinct(old(nodes), {node});
      KeepInOrder(old(nodes), {node});
      NodeGone(node);
    }

    // What is left once node and the links at it are gone is a valid graph.
    twostate lemma NodeGone(new node: Node)
      requires old(Valid()) && node in old(nodes) && old(allocated(node))
      requires nodes == Keep(old(nodes), {node}) && Distinct(nodes) && ById(nodes)
      requires links == old(links) - old(Touching(node))
      requires forall l {:trigger l in links} :: l in links ==> l.srcNode == old(l.srcNode) && l.destNode == old(l.destNode)
      requires forall n {:trigger n.inLinks} :: n in nodes ==> n.inLinks == Keep(old(n.inLinks), old(Touching(node)))
      requires forall n {:trigger n.outLinks} :: n in nodes ==> n.outLinks == Keep(old(n.outLinks), old(Touching(node)))
      ensures Valid()
    {
      var gone := old(Touching(node));
      forall n | n in nodes ensures Lists(n) {
        assert old(Lists(n));
        KeepDistinct(old(n.inLinks), gone);
        KeepDistinct(old(n.outLinks), gone);
        KeepMembers(old(n.inLinks), gone);
        KeepMembers(old(n.outLinks), gone);
        forall l | l in n.inLinks ensures l in links && l.destNode == n {
          assert l in old(n.inLinks) && l !in gone;
        }
        forall l | l in n.outLinks ensures l in links && l.srcNode == n {
          assert l in old(n.outLinks) && l !in gone;
        }
      }
      forall l | l in links ensures Listed(l) {
        assert old(Listed(l));
      }
    }

    // The links that start or end at node.
    ghost function Touching(node: Node): set<Link>
      reads node`inLinks, node`outLinks
    {
      Elems(node.outLinks) + Elems(node.inLinks)
    }

    // Removes the links out of node.
    method CutOutgoing(node: Node)
      requires Valid() && node in nodes
      modifies nodes`inLinks, node`outLinks
      ensures node.outLinks == []
      ensures forall n {:trigger n.inLinks} :: n in nodes ==> n.inLinks == Keep(old(n.inLinks), old(Elems(node.outLinks)))
    {
      ghost var into := map n | n in nodes :: n.inLinks;
      forall n: Node, l: Link | n in into && l in into[n] ensures l.destNode == n { assert Lists(n); }
      forall n | n in into ensures Distinct(into[n]) { assert Lists(n); }
      assert Lists(node);
      forall l | l in node.outLinks ensures l.destNode != null && l.destNode in into && l in into[l.destNode] { assert Listed(l); }
      DropOutgoing(node, into);
      node.outLinks := [];
    }

    // Removes the links into node, once it has no outgoing ones, self-loops included.
    method CutIncoming(node: Node)
      requires node in nodes && Distinct(node.inLinks)
      requires forall n {:trigger n.outLinks} :: n in nodes && n != node ==> Distinct(n.outLinks)
      requires forall n, l {:trigger l in n.outLinks} :: n in nodes && n != node && l in n.outLinks ==> l.srcNode == n
      requires forall l {:trigger l in node.inLinks} :: l in node.inLinks ==>
        l.srcNode != null && l.srcNode in nodes && l.srcNode != node && l in l.srcNode.outLinks
      modifies nodes`outLinks, node`inLinks
      ensures node.inLinks == [] && node.outLinks == old(node.outLinks)
      ensures forall n {:trigger n.outLinks} :: n in nodes && n != node ==> n.outLinks == Keep(old(n.outLinks), old(Elems(node.inLinks)))
    {
      ghost var out := map n | n in nodes && n != node :: n.outLinks;
      DropIncoming(node, out);
      node.inLinks := [];
    }

    // Removes all links at node from the lists of the other nodes.
    method CutLoose(node: Node)
      requires Valid() && node in nodes
      modifies nodes`inLinks, nodes`outLinks
      ensures forall n {:trigger n.inLinks} :: n in nodes && n != node ==> n.inLinks == Keep(old(n.inLinks), old(Touching(node)))
      ensures forall n {:trigger n.outLinks} :: n in nodes && n != node ==> n.outLinks == Keep(old(n.outLinks), old(Touching(node)))
    {
      ghost var outLinks, inLinks := node.outLinks, node.inLinks;
      assert Lists(node);
      CutOutgoing(node);
      KeepDistinct(inLinks, Elems(outLinks));
      forall n | n in nodes && n != node ensures Distinct(n.outLinks) && forall l :: l in n.outLinks ==> l.srcNode == n {
        assert old(Lists(n));
      }
      forall l | l in node.inLinks ensures l.srcNode != null && l.srcNode in nodes && l.srcNode != node && l in l.srcNode.outLinks {
        assert old(Listed(l));
      }
      ghost var rest := node.inLinks;
      CutIncoming(node);
      forall n | n in nodes && n != node
        ensures n.inLinks == Keep(old(n.inLinks), old(Touching(node))) && n.outLinks == Keep(old(n.outLinks), old(Touching(node)))
      {
        assert old(Lists(n) && Lists(node));
        assert forall l {:trigger l in old(n.inLinks)} :: l in old(n.inLinks) ==> l !in inLinks;
        assert forall l {:trigger l in old(n.outLinks)} :: l in old(n.outLinks) ==> l !in outLinks && (l in inLinks ==> l in rest);
        KeepAgrees(old(n.inLinks), Elems(outLinks), old(Touching(node)));
        KeepAgrees(old(n.outLinks), Elems(rest), old(Touching(node)));
      }
    }

    static ghost predicate ById(s: seq<Node>) {
      forall i, j :: 0 <= i < j < |s| ==> Unsigned(s[i].moduleId) <= Unsigned(s[j].moduleId)
    }

    static lemma KeepMembers<T>(s: seq<T>, gone: set<T>)
      ensures forall x {:trigger x in Keep(s, gone)} :: x in Keep(s, gone) <==> x in s && x !in gone
    {
    }

    static lemma ConsById(n: Node, s: seq<Node>)
      requires ById(s) && forall m {:trigger m in s} :: m in s ==> Unsigned(n.moduleId) <= Unsigned(m.moduleId)
      ensures ById([n] + s)
    {
      assert forall i {:trigger s[i]} :: 0 <= i < |s| ==> s[i] in s;
    }

    static lemma TailById(s: seq<Node>)
      requires ById(s) && s != []
      ensures ById(s[1..])
      ensures forall m {:trigger m in s[1..]} :: m in s[1..] ==> Unsigned(s[0].moduleId) <= Unsigned(m.moduleId)
    {
    }

    static lemma {:induction false} KeepInOrder(s: seq<Node>, gone: set<Node>)
      requires ById(s)
      ensures ById(Keep(s, gone))
    {
      if s != [] {
        TailById(s);
        KeepInOrder(s[1..], gone);
        if s[0] !in gone {
          ghost var kept := Keep(s[1..], gone);
          forall m | m in kept ensures Unsigned(s[0].moduleId) <= Unsigned(m.moduleId) {
            assert m in s[1..];
          }
          ConsById(s[0], kept);
        }
      }
    }
  }
}
