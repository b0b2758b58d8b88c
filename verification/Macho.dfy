/** The hierarchical state machine engine (Macho.h, Macho.cc). */
module Macho {
  import opened Prelude

  // The HISTORY and DEEPHISTORY macros.
  datatype Strategy = NoHistory | Shallow | Deep

  // What myBox points to; the serial number tells one box object from another.
  datatype Box = NoBox | EmptyBox | OwnBox(serial: nat)

  // The singleton initializers and that of an alias for a state's history.
  datatype Initializer = Default | History | Adapting

  datatype Action = Entry(state: StateInstance) | Exit(state: StateInstance)

  // ---------- chains of states ----------

  // How many leading elements two sequences share.
  ghost function Common<T>(a: seq<T>, b: seq<T>): (k: nat)
    ensures k <= |a| && k <= |b| && a[..k] == b[..k]
    ensures k < |a| && k < |b| ==> a[k] != b[k]
  {
    if a != [] && b != [] && a[0] == b[0] then
      var k := Common(a[1..], b[1..]);
      assert a[..k + 1] == [a[0]] + a[1..][..k] && b[..k + 1] == [b[0]] + b[1..][..k];
      k + 1
    else 0
  }

  // The exit actions of the states k to n of a chain, innermost first.
  ghost function Exits(path: seq<StateInstance>, k: nat, n: nat): seq<Action>
    requires n <= |path|
  {
    if n <= k then [] else [Exit(path[n - 1])] + Exits(path, k, n - 1)
  }

  // The entry actions of the states k to n of a chain, outermost first.
  ghost function Entries(path: seq<StateInstance>, k: nat, n: nat): seq<Action>
    requires n <= |path|
  {
    if n <= k then [] else Entries(path, k, n - 1) + [Entry(path[n - 1])]
  }

  class StateInstance {
    const parent: StateInstance?
    ghost const depth: nat
    const strategy: Strategy
    const ownBox: bool
    const persistent: bool
    var history: StateInstance?
    var box: Box

    constructor (parent: StateInstance?, strategy: Strategy, ownBox: bool, persistent: bool)
      ensures this.parent == parent && this.strategy == strategy && this.ownBox == ownBox && this.persistent == persistent
      ensures depth == if parent == null then 0 else parent.depth + 1
      ensures history == null && box == NoBox
    {
      this.parent, this.strategy, this.ownBox, this.persistent := parent, strategy, ownBox, persistent;
      depth := if parent == null then 0 else parent.depth + 1;
      history, box := null, NoBox;
    }

    ghost predicate Rooted()
      decreases depth
    {
      if parent == null then depth == 0 && strategy == NoHistory
      else depth == parent.depth + 1 && parent.Rooted()
    }

    ghost function Root(): StateInstance
      requires Rooted()
      decreases depth
    {
      if parent == null then this else parent.Root()
    }

    // The states from Top to this one; Root itself has none.
    ghost function Chain(): (r: seq<StateInstance>)
      requires Rooted()
      ensures |r| == depth
      ensures forall i {:trigger r[i]} :: 0 <= i < |r| ==> r[i].depth == i + 1 && r[i].parent != null
      decreases depth
    {
      if parent == null then [] else parent.Chain() + [this]
    }

    // Is instance a superstate, or this state?
    predicate IsChild(instance: StateInstance)
      requires Rooted()
      decreases depth
    {
      this == instance || (parent != null && parent.IsChild(instance))
    }

    // A state has a history strategy above it.
    predicate BubblesUp()
      requires Rooted()
      decreases depth
    {
      parent != null && (parent.strategy != NoHistory || parent.BubblesUp())
    }

    // What becomes of a box when its state is left.
    function Left(b: Box): Box {
      if b.OwnBox? && !persistent then NoBox else b
    }

    // What becomes of a box when its state is entered, the boxes from number lo on being new.
    ghost predicate Created(before: Box, after: Box, lo: nat, hi: nat) {
      if before != NoBox then after == before
      else if !ownBox then after == EmptyBox
      else after.OwnBox? && lo <= after.serial < hi
    }

    method CreateBox(m: Machine)
      modifies this`box, m`made
      ensures old(m.made) <= m.made && Created(old(box), box, old(m.made), m.made)
    {
      if box == NoBox {
        if ownBox {
          box := OwnBox(m.made);
          m.made := m.made + 1;
        } else {
          box := EmptyBox;
        }
      }
    }

    // path leads down to this state, and perhaps further.
    ghost predicate On(path: seq<StateInstance>) {
      && depth <= |path| && (depth > 0 ==> path[depth - 1] == this)
      && (forall i {:trigger path[i]} :: 0 <= i < |path| ==> path[i].depth == i + 1)
      && (forall i {:trigger path[i].parent} :: 0 < i < |path| ==> path[i].parent == path[i - 1])
    }

    // The exit of one state: its action, and the end of its box.
    method Leave(m: Machine)
      requires box != NoBox
      modifies m`trace, this`box
      ensures m.trace == old(m.trace) + [Action.Exit(this)] && box == Left(old(box))
    {
      m.trace := m.trace + [Action.Exit(this)];
      if box != EmptyBox {
        if !persistent {
          assert box != NoBox;
          box := NoBox;
        }
      }
    }

    method Arrive(m: Machine)
      modifies m`trace, m`made, this`box
      ensures m.trace == old(m.trace) + [Action.Entry(this)]
      ensures old(m.made) <= m.made && Created(old(box), box, old(m.made), m.made)
    {
      CreateBox(m);
      m.trace := m.trace + [Action.Entry(this)];
    }

    // What a state remembers when a state below it, through its child shallow, is left.
    function Remembered(before: StateInstance?, shallow: StateInstance, deep: StateInstance): StateInstance? {
      match strategy
      case NoHistory => before
      case Shallow => shallow
      case Deep => deep
    }

    // Offers this state, and through it those above, a substate to remember. A state without
    // history passes it on, if one above may want it.
    method SaveHistory(shallow: StateInstance, deep: StateInstance, ghost path: seq<StateInstance>)
      requires Rooted() && On(path) && depth < |path| && shallow == path[depth]
      modifies path`history
      ensures forall i :: 0 <= i < depth ==> path[i].history == path[i].Remembered(old(path[i].history), path[i + 1], deep)
      ensures forall i :: 0 <= i < |path| && i >= depth ==> path[i].history == old(path[i].history)
      decreases depth, 1
    {
      if depth > 0 {
        assert path[depth - 1] == this;
      }
      Silent(path);
      match strategy {
        case NoHistory =>
        case Shallow =>
          history := shallow;
        case Deep =>
          history := deep;
      }
      if BubblesUp() {
        SetHistorySuper(deep, path);
      }
    }

    // Updates the history of the states above.
    method SetHistorySuper(deep: StateInstance, ghost path: seq<StateInstance>)
      requires Rooted() && On(path)
      modifies path`history
      ensures forall i :: 0 <= i < depth - 1 ==> path[i].history == path[i].Remembered(old(path[i].history), path[i + 1], deep)
      ensures forall i :: 0 <= i < |path| && i >= depth - 1 ==> path[i].history == old(path[i].history)
      decreases depth, 0
    {
      if parent != null {
        assert path[depth - 1] == this;
        parent.SaveHistory(this, deep, path);
      }
    }

    // Without a strategy above, no state above has one.
    lemma {:induction false} Silent(path: seq<StateInstance>)
      requires Rooted() && On(path)
      ensures !BubblesUp() ==> forall i :: 0 <= i < depth - 1 ==> path[i].strategy == NoHistory
      decreases depth
    {
      if depth > 0 {
        assert path[depth - 1] == this;
        parent.Silent(path);
      }
    }

    // Exits this state and those above it that do not also contain next; a state also
    // exits on the way to itself.
    method Exit(next: StateInstance, m: Machine, ghost path: seq<StateInstance>, ghost k: nat)
      requires Rooted() && next.Rooted() && On(path) && next.ProperlyBelow(path, depth, k)
      requires forall i :: 0 <= i < depth ==> path[i].box != NoBox
      modifies m`trace, path`box
      ensures m.trace == old(m.trace) + Exits(path, k, depth)
      ensures forall i :: 0 <= i < |path| ==>
        path[i].box == if k <= i < depth then path[i].Left(old(path[i].box)) else old(path[i].box)
      decreases depth
    {
      if parent == null {
        return;
      }
      assert path[depth - 1] == this && (depth - 1 < k <==> next.IsChild(path[depth - 1]) && path[depth - 1] != next);
      if this == next || !next.IsChild(this) {
        Leave(m);
        parent.Exit(next, m, path, k);
      }
    }

    // Enters this state, first those above it that do not also contain previous; on the
    // very first call the state is entered in any case.
    method Enter(previous: StateInstance, first: bool, m: Machine, ghost path: seq<StateInstance>, ghost k: nat)
      requires Rooted() && previous.Rooted() && On(path)
      requires if first && depth > 0 then previous.Below(path, depth - 1, k) else previous.Below(path, depth, k)
      modifies m`trace, m`made, path`box
      ensures old(m.made) <= m.made
      ensures m.trace == old(m.trace) + Entries(path, k, depth)
      ensures forall i :: 0 <= i < |path| ==>
        if k <= i < depth then path[i].Created(old(path[i].box), path[i].box, old(m.made), m.made)
        else path[i].box == old(path[i].box)
      decreases depth
    {
      if parent == null {
        return;
      }
      assert path[depth - 1] == this;
      if first || !previous.IsChild(this) {
        parent.Enter(previous, false, m, path, k);
        Arrive(m);
      }
    }

    // The first k states of the path, and of the first n no others, contain this one.
    ghost predicate Below(path: seq<StateInstance>, n: nat, k: nat)
      requires Rooted() && n <= |path|
    {
      k <= n && forall i {:trigger IsChild(path[i])} :: 0 <= i < n ==> (i < k <==> IsChild(path[i]))
    }

    ghost predicate ProperlyBelow(path: seq<StateInstance>, n: nat, k: nat)
      requires Rooted() && n <= |path|
    {
      k <= n && forall i {:trigger IsChild(path[i])} :: 0 <= i < n ==> (i < k <==> IsChild(path[i]) && path[i] != this)
    }
  }

  // A state lies below another exactly when the other's chain starts its own.
  lemma {:induction false} PrefixIff(s: StateInstance, a: StateInstance)
    requires s.Rooted() && a.Rooted() && s.Root() == a.Root()
    ensures s.IsChild(a) <==> a.Chain() <= s.Chain()
    ensures s.IsChild(a) && s != a ==> a.depth < s.depth
    decreases s.depth
  {
    if s == a {
    } else if s.parent == null {
      if a.parent != null {
        assert |a.Chain()| > 0;
      }
    } else {
      PrefixIff(s.parent, a);
      assert s.parent.Chain() == s.Chain()[..s.depth - 1];
      assert s.Chain()[s.depth - 1] == s && (a.parent != null ==> a.Chain()[a.depth - 1] == a);
      if a.Chain() <= s.Chain() && a.depth < s.depth {
        assert a.Chain() == s.Chain()[..a.depth] == s.parent.Chain()[..a.depth];
      }
    }
  }

  // How many states of c's chain stay active on a transition from c to n.
  ghost function Kept(c: StateInstance, n: StateInstance): (k: nat)
    requires c.Rooted() && n.Rooted()
    ensures k <= c.depth && k <= n.depth && (n.parent != null ==> k < n.depth)
  {
    if n.parent == null then 0 else Common(c.Chain(), n.parent.Chain())
  }

  // The chain of a state on a chain is the chain up to there.
  lemma {:induction false} ChainAt(s: StateInstance, i: nat)
    requires s.Rooted() && i < s.depth
    ensures s.Chain()[i].Rooted() && s.Chain()[i].Root() == s.Root() && s.Chain()[i].Chain() == s.Chain()[..i + 1]
    ensures i > 0 ==> s.Chain()[i].parent == s.Chain()[i - 1]
    decreases s.depth
  {
    if i < s.depth - 1 {
      ChainAt(s.parent, i);
      assert s.Chain()[..i + 1] == s.parent.Chain()[..i + 1];
    }
  }

  lemma ChainLeads(s: StateInstance)
    requires s.Rooted()
    ensures s.On(s.Chain())
  {
    forall i | 0 < i < s.depth ensures s.Chain()[i].parent == s.Chain()[i - 1] {
      ChainAt(s, i);
    }
  }

  // A state of c's chain stays active exactly if it also contains n, properly.
  lemma KeptAtSource(c: StateInstance, n: StateInstance, i: nat)
    requires c.Rooted() && n.Rooted() && c.Root() == n.Root() && i < c.depth
    ensures i < Kept(c, n) <==> n.IsChild(c.Chain()[i]) && c.Chain()[i] != n
  {
    var x := c.Chain()[i];
    ChainAt(c, i);
    PrefixIff(n, x);
    if n.parent != null {
      PrefixIff(n.parent, x);
      PrefixIff(n.parent, n);
      CommonPrefix(c.Chain(), n.parent.Chain(), i + 1);
    }
  }

  // A state above n is not entered exactly if it contains c.
  lemma KeptAtTarget(c: StateInstance, n: StateInstance, i: nat)
    requires c.Rooted() && n.Rooted() && c.Root() == n.Root() && i < n.depth - 1
    ensures i < Kept(c, n) <==> c.IsChild(n.Chain()[i])
  {
    ChainAt(n.parent, i);
    assert n.Chain()[i] == n.parent.Chain()[i];
    PrefixIff(c, n.parent.Chain()[i]);
    CommonPrefix(n.parent.Chain(), c.Chain(), i + 1);
    CommonSym(c.Chain(), n.parent.Chain());
  }

  lemma KeptMeaning(c: StateInstance, n: StateInstance)
    requires c.Rooted() && n.Rooted() && c.Root() == n.Root()
    ensures n.ProperlyBelow(c.Chain(), c.depth, Kept(c, n))
    ensures n.parent != null ==> c.Below(n.Chain(), n.depth - 1, Kept(c, n))
    ensures c.Chain()[..Kept(c, n)] == n.Chain()[..Kept(c, n)]
  {
    var k := Kept(c, n);
    forall i | 0 <= i < c.depth ensures i < k <==> n.IsChild(c.Chain()[i]) && c.Chain()[i] != n {
      KeptAtSource(c, n, i);
    }
    forall i | 0 <= i < n.depth - 1 ensures i < k <==> c.IsChild(n.Chain()[i]) {
      KeptAtTarget(c, n, i);
    }
  }

  lemma {:induction false} CommonSym<T>(a: seq<T>, b: seq<T>)
    ensures Common(a, b) == Common(b, a)
  {
    if a != [] && b != [] && a[0] == b[0] {
      CommonSym(a[1..], b[1..]);
    }
  }

  // A prefix of one sequence starts the other exactly if it is no longer than the common part.
  lemma CommonPrefix<T>(a: seq<T>, b: seq<T>, i: nat)
    requires i <= |a|
    ensures a[..i] <= b <==> i <= Common(a, b)
  {
    var k := Common(a, b);
    if i <= k {
      assert a[..i] == a[..k][..i] == b[..k][..i] == b[..i];
    } else if k < |b| {
      assert a[..i][k] == a[k];
    }
  }

  // A state and an initializer, as setState, setStateHistory and aliases name them.
  datatype Request = Request(state: StateInstance, init: Initializer)

  // What an event handler does: it may ask for a transition and may post another event.
  datatype Reaction = Reaction(request: Option<Request>, post: bool)

  // Where a machine stands: all that its further course depends on, what it did so far, and what
  // the event handlers called from now on will do.
  datatype Config = Config(
    current: StateInstance,
    pending: Option<Request>,
    event: bool,
    history: map<StateInstance, StateInstance?>,
    clock: nat,
    trace: seq<Action>,
    visited: seq<StateInstance>,
    script: seq<Reaction>)
  {
    // Nothing is left to do.
    predicate Quiet() {
      pending.None? && !event
    }
  }

  // The child of s that contains this state c.
  ghost function Toward(s: StateInstance, c: StateInstance): (r: StateInstance)
    requires c.Rooted() && c.IsChild(s) && c != s
    ensures r.Rooted() && r.parent == s && c.IsChild(r)
    decreases c.depth
  {
    if c.parent == s then c else Toward(s, c.parent)
  }

  lemma {:induction false} TowardOnChain(s: StateInstance, c: StateInstance)
    requires c.Rooted() && c.IsChild(s) && c != s && s.Rooted()
    ensures s.depth < c.depth && Toward(s, c) == c.Chain()[s.depth]
    decreases c.depth
  {
    if c.parent != s {
      TowardOnChain(s, c.parent);
    }
  }

  lemma {:induction false} DeeperBelow(s: StateInstance, a: StateInstance)
    requires s.Rooted() && a.Rooted() && a.IsChild(s)
    ensures s.depth <= a.depth && (s.depth == a.depth ==> s == a)
    decreases a.depth
  {
    if a != s {
      DeeperBelow(s, a.parent);
    }
  }

  lemma {:induction false} Transitive(s: StateInstance, a: StateInstance, b: StateInstance)
    requires b.Rooted() && a.Rooted() && a.IsChild(s) && b.IsChild(a)
    ensures b.IsChild(s)
    decreases b.depth
  {
    if b != a {
      Transitive(s, a, b.parent);
    }
  }

  // The actions of one transition: exits from c outward, then entries inward to n, both
  // sparing the states that properly contain n and contain c.
  ghost function Hop(c: StateInstance, n: StateInstance): seq<Action>
    requires c.Rooted() && n.Rooted()
  {
    Exits(c.Chain(), Kept(c, n), c.depth) + Entries(n.Chain(), Kept(c, n), n.depth)
  }

  ghost predicate AllRooted(v: seq<StateInstance>) {
    forall i {:trigger v[i]} :: 0 <= i < |v| ==> v[i].Rooted()
  }

  // The actions of a run that makes the given states current, one after the other.
  ghost function Journey(v: seq<StateInstance>): seq<Action>
    requires AllRooted(v)
  {
    if |v| <= 1 then [] else Journey(v[..|v| - 1]) + Hop(v[|v| - 2], v[|v| - 1])
  }

  lemma JourneyGrows(v: seq<StateInstance>, n: StateInstance)
    requires v != [] && n.Rooted() && AllRooted(v)
    ensures AllRooted(v + [n])
    ensures Journey(v + [n]) == Journey(v) + Hop(v[|v| - 1], n)
  {
    var w := v + [n];
    assert w[..|w| - 1] == v && w[|w| - 2] == v[|v| - 1] && w[|w| - 1] == n;
  }

  // ---------- what becomes of boxes ----------

  lemma {:induction false} ExitsHas(path: seq<StateInstance>, k: nat, n: nat, s: StateInstance)
    requires n <= |path|
    ensures Action.Exit(s) in Exits(path, k, n) <==> exists i :: k <= i < n && path[i] == s
    ensures Action.Entry(s) !in Exits(path, k, n)
    decreases n
  {
    if n > k {
      ExitsHas(path, k, n - 1, s);
      assert path[n - 1] == s ==> Action.Exit(s) == ([Action.Exit(path[n - 1])] + Exits(path, k, n - 1))[0];
    }
  }

  lemma {:induction false} EntriesHas(path: seq<StateInstance>, k: nat, n: nat, s: StateInstance)
    requires n <= |path|
    ensures Action.Entry(s) in Entries(path, k, n) <==> exists i :: k <= i < n && path[i] == s
    ensures Action.Exit(s) !in Entries(path, k, n)
    decreases n
  {
    if n > k {
      EntriesHas(path, k, n - 1, s);
    }
  }

  // What becomes of the box of s over the actions that happen, the boxes from number lo on being new: it
  // stays the very same exactly if it is not the own box of s, or persistent, or s is not left; and if it
  // would stay, but there is none yet, there is one exactly if s is entered.
  ghost predicate Boxed(s: StateInstance, before: Box, after: Box, acts: seq<Action>, lo: nat, hi: nat) {
    var stays := !s.ownBox || s.persistent || Action.Exit(s) !in acts;
    && (before.OwnBox? ==> before.serial < lo)
    && (before != NoBox ==> (after == before <==> stays))
    && (before == NoBox && stays ==> (after != NoBox <==> Action.Entry(s) in acts))
    && (after == before || after == NoBox || (if s.ownBox then after.OwnBox? && lo <= after.serial < hi else after == EmptyBox))
  }

  lemma BoxedJoin(s: StateInstance, b0: Box, b1: Box, b2: Box, a: seq<Action>, b: seq<Action>, lo: nat, mid: nat, hi: nat)
    requires lo <= mid <= hi && Boxed(s, b0, b1, a, lo, mid) && Boxed(s, b1, b2, b, mid, hi)
    ensures Boxed(s, b0, b2, a + b, lo, hi)
  {
    assert Action.Exit(s) in a + b <==> Action.Exit(s) in a || Action.Exit(s) in b;
    assert Action.Entry(s) in a + b <==> Action.Entry(s) in a || Action.Entry(s) in b;
  }

  class Machine {
    const instances: seq<StateInstance>
    // What user code in a state's init action asks for. Everything it may depend on is in the
    // number of transitions so far, which differs from call to call.
    const onInit: (nat, StateInstance) -> Option<Request>
    ghost const height: nat
    var current: StateInstance?
    var pendingState: StateInstance?
    var pendingInit: Initializer
    var pendingEvent: bool
    var clock: nat
    var made: nat  // how many box objects were created
    ghost var trace: seq<Action>  // the entry and exit actions so far
    ghost var visited: seq<StateInstance>  // the current states so far
    ghost var asked: seq<StateInstance>  // the transitions asked for so far

    ghost predicate Proper(s: StateInstance, t: StateInstance) {
      t in instances && t.Rooted() && t.IsChild(s) && t != s
    }

    ghost predicate InTree(s: StateInstance)
      requires instances != []
    {
      s.Rooted() && s.Root() == instances[0] && s.depth <= height && (s.parent != null ==> s.parent in instances)
    }

    ghost predicate Tree() {
      && instances != [] && instances[0].parent == null
      && (forall s {:trigger InTree(s)} :: s in instances ==> InTree(s))
    }

    // Init actions ask for proper substates only; Root has none.
    ghost predicate Disciplined()
      requires instances != []
    {
      && (forall k, s {:trigger onInit(k, s)} :: s in instances && onInit(k, s).Some? ==> Proper(s, onInit(k, s).value.state))
      && (forall k {:trigger onInit(k, instances[0])} :: onInit(k, instances[0]).None?)
    }

    // A history is a proper substate, and only states that keep one have one.
    ghost predicate HistoryOk(s: StateInstance)
      reads s`history
    {
      && (s.history != null ==> Proper(s, s.history))
      && (s.strategy == NoHistory ==> s.history == null)
    }

    // Every active state has its box, and of the others only those have one whose box outlives them.
    ghost predicate BoxOk(s: StateInstance, active: bool)
      reads this`made, s`box
    {
      && (s.box.OwnBox? ==> s.ownBox && s.box.serial < made)
      && (s.box.EmptyBox? ==> !s.ownBox)
      && (if s.parent == null then s.box == NoBox
          else if active then s.box != NoBox
          else s.ownBox && !s.persistent ==> s.box == NoBox)
    }

    // Histories and boxes are as they should be when c is current.
    ghost predicate Sound(c: StateInstance)
      requires c.Rooted()
      reads this`made, instances`history, instances`box
    {
      && (forall s {:trigger HistoryOk(s)} :: s in instances ==> HistoryOk(s))
      && (forall s {:trigger s.box} :: s in instances ==> BoxOk(s, c.IsChild(s)))
    }

    // The states visited so far led to the current one.
    ghost predicate Travelled()
      reads this`current, this`trace, this`visited
    {
      Traced() && visited[|visited| - 1] == current
    }

    // What happened is what leads through the states visited.
    ghost predicate Traced()
      reads this`trace, this`visited
    {
      && instances != [] && visited != [] && visited[0] == instances[0]
      && (forall i {:trigger visited[i]} :: 0 <= i < |visited| ==> visited[i] in instances)
      && AllRooted(visited) && trace == Journey(visited)
    }

    ghost predicate Valid()
      reads this`current, this`pendingState, this`made, this`trace, this`visited, this`asked, instances`history, instances`box
    {
      && Tree() && Disciplined()
      && current != null && current in instances && InTree(current)
      && (pendingState != null ==> pendingState in instances)
      && Sound(current) && Travelled()
      // of the transitions asked for, only the pending one is still to come
      && asked == visited[1..] + (if pendingState == null then [] else [pendingState])
    }

    // ---------- the course of a machine, step by step ----------

    ghost function Now(script: seq<Reaction>): Config
      requires current != null
      reads this`current, this`pendingState, this`pendingInit, this`pendingEvent, this`clock, this`trace, this`visited
      reads instances`history
    {
      Config(current, if pendingState == null then None else Some(Request(pendingState, pendingInit)), pendingEvent,
             map s | s in instances :: s.history, clock, trace, visited, script)
    }

    ghost predicate Fits(c: Config) {
      && Tree() && Disciplined() && c.current in instances
      && (c.pending.Some? ==> c.pending.value.state in instances)
      && c.history.Keys == (set s | s in instances)
      && (forall s {:trigger c.history[s]} :: s in c.history && c.history[s] != null ==> c.history[s] in instances)
      && Reactions(c.script)
    }

    // The state that a request is for, the histories being so.
    ghost function Meant(history: map<StateInstance, StateInstance?>, r: Request): StateInstance
      requires r.state in history
    {
      if r.init == Adapting && history[r.state] != null then history[r.state] else r.state
    }

    // The histories once c was left.
    ghost function Remembering(c: StateInstance, history: map<StateInstance, StateInstance?>): (h: map<StateInstance, StateInstance?>)
      requires c.Rooted()
      ensures h.Keys == history.Keys
    {
      map s | s in history :: Saved(c, s, history[s])
    }

    // Where one goes on to from n, reached at the given time: to its history, if that was asked
    // for and there is one, or else where the init action says.
    ghost function Onward(n: StateInstance, init: Initializer, history: map<StateInstance, StateInstance?>, now: nat): Option<Request>
      requires Tree() && Disciplined() && n in instances && history.Keys == (set s | s in instances)
    {
      if init != Default && history[n] != null then Some(Request(history[n], Default))
      else
        match onInit(now, n)
        case None => None
        case Some(r) => Some(Request(Meant(history, r), r.init))
    }

    // One transition.
    ghost function Arrived(c: Config): Config
      requires Fits(c) && c.pending.Some?
    {
      var n := c.pending.value.state;
      assert InTree(c.current) && InTree(n);
      var h := Remembering(c.current, c.history);
      Config(n, Onward(n, c.pending.value.init, h, c.clock), c.event, h[n := null], c.clock + 1,
             c.trace + Hop(c.current, n), c.visited + [n], c.script)
    }

    // One event handled; a handler without a reaction does nothing.
    ghost function Handled(c: Config): Config
      requires Fits(c) && c.pending.None?
    {
      if c.script == [] then c.(event := false)
      else
        var r := c.script[0];
        assert r in c.script;
        c.(pending := if r.request.None? then None
                      else Some(Request(Meant(c.history, r.request.value), r.request.value.init)),
           event := r.post, script := c.script[1..])
    }

    // Transitions come before events.
    ghost function Next(c: Config): Config
      requires Fits(c)
    {
      if c.pending.Some? then Arrived(c) else Handled(c)
    }

    // From the first configuration to the last, step by step.
    ghost predicate Run(run: seq<Config>) {
      run != [] && forall i {:trigger Step(run, i)} :: 0 <= i < |run| - 1 ==> Step(run, i)
    }

    ghost predicate Step(run: seq<Config>, i: int)
      requires 0 <= i < |run| - 1
    {
      Fits(run[i]) && !run[i].Quiet() && run[i + 1] == Next(run[i])
    }

    // A run from c to where the machine stands, the given script being left.
    ghost predicate Reached(run: seq<Config>, c: Config, script: seq<Reaction>)
      reads this`current, this`pendingState, this`pendingInit, this`pendingEvent, this`clock, this`trace, this`visited
      reads instances`history
    {
      Run(run) && run[0] == c && current != null && run[|run| - 1] == Now(script)
    }

    lemma RunJoin(a: seq<Config>, b: seq<Config>)
      requires Run(a) && Run(b) && a[|a| - 1] == b[0]
      ensures Run(a + b[1..])
    {
      var c := a + b[1..];
      forall i | 0 <= i < |c| - 1 ensures Step(c, i) {
        if i < |a| - 1 {
          assert Step(a, i);
        } else {
          assert Step(b, i - (|a| - 1));
        }
      }
    }

    lemma RunGrows(a: seq<Config>, c: Config)
      requires Run(a) && Fits(a[|a| - 1]) && !a[|a| - 1].Quiet() && c == Next(a[|a| - 1])
      ensures Run(a + [c])
    {
      forall i | 0 <= i < |a + [c]| - 1 ensures Step(a + [c], i) {
        if i < |a| - 1 {
          assert Step(a, i);
        }
      }
    }

    lemma RunBusy(a: seq<Config>)
      requires Run(a) && |a| > 1
      ensures !a[0].Quiet() && Fits(a[0]) && a[1] == Next(a[0])
    {
      assert Step(a, 0);
    }

    // There is just one way to go on until nothing is left to do.
    lemma {:induction false} RunUnique(a: seq<Config>, b: seq<Config>)
      requires Run(a) && Run(b) && a[0] == b[0] && a[|a| - 1].Quiet() && b[|b| - 1].Quiet()
      ensures a == b
      decreases |a|
    {
      if |b| > 1 {
        RunBusy(b);
      }
      if |a| > 1 {
        RunBusy(a);
        if |b| > 1 {
          RunTail(a);
          RunTail(b);
          RunUnique(a[1..], b[1..]);
          assert a == [a[0]] + a[1..] && b == [b[0]] + b[1..];
        }
      }
    }

    lemma RunTail(a: seq<Config>)
      requires Run(a) && |a| > 1
      ensures Run(a[1..])
    {
      forall i | 0 <= i < |a[1..]| - 1 ensures Step(a[1..], i) {
        assert Step(a, i + 1);
      }
    }

    // What was visited and done stays so.
    lemma {:induction false} RunKeeps(run: seq<Config>, i: nat, j: nat)
      requires Run(run) && i <= j < |run|
      ensures run[i].visited <= run[j].visited && run[i].trace <= run[j].trace
      decreases j
    {
      if i < j {
        RunKeeps(run, i, j - 1);
        assert Step(run, j - 1);
      }
    }

    // At the place i of the run nothing is pending, and the handler does r.
    ghost predicate HandlesAt(run: seq<Config>, i: nat, r: Reaction) {
      && i < |run| - 1 && run[i].pending.None? && run[i].event && run[i].script != [] && run[i].script[0] == r
      && (r.request.Some? ==> r.request.value.state in run[i].history)
      && run[i + 1].event == r.post
      && run[i + 1].pending == (if r.request.None? then None
                                else Some(Request(Meant(run[i].history, r.request.value), r.request.value.init)))
    }

    // The reactions that a run consumes are carried out one after the other.
    lemma {:induction false} RunHandles(run: seq<Config>) returns (at: seq<nat>)
      requires Run(run)
      ensures Suffix(run[|run| - 1].script, run[0].script) && |at| == |run[0].script| - |run[|run| - 1].script|
      ensures forall j {:trigger at[j]} :: 0 <= j < |at| ==> HandlesAt(run, at[j], run[0].script[j])
      ensures forall j, k :: 0 <= j < k < |at| ==> at[j] < at[k]
      decreases |run|
    {
      var n := |run| - 1;
      if n == 0 {
        at := [];
      } else {
        var front := run[..n];
        RunFront(run);
        at := RunHandles(front);
        forall j | 0 <= j < |at| ensures HandlesAt(run, at[j], run[0].script[j]) {
          assert HandlesAt(front, at[j], front[0].script[j]);
        }
        RunSteps(run, n - 1);
        if run[n].script != run[n - 1].script {
          at := at + [n - 1];
        }
      }
    }

    lemma RunFront(run: seq<Config>)
      requires Run(run) && |run| > 1
      ensures Run(run[..|run| - 1])
    {
      var front := run[..|run| - 1];
      forall i | 0 <= i < |front| - 1 ensures Step(front, i) {
        assert Step(run, i);
      }
    }

    // A step either leaves the script alone or carries out the first reaction in it.
    lemma RunSteps(run: seq<Config>, i: nat)
      requires Run(run) && i < |run| - 1
      ensures run[i + 1].script == run[i].script ||
        (run[i].script != [] && HandlesAt(run, i, run[i].script[0]) && run[i + 1].script == run[i].script[1..])
    {
      assert Step(run, i);
      if run[i].pending.None? && run[i].script != [] {
        assert run[i].script[0] in run[i].script;
      }
    }

    // If the run ends with nothing left to do, the state that a handler asked for became current
    // next, so that those states occur in order among the states visited.
    lemma HandledIsVisited(run: seq<Config>, i: nat, r: Reaction)
      requires Run(run) && run[|run| - 1].Quiet() && HandlesAt(run, i, r) && r.request.Some?
      ensures i + 2 < |run| && run[i + 2].visited == run[i].visited + [Meant(run[i].history, r.request.value)]
      ensures var seen, last := |run[i].visited|, run[|run| - 1].visited;
        seen < |last| && last[seen] == Meant(run[i].history, r.request.value)
    {
      assert Step(run, i);
      assert Step(run, i + 1);
      RunKeeps(run, i + 2, |run| - 1);
    }

    // At the place i of the run a transition leaves c, a proper substate of s, and until the place j the
    // machine stays outside s.
    ghost predicate Away(run: seq<Config>, i: nat, j: nat, s: StateInstance, c: StateInstance) {
      && i < j < |run| && s in instances && run[i].pending.Some? && run[i].current == c && Proper(s, c)
      && forall k {:trigger run[k].current} :: i < k <= j ==> run[k].current.Rooted() && !run[k].current.IsChild(s)
    }

    // A state with history remembers from where it was left: with deep history that very state, with
    // shallow history the substate of its own that contains it.
    lemma {:induction false} HistoryKept(run: seq<Config>, i: nat, j: nat, s: StateInstance, c: StateInstance)
      requires Run(run) && Away(run, i, j, s, c)
      ensures s in run[j].history
      ensures s.strategy == Deep ==> run[j].history[s] == c
      ensures s.strategy == Shallow ==> run[j].history[s] != null && run[j].history[s].parent == s && c.IsChild(run[j].history[s])
      decreases j
    {
      assert Step(run, j - 1);
      assert !run[j].current.IsChild(s);
      if i < j - 1 {
        HistoryKept(run, i, j - 1, s, c);
        assert !run[j - 1].current.IsChild(s);
      }
    }

    // And back there is where a handler gets that asks for the history of s - by way of s, or directly if it
    // asks for it by an alias - while one that asks for s itself stays in s, or goes where the init action says.
    lemma HistoryReturns(run: seq<Config>, i: nat, j: nat, s: StateInstance, c: StateInstance, r: Reaction)
      requires Run(run) && run[|run| - 1].Quiet() && Away(run, i, j, s, c) && s.strategy != NoHistory
      requires HandlesAt(run, j, r) && r.request.Some? && r.request.value.state == s
      ensures j + 2 < |run| && s in run[j + 2].history
      ensures r.request.value.init == Adapting && s.strategy == Deep ==> run[j + 2].current == c
      ensures r.request.value.init == Adapting && s.strategy == Shallow ==>
        run[j + 2].current.parent == s && c.IsChild(run[j + 2].current)
      ensures r.request.value.init == History ==> run[j + 2].current == s && j + 3 < |run|
      ensures r.request.value.init == History && s.strategy == Deep ==> run[j + 3].current == c
      ensures r.request.value.init == History && s.strategy == Shallow ==>
        run[j + 3].current.parent == s && c.IsChild(run[j + 3].current)
      ensures r.request.value.init == Default ==> run[j + 2].current == s
      ensures r.request.value.init != Adapting ==> run[j + 2].history[s] == null
      ensures r.request.value.init == Default && onInit(run[j + 1].clock, s).None? ==> run[j + 2].pending.None?
    {
      HistoryKept(run, i, j, s, c);
      assert Step(run, j);
      assert Step(run, j + 1);
      assert !run[j].current.IsChild(s);
      if r.request.value.init == History {
        assert Step(run, j + 2);
      }
    }

    // Whoever arrives with no history to go on to goes where the init action says, or stays.
    lemma InitActionRuns(run: seq<Config>, i: nat, n: StateInstance, init: Initializer)
      requires Run(run) && i + 1 < |run| && run[i].pending == Some(Request(n, init)) && n in instances
      requires init == Default || (n in run[i].history && run[i].history[n] == null && run[i].current.Rooted() && !run[i].current.IsChild(n))
      ensures run[i + 1].current == n && (onInit(run[i].clock, n).None? ==> run[i + 1].pending.None?)
      ensures onInit(run[i].clock, n).Some? && onInit(run[i].clock, n).value.init != Adapting ==>
        run[i + 1].pending == onInit(run[i].clock, n)
    {
      assert Step(run, i);
    }

    lemma NowFits(script: seq<Reaction>)
      requires Valid() && Reactions(script)
      ensures Fits(Now(script))
    {
      forall s | s in instances && s.history != null ensures s.history in instances {
        assert HistoryOk(s);
      }
    }

    // Prepares a transition; one at a time.
    method SetPendingState(state: StateInstance, init: Initializer)
      requires pendingState == null
      modifies this`pendingState, this`pendingInit, this`asked
      ensures pendingState == state && pendingInit == init && asked == old(asked) + [state]
    {
      pendingState := state;
      pendingInit := init;
      asked := asked + [state];
    }

    // The state an alias stands for: the history of its state, if it is a history alias and
    // there is one.
    function Adapted(r: Request): StateInstance
      reads r.state`history
    {
      if r.init == Adapting && r.state.history != null then r.state.history else r.state
    }

    method SetState(r: Request)
      requires pendingState == null
      modifies this`pendingState, this`pendingInit, this`asked
      ensures pendingState == old(Adapted(r)) && pendingInit == r.init && asked == old(asked) + [old(Adapted(r))]
    {
      SetPendingState(Adapted(r), r.init);
    }

    // Where the arrival at s led on: to its history h, or where its init action says.
    ghost predicate Continued(s: StateInstance, history: bool, h: StateInstance?, now: nat)
      reads this`pendingState, this`pendingInit, instances`history
    {
      if history && h != null then pendingState == h && pendingInit == Default
      else
        var r := onInit(now, s);
        if r.None? then pendingState == null
        else r.value.state in instances && pendingState == Adapted(r.value) && pendingInit == r.value.init
    }

    lemma ProperTransitive(s: StateInstance, a: StateInstance, b: StateInstance)
      requires s.Rooted() && Proper(s, a) && Proper(a, b)
      ensures Proper(s, b)
    {
      Transitive(s, a, b);
      DeeperBelow(s, a);
      DeeperBelow(a, b);
    }

    // The init action of the state arrived at, or the way on to its history.
    method Init(s: StateInstance, history: bool)
      requires pendingState == null && Tree() && Disciplined() && s in instances && s.Rooted() && Sound(s)
      modifies this`pendingState, this`pendingInit, this`asked, s`history
      ensures s.history == null && Sound(s) && (s == instances[0] && old(s.history) == null ==> pendingState == null)
      ensures pendingState != null ==> Proper(s, pendingState)
      ensures asked == old(asked) + (if pendingState == null then [] else [pendingState])
      ensures Continued(s, history, old(s.history), clock)
    {
      if history && s.history != null {
        assert HistoryOk(s);
        SetPendingState(s.history, Default);
      } else {
        var r := onInit(clock, s);
        if r.Some? {
          assert HistoryOk(r.value.state);
          if r.value.state.history != null {
            ProperTransitive(s, r.value.state, r.value.state.history);
          }
          SetState(r.value);
        }
      }
      s.history := null;
      forall a | a in instances ensures HistoryOk(a) {
        assert old(HistoryOk(a));
      }
    }

    lemma {:induction false} ChainIn(c: StateInstance)
      requires Tree() && c in instances && InTree(c)
      ensures forall i {:trigger c.Chain()[i]} :: 0 <= i < c.depth ==> c.Chain()[i] in instances
      decreases c.depth
    {
      if c.parent != null {
        assert InTree(c.parent);
        ChainIn(c.parent);
        forall i | 0 <= i < c.depth ensures c.Chain()[i] in instances {
          assert i < c.depth - 1 ==> c.Chain()[i] == c.parent.Chain()[i];
        }
      }
    }

    // A state is active exactly if it is on the chain, at its own depth.
    lemma ChainHas(c: StateInstance, s: StateInstance)
      requires Tree() && c in instances && s in instances && s.parent != null && InTree(c) && InTree(s)
      ensures c.IsChild(s) <==> s.depth <= c.depth && c.Chain()[s.depth - 1] == s
      ensures s in c.Chain() ==> c.IsChild(s)
    {
      PrefixIff(c, s);
      assert s.Chain()[s.depth - 1] == s;
      if s.depth <= c.depth {
        ChainAt(c, s.depth - 1);
      }
    }

    // The states left, and those entered, by a transition from c to n.
    ghost predicate Exited(c: StateInstance, n: StateInstance, s: StateInstance)
      requires c.Rooted() && n.Rooted()
    {
      s.parent != null && c.IsChild(s) && !(n.IsChild(s) && s != n)
    }

    ghost predicate Entered(c: StateInstance, n: StateInstance, s: StateInstance)
      requires c.Rooted() && n.Rooted()
    {
      s.parent != null && n.IsChild(s) && !(c.IsChild(s) && s != n)
    }

    method ExitPhase(c: StateInstance, n: StateInstance)
      requires Tree() && c in instances && n in instances && InTree(c) && InTree(n)
      requires forall s {:trigger s.box} :: s in instances && c.IsChild(s) && s.parent != null ==> s.box != NoBox
      modifies this`trace, instances`box
      ensures trace == old(trace) + Exits(c.Chain(), Kept(c, n), c.depth)
      ensures forall s {:trigger s.box} :: s in instances ==>
        s.box == if Exited(c, n, s) then s.Left(old(s.box)) else old(s.box)
    {
      ghost var path, k := c.Chain(), Kept(c, n);
      ChainIn(c);
      ChainLeads(c);
      KeptMeaning(c, n);
      forall i | 0 <= i < c.depth ensures path[i].box != NoBox {
        assert InTree(path[i]);
        ChainHas(c, path[i]);
      }
      c.Exit(n, this, path, k);
      forall s | s in instances
        ensures s.box == if Exited(c, n, s) then s.Left(old(s.box)) else old(s.box)
      {
        assert InTree(s);
        if s.parent != null {
          ChainHas(c, s);
        } else {
          assert s !in path;
        }
      }
    }

    method EnterPhase(c: StateInstance, n: StateInstance)
      requires Tree() && c in instances && n in instances && InTree(c) && InTree(n)
      modifies this`trace, this`made, instances`box
      ensures old(made) <= made && trace == old(trace) + Entries(n.Chain(), Kept(c, n), n.depth)
      ensures forall s {:trigger s.box} :: s in instances ==>
        if Entered(c, n, s) then s.Created(old(s.box), s.box, old(made), made) else s.box == old(s.box)
    {
      ghost var path, k := n.Chain(), Kept(c, n);
      ChainIn(n);
      ChainLeads(n);
      KeptMeaning(c, n);
      n.Enter(c, true, this, path, k);
      forall s | s in instances
        ensures if Entered(c, n, s) then s.Created(old(s.box), s.box, old(made), made) else s.box == old(s.box)
      {
        assert InTree(s);
        if s.parent != null {
          ChainHas(n, s);
        } else {
          assert s !in path;
        }
      }
    }

    // Every superstate of c remembers what its strategy says.
    method SavePhase(c: StateInstance)
      requires Tree() && c in instances && InTree(c)
      modifies instances`history
      ensures forall s {:trigger s.history} :: s in instances ==> s.history == Saved(c, s, old(s.history))
    {
      ghost var path := c.Chain();
      ChainIn(c);
      ChainLeads(c);
      c.SetHistorySuper(c, path);
      forall s | s in instances ensures s.history == Saved(c, s, old(s.history)) {
        assert InTree(s);
        if s.parent != null {
          ChainHas(c, s);
          if c.IsChild(s) && s != c {
            TowardOnChain(s, c);
          }
        } else {
          assert s !in path;
        }
      }
    }

    ghost function Saved(c: StateInstance, s: StateInstance, before: StateInstance?): StateInstance?
      requires c.Rooted()
    {
      if c.IsChild(s) && s != c then s.Remembered(before, Toward(s, c), c) else before
    }

    // How a transition from c to n treats the box of s; new boxes are numbered from lo.
    ghost predicate Reboxed(c: StateInstance, n: StateInstance, s: StateInstance, before: Box, after: Box, lo: nat, hi: nat)
      requires c.Rooted() && n.Rooted()
    {
      var between := if Exited(c, n, s) then s.Left(before) else before;
      if Entered(c, n, s) then s.Created(between, after, lo, hi) else after == between
    }

    // The exits of a transition are those of the states left, and the entries those of the states entered.
    lemma HopHas(c: StateInstance, n: StateInstance, s: StateInstance)
      requires Tree() && c in instances && n in instances && s in instances && InTree(c) && InTree(n) && InTree(s)
      ensures Action.Exit(s) in Hop(c, n) <==> Exited(c, n, s)
      ensures Action.Entry(s) in Hop(c, n) <==> Entered(c, n, s)
    {
      var k := Kept(c, n);
      ExitsHas(c.Chain(), k, c.depth, s);
      EntriesHas(n.Chain(), k, n.depth, s);
      if s.parent != null {
        ChainHas(c, s);
        ChainHas(n, s);
        var i := s.depth - 1;
        if c.IsChild(s) {
          KeptAtSource(c, n, i);
        }
        if n.IsChild(s) && s != n {
          PrefixIff(n, s);
          KeptAtTarget(c, n, i);
        }
      }
    }

    lemma ReboxedMeans(c: StateInstance, n: StateInstance, s: StateInstance, before: Box, after: Box, lo: nat, hi: nat)
      requires Tree() && c in instances && n in instances && s in instances && InTree(c) && InTree(n) && InTree(s) && lo <= hi
      requires Reboxed(c, n, s, before, after, lo, hi) && (before.OwnBox? ==> s.ownBox && before.serial < lo) && (before.EmptyBox? ==> !s.ownBox)
      ensures Boxed(s, before, after, Hop(c, n), lo, hi)
    {
      HopHas(c, n, s);
    }

    // The boxes of all states.
    ghost function Boxes(): map<StateInstance, Box>
      reads instances`box
    {
      map s | s in instances :: s.box
    }

    // What becomes of them over the actions that happen, the boxes from number lo on being new.
    ghost predicate AllBoxed(before: map<StateInstance, Box>, after: map<StateInstance, Box>, acts: seq<Action>, lo: nat, hi: nat) {
      && lo <= hi && before.Keys == after.Keys == (set s | s in instances)
      && forall s {:trigger after[s]} :: s in instances ==> Boxed(s, before[s], after[s], acts, lo, hi)
    }

    // What became of them since the trace was t.
    ghost predicate Since(before: map<StateInstance, Box>, t: seq<Action>, lo: nat)
      reads this`trace, this`made, instances`box
    {
      t <= trace && AllBoxed(before, Boxes(), trace[|t|..], lo, made)
    }

    lemma SinceNothing(c: StateInstance)
      requires c.Rooted() && Sound(c)
      ensures Since(Boxes(), trace, made)
    {
      forall s | s in instances ensures Boxed(s, Boxes()[s], Boxes()[s], trace[|trace|..], made, made) {
        assert BoxOk(s, c.IsChild(s));
      }
    }

    lemma SinceLonger(before: map<StateInstance, Box>, t: seq<Action>, lo: nat, boxes: map<StateInstance, Box>, past: seq<Action>, mid: nat)
      requires t <= past && AllBoxed(before, boxes, past[|t|..], lo, mid) && Since(boxes, past, mid)
      ensures Since(before, t, lo)
    {
      var after := Boxes();
      assert trace[|t|..] == past[|t|..] + trace[|past|..];
      forall s | s in instances ensures Boxed(s, before[s], after[s], trace[|t|..], lo, made) {
        BoxedJoin(s, before[s], boxes[s], after[s], past[|t|..], trace[|past|..], lo, mid, made);
      }
    }

    // So a box stays exactly if it is not its state's own, or persistent, or the state was not left.
    twostate lemma SinceKept()
      requires Since(old(Boxes()), old(trace), old(made))
      ensures forall s {:trigger s.box} :: s in instances && old(s.box) != NoBox ==>
        (s.box == old(s.box) <==> !s.ownBox || s.persistent || Action.Exit(s) !in trace[|old(trace)|..])
    {
      forall s | s in instances && old(s.box) != NoBox
        ensures s.box == old(s.box) <==> !s.ownBox || s.persistent || Action.Exit(s) !in trace[|old(trace)|..]
      {
        assert Boxed(s, old(Boxes())[s], Boxes()[s], trace[|old(trace)|..], old(made), made);
      }
    }

    lemma SavedOk(c: StateInstance, s: StateInstance, before: StateInstance?)
      requires Tree() && c in instances && s in instances && InTree(c) && InTree(s)
      requires before != null ==> Proper(s, before)
      ensures Saved(c, s, before) != null ==> Proper(s, Saved(c, s, before))
    {
      if c.IsChild(s) && s != c {
        TowardOnChain(s, c);
        ChainIn(c);
        assert InTree(Toward(s, c));
      }
    }

    lemma ReboxedOk(c: StateInstance, n: StateInstance, s: StateInstance, before: Box, after: Box, lo: nat)
      requires c.Rooted() && n.Rooted()
      requires Reboxed(c, n, s, before, after, lo, made) && lo <= made
      requires before.OwnBox? ==> s.ownBox && before.serial < lo
      requires before.EmptyBox? ==> !s.ownBox
      requires if s.parent == null then before == NoBox
        else if c.IsChild(s) then before != NoBox
        else s.ownBox && !s.persistent ==> before == NoBox
      requires after == s.box
      ensures BoxOk(s, n.IsChild(s))
    {
    }

    twostate lemma StaysSound(new c: StateInstance, new n: StateInstance)
      requires Tree() && c in instances && n in instances && InTree(c) && InTree(n) && old(Sound(c)) && old(made) <= made
      requires forall s {:trigger s.history} :: s in instances ==>
        s.history == Saved(c, s, old(s.history))
      requires forall s {:trigger s.box} :: s in instances ==> Reboxed(c, n, s, old(s.box), s.box, old(made), made)
      ensures Sound(n)
    {
      forall s | s in instances ensures HistoryOk(s) {
        assert old(HistoryOk(s));
        assert InTree(s);
        SavedOk(c, s, old(s.history));
      }
      forall s | s in instances ensures BoxOk(s, n.IsChild(s)) {
        assert old(BoxOk(s, c.IsChild(s)));
        ReboxedOk(c, n, s, old(s.box), s.box, old(made));
      }
    }

    twostate lemma StaysTravelled(new c: StateInstance, new n: StateInstance)
      requires instances != [] && n in instances && n.Rooted() && c.Rooted()
      requires old(Travelled()) && old(current) == c
      requires current == n && visited == old(visited) + [n] && trace == old(trace) + Hop(c, n)
      ensures Travelled()
    {
      JourneyGrows(old(visited), n);
    }

    twostate lemma MovedBoxes(new c: StateInstance, new n: StateInstance)
      requires Tree() && c in instances && n in instances && InTree(c) && InTree(n) && old(Sound(c)) && old(made) <= made
      requires trace == old(trace) + Hop(c, n)
      requires forall s {:trigger s.box} :: s in instances ==> Reboxed(c, n, s, old(s.box), s.box, old(made), made)
      ensures Since(old(Boxes()), old(trace), old(made))
    {
      assert trace[|old(trace)|..] == Hop(c, n);
      forall s | s in instances ensures Boxed(s, old(Boxes())[s], Boxes()[s], Hop(c, n), old(made), made) {
        assert InTree(s) && old(BoxOk(s, c.IsChild(s)));
        ReboxedMeans(c, n, s, old(s.box), s.box, old(made), made);
      }
    }

    // A state that contains both ends of a transition keeps the box it has.
    twostate lemma SharedKept(new c: StateInstance, new n: StateInstance)
      requires Tree() && c in instances && n in instances && InTree(c) && InTree(n) && old(Sound(c))
      requires trace == old(trace) + Hop(c, n) && Since(old(Boxes()), old(trace), old(made))
      ensures forall s {:trigger s.box} :: s in instances && c.IsChild(s) && n.IsChild(s) && s != n ==> s.box == old(s.box)
    {
      forall s | s in instances && c.IsChild(s) && n.IsChild(s) && s != n ensures s.box == old(s.box) {
        assert InTree(s) && old(BoxOk(s, c.IsChild(s))) && trace[|old(trace)|..] == Hop(c, n);
        HopHas(c, n, s);
        assert Boxed(s, old(Boxes())[s], Boxes()[s], Hop(c, n), old(made), made);
      }
    }

    // Exit, remember, enter: the part of a transition before the init action.
    method Move(c: StateInstance, n: StateInstance)
      requires Tree() && c == current && c in instances && n in instances && InTree(c) && InTree(n) && Sound(c)
      modifies this`trace, this`current, this`visited, this`made, instances`box, instances`history
      ensures current == n && visited == old(visited) + [n] && old(made) <= made && trace == old(trace) + Hop(c, n)
      ensures forall s {:trigger s.history} :: s in instances ==> s.history == Saved(c, s, old(s.history))
      ensures forall s {:trigger s.box} :: s in instances ==> Reboxed(c, n, s, old(s.box), s.box, old(made), made)
    {
      forall s | s in instances && c.IsChild(s) && s.parent != null ensures s.box != NoBox {
        assert BoxOk(s, c.IsChild(s));
      }
      ExitPhase(c, n);
      SavePhase(c);
      current := n;
      visited := visited + [n];
      EnterPhase(c, n);
      Assoc(old(trace), Exits(c.Chain(), Kept(c, n), c.depth), Entries(n.Chain(), Kept(c, n), n.depth));
    }

    method SoundMove(c: StateInstance, n: StateInstance)
      requires Tree() && c == current && c in instances && n in instances && InTree(c) && InTree(n) && Sound(c) && Travelled()
      modifies this`trace, this`current, this`visited, this`made, instances`box, instances`history
      ensures current == n && visited == old(visited) + [n] && old(made) <= made && trace == old(trace) + Hop(c, n)
      ensures Sound(n) && Travelled() && Since(old(Boxes()), old(trace), old(made))
      ensures forall s {:trigger s.history} :: s in instances ==> s.history == Saved(c, s, old(s.history))
      ensures forall s {:trigger s.box} :: s in instances ==> Reboxed(c, n, s, old(s.box), s.box, old(made), made)
    {
      Move(c, n);
      StaysSound(c, n);
      StaysTravelled(c, n);
      MovedBoxes(c, n);
    }

    // The init action ends a transition, and may ask for the next.
    method Arrive(n: StateInstance)
      requires Tree() && Disciplined() && n in instances && n.Rooted() && Sound(n) && n == pendingState
      modifies this`pendingState, this`pendingInit, this`asked, this`clock, n`history
      ensures n.history == null && Sound(n) && clock == old(clock) + 1
      ensures pendingState != null ==> Proper(n, pendingState) && n != instances[0]
      ensures asked == old(asked) + (if pendingState == null then [] else [pendingState])
      ensures Continued(n, old(pendingInit) != Default, old(n.history), old(clock))
    {
      assert HistoryOk(n);
      pendingState := null;
      Init(n, pendingInit != Default);
      clock := clock + 1;
    }

    // One round of the inner loop of rattleOn.
    method Transition()
      requires Valid() && pendingState != null
      modifies this`trace, this`current, this`made, this`pendingState, this`pendingInit, this`clock
      modifies this`visited, this`asked, instances`box, instances`history
      ensures Valid() && current == old(pendingState) && clock == old(clock) + 1
      ensures old(InTree(current)) && visited == old(visited) + [current] && trace == old(trace) + Hop(old(current), current)
      ensures forall s {:trigger s.history} :: s in instances ==>
        s.history == if s == current then null else Saved(old(current), s, old(s.history))
      ensures old(made) <= made
      ensures forall s {:trigger s.box} :: s in instances ==> Reboxed(old(current), current, s, old(s.box), s.box, old(made), made)
      ensures forall s {:trigger s.box} :: s in instances && old(s.box) != NoBox ==>
        (s.box == old(s.box) <==> !s.ownBox || s.persistent || Action.Exit(s) !in trace[|old(trace)|..])
      ensures forall s {:trigger s.box} :: s in instances && old(current).IsChild(s) && current.IsChild(s) && s != current ==>
        s.box == old(s.box)
      ensures Since(old(Boxes()), old(trace), old(made))
      ensures pendingState != null ==> Proper(current, pendingState)
      ensures current == instances[0] ==> pendingState == null
      ensures Continued(current, old(pendingInit) != Default, Saved(old(current), current, old(pendingState.history)), old(clock))
    {
      var c, n := current, pendingState;
      assert InTree(n);
      SoundMove(c, n);
      Arrive(n);
      assert visited[1..] == old(visited)[1..] + [n];
      SinceKept();
      SharedKept(c, n);
    }

    twostate lemma SteppedHistories()
      requires old(current != null && current.Rooted()) && current != null && current in instances
      requires forall s {:trigger s.history} :: s in instances ==>
        s.history == if s == current then null else Saved(old(current), s, old(s.history))
      ensures (map s | s in instances :: s.history) == Remembering(old(current), old(map s | s in instances :: s.history))[current := null]
    {
    }

    // What a transition leaves behind is what it should.
    twostate lemma Stepped(script: seq<Reaction>)
      requires old(current != null && pendingState != null && current.Rooted() && Fits(Now(script)))
      requires current != null && current == old(pendingState)
      requires clock == old(clock) + 1 && pendingEvent == old(pendingEvent)
      requires visited == old(visited) + [current] && InTree(current) && trace == old(trace) + Hop(old(current), current)
      requires forall s {:trigger s.history} :: s in instances ==>
        s.history == if s == current then null else Saved(old(current), s, old(s.history))
      requires Continued(current, old(pendingInit) != Default, Saved(old(current), current, old(pendingState.history)), old(clock))
      ensures Now(script) == Arrived(old(Now(script)))
    {
      SteppedHistories();
      SteppedOnward();
    }

    // And so is where it goes on to.
    twostate lemma SteppedOnward()
      requires old(current != null && current.Rooted() && pendingState != null && pendingState in instances) && Tree() && Disciplined()
      requires current != null && current == old(pendingState) && clock == old(clock) + 1
      requires forall s {:trigger s.history} :: s in instances ==>
        s.history == if s == current then null else Saved(old(current), s, old(s.history))
      requires Continued(current, old(pendingInit) != Default, Saved(old(current), current, old(pendingState.history)), old(clock))
      ensures (if pendingState == null then None else Some(Request(pendingState, pendingInit))) ==
        Onward(current, old(pendingInit), Remembering(old(current), old(map s | s in instances :: s.history)), old(clock))
    {
    }

    // Each state visited after the given number of others is a proper substate of the one before.
    ghost predicate Descends(v: seq<StateInstance>, from: nat) {
      forall i {:trigger v[i]} :: from < i < |v| ==> Proper(v[i - 1], v[i])
    }

    // Where the inner loop stands, having set out with seen visited and goal pending.
    ghost predicate Underway(seen: seq<StateInstance>, goal: StateInstance?)
      reads this`current, this`visited, this`pendingState
    {
      && seen <= visited && Descends(visited, |seen|)
      && (if |visited| == |seen| then pendingState == goal
          else
            && visited[|seen|] == goal
            && (pendingState != null ==> current != null && Proper(current, pendingState) && (instances != [] ==> goal != instances[0]))
            && (instances != [] && goal == instances[0] ==> current == goal))
    }

    // The transition is the step of the course of the machine.
    method StepOn(ghost script: seq<Reaction>)
      requires Valid() && pendingState != null && Reactions(script)
      modifies this`trace, this`current, this`made, this`pendingState, this`pendingInit, this`clock
      modifies this`visited, this`asked, instances`box, instances`history
      ensures Valid() && current == old(pendingState) && visited == old(visited) + [current]
      ensures pendingState != null ==> Proper(current, pendingState)
      ensures current == instances[0] ==> pendingState == null
      ensures Fits(old(Now(script))) && Now(script) == Next(old(Now(script)))
      ensures Since(old(Boxes()), old(trace), old(made))
    {
      NowFits(script);
      assert InTree(current);
      Transition();
      assert InTree(current);
      Stepped(script);
    }

    method Advance(ghost seen: seq<StateInstance>, ghost goal: StateInstance, ghost script: seq<Reaction>)
      requires Valid() && pendingState != null && Underway(seen, goal) && Reactions(script)
      modifies this`trace, this`current, this`made, this`pendingState, this`pendingInit, this`clock
      modifies this`visited, this`asked, instances`box, instances`history
      ensures Valid() && Underway(seen, goal) && |visited| > |seen|
      ensures Fits(old(Now(script))) && Now(script) == Next(old(Now(script)))
      ensures pendingState != null ==> old(pendingState).depth < pendingState.depth <= height
      ensures Since(old(Boxes()), old(trace), old(made))
    {
      ghost var n, before := pendingState, visited;
      assert InTree(n);
      DescendsGrows(before, n, |seen|);
      StepOn(script);
      assert visited[|before|] == n;
      if pendingState != null {
        assert InTree(pendingState);
        DeeperBelow(n, pendingState);
      }
    }

    method AdvanceRun(ghost seen: seq<StateInstance>, ghost goal: StateInstance, ghost script: seq<Reaction>,
                      ghost start: Config, ghost run: seq<Config>,
                      ghost boxes: map<StateInstance, Box>, ghost past: seq<Action>, ghost lo: nat)
      returns (ghost run': seq<Config>)
      requires Valid() && pendingState != null && Underway(seen, goal) && Reactions(script) && Reached(run, start, script)
      requires Since(boxes, past, lo)
      modifies this`trace, this`current, this`made, this`pendingState, this`pendingInit, this`clock
      modifies this`visited, this`asked, instances`box, instances`history
      ensures Valid() && Underway(seen, goal) && |visited| > |seen| && Reached(run', start, script)
      ensures pendingState != null ==> old(pendingState).depth < pendingState.depth <= height
      ensures Since(boxes, past, lo)
    {
      ghost var before, t, mid := Boxes(), trace, made;
      Advance(seen, goal, script);
      RunGrows(run, Now(script));
      run' := run + [Now(script)];
      SinceLonger(boxes, past, lo, before, t, mid);
    }

    // The inner loop of rattleOn: after the transition asked for, init actions and histories
    // lead on downwards only, and so not for ever.
    method Settle(ghost script: seq<Reaction>) returns (ghost run: seq<Config>)
      requires Valid() && Reactions(script)
      modifies this`trace, this`current, this`made, this`pendingState, this`pendingInit, this`clock
      modifies this`visited, this`asked, instances`box, instances`history
      ensures Valid() && pendingState == null
      ensures Reached(run, old(Now(script)), script)
      ensures old(visited) <= visited && Descends(visited, |old(visited)|)
      ensures if old(pendingState) == null then visited == old(visited)
        else |visited| > |old(visited)| && visited[|old(visited)|] == old(pendingState)
      ensures old(pendingState) == instances[0] ==> current == instances[0]
      ensures Since(old(Boxes()), old(trace), old(made))
    {
      if pendingState != null {
        assert InTree(pendingState);
      }
      ghost var start, seen, goal := Now(script), visited, pendingState;
      run := [start];
      ghost var boxes, past, first := Boxes(), trace, made;
      SinceNothing(current);
      while pendingState != null
        invariant Valid() && Underway(seen, goal) && Reached(run, start, script) && Since(boxes, past, first)
        invariant pendingState != null ==> pendingState.depth <= height
        decreases if pendingState == null then 0 else 1 + height - pendingState.depth
      {
        run := AdvanceRun(seen, goal, script, start, run, boxes, past, first);
      }
    }

    lemma DescendsGrows(v: seq<StateInstance>, n: StateInstance, from: nat)
      requires Descends(v, from) && 0 < |v| && from <= |v|
      requires |v| > from ==> Proper(v[|v| - 1], n)
      ensures Descends(v + [n], from)
    {
      forall i | from < i < |v + [n]| ensures Proper((v + [n])[i - 1], (v + [n])[i]) {
        if i < |v| {
          assert (v + [n])[i] == v[i];
        }
      }
    }

    // A request keeps the machine valid.
    method Ask(state: StateInstance, init: Initializer)
      requires Valid() && pendingState == null && state in instances
      modifies this`pendingState, this`pendingInit, this`asked
      ensures Valid() && pendingState == state && pendingInit == init
      ensures Boxes() == old(Boxes()) && trace == old(trace) && made == old(made) && visited == old(visited)
    {
      SetPendingState(state, init);
      assert asked == visited[1..] + [state];
    }

    // The state a handler asks for, if any.
    function Target(r: Reaction): StateInstance?
      reads if r.request.Some? then {r.request.value.state} else {}
    {
      if r.request.Some? then Adapted(r.request.value) else null
    }

    // What the handler of an event does.
    method React(r: Reaction)
      requires Valid() && pendingState == null && !pendingEvent
      requires r.request.Some? ==> r.request.value.state in instances && r.request.value.state.parent != null
      modifies this`pendingState, this`pendingInit, this`asked, this`pendingEvent
      ensures Valid() && pendingEvent == r.post
      ensures pendingState == old(Target(r)) && (r.request.Some? ==> pendingInit == r.request.value.init)
      ensures Boxes() == old(Boxes()) && trace == old(trace) && made == old(made) && visited == old(visited)
    {
      if r.request.Some? {
        assert HistoryOk(r.request.value.state);
        Ask(Adapted(r.request.value), r.request.value.init);
      }
      pendingEvent := r.post;
    }

    ghost predicate Reactions(script: seq<Reaction>) {
      forall r {:trigger r in script} :: r in script && r.request.Some? ==>
        r.request.value.state in instances && r.request.value.state.parent != null
    }

    // The pending event meets its handler.
    method CallHandler(script: seq<Reaction>) returns (rest: seq<Reaction>)
      requires Valid() && pendingState == null && pendingEvent && Reactions(script)
      modifies this`pendingState, this`pendingInit, this`asked, this`pendingEvent
      ensures Valid() && rest == (if script == [] then [] else script[1..])
      ensures script == [] ==> pendingState == null && !pendingEvent
      ensures script != [] ==> pendingState == old(Target(script[0])) && pendingEvent == script[0].post
      ensures script != [] && script[0].request.Some? ==> pendingInit == script[0].request.value.init
    {
      pendingEvent := false;
      rest := script;
      if rest != [] {
        assert rest[0] in script;
        React(rest[0]);
        rest := rest[1..];
      }
    }

    twostate lemma EventHandled(script: seq<Reaction>)
      requires old(current != null && pendingState == null && Fits(Now(script)))
      requires current == old(current) && clock == old(clock) && trace == old(trace) && visited == old(visited)
      requires forall s {:trigger s.history} :: s in instances ==> s.history == old(s.history)
      requires script == [] ==> pendingState == null && !pendingEvent
      requires script != [] ==> pendingState == old(Target(script[0])) && pendingEvent == script[0].post
      requires script != [] && script[0].request.Some? ==> pendingInit == script[0].request.value.init
      ensures Now(if script == [] then [] else script[1..]) == Handled(old(Now(script)))
    {
      assert script != [] ==> script[0] in script;
      assert Now(script).history == old(Now(script)).history;
    }

    // And that is the step of the course of the machine.
    method HandleEvent(script: seq<Reaction>) returns (rest: seq<Reaction>)
      requires Valid() && pendingState == null && pendingEvent && Reactions(script)
      modifies this`pendingState, this`pendingInit, this`asked, this`pendingEvent
      ensures Valid() && visited == old(visited)
      ensures rest == (if script == [] then [] else script[1..]) && Reactions(rest)
      ensures script == [] ==> pendingState == null && !pendingEvent
      ensures script != [] ==> pendingState == old(Target(script[0])) && pendingEvent == script[0].post
      ensures Fits(old(Now(script))) && Now(rest) == Next(old(Now(script)))
    {
      NowFits(script);
      rest := CallHandler(script);
      EventHandled(script);
      assert forall r {:trigger r in rest} :: r in rest ==> r in script;
    }

    ghost predicate Suffix(rest: seq<Reaction>, script: seq<Reaction>) {
      |rest| <= |script| && rest == script[|script| - |rest|..]
    }

    // What a run makes of a pending transition to goal, having seen the given states: it goes
    // there first, and quietly (without events) only further down from there.
    ghost predicate Ran(seen: seq<StateInstance>, goal: StateInstance?, quiet: bool)
      reads this`current, this`visited
    {
      && instances != [] && seen <= visited
      && (goal != null ==> |visited| > |seen| && visited[|seen|] == goal)
      && (quiet ==> Descends(visited, |seen|) && (goal == null ==> visited == seen) && (goal == instances[0] ==> current == goal))
    }

    // A round of the outer loop of rattleOn.
    method Round(script: seq<Reaction>) returns (rest: seq<Reaction>, ghost run: seq<Config>)
      requires Valid() && Reactions(script)
      modifies this`trace, this`current, this`made, this`pendingState, this`pendingInit, this`pendingEvent, this`clock
      modifies this`visited, this`asked, instances`box, instances`history
      ensures Valid() && Reactions(rest) && Ran(old(visited), old(pendingState), !old(pendingEvent))
      ensures !old(pendingEvent) ==> pendingState == null && !pendingEvent && rest == script
      ensures old(pendingEvent) ==> rest == if script == [] then [] else script[1..]
      ensures pendingEvent ==> script != []
      ensures Reached(run, old(Now(script)), rest)
      ensures Since(old(Boxes()), old(trace), old(made))
    {
      ghost var start := Now(script);
      run := Settle(script);
      rest := script;
      if pendingEvent {
        rest, run := EventRun(script, start, run);
      }
    }

    // The event that is pending at the end of a round.
    method EventRun(script: seq<Reaction>, ghost start: Config, ghost run: seq<Config>)
      returns (rest: seq<Reaction>, ghost run': seq<Config>)
      requires Valid() && pendingState == null && pendingEvent && Reactions(script) && Reached(run, start, script)
      modifies this`pendingState, this`pendingInit, this`asked, this`pendingEvent
      ensures Valid() && visited == old(visited) && Reactions(rest) && Reached(run', start, rest)
      ensures rest == (if script == [] then [] else script[1..]) && (pendingEvent ==> script != [])
      ensures Boxes() == old(Boxes()) && trace == old(trace) && made == old(made)
    {
      rest := HandleEvent(script);
      RunGrows(run, Now(rest));
      run' := run + [Now(rest)];
    }

    // Before the first round nothing has happened; after it the run has begun as it should.
    ghost predicate Begun(first: bool, seen: seq<StateInstance>, goal: StateInstance?, event: bool)
      reads this`current, this`visited, this`pendingState, this`pendingEvent
    {
      if first then visited == seen && pendingState == goal && pendingEvent == event
      else Ran(seen, goal, !event) && (!event ==> pendingState == null && !pendingEvent)
    }

    method RoundRun(script: seq<Reaction>, ghost start: Config, ghost run: seq<Config>, ghost first: bool,
                    ghost seen: seq<StateInstance>, ghost goal: StateInstance?, ghost event: bool,
                    ghost boxes: map<StateInstance, Box>, ghost past: seq<Action>, ghost lo: nat)
      returns (rest: seq<Reaction>, ghost run': seq<Config>)
      requires Valid() && Reactions(script) && Reached(run, start, script) && Begun(first, seen, goal, event)
      requires (first || event) && Since(boxes, past, lo)
      modifies this`trace, this`current, this`made, this`pendingState, this`pendingInit, this`pendingEvent, this`clock
      modifies this`visited, this`asked, instances`box, instances`history
      ensures Valid() && Reactions(rest) && Begun(false, seen, goal, event) && Reached(run', start, rest)
      ensures rest == (if script == [] || !old(pendingEvent) then script else script[1..])
      ensures !old(pendingEvent) ==> pendingState == null && !pendingEvent
      ensures pendingEvent ==> script != []
      ensures Since(boxes, past, lo)
    {
      ghost var more;
      ghost var before, t, mid := Boxes(), trace, made;
      rest, more := Round(script);
      RunJoin(run, more);
      run' := run + more[1..];
      SinceLonger(boxes, past, lo, before, t, mid);
    }

    // Carries out what is pending. The script holds what the handlers called do, one after the
    // other; once it is used up they do nothing.
    method RattleOn(script: seq<Reaction>) returns (rest: seq<Reaction>, ghost run: seq<Config>)
      requires Valid() && Reactions(script)
      modifies this`trace, this`current, this`made, this`pendingState, this`pendingInit, this`pendingEvent, this`clock
      modifies this`visited, this`asked, instances`box, instances`history
      ensures Valid() && pendingState == null && !pendingEvent
      ensures Ran(old(visited), old(pendingState), !old(pendingEvent))
      ensures Suffix(rest, script) && (!old(pendingEvent) ==> rest == script)
      ensures Reached(run, old(Now(script)), rest)
      ensures Since(old(Boxes()), old(trace), old(made))
    {
      ghost var start := Now(script);
      SinceNothing(current);
      rest, run := Rounds(script, start, [start], visited, pendingState, pendingEvent, Boxes(), trace, made);
    }

    // The outer loop of rattleOn.
    method Rounds(script: seq<Reaction>, ghost start: Config, ghost before: seq<Config>,
                  ghost seen: seq<StateInstance>, ghost goal: StateInstance?, ghost event: bool,
                  ghost boxes: map<StateInstance, Box>, ghost past: seq<Action>, ghost lo: nat)
      returns (rest: seq<Reaction>, ghost run: seq<Config>)
      requires Valid() && Reactions(script) && Reached(before, start, script) && Begun(true, seen, goal, event) && Since(boxes, past, lo)
      modifies this`trace, this`current, this`made, this`pendingState, this`pendingInit, this`pendingEvent, this`clock
      modifies this`visited, this`asked, instances`box, instances`history
      ensures Valid() && pendingState == null && !pendingEvent && Ran(seen, goal, !event)
      ensures Suffix(rest, script) && (!event ==> rest == script) && Reached(run, start, rest) && Since(boxes, past, lo)
    {
      rest, run := script, before;
      ghost var first := true;
      while pendingState != null || pendingEvent
        invariant Valid() && Reactions(rest) && Reached(run, start, rest) && Suffix(rest, script)
        invariant Begun(first, seen, goal, event) && (!event ==> rest == script) && Since(boxes, past, lo)
        decreases |rest| + (if pendingEvent then 1 else 0), if pendingState != null then 1 else 0
      {
        rest, run := RoundRun(rest, start, run, first, seen, goal, event, boxes, past, lo);
        first := false;
      }
    }

    constructor (instances: seq<StateInstance>, onInit: (nat, StateInstance) -> Option<Request>, ghost height: nat)
      ensures this.instances == instances && this.onInit == onInit && this.height == height
      ensures current == null && pendingState == null && !pendingEvent && made == 0
      ensures trace == [] && visited == [] && asked == []
    {
      this.instances, this.onInit, this.height := instances, onInit, height;
      current, pendingState, pendingInit, pendingEvent, clock, made := null, null, Default, false, 0, 0;
      trace, visited, asked := [], [], [];
    }

    // No state is current; what happened before ended in Root.
    ghost predicate Stopped()
      reads this`current, this`pendingState, this`pendingEvent, this`made, this`trace, this`visited, this`asked
      reads instances`history, instances`box
    {
      && Tree() && Disciplined() && current == null && pendingState == null && !pendingEvent
      && InTree(instances[0]) && Sound(instances[0])
      && (if visited == [] then trace == [] && asked == []
          else Traced() && visited[|visited| - 1] == instances[0] && asked == visited[1..])
    }

    // A new machine over states that were never entered can be started.
    lemma FreshStopped()
      requires Tree() && Disciplined() && current == null && pendingState == null && !pendingEvent
      requires trace == [] && visited == [] && asked == []
      requires forall s {:trigger s.box} :: s in instances ==> s.box == NoBox
      requires forall s {:trigger s.history} :: s in instances ==> s.history == null
      ensures Stopped()
    {
      assert InTree(instances[0]);
      forall s | s in instances ensures BoxOk(s, instances[0].IsChild(s)) {
      }
    }

    // Starts a machine, new or shut down, in Root and goes to the state given.
    method Start(r: Request) returns (ghost run: seq<Config>)
      requires Stopped() && r.state in instances && r.state.parent != null
      modifies this`trace, this`current, this`made, this`pendingState, this`pendingInit, this`pendingEvent, this`clock
      modifies this`visited, this`asked, instances`box, instances`history
      ensures Valid() && pendingState == null && !pendingEvent
      ensures Ran(if old(visited) == [] then [instances[0]] else old(visited), old(Adapted(r)), true)
      ensures run != [] && Reached(run, run[0], [])
      ensures run[0] == Config(instances[0], Some(Request(old(Adapted(r)), r.init)), false, old(map s | s in instances :: s.history),
        old(clock), old(trace), if old(visited) == [] then [instances[0]] else old(visited), [])
      ensures Since(old(Boxes()), old(trace), old(made))
    {
      GetReady(r);
      var rest;
      rest, run := RattleOn([]);
    }

    method GetReady(r: Request)
      requires Stopped() && r.state in instances && r.state.parent != null
      modifies this`current, this`visited, this`pendingState, this`pendingInit, this`asked
      ensures Valid() && pendingState == old(Adapted(r)) && !pendingEvent
      ensures visited == if old(visited) == [] then [instances[0]] else old(visited)
      ensures Now([]) == Config(instances[0], Some(Request(old(Adapted(r)), r.init)), false, old(map s | s in instances :: s.history),
        old(clock), old(trace), if old(visited) == [] then [instances[0]] else old(visited), [])
      ensures Boxes() == old(Boxes()) && trace == old(trace) && made == old(made)
    {
      Enter();
      SetState(r);
      ReadyToGo(r);
    }

    // Starts out in Root.
    method Enter()
      requires Stopped()
      modifies this`current, this`visited
      ensures current == instances[0] && Tree() && Disciplined() && InTree(current) && Sound(current) && Travelled()
      ensures visited == (if old(visited) == [] then [instances[0]] else old(visited)) && asked == visited[1..]
    {
      current := instances[0];
      if visited == [] {
        visited := [current];
      }
    }

    lemma ReadyToGo(r: Request)
      requires Tree() && Disciplined() && current == instances[0] && InTree(current) && Sound(current) && Travelled()
      requires r.state in instances && pendingState == Adapted(r) && asked == visited[1..] + [pendingState]
      ensures Valid()
    {
      assert HistoryOk(r.state);
    }

    // An event from outside: its handler runs on the current state, then what is pending is
    // carried out.
    method Dispatch(script: seq<Reaction>) returns (rest: seq<Reaction>, ghost run: seq<Config>)
      requires Valid() && pendingState == null && !pendingEvent && Reactions(script) && script != []
      modifies this`trace, this`current, this`made, this`pendingState, this`pendingInit, this`pendingEvent, this`clock
      modifies this`visited, this`asked, instances`box, instances`history
      ensures Valid() && pendingState == null && !pendingEvent
      ensures Ran(old(visited), old(Target(script[0])), !script[0].post)
      ensures Suffix(rest, script[1..]) && (!script[0].post ==> rest == script[1..])
      ensures Reached(run, old(Now(script)).(event := true), rest)
      ensures Since(old(Boxes()), old(trace), old(made))
    {
      ghost var start := Now(script).(event := true);
      var later := CallFirst(script);
      rest, run := RattleFrom(later, start);
    }

    // What is pending after a step from start is carried out.
    method RattleFrom(script: seq<Reaction>, ghost start: Config) returns (rest: seq<Reaction>, ghost run: seq<Config>)
      requires Valid() && Reactions(script) && Fits(start) && !start.Quiet() && Now(script) == Next(start)
      modifies this`trace, this`current, this`made, this`pendingState, this`pendingInit, this`pendingEvent, this`clock
      modifies this`visited, this`asked, instances`box, instances`history
      ensures Valid() && pendingState == null && !pendingEvent
      ensures Ran(old(visited), old(pendingState), !old(pendingEvent))
      ensures Suffix(rest, script) && (!old(pendingEvent) ==> rest == script)
      ensures Reached(run, start, rest)
      ensures Since(old(Boxes()), old(trace), old(made))
    {
      ghost var more;
      rest, more := RattleOn(script);
      run := [start] + more;
      RunStarts(start, more, rest);
    }

    // The handler of the event dispatched.
    method CallFirst(script: seq<Reaction>) returns (later: seq<Reaction>)
      requires Valid() && pendingState == null && !pendingEvent && Reactions(script) && script != []
      modifies this`pendingState, this`pendingInit, this`pendingEvent, this`asked
      ensures Valid() && later == script[1..] && Reactions(later)
      ensures pendingState == old(Target(script[0])) && pendingEvent == script[0].post
      ensures Fits(old(Now(script)).(event := true)) && Now(later) == Next(old(Now(script)).(event := true))
      ensures Boxes() == old(Boxes()) && trace == old(trace) && made == old(made) && visited == old(visited)
    {
      NowFits(script);
      assert script[0] in script;
      React(script[0]);
      later := script[1..];
      EventHandled(script);
      assert forall r {:trigger r in later} :: r in later ==> r in script;
    }

    lemma RunStarts(c: Config, more: seq<Config>, rest: seq<Reaction>)
      requires more != [] && Reached(more, more[0], rest) && Fits(c) && !c.Quiet() && more[0] == Next(c)
      ensures Reached([c] + more, c, rest)
    {
      RunGrows([c], more[0]);
      RunJoin([c, more[0]], more);
      assert [c, more[0]] + more[1..] == [c] + more;
    }

    // Exits all states by going to Root.
    method Shutdown()
      requires Valid() && pendingState == null && !pendingEvent
      modifies this`trace, this`current, this`made, this`pendingState, this`pendingInit, this`pendingEvent, this`clock
      modifies this`visited, this`asked, instances`box, instances`history
      ensures Stopped() && visited == old(visited) + [instances[0]]
      ensures trace == old(trace) + Exits(old(current).Chain(), 0, old(current).depth)
      ensures Replay(instances[0], trace) == Some([])
      ensures forall s {:trigger s.box} :: s in instances && s.ownBox && !s.persistent ==> s.box == NoBox
      ensures Since(old(Boxes()), old(trace), old(made))
    {
      GoToRoot();
      AllLeft();
      current := null;
    }

    method GoToRoot()
      requires Valid() && pendingState == null && !pendingEvent
      modifies this`trace, this`current, this`made, this`pendingState, this`pendingInit, this`pendingEvent, this`clock
      modifies this`visited, this`asked, instances`box, instances`history
      ensures Valid() && pendingState == null && !pendingEvent && current == instances[0]
      ensures visited == old(visited) + [instances[0]]
      ensures trace == old(trace) + Exits(old(current).Chain(), 0, old(current).depth)
      ensures Since(old(Boxes()), old(trace), old(made))
    {
      Ask(instances[0], Default);
      ghost var was := Now([]);
      NowFits([]);
      var rest, run := RattleOn([]);
      AtRoot(run, was);
    }

    lemma AtRoot(run: seq<Config>, c: Config)
      requires Reached(run, c, []) && Fits(c) && !c.event && c.pending == Some(Request(instances[0], Default))
      requires pendingState == null && !pendingEvent
      ensures c.current.Rooted() && current == instances[0] && visited == c.visited + [instances[0]]
      ensures trace == c.trace + Exits(c.current.Chain(), 0, c.current.depth)
    {
      ToRoot(run, c);
    }

    // Going to Root takes one step, with nothing but exits.
    lemma ToRoot(run: seq<Config>, c: Config)
      requires Run(run) && run[0] == c && Fits(c) && !c.event && c.pending == Some(Request(instances[0], Default))
      requires run[|run| - 1].Quiet()
      ensures c.current.Rooted() && |run| == 2 && run[1].current == instances[0] && run[1].visited == c.visited + [instances[0]]
      ensures run[1].trace == c.trace + Exits(c.current.Chain(), 0, c.current.depth)
    {
      assert InTree(c.current) && InTree(instances[0]);
      assert Step(run, 0);
      assert |run| > 2 ==> !Step(run, 1);
      var exits := Exits(c.current.Chain(), 0, c.current.depth);
      assert Hop(c.current, instances[0]) == exits + [] == exits;
    }

    // In Root no state is active.
    lemma AllLeft()
      requires Valid() && current == instances[0]
      ensures Replay(instances[0], trace) == Some([])
      ensures forall s {:trigger s.box} :: s in instances && s.ownBox && !s.persistent ==> s.box == NoBox
    {
      Nested();
      assert current.Chain() == [];
      forall s | s in instances && s.ownBox && !s.persistent ensures s.box == NoBox {
        assert BoxOk(s, current.IsChild(s));
      }
    }

    // Changing histories alone leaves all else valid.
    twostate lemma HistoriesOnly()
      requires old(Valid()) && current == old(current) && made == old(made) && Travelled()
      requires pendingState == old(pendingState) && asked == old(asked) && visited == old(visited)
      requires forall s {:trigger HistoryOk(s)} :: s in instances ==> HistoryOk(s)
      requires forall s {:trigger s.box} :: s in instances ==> s.box == old(s.box)
      ensures Valid()
    {
      forall s | s in instances ensures BoxOk(s, current.IsChild(s)) {
        assert old(BoxOk(s, current.IsChild(s)));
      }
    }

    method ClearHistory(state: StateInstance)
      requires Valid() && state in instances
      modifies state`history
      ensures Valid() && state.history == null
    {
      state.history := null;
      forall s | s in instances ensures HistoryOk(s) {
        assert old(HistoryOk(s));
      }
      HistoriesOnly();
    }

    // Clears the history of a state and of those below it.
    method ClearHistoryDeep(state: StateInstance)
      requires Valid() && state in instances
      modifies instances`history
      ensures Valid()
      ensures forall s {:trigger s.history} :: s in instances ==>
        s.Rooted() && s.history == if s.IsChild(state) then null else old(s.history)
    {
      forall s | s in instances ensures s.Rooted() { assert InTree(s); }
      for i := 0 to |instances|
        invariant forall j {:trigger instances[j]} :: 0 <= j < i && instances[j].IsChild(state) ==> instances[j].history == null
        invariant forall s {:trigger s.history} :: s in instances ==>
          s.history == old(s.history) || (s.IsChild(state) && s.history == null)
        invariant forall s {:trigger s.history} :: s in instances && !s.IsChild(state) ==> s.history == old(s.history)
      {
        if instances[i].IsChild(state) {
          instances[i].history := null;
        }
      }
      forall s | s in instances ensures HistoryOk(s) {
        assert old(HistoryOk(s));
      }
      HistoriesOnly();
    }

    // A run of rattleOn without events ends in or below the state first gone to.
    lemma {:induction false} EndsBelow(v: seq<StateInstance>, from: nat, i: nat)
      requires Descends(v, from) && from <= i < |v|
      requires forall j {:trigger v[j]} :: 0 <= j < |v| ==> v[j].Rooted()
      ensures v[i].IsChild(v[from]) && v[from].depth + (i - from) <= v[i].depth
      decreases i
    {
      if i > from {
        EndsBelow(v, from, i - 1);
        Transitive(v[from], v[i - 1], v[i]);
        DeeperBelow(v[i - 1], v[i]);
      }
    }

    // Over any run, entries and exits nest, and the states entered but not left are those
    // from Top to the current state.
    lemma Nested()
      requires Valid()
      ensures Replay(instances[0], trace) == Some(current.Chain())
      ensures forall s {:trigger s in instances} :: s in instances && s.parent != null ==>
        multiset(trace)[Action.Entry(s)] == multiset(trace)[Action.Exit(s)] + if current.IsChild(s) then 1 else 0
    {
      forall i | 0 <= i < |visited| ensures visited[i].Root() == instances[0] {
        assert InTree(visited[i]);
      }
      ReplayJourney(instances[0], visited);
      forall s | s in instances && s.parent != null
        ensures multiset(trace)[Action.Entry(s)] == multiset(trace)[Action.Exit(s)] + if current.IsChild(s) then 1 else 0
      {
        assert InTree(s);
        Balanced(instances[0], trace, s);
        ChainHas(current, s);
      }
    }
  }

  // ---------- what a trace means ----------

  // The effect of an action on the stack of active states: a state is entered inside its
  // parent, when it is not active, and only the innermost active state is left.
  ghost function Act(root: StateInstance, active: seq<StateInstance>, a: Action): Option<seq<StateInstance>> {
    match a
    case Entry(s) =>
      if s !in active && s.parent == (if active == [] then root else active[|active| - 1]) then Some(active + [s]) else None
    case Exit(s) =>
      if active != [] && active[|active| - 1] == s then Some(active[..|active| - 1]) else None
  }

  ghost function Replay(root: StateInstance, t: seq<Action>): Option<seq<StateInstance>> {
    if t == [] then Some([])
    else
      var before := Replay(root, t[..|t| - 1]);
      if before.None? then None else Act(root, before.value, t[|t| - 1])
  }

  lemma ReplayOne(root: StateInstance, t: seq<Action>, a: Action)
    ensures Replay(root, t + [a]) ==
      if Replay(root, t).None? then None else Act(root, Replay(root, t).value, a)
  {
    assert (t + [a])[..|t|] == t;
  }

  lemma {:induction false} ReplayExits(root: StateInstance, t: seq<Action>, path: seq<StateInstance>, k: nat, n: nat)
    requires k <= n <= |path| && Replay(root, t) == Some(path[..n])
    ensures Replay(root, t + Exits(path, k, n)) == Some(path[..k])
    decreases n
  {
    if k == n {
      assert t + Exits(path, k, n) == t;
    } else {
      var e := [Action.Exit(path[n - 1])];
      ReplayOne(root, t, e[0]);
      assert path[..n][..n - 1] == path[..n - 1];
      ReplayExits(root, t + e, path, k, n - 1);
      Assoc(t, e, Exits(path, k, n - 1));
    }
  }

  lemma {:induction false} ReplayEntries(root: StateInstance, t: seq<Action>, path: seq<StateInstance>, k: nat, n: nat)
    requires k <= n <= |path| && Replay(root, t) == Some(path[..k])
    requires forall i {:trigger path[i]} :: 0 <= i < |path| ==> path[i].depth == i + 1
    requires forall i {:trigger path[i].parent} :: 0 <= i < |path| ==> path[i].parent == if i == 0 then root else path[i - 1]
    ensures Replay(root, t + Entries(path, k, n)) == Some(path[..n])
    decreases n
  {
    if k == n {
      assert t + Entries(path, k, n) == t;
    } else {
      var before := t + Entries(path, k, n - 1);
      ReplayEntries(root, t, path, k, n - 1);
      EntryReplayed(root, before, path, n);
      Assoc(t, Entries(path, k, n - 1), [Action.Entry(path[n - 1])]);
    }
  }

  lemma EntryReplayed(root: StateInstance, before: seq<Action>, path: seq<StateInstance>, n: nat)
    requires 0 < n <= |path| && Replay(root, before) == Some(path[..n - 1])
    requires forall i {:trigger path[i]} :: 0 <= i < |path| ==> path[i].depth == i + 1
    requires path[n - 1].parent == if n == 1 then root else path[n - 2]
    ensures Replay(root, before + [Action.Entry(path[n - 1])]) == Some(path[..n])
  {
    var s := path[n - 1];
    assert s !in path[..n - 1];
    ReplayOne(root, before, Action.Entry(s));
    assert path[..n] == path[..n - 1] + [s];
  }

  // A transition turns the chain of the one state into the chain of the other.
  lemma ReplayHop(root: StateInstance, t: seq<Action>, c: StateInstance, n: StateInstance)
    requires c.Rooted() && n.Rooted() && c.Root() == root == n.Root()
    requires Replay(root, t) == Some(c.Chain())
    ensures Replay(root, t + Hop(c, n)) == Some(n.Chain())
  {
    var k := Kept(c, n);
    KeptMeaning(c, n);
    assert c.Chain()[..c.depth] == c.Chain() && n.Chain()[..n.depth] == n.Chain();
    ReplayExits(root, t, c.Chain(), k, c.depth);
    forall i | 0 <= i < n.depth ensures n.Chain()[i].parent == if i == 0 then root else n.Chain()[i - 1] {
      ChainAt(n, i);
      if i == 0 {
        FirstBelowRoot(n.Chain()[0]);
      }
    }
    ReplayEntries(root, t + Exits(c.Chain(), k, c.depth), n.Chain(), k, n.depth);
    Assoc(t, Exits(c.Chain(), k, c.depth), Entries(n.Chain(), k, n.depth));
  }

  lemma FirstBelowRoot(s: StateInstance)
    requires s.Rooted() && s.depth == 1
    ensures s.parent == s.Root()
  {
    assert s.parent.depth == 0;
  }

  // The trace of any run nests.
  lemma {:induction false} ReplayJourney(root: StateInstance, v: seq<StateInstance>)
    requires AllRooted(v) && v != [] && v[0] == root && root.parent == null
    requires forall i {:trigger v[i]} :: 0 <= i < |v| ==> v[i].Root() == root
    ensures Replay(root, Journey(v)) == Some(v[|v| - 1].Chain())
    decreases |v|
  {
    if |v| > 1 {
      var front, c, n := v[..|v| - 1], v[|v| - 2], v[|v| - 1];
      assert front[|front| - 1] == c && Journey(v) == Journey(front) + Hop(c, n);
      ReplayJourney(root, front);
      ReplayHop(root, Journey(front), c, n);
    }
  }

  // A trace that nests enters each state as often as it leaves it, and once more if it is active.
  lemma {:induction false} Balanced(root: StateInstance, t: seq<Action>, s: StateInstance)
    requires Replay(root, t).Some?
    ensures multiset(t)[Action.Entry(s)] == multiset(t)[Action.Exit(s)] + if s in Replay(root, t).value then 1 else 0
    ensures forall i, j :: 0 <= i < j < |Replay(root, t).value| ==> Replay(root, t).value[i] != Replay(root, t).value[j]
    decreases |t|
  {
    if t != [] {
      var front, a := t[..|t| - 1], t[|t| - 1];
      Balanced(root, front, s);
      assert t == front + [a];
      ActBalanced(root, Replay(root, front).value, a, s);
    }
  }

  // One action more.
  lemma ActBalanced(root: StateInstance, active: seq<StateInstance>, a: Action, s: StateInstance)
    requires forall i, j :: 0 <= i < j < |active| ==> active[i] != active[j]
    requires Act(root, active, a).Some?
    ensures var after := Act(root, active, a).value;
      && (forall i, j :: 0 <= i < j < |after| ==> after[i] != after[j])
      && (s in after <==> if a == Action.Entry(s) then true else if a == Action.Exit(s) then false else s in active)
      && (a == Action.Entry(s) ==> s !in active) && (a == Action.Exit(s) ==> s in active)
  {
    if a.Exit? {
      assert active == active[..|active| - 1] + [a.state];
    }
  }

  // So at every moment of a run, too.
  lemma {:induction false} ReplayPrefix(root: StateInstance, t: seq<Action>, i: nat)
    requires Replay(root, t).Some? && i <= |t|
    ensures Replay(root, t[..i]).Some?
    decreases |t|
  {
    if i < |t| {
      ReplayPrefix(root, t[..|t| - 1], i);
      assert t[..|t| - 1][..i] == t[..i];
    } else {
      assert t[..i] == t;
    }
  }
}
