/** The fan-in of a set of buffers in a netlist graph (dbd/tt_graph.py): which buffers
    feed, directly or through other cores, the cores that the given buffers are on. */
module FanIn {
  import opened Basics

  type Id = int

  type Core = (int, int)

  /** The core coordinates that stand for DRAM. */
  const DRAM: Core := (255, 255)

  datatype Buffer = Buffer(id: Id, core: Core)

  datatype Pipe = Pipe(inputs: seq<Id>, outputs: seq<Id>)

  /** The buffers and pipes of an epoch, in the order the code walks over them. */
  datatype Net = Net(buffers: seq<Buffer>, pipes: seq<Pipe>) {

    ghost function CoresOf(ids: set<Id>): set<Core> {
      set b | b in buffers && b.id in ids :: b.core
    }

    ghost function OnCores(cores: set<Core>): set<Id> {
      set b | b in buffers && b.core in cores :: b.id
    }

    ghost function Feeding(ids: set<Id>): set<Id> {
      set p, i | p in pipes && i in p.inputs && SetOf(p.outputs) * ids != {} :: i
    }

    ghost function FedBy(ids: set<Id>): set<Id> {
      set p, i | p in pipes && i in p.outputs && SetOf(p.inputs) * ids != {} :: i
    }

    /** One step: the inputs of every pipe into a core (other than DRAM) of the buffers. */
    ghost function Direct(ids: set<Id>): set<Id> {
      Feeding(OnCores(CoresOf(ids) - {DRAM}))
    }

    /** Everything that some pipe reads from. */
    ghost function Sources(): set<Id> {
      set p, i | p in pipes && i in p.inputs :: i
    }

    /** The set enlarged k times by one step. */
    ghost function Grow(ids: set<Id>, k: nat): set<Id>
      decreases k
    {
      if k == 0 then ids else Grow(ids + Direct(ids), k - 1)
    }

    /** The buffers reached from the given ones in one to n steps. */
    ghost function Within(ids: set<Id>, n: nat): set<Id> {
      if n == 0 then {} else Grow(Direct(ids), n - 1)
    }
  }

  /** b feeds a core that one of the buffers is on: some buffer x of ids is on a core other
      than (255, 255), some buffer y is on the same core, and some pipe reads b and writes y. */
  ghost predicate OneStep(net: Net, ids: set<Id>, b: Id) {
    exists x, y, p :: x in net.buffers && y in net.buffers && p in net.pipes
      && x.id in ids && x.core != (255, 255) && y.core == x.core && y.id in p.outputs && b in p.inputs
  }

  lemma InCoresOf(net: Net, ids: set<Id>, c: Core)
    ensures c in net.CoresOf(ids) <==> exists x :: x in net.buffers && x.id in ids && x.core == c
  {}

  lemma InOnCores(net: Net, cores: set<Core>, i: Id)
    ensures i in net.OnCores(cores) <==> exists y :: y in net.buffers && y.core in cores && y.id == i
  {}

  lemma InFeeding(net: Net, ids: set<Id>, i: Id)
    ensures i in net.Feeding(ids) <==> exists p :: p in net.pipes && i in p.inputs && exists k :: k in ids && k in p.outputs
  {
    hide SetOf;
    forall p | p in net.pipes
      ensures SetOf(p.outputs) * ids != {} <==> exists k :: k in ids && k in p.outputs
    {
      Meets(p.outputs, ids);
    }
  }

  lemma InFedBy(net: Net, ids: set<Id>, i: Id)
    ensures i in net.FedBy(ids) <==> exists p :: p in net.pipes && i in p.outputs && exists k :: k in ids && k in p.inputs
  {
    hide SetOf;
    forall p | p in net.pipes
      ensures SetOf(p.inputs) * ids != {} <==> exists k :: k in ids && k in p.inputs
    {
      Meets(p.inputs, ids);
    }
  }

  lemma Meets(end: seq<Id>, ids: set<Id>)
    ensures SetOf(end) * ids != {} <==> exists k :: k in ids && k in end
  {
    if k :| k in ids && k in end {
      assert k in SetOf(end) * ids;
    }
    if forall k :: k in ids ==> k !in end {
      assert SetOf(end) * ids == {};
    }
  }

  /** The sets that the code computes hold exactly what is one step away. */
  lemma DirectMeans(net: Net, ids: set<Id>, b: Id)
    ensures b in net.Direct(ids) <==>
      exists x, y, p :: x in net.buffers && y in net.buffers && p in net.pipes
        && x.id in ids && x.core != (255, 255) && y.core == x.core && y.id in p.outputs && b in p.inputs
  {
    if b in net.Direct(ids) {
      StepOfDirect(net, ids, b);
    }
    if x, y, p :|
      x in net.buffers && y in net.buffers && p in net.pipes
      && x.id in ids && x.core != (255, 255) && y.core == x.core && y.id in p.outputs && b in p.inputs
    {
      DirectOfStep(net, ids, b, x, y, p);
    }
  }

  lemma StepOfDirect(net: Net, ids: set<Id>, b: Id)
    requires b in net.Direct(ids)
    ensures exists x, y, p ::
      x in net.buffers && y in net.buffers && p in net.pipes
      && x.id in ids && x.core != (255, 255) && y.core == x.core && y.id in p.outputs && b in p.inputs
  {
    var cores := net.CoresOf(ids) - {DRAM};
    var onCores := net.OnCores(cores);
    hide Net.CoresOf, Net.OnCores, Net.Feeding;
    InFeeding(net, onCores, b);
    var p :| p in net.pipes && b in p.inputs && exists k :: k in onCores && k in p.outputs;
    var k :| k in onCores && k in p.outputs;
    InOnCores(net, cores, k);
    var y :| y in net.buffers && y.core in cores && y.id == k;
    InCoresOf(net, ids, y.core);
    var x :| x in net.buffers && x.id in ids && x.core == y.core;
  }

  lemma DirectOfStep(net: Net, ids: set<Id>, b: Id, x: Buffer, y: Buffer, p: Pipe)
    requires x in net.buffers && y in net.buffers && p in net.pipes
    requires x.id in ids && x.core != (255, 255) && y.core == x.core && y.id in p.outputs && b in p.inputs
    ensures b in net.Direct(ids)
  {
    var cores := net.CoresOf(ids) - {DRAM};
    hide Net.CoresOf, Net.OnCores, Net.Feeding;
    InCoresOf(net, ids, x.core);
    InOnCores(net, cores, y.id);
    InFeeding(net, net.OnCores(cores), b);
  }

  lemma DirectIsOneStep(net: Net, ids: set<Id>, b: Id)
    ensures b in net.Direct(ids) <==> OneStep(net, ids, b)
  {
    DirectMeans(net, ids, b);
    hide Net.Direct;
  }

  /** From buffers that are all in DRAM one step finds nothing. */
  lemma DramIsNotExpanded(net: Net, ids: set<Id>)
    requires forall x :: x in net.buffers && x.id in ids ==> x.core == (255, 255)
    ensures net.Direct(ids) == {}
  {
    forall b
      ensures b !in net.Direct(ids)
    {
      DirectMeans(net, ids, b);
    }
  }

  lemma DirectIsAdditive(net: Net, a: set<Id>, b: set<Id>)
    ensures net.Direct(a + b) == net.Direct(a) + net.Direct(b)
    ensures net.Direct({}) == {}
  {
    assert net.CoresOf(a + b) - {DRAM} == (net.CoresOf(a) - {DRAM}) + (net.CoresOf(b) - {DRAM});
    OnCoresIsAdditive(net, net.CoresOf(a) - {DRAM}, net.CoresOf(b) - {DRAM});
    FeedingIsAdditive(net, net.OnCores(net.CoresOf(a) - {DRAM}), net.OnCores(net.CoresOf(b) - {DRAM}));
    assert net.CoresOf({}) == {};
    assert net.OnCores({}) == {};
    assert net.CoresOf({}) - {DRAM} == {};
    assert net.Feeding({}) == {};
  }

  lemma OnCoresIsAdditive(net: Net, a: set<Core>, b: set<Core>)
    ensures net.OnCores(a + b) == net.OnCores(a) + net.OnCores(b)
  {}

  lemma FeedingIsAdditive(net: Net, a: set<Id>, b: set<Id>)
    ensures net.Feeding(a + b) == net.Feeding(a) + net.Feeding(b)
  {
    forall p | p in net.pipes
      ensures SetOf(p.outputs) * (a + b) != {} <==> SetOf(p.outputs) * a != {} || SetOf(p.outputs) * b != {}
    {
      assert SetOf(p.outputs) * (a + b) == SetOf(p.outputs) * a + SetOf(p.outputs) * b;
    }
  }

  // ----- growing sets

  lemma {:induction false} GrowClosed(net: Net, ids: set<Id>, k: nat)
    requires net.Direct(ids) <= ids
    ensures net.Grow(ids, k) == ids
  {
    if k > 0 {
      assert ids + net.Direct(ids) == ids;
      GrowClosed(net, ids, k - 1);
    }
  }

  lemma {:induction false} GrowStep(net: Net, ids: set<Id>, k: nat)
    ensures net.Grow(ids, k + 1) == net.Grow(ids, k) + net.Direct(net.Grow(ids, k))
    ensures ids <= net.Grow(ids, k)
    decreases k
  {
    if k > 0 {
      GrowStep(net, ids + net.Direct(ids), k - 1);
    }
  }

  lemma {:induction false} GrowMonotone(net: Net, ids: set<Id>, k: nat, l: nat)
    requires k <= l
    ensures net.Grow(ids, k) <= net.Grow(ids, l)
  {
    if k < l {
      GrowMonotone(net, ids, k, l - 1);
      GrowStep(net, ids, l - 1);
    }
  }

  /** The heart of the recursion: when all visited buffers but the newly found ones have
      been expanded, expanding only the new ones grows the visited set by a full step. */
  lemma ExpandOnlyNew(net: Net, fresh': set<Id>, visited: set<Id>)
    requires fresh' <= visited && net.Direct(visited - fresh') <= visited
    ensures visited + net.Direct(fresh') == visited + net.Direct(visited)
    ensures net.Direct((visited + net.Direct(fresh')) - (net.Direct(fresh') - visited)) <= visited + net.Direct(fresh')
  {
    DirectIsAdditive(net, visited - fresh', fresh');
    assert (visited - fresh') + fresh' == visited;
    assert (visited + net.Direct(fresh')) - (net.Direct(fresh') - visited) == visited;
  }

  // ----- paths

  /** p is a chain of single steps that starts with a direct fan-in of ids. */
  ghost predicate IsPath(net: Net, ids: set<Id>, p: seq<Id>) {
    && |p| >= 1 && OneStep(net, ids, p[0])
    && forall i :: 0 <= i < |p| - 1 ==> OneStep(net, {p[i]}, p[i + 1])
  }

  lemma PathInSets(net: Net, ids: set<Id>, p: seq<Id>)
    ensures IsPath(net, ids, p) <==>
      |p| >= 1 && p[0] in net.Direct(ids) && forall i :: 0 <= i < |p| - 1 ==> p[i + 1] in net.Direct({p[i]})
  {
    hide OneStep, Net.Direct;
    if |p| >= 1 {
      DirectIsOneStep(net, ids, p[0]);
      forall i | 0 <= i < |p| - 1
        ensures OneStep(net, {p[i]}, p[i + 1]) <==> p[i + 1] in net.Direct({p[i]})
      {
        DirectIsOneStep(net, {p[i]}, p[i + 1]);
      }
    }
  }

  /** A chain never passes through a buffer that is in DRAM only: it may end in one. */
  lemma ChainsAvoidDram(net: Net, ids: set<Id>, p: seq<Id>, i: nat)
    requires IsPath(net, ids, p) && i < |p| - 1
    ensures exists x :: x in net.buffers && x.id == p[i] && x.core != (255, 255)
  {
    assert OneStep(net, {p[i]}, p[i + 1]);
    var x, y, q :| x in net.buffers && y in net.buffers && q in net.pipes
      && x.id in {p[i]} && x.core != (255, 255) && y.core == x.core && y.id in q.outputs && p[i + 1] in q.inputs;
  }

  ghost predicate Reachable(net: Net, ids: set<Id>, b: Id) {
    exists p :: IsPath(net, ids, p) && p[|p| - 1] == b
  }

  lemma {:induction false} DirectOfMembers(net: Net, ids: set<Id>, b: Id)
    requires b in net.Direct(ids)
    ensures exists a :: a in ids && b in net.Direct({a})
    decreases |ids|
  {
    if ids == {} {
      DirectIsAdditive(net, {}, {});
    } else {
      var a :| a in ids;
      var rest := ids - {a};
      assert ids == {a} + rest;
      DirectIsAdditive(net, {a}, rest);
      if b !in net.Direct({a}) {
        DirectOfMembers(net, rest, b);
      }
    }
  }

  lemma {:induction false} PathStaysWithin(net: Net, ids: set<Id>, p: seq<Id>)
    requires IsPath(net, ids, p)
    ensures p[|p| - 1] in net.Within(ids, |p|)
    decreases |p|
  {
    var n := |p| - 1;
    PathInSets(net, ids, p);
    hide IsPath;
    if n > 0 {
      PathInSets(net, ids, p[..n]);
      PathStaysWithin(net, ids, p[..n]);
      GrowStep(net, net.Direct(ids), n - 1);
      var reached := net.Within(ids, n);
      assert reached == {p[n - 1]} + reached;
      DirectIsAdditive(net, {p[n - 1]}, reached);
    }
  }

  lemma {:induction false} WithinHasPath(net: Net, ids: set<Id>, n: nat, b: Id) returns (p: seq<Id>)
    requires b in net.Within(ids, n)
    ensures IsPath(net, ids, p) && |p| <= n && p[|p| - 1] == b
    decreases n
  {
    hide OneStep;
    if n == 1 || b in net.Within(ids, n - 1) {
      if n == 1 {
        p := [b];
        DirectIsOneStep(net, ids, b);
      } else {
        p := WithinHasPath(net, ids, n - 1, b);
      }
    } else {
      GrowStep(net, net.Direct(ids), n - 2);
      hide Net.Grow, Net.Direct, IsPath;
      var reached := net.Within(ids, n - 1);
      DirectOfMembers(net, reached, b);
      var a :| a in reached && b in net.Direct({a});
      p := WithinHasPath(net, ids, n - 1, a);
      PathExtends(net, ids, p, b);
      p := p + [b];
    }
  }

  lemma PathExtends(net: Net, ids: set<Id>, p: seq<Id>, b: Id)
    requires IsPath(net, ids, p) && b in net.Direct({p[|p| - 1]})
    ensures IsPath(net, ids, p + [b])
  {
    DirectIsOneStep(net, {p[|p| - 1]}, b);
    hide Net.Direct, OneStep;
  }

  lemma DirectIsSource(net: Net, ids: set<Id>)
    ensures net.Direct(ids) <= net.Sources()
  {}

  lemma {:induction false} GrowIsSource(net: Net, ids: set<Id>, k: nat)
    requires ids <= net.Sources()
    ensures net.Grow(ids, k) <= net.Sources()
    decreases k
  {
    if k > 0 {
      DirectIsSource(net, ids);
      GrowIsSource(net, ids + net.Direct(ids), k - 1);
    }
  }

  /** As long as the set is not closed it gains a member with every step. */
  lemma {:induction false} GrowsOrCloses(net: Net, ids: set<Id>, k: nat)
    ensures net.Direct(net.Grow(ids, k)) <= net.Grow(ids, k) || |net.Grow(ids, k)| >= |ids| + k
    decreases k
  {
    hide Net.Direct;
    if k > 0 {
      GrowsOrCloses(net, ids, k - 1);
      var g, g' := net.Grow(ids, k - 1), net.Grow(ids, k);
      GrowStep(net, ids, k - 1);
      if net.Direct(g) <= g {
        assert g' == g;
      } else {
        SubsetSize(g, g');
        assert g != g';
      }
    }
  }

  /** Within n steps finds every reachable buffer exactly when its result is closed, and
      it is closed as soon as n exceeds the number of buffers that pipes read from. */
  lemma WithinIsReachability(net: Net, ids: set<Id>, n: nat)
    ensures forall b :: b in net.Within(ids, n) ==> Reachable(net, ids, b)
    ensures 1 <= n ==>
      ((forall b :: Reachable(net, ids, b) ==> b in net.Within(ids, n)) <==> net.Direct(net.Within(ids, n)) <= net.Within(ids, n))
    ensures n > |net.Sources()| ==> net.Direct(net.Within(ids, n)) <= net.Within(ids, n)
  {
    hide Net.Direct, Net.Within, Net.Sources;
    forall b | b in net.Within(ids, n)
      ensures Reachable(net, ids, b)
    {
      var p := WithinHasPath(net, ids, n, b);
    }
    if 1 <= n {
      ClosedMeansAll(net, ids, n);
      AllMeansClosed(net, ids, n);
    }
    if n > |net.Sources()| {
      LongEnoughCloses(net, ids, n);
    }
  }

  lemma LongEnoughCloses(net: Net, ids: set<Id>, n: nat)
    requires n > |net.Sources()|
    ensures net.Direct(net.Within(ids, n)) <= net.Within(ids, n)
  {
    var d := net.Direct(ids);
    hide Net.Direct, Net.Sources, Net.Grow;
    DirectIsSource(net, ids);
    GrowIsSource(net, d, n - 1);
    GrowsOrCloses(net, d, n - 1);
    SubsetSize(net.Grow(d, n - 1), net.Sources());
    if d == {} {
      DirectIsAdditive(net, {}, {});
      GrowClosed(net, d, n - 1);
    }
  }

  lemma ClosedMeansAll(net: Net, ids: set<Id>, n: nat)
    requires 1 <= n
    ensures net.Direct(net.Within(ids, n)) <= net.Within(ids, n) ==>
      forall b :: Reachable(net, ids, b) ==> b in net.Within(ids, n)
  {
    hide OneStep, Net.Direct;
    if net.Direct(net.Within(ids, n)) <= net.Within(ids, n) {
      forall b | Reachable(net, ids, b)
        ensures b in net.Within(ids, n)
      {
        var p :| IsPath(net, ids, p) && p[|p| - 1] == b;
        PathStaysWithin(net, ids, p);
        var d := net.Direct(ids);
        if |p| <= n {
          GrowMonotone(net, d, |p| - 1, n - 1);
        } else {
          GrowAgain(net, d, n - 1, |p| - n);
          GrowClosed(net, net.Grow(d, n - 1), |p| - n);
        }
      }
    }
  }

  lemma {:induction false} GrowAgain(net: Net, ids: set<Id>, k: nat, l: nat)
    ensures net.Grow(net.Grow(ids, k), l) == net.Grow(ids, k + l)
    decreases k
  {
    if k > 0 {
      GrowAgain(net, ids + net.Direct(ids), k - 1, l);
    }
  }

  lemma AllMeansClosed(net: Net, ids: set<Id>, n: nat)
    requires 1 <= n
    ensures (forall b :: Reachable(net, ids, b) ==> b in net.Within(ids, n)) ==>
      net.Direct(net.Within(ids, n)) <= net.Within(ids, n)
  {
    hide OneStep, Net.Direct;
    if forall b :: Reachable(net, ids, b) ==> b in net.Within(ids, n) {
      forall b | b in net.Direct(net.Within(ids, n))
        ensures b in net.Within(ids, n)
      {
        DirectOfMembers(net, net.Within(ids, n), b);
        var a :| a in net.Within(ids, n) && b in net.Direct({a});
        var q := WithinHasPath(net, ids, n, a);
        PathExtends(net, ids, q, b);
        assert (q + [b])[|q|] == b;
        assert Reachable(net, ids, b);
      }
    }
  }

  // ----- the methods of Graph

  /** How many levels fan_in_buffer_set still expands when the counter stands at depth. */
  function LevelsLeft(depth: nat): nat {
    if depth > 400 then 0 else 401 - depth
  }

  lemma SetOfAppend<T>(l: seq<T>, x: T)
    ensures SetOf(l + [x]) == SetOf(l) + {x}
  {}

  lemma UnionEmpty<T>(a: set<T>, b: set<T>)
    ensures a + b == {} <==> a == {} && b == {}
  {
    if a + b == {} {
      assert forall x :: x in a || x in b ==> x in a + b;
    }
  }

  /** list(set(...)) */
  method ListOf<T(==)>(s: set<T>) returns (l: seq<T>)
    ensures SetOf(l) == s
  {
    l := [];
    var rest := s;
    while rest != {}
      invariant rest <= s && SetOf(l) == s - rest
      decreases rest
    {
      var x :| x in rest;
      rest := rest - {x};
      SetOfAppend(l, x);
      l := l + [x];
    }
  }

  class Graph {
    const buffers: seq<Buffer>
    const pipes: seq<Pipe>
    var recursionDepth: nat

    ghost function View(): Net { Net(buffers, pipes) }

    constructor (buffers: seq<Buffer>, pipes: seq<Pipe>)
      ensures this.buffers == buffers && this.pipes == pipes && recursionDepth == 0
    {
      this.buffers, this.pipes, recursionDepth := buffers, pipes, 0;
    }

    /** The buffers at the other end of the pipes that touch the given ones. */
    method GetConnectedBuffers(ids: seq<Id>, lookForDest: bool, lookForSrc: bool) returns (connected: seq<Id>)
      requires lookForDest || lookForSrc
      ensures SetOf(connected) ==
        (if lookForDest then View().FedBy(SetOf(ids)) else {}) + (if lookForSrc then View().Feeding(SetOf(ids)) else {})
      ensures forall i :: i in connected <==>
        exists p :: p in pipes && (|| (lookForDest && i in p.outputs && exists k :: k in ids && k in p.inputs)
                                   || (lookForSrc && i in p.inputs && exists k :: k in ids && k in p.outputs))
    {
      var found: set<Id> := {};
      ghost var to := SetOf(ids);
      for k := 0 to |pipes|
        invariant forall x :: x in found <==>
          (lookForDest && x in Net(buffers, pipes[..k]).FedBy(to)) || (lookForSrc && x in Net(buffers, pipes[..k]).Feeding(to))
      {
        hide Net.FedBy, Net.Feeding, SetOf;
        var p := pipes[k];
        ghost var before := found;
        for j := 0 to |ids|
          invariant forall x :: x in found <==>
            (x in before || (lookForDest && Touches(p.inputs, ids[..j]) && x in p.outputs)
                         || (lookForSrc && Touches(p.outputs, ids[..j]) && x in p.inputs))
        {
          OneMore(p.inputs, ids, j);
          OneMore(p.outputs, ids, j);
          hide Touches;
          if lookForDest && ids[j] in p.inputs {
            found := found + set i | i in p.outputs;
          }
          if lookForSrc && ids[j] in p.outputs {
            found := found + set i | i in p.inputs;
          }
        }
        assert ids[..|ids|] == ids;
        OnePipeMore(buffers, pipes, k, ids);
      }
      assert pipes[..|pipes|] == pipes;
      ghost var fed, feeding := if lookForDest then View().FedBy(to) else {}, if lookForSrc then View().Feeding(to) else {};
      assert forall x :: x in found <==> x in fed || x in feeding;
      assert found == fed + feeding;
      connected := ListOf(found);
      forall i
        ensures i in connected <==>
          exists p :: p in pipes && (|| (lookForDest && i in p.outputs && exists k :: k in ids && k in p.inputs)
                                     || (lookForSrc && i in p.inputs && exists k :: k in ids && k in p.outputs))
      {
        assert i in connected <==> i in SetOf(connected);
        InFedBy(View(), to, i);
        InFeeding(View(), to, i);
        hide Net.FedBy, Net.Feeding;
      }
    }

    method GetBuffCoreCoordinates(ids: seq<Id>) returns (cores: seq<Core>)
      ensures SetOf(cores) == View().CoresOf(SetOf(ids))
      ensures forall c :: c in cores <==> exists b :: b in buffers && b.id in ids && b.core == c
    {
      var found: set<Core> := {};
      for k := 0 to |buffers|
        invariant found == Net(buffers[..k], pipes).CoresOf(SetOf(ids))
      {
        assert buffers[..k + 1] == buffers[..k] + [buffers[k]];
        if buffers[k].id in ids {
          found := found + {buffers[k].core};
        }
      }
      assert buffers[..|buffers|] == buffers;
      cores := ListOf(found);
      forall c
        ensures c in cores <==> exists b :: b in buffers && b.id in ids && b.core == c
      {
        assert c in cores <==> c in SetOf(cores);
        InCoresOf(View(), SetOf(ids), c);
      }
    }

    method GetCoreBuffers(cores: seq<Core>) returns (ids: seq<Id>)
      ensures SetOf(ids) == View().OnCores(SetOf(cores))
      ensures forall i :: i in ids <==> exists b :: b in buffers && b.core in cores && b.id == i
    {
      var found: set<Id> := {};
      for k := 0 to |buffers|
        invariant found == Net(buffers[..k], pipes).OnCores(SetOf(cores))
      {
        assert buffers[..k + 1] == buffers[..k] + [buffers[k]];
        if buffers[k].core in cores {
          found := found + {buffers[k].id};
        }
      }
      assert buffers[..|buffers|] == buffers;
      ids := ListOf(found);
      forall i
        ensures i in ids <==> exists b :: b in buffers && b.core in cores && b.id == i
      {
        assert i in ids <==> i in SetOf(ids);
        InOnCores(View(), SetOf(cores), i);
      }
    }

    /** The direct fan-ins of the buffers in the list, DRAM excluded. */
    method DirectFanIns(ids: seq<Id>) returns (found: set<Id>)
      ensures found == View().Direct(SetOf(ids))
      ensures (forall x :: x in buffers && x.id in ids ==> x.core == (255, 255)) ==> found == {}
    {
      var cores := GetBuffCoreCoordinates(ids);
      var expand := ListOf((set c | c in cores && c != DRAM));
      assert SetOf(expand) == View().CoresOf(SetOf(ids)) - {DRAM};
      var onCores := GetCoreBuffers(expand);
      var connected := GetConnectedBuffers(onCores, false, true);
      found := set i | i in connected;
      assert found == SetOf(connected);
      if forall x :: x in buffers && x.id in ids ==> x.core == (255, 255) {
        DramIsNotExpanded(View(), SetOf(ids));
      }
    }

    /** fan_in_buffer_set. Called from outside (nothing visited yet) it returns exactly
        the buffers within as many steps as the recursion counter allows; called on the
        newly found buffers it completes the visited set likewise. */
    method FanInBufferSet(ids: seq<Id>, visited: set<Id>) returns (r: set<Id>)
      modifies this`recursionDepth
      ensures visited == {} ==> r == View().Within(SetOf(ids), LevelsLeft(old(recursionDepth)))
      ensures SetOf(ids) <= visited && View().Direct(visited - SetOf(ids)) <= visited ==>
        visited + r == View().Grow(visited, LevelsLeft(old(recursionDepth)))
      decreases LevelsLeft(recursionDepth)
    {
      if recursionDepth > 400 {
        return {};
      }
      ghost var levels := LevelsLeft(recursionDepth);
      recursionDepth := recursionDepth + 1;
      if |ids| == 0 {
        NothingToExpand(View(), SetOf(ids), visited, levels);
        return {};
      }
      var direct := DirectFanIns(ids);
      var propagate := direct - visited;
      var visited' := visited + direct;
      var list := ListOf(propagate);
      LevelDone(View(), SetOf(ids), visited, levels);
      var deeper := FanInBufferSet(list, visited');
      r := visited' + deeper;
    }

    /** get_fanin_cores_rc: the cores, other than DRAM, of everything within 401 steps. */
    method GetFaninCores(cores: seq<Core>) returns (r: set<Core>)
      modifies this`recursionDepth
      ensures r == View().CoresOf(View().Within(View().OnCores(SetOf(cores)), 401)) - {(255, 255)}
    {
      var start := GetCoreBuffers(cores);
      recursionDepth := 0;
      var fanIn := FanInBufferSet(start, {});
      var list := ListOf(fanIn);
      var found := GetBuffCoreCoordinates(list);
      r := set c | c in found && c != DRAM;
    }
  }

  /** Some of the buffers is at this end of a pipe. */
  ghost predicate Touches(end: seq<Id>, ids: seq<Id>) {
    SetOf(end) * SetOf(ids) != {}
  }

  lemma OneMore(end: seq<Id>, ids: seq<Id>, j: nat)
    requires j < |ids|
    ensures Touches(end, ids[..j + 1]) <==> Touches(end, ids[..j]) || ids[j] in end
  {
    assert ids[..j + 1] == ids[..j] + [ids[j]];
    SetOfAppend(ids[..j], ids[j]);
    var a, b := SetOf(end) * SetOf(ids[..j]), SetOf(end) * {ids[j]};
    assert SetOf(end) * SetOf(ids[..j + 1]) == a + b;
    UnionEmpty(a, b);
    if ids[j] in end {
      assert ids[j] in b;
    }
  }

  lemma OnePipeMore(buffers: seq<Buffer>, pipes: seq<Pipe>, k: nat, ids: seq<Id>)
    requires k < |pipes|
    ensures forall i :: i in Net(buffers, pipes[..k + 1]).FedBy(SetOf(ids)) <==>
      i in Net(buffers, pipes[..k]).FedBy(SetOf(ids)) || (Touches(pipes[k].inputs, ids) && i in pipes[k].outputs)
    ensures forall i :: i in Net(buffers, pipes[..k + 1]).Feeding(SetOf(ids)) <==>
      i in Net(buffers, pipes[..k]).Feeding(SetOf(ids)) || (Touches(pipes[k].outputs, ids) && i in pipes[k].inputs)
  {
    var a, b, q, to := pipes[..k], pipes[..k + 1], pipes[k], SetOf(ids);
    assert b == a + [q];
    assert forall p :: p in b <==> p in a || p == q;
    var fed, fed' := Net(buffers, a).FedBy(to), Net(buffers, b).FedBy(to);
    var feeding, feeding' := Net(buffers, a).Feeding(to), Net(buffers, b).Feeding(to);
    forall i
      ensures i in fed' <==> i in fed || (SetOf(q.inputs) * to != {} && i in q.outputs)
      ensures i in feeding' <==> i in feeding || (SetOf(q.outputs) * to != {} && i in q.inputs)
    {
      PipesOf(buffers, a, to, i);
      PipesOf(buffers, b, to, i);
    }
  }

  lemma PipesOf(buffers: seq<Buffer>, pipes: seq<Pipe>, ids: set<Id>, i: Id)
    ensures i in Net(buffers, pipes).FedBy(ids) <==>
      exists p :: p in pipes && i in p.outputs && SetOf(p.inputs) * ids != {}
    ensures i in Net(buffers, pipes).Feeding(ids) <==>
      exists p :: p in pipes && i in p.inputs && SetOf(p.outputs) * ids != {}
  {}

  lemma NothingToExpand(net: Net, ids: set<Id>, visited: set<Id>, levels: nat)
    requires ids == {} && levels >= 1
    ensures net.Within(ids, levels) == {}
    ensures net.Direct(visited - ids) <= visited ==> net.Grow(visited, levels) == visited
  {
    DirectIsAdditive(net, {}, {});
    GrowClosed(net, {}, levels - 1);
    if net.Direct(visited - ids) <= visited {
      assert visited - ids == visited;
      GrowClosed(net, visited, levels);
    }
  }

  /** What one level of the recursion leaves to the next. */
  lemma LevelDone(net: Net, ids: set<Id>, visited: set<Id>, levels: nat)
    requires levels >= 1
    ensures var direct := net.Direct(ids); var visited' := visited + direct;
      && (visited == {} ==>
            direct - visited <= visited' && net.Direct(visited' - (direct - visited)) <= visited'
            && net.Within(ids, levels) == net.Grow(visited', levels - 1))
      && (ids <= visited && net.Direct(visited - ids) <= visited ==>
            direct - visited <= visited' && net.Direct(visited' - (direct - visited)) <= visited'
            && net.Grow(visited, levels) == net.Grow(visited', levels - 1))
  {
    var direct := net.Direct(ids);
    if visited == {} {
      DirectIsAdditive(net, {}, {});
      assert visited + direct == direct;
      assert (visited + direct) - (direct - visited) == {};
    }
    if ids <= visited && net.Direct(visited - ids) <= visited {
      ExpandOnlyNew(net, ids, visited);
    }
  }

  /** Reachable by a chain of at most n steps. */
  ghost predicate ReachableWithin(net: Net, ids: set<Id>, b: Id, n: nat) {
    exists p :: IsPath(net, ids, p) && |p| <= n && p[|p| - 1] == b
  }

  lemma WithinIsReachableWithin(net: Net, ids: set<Id>, b: Id, n: nat)
    ensures b in net.Within(ids, n) <==> ReachableWithin(net, ids, b, n)
  {
    hide OneStep, Net.Direct;
    if b in net.Within(ids, n) {
      var p := WithinHasPath(net, ids, n, b);
    }
    if ReachableWithin(net, ids, b, n) {
      var p :| IsPath(net, ids, p) && |p| <= n && p[|p| - 1] == b;
      PathStaysWithin(net, ids, p);
      GrowMonotone(net, net.Direct(ids), |p| - 1, n - 1);
    }
  }

  /** What a caller gets: exactly the buffers that feed the given ones in as many steps as
      there are levels left. These are all the buffers that feed them exactly when no
      buffer of the graph needs a longer chain, and certainly when the pipes read from
      fewer buffers than there are levels. */
  lemma FanInExactly(net: Net, ids: set<Id>, depth: nat)
    requires depth <= 400
    ensures var r := net.Within(ids, LevelsLeft(depth));
      && (forall b :: b in r <==> ReachableWithin(net, ids, b, LevelsLeft(depth)))
      && ((forall b :: Reachable(net, ids, b) ==> b in r) <==>
          (forall b :: Reachable(net, ids, b) ==> ReachableWithin(net, ids, b, LevelsLeft(depth))))
      && ((forall b :: Reachable(net, ids, b) ==> b in r) <==> net.Direct(r) <= r)
      && (|net.Sources()| < LevelsLeft(depth) ==> forall b :: Reachable(net, ids, b) <==> b in r)
  {
    WithinIsReachability(net, ids, LevelsLeft(depth));
    forall b
      ensures b in net.Within(ids, LevelsLeft(depth)) <==> ReachableWithin(net, ids, b, LevelsLeft(depth))
    {
      WithinIsReachableWithin(net, ids, b, LevelsLeft(depth));
    }
    hide Net.Within, Net.Direct, Net.Sources, Reachable, ReachableWithin;
  }

  // ----- a graph that is too deep

  /** Buffers 0 to n, each on a core of its own, and a pipe from each to the one before. */
  function Chain(n: nat): Net {
    Net(seq(n + 1, i => Buffer(i, (i, 0))), seq(n, i => Pipe([i + 1], [i])))
  }

  lemma ChainStep(n: nat, i: Id)
    ensures Chain(n).Direct({i}) == if 0 <= i < n then {i + 1} else {}
  {
    var net := Chain(n);
    ChainCore(n, i);
    if 0 <= i <= n {
      var cores := net.CoresOf({i}) - {DRAM};
      assert cores == {(i, 0)};
      assert net.OnCores(cores) == {i} by {
        assert net.buffers[i] in net.buffers;
      }
      ChainFeeding(n, i);
    } else {
      assert net.OnCores({}) == {} && net.Feeding({}) == {};
    }
  }

  lemma ChainCore(n: nat, i: Id)
    ensures Chain(n).CoresOf({i}) == if 0 <= i <= n then {(i, 0)} else {}
  {
    var net := Chain(n);
    if 0 <= i <= n {
      assert net.buffers[i] == Buffer(i, (i, 0)) && net.buffers[i] in net.buffers;
    }
  }

  lemma ByPipe(net: Net, ids: set<Id>, p: Pipe, i: Id)
    requires p in net.pipes && i in p.inputs && SetOf(p.outputs) * ids != {}
    ensures i in net.Feeding(ids)
  {}

  lemma ChainFeeding(n: nat, i: Id)
    requires 0 <= i <= n
    ensures Chain(n).Feeding({i}) == if i < n then {i + 1} else {}
  {
    var net := Chain(n);
    forall x | x in net.Feeding({i})
      ensures i < n && x == i + 1
    {
      var p :| p in net.pipes && x in p.inputs && SetOf(p.outputs) * {i} != {};
      var k :| 0 <= k < |net.pipes| && net.pipes[k] == p;
      assert SetOf(p.outputs) == {k};
    }
    if i < n {
      var p := net.pipes[i];
      assert p in net.pipes && p.inputs[0] == i + 1 && p.outputs[0] == i;
      assert i in SetOf(p.outputs) * {i};
      ByPipe(net, {i}, p, i + 1);
      assert i + 1 in net.Feeding({i});
    } else {
      assert forall x :: x !in net.Feeding({i});
    }
  }

  /** However many levels are left, there is a graph on which fan_in_buffer_set misses a
      buffer: the chain that is one buffer longer. */
  lemma DeepFanInIsMissed(depth: nat)
    requires depth <= 400
    ensures var n := LevelsLeft(depth);
      && Reachable(Chain(n + 1), {0}, n + 1)
      && n + 1 !in Chain(n + 1).Within({0}, n)
  {
    var n := LevelsLeft(depth);
    hide *;
    ChainReaches(n + 1);
    if n + 1 in Chain(n + 1).Within({0}, n) {
      var p := WithinHasPath(Chain(n + 1), {0}, n, n + 1);
      ChainPath(n + 1, p);
      assert false;
    }
  }

  lemma ChainReaches(n: nat)
    requires n >= 1
    ensures Reachable(Chain(n), {0}, n)
  {
    hide Chain, Net.Direct;
    var p := seq(n, i => i + 1);
    ChainStep(n, 0);
    forall k | 0 <= k < |p| - 1
      ensures p[k + 1] in Chain(n).Direct({p[k]})
    {
      ChainStep(n, p[k]);
    }
    PathInSets(Chain(n), {0}, p);
    assert IsPath(Chain(n), {0}, p) && p[|p| - 1] == n;
  }

  lemma {:induction false} ChainPath(n: nat, p: seq<Id>)
    requires IsPath(Chain(n), {0}, p)
    ensures p[|p| - 1] == |p|
    decreases |p|
  {
    hide Chain, Net.Direct, IsPath;
    var k := |p| - 1;
    PathInSets(Chain(n), {0}, p);
    if k == 0 {
      ChainStep(n, 0);
    } else {
      PathInSets(Chain(n), {0}, p[..k]);
      ChainPath(n, p[..k]);
      ChainStep(n, p[k - 1]);
    }
  }
}
