/** `Flowgraph.cpp`: nodes kept in an order in which producers run before consumers. */
module Flowgraphs {

  datatype Edge<P> = Edge(src: P, dst: P)

  // ----- The order of the nodes -----

  ghost predicate NoDuplicates<P(!new)>(nodes: seq<P>) {
    forall i, j | 0 <= i < j < |nodes| :: nodes[i] != nodes[j]
  }

  /** a stands before b. */
  ghost predicate Before<P(!new)>(nodes: seq<P>, a: P, b: P) {
    exists i, j :: 0 <= i < j < |nodes| && nodes[i] == a && nodes[j] == b
  }

  /** Every edge leads forward. */
  ghost predicate Ordered<P(!new)>(nodes: seq<P>, edges: seq<Edge<P>>) {
    NoDuplicates(nodes) && forall e | e in edges :: Before(nodes, e.src, e.dst)
  }

  /** The position of a plugin, the number of nodes if it has none. */
  function Find<P(==)>(nodes: seq<P>, p: P): (r: nat)
    ensures r <= |nodes| && (r < |nodes| ==> nodes[r] == p) && (p in nodes <==> r < |nodes|)
    ensures forall i | 0 <= i < r :: nodes[i] != p
  {
    if nodes == [] then 0 else if nodes[0] == p then 0 else 1 + Find(nodes[1..], p)
  }

  function WithInput<P(==)>(nodes: seq<P>, input: P): seq<P> {
    if input in nodes then nodes else nodes + [input]
  }

  /** connect takes the output node out of its place and puts it at the end. */
  predicate Moves<P(==)>(nodes: seq<P>, input: P, output: P) {
    output in nodes && Find(WithInput(nodes, input), input) > Find(nodes, output)
  }

  function WithoutAt<P>(nodes: seq<P>, i: nat): seq<P>
    requires i < |nodes|
  {
    nodes[..i] + nodes[i + 1..]
  }

  /** The nodes after connect. */
  function Connected<P(==)>(nodes: seq<P>, input: P, output: P): seq<P> {
    var a := WithInput(nodes, input);
    if output !in a then a + [output]
    else if Find(a, input) > Find(a, output) then WithoutAt(a, Find(a, output)) + [output]
    else a
  }

  /** In every case connect keeps all nodes, has both plugins, and no duplicates. */
  lemma ConnectedNodes<P(!new)>(nodes: seq<P>, input: P, output: P)
    requires NoDuplicates(nodes)
    ensures NoDuplicates(Connected(nodes, input, output))
    ensures forall p :: p in Connected(nodes, input, output) <==> p in nodes || p == input || p == output
  {
    var a := WithInput(nodes, input);
    assert NoDuplicates(a);
    assert forall p :: p in a <==> p in nodes || p == input;
    if output in a && Find(a, input) > Find(a, output) {
      var i := Find(a, output);
      MovedNodes(a, i);
    }
  }

  lemma MovedNodes<P(!new)>(a: seq<P>, i: nat)
    requires NoDuplicates(a) && i < |a|
    ensures NoDuplicates(WithoutAt(a, i) + [a[i]])
    ensures forall p :: p in WithoutAt(a, i) + [a[i]] <==> p in a
  {
    var b := WithoutAt(a, i) + [a[i]];
    forall p | p in a ensures p in b {
      var k :| 0 <= k < |a| && a[k] == p;
      assert b[if k < i then k else if k == i then |a| - 1 else k - 1] == p;
    }
  }

  /** Taking a node to the end keeps the order of all others. */
  lemma MovedOrder<P(!new)>(a: seq<P>, i: nat, x: P, y: P)
    requires NoDuplicates(a) && i < |a| && x != a[i]
    ensures Before(a, x, y) && y != a[i] ==> Before(WithoutAt(a, i) + [a[i]], x, y)
    ensures x in a ==> Before(WithoutAt(a, i) + [a[i]], x, a[i])
    ensures !Before(WithoutAt(a, i) + [a[i]], a[i], x)
  {
    var b := WithoutAt(a, i) + [a[i]];
    MovedNodes(a, i);
    if Before(a, x, y) && y != a[i] {
      var j, k :| 0 <= j < k < |a| && a[j] == x && a[k] == y;
      var j', k' := if j < i then j else j - 1, if k < i then k else k - 1;
      assert b[j'] == x && b[k'] == y && j' < k';
    }
    if x in a {
      var j :| 0 <= j < |a| && a[j] == x;
      var j' := if j < i then j else j - 1;
      assert b[j'] == x && b[|a| - 1] == a[i] && j' < |a| - 1;
    }
    assert b[|b| - 1] == a[i];
  }

  lemma BeforeGrows<P(!new)>(nodes: seq<P>, more: seq<P>, x: P, y: P)
    requires Before(nodes, x, y)
    ensures Before(nodes + more, x, y)
  {
    var i, j :| 0 <= i < j < |nodes| && nodes[i] == x && nodes[j] == y;
    assert (nodes + more)[i] == x && (nodes + more)[j] == y;
  }

  lemma NotBeforeItself<P(!new)>(nodes: seq<P>, p: P)
    requires NoDuplicates(nodes)
    ensures !Before(nodes, p, p)
  {
  }

  /** What a caller can look up before the call. */
  ghost predicate MayConnect<P(!new)>(nodes: seq<P>, edges: seq<Edge<P>>, input: P, output: P) {
    input != output && (Moves(nodes, input, output) ==> forall e | e in edges :: e.src != output)
  }

  lemma MayConnectSuffices<P(!new)>(nodes: seq<P>, edges: seq<Edge<P>>, input: P, output: P)
    requires Ordered(nodes, edges) && MayConnect(nodes, edges, input, output)
    ensures Ordered(Connected(nodes, input, output), edges + [Edge(input, output)])
  {
    var a, b := WithInput(nodes, input), Connected(nodes, input, output);
    ConnectedNodes(nodes, input, output);
    assert NoDuplicates(a);
    forall e | e in edges ensures Before(a, e.src, e.dst) {
      BeforeGrows(nodes, a[|nodes|..], e.src, e.dst);
      assert a == nodes + a[|nodes|..];
    }
    hide NoDuplicates;
    if output !in a {
      forall e | e in edges ensures Before(b, e.src, e.dst) {
        BeforeGrows(a, [output], e.src, e.dst);
      }
      assert b[Find(a, input)] == input && b[|a|] == output;
    } else if Find(a, input) > Find(a, output) {
      MovesMeans(nodes, input, output);
      forall e | e in edges ensures Before(b, e.src, e.dst) {
        MovedOrder(a, Find(a, output), e.src, e.dst);
      }
      MovedOrder(a, Find(a, output), input, output);
    } else {
      assert a[Find(a, input)] == input && a[Find(a, output)] == output;
    }
  }

  lemma MovesMeans<P(!new)>(nodes: seq<P>, input: P, output: P)
    ensures var a := WithInput(nodes, input);
            input != output && output in a && Find(a, input) > Find(a, output) ==> Moves(nodes, input, output)
  {
  }

  lemma MayConnectNecessary<P(!new)>(nodes: seq<P>, edges: seq<Edge<P>>, input: P, output: P)
    requires Ordered(nodes, edges)
    requires Ordered(Connected(nodes, input, output), edges + [Edge(input, output)])
    ensures MayConnect(nodes, edges, input, output)
  {
    var a, b := WithInput(nodes, input), Connected(nodes, input, output);
    var all := edges + [Edge(input, output)];
    assert all[|edges|] in all;
    NotBeforeItself(b, input);
    ConnectedNodes(nodes, input, output);
    assert NoDuplicates(a);
    if Moves(nodes, input, output) {
      forall e | e in edges ensures e.src != output {
        if e.src == output {
          assert e in all && Before(b, output, e.dst);
          NotBeforeItself(nodes, output);
          MovedOrder(a, Find(a, output), e.dst, output);
        }
      }
    }
  }

  /** connect keeps a forward order exactly when it joins two different plugins and does
      not move a node that already has outgoing edges. */
  lemma ConnectOrderIff<P(!new)>(nodes: seq<P>, edges: seq<Edge<P>>, input: P, output: P)
    requires Ordered(nodes, edges)
    ensures Ordered(Connected(nodes, input, output), edges + [Edge(input, output)])
       <==> MayConnect(nodes, edges, input, output)
  {
    hide Ordered, MayConnect;
    if MayConnect(nodes, edges, input, output) {
      MayConnectSuffices(nodes, edges, input, output);
    } else if Ordered(Connected(nodes, input, output), edges + [Edge(input, output)]) {
      MayConnectNecessary(nodes, edges, input, output);
    }
  }

  // ----- The values on the edges -----

  /** What a node makes of the values on its incoming edges, in order: a value for its j-th
      outgoing edge, and what it leaves on its j-th incoming one. */
  datatype Flow<!P, !V> = Flow(output: (P, seq<V>, nat) -> V, left: (P, seq<V>, nat) -> V)

  /** A plugin in one frame: what it makes of its input buffers and leaves in them (a pipelined
      codec takes the buffer away), its return value, and what it makes of the metadata. */
  datatype Behaviour<!P, !V, !M> = Behaviour(data: Flow<P, V>, code: (P, seq<V>) -> int, metadata: (P, seq<M>) -> seq<M>)

  function Flat<M>(lists: seq<seq<M>>): seq<M> {
    if lists == [] then [] else Flat(lists[..|lists| - 1]) + lists[|lists| - 1]
  }

  /** Metadata is moved out of the incoming lists; every outgoing one gets the same. */
  function MetadataFlow<P, V, M>(f: Behaviour<P, V, M>): Flow<P, seq<M>> {
    Flow((p, lists, j) => f.metadata(p, Flat(lists)), (p, lists, j) => [])
  }

  /** The input buffers of a node: those of its incoming edges in the order of connection. */
  function Inputs<P(==), V>(edges: seq<Edge<P>>, buffers: seq<V>, p: P): seq<V>
    requires |edges| == |buffers|
  {
    if edges == [] then []
    else
      var n := |edges| - 1;
      Inputs(edges[..n], buffers[..n], p) + if edges[n].dst == p then [buffers[n]] else []
  }

  /** The edges below k that lead to p: the number of its input buffer, when edge k does. */
  function InPort<P(==)>(edges: seq<Edge<P>>, k: nat, p: P): nat
    requires k <= |edges|
  {
    if k == 0 then 0 else InPort(edges, k - 1, p) + if edges[k - 1].dst == p then 1 else 0
  }

  /** The edges below k that leave p: the number of its output buffer, when edge k does. */
  function Port<P(==)>(edges: seq<Edge<P>>, k: nat, p: P): nat
    requires k <= |edges|
  {
    if k == 0 then 0 else Port(edges, k - 1, p) + if edges[k - 1].src == p then 1 else 0
  }

  lemma PortStart<P>(edges: seq<Edge<P>>, p: P)
    ensures Port(edges, 0, p) == 0 && InPort(edges, 0, p) == 0
  {
  }

  lemma PortNext<P>(edges: seq<Edge<P>>, k: nat, p: P)
    requires k < |edges|
    ensures Port(edges, k + 1, p) == Port(edges, k, p) + if edges[k].src == p then 1 else 0
    ensures InPort(edges, k + 1, p) == InPort(edges, k, p) + if edges[k].dst == p then 1 else 0
  {
  }

  /** The value of edge k after node p, without a loop at p, has run. */
  ghost function Written<P(!new), V>(f: Flow<P, V>, edges: seq<Edge<P>>, values: seq<V>, p: P, k: nat): V
    requires k < |edges| == |values|
  {
    if edges[k].src == p then f.output(p, Inputs(edges, values, p), Port(edges, k, p))
    else if edges[k].dst == p then f.left(p, Inputs(edges, values, p), InPort(edges, k, p))
    else values[k]
  }

  ghost predicate NodeRan<P(!new), V>(f: Flow<P, V>, edges: seq<Edge<P>>, a: seq<V>, b: seq<V>, p: P) {
    |edges| == |a| == |b| && forall k | 0 <= k < |edges| :: b[k] == Written(f, edges, a, p, k)
  }

  /** Edge k carries what its source makes of its own inputs. */
  ghost predicate Holds<P, V>(f: Flow<P, V>, edges: seq<Edge<P>>, made: seq<V>, k: nat)
    requires k < |edges| == |made|
  {
    var p := edges[k].src;
    made[k] == f.output(p, Inputs(edges, made, p), Port(edges, k, p))
  }

  /** What the first i nodes have made in this frame; the other edges are as before it. */
  ghost predicate Made<P, V>(f: Flow<P, V>, nodes: seq<P>, edges: seq<Edge<P>>, old_: seq<V>, made: seq<V>, i: nat)
    requires i <= |nodes|
  {
    && |edges| == |made| == |old_|
    && (forall k | 0 <= k < |edges| && edges[k].src in nodes[..i] :: Holds(f, edges, made, k))
    && (forall k | 0 <= k < |edges| && edges[k].src !in nodes[..i] :: made[k] == old_[k])
  }

  /** What is on the edges then: what was made, or what the reader left of it. */
  ghost predicate Remains<P, V>(f: Flow<P, V>, nodes: seq<P>, edges: seq<Edge<P>>, made: seq<V>, values: seq<V>, i: nat)
    requires i <= |nodes|
  {
    && |edges| == |made| == |values|
    && forall k | 0 <= k < |edges| ::
         values[k] == if edges[k].dst in nodes[..i]
                      then f.left(edges[k].dst, Inputs(edges, made, edges[k].dst), InPort(edges, k, edges[k].dst))
                      else made[k]
  }

  lemma {:induction false} InputsAgree<P, V>(edges: seq<Edge<P>>, a: seq<V>, b: seq<V>, p: P)
    requires |edges| == |a| == |b|
    requires forall k | 0 <= k < |edges| && edges[k].dst == p :: a[k] == b[k]
    ensures Inputs(edges, a, p) == Inputs(edges, b, p)
    decreases |edges|
  {
    if edges != [] {
      var n := |edges| - 1;
      InputsAgree(edges[..n], a[..n], b[..n], p);
    }
  }

  /** The edges into a node come from nodes before it. */
  lemma SourcesBefore<P(!new)>(nodes: seq<P>, edges: seq<Edge<P>>, j: nat, k: nat)
    requires Ordered(nodes, edges) && j < |nodes| && k < |edges| && edges[k].dst == nodes[j]
    ensures exists h :: 0 <= h < j && nodes[h] == edges[k].src
  {
    assert edges[k] in edges && Before(nodes, edges[k].src, edges[k].dst);
    var h, i :| 0 <= h < i < |nodes| && nodes[h] == edges[k].src && nodes[i] == edges[k].dst;
    assert i == j;
  }

  /** Nothing that node i writes is an input of node i or of a node before it. */
  lemma InputsUntouched<P(!new), V>(nodes: seq<P>, edges: seq<Edge<P>>, a: seq<V>, b: seq<V>, i: nat, j: nat)
    requires Ordered(nodes, edges) && j <= i < |nodes| && |a| == |b| == |edges|
    requires forall k | 0 <= k < |edges| && edges[k].src != nodes[i] :: a[k] == b[k]
    ensures Inputs(edges, a, nodes[j]) == Inputs(edges, b, nodes[j])
  {
    forall k | 0 <= k < |edges| && edges[k].dst == nodes[j] ensures a[k] == b[k] {
      SourcesBefore(nodes, edges, j, k);
    }
    InputsAgree(edges, a, b, nodes[j]);
  }

  class Flowgraph<P(==, !new), V, M> {
    var nodes: seq<P>
    var edges: seq<Edge<P>>
    var buffers: seq<V>
    var metadata: seq<seq<M>>
    const empty: V

    predicate Valid()
      reads this
    {
      |buffers| == |edges| == |metadata|
    }

    constructor (empty: V)
      ensures Valid() && nodes == [] && edges == [] && buffers == [] && Ordered(nodes, edges)
    {
      this.empty := empty;
      nodes, edges, buffers, metadata := [], [], [], [];
    }

    method FindNode(p: P) returns (i: nat)
      ensures i == Find(nodes, p)
    {
      i := 0;
      assert nodes[0..] == nodes;
      while i < |nodes|
        invariant i <= |nodes| && Find(nodes, p) == i + Find(nodes[i..], p)
      {
        assert nodes[i..][1..] == nodes[i + 1..];
        if nodes[i] == p {
          return;
        }
        i := i + 1;
      }
    }

    method Connect(input: P, output: P)
      requires Valid()
      modifies this
      ensures Valid() && nodes == Connected(old(nodes), input, output)
      ensures edges == old(edges) + [Edge(input, output)]
      ensures buffers == old(buffers) + [empty] && metadata == old(metadata) + [[]]
      ensures Ordered(old(nodes), old(edges)) ==>
                (Ordered(nodes, edges) <==> MayConnect(old(nodes), old(edges), input, output))
    {
      if Ordered(nodes, edges) {
        ConnectOrderIff(nodes, edges, input, output);
      }
      hide Ordered, MayConnect, Find;
      var inputNode := FindNode(input);
      if inputNode == |nodes| {
        nodes := nodes + [input];
        inputNode := FindNode(input);
      }
      var outputNode := FindNode(output);
      if outputNode == |nodes| {
        nodes := nodes + [output];
      } else if inputNode > outputNode {
        var node := nodes[outputNode];
        nodes := WithoutAt(nodes, outputNode);
        nodes := nodes + [node];
      }
      edges := edges + [Edge(input, output)];
      buffers, metadata := buffers + [empty], metadata + [[]];
    }

    /** Node::process: the plugin works on its buffers, and the metadata moves on. */
    method ProcessNode(f: Behaviour<P, V, M>, p: P) returns (code: int)
      requires |buffers| == |edges| == |metadata| && forall e | e in edges :: e.src != e.dst
      modifies `buffers, `metadata
      ensures |buffers| == |edges| == |metadata| && NodeRan(f.data, edges, old(buffers), buffers, p)
      ensures NodeRan(MetadataFlow(f), edges, old(metadata), metadata, p)
      ensures code == f.code(p, Inputs(edges, old(buffers), p))
    {
      hide Inputs, Port, InPort, Written;
      var inBuffers := CollectInputs(p);
      code := f.code(p, inBuffers);
      Process(f.data, p, inBuffers);
      MoveMetadata(f, p);
    }

    method CollectInputs(p: P) returns (inBuffers: seq<V>)
      requires |buffers| == |edges|
      ensures inBuffers == Inputs(edges, buffers, p)
    {
      inBuffers := [];
      for k := 0 to |edges|
        invariant inBuffers == Inputs(edges[..k], buffers[..k], p)
      {
        assert edges[..k + 1][..k] == edges[..k] && buffers[..k + 1][..k] == buffers[..k];
        if edges[k].dst == p {
          inBuffers := inBuffers + [buffers[k]];
        }
      }
      assert edges[..|edges|] == edges && buffers[..|edges|] == buffers;
    }

    /** The plugin's process: fills its output buffers and leaves something in its input buffers. */
    method Process(f: Flow<P, V>, p: P, inBuffers: seq<V>)
      requires |buffers| == |edges| && inBuffers == Inputs(edges, buffers, p)
      modifies `buffers
      ensures NodeRan(f, edges, old(buffers), buffers, p)
    {
      PortStart(edges, p);
      hide Inputs, Port, InPort;
      var inPort, outPort := 0, 0;
      for k := 0 to |edges|
        invariant |buffers| == |edges| && outPort == Port(edges, k, p) && inPort == InPort(edges, k, p)
        invariant forall j | 0 <= j < k :: buffers[j] == Written(f, edges, old(buffers), p, j)
        invariant forall j | k <= j < |edges| :: buffers[j] == old(buffers)[j]
      {
        PortNext(edges, k, p);
        if edges[k].src == p {
          buffers := buffers[k := f.output(p, inBuffers, outPort)];
          outPort := outPort + 1;
        } else if edges[k].dst == p {
          buffers := buffers[k := f.left(p, inBuffers, inPort)];
        }
        if edges[k].dst == p {
          inPort := inPort + 1;
        }
      }
    }

    /** All incoming metadata into one list, and that, or what the plugin makes of it, to all outputs. */
    method MoveMetadata(f: Behaviour<P, V, M>, p: P)
      requires Valid() && forall e | e in edges :: e.src != e.dst
      modifies `metadata
      ensures Valid() && NodeRan(MetadataFlow(f), edges, old(metadata), metadata, p)
    {
      var all := TakeMetadata(p);
      ghost var taken := metadata;
      var outMetadata := f.metadata(p, all);
      hide Inputs, Flat, Port, InPort;
      for k := 0 to |edges|
        invariant Valid()
        invariant forall j | 0 <= j < |edges| :: metadata[j] == if j < k && edges[j].src == p then outMetadata else taken[j]
      {
        if edges[k].src == p {
          metadata := metadata[k := outMetadata];
        }
      }
    }

    method TakeMetadata(p: P) returns (all: seq<M>)
      requires Valid()
      modifies `metadata
      ensures Valid() && all == Flat(Inputs(edges, old(metadata), p))
      ensures forall k | 0 <= k < |edges| :: metadata[k] == if edges[k].dst == p then [] else old(metadata)[k]
    {
      all := [];
      ghost var was := metadata;
      GatheredEnds(edges, was, p);
      hide Gathered, Inputs, Flat;
      for k := 0 to |edges|
        invariant Valid() && all == Gathered(edges, was, k, p)
        invariant forall j | 0 <= j < |edges| :: metadata[j] == if j < k && edges[j].dst == p then [] else was[j]
      {
        GatheredNext(edges, was, k, p);
        if edges[k].dst == p {
          all := all + metadata[k];
          metadata := metadata[k := []];
        }
      }
    }

    /** run: the run stops at the first node that returns 0. Each of the `count` nodes that ran was
        given exactly what its producers have made in this frame; `made` and `sent` are what all
        nodes made of buffers and metadata. */
    method Run(f: Behaviour<P, V, M>) returns (ok: bool, ghost count: nat, ghost made: seq<V>, ghost sent: seq<seq<M>>)
      requires |buffers| == |edges| == |metadata| && Ordered(nodes, edges)
      modifies `buffers, `metadata
      ensures |buffers| == |edges| == |metadata| && count <= |nodes| && (ok ==> count == |nodes|) && (!ok ==> count > 0)
      ensures Made(f.data, nodes, edges, old(buffers), made, count)
      ensures Remains(f.data, nodes, edges, made, buffers, count)
      ensures Made(MetadataFlow(f), nodes, edges, old(metadata), sent, count)
      ensures Remains(MetadataFlow(f), nodes, edges, sent, metadata, count)
      ensures forall j | 0 <= j < count :: f.code(nodes[j], Inputs(edges, made, nodes[j])) == 0 <==> !ok && j == count - 1
      ensures ok ==> forall k | 0 <= k < |edges| :: Holds(f.data, edges, made, k) && metadata[k] == []
    {
      hide *;
      made, sent, count := buffers, metadata, 0;
      NothingMade(f.data, nodes, edges, buffers);
      NothingMade(MetadataFlow(f), nodes, edges, metadata);
      NothingFailed(f, nodes, edges, made);
      for i := 0 to |nodes|
        invariant |buffers| == |edges| == |metadata| && |made| == |edges| && count == i
        invariant Made(f.data, nodes, edges, old(buffers), made, i) && Remains(f.data, nodes, edges, made, buffers, i)
        invariant Made(MetadataFlow(f), nodes, edges, old(metadata), sent, i)
        invariant Remains(MetadataFlow(f), nodes, edges, sent, metadata, i)
        invariant NoneFailed(f, nodes, edges, made, i)
      {
        ghost var wereBuffers, wereMetadata := buffers, metadata;
        NoLoops(nodes, edges);
        var code := ProcessNode(f, nodes[i]);
        ghost var was := made;
        made := NodeMakes(f.data, nodes, edges, old(buffers), made, wereBuffers, buffers, i);
        sent := NodeMakes(MetadataFlow(f), nodes, edges, old(metadata), sent, wereMetadata, metadata, i);
        CodesKept(f, nodes, edges, was, made, i);
        count := i + 1;
        if code == 0 {
          LastFailed(f, nodes, edges, made, i);
          return false, count, made, sent;
        }
        NodePassed(f, nodes, edges, made, i);
      }
      AllPassed(f, nodes, edges, made);
      AllMade(f.data, nodes, edges, old(buffers), made);
      AllTaken(f, nodes, edges, sent, metadata);
      ok := true;
    }
  }

  /** The incoming values of p on the first k edges, joined. */
  ghost function Gathered<P(!new), V>(edges: seq<Edge<P>>, values: seq<seq<V>>, k: nat, p: P): seq<V>
    requires k <= |edges| == |values|
  {
    Flat(Inputs(edges[..k], values[..k], p))
  }

  lemma GatheredEnds<P(!new), V>(edges: seq<Edge<P>>, values: seq<seq<V>>, p: P)
    requires |edges| == |values|
    ensures Gathered(edges, values, 0, p) == [] && Gathered(edges, values, |edges|, p) == Flat(Inputs(edges, values, p))
  {
    assert edges[..|edges|] == edges && values[..|edges|] == values;
  }

  lemma GatheredNext<P(!new), V>(edges: seq<Edge<P>>, values: seq<seq<V>>, k: nat, p: P)
    requires k < |edges| == |values|
    ensures Gathered(edges, values, k + 1, p) == Gathered(edges, values, k, p) + if edges[k].dst == p then values[k] else []
  {
    assert edges[..k + 1][..k] == edges[..k] && values[..k + 1][..k] == values[..k];
    var before := Inputs(edges[..k], values[..k], p);
    assert Inputs(edges[..k + 1], values[..k + 1], p) == if edges[k].dst == p then before + [values[k]] else before;
    if edges[k].dst == p {
      assert (before + [values[k]])[..|before|] == before;
    }
  }

  lemma NoLoops<P(!new)>(nodes: seq<P>, edges: seq<Edge<P>>)
    requires Ordered(nodes, edges)
    ensures forall e | e in edges :: e.src != e.dst
  {
    forall e | e in edges ensures e.src != e.dst {
      NotBeforeItself(nodes, e.src);
    }
  }

  lemma NothingMade<P, V>(f: Flow<P, V>, nodes: seq<P>, edges: seq<Edge<P>>, values: seq<V>)
    requires |edges| == |values|
    ensures Made(f, nodes, edges, values, values, 0) && Remains(f, nodes, edges, values, values, 0)
  {
  }

  ghost predicate NoneFailed<P, V, M>(f: Behaviour<P, V, M>, nodes: seq<P>, edges: seq<Edge<P>>, made: seq<V>, i: nat)
    requires |edges| == |made| && i <= |nodes|
  {
    forall j | 0 <= j < i :: f.code(nodes[j], Inputs(edges, made, nodes[j])) != 0
  }

  lemma NothingFailed<P, V, M>(f: Behaviour<P, V, M>, nodes: seq<P>, edges: seq<Edge<P>>, made: seq<V>)
    requires |edges| == |made|
    ensures NoneFailed(f, nodes, edges, made, 0)
  {
  }

  lemma CodesKept<P, V, M>(f: Behaviour<P, V, M>, nodes: seq<P>, edges: seq<Edge<P>>, a: seq<V>, b: seq<V>, i: nat)
    requires |edges| == |a| == |b| && i <= |nodes| && NoneFailed(f, nodes, edges, a, i)
    requires forall j | 0 <= j < i :: Inputs(edges, b, nodes[j]) == Inputs(edges, a, nodes[j])
    ensures NoneFailed(f, nodes, edges, b, i)
  {
    hide Inputs;
  }

  lemma NodePassed<P, V, M>(f: Behaviour<P, V, M>, nodes: seq<P>, edges: seq<Edge<P>>, made: seq<V>, i: nat)
    requires |edges| == |made| && i < |nodes| && NoneFailed(f, nodes, edges, made, i)
    requires f.code(nodes[i], Inputs(edges, made, nodes[i])) != 0
    ensures NoneFailed(f, nodes, edges, made, i + 1)
  {
    hide Inputs;
  }

  lemma LastFailed<P, V, M>(f: Behaviour<P, V, M>, nodes: seq<P>, edges: seq<Edge<P>>, made: seq<V>, i: nat)
    requires |edges| == |made| && i < |nodes| && NoneFailed(f, nodes, edges, made, i)
    requires f.code(nodes[i], Inputs(edges, made, nodes[i])) == 0
    ensures forall j | 0 <= j < i + 1 :: f.code(nodes[j], Inputs(edges, made, nodes[j])) == 0 <==> j == i
  {
    hide Inputs;
  }

  lemma AllPassed<P, V, M>(f: Behaviour<P, V, M>, nodes: seq<P>, edges: seq<Edge<P>>, made: seq<V>)
    requires |edges| == |made| && NoneFailed(f, nodes, edges, made, |nodes|)
    ensures forall j | 0 <= j < |nodes| :: f.code(nodes[j], Inputs(edges, made, nodes[j])) != 0
  {
    hide Inputs;
  }

  lemma AllMade<P(!new), V>(f: Flow<P, V>, nodes: seq<P>, edges: seq<Edge<P>>, old_: seq<V>, made: seq<V>)
    requires Ordered(nodes, edges) && Made(f, nodes, edges, old_, made, |nodes|)
    ensures forall k | 0 <= k < |edges| :: Holds(f, edges, made, k)
  {
    hide Inputs, Port, Holds;
    assert nodes[..|nodes|] == nodes;
    forall k | 0 <= k < |edges| ensures edges[k].src in nodes {
      assert edges[k] in edges && Before(nodes, edges[k].src, edges[k].dst);
    }
  }

  lemma AllTaken<P(!new), V, M>(f: Behaviour<P, V, M>, nodes: seq<P>, edges: seq<Edge<P>>, sent: seq<seq<M>>, metadata: seq<seq<M>>)
    requires Ordered(nodes, edges) && Remains(MetadataFlow(f), nodes, edges, sent, metadata, |nodes|)
    ensures forall k | 0 <= k < |edges| :: metadata[k] == []
  {
    hide Inputs, InPort;
    assert nodes[..|nodes|] == nodes;
    forall k | 0 <= k < |edges| ensures edges[k].dst in nodes {
      assert edges[k] in edges && Before(nodes, edges[k].src, edges[k].dst);
    }
  }

  /** When a node runs, each of its input buffers holds exactly what its source has made of this
      frame: the source has run, and nobody else reads the buffer. */
  lemma SeesThisFrame<P(!new), V>(f: Flow<P, V>, nodes: seq<P>, edges: seq<Edge<P>>, old_: seq<V>,
                                  made: seq<V>, values: seq<V>, i: nat)
    requires Ordered(nodes, edges) && i < |nodes|
    requires Made(f, nodes, edges, old_, made, i) && Remains(f, nodes, edges, made, values, i)
    ensures forall k | 0 <= k < |edges| && edges[k].dst == nodes[i] ::
              edges[k].src in nodes[..i] && Holds(f, edges, made, k) && values[k] == made[k]
    ensures Inputs(edges, values, nodes[i]) == Inputs(edges, made, nodes[i])
  {
    hide Inputs, Port, InPort, Holds;
    NotAmongFirst(nodes, i);
    forall k | 0 <= k < |edges| && edges[k].dst == nodes[i] ensures edges[k].src in nodes[..i] && values[k] == made[k] {
      SourcesBefore(nodes, edges, i, k);
    }
    InputsAgree(edges, values, made, nodes[i]);
  }

  lemma NotAmongFirst<P(!new)>(nodes: seq<P>, i: nat)
    requires NoDuplicates(nodes) && i < |nodes|
    ensures nodes[i] !in nodes[..i] && nodes[..i + 1] == nodes[..i] + [nodes[i]]
  {
  }

  /** One more node has run. */
  lemma NodeMakes<P(!new), V>(f: Flow<P, V>, nodes: seq<P>, edges: seq<Edge<P>>, old_: seq<V>,
                              made: seq<V>, a: seq<V>, b: seq<V>, i: nat) returns (next: seq<V>)
    requires Ordered(nodes, edges) && i < |nodes| && NodeRan(f, edges, a, b, nodes[i])
    requires Made(f, nodes, edges, old_, made, i) && Remains(f, nodes, edges, made, a, i)
    ensures |next| == |edges| && Made(f, nodes, edges, old_, next, i + 1) && Remains(f, nodes, edges, next, b, i + 1)
    ensures Inputs(edges, a, nodes[i]) == Inputs(edges, made, nodes[i])
    ensures forall j | 0 <= j <= i :: Inputs(edges, next, nodes[j]) == Inputs(edges, made, nodes[j])
  {
    var p := nodes[i];
    next := seq(|edges|, k requires 0 <= k < |edges| => if edges[k].src == p then b[k] else made[k]);
    SeesThisFrame(f, nodes, edges, old_, made, a, i);
    hide Inputs, Port, InPort, Ordered;
    forall j | 0 <= j <= i ensures Inputs(edges, next, nodes[j]) == Inputs(edges, made, nodes[j]) {
      InputsUntouched(nodes, edges, made, next, i, j);
    }
    MadeNext(f, nodes, edges, old_, made, next, i);
    RemainsNext(f, nodes, edges, made, next, a, b, i);
  }

  lemma MadeNext<P(!new), V>(f: Flow<P, V>, nodes: seq<P>, edges: seq<Edge<P>>, old_: seq<V>, made: seq<V>, next: seq<V>, i: nat)
    requires Ordered(nodes, edges) && i < |nodes| && |next| == |edges| && Made(f, nodes, edges, old_, made, i)
    requires forall j | 0 <= j <= i :: Inputs(edges, next, nodes[j]) == Inputs(edges, made, nodes[j])
    requires forall k | 0 <= k < |edges| ::
               next[k] == if edges[k].src == nodes[i] then f.output(nodes[i], Inputs(edges, made, nodes[i]), Port(edges, k, nodes[i]))
                          else made[k]
    ensures Made(f, nodes, edges, old_, next, i + 1)
  {
    hide Inputs, Port;
    NotAmongFirst(nodes, i);
    forall k | 0 <= k < |edges| && edges[k].src in nodes[..i + 1] ensures Holds(f, edges, next, k) {
      var j :| 0 <= j < i + 1 && nodes[j] == edges[k].src;
      if j < i {
        assert nodes[..i][j] == edges[k].src;
        assert Holds(f, edges, made, k);
      }
    }
  }

  lemma RemainsNext<P(!new), V>(f: Flow<P, V>, nodes: seq<P>, edges: seq<Edge<P>>, made: seq<V>, next: seq<V>,
                                a: seq<V>, b: seq<V>, i: nat)
    requires Ordered(nodes, edges) && i < |nodes| && |next| == |edges|
    requires Remains(f, nodes, edges, made, a, i) && NodeRan(f, edges, a, b, nodes[i])
    requires Inputs(edges, a, nodes[i]) == Inputs(edges, made, nodes[i])
    requires forall j | 0 <= j <= i :: Inputs(edges, next, nodes[j]) == Inputs(edges, made, nodes[j])
    requires forall k | 0 <= k < |edges| :: next[k] == if edges[k].src == nodes[i] then b[k] else made[k]
    ensures Remains(f, nodes, edges, next, b, i + 1)
  {
    hide Inputs, Port, InPort;
    NotAmongFirst(nodes, i);
    forall k | 0 <= k < |edges|
      ensures b[k] == if edges[k].dst in nodes[..i + 1]
                      then f.left(edges[k].dst, Inputs(edges, next, edges[k].dst), InPort(edges, k, edges[k].dst))
                      else next[k]
    {
      assert b[k] == Written(f, edges, a, nodes[i], k);
      if edges[k].dst in nodes[..i + 1] {
        var j :| 0 <= j < i + 1 && nodes[j] == edges[k].dst;
        SourcesBefore(nodes, edges, j, k);
        if j < i {
          assert nodes[..i][j] == edges[k].dst;
        }
      }
    }
  }

  /** The graph, the plugins and what was there before determine what is made. */
  lemma {:induction false} MadeUnique<P(!new), V>(f: Flow<P, V>, nodes: seq<P>, edges: seq<Edge<P>>, old_: seq<V>,
                                                  a: seq<V>, b: seq<V>, i: nat)
    requires Ordered(nodes, edges) && i <= |nodes|
    requires Made(f, nodes, edges, old_, a, i) && Made(f, nodes, edges, old_, b, i)
    ensures a == b
  {
    hide Inputs, Port, Ordered;
    forall k | 0 <= k < |edges| ensures a[k] == b[k] {
      if edges[k].src in nodes[..i] {
        var j :| 0 <= j < i && nodes[j] == edges[k].src;
        SameMade(f, nodes, edges, old_, a, b, i, j);
      }
    }
  }

  lemma {:induction false} SameMade<P(!new), V>(f: Flow<P, V>, nodes: seq<P>, edges: seq<Edge<P>>, old_: seq<V>,
                                                a: seq<V>, b: seq<V>, i: nat, j: nat)
    requires Ordered(nodes, edges) && j < i <= |nodes|
    requires Made(f, nodes, edges, old_, a, i) && Made(f, nodes, edges, old_, b, i)
    ensures forall k | 0 <= k < |edges| && edges[k].src == nodes[j] :: a[k] == b[k]
    decreases j
  {
    hide Inputs, Port, Ordered;
    forall k | 0 <= k < |edges| && edges[k].dst == nodes[j] ensures a[k] == b[k] {
      SourcesBefore(nodes, edges, j, k);
      var h :| 0 <= h < j && nodes[h] == edges[k].src;
      SameMade(f, nodes, edges, old_, a, b, i, h);
    }
    InputsAgree(edges, a, b, nodes[j]);
    assert nodes[..i][j] == nodes[j];
    forall k | 0 <= k < |edges| && edges[k].src == nodes[j] ensures a[k] == b[k] {
      assert Holds(f, edges, a, k) && Holds(f, edges, b, k);
    }
  }
}
