/** The connections that `DabModulator.cpp` makes: for any number of sub-channels and any
    choice of optional blocks the node order stays a processing order. */
module DabModulator {
  import opened Common
  import opened Flowgraphs

  datatype Stage = Source | Prbs | Conv | Punc | Interleaver

  datatype Plugin =
    | CifPrbs | CifMux | CifPart | CifMap | CifRef | CifFreq | CifDiff | CifNull | CifSig
    | Fic | FicPrbs | FicConv | FicPunc
    | Subchannel(i: nat, stage: Stage)
    | TiiRef | Tii
    | CicEq | Ofdm | Gain | Guard | Filter | Res | Poly | Converter | Output

  /** Which blocks the settings ask for. */
  datatype Options = Options(tii: bool, cicEq: bool, gain: bool, filter: bool, res: bool, poly: bool, converter: bool)

  const FIC_EDGES: seq<Edge<Plugin>> := [
    Edge(CifPrbs, CifMux),
    Edge(Fic, FicPrbs), Edge(FicPrbs, FicConv), Edge(FicConv, FicPunc), Edge(FicPunc, CifPart)
  ]

  function SubchannelEdges(i: nat): seq<Edge<Plugin>> {
    [Edge(Subchannel(i, Source), Subchannel(i, Prbs)), Edge(Subchannel(i, Prbs), Subchannel(i, Conv)),
     Edge(Subchannel(i, Conv), Subchannel(i, Punc)), Edge(Subchannel(i, Punc), Subchannel(i, Interleaver)),
     Edge(Subchannel(i, Interleaver), CifMux)]
  }

  function AllSubchannels(n: nat): seq<Edge<Plugin>> {
    if n == 0 then [] else AllSubchannels(n - 1) + SubchannelEdges(n - 1)
  }

  const MAPPING_EDGES: seq<Edge<Plugin>> := [
    Edge(CifMux, CifPart), Edge(CifPart, CifMap), Edge(CifMap, CifFreq), Edge(CifRef, CifDiff)
  ]

  const SIGNAL_EDGES: seq<Edge<Plugin>> := [Edge(CifFreq, CifDiff), Edge(CifNull, CifSig), Edge(CifDiff, CifSig)]

  const TII_EDGES: seq<Edge<Plugin>> := [Edge(TiiRef, Tii), Edge(Tii, CifSig)]

  /** The blocks after the signal multiplexer, with holes for those not asked for. */
  function OutputChain(o: Options): seq<Option<Plugin>> {
    [if o.cicEq then Some(CicEq) else None, Some(Ofdm), if o.gain then Some(Gain) else None, Some(Guard),
     if o.filter then Some(Filter) else None, if o.res then Some(Res) else None, if o.poly then Some(Poly) else None,
     if o.converter then Some(Converter) else None, Some(Output)]
  }

  /** The last block present among the first k, or the signal multiplexer. */
  function Previous(chain: seq<Option<Plugin>>, k: nat): Plugin
    requires k <= |chain|
  {
    if k == 0 then CifSig else if chain[k - 1].Some? then chain[k - 1].value else Previous(chain, k - 1)
  }

  function ChainEdges(chain: seq<Option<Plugin>>, k: nat): seq<Edge<Plugin>>
    requires k <= |chain|
  {
    if k == 0 then []
    else if chain[k - 1].None? then ChainEdges(chain, k - 1)
    else ChainEdges(chain, k - 1) + [Edge(Previous(chain, k - 1), chain[k - 1].value)]
  }

  /** Each plugin connected to the next one. */
  function Pairs(s: seq<Plugin>): seq<Edge<Plugin>> {
    if |s| < 2 then [] else Pairs(s[..|s| - 1]) + [Edge(s[|s| - 2], s[|s| - 1])]
  }

  /** The plugins from the signal multiplexer on, in the order of processing. */
  function OutputPlugins(o: Options): seq<Plugin> {
    [CifSig] + (if o.cicEq then [CicEq] else []) + [Ofdm] + (if o.gain then [Gain] else []) + [Guard]
    + (if o.filter then [Filter] else []) + (if o.res then [Res] else []) + (if o.poly then [Poly] else [])
    + (if o.converter then [Converter] else []) + [Output]
  }

  function Present(chain: seq<Option<Plugin>>, k: nat): seq<Plugin>
    requires k <= |chain|
  {
    if k == 0 then [CifSig]
    else Present(chain, k - 1) + if chain[k - 1].Some? then [chain[k - 1].value] else []
  }

  lemma {:induction false} ChainIsPairs(chain: seq<Option<Plugin>>, k: nat)
    requires k <= |chain|
    ensures |Present(chain, k)| >= 1 && Present(chain, k)[|Present(chain, k)| - 1] == Previous(chain, k)
    ensures ChainEdges(chain, k) == Pairs(Present(chain, k))
    decreases k
  {
    if k > 0 {
      ChainIsPairs(chain, k - 1);
      var before, s := Present(chain, k - 1), Present(chain, k);
      if chain[k - 1].Some? {
        assert s[..|s| - 1] == before && s[|s| - 2] == before[|before| - 1];
      } else {
        assert s == before;
      }
    } else {
      assert Present(chain, 0) == [CifSig];
    }
  }

  lemma PresentInOrder(o: Options)
    ensures Present(OutputChain(o), 9) == OutputPlugins(o)
  {
    var c := OutputChain(o);
    assert Present(c, 0) == [CifSig];
    assert Present(c, 1) == Present(c, 0) + if o.cicEq then [CicEq] else [];
    assert Present(c, 2) == Present(c, 1) + [Ofdm];
    assert Present(c, 3) == Present(c, 2) + if o.gain then [Gain] else [];
    assert Present(c, 4) == Present(c, 3) + [Guard];
    assert Present(c, 5) == Present(c, 4) + if o.filter then [Filter] else [];
    assert Present(c, 6) == Present(c, 5) + if o.res then [Res] else [];
    assert Present(c, 7) == Present(c, 6) + if o.poly then [Poly] else [];
    assert Present(c, 8) == Present(c, 7) + if o.converter then [Converter] else [];
    assert Present(c, 9) == Present(c, 8) + [Output];
  }

  /** All connections, in the order in which they are made. */
  function DabEdges(n: nat, o: Options): seq<Edge<Plugin>> {
    FIC_EDGES + AllSubchannels(n) + MAPPING_EDGES + SIGNAL_EDGES + (if o.tii then TII_EDGES else [])
    + Pairs(OutputPlugins(o))
  }

  /** The graph is in order, and only the given plugins have outgoing edges. */
  ghost predicate InOrder<V, M>(g: Flowgraph<Plugin, V, M>, used: set<Plugin>)
    reads g
  {
    g.Valid() && Ordered(g.nodes, g.edges) && forall e | e in g.edges :: e.src in used
  }

  method Join<V, M>(g: Flowgraph<Plugin, V, M>, input: Plugin, output: Plugin, ghost used: set<Plugin>)
    returns (ghost after: set<Plugin>)
    requires InOrder(g, used) && output !in used && input != output
    modifies g
    ensures after == used + {input} && InOrder(g, after) && g.edges == old(g.edges) + [Edge(input, output)]
  {
    assert MayConnect(g.nodes, g.edges, input, output);
    hide Ordered, MayConnect;
    g.Connect(input, output);
    after := used + {input};
  }

  method ConnectSubchannel<V, M>(g: Flowgraph<Plugin, V, M>, i: nat, ghost used: set<Plugin>) returns (ghost after: set<Plugin>)
    requires InOrder(g, used) && CifMux !in used && forall p | p in used && p.Subchannel? :: p.i < i
    modifies g
    ensures InOrder(g, after) && g.edges == old(g.edges) + SubchannelEdges(i)
    ensures forall p | p in after :: p in used || (p.Subchannel? && p.i == i)
  {
    hide InOrder;
    after := Join(g, Subchannel(i, Source), Subchannel(i, Prbs), used);
    after := Join(g, Subchannel(i, Prbs), Subchannel(i, Conv), after);
    after := Join(g, Subchannel(i, Conv), Subchannel(i, Punc), after);
    after := Join(g, Subchannel(i, Punc), Subchannel(i, Interleaver), after);
    after := Join(g, Subchannel(i, Interleaver), CifMux, after);
  }

  method ConnectFic<V, M>(g: Flowgraph<Plugin, V, M>) returns (ghost after: set<Plugin>)
    requires InOrder(g, {}) && g.edges == []
    modifies g
    ensures InOrder(g, after) && g.edges == FIC_EDGES
    ensures forall p | p in after :: Upstream(p) && !p.Subchannel?
  {
    hide InOrder;
    after := Join(g, CifPrbs, CifMux, {});
    after := Join(g, Fic, FicPrbs, after);
    after := Join(g, FicPrbs, FicConv, after);
    after := Join(g, FicConv, FicPunc, after);
    after := Join(g, FicPunc, CifPart, after);
  }

  method ConnectSubchannels<V, M>(g: Flowgraph<Plugin, V, M>, n: nat, ghost used: set<Plugin>) returns (ghost after: set<Plugin>)
    requires InOrder(g, used) && forall p | p in used :: Upstream(p) && !p.Subchannel?
    modifies g
    ensures InOrder(g, after) && g.edges == old(g.edges) + AllSubchannels(n)
    ensures forall p | p in after :: Upstream(p)
  {
    hide InOrder, SubchannelEdges;
    after := used;
    for i := 0 to n
      invariant InOrder(g, after) && g.edges == old(g.edges) + AllSubchannels(i)
      invariant forall p | p in after :: Upstream(p) && (p.Subchannel? ==> p.i < i)
    {
      after := ConnectSubchannel(g, i, after);
    }
  }

  /** Plugins before the multiplexer. */
  ghost predicate Upstream(p: Plugin) {
    p.Subchannel? || p in {CifPrbs, Fic, FicPrbs, FicConv, FicPunc}
  }

  const TRUNK_SOURCES: set<Plugin> := {CifMux, CifPart, CifMap, CifRef, CifFreq, CifNull, CifDiff}

  ghost predicate Trunk(p: Plugin) {
    Upstream(p) || p in TRUNK_SOURCES
  }

  method ConnectMapping<V, M>(g: Flowgraph<Plugin, V, M>, ghost used: set<Plugin>) returns (ghost after: set<Plugin>)
    requires InOrder(g, used) && forall p | p in used :: Upstream(p)
    modifies g
    ensures InOrder(g, after) && g.edges == old(g.edges) + MAPPING_EDGES
    ensures forall p | p in after :: Upstream(p) || p in {CifMux, CifPart, CifMap, CifRef}
  {
    hide InOrder;
    after := Join(g, CifMux, CifPart, used);
    after := Join(g, CifPart, CifMap, after);
    after := Join(g, CifMap, CifFreq, after);
    after := Join(g, CifRef, CifDiff, after);
  }

  method ConnectSignal<V, M>(g: Flowgraph<Plugin, V, M>, ghost used: set<Plugin>) returns (ghost after: set<Plugin>)
    requires InOrder(g, used)
    requires forall p | p in used :: Upstream(p) || p in {CifMux, CifPart, CifMap, CifRef}
    modifies g
    ensures InOrder(g, after) && g.edges == old(g.edges) + SIGNAL_EDGES
    ensures forall p | p in after :: Trunk(p)
  {
    hide InOrder;
    after := Join(g, CifFreq, CifDiff, used);
    after := Join(g, CifNull, CifSig, after);
    after := Join(g, CifDiff, CifSig, after);
  }

  method ConnectTii<V, M>(g: Flowgraph<Plugin, V, M>, ghost used: set<Plugin>) returns (ghost after: set<Plugin>)
    requires InOrder(g, used) && CifSig !in used && Tii !in used
    modifies g
    ensures InOrder(g, after) && g.edges == old(g.edges) + TII_EDGES && after == used + {TiiRef} + {Tii}
  {
    hide InOrder;
    after := Join(g, TiiRef, Tii, used);
    after := Join(g, Tii, CifSig, after);
  }

  lemma ChainDistinct(o: Options, i: nat, j: nat)
    requires i < j < |OutputChain(o)| && OutputChain(o)[i].Some? && OutputChain(o)[j].Some?
    ensures OutputChain(o)[i] != OutputChain(o)[j]
  {
  }

  lemma ChainOutside(o: Options, i: nat)
    requires i < |OutputChain(o)| && OutputChain(o)[i].Some?
    ensures var p := OutputChain(o)[i].value;
            !Trunk(p) && p != CifSig && p != TiiRef && p != Tii
  {
  }

  /** The loop over the output blocks: each block present follows the last one present. */
  method ConnectChain<V, M>(g: Flowgraph<Plugin, V, M>, o: Options, ghost used0: set<Plugin>)
    requires InOrder(g, used0)
    requires forall p | p in used0 :: Trunk(p) || p == TiiRef || p == Tii
    modifies g
    ensures g.Valid() && Ordered(g.nodes, g.edges)
    ensures g.edges == old(g.edges) + ChainEdges(OutputChain(o), |OutputChain(o)|)
  {
    var plugins := OutputChain(o);
    var prev := CifSig;
    ghost var used := used0;
    hide InOrder, OutputChain, Trunk;
    for k := 0 to |plugins|
      invariant InOrder(g, used) && prev == Previous(plugins, k)
      invariant g.edges == old(g.edges) + ChainEdges(plugins, k)
      invariant forall p | p in used :: p in used0 || p == CifSig || exists j | 0 <= j < k :: plugins[j] == Some(p)
      invariant prev == CifSig || exists j | 0 <= j < k :: plugins[j] == Some(prev)
    {
      if plugins[k].Some? {
        var p := plugins[k].value;
        ChainOutside(o, k);
        if exists j | 0 <= j < k :: plugins[j] == Some(p) {
          var j :| 0 <= j < k && plugins[j] == Some(p);
          ChainDistinct(o, j, k);
        }
        used := Join(g, prev, p, used);
        prev := p;
      }
    }
    OrderedEnd(g, used);
  }

  lemma OrderedEnd<V, M>(g: Flowgraph<Plugin, V, M>, used: set<Plugin>)
    requires InOrder(g, used)
    ensures g.Valid() && Ordered(g.nodes, g.edges)
  {
  }

  /** Setting up the modulator, for any number of sub-channels and any settings: all
      connections are made and every producer stands before its consumers. */
  method SetUp<V, M>(g: Flowgraph<Plugin, V, M>, n: nat, o: Options)
    requires g.nodes == [] && g.edges == [] && g.buffers == [] && g.metadata == []
    modifies g
    ensures g.Valid() && Ordered(g.nodes, g.edges) && g.edges == DabEdges(n, o)
  {
    StartInOrder(g);
    hide *;
    ghost var used := ConnectFic(g);
    used := ConnectSubchannels(g, n, used);
    used := ConnectMapping(g, used);
    used := ConnectSignal(g, used);
    assert g.edges == FIC_EDGES + AllSubchannels(n) + MAPPING_EDGES + SIGNAL_EDGES;
    ConnectRest(g, o, used);
    DabEdgesAre(n, o);
  }

  lemma StartInOrder<V, M>(g: Flowgraph<Plugin, V, M>)
    requires g.nodes == [] && g.edges == [] && g.buffers == [] && g.metadata == []
    ensures InOrder(g, {})
  {
  }

  method ConnectRest<V, M>(g: Flowgraph<Plugin, V, M>, o: Options, ghost used0: set<Plugin>)
    requires InOrder(g, used0) && forall p | p in used0 :: Trunk(p)
    modifies g
    ensures g.Valid() && Ordered(g.nodes, g.edges)
    ensures g.edges == (if o.tii then old(g.edges) + TII_EDGES else old(g.edges))
                     + ChainEdges(OutputChain(o), |OutputChain(o)|)
  {
    hide *;
    ghost var used := used0;
    TrunkEndsBefore(used);
    if o.tii {
      used := ConnectTii(g, used);
    }
    ConnectChain(g, o, used);
  }

  lemma TrunkEndsBefore(used: set<Plugin>)
    requires forall p | p in used :: Trunk(p)
    ensures CifSig !in used && Tii !in used
  {
  }

  lemma DabEdgesAre(n: nat, o: Options)
    ensures var start := FIC_EDGES + AllSubchannels(n) + MAPPING_EDGES + SIGNAL_EDGES;
            DabEdges(n, o) == (if o.tii then start + TII_EDGES else start)
                            + ChainEdges(OutputChain(o), |OutputChain(o)|)
  {
    ChainIsPairs(OutputChain(o), 9);
    PresentInOrder(o);
    assert |OutputChain(o)| == 9;
    var start := FIC_EDGES + AllSubchannels(n) + MAPPING_EDGES + SIGNAL_EDGES;
    hide OutputChain, ChainEdges, AllSubchannels, FIC_EDGES, MAPPING_EDGES, SIGNAL_EDGES, TII_EDGES, Present, Pairs, OutputPlugins;
    assert start + [] == start;
  }
}
