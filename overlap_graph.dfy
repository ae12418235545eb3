/** The overlap graph as a value: oriented vertex ids and at most one
    `OverlapEdge` per ordered pair of ids, as a JGraphT
    `DefaultDirectedGraph` keeps them. The edges a dovetail record creates,
    the dual of an edge, and the edges junction resolution discards. */
module OverlapGraphs {
  import opened VertexIds
  import opened PafRecords
  import opened LayoutRecords

  /** `OverlapEdge`: the aligned stretch of the source and of the sink. */
  datatype OverlapEdge = OverlapEdge(sourceStart: int, sourceEnd: int, sinkStart: int, sinkEnd: int)

  type Pair = (string, string)

  type Edges = map<Pair, OverlapEdge>

  /** The same overlap seen from the other side: source and sink swap. */
  function Swapped(e: OverlapEdge): (s: OverlapEdge)
    ensures s.sourceStart == e.sinkStart && s.sourceEnd == e.sinkEnd
    ensures s.sinkStart == e.sourceStart && s.sinkEnd == e.sourceEnd
  {
    OverlapEdge(e.sinkStart, e.sinkEnd, e.sourceStart, e.sourceEnd)
  }

  predicate IsIdPair(p: Pair) {
    IsVertexId(p.0) && IsVertexId(p.1)
  }

  /** The pair of `getReverseComplementEdge`: from the reverse complement of
      the sink to the reverse complement of the source. */
  function DualPair(p: Pair): Pair
    requires IsIdPair(p)
  {
    (ReverseComplementId(p.1), ReverseComplementId(p.0))
  }

  lemma DualPairInvolution(p: Pair)
    requires IsIdPair(p)
    ensures IsIdPair(DualPair(p)) && DualPair(DualPair(p)) == p
  {
    ReverseComplementIdInvolution(p.0);
    ReverseComplementIdInvolution(p.1);
  }

  /** Every edge joins two oriented ids. */
  ghost predicate IdEdges(edges: Edges) {
    forall p :: p in edges ==> IsIdPair(p)
  }

  /** The graph is its own reverse complement: each edge's dual is present,
      carrying the swapped overlap (an edge that is its own dual excepted). */
  ghost predicate DualClosed(edges: Edges) {
    IdEdges(edges) && forall p {:trigger ClosedPair(edges, p)} :: p in edges ==> ClosedPair(edges, p)
  }

  /** The edge `p` has its dual, with the swapped overlap. */
  ghost predicate ClosedPair(edges: Edges, p: Pair) {
    p in edges && IsIdPair(p) && DualPair(p) in edges && (DualPair(p) == p || edges[DualPair(p)] == Swapped(edges[p]))
  }

  function OutEdges(edges: Edges, v: string): set<Pair> {
    set p | p in edges && p.0 == v
  }

  function InEdges(edges: Edges, v: string): set<Pair> {
    set p | p in edges && p.1 == v
  }

  /** `graph.addEdge(u, v, e)`: a second edge on the same ordered pair is
      refused, so the first one stays. */
  function AddEdge(edges: Edges, p: Pair, e: OverlapEdge): (r: Edges)
    ensures p in r && r.Keys == edges.Keys + {p}
    ensures forall q :: q in edges ==> r[q] == edges[q]
  {
    if p in edges then edges else edges[p := e]
  }

  /** The edges one dovetail record adds, in the order the code adds them.
      Unstranded, the record's strand and which ends are aligned choose
      between four orientations, each edge followed by its dual; stranded,
      only forward records add one edge between forward ids. Every edge
      joins the record's two sequences and carries the record's coordinates,
      those of its source first; a dovetail always adds its edges. */
  function RecordEdges(c: Config, stranded: bool, r: Alignment): (es: seq<(Pair, OverlapEdge)>)
    ensures |es| <= 2
    ensures forall k :: 0 <= k < |es| ==> (
      && IsIdPair(es[k].0)
      && ((VertexName(es[k].0.0), VertexName(es[k].0.1), es[k].1) == (r.qName, r.tName, OverlapEdge(r.qStart, r.qEnd, r.tStart, r.tEnd)) ||
          (VertexName(es[k].0.0), VertexName(es[k].0.1), es[k].1) == (r.tName, r.qName, OverlapEdge(r.tStart, r.tEnd, r.qStart, r.qEnd))))
    ensures !stranded && IsDovetail(c, r) ==> |es| == 2
    ensures stranded && IsStrandedDovetail(c, r) ==> |es| == 1
  {
    var q, t := r.qName, r.tName;
    var qt, tq := OverlapEdge(r.qStart, r.qEnd, r.tStart, r.tEnd), OverlapEdge(r.tStart, r.tEnd, r.qStart, r.qEnd);
    if stranded then
      if r.reverseComplemented then []
      else if r.qEnd >= r.qLen - c.maxEdgeClip && r.tStart <= c.maxEdgeClip then [((Forward(q), Forward(t)), qt)]
      else if r.tEnd >= r.tLen - c.maxEdgeClip && r.qStart <= c.maxEdgeClip then [((Forward(t), Forward(q)), tq)]
      else []
    else if r.reverseComplemented then
      if r.qEnd >= r.qLen - c.maxEdgeClip && r.tEnd >= r.tLen - c.maxEdgeClip then
        [((Forward(t), Reverse(q)), tq), ((Forward(q), Reverse(t)), qt)]
      else if r.tStart <= c.maxEdgeClip && r.qStart <= c.maxEdgeClip then
        [((Reverse(q), Forward(t)), qt), ((Reverse(t), Forward(q)), tq)]
      else []
    else
      if r.qEnd >= r.qLen - c.maxEdgeClip && r.tStart <= c.maxEdgeClip then
        [((Forward(q), Forward(t)), qt), ((Reverse(t), Reverse(q)), tq)]
      else if r.tEnd >= r.tLen - c.maxEdgeClip && r.qStart <= c.maxEdgeClip then
        [((Forward(t), Forward(q)), tq), ((Reverse(q), Reverse(t)), qt)]
      else []
  }

  /** Unstranded, a record adds nothing or an edge and then its dual;
      stranded, at most one edge, between forward ids. */
  lemma RecordEdgesShape(c: Config, stranded: bool, r: Alignment)
    ensures var es := RecordEdges(c, stranded, r);
      (forall k :: 0 <= k < |es| ==> IsIdPair(es[k].0)) &&
      (!stranded ==> |es| == 0 || (|es| == 2 && es[1] == (DualPair(es[0].0), Swapped(es[0].1)))) &&
      (stranded ==> |es| <= 1 && forall k :: 0 <= k < |es| ==>
        (es[k].0 == (Forward(r.qName), Forward(r.tName)) || es[k].0 == (Forward(r.tName), Forward(r.qName))))
  {
    OrientationsPair(r.qName);
    OrientationsPair(r.tName);
  }

  /** The edges of a record whose ids are both representatives; any other
      record adds none. */
  function RepEdges(c: Config, stranded: bool, reps: set<string>, r: Alignment): seq<(Pair, OverlapEdge)> {
    if r.qName in reps && r.tName in reps then RecordEdges(c, stranded, r) else []
  }

  function AddEdges(edges: Edges, es: seq<(Pair, OverlapEdge)>): Edges
    decreases |es|
  {
    if |es| == 0 then edges else AddEdges(AddEdge(edges, es[0].0, es[0].1), es[1..])
  }

  /** The edge loop over the dovetail records. */
  function AddRecordEdges(c: Config, stranded: bool, reps: set<string>, edges: Edges, records: seq<Alignment>): Edges
    decreases |records|
  {
    if |records| == 0 then edges
    else AddRecordEdges(c, stranded, reps, AddEdges(edges, RepEdges(c, stranded, reps, records[0])), records[1..])
  }

  /** Adding an edge and then its dual keeps the graph its own reverse
      complement. */
  lemma AddDualKeepsClosed(edges: Edges, p: Pair, e: OverlapEdge)
    requires DualClosed(edges) && IsIdPair(p)
    ensures DualClosed(AddEdge(AddEdge(edges, p, e), DualPair(p), Swapped(e)))
  {
    DualPairInvolution(p);
    var d := DualPair(p);
    if p !in edges {
      assert d !in edges by {
        if d in edges {
          DualPairInvolution(d);
          ClosedAt(edges, d);
        }
      }
      if d == p {
        assert AddEdge(AddEdge(edges, p, e), d, Swapped(e)) == edges[p := e];
        AddSelfDualClosed(edges, p, e);
      } else {
        assert AddEdge(AddEdge(edges, p, e), d, Swapped(e)) == edges[p := e][d := Swapped(e)];
        AddDualPairClosed(edges, p, e);
      }
    } else {
      ClosedAt(edges, p);
    }
  }

  /** A new edge that is its own dual keeps the graph closed. */
  lemma AddSelfDualClosed(edges: Edges, p: Pair, e: OverlapEdge)
    requires DualClosed(edges) && IsIdPair(p) && p !in edges && DualPair(p) == p
    ensures DualClosed(edges[p := e])
  {
    var r := edges[p := e];
    forall q | q in r
      ensures ClosedPair(r, q)
    {
      if q != p {
        ClosedAt(edges, q);
        DualPairInvolution(q);
      }
    }
  }

  /** A new edge and its new dual, with swapped coordinates, keep the graph
      closed. */
  lemma AddDualPairClosed(edges: Edges, p: Pair, e: OverlapEdge)
    requires DualClosed(edges) && IsIdPair(p) && p !in edges
    requires IsIdPair(DualPair(p)) && DualPair(DualPair(p)) == p && DualPair(p) !in edges && DualPair(p) != p
    ensures DualClosed(edges[p := e][DualPair(p) := Swapped(e)])
  {
    var d := DualPair(p);
    var r := edges[p := e][d := Swapped(e)];
    forall q | q in r
      ensures ClosedPair(r, q)
    {
      if q == p {
        assert r[d] == Swapped(r[p]);
      } else if q == d {
        assert r[p] == e == Swapped(Swapped(e));
      } else {
        ClosedAt(edges, q);
        DualPairInvolution(q);
      }
    }
  }

  lemma ClosedAt(edges: Edges, q: Pair)
    requires DualClosed(edges) && q in edges
    ensures IsIdPair(q) && DualPair(q) in edges && (DualPair(q) == q || edges[DualPair(q)] == Swapped(edges[q]))
  {
    assert ClosedPair(edges, q);
  }

  /** Unstranded, the edge loop keeps the graph its own reverse complement. */
  lemma {:induction false} AddRecordEdgesClosed(c: Config, reps: set<string>, edges: Edges, records: seq<Alignment>)
    requires DualClosed(edges)
    ensures DualClosed(AddRecordEdges(c, false, reps, edges, records))
    decreases |records|
  {
    if |records| > 0 {
      AddRepEdgesClosed(c, reps, edges, records[0]);
      AddRecordEdgesClosed(c, reps, AddEdges(edges, RepEdges(c, false, reps, records[0])), records[1..]);
    }
  }

  /** One record's edges, an edge and its dual, keep the closure. */
  lemma AddRepEdgesClosed(c: Config, reps: set<string>, edges: Edges, r: Alignment)
    requires DualClosed(edges)
    ensures DualClosed(AddEdges(edges, RepEdges(c, false, reps, r)))
  {
    var p, e := UnstrandedEdgePair(c, reps, r);
    if RepEdges(c, false, reps, r) != [] {
      AddDualKeepsClosed(edges, p, e);
      AddTwo(edges, (p, e), (DualPair(p), Swapped(e)));
    }
  }

  /** Unstranded, a record adds no edge, or one edge and then its dual. */
  lemma UnstrandedEdgePair(c: Config, reps: set<string>, r: Alignment) returns (p: Pair, e: OverlapEdge)
    ensures IsIdPair(p)
    ensures RepEdges(c, false, reps, r) == [] || RepEdges(c, false, reps, r) == [(p, e), (DualPair(p), Swapped(e))]
  {
    var es := RepEdges(c, false, reps, r);
    RecordEdgesShape(c, false, r);
    p := (Forward(r.qName), Forward(r.tName));
    e := OverlapEdge(0, 0, 0, 0);
    if es != [] {
      p, e := es[0].0, es[0].1;
      assert es == [es[0], es[1]];
    }
  }

  lemma AddTwo(edges: Edges, x: (Pair, OverlapEdge), y: (Pair, OverlapEdge))
    ensures AddEdges(edges, [x, y]) == AddEdge(AddEdge(edges, x.0, x.1), y.0, y.1)
  {
    var once := AddEdge(edges, x.0, x.1);
    assert [x, y][1..] == [y];
    assert [y][1..] == [];
    assert AddEdges(once, [y]) == AddEdges(AddEdge(once, y.0, y.1), []);
  }

  lemma AddOne(edges: Edges, x: (Pair, OverlapEdge))
    ensures AddEdges(edges, [x]) == AddEdge(edges, x.0, x.1)
  {
    assert [x][1..] == [];
    assert AddEdges(edges, [x]) == AddEdges(AddEdge(edges, x.0, x.1), []);
  }

  /** The vertices of the representatives: `name+` for each, and `name-`
      too unless the layout is stranded. */
  function Oriented(reps: set<string>, stranded: bool): set<string> {
    (set n | n in reps :: Forward(n)) + (if stranded then {} else set n | n in reps :: Reverse(n))
  }

  /** Edges between orientations of representatives join vertices of the
      representatives. */
  lemma EdgesOfOriented(stranded: bool, reps: set<string>, edges: Edges)
    requires EdgesOf(stranded, reps, edges)
    ensures forall p :: p in edges ==> p.0 in Oriented(reps, stranded) && p.1 in Oriented(reps, stranded)
  {
    forall p | p in edges
      ensures p.0 in Oriented(reps, stranded) && p.1 in Oriented(reps, stranded)
    {
      IdOfName(p.0);
      IdOfName(p.1);
    }
  }

  /** Both ends of each edge are orientations of representatives; stranded,
      forward orientations only. */
  ghost predicate EdgesOf(stranded: bool, reps: set<string>, edges: Edges) {
    forall p :: p in edges ==> (IsIdPair(p) &&
      VertexName(p.0) in reps && VertexName(p.1) in reps &&
      (stranded ==> p.0 == Forward(VertexName(p.0)) && p.1 == Forward(VertexName(p.1))))
  }

  lemma {:induction false} AddEdgesOf(stranded: bool, reps: set<string>, edges: Edges, es: seq<(Pair, OverlapEdge)>)
    requires EdgesOf(stranded, reps, edges)
    requires forall k :: 0 <= k < |es| ==> (IsIdPair(es[k].0) &&
      VertexName(es[k].0.0) in reps && VertexName(es[k].0.1) in reps &&
      (stranded ==> es[k].0.0 == Forward(VertexName(es[k].0.0)) && es[k].0.1 == Forward(VertexName(es[k].0.1))))
    ensures EdgesOf(stranded, reps, AddEdges(edges, es))
    decreases |es|
  {
    if |es| > 0 {
      AddEdgesOf(stranded, reps, AddEdge(edges, es[0].0, es[0].1), es[1..]);
    }
  }

  /** The edge loop only joins orientations of representatives. */
  lemma {:induction false} AddRecordEdgesOf(c: Config, stranded: bool, reps: set<string>, edges: Edges, records: seq<Alignment>)
    requires EdgesOf(stranded, reps, edges)
    ensures EdgesOf(stranded, reps, AddRecordEdges(c, stranded, reps, edges, records))
    decreases |records|
  {
    if |records| > 0 {
      var r := records[0];
      RecordEdgesShape(c, stranded, r);
      OrientationsPair(r.qName);
      OrientationsPair(r.tName);
      AddEdgesOf(stranded, reps, edges, RepEdges(c, stranded, reps, r));
      AddRecordEdgesOf(c, stranded, reps, AddEdges(edges, RepEdges(c, stranded, reps, r)), records[1..]);
    }
  }

  /** The overlap span a junction compares: on the source side for
      out-edges, on the sink side for in-edges. */
  function Span(e: OverlapEdge, bySource: bool): int {
    if bySource then e.sourceEnd - e.sourceStart else e.sinkEnd - e.sinkStart
  }

  /** The duals present in the graph of the edges `ps`. */
  function DualsOf(edges: Edges, ps: set<Pair>): set<Pair>
    requires forall p :: p in ps ==> IsIdPair(p)
  {
    set p | p in ps && DualPair(p) in edges :: DualPair(p)
  }

  /** What a junction removes: every candidate but the best, and, when the
      graph is not strand-specific, the duals of those. */
  function Discards(edges: Edges, candidates: set<Pair>, best: Pair, strandSpecific: bool): set<Pair>
    requires forall p :: p in candidates ==> IsIdPair(p)
  {
    (candidates - {best}) + (if strandSpecific then {} else DualsOf(edges, candidates - {best}))
  }

  /** Removing a set of edges together with their duals keeps the graph its
      own reverse complement. */
  lemma RemoveKeepsClosed(edges: Edges, ps: set<Pair>)
    requires DualClosed(edges) && ps <= edges.Keys
    ensures DualClosed(edges - (ps + DualsOf(edges, ps)))
  {
    var gone := ps + DualsOf(edges, ps);
    var r := edges - gone;
    forall q | q in r
      ensures ClosedPair(r, q)
    {
      ClosedAt(edges, q);
      DualPairInvolution(q);
      if DualPair(q) in DualsOf(edges, ps) {
        var p :| p in ps && DualPair(p) == DualPair(q);
        DualPairInvolution(p);
      }
    }
  }

  /** When every candidate leaves (or every candidate enters) the same
      vertex, the best candidate is not the dual of another, so a junction
      never removes its best edge. */
  lemma DiscardsKeepBest(edges: Edges, candidates: set<Pair>, best: Pair, strandSpecific: bool, v: string, bySource: bool)
    requires forall p :: p in candidates ==> IsIdPair(p) && (if bySource then p.0 == v else p.1 == v)
    requires best in candidates
    ensures best !in Discards(edges, candidates, best, strandSpecific)
  {
    if !strandSpecific && best in DualsOf(edges, candidates - {best}) {
      var p :| p in candidates - {best} && DualPair(p) == best;
      DualPairInvolution(p);
      ReverseComplementIdInvolution(v);
    }
  }

  /** Every edge of `small` is an edge of `big`, with the same overlap. */
  predicate SubEdges(small: Edges, big: Edges) {
    small.Keys <= big.Keys && forall p :: p in small ==> small[p] == big[p]
  }

  /** The edges at a junction: the out-edges of `v`, or its in-edges. */
  function Candidates(edges: Edges, v: string, bySource: bool): set<Pair> {
    if bySource then OutEdges(edges, v) else InEdges(edges, v)
  }

  /** `best` is among `candidates` and no candidate spans more. */
  ghost predicate Widest(edges: Edges, candidates: set<Pair>, best: Pair, bySource: bool)
    requires candidates <= edges.Keys
  {
    best in candidates && forall p :: p in candidates ==> Span(edges[p], bySource) <= Span(edges[best], bySource)
  }

  /** The dual of one edge, when it is to be removed and is present. */
  function DualOf(edges: Edges, p: Pair, strandSpecific: bool): set<Pair>
    requires IsIdPair(p)
  {
    if !strandSpecific && DualPair(p) in edges then {DualPair(p)} else {}
  }

  /** One more candidate seen: if it is wider it becomes the best and the
      old best is discarded, otherwise it is discarded itself. */
  lemma DiscardsStep(edges: Edges, done: set<Pair>, best: Pair, e: Pair, strandSpecific: bool)
    requires forall p :: p in done ==> IsIdPair(p)
    requires IsIdPair(e) && best in done && e !in done
    ensures Discards(edges, done + {e}, e, strandSpecific) ==
      Discards(edges, done, best, strandSpecific) + {best} + DualOf(edges, best, strandSpecific)
    ensures Discards(edges, done + {e}, best, strandSpecific) ==
      Discards(edges, done, best, strandSpecific) + {e} + DualOf(edges, e, strandSpecific)
  {
    assert (done + {e}) - {e} == (done - {best}) + {best};
    assert (done + {e}) - {best} == (done - {best}) + {e};
    DualsOfAdd(edges, done - {best}, best);
    DualsOfAdd(edges, done - {best}, e);
  }

  lemma DualsOfAdd(edges: Edges, ps: set<Pair>, x: Pair)
    requires forall p :: p in ps ==> IsIdPair(p)
    requires IsIdPair(x)
    ensures DualsOf(edges, ps + {x}) == DualsOf(edges, ps) + DualOf(edges, x, false)
  {
  }

  /** Removing edges never raises a degree. */
  lemma DegreesShrink(small: Edges, big: Edges, v: string)
    requires small.Keys <= big.Keys
    ensures |OutEdges(small, v)| <= |OutEdges(big, v)| && |InEdges(small, v)| <= |InEdges(big, v)|
  {
    SubsetSize(OutEdges(small, v), OutEdges(big, v));
    SubsetSize(InEdges(small, v), InEdges(big, v));
  }

  lemma SubsetSize<T>(a: set<T>, b: set<T>)
    requires a <= b
    ensures |a| <= |b|
  {
    assert b == a + (b - a);
    assert a * (b - a) == {};
  }
}
