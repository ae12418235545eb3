/** rnabloom's `Layout`: the overlap graph it builds from dovetail records,
    the junctions it resolves, the unambiguous paths it walks and the
    backbones it writes. */
module Layouts {
  import opened Common
  import opened JavaStrings
  import opened PafRecords
  import opened LayoutRecords
  import opened VertexIds
  import opened OverlapGraphs
  import opened Containment
  import opened PathAssembly
  import opened Walks
  import opened Backbones

  /** `order` lists each edge of `s` exactly once. */
  ghost predicate Enumerates<T(!new)>(order: seq<T>, s: set<T>) {
    (forall p :: p in order <==> p in s) && Distinct(order)
  }

  ghost predicate Distinct<T>(order: seq<T>) {
    forall i, j :: 0 <= i < j < |order| ==> order[i] != order[j]
  }

  /** Every edge of `order` is in the graph and joins two oriented ids. */
  ghost predicate Listable(edges: Edges, order: seq<Pair>) {
    forall k :: 0 <= k < |order| ==> order[k] in edges && IsIdPair(order[k])
  }

  /** The edges among the first `n` of `order`. */
  function Prefix(order: seq<Pair>, n: nat): set<Pair>
    requires n <= |order|
  {
    set k | 0 <= k < n :: order[k]
  }

  /** Among the first `n` edges of `order`, `order[at]` spans at least as
      much as every one and strictly more than every one before it. */
  ghost predicate FirstWidest(edges: Edges, order: seq<Pair>, n: nat, at: int, bySource: bool)
    requires n <= |order| && Listable(edges, order)
  {
    0 <= at < n &&
    (forall j :: 0 <= j < at ==> Span(edges[order[j]], bySource) < Span(edges[order[at]], bySource)) &&
    (forall j :: 0 <= j < n ==> Span(edges[order[j]], bySource) <= Span(edges[order[at]], bySource))
  }

  lemma EnumeratesStep<T(!new)>(order: seq<T>, s: set<T>, e: T)
    requires Enumerates(order, s) && e !in s
    ensures Enumerates(order + [e], s + {e})
  {
  }

  lemma PrefixStep(order: seq<Pair>, n: nat)
    requires n < |order| && Distinct(order)
    ensures Prefix(order, n + 1) == Prefix(order, n) + {order[n]} && order[n] !in Prefix(order, n)
  {
  }

  lemma PrefixAll(order: seq<Pair>, s: set<Pair>)
    requires Enumerates(order, s)
    ensures Prefix(order, |order|) == s
  {
    forall p | p in s
      ensures p in Prefix(order, |order|)
    {
      var k :| 0 <= k < |order| && order[k] == p;
    }
  }

  lemma FirstWidestStep(edges: Edges, order: seq<Pair>, n: nat, at: int, bySource: bool)
    requires n < |order| && Listable(edges, order)
    requires FirstWidest(edges, order, n, at, bySource)
    ensures Span(edges[order[n]], bySource) > Span(edges[order[at]], bySource) ==> FirstWidest(edges, order, n + 1, n, bySource)
    ensures Span(edges[order[n]], bySource) <= Span(edges[order[at]], bySource) ==> FirstWidest(edges, order, n + 1, at, bySource)
  {
  }

  /** The first widest edge of an enumeration is widest among all it lists. */
  lemma FirstWidestIsWidest(edges: Edges, order: seq<Pair>, at: int, s: set<Pair>, bySource: bool)
    requires Listable(edges, order) && s <= edges.Keys
    requires Enumerates(order, s) && FirstWidest(edges, order, |order|, at, bySource)
    ensures Widest(edges, s, order[at], bySource)
  {
    forall p | p in s
      ensures Span(edges[p], bySource) <= Span(edges[order[at]], bySource)
    {
      var j :| 0 <= j < |order| && order[j] == p;
    }
  }

  /** The order in which an iterator over the hash set `s` yields its
      elements. */
  method IterationOrder<T(!new)>(s: set<T>) returns (order: seq<T>)
    ensures Enumerates(order, s)
  {
    order := [];
    var rest := s;
    while rest != {}
      invariant rest <= s && Enumerates(order, s - rest)
      decreases |rest|
    {
      var p :| p in rest;
      EnumeratesStep(order, s - rest, p);
      assert (s - rest) + {p} == s - (rest - {p});
      order := order + [p];
      rest := rest - {p};
    }
    assert s - rest == s;
  }

  /** The best-edge loop of a junction. It walks `candidates` in their
      iteration order `order`, keeps the first edge of greatest span and
      collects every other one, with its dual when the graph is not
      strand-specific. */
  method SelectWidest(edges: Edges, candidates: set<Pair>, bySource: bool, strandSpecific: bool)
    returns (best: Pair, toRemove: set<Pair>, order: seq<Pair>)
    requires candidates != {} && candidates <= edges.Keys
    requires forall p :: p in candidates ==> IsIdPair(p)
    ensures Widest(edges, candidates, best, bySource)
    ensures Enumerates(order, candidates)
    ensures exists i :: (0 <= i < |order| && order[i] == best &&
      forall j :: 0 <= j < i ==> Span(edges[order[j]], bySource) < Span(edges[best], bySource))
    ensures toRemove == Discards(edges, candidates, best, strandSpecific)
  {
    order := IterationOrder(candidates);
    SelectingStart(edges, order, candidates, bySource, strandSpecific);
    var at := 0;
    best := order[0];
    var bestOverlap := Span(edges[best], bySource);
    toRemove := {};
    var i := 1;
    while i < |order|
      invariant 1 <= i <= |order|
      invariant Selecting(edges, order, i, at, best, bestOverlap, toRemove, bySource, strandSpecific)
    {
      at, best, bestOverlap, toRemove := ConsiderEdge(edges, order, i, at, best, bestOverlap, toRemove, bySource, strandSpecific);
      i := i + 1;
    }
    SelectingEnd(edges, order, candidates, at, best, bestOverlap, toRemove, bySource, strandSpecific);
  }

  lemma SelectingStart(edges: Edges, order: seq<Pair>, candidates: set<Pair>, bySource: bool, strandSpecific: bool)
    requires candidates != {} && candidates <= edges.Keys && forall p :: p in candidates ==> IsIdPair(p)
    requires Enumerates(order, candidates)
    ensures |order| > 0 && Listable(edges, order) && Distinct(order)
    ensures Selecting(edges, order, 1, 0, order[0], Span(edges[order[0]], bySource), {}, bySource, strandSpecific)
  {
    var p :| p in candidates;
    assert Prefix(order, 1) == {order[0]};
  }

  lemma SelectingEnd(edges: Edges, order: seq<Pair>, candidates: set<Pair>, at: int, best: Pair, bestOverlap: int,
                     toRemove: set<Pair>, bySource: bool, strandSpecific: bool)
    requires candidates <= edges.Keys && forall p :: p in candidates ==> IsIdPair(p)
    requires Enumerates(order, candidates) && Listable(edges, order)
    requires Selecting(edges, order, |order|, at, best, bestOverlap, toRemove, bySource, strandSpecific)
    ensures Widest(edges, candidates, best, bySource)
    ensures exists i :: (0 <= i < |order| && order[i] == best &&
      forall j :: 0 <= j < i ==> Span(edges[order[j]], bySource) < Span(edges[best], bySource))
    ensures toRemove == Discards(edges, candidates, best, strandSpecific)
  {
    PrefixAll(order, candidates);
    FirstWidestIsWidest(edges, order, at, candidates, bySource);
  }

  /** The state of the best-edge loop after the first `i` edges of `order`. */
  ghost predicate Selecting(edges: Edges, order: seq<Pair>, i: nat, at: int, best: Pair, bestOverlap: int,
                            toRemove: set<Pair>, bySource: bool, strandSpecific: bool)
    requires i <= |order| && Listable(edges, order)
  {
    0 <= at < i && best == order[at] &&
    FirstWidest(edges, order, i, at, bySource) && bestOverlap == Span(edges[best], bySource) &&
    toRemove == Discards(edges, Prefix(order, i), best, strandSpecific)
  }

  /** One turn of the best-edge loop: the `i`-th edge either becomes the best
      and the old best goes to the removal list, or goes there itself. */
  method ConsiderEdge(edges: Edges, order: seq<Pair>, i: nat, at: int, best: Pair, bestOverlap: int,
                      toRemove: set<Pair>, bySource: bool, strandSpecific: bool)
    returns (at': int, best': Pair, bestOverlap': int, toRemove': set<Pair>)
    requires i < |order| && Listable(edges, order) && Distinct(order)
    requires Selecting(edges, order, i, at, best, bestOverlap, toRemove, bySource, strandSpecific)
    ensures Selecting(edges, order, i + 1, at', best', bestOverlap', toRemove', bySource, strandSpecific)
  {
    var e := order[i];
    PrefixStep(order, i);
    DiscardsStep(edges, Prefix(order, i), best, e, strandSpecific);
    FirstWidestStep(edges, order, i, at, bySource);
    var overlap := Span(edges[e], bySource);
    if overlap > bestOverlap {
      toRemove' := toRemove + {best} + DualOf(edges, best, strandSpecific);
      bestOverlap', best' := overlap, e;
      at' := i;
    } else {
      toRemove' := toRemove + {e} + DualOf(edges, e, strandSpecific);
      at', best', bestOverlap' := at, best, bestOverlap;
    }
  }

  class Layout {
    const stranded: bool
    const config: Config
    var vertices: set<string>
    var edges: Edges

    /** Vertices are oriented ids and every edge joins two of them. */
    ghost predicate Valid()
      reads this
    {
      (forall v :: v in vertices ==> IsVertexId(v)) &&
      (forall p :: p in edges ==> p.0 in vertices && p.1 in vertices)
    }

    /** `Layout(seqFile, pafFile, stranded, maxEdgeClip, minAlnId,
        minOverlapMatches)` with an empty graph; the two files become the
        inputs of `WriteBackboneSequences`. */
    constructor (stranded: bool, maxEdgeClip: int, minAlnId: real, minOverlapMatches: int)
      ensures this.stranded == stranded && config == Config(maxEdgeClip, minAlnId, minOverlapMatches)
      ensures vertices == {} && edges == map[]
    {
      this.stranded := stranded;
      config := Config(maxEdgeClip, minAlnId, minOverlapMatches);
      vertices := {};
      edges := map[];
    }

    /** `graph.addVertex(v)`. */
    method AddVertex(v: string)
      modifies this
      ensures vertices == old(vertices) + {v} && edges == old(edges)
    {
      vertices := vertices + {v};
    }

    /** `graph.addEdge(source, sink, e)`; both ends are vertices already. */
    method AddEdge(p: Pair, e: OverlapEdge)
      requires p.0 in vertices && p.1 in vertices
      modifies this
      ensures vertices == old(vertices) && edges == OverlapGraphs.AddEdge(old(edges), p, e)
    {
      if p !in edges {
        edges := edges[p := e];
      }
    }

    /** `graph.removeAllEdges(ps)`. */
    method RemoveAllEdges(ps: set<Pair>)
      modifies this
      ensures vertices == old(vertices) && edges == old(edges) - ps
    {
      edges := edges - ps;
    }

    /** `TransitiveReduction.INSTANCE.reduce(graph)`, with the algorithm a
        parameter: the edges it keeps, intersected with the graph's. */
    method Reduce(reduce: Edges -> set<Pair>)
      requires Valid()
      modifies this
      ensures Valid() && vertices == old(vertices) && SubEdges(edges, old(edges))
      ensures edges.Keys == old(edges).Keys * reduce(old(edges))
    {
      edges := edges - (edges.Keys - reduce(edges));
    }

    /** One half of a junction in `resolveJunctions`: if `v` has more than
        one out-edge (`bySource`) or in-edge, only the widest stays. */
    method ResolveAt(v: string, bySource: bool, strandSpecific: bool)
      requires Valid()
      modifies this
      ensures Valid() && vertices == old(vertices) && SubEdges(edges, old(edges))
      ensures !strandSpecific && DualClosed(old(edges)) ==> DualClosed(edges)
      ensures |Candidates(edges, v, bySource)| <= 1
      ensures |Candidates(old(edges), v, bySource)| <= 1 ==> edges == old(edges)
      ensures var cands := Candidates(old(edges), v, bySource);
        |cands| > 1 ==> exists best :: (Widest(old(edges), cands, best, bySource) &&
          edges == old(edges) - Discards(old(edges), cands, best, strandSpecific) &&
          Candidates(edges, v, bySource) == {best})
    {
      var cands := Candidates(edges, v, bySource);
      if |cands| > 1 {
        var best, toRemove, order := SelectWidest(edges, cands, bySource, strandSpecific);
        JunctionSurvivor(edges, v, bySource, strandSpecific, best);
        if !strandSpecific && DualClosed(edges) {
          JunctionKeepsClosed(edges, v, bySource, best);
        }
        ghost var after := edges - Discards(edges, cands, best, strandSpecific);
        RemoveAllEdges(toRemove);
        assert edges == after;
      }
    }

    /** `resolveJunctions(names, strandSpecific)`: afterwards every `name+`
        has at most one out-edge and one in-edge. Edges are only removed,
        and unstranded the graph stays its own reverse complement. */
    method ResolveJunctions(names: set<string>, strandSpecific: bool)
      requires Valid()
      modifies this
      ensures Valid() && vertices == old(vertices) && SubEdges(edges, old(edges))
      ensures !strandSpecific && DualClosed(old(edges)) ==> DualClosed(edges)
      ensures Resolved(edges, names)
    {
      var todo := names;
      while todo != {}
        invariant todo <= names
        invariant Valid() && vertices == old(vertices) && SubEdges(edges, old(edges))
        invariant !strandSpecific && DualClosed(old(edges)) ==> DualClosed(edges)
        invariant Resolved(edges, names - todo)
        decreases |todo|
      {
        var name :| name in todo;
        ghost var before := edges;
        ResolveAt(Forward(name), true, strandSpecific);
        ghost var between := edges;
        ResolveAt(Forward(name), false, strandSpecific);
        ResolvedStep(before, between, edges, names - todo, name);
        assert names - (todo - {name}) == (names - todo) + {name};
        todo := todo - {name};
      }
      assert names - todo == names;
    }

    /** `getUnambiguousRightExtension(id)`: from `id`, follow the only
        successor as long as it has at most one predecessor and is not yet
        on the walk. Each turn visits a new vertex, so the loop ends. */
    method RightExtension(id: string) returns (path: seq<string>)
      requires Valid() && id in vertices
      ensures RightWalk(edges, [id] + path)
      ensures forall k :: 0 <= k < |path| ==> path[k] in vertices
    {
      path := [];
      var visited := {id};
      var n := id;
      while true
        invariant visited <= vertices && n in vertices
        invariant n == ([id] + path)[|path|]
        invariant forall v :: v in visited <==> v in [id] + path
        invariant RightSteps(edges, [id] + path) && NoRepeats([id] + path)
        decreases vertices - visited
      {
        var successors := OutEdges(edges, n);
        if |successors| != 1 {
          break;
        }
        var p :| p in successors;
        SingletonOf(successors, p);
        var w := p.1;
        if |InEdges(edges, w)| > 1 || w in visited {
          assert OnlySuccessor(edges, n, w);
          break;
        }
        RightStepsExtend(edges, [id] + path, w);
        assert [id] + (path + [w]) == ([id] + path) + [w];
        path := path + [w];
        visited := visited + {w};
        n := w;
      }
    }

    /** `getUnambiguousLeftExtension(id)`: from `id`, follow the only
        predecessor backwards as long as it has at most one successor and
        is not yet on the walk, each one put in front. */
    method LeftExtension(id: string) returns (path: seq<string>)
      requires Valid() && id in vertices
      ensures LeftWalk(edges, path + [id])
      ensures forall k :: 0 <= k < |path| ==> path[k] in vertices
    {
      path := [];
      var visited := {id};
      var n := id;
      while true
        invariant visited <= vertices && n in vertices
        invariant n == (path + [id])[0]
        invariant forall v :: v in visited <==> v in path + [id]
        invariant LeftSteps(edges, path + [id]) && NoRepeats(path + [id])
        decreases vertices - visited
      {
        var predecessors := InEdges(edges, n);
        if |predecessors| != 1 {
          break;
        }
        var p :| p in predecessors;
        SingletonOf(predecessors, p);
        var w := p.0;
        if |OutEdges(edges, w)| > 1 || w in visited {
          assert OnlyPredecessor(edges, w, n);
          break;
        }
        LeftStepsExtend(edges, path + [id], w);
        assert ([w] + path) + [id] == [w] + (path + [id]);
        path := [w] + path;
        visited := visited + {w};
        n := w;
      }
    }

    /** The path the layout loop builds from `id`: the left extension, then
        `id`, then the right extension unless an edge from `id` to the
        path's first vertex shows the path is a cycle. */
    method PathFrom(id: string) returns (path: seq<string>)
      requires Valid() && id in vertices
      ensures LaidOutFrom(edges, path, id)
      ensures Chain(edges, path) && NoRepeats(path) && IdPath(path)
      ensures forall k :: 0 <= k < |path| ==> path[k] in vertices
    {
      var left := LeftExtension(id);
      path := left + [id];
      if (id, path[0]) !in edges {
        var right := RightExtension(id);
        path := path + right;
        assert path[|left|..] == [id] + right;
      }
      assert path[..|left| + 1] == left + [id];
      assert LaidOut(edges, path, |left|);
      LaidOutPath(edges, path, |left|);
    }

    /** `assemblePath(path, sequences)`: the loop over the path's vertices
        that the function `Assemble` follows, with an error where the code
        would throw. */
    method AssemblePath(path: seq<string>, seqs: map<string, string>) returns (r: Result<string, AssemblyError>)
      requires |path| > 0 && IdPath(path)
      ensures r == Assemble(edges, seqs, path)
    {
      var rc := IsReverseSign(path[0]);
      var first := SequenceOf(seqs, path[0]);
      if first.Failure? {
        return Failure(first.error);
      }
      var bytes := first.value;
      var start, end := 0, |bytes|;
      var sb := "";
      var i := 0;
      while i < |path| - 1
        invariant 0 <= i < |path| && rc == IsReverseSign(path[i])
        invariant Assemble(edges, seqs, path) == AssembleFrom(edges, seqs, path, i, bytes, start, end, sb)
      {
        var vid, vid2 := path[i], path[i + 1];
        if (vid, vid2) !in edges {
          return Failure(MissingEdge(vid, vid2));
        }
        var edge := edges[(vid, vid2)];
        var piece := if rc then Slice(bytes, edge.sourceEnd, end, true) else Slice(bytes, start, edge.sourceStart, false);
        if piece.Failure? {
          return Failure(piece.error);
        }
        sb := sb + piece.value;
        var next := SequenceOf(seqs, vid2);
        if next.Failure? {
          return Failure(next.error);
        }
        bytes := next.value;
        rc := IsReverseSign(vid2);
        if rc {
          start, end := 0, edge.sinkEnd;
        } else {
          start, end := edge.sinkStart, |bytes|;
        }
        i := i + 1;
      }
      var last := Slice(bytes, start, end, rc);
      if last.Failure? {
        return Failure(last.error);
      }
      return Success(sb + last.value);
    }

    /** The "add nodes for reads" loop: `name+` for each representative, and
        `name-` too unless the layout is stranded. */
    method AddVertices(reps: set<string>)
      requires Valid()
      modifies this
      ensures Valid() && edges == old(edges)
      ensures vertices == old(vertices) + Oriented(reps, stranded)
    {
      AddOrientationsOf(reps);
      OrientedIds(reps, stranded);
    }

    /** The loop itself, over the hash set's order. */
    method AddOrientationsOf(reps: set<string>)
      modifies this
      ensures edges == old(edges)
      ensures vertices == old(vertices) + Oriented(reps, stranded)
    {
      var order := IterationOrder(reps);
      for i := 0 to |order|
        invariant edges == old(edges) && vertices == old(vertices) + OrientedAll(order[..i], stranded)
      {
        assert order[..i + 1][..i] == order[..i];
        AddOrientations(order[i]);
      }
      assert order[..|order|] == order;
      OrientedAllIs(order, reps, stranded);
    }

    /** The body of the "add nodes for reads" loop for one name. */
    method AddOrientations(name: string)
      modifies this
      ensures edges == old(edges)
      ensures vertices == old(vertices) + Orientations(name, stranded)
    {
      AddVertex(Forward(name));
      if !stranded {
        AddVertex(Reverse(name));
      }
    }

    /** One turn of the "add edges for dovetails" loop: a record between two
        representatives adds, by its strand and by which ends are aligned,
        an edge and (unstranded) its dual. */
    method AddRecordEdge(r: Alignment, reps: set<string>)
      requires Valid() && Oriented(reps, stranded) <= vertices
      modifies this
      ensures Valid() && vertices == old(vertices)
      ensures edges == AddEdges(old(edges), RepEdges(config, stranded, reps, r))
    {
      var q, t, clip := r.qName, r.tName, config.maxEdgeClip;
      var qt, tq := OverlapEdge(r.qStart, r.qEnd, r.tStart, r.tEnd), OverlapEdge(r.tStart, r.tEnd, r.qStart, r.qEnd);
      ghost var es := RepEdges(config, stranded, reps, r);
      if q !in reps || t !in reps {
        return;
      }
      assert Forward(q) in Oriented(reps, stranded) && Forward(t) in Oriented(reps, stranded);
      if stranded {
        if !r.reverseComplemented {
          if r.qEnd >= r.qLen - clip && r.tStart <= clip {
            AddOne(edges, es[0]);
            AddEdge((Forward(q), Forward(t)), qt);
          } else if r.tEnd >= r.tLen - clip && r.qStart <= clip {
            AddOne(edges, es[0]);
            AddEdge((Forward(t), Forward(q)), tq);
          }
        }
        return;
      }
      assert Reverse(q) in Oriented(reps, stranded) && Reverse(t) in Oriented(reps, stranded);
      if r.reverseComplemented {
        if r.qEnd >= r.qLen - clip && r.tEnd >= r.tLen - clip {
          AddTwo(edges, es[0], es[1]);
          AddEdge((Forward(t), Reverse(q)), tq);
          AddEdge((Forward(q), Reverse(t)), qt);
        } else if r.tStart <= clip && r.qStart <= clip {
          AddTwo(edges, es[0], es[1]);
          AddEdge((Reverse(q), Forward(t)), qt);
          AddEdge((Reverse(t), Forward(q)), tq);
        }
      } else {
        if r.qEnd >= r.qLen - clip && r.tStart <= clip {
          AddTwo(edges, es[0], es[1]);
          AddEdge((Forward(q), Forward(t)), qt);
          AddEdge((Reverse(t), Reverse(q)), tq);
        } else if r.tEnd >= r.tLen - clip && r.qStart <= clip {
          AddTwo(edges, es[0], es[1]);
          AddEdge((Forward(t), Forward(q)), tq);
          AddEdge((Reverse(q), Reverse(t)), qt);
        }
      }
    }

    /** The "add edges for dovetails" loop over the kept records, in stream
        order. */
    method AddDovetailEdges(dovetails: seq<Alignment>, reps: set<string>)
      requires Valid() && Oriented(reps, stranded) <= vertices
      modifies this
      ensures Valid() && vertices == old(vertices)
      ensures edges == AddRecordEdges(config, stranded, reps, old(edges), dovetails)
    {
      for i := 0 to |dovetails|
        invariant Valid() && vertices == old(vertices)
        invariant AddRecordEdges(config, stranded, reps, edges, dovetails[i..]) ==
          AddRecordEdges(config, stranded, reps, old(edges), dovetails)
      {
        assert dovetails[i..][1..] == dovetails[i + 1..];
        AddRecordEdge(dovetails[i], reps);
      }
    }
    /** The "layout unambiguous paths" loop: for each representative, in
        the hash set's order, whose name no earlier path visited, lay out
        the path from its forward vertex, assemble it and write it under the
        next number after `firstId`, then mark the path's names visited. An
        assembly error ends the loop, as the exception would. The ghost
        `starts` are the representatives the paths were laid out from. */
    method LayoutPaths(reps: set<string>, seqs: map<string, string>, firstId: nat)
      returns (backbones: seq<FastaRecord>, failure: Option<AssemblyError>,
               ghost paths: seq<seq<string>>, ghost starts: seq<string>)
      requires Valid() && forall n :: n in reps ==> Forward(n) in vertices
      ensures Progress(edges, seqs, reps, firstId, backbones, paths, starts)
      ensures failure.None? ==> Covered(reps, paths)
      ensures failure.Some? ==> FailsFrom(edges, seqs, reps, failure.value)
    {
      backbones, failure, paths, starts := [], None, [], [];
      var visited: set<string> := {};
      var seqId := firstId;
      var todo := reps;
      while todo != {}
        invariant todo <= reps && seqId == firstId + |backbones| && failure.None?
        invariant Progress(edges, seqs, reps, firstId, backbones, paths, starts)
        invariant VisitedExactly(visited, paths) && reps - todo <= visited
        decreases |todo|
      {
        var n :| n in todo;
        todo := todo - {n};
        if n !in visited {
          seqId, backbones, failure, paths, starts, visited :=
            LayoutFrom(n, reps, seqs, firstId, seqId, backbones, paths, starts, visited);
          if failure.Some? {
            return;
          }
        }
      }
      CoveredSubset(reps, visited, paths);
    }

    /** The body of the path loop for a representative `n` not yet visited. */
    method LayoutFrom(n: string, reps: set<string>, seqs: map<string, string>, firstId: nat, seqId: nat,
                      backbones: seq<FastaRecord>, ghost paths: seq<seq<string>>, ghost starts: seq<string>,
                      visited: set<string>)
      returns (seqId': nat, backbones': seq<FastaRecord>, failure: Option<AssemblyError>,
               ghost paths': seq<seq<string>>, ghost starts': seq<string>, visited': set<string>)
      requires Valid() && n in reps && Forward(n) in vertices && seqId == firstId + |backbones|
      requires n !in visited
      requires Progress(edges, seqs, reps, firstId, backbones, paths, starts) && VisitedExactly(visited, paths)
      ensures seqId' == firstId + |backbones'|
      ensures Progress(edges, seqs, reps, firstId, backbones', paths', starts') && VisitedExactly(visited', paths')
      ensures failure.None? ==> starts' == starts + [n] && visited + {n} <= visited'
      ensures failure.Some? ==> FailsFrom(edges, seqs, reps, failure.value) && backbones' == backbones
    {
      seqId', backbones', paths', starts', visited' := seqId, backbones, paths, starts, visited;
      var path := PathFrom(Forward(n));
      var backbone := AssemblePath(path, seqs);
      if backbone.Failure? {
        return seqId, backbones, Some(backbone.error), paths, starts, visited;
      }
      failure := None;
      seqId' := seqId + 1;
      var written := (Header(seqId', path), backbone.value);
      PathNamesStart(edges, path, n);
      ProgressStep(edges, seqs, reps, firstId, backbones, paths, starts, visited, path, written, n);
      backbones', paths', starts' := backbones + [written], paths + [path], starts + [n];
      visited' := VisitNames(visited, path);
    }

    /** `writeBackboneSequences`: the whole layout, stranded or not, from
        the alignment records and the FASTA records to the records written:
        first the orphans, then one backbone per laid-out path. The
        transitive reduction is the parameter `reduce`. No representative
        starts two backbones. */
    method WriteBackboneSequences(records: seq<Alignment>, fasta: seq<FastaRecord>, reduce: Edges -> set<Pair>)
      returns (out: seq<FastaRecord>, failure: Option<AssemblyError>,
               ghost paths: seq<seq<string>>, ghost starts: seq<string>)
      requires vertices == {} && edges == map[]
      modifies this
      ensures var g := GatherAll(config, stranded, records);
        var reps := Representatives(g.lengths, g.longestAlts);
        Valid() && vertices == Oriented(reps, stranded) && Resolved(edges, reps) &&
        SubEdges(edges, AddRecordEdges(config, stranded, reps, map[], g.dovetails))
      ensures var g := GatherAll(config, stranded, records);
        var reps := Representatives(g.lengths, g.longestAlts);
        WrittenAll(edges, SequencesOf(fasta, reps), reps, Orphans(fasta, reps, g.lengths), out, paths, starts) &&
        (failure.None? ==> Covered(reps, paths)) &&
        (failure.Some? ==> FailsFrom(edges, SequencesOf(fasta, reps), reps, failure.value))
      ensures forall k :: 0 <= k < |out| ==> Numbered(out[k].0, k + 1)
      ensures forall i, j :: 0 <= i < j < |out| ==> out[i].0 != out[j].0
      ensures forall i, j :: 0 <= i < j < |starts| ==> starts[i] != starts[j]
    {
      var lengths, longestAlts, dovetails := GatherRecords(config, stranded, records);
      var reps := RepresentativeSet(lengths, longestAlts);
      BuildGraph(reps, dovetails, reduce);
      ForwardOriented(reps, stranded);
      var seqs, orphans := ReadSequences(fasta, reps, lengths);
      var backbones;
      backbones, failure, paths, starts := LayoutPaths(reps, seqs, |orphans|);
      out := orphans + backbones;
      OutputWritten(Orphans(fasta, reps, lengths), orphans, backbones, paths, starts, edges, seqs, reps);
      ProgressStartsDistinct(edges, seqs, reps, |orphans|, backbones, paths, starts);
      NumberedDistinct(out, 1);
    }

    /** The graph part of the layout: vertices for the representatives, the
        dovetail edges between them, the transitive reduction and the
        junctions. */
    method BuildGraph(reps: set<string>, dovetails: seq<Alignment>, reduce: Edges -> set<Pair>)
      requires vertices == {} && edges == map[]
      modifies this
      ensures Valid() && vertices == Oriented(reps, stranded) && Resolved(edges, reps)
      ensures SubEdges(edges, AddRecordEdges(config, stranded, reps, map[], dovetails))
    {
      AddVertices(reps);
      AddDovetailEdges(dovetails, reps);
      ghost var built := edges;
      Reduce(reduce);
      ghost var reduced := edges;
      ResolveJunctions(reps, stranded);
      SubEdgesTransitive(edges, reduced, built);
    }
  }

  /** Every `name+` of `names` has at most one out-edge and one in-edge. */
  ghost predicate Resolved(edges: Edges, names: set<string>) {
    forall n :: n in names ==> |OutEdges(edges, Forward(n))| <= 1 && |InEdges(edges, Forward(n))| <= 1
  }

  lemma ResolvedStep(before: Edges, between: Edges, after: Edges, done: set<string>, name: string)
    requires SubEdges(between, before) && SubEdges(after, between) && Resolved(before, done)
    requires |OutEdges(between, Forward(name))| <= 1 && |InEdges(after, Forward(name))| <= 1
    ensures Resolved(after, done + {name})
  {
    DegreesShrink(after, between, Forward(name));
    forall n | n in done
      ensures |OutEdges(after, Forward(n))| <= 1 && |InEdges(after, Forward(n))| <= 1
    {
      DegreesShrink(after, before, Forward(n));
    }
  }

  /** Removing a junction's discards leaves its best edge alone at the
      junction. */
  lemma JunctionSurvivor(edges: Edges, v: string, bySource: bool, strandSpecific: bool, best: Pair)
    requires IdEdges(edges)
    requires Widest(edges, Candidates(edges, v, bySource), best, bySource)
    ensures var cands := Candidates(edges, v, bySource);
      Candidates(edges - Discards(edges, cands, best, strandSpecific), v, bySource) == {best} &&
      |Candidates(edges - Discards(edges, cands, best, strandSpecific), v, bySource)| == 1
  {
    var cands := Candidates(edges, v, bySource);
    var after := edges - Discards(edges, cands, best, strandSpecific);
    DiscardsKeepBest(edges, cands, best, strandSpecific, v, bySource);
    forall p | p in Candidates(after, v, bySource)
      ensures p == best
    {
      assert p in cands;
    }
    assert best in after;
  }

  /** Unstranded, removing a junction's discards keeps the graph its own
      reverse complement. */
  lemma JunctionKeepsClosed(edges: Edges, v: string, bySource: bool, best: Pair)
    requires DualClosed(edges)
    ensures var cands := Candidates(edges, v, bySource);
      DualClosed(edges - Discards(edges, cands, best, false))
  {
    RemoveKeepsClosed(edges, Candidates(edges, v, bySource) - {best});
  }

  lemma OrientedIds(reps: set<string>, stranded: bool)
    ensures forall v :: v in Oriented(reps, stranded) ==> IsVertexId(v)
  {
  }

  /** The vertices of one name. */
  function Orientations(name: string, stranded: bool): set<string> {
    {Forward(name)} + (if stranded then {} else {Reverse(name)})
  }

  /** The vertices the loop adds for the names of `order`, in order. */
  function OrientedAll(order: seq<string>, stranded: bool): set<string>
    decreases |order|
  {
    if |order| == 0 then {} else OrientedAll(order[..|order| - 1], stranded) + Orientations(order[|order| - 1], stranded)
  }

  lemma {:induction false} OrientedAllIs(order: seq<string>, s: set<string>, stranded: bool)
    requires Enumerates(order, s)
    ensures OrientedAll(order, stranded) == Oriented(s, stranded)
    decreases |order|
  {
    if |order| > 0 {
      var init, last := order[..|order| - 1], order[|order| - 1];
      assert Enumerates(init, s - {last});
      OrientedAllIs(init, s - {last}, stranded);
      OrientedStep(s - {last}, last, stranded);
      assert (s - {last}) + {last} == s;
    }
  }

  lemma OrientedStep(done: set<string>, name: string, stranded: bool)
    ensures Oriented(done + {name}, stranded) == Oriented(done, stranded) + Orientations(name, stranded)
  {
  }

  /** The record written for `path` under number `id`: the path is laid out
      from the forward vertex of the representative `start`, its header is
      numbered `id`, and its sequence is the path's assembly. */
  ghost predicate Written(edges: Edges, seqs: map<string, string>, reps: set<string>, path: seq<string>,
                          out: FastaRecord, id: nat, start: string) {
    IdPath(path) && |path| > 0 && start in reps && LaidOutFrom(edges, path, Forward(start)) &&
    out.0 == Header(id, path) && Assemble(edges, seqs, path) == Success(out.1)
  }

  /** The start of a laid-out path puts its name on the path. */
  lemma PathNamesStart(edges: Edges, path: seq<string>, n: string)
    requires IdPath(path) && LaidOutFrom(edges, path, Forward(n))
    ensures n in NamesOn(path)
  {
    var i :| 0 <= i < |path| && path[i] == Forward(n) && LaidOut(edges, path, i);
    OrientationsPair(n);
    assert VertexName(path[i]) == n;
  }

  lemma SubEdgesTransitive(a: Edges, b: Edges, c: Edges)
    requires SubEdges(a, b) && SubEdges(b, c)
    ensures SubEdges(a, c)
  {
  }

  /** The state of the path loop: one path and one start per record written,
      each record numbered on from `firstId`, and each path started from a
      representative no earlier path visited. */
  ghost predicate Progress(edges: Edges, seqs: map<string, string>, reps: set<string>, firstId: nat,
                           backbones: seq<FastaRecord>, paths: seq<seq<string>>, starts: seq<string>) {
    |paths| == |backbones| == |starts| && IdPaths(paths) &&
    (forall k :: 0 <= k < |backbones| ==>
      Written(edges, seqs, reps, paths[k], backbones[k], firstId + k + 1, starts[k])) &&
    FreshStarts(paths, starts)
  }


  /** An assembly error: the path laid out from a representative's forward
      vertex does not assemble. */
  ghost predicate FailsFrom(edges: Edges, seqs: map<string, string>, reps: set<string>, err: AssemblyError) {
    exists n, path :: n in reps && LaidOutFrom(edges, path, Forward(n)) &&
      IdPath(path) && |path| > 0 && Assemble(edges, seqs, path) == Failure(err)
  }

  /** Writing the path laid out from an unvisited representative `n` keeps
      the loop state, and marking its names visited keeps `visited` exact. */
  lemma ProgressStep(edges: Edges, seqs: map<string, string>, reps: set<string>, firstId: nat,
                     backbones: seq<FastaRecord>, paths: seq<seq<string>>, starts: seq<string>,
                     visited: set<string>, path: seq<string>, written: FastaRecord, n: string)
    requires Progress(edges, seqs, reps, firstId, backbones, paths, starts) && VisitedExactly(visited, paths)
    requires n !in visited
    requires Written(edges, seqs, reps, path, written, firstId + |backbones| + 1, n)
    ensures Progress(edges, seqs, reps, firstId, backbones + [written], paths + [path], starts + [n])
    ensures VisitedExactly(visited + NamesOn(path), paths + [path])
  {
    FreshStartsStep(paths, starts, visited, path, n);
    VisitedStep(visited, paths, path);
    WrittenExtend(edges, seqs, reps, firstId, backbones, paths, starts, path, written, n);
  }

  /** Appending one written record keeps every record written. */
  lemma WrittenExtend(edges: Edges, seqs: map<string, string>, reps: set<string>, firstId: nat,
                      backbones: seq<FastaRecord>, paths: seq<seq<string>>, starts: seq<string>,
                      path: seq<string>, written: FastaRecord, n: string)
    requires |paths| == |backbones| == |starts|
    requires forall k :: 0 <= k < |backbones| ==> Written(edges, seqs, reps, paths[k], backbones[k], firstId + k + 1, starts[k])
    requires Written(edges, seqs, reps, path, written, firstId + |backbones| + 1, n)
    ensures forall k :: 0 <= k < |backbones| + 1 ==>
      Written(edges, seqs, reps, (paths + [path])[k], (backbones + [written])[k], firstId + k + 1, (starts + [n])[k])
  {
    var backbones', paths', starts' := backbones + [written], paths + [path], starts + [n];
    forall k | 0 <= k < |backbones'|
      ensures Written(edges, seqs, reps, paths'[k], backbones'[k], firstId + k + 1, starts'[k])
    {
      if k < |backbones| {
        assert backbones'[k] == backbones[k] && paths'[k] == paths[k] && starts'[k] == starts[k];
      }
    }
  }

  /** Each path's start lies on that path and on no earlier one, so no
      representative starts two backbones. */
  lemma ProgressStartsDistinct(edges: Edges, seqs: map<string, string>, reps: set<string>, firstId: nat,
                               backbones: seq<FastaRecord>, paths: seq<seq<string>>, starts: seq<string>)
    requires Progress(edges, seqs, reps, firstId, backbones, paths, starts)
    ensures forall j, k :: 0 <= j < k < |starts| ==> starts[j] != starts[k]
  {
    forall j, k | 0 <= j < k < |starts|
      ensures starts[j] != starts[k]
    {
      assert Written(edges, seqs, reps, paths[j], backbones[j], firstId + j + 1, starts[j]);
      PathNamesStart(edges, paths[j], starts[j]);
    }
  }

  lemma ForwardOriented(reps: set<string>, stranded: bool)
    ensures forall n :: n in reps ==> Forward(n) in Oriented(reps, stranded)
  {
  }

  /** Everything written: first the orphans under 1, 2, ..., then one
      record per path, numbered on. */
  ghost predicate WrittenAll(edges: Edges, seqs: map<string, string>, reps: set<string>, orphans: seq<FastaRecord>,
                             out: seq<FastaRecord>, paths: seq<seq<string>>, starts: seq<string>) {
    |out| == |orphans| + |paths| && |starts| == |paths| && IdPaths(paths) &&
    (forall k :: 0 <= k < |orphans| ==> out[k] == (NatToString(k + 1), orphans[k].1)) &&
    (forall k :: 0 <= k < |paths| ==>
      Written(edges, seqs, reps, paths[k], out[|orphans| + k], |orphans| + k + 1, starts[k])) &&
    FreshStarts(paths, starts)
  }

  /** The orphans and the backbones together are all written, numbered 1, 2,
      ... without a gap. */
  lemma OutputWritten(spec: seq<FastaRecord>, orphans: seq<FastaRecord>, backbones: seq<FastaRecord>,
                      paths: seq<seq<string>>, starts: seq<string>, edges: Edges, seqs: map<string, string>,
                      reps: set<string>)
    requires |orphans| == |spec| && forall k :: 0 <= k < |orphans| ==> orphans[k] == (NatToString(k + 1), spec[k].1)
    requires Progress(edges, seqs, reps, |orphans|, backbones, paths, starts)
    ensures WrittenAll(edges, seqs, reps, spec, orphans + backbones, paths, starts)
    ensures forall k :: 0 <= k < |orphans + backbones| ==> Numbered((orphans + backbones)[k].0, k + 1)
  {
    var out := orphans + backbones;
    forall k | 0 <= k < |paths|
      ensures Written(edges, seqs, reps, paths[k], out[|orphans| + k], |orphans| + k + 1, starts[k])
    {
      assert out[|orphans| + k] == backbones[k];
    }
    forall k | 0 <= k < |out|
      ensures Numbered(out[k].0, k + 1)
    {
      if k >= |orphans| {
        var j := k - |orphans|;
        assert Written(edges, seqs, reps, paths[j], backbones[j], k + 1, starts[j]);
      }
    }
  }
}
