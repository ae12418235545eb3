/** `assemblePath`: the backbone of a path of oriented vertex ids, cut from
    the vertices' sequences at the edges' aligned coordinates and joined,
    with reverse-oriented vertices reverse complemented. */
module PathAssembly {
  import opened Common
  import opened SeqUtils
  import opened VertexIds
  import opened OverlapGraphs

  /** The ways assembly stops. The code would throw in each case: a
      `NullPointerException` for a missing sequence or edge, and an
      exception from the byte-slice helpers for a range outside the bytes. */
  datatype AssemblyError =
    | MissingSequence(name: string)
    | MissingEdge(source: string, sink: string)
    | SliceOutOfRange(start: int, end: int)

  /** `bytesToString(bytes, start, end)`, or with `rc` the
      `reverseComplement(bytes, start, end)` of the same slice; neither
      helper is part of this model, so both are taken as the slice
      `[start, end)` and an error outside the bytes. */
  function Slice(bytes: string, start: int, end: int, rc: bool): (r: Result<string, AssemblyError>)
    ensures r.Success? <==> 0 <= start <= end <= |bytes|
    ensures r.Success? ==> |r.value| == end - start
  {
    if 0 <= start <= end <= |bytes| then
      Success(if rc then ReverseComplement(bytes[start..end]) else bytes[start..end])
    else Failure(SliceOutOfRange(start, end))
  }

  /** `sequences.get(getVertexName(vid))`. */
  function SequenceOf(seqs: map<string, string>, vid: string): (r: Result<string, AssemblyError>)
    requires |vid| > 0
    ensures r.Success? <==> VertexName(vid) in seqs
    ensures r.Success? ==> r.value == seqs[VertexName(vid)]
  {
    if VertexName(vid) in seqs then Success(seqs[VertexName(vid)])
    else Failure(MissingSequence(VertexName(vid)))
  }

  predicate IdPath(path: seq<string>) {
    forall k :: 0 <= k < |path| ==> IsVertexId(path[k])
  }

  /** The rest of the assembly once `acc` is built and vertex `i` is
      current, with sequence `bytes` and `[start, end)` the part of it not
      yet placed. A forward vertex gives up to the edge's `sourceStart`, a
      reverse one from the edge's `sourceEnd`; the next vertex then starts
      at the edge's `sinkStart` (forward) or ends at its `sinkEnd`
      (reverse). The last vertex gives all that is left of it. A result
      extends `acc` and needs every later vertex's sequence and every edge
      from `i` on; a missing sequence or edge is reported only when it is
      missing. */
  function AssembleFrom(edges: Edges, seqs: map<string, string>, path: seq<string>, i: nat,
                        bytes: string, start: int, end: int, acc: string): (r: Result<string, AssemblyError>)
    requires i < |path| && IdPath(path)
    ensures r.Success? ==> acc <= r.value
    ensures r.Success? ==> forall k :: i <= k < |path| - 1 ==> Joined(edges, seqs, path, k)
    ensures r.Failure? && r.error.MissingEdge? ==>
      exists k :: i <= k < |path| - 1 && r.error == MissingEdge(path[k], path[k + 1]) && (path[k], path[k + 1]) !in edges
    ensures r.Failure? && r.error.MissingSequence? ==>
      exists k :: i < k < |path| && r.error == MissingSequence(VertexName(path[k])) && VertexName(path[k]) !in seqs
    decreases |path| - i
  {
    var rc := IsReverseSign(path[i]);
    if i == |path| - 1 then
      match Slice(bytes, start, end, rc)
      case Failure(err) => Failure(err)
      case Success(piece) => Success(acc + piece)
    else if (path[i], path[i + 1]) !in edges then Failure(MissingEdge(path[i], path[i + 1]))
    else
      var e := edges[(path[i], path[i + 1])];
      match (if rc then Slice(bytes, e.sourceEnd, end, true) else Slice(bytes, start, e.sourceStart, false))
      case Failure(err) => Failure(err)
      case Success(piece) =>
        match SequenceOf(seqs, path[i + 1])
        case Failure(err) => Failure(err)
        case Success(next) =>
          if IsReverseSign(path[i + 1]) then AssembleFrom(edges, seqs, path, i + 1, next, 0, e.sinkEnd, acc + piece)
          else AssembleFrom(edges, seqs, path, i + 1, next, e.sinkStart, |next|, acc + piece)
  }

  /** Vertex `k` of the path has an edge to vertex `k + 1`, whose sequence
      is known. */
  ghost predicate Joined(edges: Edges, seqs: map<string, string>, path: seq<string>, k: int)
    requires IdPath(path) && 0 <= k < |path| - 1
  {
    (path[k], path[k + 1]) in edges && VertexName(path[k + 1]) in seqs
  }

  /** The backbone of a whole path: the first vertex starts with all of its
      sequence. A backbone needs every vertex's sequence and an edge between
      each two consecutive vertices; an error names a sequence or an edge
      that is in fact missing. */
  function Assemble(edges: Edges, seqs: map<string, string>, path: seq<string>): (r: Result<string, AssemblyError>)
    requires |path| > 0 && IdPath(path)
    ensures r.Success? ==> VertexName(path[0]) in seqs && forall k :: 0 <= k < |path| - 1 ==> Joined(edges, seqs, path, k)
    ensures r.Failure? && r.error.MissingEdge? ==>
      exists k :: 0 <= k < |path| - 1 && r.error == MissingEdge(path[k], path[k + 1]) && (path[k], path[k + 1]) !in edges
    ensures r.Failure? && r.error.MissingSequence? ==>
      exists k :: 0 <= k < |path| && r.error == MissingSequence(VertexName(path[k])) && VertexName(path[k]) !in seqs
  {
    match SequenceOf(seqs, path[0])
    case Failure(err) => Failure(err)
    case Success(bytes) => AssembleFrom(edges, seqs, path, 0, bytes, 0, |bytes|, "")
  }

  /** A path of one vertex is that vertex's sequence, reverse complemented
      when the vertex is the reverse orientation. */
  lemma AssembleSingle(edges: Edges, seqs: map<string, string>, vid: string)
    requires IsVertexId(vid) && VertexName(vid) in seqs
    ensures var s := seqs[VertexName(vid)];
      Assemble(edges, seqs, [vid]) == Success(if IsReverseSign(vid) then ReverseComplement(s) else s)
  {
    var s := seqs[VertexName(vid)];
    var piece := if IsReverseSign(vid) then ReverseComplement(s[0..|s|]) else s[0..|s|];
    assert s[0..|s|] == s && "" + piece == piece;
    assert Assemble(edges, seqs, [vid]) == AssembleFrom(edges, seqs, [vid], 0, s, 0, |s|, "");
  }

  /** Two forward vertices joined by an edge give the first sequence up to
      the edge's `sourceStart` and the second from its `sinkStart`. When the
      overlap reaches the end of the first and the start of the second, the
      backbone is the two lengths less the overlap. */
  lemma AssembleForwardPair(edges: Edges, seqs: map<string, string>, a: string, b: string)
    requires a in seqs && b in seqs && (Forward(a), Forward(b)) in edges
    requires var e := edges[(Forward(a), Forward(b))];
      0 <= e.sourceStart <= |seqs[a]| && 0 <= e.sinkStart <= |seqs[b]|
    ensures var e, sa, sb := edges[(Forward(a), Forward(b))], seqs[a], seqs[b];
      Assemble(edges, seqs, [Forward(a), Forward(b)]) == Success(sa[..e.sourceStart] + sb[e.sinkStart..]) &&
      (e.sourceEnd == |sa| && e.sinkStart == 0 ==>
        |sa[..e.sourceStart] + sb[e.sinkStart..]| == |sa| + |sb| - (e.sourceEnd - e.sourceStart))
  {
    OrientationsPair(a);
    OrientationsPair(b);
    var e, sa, sb := edges[(Forward(a), Forward(b))], seqs[a], seqs[b];
    var path := [Forward(a), Forward(b)];
    assert sa[0..e.sourceStart] == sa[..e.sourceStart];
    assert sb[e.sinkStart..|sb|] == sb[e.sinkStart..];
    assert "" + sa[..e.sourceStart] == sa[..e.sourceStart];
    assert AssembleFrom(edges, seqs, path, 1, sb, e.sinkStart, |sb|, sa[..e.sourceStart]) == Success(sa[..e.sourceStart] + sb[e.sinkStart..]);
    assert Assemble(edges, seqs, path) == AssembleFrom(edges, seqs, path, 0, sa, 0, |sa|, "");
  }

  /** Two reads that overlap by `ACGTTT`: `ACGTACGTTT` and `ACGTTTGGGG`, with
      the edge `(4, 10, 0, 6)`, assemble to `ACGTACGTTTGGGG`. */
  lemma AssembleExample()
    ensures Assemble(map[("A+", "B+") := OverlapEdge(4, 10, 0, 6)], map["A" := "ACGTACGTTT", "B" := "ACGTTTGGGG"], ["A+", "B+"])
      == Success("ACGTACGTTTGGGG")
  {
    var edges := map[("A+", "B+") := OverlapEdge(4, 10, 0, 6)];
    var seqs := map["A" := "ACGTACGTTT", "B" := "ACGTTTGGGG"];
    assert Forward("A") == "A+" && Forward("B") == "B+";
    AssembleForwardPair(edges, seqs, "A", "B");
    assert "ACGTACGTTT"[..4] + "ACGTTTGGGG"[0..] == "ACGTACGTTTGGGG";
  }

  /** Two reverse vertices joined by an edge give the reverse complement of
      the first sequence from the edge's `sourceEnd`, then that of the second
      up to its `sinkEnd`. */
  lemma AssembleReversePair(edges: Edges, seqs: map<string, string>, a: string, b: string)
    requires a in seqs && b in seqs && (Reverse(b), Reverse(a)) in edges
    requires var d := edges[(Reverse(b), Reverse(a))];
      0 <= d.sourceEnd <= |seqs[b]| && 0 <= d.sinkEnd <= |seqs[a]|
    ensures var d, sa, sb := edges[(Reverse(b), Reverse(a))], seqs[a], seqs[b];
      Assemble(edges, seqs, [Reverse(b), Reverse(a)]) ==
        Success(ReverseComplement(sb[d.sourceEnd..]) + ReverseComplement(sa[..d.sinkEnd]))
  {
    OrientationsPair(a);
    OrientationsPair(b);
    var d, sa, sb := edges[(Reverse(b), Reverse(a))], seqs[a], seqs[b];
    var head, tail := sa[..d.sinkEnd], sb[d.sourceEnd..];
    var path := [Reverse(b), Reverse(a)];
    assert sb[d.sourceEnd..|sb|] == tail && sa[0..d.sinkEnd] == head;
    assert "" + ReverseComplement(tail) == ReverseComplement(tail);
    assert AssembleFrom(edges, seqs, path, 1, sa, 0, d.sinkEnd, ReverseComplement(tail)) ==
      Success(ReverseComplement(tail) + ReverseComplement(head));
    assert Assemble(edges, seqs, path) == AssembleFrom(edges, seqs, path, 0, sb, 0, |sb|, "");
  }

  /** Cutting two sequences that share an aligned stretch at its start or at
      its end gives the same join. */
  lemma JoinAtOverlap(sa: string, sb: string, e: OverlapEdge)
    requires 0 <= e.sourceStart <= e.sourceEnd <= |sa| && 0 <= e.sinkStart <= e.sinkEnd <= |sb|
    requires sa[e.sourceStart..e.sourceEnd] == sb[e.sinkStart..e.sinkEnd]
    ensures sa[..e.sourceStart] + sb[e.sinkStart..] == sa[..e.sourceEnd] + sb[e.sinkEnd..]
  {
    assert sb[e.sinkStart..] == sb[e.sinkStart..e.sinkEnd] + sb[e.sinkEnd..];
    assert sa[..e.sourceEnd] == sa[..e.sourceStart] + sa[e.sourceStart..e.sourceEnd];
  }

  /** The dual of a forward pair assembles to the reverse complement of the
      forward backbone, provided the two aligned stretches are the same
      letters: the dual path reads the other strand of the same backbone. */
  lemma AssembleDualPair(edges: Edges, seqs: map<string, string>, a: string, b: string)
    requires a in seqs && b in seqs && (Forward(a), Forward(b)) in edges && (Reverse(b), Reverse(a)) in edges
    requires var e := edges[(Forward(a), Forward(b))];
      edges[(Reverse(b), Reverse(a))] == Swapped(e) &&
      0 <= e.sourceStart <= e.sourceEnd <= |seqs[a]| && 0 <= e.sinkStart <= e.sinkEnd <= |seqs[b]| &&
      seqs[a][e.sourceStart..e.sourceEnd] == seqs[b][e.sinkStart..e.sinkEnd]
    ensures var fwd := Assemble(edges, seqs, [Forward(a), Forward(b)]);
      fwd.Success? && Assemble(edges, seqs, [Reverse(b), Reverse(a)]) == Success(ReverseComplement(fwd.value))
  {
    var e, sa, sb := edges[(Forward(a), Forward(b))], seqs[a], seqs[b];
    AssembleForwardPair(edges, seqs, a, b);
    AssembleReversePair(edges, seqs, a, b);
    JoinAtOverlap(sa, sb, e);
    ReverseComplementConcat(sa[..e.sourceEnd], sb[e.sinkEnd..]);
  }

  /** The reverse complement of a concatenation is the two reverse
      complements in the other order. */
  lemma ReverseComplementConcat(x: string, y: string)
    ensures ReverseComplement(x + y) == ReverseComplement(y) + ReverseComplement(x)
  {
    var l, r := ReverseComplement(x + y), ReverseComplement(y) + ReverseComplement(x);
    forall i | 0 <= i < |l|
      ensures l[i] == r[i]
    {
      if i < |y| {
        assert (x + y)[|x + y| - 1 - i] == y[|y| - 1 - i];
      } else {
        assert (x + y)[|x + y| - 1 - i] == x[|x| - 1 - (i - |y|)];
      }
    }
  }
}
