/** The unambiguous paths the layout walks through the overlap graph: a
    right extension follows single successors, a left extension single
    predecessors, each stopping at a junction or at a vertex already on the
    walk. */
module Walks {
  import opened OverlapGraphs

  /** `(v, w)` is the only edge out of `v`. */
  predicate OnlySuccessor(edges: Edges, v: string, w: string) {
    OutEdges(edges, v) == {(v, w)}
  }

  /** `(w, v)` is the only edge into `v`. */
  predicate OnlyPredecessor(edges: Edges, w: string, v: string) {
    InEdges(edges, v) == {(w, v)}
  }

  predicate NoRepeats(path: seq<string>) {
    forall i, j :: 0 <= i < j < |path| ==> path[i] != path[j]
  }

  predicate Link(edges: Edges, path: seq<string>, k: int)
    requires 0 <= k < |path| - 1
  {
    (path[k], path[k + 1]) in edges
  }

  /** Consecutive vertices of `path` are joined by edges. */
  predicate Chain(edges: Edges, path: seq<string>) {
    forall k :: 0 <= k < |path| - 1 ==> Link(edges, path, k)
  }

  /** `walk[k + 1]` is the only successor of `walk[k]` and has at most one
      predecessor. */
  ghost predicate RightStep(edges: Edges, walk: seq<string>, k: int)
    requires 0 <= k < |walk| - 1
  {
    OnlySuccessor(edges, walk[k], walk[k + 1]) && |InEdges(edges, walk[k + 1])| <= 1
  }

  ghost predicate RightSteps(edges: Edges, walk: seq<string>) {
    forall k :: 0 <= k < |walk| - 1 ==> RightStep(edges, walk, k)
  }

  /** The right extension ends here: the last vertex has not exactly one
      successor, or its only successor has several predecessors or is
      already on the walk. */
  ghost predicate RightStop(edges: Edges, walk: seq<string>)
    requires |walk| > 0
  {
    var last := walk[|walk| - 1];
    |OutEdges(edges, last)| != 1 ||
    exists w :: OnlySuccessor(edges, last, w) && (|InEdges(edges, w)| > 1 || w in walk)
  }

  /** `walk[k]` is the only predecessor of `walk[k + 1]` and has at most one
      successor. */
  ghost predicate LeftStep(edges: Edges, walk: seq<string>, k: int)
    requires 0 <= k < |walk| - 1
  {
    OnlyPredecessor(edges, walk[k], walk[k + 1]) && |OutEdges(edges, walk[k])| <= 1
  }

  ghost predicate LeftSteps(edges: Edges, walk: seq<string>) {
    forall k :: 0 <= k < |walk| - 1 ==> LeftStep(edges, walk, k)
  }

  /** The left extension ends here: the first vertex has not exactly one
      predecessor, or its only predecessor has several successors or is
      already on the walk. */
  ghost predicate LeftStop(edges: Edges, walk: seq<string>)
    requires |walk| > 0
  {
    var first := walk[0];
    |InEdges(edges, first)| != 1 ||
    exists w :: OnlyPredecessor(edges, w, first) && (|OutEdges(edges, w)| > 1 || w in walk)
  }

  /** A full right extension from `walk[0]`. */
  ghost predicate RightWalk(edges: Edges, walk: seq<string>) {
    |walk| > 0 && RightSteps(edges, walk) && RightStop(edges, walk) && NoRepeats(walk)
  }

  /** A full left extension to `walk[|walk| - 1]`. */
  ghost predicate LeftWalk(edges: Edges, walk: seq<string>) {
    |walk| > 0 && LeftSteps(edges, walk) && LeftStop(edges, walk) && NoRepeats(walk)
  }

  /** The path laid out from `path[i]`: its left extension up to `i`; then,
      unless an edge from `path[i]` back to the first vertex closes a cycle,
      its right extension. */
  ghost predicate LaidOut(edges: Edges, path: seq<string>, i: int) {
    0 <= i < |path| && LeftWalk(edges, path[..i + 1]) &&
    (if (path[i], path[0]) in edges then i == |path| - 1 else RightWalk(edges, path[i..]))
  }

  /** `path` is the path laid out from the vertex `id`. */
  ghost predicate LaidOutFrom(edges: Edges, path: seq<string>, id: string) {
    exists i :: 0 <= i < |path| && path[i] == id && LaidOut(edges, path, i)
  }

  lemma SingletonOf<T>(s: set<T>, x: T)
    requires |s| == 1 && x in s
    ensures s == {x}
  {
    assert |s - {x}| == 0;
  }

  /** Appending the only successor of the last vertex, when it has at most
      one predecessor and is not yet on the walk, keeps a right walk's
      steps. */
  lemma RightStepsExtend(edges: Edges, walk: seq<string>, w: string)
    requires |walk| > 0 && RightSteps(edges, walk) && NoRepeats(walk) && w !in walk
    requires OnlySuccessor(edges, walk[|walk| - 1], w) && |InEdges(edges, w)| <= 1
    ensures RightSteps(edges, walk + [w]) && NoRepeats(walk + [w])
  {
    var longer := walk + [w];
    forall k | 0 <= k < |longer| - 1
      ensures RightStep(edges, longer, k)
    {
      if k < |walk| - 1 {
        assert RightStep(edges, walk, k);
      }
    }
  }

  /** Prepending the only predecessor of the first vertex, when it has at
      most one successor and is not yet on the walk, keeps a left walk's
      steps. */
  lemma LeftStepsExtend(edges: Edges, walk: seq<string>, w: string)
    requires |walk| > 0 && LeftSteps(edges, walk) && NoRepeats(walk) && w !in walk
    requires OnlyPredecessor(edges, w, walk[0]) && |OutEdges(edges, w)| <= 1
    ensures LeftSteps(edges, [w] + walk) && NoRepeats([w] + walk)
  {
    var longer := [w] + walk;
    forall k | 0 <= k < |longer| - 1
      ensures LeftStep(edges, longer, k)
    {
      if k > 0 {
        assert LeftStep(edges, walk, k - 1);
      }
    }
  }

  /** The right extension is determined by the graph: two walks from the
      same vertex that both satisfy its contract are the same walk. */
  lemma {:induction false} RightWalkUnique(edges: Edges, a: seq<string>, b: seq<string>)
    requires RightWalk(edges, a) && RightWalk(edges, b) && a[0] == b[0]
    ensures a == b
  {
    if |a| <= |b| {
      RightWalksAgree(edges, a, b, |a|);
      RightWalkNoLonger(edges, a, b);
    } else {
      RightWalksAgree(edges, a, b, |b|);
      RightWalkNoLonger(edges, b, a);
    }
  }

  lemma {:induction false} RightWalksAgree(edges: Edges, a: seq<string>, b: seq<string>, n: nat)
    requires RightSteps(edges, a) && RightSteps(edges, b) && |a| > 0 && |b| > 0 && a[0] == b[0]
    requires n <= |a| && n <= |b|
    ensures a[..n] == b[..n]
  {
    if n > 1 {
      RightWalksAgree(edges, a, b, n - 1);
      assert a[n - 2] == b[n - 2];
      assert RightStep(edges, a, n - 2) && RightStep(edges, b, n - 2);
      assert OutEdges(edges, a[n - 2]) == {(a[n - 2], a[n - 1])} == {(b[n - 2], b[n - 1])};
      assert (a[n - 2], b[n - 1]) in {(a[n - 2], a[n - 1])};
      assert a[..n] == a[..n - 1] + [a[n - 1]] && b[..n] == b[..n - 1] + [b[n - 1]];
    }
  }

  /** A walk that stopped cannot be a proper prefix of another one. */
  lemma RightWalkNoLonger(edges: Edges, a: seq<string>, b: seq<string>)
    requires RightWalk(edges, a) && RightSteps(edges, b) && NoRepeats(b)
    requires |a| <= |b| && a == b[..|a|]
    ensures |a| == |b|
  {
    if |a| < |b| {
      var k := |a| - 1;
      assert b[k] == a[k];
      assert RightStep(edges, b, k);
      var w :| OnlySuccessor(edges, a[k], w) && (|InEdges(edges, w)| > 1 || w in a);
    }
  }

  lemma RightStepsChain(edges: Edges, walk: seq<string>)
    requires RightSteps(edges, walk)
    ensures Chain(edges, walk)
  {
    forall k | 0 <= k < |walk| - 1
      ensures Link(edges, walk, k)
    {
      assert RightStep(edges, walk, k);
      assert (walk[k], walk[k + 1]) in OutEdges(edges, walk[k]);
    }
  }

  lemma LeftStepsChain(edges: Edges, walk: seq<string>)
    requires LeftSteps(edges, walk)
    ensures Chain(edges, walk)
  {
    forall k | 0 <= k < |walk| - 1
      ensures Link(edges, walk, k)
    {
      assert LeftStep(edges, walk, k);
      assert (walk[k], walk[k + 1]) in InEdges(edges, walk[k + 1]);
    }
  }

  /** A laid-out path follows edges from start to end and never repeats a
      vertex, even where its left and right extensions meet: the right
      extension cannot run into the left one without the cycle check
      having stopped it. */
  lemma LaidOutPath(edges: Edges, path: seq<string>, i: int)
    requires LaidOut(edges, path, i)
    ensures Chain(edges, path) && NoRepeats(path)
  {
    var left := path[..i + 1];
    LeftStepsChain(edges, left);
    if (path[i], path[0]) in edges {
      assert path == left;
    } else {
      var right := path[i..];
      RightStepsChain(edges, right);
      forall k | 0 <= k < |path| - 1
        ensures Link(edges, path, k)
      {
        if k < i {
          assert Link(edges, left, k);
          assert path[k] == left[k] && path[k + 1] == left[k + 1];
        } else {
          assert Link(edges, right, k - i);
          assert path[k] == right[k - i] && path[k + 1] == right[k - i + 1];
        }
      }
      forall x, y | 0 <= x < y < |path|
        ensures path[x] != path[y]
      {
        if y <= i {
          assert path[x] == left[x] && path[y] == left[y];
        } else if i <= x {
          assert path[x] == right[x - i] && path[y] == right[y - i];
        } else {
          assert path[x] == left[x] && path[y] == right[y - i];
          RightAvoidsLeft(edges, left, right, y - i, x);
        }
      }
    }
  }

  /** No vertex of the right extension after its start is a vertex of the
      left extension before the start: induction on the right position `j`.
      The only edge into a left vertex comes from its left neighbour, and
      the first left vertex can only be entered from the start itself, which
      is the cycle the check excludes. */
  lemma {:induction false} RightAvoidsLeft(edges: Edges, left: seq<string>, right: seq<string>, j: nat, i: nat)
    requires LeftWalk(edges, left) && RightSteps(edges, right) && NoRepeats(right)
    requires |right| > 0 && right[0] == left[|left| - 1]
    requires (left[|left| - 1], left[0]) !in edges
    requires 1 <= j < |right| && i < |left| - 1
    ensures left[i] != right[j]
    decreases j
  {
    if left[i] == right[j] {
      var v := right[j - 1];
      assert RightStep(edges, right, j - 1);
      assert (v, left[i]) in InEdges(edges, left[i]);
      if i > 0 {
        assert LeftStep(edges, left, i - 1);
        assert (v, left[i]) in {(left[i - 1], left[i])};
        if j - 1 >= 1 {
          RightAvoidsLeft(edges, left, right, j - 1, i - 1);
        }
      } else {
        SingletonOf(InEdges(edges, left[0]), (v, left[0]));
        assert OnlyPredecessor(edges, v, left[0]);
        assert |OutEdges(edges, v)| == 1;
        var w :| OnlyPredecessor(edges, w, left[0]) && (|OutEdges(edges, w)| > 1 || w in left);
        assert (v, left[0]) in {(w, left[0])};
        var m :| 0 <= m < |left| && left[m] == v;
        if j - 1 >= 1 && m < |left| - 1 {
          RightAvoidsLeft(edges, left, right, j - 1, m);
        }
      }
    }
  }
}
