/** The FASTA side of the layout: the pass over the input sequences that
    keeps the representatives' sequences and writes the orphans, and the
    numbered headers of everything written. */
module Backbones {
  import opened JavaStrings
  import opened VertexIds
  import opened PathAssembly

  /** A FASTA record: name (or header) and sequence. */
  type FastaRecord = (string, string)

  /** `String.join(",", path)`: the list starts with the first id and ends
      with the last. */
  function Join(path: seq<string>): (r: string)
    ensures |path| > 0 ==> path[0] <= r
    ensures |path| > 0 ==> |path[|path| - 1]| <= |r| && r[|r| - |path[|path| - 1]|..] == path[|path| - 1]
    decreases |path|
  {
    if |path| == 0 then "" else if |path| == 1 then path[0] else path[0] + "," + Join(path[1..])
  }

  /** `h` starts with the decimal digits of `id`, followed by nothing or by a
      space. */
  predicate Numbered(h: string, id: nat) {
    var digits := NatToString(id);
    digits <= h && (|h| == |digits| || h[|digits|] == ' ')
  }

  /** The header of a backbone: its number, and the ` path=[...]` list of
      its vertex ids only when the path has more than one. */
  function Header(id: nat, path: seq<string>): (h: string)
    ensures Numbered(h, id)
    ensures |path| > 1 <==> |h| > |NatToString(id)|
  {
    NatToString(id) + (if |path| > 1 then " path=[" + Join(path) + "]" else "")
  }

  /** A header carries one number: a space or the end follows the digits,
      so no number is a proper prefix of the header's number. */
  lemma NumberedUnique(h: string, i: nat, j: nat)
    requires Numbered(h, i) && Numbered(h, j)
    ensures i == j
  {
    var a, b := NatToString(i), NatToString(j);
    assert a == h[..|a|] && b == h[..|b|];
    NatToStringInjective(i, j);
  }

  /** Records numbered consecutively from `from` have pairwise different
      headers. */
  lemma NumberedDistinct(out: seq<FastaRecord>, from: nat)
    requires forall k :: 0 <= k < |out| ==> Numbered(out[k].0, from + k)
    ensures forall i, j :: 0 <= i < j < |out| ==> out[i].0 != out[j].0
  {
    forall i, j | 0 <= i < j < |out|
      ensures out[i].0 != out[j].0
    {
      if out[i].0 == out[j].0 {
        NumberedUnique(out[i].0, from + i, from + j);
      }
    }
  }

  /** `fasta[i]` is the last record of `fasta` named `n`. */
  predicate LastNamed(fasta: seq<FastaRecord>, n: string, i: int) {
    0 <= i < |fasta| && fasta[i].0 == n && forall j :: i < j < |fasta| ==> fasta[j].0 != n
  }

  /** `longestReadSeqs` after the FASTA pass: each representative's name
      mapped to the sequence of a record with that name, a later record
      overwriting an earlier one. */
  function SequencesOf(fasta: seq<FastaRecord>, reps: set<string>): (m: map<string, string>)
    ensures m.Keys <= reps
    decreases |fasta|
  {
    if |fasta| == 0 then map[]
    else
      var r := fasta[|fasta| - 1];
      var m := SequencesOf(fasta[..|fasta| - 1], reps);
      if r.0 in reps then m[r.0 := r.1] else m
  }

  /** The map holds exactly the representatives the FASTA file names, each
      with the sequence of its last record. */
  lemma {:induction false} SequencesOfLastWins(fasta: seq<FastaRecord>, reps: set<string>)
    ensures forall n :: n in SequencesOf(fasta, reps) <==> n in reps && exists i :: 0 <= i < |fasta| && fasta[i].0 == n
    ensures forall n :: n in SequencesOf(fasta, reps) ==>
      exists i :: LastNamed(fasta, n, i) && SequencesOf(fasta, reps)[n] == fasta[i].1
    decreases |fasta|
  {
    if |fasta| > 0 {
      var init, r := fasta[..|fasta| - 1], fasta[|fasta| - 1];
      SequencesOfLastWins(init, reps);
      var m := SequencesOf(fasta, reps);
      forall n
        ensures n in m <==> n in reps && exists i :: 0 <= i < |fasta| && fasta[i].0 == n
      {
        if n in reps && n != r.0 {
          if i :| 0 <= i < |fasta| && fasta[i].0 == n {
            assert init[i] == fasta[i];
          }
        }
      }
      forall n | n in m
        ensures exists i :: LastNamed(fasta, n, i) && m[n] == fasta[i].1
      {
        if n == r.0 {
          assert LastNamed(fasta, n, |fasta| - 1);
        } else {
          var i :| LastNamed(init, n, i) && SequencesOf(init, reps)[n] == init[i].1;
          assert LastNamed(fasta, n, i);
        }
      }
    }
  }

  /** An orphan: a sequence that is not a representative and that no
      alignment record names. */
  predicate IsOrphan(r: FastaRecord, reps: set<string>, lengths: map<string, int>) {
    r.0 !in reps && r.0 !in lengths
  }

  /** The orphan records of the FASTA file, in file order. */
  function Orphans(fasta: seq<FastaRecord>, reps: set<string>, lengths: map<string, int>): (o: seq<FastaRecord>)
    ensures |o| <= |fasta|
    ensures forall k :: 0 <= k < |o| ==> IsOrphan(o[k], reps, lengths)
    decreases |fasta|
  {
    if |fasta| == 0 then []
    else
      var r := fasta[|fasta| - 1];
      Orphans(fasta[..|fasta| - 1], reps, lengths) + (if IsOrphan(r, reps, lengths) then [r] else [])
  }

  /** A record is among the orphans exactly when it is in the file and is an
      orphan. */
  lemma {:induction false} OrphansKept(fasta: seq<FastaRecord>, reps: set<string>, lengths: map<string, int>)
    ensures forall r :: r in Orphans(fasta, reps, lengths) <==> r in fasta && IsOrphan(r, reps, lengths)
    decreases |fasta|
  {
    if |fasta| > 0 {
      var init := fasta[..|fasta| - 1];
      OrphansKept(init, reps, lengths);
      assert fasta == init + [fasta[|fasta| - 1]];
    }
  }

  /** The FASTA loop of the layout: keeps each representative's sequence
      and writes every orphan under the next number, starting at 1. */
  method ReadSequences(fasta: seq<FastaRecord>, reps: set<string>, lengths: map<string, int>)
    returns (seqs: map<string, string>, orphans: seq<FastaRecord>)
    ensures seqs == SequencesOf(fasta, reps)
    ensures |orphans| == |Orphans(fasta, reps, lengths)|
    ensures forall k :: 0 <= k < |orphans| ==>
      orphans[k] == (NatToString(k + 1), Orphans(fasta, reps, lengths)[k].1)
  {
    seqs, orphans := map[], [];
    var seqId := 0;
    for i := 0 to |fasta|
      invariant seqs == SequencesOf(fasta[..i], reps)
      invariant seqId == |orphans| == |Orphans(fasta[..i], reps, lengths)|
      invariant forall k :: 0 <= k < |orphans| ==>
        orphans[k] == (NatToString(k + 1), Orphans(fasta[..i], reps, lengths)[k].1)
    {
      SequencesOfStep(fasta, reps, i);
      OrphansStep(fasta, reps, lengths, i);
      ghost var before, after := Orphans(fasta[..i], reps, lengths), Orphans(fasta[..i + 1], reps, lengths);
      var (name, s) := fasta[i];
      if name in reps {
        seqs := seqs[name := s];
        assert after == before;
      } else if name !in lengths {
        seqId := seqId + 1;
        orphans := orphans + [(NatToString(seqId), s)];
        assert after == before + [fasta[i]];
      } else {
        assert after == before;
      }
    }
    assert fasta[..|fasta|] == fasta;
  }

  /** One more record of the FASTA pass, for the kept sequences. */
  lemma SequencesOfStep(fasta: seq<FastaRecord>, reps: set<string>, i: int)
    requires 0 <= i < |fasta|
    ensures SequencesOf(fasta[..i + 1], reps) ==
      if fasta[i].0 in reps then SequencesOf(fasta[..i], reps)[fasta[i].0 := fasta[i].1] else SequencesOf(fasta[..i], reps)
  {
    assert fasta[..i + 1][..i] == fasta[..i];
  }

  /** One more record of the FASTA pass, for the orphans. */
  lemma OrphansStep(fasta: seq<FastaRecord>, reps: set<string>, lengths: map<string, int>, i: int)
    requires 0 <= i < |fasta|
    ensures Orphans(fasta[..i + 1], reps, lengths) ==
      Orphans(fasta[..i], reps, lengths) + if IsOrphan(fasta[i], reps, lengths) then [fasta[i]] else []
  {
    assert fasta[..i + 1][..i] == fasta[..i];
  }

  /** The sequence names a path of vertex ids visits. */
  function NamesOn(path: seq<string>): set<string>
    requires IdPath(path)
  {
    set k | 0 <= k < |path| :: VertexName(path[k])
  }

  predicate IdPaths(paths: seq<seq<string>>) {
    forall k :: 0 <= k < |paths| ==> IdPath(paths[k])
  }

  /** Every name of `names` is on one of the paths. */
  ghost predicate Covered(names: set<string>, paths: seq<seq<string>>)
    requires IdPaths(paths)
  {
    forall n :: n in names ==> exists k :: 0 <= k < |paths| && n in NamesOn(paths[k])
  }

  /** Marking the names of one more path visited keeps every visited name
      on some path. */
  lemma CoveredStep(visited: set<string>, paths: seq<seq<string>>, path: seq<string>)
    requires IdPaths(paths) && IdPath(path) && Covered(visited, paths)
    ensures IdPaths(paths + [path]) && Covered(visited + NamesOn(path), paths + [path])
  {
    var longer := paths + [path];
    forall m | m in visited + NamesOn(path)
      ensures exists k :: 0 <= k < |longer| && m in NamesOn(longer[k])
    {
      if m in NamesOn(path) {
        assert longer[|paths|] == path;
      } else {
        var k :| 0 <= k < |paths| && m in NamesOn(paths[k]);
        assert longer[k] == paths[k];
      }
    }
  }

  /** No path starts from a name that an earlier path visited. */
  ghost predicate FreshStarts(paths: seq<seq<string>>, starts: seq<string>)
    requires IdPaths(paths) && |starts| == |paths|
  {
    forall j, k :: 0 <= j < k < |paths| ==> starts[k] !in NamesOn(paths[j])
  }

  /** A path started from a name outside `visited`, which holds every
      earlier path's names, keeps the starts fresh. */
  lemma FreshStartsStep(paths: seq<seq<string>>, starts: seq<string>, visited: set<string>, path: seq<string>, n: string)
    requires IdPaths(paths) && IdPath(path) && |starts| == |paths| && FreshStarts(paths, starts)
    requires forall k :: 0 <= k < |paths| ==> NamesOn(paths[k]) <= visited
    requires n !in visited
    ensures IdPaths(paths + [path]) && FreshStarts(paths + [path], starts + [n])
  {
    var paths', starts' := paths + [path], starts + [n];
    forall j, k | 0 <= j < k < |paths'|
      ensures starts'[k] !in NamesOn(paths'[j])
    {
      assert paths'[j] == paths[j];
      if k == |paths| {
        assert NamesOn(paths[j]) <= visited;
      } else {
        assert starts'[k] == starts[k];
      }
    }
  }

  /** The `visited` set of the path loop holds exactly the names on the paths
      laid out so far. */
  ghost predicate VisitedExactly(visited: set<string>, paths: seq<seq<string>>)
    requires IdPaths(paths)
  {
    Covered(visited, paths) && forall k :: 0 <= k < |paths| ==> NamesOn(paths[k]) <= visited
  }

  /** Marking one more path's names visited keeps `visited` exact. */
  lemma VisitedStep(visited: set<string>, paths: seq<seq<string>>, path: seq<string>)
    requires IdPaths(paths) && IdPath(path) && VisitedExactly(visited, paths)
    ensures IdPaths(paths + [path]) && VisitedExactly(visited + NamesOn(path), paths + [path])
  {
    CoveredStep(visited, paths, path);
    var paths' := paths + [path];
    forall k | 0 <= k < |paths'|
      ensures NamesOn(paths'[k]) <= visited + NamesOn(path)
    {
      if k < |paths| {
        assert paths'[k] == paths[k];
      }
    }
  }

  lemma CoveredSubset(small: set<string>, big: set<string>, paths: seq<seq<string>>)
    requires IdPaths(paths) && small <= big && Covered(big, paths)
    ensures Covered(small, paths)
  {
  }

  /** The loop over a path that marks its names visited. */
  method VisitNames(visited: set<string>, path: seq<string>) returns (visited': set<string>)
    requires IdPath(path)
    ensures visited' == visited + NamesOn(path)
  {
    visited' := visited;
    for i := 0 to |path|
      invariant visited' == visited + NamesOn(path[..i])
    {
      assert NamesOn(path[..i + 1]) == NamesOn(path[..i]) + {VertexName(path[i])} by {
        assert forall k :: 0 <= k < i ==> path[..i + 1][k] == path[..i][k];
      }
      visited' := visited' + {VertexName(path[i])};
    }
    assert path[..|path|] == path;
  }
}
