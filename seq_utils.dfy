/** Nucleotide string utilities: reverse complement, strand canonicalisation,
    edit distance, GC counting, k-mers and suffix/prefix merging. */
module SeqUtils {
  import opened Common
  import opened JavaStrings

  predicate IsNucleotide(c: char) { c == 'A' || c == 'C' || c == 'G' || c == 'T' }

  predicate IsNucleotides(s: string) { forall i :: 0 <= i < |s| ==> IsNucleotide(s[i]) }

  /** A<->T, C<->G; every other character becomes the gap character N. A
      nucleotide's complement is the other base of its pair. */
  function Complement(c: char): (r: char)
    ensures IsNucleotide(r) <==> IsNucleotide(c)
    ensures IsNucleotide(c) ==> r != c && (c == 'A' || c == 'T' <==> r == 'A' || r == 'T')
    ensures !IsNucleotide(c) ==> r == 'N'
  {
    match c
    case 'A' => 'T'
    case 'C' => 'G'
    case 'G' => 'C'
    case 'T' => 'A'
    case _ => 'N'
  }

  /** The complements of `s` in reverse order. */
  function ReverseComplement(s: string): (r: string)
    ensures |r| == |s|
    ensures forall i :: 0 <= i < |s| ==> r[i] == Complement(s[|s| - 1 - i])
  {
    if |s| == 0 then "" else ReverseComplement(s[1..]) + [Complement(s[0])]
  }

  /** `reverseComplement(String)`: writes each complement from the back of a
      fresh character array. */
  method ReverseComplementString(s: string) returns (r: string)
    ensures r == ReverseComplement(s)
  {
    var n := |s|;
    var rc := new char[n];
    var i := n;
    var k := 0;
    while k < n
      invariant 0 <= k <= n && i == n - k
      invariant forall j :: i <= j < n ==> rc[j] == Complement(s[n - 1 - j])
    {
      i := i - 1;
      rc[i] := Complement(s[k]);
      k := k + 1;
    }
    r := rc[..];
  }

  /** Reverse-complementing twice restores every nucleotide and turns any
      other character into N. */
  lemma ReverseComplementTwice(s: string)
    ensures |ReverseComplement(ReverseComplement(s))| == |s|
    ensures forall i :: 0 <= i < |s| ==>
      ReverseComplement(ReverseComplement(s))[i] == if IsNucleotide(s[i]) then s[i] else 'N'
  {
    var r := ReverseComplement(s);
    forall i | 0 <= i < |s|
      ensures ReverseComplement(r)[i] == if IsNucleotide(s[i]) then s[i] else 'N'
    {
      assert ReverseComplement(r)[i] == Complement(r[|s| - 1 - i]);
    }
  }

  /** On strings over ACGT, reverse complement is an involution. */
  lemma ReverseComplementInvolution(s: string)
    requires IsNucleotides(s)
    ensures ReverseComplement(ReverseComplement(s)) == s
  {
    ReverseComplementTwice(s);
  }

  /** `smallestStrand(seq)`: the strand that does not compare greater. */
  function SmallestStrand(s: string): (r: string)
    ensures r == s || r == ReverseComplement(s)
    ensures CompareTo(r, s) <= 0 && CompareTo(r, ReverseComplement(s)) <= 0
  {
    var rc := ReverseComplement(s);
    CompareToAntisymmetric(s, rc);
    if CompareTo(s, rc) > 0 then rc else s
  }

  /** Both strands of a nucleotide string have the same canonical form. */
  lemma SmallestStrandCanonical(s: string)
    requires IsNucleotides(s)
    ensures SmallestStrand(ReverseComplement(s)) == SmallestStrand(s)
  {
    var rc := ReverseComplement(s);
    ReverseComplementInvolution(s);
    CompareToAntisymmetric(s, rc);
  }

  /** `smallestStrand(seq1, seq2)`: the read pair as given or as its reverse
      complement `(rc(seq2), rc(seq1))`, comparing `seq1` with `rc(seq2)`
      first and `seq2` with `rc(seq1)` on a tie. */
  function SmallestStrandPair(s1: string, s2: string): (r: (string, string))
    ensures r == (s1, s2) || r == (ReverseComplement(s2), ReverseComplement(s1))
  {
    var rc2 := ReverseComplement(s2);
    var c := CompareTo(s1, rc2);
    if c > 0 then (rc2, ReverseComplement(s1))
    else if c == 0 && CompareTo(s2, ReverseComplement(s1)) > 0 then (rc2, ReverseComplement(s1))
    else (s1, s2)
  }

  /** For mates of equal length, the pair choice agrees with comparing the
      concatenations `seq1 + seq2` and `rc(seq2) + rc(seq1)`. */
  lemma SmallestStrandPairByConcatenation(s1: string, s2: string)
    requires |s1| == |s2|
    ensures var rc1, rc2 := ReverseComplement(s1), ReverseComplement(s2);
      SmallestStrandPair(s1, s2) == if CompareTo(s1 + s2, rc2 + rc1) > 0 then (rc2, rc1) else (s1, s2)
  {
    CompareToConcat(s1, s2, ReverseComplement(s2), ReverseComplement(s1));
  }

  /** `min3(a, b, c)`. */
  function Min3(a: int, b: int, c: int): (m: int)
    ensures m <= a && m <= b && m <= c
    ensures m == a || m == b || m == c
  {
    if a <= b && a <= c then a else if b <= c then b else c
  }

  function Cost(s: string, t: string, i: nat, j: nat): nat
    requires i < |s| && j < |t|
  {
    if s[i] == t[j] then 0 else 1
  }

  /** The first `m + 1` cells of the work row `v1` filled in outer iteration
      `i` from the previous row `prev`. */
  function RowPrefix(s: string, t: string, i: nat, prev: seq<int>, m: nat): (r: seq<int>)
    requires i < |s| && |prev| == |t| + 1 && m <= |t|
    requires forall j :: 0 <= j < |prev| ==> prev[j] >= 0
    ensures |r| == m + 1 && r[0] == i + 1
    ensures forall j :: 0 <= j <= m ==> r[j] >= 0
    decreases m
  {
    if m == 0 then [i + 1]
    else
      var r := RowPrefix(s, t, i, prev, m - 1);
      r + [Min3(r[m - 1] + 1, prev[m] + 1, prev[m - 1] + Cost(s, t, i, m - 1))]
  }

  /** The row `v1` after outer iteration `i`. */
  function NextRow(s: string, t: string, i: nat, prev: seq<int>): (r: seq<int>)
    requires i < |s| && |prev| == |t| + 1
    requires forall j :: 0 <= j < |prev| ==> prev[j] >= 0
    ensures |r| == |t| + 1 && forall j :: 0 <= j < |r| ==> r[j] >= 0
  {
    RowPrefix(s, t, i, prev, |t|)
  }

  /** The row `v0` at the start of outer iteration `i` of `getDistance` as
      written: only the first `tLen` cells are copied back from `v1`, so the
      last cell keeps its initial value `tLen`. */
  function PrevRow(s: string, t: string, i: nat): (r: seq<int>)
    requires i <= |s|
    ensures |r| == |t| + 1 && r[|t|] == |t|
    ensures forall j :: 0 <= j < |r| ==> r[j] >= 0
  {
    if i == 0 then seq(|t| + 1, j requires 0 <= j <= |t| => j)
    else
      var p := PrevRow(s, t, i - 1);
      NextRow(s, t, i - 1, p)[..|t|] + [p[|t|]]
  }

  lemma PrevRowStep(s: string, t: string, i: nat)
    requires 0 < i <= |s|
    ensures var p := PrevRow(s, t, i - 1); PrevRow(s, t, i) == NextRow(s, t, i - 1, p)[..|t|] + [p[|t|]]
  {
  }

  /** What `getDistance(s, t, |s|, |t|)` returns. */
  function Distance(s: string, t: string): (d: int)
    ensures d >= 0
    ensures s == t ==> d == 0
    ensures |s| == 0 ==> d == |t|
    ensures |t| == 0 ==> d == |s|
  {
    if s == t then 0
    else if |s| == 0 then |t|
    else if |t| == 0 then |s|
    else NextRow(s, t, |s| - 1, PrevRow(s, t, |s| - 1))[|t|]
  }

  /** The inner loop of `getDistance`: fills `v1` from `v0` for row `i`. */
  method FillRow(s: string, t: string, i: nat, v0: array<int>, v1: array<int>)
    requires i < |s| && v0 != v1 && v0.Length == |t| + 1 && v1.Length == |t| + 1
    requires forall j :: 0 <= j < v0.Length ==> v0[j] >= 0
    modifies v1
    ensures v1[..] == NextRow(s, t, i, v0[..])
  {
    v1[0] := i + 1;
    var j := 0;
    while j < |t|
      invariant 0 <= j <= |t|
      invariant v1[..j + 1] == RowPrefix(s, t, i, v0[..], j)
    {
      var cell := Min3(v1[j] + 1, v0[j + 1] + 1, v0[j] + (if s[i] == t[j] then 0 else 1));
      RowPrefixNext(s, t, i, v0[..], v1[..j + 1], cell);
      v1[j + 1] := cell;
      assert v1[..j + 2] == v1[..j + 1] + [cell];
      j := j + 1;
    }
    assert v1[..] == v1[..|t| + 1];
  }

  /** The initial row: cell `j` holds `j`, the cost of deleting `j`
      characters of `t`. */
  method FirstRow(v0: array<int>)
    modifies v0
    ensures forall k :: 0 <= k < v0.Length ==> v0[k] == k
  {
    for j := 0 to v0.Length
      invariant forall k :: 0 <= k < j ==> v0[k] == k
    {
      v0[j] := j;
    }
  }

  /** `System.arraycopy(src, 0, dst, 0, n)`: the first `n` cells of `dst`
      become those of `src`; the rest stay. */
  method ArrayCopy(src: array<int>, dst: array<int>, n: nat)
    requires src != dst && n <= src.Length && n <= dst.Length
    modifies dst
    ensures dst[..] == src[..n] + old(dst[..])[n..]
  {
    forall k | 0 <= k < n {
      dst[k] := src[k];
    }
  }

  /** `getDistance(s, t, sLen, tLen)` with `sLen == |s|` and `tLen == |t|`,
      as its only caller passes them: two work rows and a copy of `tLen`
      cells between outer iterations. */
  method GetDistance(s: string, t: string) returns (d: int)
    ensures d == Distance(s, t)
  {
    if s == t { return 0; }
    var sLen, tLen := |s|, |t|;
    if sLen == 0 { return tLen; }
    if tLen == 0 { return sLen; }
    var v0 := new int[tLen + 1];
    var v1 := new int[tLen + 1];
    FirstRow(v0);
    assert v0[..] == PrevRow(s, t, 0);
    var i := 0;
    while i < sLen
      invariant 0 <= i <= sLen
      invariant v0[..] == PrevRow(s, t, i)
      invariant i > 0 ==> v1[..] == NextRow(s, t, i - 1, PrevRow(s, t, i - 1))
    {
      ghost var prev := v0[..];
      FillRow(s, t, i, v0, v1);
      ArrayCopy(v1, v0, tLen);
      assert prev[tLen..] == [prev[tLen]];
      PrevRowStep(s, t, i + 1);
      i := i + 1;
    }
    d := v1[tLen];
  }

  /** The Levenshtein distance between the prefixes `s[..i]` and `t[..j]`. */
  function Lev(s: string, t: string, i: nat, j: nat): (d: nat)
    requires i <= |s| && j <= |t|
    decreases i + j
  {
    if i == 0 then j
    else if j == 0 then i
    else Min3(Lev(s, t, i, j - 1) + 1, Lev(s, t, i - 1, j) + 1, Lev(s, t, i - 1, j - 1) + Cost(s, t, i - 1, j - 1))
  }

  function Levenshtein(s: string, t: string): nat {
    Lev(s, t, |s|, |t|)
  }

  /** The distance between prefixes is at least the difference of their
      lengths. */
  lemma {:induction false} LevLower(s: string, t: string, i: nat, j: nat)
    requires i <= |s| && j <= |t|
    ensures i - j <= Lev(s, t, i, j) && j - i <= Lev(s, t, i, j)
    decreases i + j
  {
    if i > 0 && j > 0 {
      LevLower(s, t, i, j - 1);
      LevLower(s, t, i - 1, j);
      LevLower(s, t, i - 1, j - 1);
    }
  }

  /** The distance between prefixes is at most the longer length. */
  lemma {:induction false} LevUpper(s: string, t: string, i: nat, j: nat)
    requires i <= |s| && j <= |t|
    ensures Lev(s, t, i, j) <= if i < j then j else i
    decreases i + j
  {
    if i > 0 && j > 0 {
      LevUpper(s, t, i - 1, j - 1);
    }
  }

  /** Row `i` of the Levenshtein table: the distances from `s[..i]` to every
      prefix of `t`. */
  function LevRow(s: string, t: string, i: nat): (r: seq<int>)
    requires i <= |s|
    ensures |r| == |t| + 1 && forall j :: 0 <= j < |r| ==> r[j] >= 0
  {
    seq(|t| + 1, j requires 0 <= j <= |t| => Lev(s, t, i, j) as int)
  }

  lemma RowPrefixStep(s: string, t: string, i: nat, prev: seq<int>, m: nat)
    requires i < |s| && |prev| == |t| + 1 && 0 < m <= |t|
    requires forall j :: 0 <= j < |prev| ==> prev[j] >= 0
    ensures var r := RowPrefix(s, t, i, prev, m - 1);
      RowPrefix(s, t, i, prev, m) == r + [Min3(r[m - 1] + 1, prev[m] + 1, prev[m - 1] + Cost(s, t, i, m - 1))]
  {
  }

  /** One cell more of the work row: the cell the inner loop writes. */
  lemma RowPrefixNext(s: string, t: string, i: nat, prev: seq<int>, row: seq<int>, cell: int)
    requires i < |s| && |prev| == |t| + 1 && 0 < |row| <= |t|
    requires forall j :: 0 <= j < |prev| ==> prev[j] >= 0
    requires row == RowPrefix(s, t, i, prev, |row| - 1)
    requires var m := |row| - 1; cell == Min3(row[m] + 1, prev[m + 1] + 1, prev[m] + Cost(s, t, i, m))
    ensures row + [cell] == RowPrefix(s, t, i, prev, |row|)
  {
    RowPrefixStep(s, t, i, prev, |row|);
  }

  lemma LevCell(s: string, t: string, i: nat, j: nat)
    requires 0 < i <= |s| && 0 < j <= |t|
    ensures Lev(s, t, i, j) == Min3(Lev(s, t, i, j - 1) + 1, Lev(s, t, i - 1, j) + 1, Lev(s, t, i - 1, j - 1) + Cost(s, t, i - 1, j - 1))
  {
  }

  /** Filling a work row from Levenshtein row `i` yields row `i + 1`. */
  lemma RowPrefixOfLevRow(s: string, t: string, i: nat, m: nat)
    requires i < |s| && m <= |t|
    ensures forall j :: 0 <= j <= m ==> RowPrefix(s, t, i, LevRow(s, t, i), m)[j] == Lev(s, t, i + 1, j)
  {
    RowPrefixOfLev(s, t, i, LevRow(s, t, i), m);
  }

  /** `prev` holds Levenshtein row `i`. */
  ghost predicate IsLevRow(s: string, t: string, i: nat, prev: seq<int>)
    requires i <= |s|
  {
    |prev| == |t| + 1 && forall j {:trigger prev[j]} :: 0 <= j < |prev| ==> prev[j] == Lev(s, t, i, j) >= 0
  }

  lemma {:induction false} RowPrefixOfLev(s: string, t: string, i: nat, prev: seq<int>, m: nat)
    requires i < |s| && m <= |t| && IsLevRow(s, t, i, prev)
    ensures forall j {:trigger RowPrefix(s, t, i, prev, m)[j]} :: 0 <= j <= m ==> RowPrefix(s, t, i, prev, m)[j] == Lev(s, t, i + 1, j)
    decreases m
  {
    if m > 0 {
      RowPrefixOfLev(s, t, i, prev, m - 1);
      RowPrefixCell(s, t, i, prev, m);
      RowPrefixExtends(s, t, i, prev, m);
      var r, r' := RowPrefix(s, t, i, prev, m - 1), RowPrefix(s, t, i, prev, m);
      forall j | 0 <= j <= m
        ensures r'[j] == Lev(s, t, i + 1, j)
      {
        if j < m {
          assert r'[j] == r[j];
        }
      }
    } else {
      assert Lev(s, t, i + 1, 0) == i + 1;
    }
  }

  /** The cell a step adds is the next Levenshtein cell. */
  lemma RowPrefixCell(s: string, t: string, i: nat, prev: seq<int>, m: nat)
    requires i < |s| && 0 < m <= |t| && IsLevRow(s, t, i, prev)
    requires RowPrefix(s, t, i, prev, m - 1)[m - 1] == Lev(s, t, i + 1, m - 1)
    ensures RowPrefix(s, t, i, prev, m)[m] == Lev(s, t, i + 1, m)
  {
    RowPrefixStep(s, t, i, prev, m);
    LevCell(s, t, i + 1, m);
    assert prev[m] == Lev(s, t, i, m) && prev[m - 1] == Lev(s, t, i, m - 1);
  }

  /** A step keeps the cells already filled. */
  lemma RowPrefixExtends(s: string, t: string, i: nat, prev: seq<int>, m: nat)
    requires i < |s| && 0 < m <= |t| && |prev| == |t| + 1
    requires forall j :: 0 <= j < |prev| ==> prev[j] >= 0
    ensures forall j :: 0 <= j < m ==> RowPrefix(s, t, i, prev, m)[j] == RowPrefix(s, t, i, prev, m - 1)[j]
  {
    RowPrefixStep(s, t, i, prev, m);
  }

  /** `getDistance` with the whole row copied back (`tLen + 1` cells), as the
      commented-out loop beside the copy intends. */
  method GetDistanceCorrected(s: string, t: string) returns (d: int)
    ensures d == Levenshtein(s, t)
  {
    if s == t {
      LevSame(s, |s|);
      return 0;
    }
    var sLen, tLen := |s|, |t|;
    if sLen == 0 { return tLen; }
    if tLen == 0 { return sLen; }
    var v0 := new int[tLen + 1];
    var v1 := new int[tLen + 1];
    FirstRow(v0);
    assert v0[..] == LevRow(s, t, 0);
    var i := 0;
    while i < sLen
      invariant 0 <= i <= sLen
      invariant v0[..] == LevRow(s, t, i)
    {
      FillRow(s, t, i, v0, v1);
      RowPrefixOfLevRow(s, t, i, tLen);
      ArrayCopy(v1, v0, tLen + 1);
      assert v0[..] == LevRow(s, t, i + 1);
      i := i + 1;
    }
    d := v0[tLen];
  }

  lemma {:induction false} LevSame(s: string, i: nat)
    requires i <= |s|
    ensures Lev(s, s, i, i) == 0
  {
    if i > 0 {
      LevSame(s, i - 1);
    }
  }

  /** The first cell of every row is the row number: the cost of deleting
      `i` characters of `s`. */
  lemma {:induction false} PrevRowFirst(s: string, t: string, i: nat)
    requires i <= |s| && |t| > 0
    ensures PrevRow(s, t, i)[0] == i
  {
    if i > 0 {
      PrevRowFirst(s, t, i - 1);
    }
  }

  /** Against a one-character target, every prefix of a run of that character
      is one deletion per extra character away. */
  lemma {:induction false} LevOfRun(s: string, i: nat)
    requires 1 <= i <= |s| && forall k :: 0 <= k < |s| ==> s[k] == 'A'
    ensures Lev(s, "A", i, 1) == i - 1
  {
    if i > 1 {
      LevOfRun(s, i - 1);
    }
  }

  /** The stale last cell: for every run of four or more `A`s against "A",
      `getDistance` returns 2, while the Levenshtein distance is one less
      than the length of the run. */
  lemma DistanceStaleCell(s: string)
    requires |s| >= 4 && forall k :: 0 <= k < |s| ==> s[k] == 'A'
    ensures Distance(s, "A") == 2
    ensures Levenshtein(s, "A") == |s| - 1
  {
    var t := "A";
    var p := PrevRow(s, t, |s| - 1);
    PrevRowFirst(s, t, |s| - 1);
    assert p == [|s| - 1, 1];
    assert RowPrefix(s, t, |s| - 1, p, 0) == [|s|];
    LevOfRun(s, |s|);
  }

  /** `a` occurs somewhere in `b`. */
  ghost predicate IsSubstring(a: string, b: string) {
    exists k :: Occurs(b, a, k)
  }

  /** `overlapMaximally(left, right, minOverlap)`: scans `left` for the first
      `minOverlap` characters of `right`; at each hit either `right` lies
      inside `left` (answer `left`) or `right` runs past the end of `left`
      (answer `left` extended by the rest of `right`). Failing that, `right`
      is the answer when it contains the shorter `left`; `None` is Java's
      `null`. A `minOverlap` outside `0..|right|` makes the first
      `substring` throw. */
  method OverlapMaximally(left: string, right: string, minOverlap: int) returns (r: Result<Option<string>, Exception>)
    ensures r.Failure? <==> !(0 <= minOverlap <= |right|)
    ensures r.Success? && r.value.Some? ==> IsSubstring(left, r.value.value) && IsSubstring(right, r.value.value)
    ensures r.Success? && r.value.Some? ==> (r.value.value == left || r.value.value == right ||
      exists j :: 0 <= j <= |right| && r.value.value == left + right[j..])
  {
    if !(0 <= minOverlap <= |right|) {
      return Failure(StringIndexOutOfBounds);
    }
    var prefix := right[..minOverlap];
    var leftLength, rightLength := |left|, |right|;
    var lowerL := 0;
    var maxLi := leftLength - minOverlap;
    assert Occurs(left, left, 0) && Occurs(right, right, 0);
    while lowerL >= 0 && lowerL <= maxLi
      invariant lowerL >= -1
      decreases if lowerL < 0 then 0 else leftLength + 1 - lowerL
    {
      lowerL := IndexOf(left, prefix, lowerL);
      if lowerL >= 0 {
        assert left[lowerL..lowerL + minOverlap] == right[..minOverlap];
        var upperL := lowerL + rightLength;
        if upperL < leftLength {
          if left[lowerL + minOverlap..upperL] == right[minOverlap..] {
            assert left[lowerL..upperL] == left[lowerL..lowerL + minOverlap] + left[lowerL + minOverlap..upperL];
            assert right == right[..minOverlap] + right[minOverlap..];
            assert Occurs(left, right, lowerL);
            return Success(Some(left));
          }
        } else {
          upperL := leftLength;
          if left[lowerL + minOverlap..upperL] == right[minOverlap..upperL - lowerL] {
            var merged := left + right[upperL - lowerL..];
            assert left[lowerL..] == left[lowerL..lowerL + minOverlap] + left[lowerL + minOverlap..upperL];
            assert right[..upperL - lowerL] == right[..minOverlap] + right[minOverlap..upperL - lowerL];
            assert merged[lowerL..lowerL + rightLength] == left[lowerL..] + right[upperL - lowerL..];
            assert right == right[..upperL - lowerL] + right[upperL - lowerL..];
            assert Occurs(merged, right, lowerL);
            assert merged[0..leftLength] == left;
            assert Occurs(merged, left, 0);
            return Success(Some(merged));
          }
        }
        lowerL := lowerL + 1;
      }
    }
    if leftLength < rightLength && Contains(right, left) {
      return Success(Some(right));
    }
    return Success(None);
  }

  /** Java's `StringIndexOutOfBoundsException`, the one exception the
      overlap scans can throw. */
  datatype Exception = StringIndexOutOfBounds

  /** `right` starting with `k + minOverlap` characters that end `left`: a
      merge of `left` and `right` with an overlap of that length. */
  predicate ValidOverlap(left: string, right: string, minOverlap: nat, k: int)
    requires minOverlap <= |left|
  {
    0 <= k <= |left| - minOverlap && k + minOverlap <= |right| &&
    right[..k + minOverlap] == left[|left| - minOverlap - k..]
  }

  /** `left + right.substring(k + minOverlap)`: `left` followed by what of
      `right` lies past an overlap of `k + minOverlap` characters. */
  function Merge(left: string, right: string, minOverlap: nat, k: nat): string
    requires k + minOverlap <= |right|
  {
    left + right[k + minOverlap..]
  }

  /** The outcome of `overlapMinimally` from scan position `ri` on, as a
      scan of every position in turn. At an occurrence `ri` of the suffix it
      merges when `ri == 0` or when `right[..ri]` ends `left`; as the code is
      written, an occurrence at `ri > li` makes `left.substring(li - ri, li)`
      throw. */
  function MinimalScan(left: string, right: string, minOverlap: nat, ri: int): Result<Option<string>, Exception>
    requires minOverlap <= |left|
    decreases |right| + 1 - ri
  {
    var li := |left| - minOverlap;
    if !(0 <= ri <= |right| - minOverlap) then Success(None)
    else if !Occurs(right, left[li..], ri) then MinimalScan(left, right, minOverlap, ri + 1)
    else if ri == 0 then Success(Some(Merge(left, right, minOverlap, 0)))
    else if li - ri < 0 then Failure(StringIndexOutOfBounds)
    else if right[..ri] == left[li - ri..li] then Success(Some(Merge(left, right, minOverlap, ri)))
    else MinimalScan(left, right, minOverlap, ri + 1)
  }

  /** Positions without an occurrence of the suffix do not change the outcome. */
  lemma {:induction false} MinimalScanSkips(left: string, right: string, minOverlap: nat, suffix: string, from: int, k: int)
    requires minOverlap <= |left| && suffix == left[|left| - minOverlap..] && 0 <= from <= k
    requires forall j :: from <= j < k ==> !Occurs(right, suffix, j)
    ensures MinimalScan(left, right, minOverlap, from) == MinimalScan(left, right, minOverlap, k)
    decreases k - from
  {
    if from < k {
      MinimalScanSkips(left, right, minOverlap, suffix, from + 1, k);
    }
  }

  /** The scan at an occurrence of the suffix. */
  lemma MinimalScanHit(left: string, right: string, minOverlap: nat, ri: int)
    requires minOverlap <= |left| && Occurs(right, left[|left| - minOverlap..], ri)
    ensures var li := |left| - minOverlap;
      MinimalScan(left, right, minOverlap, ri) ==
        if ri == 0 then Success(Some(Merge(left, right, minOverlap, 0)))
        else if li - ri < 0 then Failure(StringIndexOutOfBounds)
        else if right[..ri] == left[li - ri..li] then Success(Some(Merge(left, right, minOverlap, ri)))
        else MinimalScan(left, right, minOverlap, ri + 1)
  {
  }

  /** A hit whose preceding part of `right` does not end `left` is passed
      over. */
  lemma MinimalScanPasses(left: string, right: string, minOverlap: nat, li: int, ri: int)
    requires minOverlap <= |left| && li == |left| - minOverlap && Occurs(right, left[li..], ri)
    requires 0 < ri <= li && right[..ri] != left[li - ri..li]
    ensures MinimalScan(left, right, minOverlap, ri) == MinimalScan(left, right, minOverlap, ri + 1)
  {
  }

  /** Past the last position where the suffix fits, the outcome is `null`. */
  lemma MinimalScanPast(left: string, right: string, minOverlap: nat, ri: int)
    requires minOverlap <= |left| && ri > |right| - minOverlap
    ensures MinimalScan(left, right, minOverlap, ri) == Success(None)
  {
  }

  /** With no occurrence of the suffix left, the outcome is `null`. */
  lemma {:induction false} MinimalScanMisses(left: string, right: string, minOverlap: nat, suffix: string, from: int)
    requires minOverlap <= |left| && suffix == left[|left| - minOverlap..] && 0 <= from
    requires forall j :: from <= j ==> !Occurs(right, suffix, j)
    ensures MinimalScan(left, right, minOverlap, from) == Success(None)
    decreases |right| + 1 - from
  {
    if from <= |right| - minOverlap {
      MinimalScanMisses(left, right, minOverlap, suffix, from + 1);
    }
  }

  /** A hit of the suffix at `k` extends to a valid overlap exactly when the
      part of `right` before it ends `left` too. */
  lemma HitIsOverlap(left: string, right: string, minOverlap: nat, k: int)
    requires minOverlap <= |left| && 0 <= k <= |left| - minOverlap
    requires Occurs(right, left[|left| - minOverlap..], k)
    ensures ValidOverlap(left, right, minOverlap, k) <==> right[..k] == left[|left| - minOverlap - k..|left| - minOverlap]
  {
    var li := |left| - minOverlap;
    assert right[..k + minOverlap] == right[..k] + right[k..k + minOverlap];
    assert left[li - k..] == left[li - k..li] + left[li..];
    if ValidOverlap(left, right, minOverlap, k) {
      assert right[..k] == right[..k + minOverlap][..k];
    }
  }

  lemma OverlapIsHit(left: string, right: string, minOverlap: nat, k: int)
    requires minOverlap <= |left| && ValidOverlap(left, right, minOverlap, k)
    ensures Occurs(right, left[|left| - minOverlap..], k)
  {
    var li := |left| - minOverlap;
    assert right[k..k + minOverlap] == right[..k + minOverlap][k..];
    assert left[li..] == left[li - k..][k..];
  }

  /** A merge made from a valid overlap starts with `left` and ends with `right`. */
  lemma MergeEnds(left: string, right: string, minOverlap: nat, k: int)
    requires minOverlap <= |left| && ValidOverlap(left, right, minOverlap, k)
    ensures var m := Merge(left, right, minOverlap, k);
      left <= m && |right| <= |m| && m[|m| - |right|..] == right
  {
    var m := Merge(left, right, minOverlap, k);
    var li := |left| - minOverlap;
    assert m[|m| - |right|..] == left[li - k..] + right[k + minOverlap..];
    assert right == right[..k + minOverlap] + right[k + minOverlap..];
  }

  /** Whatever `overlapMinimally` merges comes from a valid overlap: a
      stretch at the start of `right` that ends `left`. */
  lemma {:induction false} MinimalScanMerges(left: string, right: string, minOverlap: nat, ri: int)
    requires minOverlap <= |left|
    requires MinimalScan(left, right, minOverlap, ri).Success? && MinimalScan(left, right, minOverlap, ri).value.Some?
    ensures exists k :: (ValidOverlap(left, right, minOverlap, k) &&
      MinimalScan(left, right, minOverlap, ri).value.value == Merge(left, right, minOverlap, k))
    decreases |right| + 1 - ri
  {
    var li := |left| - minOverlap;
    if !Occurs(right, left[li..], ri) {
      MinimalScanMerges(left, right, minOverlap, ri + 1);
    } else {
      MinimalScanHit(left, right, minOverlap, ri);
      if ri == 0 {
        assert left[li - 0..li] == [] && right[..0] == [];
        HitIsOverlap(left, right, minOverlap, 0);
      } else if right[..ri] == left[li - ri..li] {
        HitIsOverlap(left, right, minOverlap, ri);
      } else {
        MinimalScanMerges(left, right, minOverlap, ri + 1);
      }
    }
  }

  /** Whatever `overlapMinimally` merges starts with `left` and ends with
      `right`. */
  lemma MinimalScanEnds(left: string, right: string, minOverlap: nat, ri: int)
    requires minOverlap <= |left|
    requires MinimalScan(left, right, minOverlap, ri).Success? && MinimalScan(left, right, minOverlap, ri).value.Some?
    ensures var m := MinimalScan(left, right, minOverlap, ri).value.value;
      left <= m && |right| <= |m| && m[|m| - |right|..] == right
  {
    var m := MinimalScan(left, right, minOverlap, ri).value.value;
    MinimalScanMerges(left, right, minOverlap, ri);
    var k :| ValidOverlap(left, right, minOverlap, k) && m == Merge(left, right, minOverlap, k);
    MergeEnds(left, right, minOverlap, k);
  }

  /** `overlapMinimally(left, right, minOverlap)`: scans `right` for the last
      `minOverlap` characters of `left` and merges at the first hit whose
      preceding part of `right` also ends `left`. A `minOverlap` outside
      `0..|left|` makes the first `substring` throw. */
  method OverlapMinimally(left: string, right: string, minOverlap: int) returns (r: Result<Option<string>, Exception>)
    ensures !(0 <= minOverlap <= |left|) ==> r == Failure(StringIndexOutOfBounds)
    ensures 0 <= minOverlap <= |left| ==> r == MinimalScan(left, right, minOverlap, 0)
  {
    if !(0 <= minOverlap <= |left|) {
      return Failure(StringIndexOutOfBounds);
    }
    var li := |left| - minOverlap;
    var suffix := left[li..];
    var ri := 0;
    var maxRi := |right| - minOverlap;
    while ri >= 0 && ri <= maxRi
      invariant ri >= -1
      invariant ri >= 0 ==> MinimalScan(left, right, minOverlap, 0) == MinimalScan(left, right, minOverlap, ri)
      invariant ri == -1 ==> MinimalScan(left, right, minOverlap, 0) == Success(None)
      decreases if ri < 0 then 0 else |right| + 1 - ri
    {
      var from := ri;
      ri := IndexOf(right, suffix, ri);
      if ri == -1 {
        MinimalScanMisses(left, right, minOverlap, suffix, from);
      } else {
        MinimalScanSkips(left, right, minOverlap, suffix, from, ri);
        MinimalScanHit(left, right, minOverlap, ri);
        if ri == 0 {
          return Success(Some(Merge(left, right, minOverlap, 0)));
        } else if li - ri < 0 {
          return Failure(StringIndexOutOfBounds);
        } else if right[..ri] == left[li - ri..li] {
          return Success(Some(Merge(left, right, minOverlap, ri)));
        }
        MinimalScanPasses(left, right, minOverlap, li, ri);
        ri := ri + 1;
      }
    }
    if ri >= 0 {
      MinimalScanPast(left, right, minOverlap, ri);
    }
    return Success(None);
  }

  /** A hit past `li` throws although no overlap exists there: merging "AB"
      with "CCB" over one base ends in an exception instead of `null`. */
  lemma MinimalScanThrows()
    ensures MinimalScan("AB", "CCB", 1, 0) == Failure(StringIndexOutOfBounds)
    ensures forall k :: !ValidOverlap("AB", "CCB", 1, k)
  {
    var left, right := "AB", "CCB";
    assert left[1..] == "B";
    assert right[2..3] == "B";
    assert Find(right, "B", 2) == 2;
    assert right[1..2] == "C";
    assert Find(right, "B", 1) == 2;
    assert right[0..1] == "C";
    assert Find(right, "B", 0) == 2;
    assert IndexOf(right, left[1..], 0) == 2;
  }

  /** No overlap is shorter than `k + minOverlap` characters. */
  ghost predicate NoOverlapBelow(left: string, right: string, minOverlap: nat, n: int)
    requires minOverlap <= |left|
  {
    forall j :: 0 <= j < n ==> !ValidOverlap(left, right, minOverlap, j)
  }

  /** Positions without a hit of the suffix are no overlaps. */
  lemma NoOverlapBetween(left: string, right: string, minOverlap: nat, from: int, to: int)
    requires minOverlap <= |left| && 0 <= from <= to && NoOverlapBelow(left, right, minOverlap, from)
    requires forall j :: from <= j < to ==>
      !Occurs(right, left[|left| - minOverlap..], j) || !ValidOverlap(left, right, minOverlap, j)
    ensures NoOverlapBelow(left, right, minOverlap, to)
  {
    forall j | from <= j < to && ValidOverlap(left, right, minOverlap, j)
      ensures false
    {
      OverlapIsHit(left, right, minOverlap, j);
    }
  }

  /** With no hit of the suffix left, there is no overlap at all. */
  lemma NoOverlapAfter(left: string, right: string, minOverlap: nat, suffix: string, from: int)
    requires minOverlap <= |left| && suffix == left[|left| - minOverlap..]
    requires 0 <= from && NoOverlapBelow(left, right, minOverlap, from)
    requires forall j :: from <= j ==> !Occurs(right, suffix, j)
    ensures forall j :: !ValidOverlap(left, right, minOverlap, j)
  {
    forall j | from <= j && ValidOverlap(left, right, minOverlap, j)
      ensures false
    {
      OverlapIsHit(left, right, minOverlap, j);
    }
  }

  /** The merge at the first valid overlap is the smallest merge, and starts
      with `left` and ends with `right`. */
  lemma FirstOverlap(left: string, right: string, minOverlap: nat, k: int)
    requires minOverlap <= |left| && ValidOverlap(left, right, minOverlap, k) && NoOverlapBelow(left, right, minOverlap, k)
    ensures var m := Merge(left, right, minOverlap, k);
      (exists k' :: && ValidOverlap(left, right, minOverlap, k')
        && (forall j :: 0 <= j < k' ==> !ValidOverlap(left, right, minOverlap, j))
        && m == Merge(left, right, minOverlap, k')) &&
      left <= m && |right| <= |m| && m[|m| - |right|..] == right
  {
    MergeEnds(left, right, minOverlap, k);
  }

  /** `overlapMinimally` with a hit past `li` treated as a mismatch: merges at
      the smallest valid overlap, and answers `None` only when there is none. */
  method OverlapMinimallyChecked(left: string, right: string, minOverlap: int)
    returns (r: Result<Option<string>, Exception>)
    ensures r.Failure? <==> !(0 <= minOverlap <= |left|)
    ensures r.Success? && r.value.Some? ==> exists k ::
      && ValidOverlap(left, right, minOverlap, k)
      && (forall j :: 0 <= j < k ==> !ValidOverlap(left, right, minOverlap, j))
      && r.value.value == Merge(left, right, minOverlap, k)
    ensures r.Success? && r.value.Some? ==>
      left <= r.value.value && |right| <= |r.value.value| && r.value.value[|r.value.value| - |right|..] == right
    ensures r.Success? && r.value.None? ==> forall k :: !ValidOverlap(left, right, minOverlap, k)
  {
    if !(0 <= minOverlap <= |left|) {
      return Failure(StringIndexOutOfBounds);
    }
    var li := |left| - minOverlap;
    var suffix := left[li..];
    var ri := 0;
    var maxRi := |right| - minOverlap;
    while ri >= 0 && ri <= maxRi
      invariant ri >= -1
      invariant ri >= 0 ==> NoOverlapBelow(left, right, minOverlap, ri)
      invariant ri == -1 ==> forall j :: !ValidOverlap(left, right, minOverlap, j)
      decreases if ri < 0 then 0 else |right| + 1 - ri
    {
      var from := ri;
      ri := IndexOf(right, suffix, ri);
      if ri == -1 {
        NoOverlapAfter(left, right, minOverlap, suffix, from);
      } else {
        NoOverlapBetween(left, right, minOverlap, from, ri);
        if ri <= li {
          HitIsOverlap(left, right, minOverlap, ri);
          if ri == 0 || right[..ri] == left[li - ri..li] {
            FirstOverlap(left, right, minOverlap, ri);
            return Success(Some(Merge(left, right, minOverlap, ri)));
          }
        }
        assert !ValidOverlap(left, right, minOverlap, ri);
        NoOverlapBetween(left, right, minOverlap, ri, ri + 1);
        ri := ri + 1;
      }
    }
    return Success(None);
  }

  /** `getAltNucleotides(c)`: the other three nucleotides of a nucleotide, all
      four for anything else. */
  function AltNucleotides(c: char): (r: string)
    ensures IsNucleotides(r)
    ensures IsNucleotide(c) ==> |r| == 3 && c !in r
    ensures IsNucleotide(c) ==> forall d :: IsNucleotide(d) && d != c ==> d in r
    ensures !IsNucleotide(c) ==> r == "ACGT"
  {
    match c
    case 'A' => "CGT"
    case 'C' => "AGT"
    case 'G' => "ACT"
    case 'T' => "ACG"
    case _ => "ACGT"
  }

  predicate IsGC(c: char) { c == 'C' || c == 'G' }

  /** Number of C and G characters of `s`. */
  function CountGC(s: string): (n: nat)
    ensures n <= |s|
  {
    if |s| == 0 then 0 else CountGC(s[..|s| - 1]) + (if IsGC(s[|s| - 1]) then 1 else 0)
  }

  lemma {:induction false} CountGCAppend(s: string, t: string)
    ensures CountGC(s + t) == CountGC(s) + CountGC(t)
    decreases |t|
  {
    if |t| == 0 {
      assert s + t == s;
    } else {
      assert (s + t)[..|s + t| - 1] == s + t[..|t| - 1];
      CountGCAppend(s, t[..|t| - 1]);
    }
  }

  /** The GC count of a reverse complement equals that of the original. */
  lemma {:induction false} CountGCReverseComplement(s: string)
    ensures CountGC(ReverseComplement(s)) == CountGC(s)
    decreases |s|
  {
    if |s| > 0 {
      var rest := ReverseComplement(s[1..]);
      CountGCReverseComplement(s[1..]);
      CountGCAppend(rest, [Complement(s[0])]);
      CountGCAppend([s[0]], s[1..]);
      assert [s[0]] + s[1..] == s;
      CountGCOne(s[0]);
      CountGCOne(Complement(s[0]));
    }
  }

  /** One base counts when it is `C` or `G`, and so does its complement. */
  lemma CountGCOne(c: char)
    ensures CountGC([c]) == (if IsGC(c) then 1 else 0)
    ensures IsGC(Complement(c)) == IsGC(c)
  {
    assert [c][..0] == [];
  }

  /** `getNumGC(seq)`. */
  method NumGC(s: string) returns (n: int)
    ensures n == CountGC(s)
  {
    n := 0;
    var i := 0;
    while i < |s|
      invariant 0 <= i <= |s| && n == CountGC(s[..i])
    {
      assert s[..i + 1][..i] == s[..i];
      if s[i] == 'C' || s[i] == 'G' {
        n := n + 1;
      }
      i := i + 1;
    }
    assert s[..i] == s;
  }

  /** `isLowComplexityShort(seq)`: at most one GC, or at most one non-GC. */
  method IsLowComplexityShort(s: string) returns (b: bool)
    ensures b <==> CountGC(s) <= 1 || CountGC(s) >= |s| - 1
  {
    var numGC := NumGC(s);
    b := numGC <= 1 || numGC >= |s| - 1;
  }

  /** `isHomoPolymer(seq)`: every character equals the first one. */
  method IsHomoPolymer(s: string) returns (b: bool)
    requires |s| > 0
    ensures b <==> forall i :: 0 <= i < |s| ==> s[i] == s[0]
  {
    var c := s[0];
    var i := 1;
    while i < |s|
      invariant 1 <= i <= |s|
      invariant forall j :: 0 <= j < i ==> s[j] == c
    {
      if s[i] != c {
        return false;
      }
      i := i + 1;
    }
    return true;
  }

  /** `getNumKmers(seq, k)`: a sequence has a k-mer exactly when it is at
      least `k` long, and `getSeqLength` gives its length back. */
  function NumKmers(s: string, k: int): (n: int)
    ensures n >= 1 <==> k <= |s|
    ensures SeqLength(n, k) == |s|
  {
    |s| - k + 1
  }

  /** `getSeqLength(numKmers, k)`: a sequence with at least one k-mer is at
      least `k` long. */
  function SeqLength(numKmers: int, k: int): (len: int)
    ensures numKmers >= 1 <==> len >= k
  {
    k + numKmers - 1
  }

  /** The two k-mer counting helpers are inverse to each other. */
  lemma SeqLengthOfNumKmers(s: string, k: int)
    ensures SeqLength(NumKmers(s, k), k) == |s|
    ensures NumKmers(s, k) >= 1 <==> k <= |s|
  {
  }

  /** `getFirstKmer(seq, k)`. */
  function FirstKmer(s: string, k: int): (r: string)
    requires 0 <= k <= |s|
    ensures |r| == k && r <= s
  {
    s[..k]
  }

  /** `getLastKmer(seq, k)`. */
  function LastKmer(s: string, k: int): (r: string)
    requires 0 <= k <= |s|
    ensures |r| == k && s == s[..|s| - k] + r
  {
    s[|s| - k..]
  }

  /** The k-mers of `s` in order: the substrings of length `k` at every start. */
  function Kmers(s: string, k: nat): (r: seq<string>)
    requires k <= |s| + 1
    ensures |r| == NumKmers(s, k)
    ensures forall i :: 0 <= i < |r| ==> |r[i]| == k && s[i..i + k] == r[i]
  {
    seq(|s| - k + 1, i requires 0 <= i <= |s| - k => s[i..i + k])
  }

  /** The first and last k-mers are those of `getFirstKmer`/`getLastKmer`, and
      consecutive k-mers overlap by `k - 1` characters. */
  lemma KmersEnds(s: string, k: nat)
    requires 0 < k <= |s|
    ensures Kmers(s, k)[0] == FirstKmer(s, k)
    ensures Kmers(s, k)[|Kmers(s, k)| - 1] == LastKmer(s, k)
    ensures forall i :: 0 <= i < |Kmers(s, k)| - 1 ==> Kmers(s, k)[i][1..] == Kmers(s, k)[i + 1][..k - 1]
  {
  }

  /** `kmerize(seq, k)`: fills an array with every k-mer. */
  method Kmerize(s: string, k: int) returns (kmers: array<string>)
    requires 0 <= k <= |s| + 1
    ensures kmers.Length == NumKmers(s, k)
    ensures forall i :: 0 <= i < kmers.Length ==> kmers[i] == s[i..i + k]
    ensures kmers[..] == Kmers(s, k)
  {
    var numKmers := |s| - k + 1;
    kmers := new string[numKmers];
    var i := 0;
    while i < numKmers
      invariant 0 <= i <= numKmers
      invariant forall j :: 0 <= j < i ==> kmers[j] == s[j..j + k]
    {
      kmers[i] := s[i..i + k];
      i := i + 1;
    }
  }

  /** `KmerSeqIterator`: walks the k-mers of a sequence with a cursor `i`.
      The sequence of a cursor made with only `k` is Java's `null`; it has no
      k-mers to yield. */
  class KmerSeqIterator {
    var s: string
    const k: nat
    var i: int
    var numKmers: int

    ghost predicate Valid()
      reads this
    {
      0 <= i && (numKmers > 0 ==> numKmers == NumKmers(s, k))
    }

    /** The k-mers still to be returned by `next`. */
    ghost function Remaining(): seq<string>
      reads this
      requires Valid()
    {
      if i < numKmers then Kmers(s, k)[i..] else []
    }

    /** `KmerSeqIterator(k)`: nothing to iterate until `initialize`. */
    constructor WithK(k: nat)
      ensures Valid() && this.k == k && i == 0 && numKmers == 0
      ensures !HasNext() && Remaining() == []
    {
      this.k := k;
      s := "";
      i := 0;
      numKmers := 0;
    }

    /** `KmerSeqIterator(seq, k)`. */
    constructor (s: string, k: nat)
      ensures Valid() && this.k == k && this.s == s && i == 0
      ensures numKmers == NumKmers(s, k)
      ensures Remaining() == if k <= |s| then Kmers(s, k) else []
    {
      this.k := k;
      this.s := s;
      numKmers := |s| - k + 1;
      i := 0;
    }

    /** `initialize(seq)`: start over on a new sequence. */
    method Initialize(s: string)
      requires Valid()
      modifies this
      ensures Valid() && this.s == s && i == 0 && numKmers == NumKmers(s, k)
      ensures Remaining() == if k <= |s| then Kmers(s, k) else []
    {
      this.s := s;
      numKmers := |s| - k + 1;
      i := 0;
    }

    /** `hasNext()`: true exactly while k-mers remain. */
    predicate HasNext(): (b: bool)
      reads this
      ensures Valid() ==> (b <==> Remaining() != [])
    {
      i < numKmers
    }

    /** `next()`: the k-mer at the cursor; the cursor advances by one. */
    method Next() returns (kmer: string)
      requires Valid() && HasNext()
      modifies this
      ensures Valid() && s == old(s) && numKmers == old(numKmers) && i == old(i) + 1
      ensures kmer == old(Remaining())[0] && Remaining() == old(Remaining())[1..]
    {
      var j := i;
      i := i + 1;
      kmer := s[j..j + k];
    }

    /** `reset()`: the cursor goes back to the first k-mer. */
    method Reset()
      requires Valid()
      modifies this
      ensures Valid() && s == old(s) && numKmers == old(numKmers) && i == 0
      ensures Remaining() == if k <= |s| && numKmers > 0 then Kmers(s, k) else []
    {
      i := 0;
    }
  }

  /** Moving the head of `rest` to the end of `done` keeps their concatenation. */
  lemma MoveHead<T>(done: seq<T>, rest: seq<T>, tail: seq<T>)
    requires |rest| > 0 && tail == rest[1..]
    ensures done + rest == (done + [rest[0]]) + tail
  {
    assert rest == [rest[0]] + tail;
  }

  /** Draining a freshly initialised iterator yields exactly `kmerize(seq, k)`,
      after which `hasNext` is false. */
  method DrainKmers(it: KmerSeqIterator) returns (out: seq<string>)
    requires it.Valid() && it.i == 0
    modifies it
    ensures it.Valid() && !it.HasNext()
    ensures out == old(it.Remaining())
  {
    ghost var all := it.Remaining();
    out := [];
    while it.HasNext()
      invariant it.Valid()
      invariant out + it.Remaining() == all
      decreases it.numKmers - it.i
    {
      ghost var rest := it.Remaining();
      var kmer := it.Next();
      MoveHead(out, rest, it.Remaining());
      out := out + [kmer];
    }
  }
}
