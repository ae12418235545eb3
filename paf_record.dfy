/** A pairwise alignment record in PAF column order, reused from line to line:
    `update` overwrites every field from the split columns of the next line. */
module PafRecords {
  import opened Common
  import opened JavaStrings

  /** The ten public fields of a record; a `None` name is Java's `null`. */
  datatype PafState = PafState(
    qName: Option<string>, tName: Option<string>, reverseComplemented: bool,
    qLen: int, tLen: int, qStart: int, qEnd: int, tStart: int, tEnd: int, numMatch: int)

  /** The field initialisers of a new record. */
  const Initial: PafState := PafState(None, None, false, 0, 0, 0, 0, 0, 0, -1)

  /** An exception thrown by `update`: the column array is too short, or a
      numeric column is not a 32-bit decimal integer. */
  datatype UpdateError = MissingColumn(index: nat) | NotAnInteger(index: nat)

  /** The numeric columns of a PAF line: lengths, coordinates and matches. */
  predicate IsIntColumn(i: nat) {
    i == 1 || i == 2 || i == 3 || i == 6 || i == 7 || i == 8 || i == 9
  }

  /** Assigns the field read from column `i`. */
  function SetColumn(st: PafState, i: nat, col: string): (r: Result<PafState, UpdateError>)
    requires i < 10
    ensures r.Failure? <==> IsIntColumn(i) && ParseInt(col).None?
  {
    if i == 0 then Success(st.(qName := Some(col)))
    else if i == 4 then Success(st.(reverseComplemented := col == "-"))
    else if i == 5 then Success(st.(tName := Some(col)))
    else
      match ParseInt(col)
      case None => Failure(NotAnInteger(i))
      case Some(v) =>
        Success(
          if i == 1 then st.(qLen := v)
          else if i == 2 then st.(qStart := v)
          else if i == 3 then st.(qEnd := v)
          else if i == 6 then st.(tLen := v)
          else if i == 7 then st.(tStart := v)
          else if i == 8 then st.(tEnd := v)
          else st.(numMatch := v))
  }

  /** The statements of `update` from column `i` on, in source order; the
      first failing statement stops the update and leaves the fields
      assigned so far. */
  function UpdateFrom(st: PafState, cols: seq<string>, i: nat): (res: (PafState, Option<UpdateError>))
    requires i <= 10
    ensures res.1.None? ==> i == 10 || |cols| >= 10
    ensures res.1.Some? ==> i <= res.1.value.index < 10
    ensures res.1.Some? && res.1.value.MissingColumn? ==> res.1.value.index == if i <= |cols| then |cols| else i
    ensures res.1.Some? && res.1.value.NotAnInteger? ==>
      res.1.value.index < |cols| && IsIntColumn(res.1.value.index) && ParseInt(cols[res.1.value.index]).None?
    decreases 10 - i
  {
    if i == 10 then (st, None)
    else if i >= |cols| then (st, Some(MissingColumn(i)))
    else
      match SetColumn(st, i, cols[i])
      case Failure(e) => (st, Some(e))
      case Success(next) => UpdateFrom(next, cols, i + 1)
  }

  /** The record a well-formed line describes, independent of any previous
      one: there is one exactly when the ten columns exist and the numeric
      ones parse, and it holds what each column says. */
  function Parsed(cols: seq<string>): (p: Option<PafState>)
    ensures p.Some? <==> |cols| >= 10 && forall j :: 0 <= j < 10 && IsIntColumn(j) ==> ParseInt(cols[j]).Some?
    ensures p.Some? ==> forall j :: 0 <= j < 10 ==> SetColumn(p.value, j, cols[j]) == Success(p.value)
  {
    if |cols| < 10 then None
    else
      match (ParseInt(cols[1]), ParseInt(cols[2]), ParseInt(cols[3]), ParseInt(cols[6]),
             ParseInt(cols[7]), ParseInt(cols[8]), ParseInt(cols[9]))
      case (Some(qLen), Some(qStart), Some(qEnd), Some(tLen), Some(tStart), Some(tEnd), Some(numMatch)) =>
        Some(PafState(Some(cols[0]), Some(cols[5]), cols[4] == "-",
                      qLen, tLen, qStart, qEnd, tStart, tEnd, numMatch))
      case _ => None
  }

  /** `update` succeeds exactly on lines with at least ten columns whose
      numeric columns parse; it then yields `Parsed(cols)` whatever the record
      held before (trailing columns are ignored). */
  lemma UpdateMatchesParsed(st: PafState, cols: seq<string>)
    ensures UpdateFrom(st, cols, 0).1.None? <==> Parsed(cols).Some?
    ensures Parsed(cols).Some? ==> UpdateFrom(st, cols, 0).0 == Parsed(cols).value
  {
    var s0 := st;
    if |cols| >= 10 {
      var s1 := s0.(qName := Some(cols[0]));
      assert UpdateFrom(s0, cols, 0) == UpdateFrom(s1, cols, 1);
      if ParseInt(cols[1]).Some? {
        var s2 := s1.(qLen := ParseInt(cols[1]).value);
        assert UpdateFrom(s1, cols, 1) == UpdateFrom(s2, cols, 2);
        if ParseInt(cols[2]).Some? {
          var s3 := s2.(qStart := ParseInt(cols[2]).value);
          assert UpdateFrom(s2, cols, 2) == UpdateFrom(s3, cols, 3);
          if ParseInt(cols[3]).Some? {
            var s4 := s3.(qEnd := ParseInt(cols[3]).value);
            var s5 := s4.(reverseComplemented := cols[4] == "-");
            var s6 := s5.(tName := Some(cols[5]));
            assert UpdateFrom(s3, cols, 3) == UpdateFrom(s6, cols, 6);
            if ParseInt(cols[6]).Some? {
              var s7 := s6.(tLen := ParseInt(cols[6]).value);
              assert UpdateFrom(s6, cols, 6) == UpdateFrom(s7, cols, 7);
              if ParseInt(cols[7]).Some? {
                var s8 := s7.(tStart := ParseInt(cols[7]).value);
                assert UpdateFrom(s7, cols, 7) == UpdateFrom(s8, cols, 8);
                if ParseInt(cols[8]).Some? {
                  var s9 := s8.(tEnd := ParseInt(cols[8]).value);
                  assert UpdateFrom(s8, cols, 8) == UpdateFrom(s9, cols, 9);
                }
              }
            }
          }
        }
      }
    }
  }

  /** Each field assigned from column `i` on depends only on the columns, so
      replaying the same columns reproduces the same state and error. */
  lemma {:induction false} UpdateFromIdempotent(st: PafState, cols: seq<string>, i: nat)
    requires i <= 10
    ensures var (st', e) := UpdateFrom(st, cols, i); UpdateFrom(st', cols, i) == (st', e)
    decreases 10 - i
  {
    if i < 10 && i < |cols| {
      match SetColumn(st, i, cols[i])
      case Failure(e) =>
      case Success(next) =>
        UpdateFromIdempotent(next, cols, i + 1);
        var (st', e) := UpdateFrom(next, cols, i + 1);
        UpdateFromKeeps(next, cols, i + 1, i);
        assert SetColumn(st', i, cols[i]) == Success(st');
        UpdateFromSame(st', next, cols, i);
    }
  }

  /** The fields of column `j < i` are not touched by the statements from `i` on. */
  lemma {:induction false} UpdateFromKeeps(st: PafState, cols: seq<string>, i: nat, j: nat)
    requires j < i <= 10 && j < |cols| && SetColumn(st, j, cols[j]) == Success(st)
    ensures SetColumn(UpdateFrom(st, cols, i).0, j, cols[j]) == Success(UpdateFrom(st, cols, i).0)
    decreases 10 - i
  {
    if i < 10 && i < |cols| {
      match SetColumn(st, i, cols[i])
      case Failure(e) =>
      case Success(next) =>
        assert SetColumn(next, j, cols[j]) == Success(next);
        UpdateFromKeeps(next, cols, i + 1, j);
    }
  }

  /** Starting from a state that already holds column `i`, the update from `i`
      ends where the update from `i + 1` does. */
  lemma UpdateFromSame(st': PafState, next: PafState, cols: seq<string>, i: nat)
    requires i < 10 && i < |cols| && SetColumn(st', i, cols[i]) == Success(st')
    requires UpdateFrom(st', cols, i + 1) == UpdateFrom(next, cols, i + 1)
    ensures UpdateFrom(st', cols, i) == UpdateFrom(next, cols, i + 1)
  {
  }

  /** Applying `update` twice with the same columns equals applying it once. */
  lemma UpdateIdempotent(st: PafState, cols: seq<string>)
    ensures UpdateFrom(UpdateFrom(st, cols, 0).0, cols, 0) == UpdateFrom(st, cols, 0)
  {
    UpdateFromIdempotent(st, cols, 0);
  }

  /** An alignment record as the layout reads its fields. */
  datatype Alignment = Alignment(
    qName: string, qLen: int, qStart: int, qEnd: int, reverseComplemented: bool,
    tName: string, tLen: int, tStart: int, tEnd: int, numMatch: int)

  class PafRecord {
    var qName: Option<string>
    var tName: Option<string>
    var reverseComplemented: bool
    var qLen: int
    var tLen: int
    var qStart: int
    var qEnd: int
    var tStart: int
    var tEnd: int
    var numMatch: int

    function State(): PafState
      reads this
    {
      PafState(qName, tName, reverseComplemented, qLen, tLen, qStart, qEnd, tStart, tEnd, numMatch)
    }

    constructor ()
      ensures State() == Initial
    {
      qName, tName := None, None;
      reverseComplemented := false;
      qLen, tLen, qStart, qEnd, tStart, tEnd := 0, 0, 0, 0, 0, 0;
      numMatch := -1;
    }

    /** Writes all ten fields at once. */
    method Store(st: PafState)
      modifies this
      ensures State() == st
    {
      qName, tName, reverseComplemented := st.qName, st.tName, st.reverseComplemented;
      qLen, tLen, qStart, qEnd, tStart, tEnd, numMatch := st.qLen, st.tLen, st.qStart, st.qEnd, st.tStart, st.tEnd, st.numMatch;
    }

    /** `update(cols)`: assigns the fields column by column; a missing column
        or a malformed integer stops it with an error, leaving the fields
        assigned so far. The assignments are staged in `st` and stored on
        every exit. */
    method Update(cols: seq<string>) returns (error: Option<UpdateError>)
      modifies this
      ensures (State(), error) == UpdateFrom(old(State()), cols, 0)
    {
      var st := State();
      ghost var goal := UpdateFrom(st, cols, 0);
      var v: Option<int>;
      UpdateStep(st, cols, 0);
      if |cols| <= 0 { Store(st); return Some(MissingColumn(0)); }
      st := st.(qName := Some(cols[0]));
      v := if 1 < |cols| then ParseInt(cols[1]) else None;
      UpdateStep(st, cols, 1);
      if v.None? { Store(st); return Some(if |cols| <= 1 then MissingColumn(1) else NotAnInteger(1)); }
      st := st.(qLen := v.value);
      assert goal == UpdateFrom(st, cols, 2);
      v := if 2 < |cols| then ParseInt(cols[2]) else None;
      UpdateStep(st, cols, 2);
      if v.None? { Store(st); return Some(if |cols| <= 2 then MissingColumn(2) else NotAnInteger(2)); }
      st := st.(qStart := v.value);
      v := if 3 < |cols| then ParseInt(cols[3]) else None;
      UpdateStep(st, cols, 3);
      if v.None? { Store(st); return Some(if |cols| <= 3 then MissingColumn(3) else NotAnInteger(3)); }
      st := st.(qEnd := v.value);
      assert goal == UpdateFrom(st, cols, 4);
      UpdateStep(st, cols, 4);
      if |cols| <= 4 { Store(st); return Some(MissingColumn(4)); }
      st := st.(reverseComplemented := cols[4] == "-");
      UpdateStep(st, cols, 5);
      if |cols| <= 5 { Store(st); return Some(MissingColumn(5)); }
      st := st.(tName := Some(cols[5]));
      assert goal == UpdateFrom(st, cols, 6);
      v := if 6 < |cols| then ParseInt(cols[6]) else None;
      UpdateStep(st, cols, 6);
      if v.None? { Store(st); return Some(if |cols| <= 6 then MissingColumn(6) else NotAnInteger(6)); }
      st := st.(tLen := v.value);
      v := if 7 < |cols| then ParseInt(cols[7]) else None;
      UpdateStep(st, cols, 7);
      if v.None? { Store(st); return Some(if |cols| <= 7 then MissingColumn(7) else NotAnInteger(7)); }
      st := st.(tStart := v.value);
      assert goal == UpdateFrom(st, cols, 8);
      v := if 8 < |cols| then ParseInt(cols[8]) else None;
      UpdateStep(st, cols, 8);
      if v.None? { Store(st); return Some(if |cols| <= 8 then MissingColumn(8) else NotAnInteger(8)); }
      st := st.(tEnd := v.value);
      v := if 9 < |cols| then ParseInt(cols[9]) else None;
      UpdateStep(st, cols, 9);
      if v.None? { Store(st); return Some(if |cols| <= 9 then MissingColumn(9) else NotAnInteger(9)); }
      st := st.(numMatch := v.value);
      Store(st);
      error := None;
    }
  }

  /** One statement of `update`: the column is missing, or it is assigned and
      the update goes on with the next column. */
  lemma UpdateStep(st: PafState, cols: seq<string>, i: nat)
    requires i < 10
    ensures i >= |cols| ==> UpdateFrom(st, cols, i) == (st, Some(MissingColumn(i)))
    ensures i < |cols| && SetColumn(st, i, cols[i]).Failure? ==> UpdateFrom(st, cols, i) == (st, Some(NotAnInteger(i)))
    ensures i < |cols| && SetColumn(st, i, cols[i]).Success? ==>
      UpdateFrom(st, cols, i) == UpdateFrom(SetColumn(st, i, cols[i]).value, cols, i + 1)
  {
  }

}
