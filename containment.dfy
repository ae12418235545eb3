/** The single pass of the layout over the alignment records: it records every
    sequence's length, keeps for each contained sequence the best container
    seen so far, and keeps the dovetail records whose sequences are not yet
    known to be contained. Then the representative set: the sequences that
    become graph vertices. */
module Containment {
  import opened JavaStrings
  import opened PafRecords
  import opened LayoutRecords

  /** The three collections the pass fills: `lengths` (id to length),
      `longestAlts` (contained id to its best container) and the dovetail
      records in stream order. */
  datatype Gathered = Gathered(lengths: map<string, int>, longestAlts: map<string, string>, dovetails: seq<Alignment>)

  const Empty: Gathered := Gathered(map[], map[], [])

  /** Containers are ranked by length and then by `compareTo` on the id:
      `(len, name)` outranks `(altLen, alt)` when it is longer, or as long
      and greater. */
  predicate Outranks(len: int, name: string, altLen: int, alt: string) {
    altLen < len || (altLen == len && CompareTo(name, alt) > 0)
  }

  lemma OutranksTransitive(aLen: int, a: string, bLen: int, b: string, cLen: int, c: string)
    requires Outranks(aLen, a, bLen, b) && Outranks(bLen, b, cLen, c)
    ensures Outranks(aLen, a, cLen, c)
  {
    if aLen == bLen && bLen == cLen {
      CompareToTransitive(a, b, c);
    }
  }

  lemma OutranksIrreflexive(len: int, name: string)
    ensures !Outranks(len, name, len, name)
  {
  }

  /** Which side of a containment record is the container: the query when it
      is longer, or as long and greater by `compareTo`. */
  predicate QueryContains(r: Alignment) {
    r.qLen > r.tLen || (r.qLen == r.tLen && CompareTo(r.qName, r.tName) > 0)
  }

  function Shorter(r: Alignment): string {
    if QueryContains(r) then r.tName else r.qName
  }

  function Longer(r: Alignment): string {
    if QueryContains(r) then r.qName else r.tName
  }

  function LongerLen(r: Alignment): int {
    if QueryContains(r) then r.qLen else r.tLen
  }

  /** The containment test of the mode: stranded or not. */
  predicate ContainmentIn(c: Config, stranded: bool, r: Alignment) {
    if stranded then IsStrandedContainment(c, r) else IsContainment(c, r)
  }

  /** The dovetail test of the mode. */
  predicate DovetailIn(c: Config, stranded: bool, r: Alignment) {
    if stranded then IsStrandedDovetail(c, r) else IsDovetail(c, r)
  }

  /** Every stored container has a length: `lengths.get(alt)` never misses. */
  predicate AltsKnown(g: Gathered) {
    forall s :: s in g.longestAlts ==> g.longestAlts[s] in g.lengths
  }

  /** One record of the pass: both lengths are stored (the target's last);
      a containment record updates the container of its shorter side when
      there is none yet or the new one outranks it; any other record is kept
      as a dovetail when neither of its ids is known to be contained and it
      passes the dovetail test. */
  function Gather(c: Config, stranded: bool, g: Gathered, r: Alignment): (g': Gathered)
    requires AltsKnown(g)
    ensures AltsKnown(g')
  {
    var lengths := g.lengths[r.qName := r.qLen][r.tName := r.tLen];
    if ContainmentIn(c, stranded, r) then
      var shorter := Shorter(r);
      if shorter in g.longestAlts then
        var alt := g.longestAlts[shorter];
        if Outranks(LongerLen(r), Longer(r), lengths[alt], alt) then
          Gathered(lengths, g.longestAlts[shorter := Longer(r)], g.dovetails)
        else
          Gathered(lengths, g.longestAlts, g.dovetails)
      else
        Gathered(lengths, g.longestAlts[shorter := Longer(r)], g.dovetails)
    else if r.qName !in g.longestAlts && r.tName !in g.longestAlts && DovetailIn(c, stranded, r) then
      Gathered(lengths, g.longestAlts, g.dovetails + [r])
    else
      Gathered(lengths, g.longestAlts, g.dovetails)
  }

  /** The pass over a whole record stream. */
  function GatherAll(c: Config, stranded: bool, records: seq<Alignment>): (g: Gathered)
    ensures AltsKnown(g)
  {
    if |records| == 0 then Empty
    else Gather(c, stranded, GatherAll(c, stranded, records[..|records| - 1]), records[|records| - 1])
  }

  /** The record loop of `layoutBackbones` / `layoutStrandedBackbones`, over
      three local collections. */
  method GatherRecords(c: Config, stranded: bool, records: seq<Alignment>)
    returns (lengths: map<string, int>, longestAlts: map<string, string>, dovetails: seq<Alignment>)
    ensures Gathered(lengths, longestAlts, dovetails) == GatherAll(c, stranded, records)
  {
    lengths, longestAlts, dovetails := map[], map[], [];
    var i := 0;
    while i < |records|
      invariant 0 <= i <= |records|
      invariant Gathered(lengths, longestAlts, dovetails) == GatherAll(c, stranded, records[..i])
    {
      assert records[..i + 1][..i] == records[..i];
      lengths, longestAlts, dovetails := GatherRecord(c, stranded, lengths, longestAlts, dovetails, records[i]);
      i := i + 1;
    }
    assert records[..i] == records;
  }

  /** The body of the record loop for one record `r`. */
  method GatherRecord(c: Config, stranded: bool, lengths0: map<string, int>, longestAlts0: map<string, string>,
                      dovetails0: seq<Alignment>, r: Alignment)
    returns (lengths: map<string, int>, longestAlts: map<string, string>, dovetails: seq<Alignment>)
    requires AltsKnown(Gathered(lengths0, longestAlts0, dovetails0))
    ensures Gathered(lengths, longestAlts, dovetails) == Gather(c, stranded, Gathered(lengths0, longestAlts0, dovetails0), r)
  {
    lengths, longestAlts, dovetails := lengths0, longestAlts0, dovetails0;
    lengths := lengths[r.qName := r.qLen];
    lengths := lengths[r.tName := r.tLen];
    if ContainmentIn(c, stranded, r) {
      var shorter, longer, longerLen;
      if r.qLen > r.tLen || (r.qLen == r.tLen && CompareTo(r.qName, r.tName) > 0) {
        shorter, longer, longerLen := r.tName, r.qName, r.qLen;
      } else {
        shorter, longer, longerLen := r.qName, r.tName, r.tLen;
      }
      if shorter in longestAlts {
        var alt := longestAlts[shorter];
        var altLen := lengths[alt];
        if altLen < longerLen || (altLen == longerLen && CompareTo(longer, alt) > 0) {
          longestAlts := longestAlts[shorter := longer];
        }
      } else {
        longestAlts := longestAlts[shorter := longer];
      }
    } else if r.qName !in longestAlts && r.tName !in longestAlts && DovetailIn(c, stranded, r) {
      dovetails := dovetails + [r];
    }
  }

  /** The records agree with one length per id. */
  predicate LengthsAgree(records: seq<Alignment>, lens: map<string, int>) {
    forall i :: 0 <= i < |records| ==>
      records[i].qName in lens && lens[records[i].qName] == records[i].qLen &&
      records[i].tName in lens && lens[records[i].tName] == records[i].tLen
  }

  /** `lengths` holds the agreed length of exactly the ids seen. */
  ghost predicate SeenLengths(records: seq<Alignment>, lens: map<string, int>, g: Gathered) {
    (forall n :: n in g.lengths <==> exists i :: 0 <= i < |records| && (records[i].qName == n || records[i].tName == n)) &&
    (forall n :: n in g.lengths ==> n in lens && g.lengths[n] == lens[n])
  }

  /** A contained id is exactly the shorter side of some containment record. */
  ghost predicate ContainedIds(c: Config, stranded: bool, records: seq<Alignment>, g: Gathered) {
    forall s :: s in g.longestAlts <==> exists i :: 0 <= i < |records| && ContainmentIn(c, stranded, records[i]) && Shorter(records[i]) == s
  }

  /** The `i`-th record is a containment record with sides `s` and `l`. */
  predicate ContainsAt(c: Config, stranded: bool, records: seq<Alignment>, i: int, s: string, l: string) {
    0 <= i < |records| && ContainmentIn(c, stranded, records[i]) && Shorter(records[i]) == s && Longer(records[i]) == l
  }

  /** Each stored container is the longer side of a containment record whose
      shorter side is the contained id. */
  ghost predicate AltsWitnessed(c: Config, stranded: bool, records: seq<Alignment>, g: Gathered) {
    forall s :: s in g.longestAlts ==> exists i :: ContainsAt(c, stranded, records, i, s, g.longestAlts[s])
  }

  /** No containment record naming `s` as its shorter side has a longer side
      that outranks the stored container of `s`. */
  ghost predicate AltsBest(c: Config, stranded: bool, records: seq<Alignment>, lens: map<string, int>, g: Gathered) {
    forall s, i :: s in g.longestAlts && 0 <= i < |records| && ContainmentIn(c, stranded, records[i]) && Shorter(records[i]) == s ==>
      g.longestAlts[s] in lens && !Outranks(LongerLen(records[i]), Longer(records[i]), lens[g.longestAlts[s]], g.longestAlts[s])
  }

  /** What the pass has established once lengths agree. */
  ghost predicate BestContainers(c: Config, stranded: bool, records: seq<Alignment>, lens: map<string, int>, g: Gathered) {
    SeenLengths(records, lens, g) && ContainedIds(c, stranded, records, g) &&
    AltsWitnessed(c, stranded, records, g) && AltsBest(c, stranded, records, lens, g)
  }

  /** The length a record gives its longer side is that side's agreed length. */
  lemma LongerLenAgrees(r: Alignment, lens: map<string, int>)
    requires r.qName in lens && lens[r.qName] == r.qLen && r.tName in lens && lens[r.tName] == r.tLen
    ensures Longer(r) in lens && LongerLen(r) == lens[Longer(r)]
  {
  }

  /** For each contained id, the pass keeps the container that is greatest
      by (length, id) over all containment records naming it as the shorter
      side, provided each id always comes with the same length. */
  lemma {:induction false} GatherAllBest(c: Config, stranded: bool, records: seq<Alignment>, lens: map<string, int>)
    requires LengthsAgree(records, lens)
    ensures BestContainers(c, stranded, records, lens, GatherAll(c, stranded, records))
  {
    if |records| > 0 {
      var n := |records| - 1;
      var init, r := records[..n], records[n];
      assert init + [r] == records;
      assert LengthsAgree(init, lens) by {
        forall i | 0 <= i < |init| ensures init[i] == records[i] {}
      }
      GatherAllBest(c, stranded, init, lens);
      var g := GatherAll(c, stranded, init);
      var g' := GatherAll(c, stranded, records);
      assert g' == Gather(c, stranded, g, r);
      assert r.qName in lens && lens[r.qName] == r.qLen && r.tName in lens && lens[r.tName] == r.tLen;
      SeenLengthsStep(init, r, lens, g, g'.lengths);
      ContainedIdsStep(c, stranded, init, r, g, g');
      AltsWitnessedStep(c, stranded, init, r, g, g');
      GatherAltsUpdate(c, stranded, g, r);
      AltsBestStep(c, stranded, init, r, lens, g.longestAlts, g'.lengths, g'.longestAlts);
    }
  }

  lemma SeenLengthsStep(init: seq<Alignment>, r: Alignment, lens: map<string, int>, g: Gathered, lengths': map<string, int>)
    requires SeenLengths(init, lens, g)
    requires r.qName in lens && lens[r.qName] == r.qLen && r.tName in lens && lens[r.tName] == r.tLen
    requires lengths' == g.lengths[r.qName := r.qLen][r.tName := r.tLen]
    ensures SeenLengths(init + [r], lens, g.(lengths := lengths'))
  {
    var records := init + [r];
    forall n ensures n in lengths' <==> exists i :: 0 <= i < |records| && (records[i].qName == n || records[i].tName == n)
    {
      if n in g.lengths {
        var i :| 0 <= i < |init| && (init[i].qName == n || init[i].tName == n);
        assert records[i] == init[i];
      }
      if n == r.qName || n == r.tName {
        assert records[|init|] == r;
      }
      if exists i :: 0 <= i < |records| && (records[i].qName == n || records[i].tName == n) {
        var i :| 0 <= i < |records| && (records[i].qName == n || records[i].tName == n);
        if i < |init| {
          assert records[i] == init[i];
        }
      }
    }
  }

  lemma ContainedIdsStep(c: Config, stranded: bool, init: seq<Alignment>, r: Alignment, g: Gathered, g': Gathered)
    requires AltsKnown(g) && ContainedIds(c, stranded, init, g)
    requires g' == Gather(c, stranded, g, r)
    ensures ContainedIds(c, stranded, init + [r], g')
  {
    var records := init + [r];
    forall s ensures s in g'.longestAlts <==> exists i :: 0 <= i < |records| && ContainmentIn(c, stranded, records[i]) && Shorter(records[i]) == s
    {
      if s in g.longestAlts {
        var i :| 0 <= i < |init| && ContainmentIn(c, stranded, init[i]) && Shorter(init[i]) == s;
        assert records[i] == init[i];
      }
      if ContainmentIn(c, stranded, r) && Shorter(r) == s {
        assert records[|init|] == r;
      }
      if exists i :: 0 <= i < |records| && ContainmentIn(c, stranded, records[i]) && Shorter(records[i]) == s {
        var i :| 0 <= i < |records| && ContainmentIn(c, stranded, records[i]) && Shorter(records[i]) == s;
        if i < |init| {
          assert records[i] == init[i];
        }
      }
    }
  }

  lemma AltsWitnessedStep(c: Config, stranded: bool, init: seq<Alignment>, r: Alignment, g: Gathered, g': Gathered)
    requires AltsKnown(g) && AltsWitnessed(c, stranded, init, g)
    requires g' == Gather(c, stranded, g, r)
    ensures AltsWitnessed(c, stranded, init + [r], g')
  {
    var records := init + [r];
    forall s | s in g'.longestAlts
      ensures exists i :: ContainsAt(c, stranded, records, i, s, g'.longestAlts[s])
    {
      if s in g.longestAlts && g'.longestAlts[s] == g.longestAlts[s] {
        var i :| ContainsAt(c, stranded, init, i, s, g.longestAlts[s]);
        assert records[i] == init[i];
        assert ContainsAt(c, stranded, records, i, s, g'.longestAlts[s]);
      } else {
        assert records[|init|] == r;
        assert ContainsAt(c, stranded, records, |init|, s, g'.longestAlts[s]);
      }
    }
  }

  /** How one record changes `longestAlts`, with `lengths'` the lengths after
      the record: a containment record stores its longer side for its shorter
      side unless the stored container outranks or equals it; any other
      record changes nothing. */
  ghost predicate AltsUpdate(c: Config, stranded: bool, alts: map<string, string>, r: Alignment,
                             lengths': map<string, int>, alts': map<string, string>) {
    if !ContainmentIn(c, stranded, r) then alts' == alts
    else
      var s := Shorter(r);
      if s in alts && alts[s] in lengths' && !Outranks(LongerLen(r), Longer(r), lengths'[alts[s]], alts[s]) then alts' == alts
      else alts' == alts[s := Longer(r)] && (s in alts ==> alts[s] in lengths' && Outranks(LongerLen(r), Longer(r), lengths'[alts[s]], alts[s]))
  }

  lemma GatherAltsUpdate(c: Config, stranded: bool, g: Gathered, r: Alignment)
    requires AltsKnown(g)
    ensures var g' := Gather(c, stranded, g, r);
      g'.lengths == g.lengths[r.qName := r.qLen][r.tName := r.tLen] &&
      AltsUpdate(c, stranded, g.longestAlts, r, g'.lengths, g'.longestAlts)
  {
  }

  lemma AltsBestStep(c: Config, stranded: bool, init: seq<Alignment>, r: Alignment, lens: map<string, int>,
                     alts: map<string, string>, lengths': map<string, int>, alts': map<string, string>)
    requires forall s, i :: s in alts && 0 <= i < |init| && ContainmentIn(c, stranded, init[i]) && Shorter(init[i]) == s ==>
      alts[s] in lens && !Outranks(LongerLen(init[i]), Longer(init[i]), lens[alts[s]], alts[s])
    requires forall s :: s in alts <==> exists i :: 0 <= i < |init| && ContainmentIn(c, stranded, init[i]) && Shorter(init[i]) == s
    requires forall n :: n in lengths' ==> n in lens && lengths'[n] == lens[n]
    requires forall s :: s in alts ==> alts[s] in lengths'
    requires LengthsAgree(init + [r], lens)
    requires AltsUpdate(c, stranded, alts, r, lengths', alts')
    ensures forall s, i :: s in alts' && 0 <= i < |init + [r]| && ContainmentIn(c, stranded, (init + [r])[i]) && Shorter((init + [r])[i]) == s ==>
      alts'[s] in lens && !Outranks(LongerLen((init + [r])[i]), Longer((init + [r])[i]), lens[alts'[s]], alts'[s])
  {
    var records := init + [r];
    assert records[|init|] == r;
    LongerLenAgrees(r, lens);
    forall s, i | s in alts' && 0 <= i < |records| && ContainmentIn(c, stranded, records[i]) && Shorter(records[i]) == s
      ensures alts'[s] in lens && !Outranks(LongerLen(records[i]), Longer(records[i]), lens[alts'[s]], alts'[s])
    {
      var ri := records[i];
      LongerLenAgrees(ri, lens);
      if i < |init| {
        assert ri == init[i];
        assert s in alts;
        if alts'[s] != alts[s] {
          var alt, alt' := alts[s], alts'[s];
          if Outranks(LongerLen(ri), Longer(ri), lens[alt'], alt') {
            OutranksTransitive(LongerLen(ri), Longer(ri), lens[alt'], alt', lens[alt], alt);
          }
        }
      }
    }
  }

  /** Every kept dovetail record comes from the stream, passed the dovetail
      test of the mode and failed its containment test. */
  lemma {:induction false} DovetailsClassified(c: Config, stranded: bool, records: seq<Alignment>)
    ensures forall r :: r in GatherAll(c, stranded, records).dovetails ==>
      r in records && DovetailIn(c, stranded, r) && !ContainmentIn(c, stranded, r)
  {
    if |records| > 0 {
      var init := records[..|records| - 1];
      DovetailsClassified(c, stranded, init);
      assert forall r :: r in init ==> r in records;
    }
  }

  /** The stored containers: the values of `longestAlts`. */
  function Containers(longestAlts: map<string, string>): set<string> {
    set s | s in longestAlts :: longestAlts[s]
  }

  /** The ids among `names` that are not stored as contained. */
  function Uncontained(names: set<string>, longestAlts: map<string, string>): set<string> {
    set n | n in names && n !in longestAlts
  }

  /** The representative set: every stored container, and every id seen that
      is not stored as contained. */
  function Representatives(lengths: map<string, int>, longestAlts: map<string, string>): set<string> {
    Containers(longestAlts) + Uncontained(lengths.Keys, longestAlts)
  }

  lemma UncontainedAdd(names: set<string>, name: string, longestAlts: map<string, string>)
    ensures Uncontained(names + {name}, longestAlts) ==
      Uncontained(names, longestAlts) + (if name in longestAlts then {} else {name})
  {
  }

  /** One id of the "look for longest reads" loop. */
  lemma RepresentativeStep(names: set<string>, longestAlts: map<string, string>, todo: set<string>, name: string, reps: set<string>)
    requires name in todo && todo <= names
    requires reps == Containers(longestAlts) + Uncontained(names - todo, longestAlts)
    ensures (if name !in longestAlts && name !in reps then reps + {name} else reps) ==
      Containers(longestAlts) + Uncontained(names - (todo - {name}), longestAlts)
  {
    UncontainedAdd(names - todo, name, longestAlts);
    assert names - (todo - {name}) == (names - todo) + {name};
  }

  /** The "look for longest reads" loop: starts from the containers and adds
      each id of `lengths` that is neither contained nor already present, in
      the hash set's order. */
  method RepresentativeSet(lengths: map<string, int>, longestAlts: map<string, string>) returns (reps: set<string>)
    ensures reps == Representatives(lengths, longestAlts)
  {
    reps := set s | s in longestAlts :: longestAlts[s];
    var todo := lengths.Keys;
    while todo != {}
      invariant todo <= lengths.Keys
      invariant reps == Containers(longestAlts) + Uncontained(lengths.Keys - todo, longestAlts)
      decreases |todo|
    {
      var name :| name in todo;
      RepresentativeStep(lengths.Keys, longestAlts, todo, name, reps);
      if name !in longestAlts && name !in reps {
        reps := reps + {name};
      }
      todo := todo - {name};
    }
    assert lengths.Keys - todo == lengths.Keys;
  }

  /** Every id seen is a representative or stored as contained; every
      representative is an id seen. */
  lemma RepresentativesCover(g: Gathered)
    requires AltsKnown(g)
    ensures Representatives(g.lengths, g.longestAlts) <= g.lengths.Keys
    ensures forall n :: n in g.lengths ==> n in Representatives(g.lengths, g.longestAlts) || n in g.longestAlts
  {
  }
}
