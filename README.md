# rnabloom overlap layout, in Dafny

A model of the overlap–layout core of RNA-Bloom, the de novo transcript
assembler, together with the string toolkit and the Bloom filter it rests on.

- **Layout** (`Layouts`, `Containment`, `OverlapGraphs`, `Walks`,
  `PathAssembly`, `Backbones`).
  - The pass over the pairwise alignment records classifies each record as
    a containment or a dovetail. It keeps each sequence's length and, for
    every contained sequence, its best container.
  - The representatives (the best containers, and every sequence contained
    in no other) become oriented vertices `name+` / `name-` of an overlap graph.
    Dovetails between them become edges. In unstranded mode every edge is
    added together with its reverse-complement dual.
  - The graph is transitively reduced. Then every junction keeps only its
    widest overlap.
  - From every representative not yet visited, the layout walks the
    unambiguous left and right extensions, with a cycle check, and
    assembles the path into a backbone sequence.
  - Orphan sequences and backbones are written under consecutive numbers.
- **Alignment records** (`PafRecords`, `LayoutRecords`). `PafRecord.update`
  parses the ten PAF columns in place. The classifiers judge overlaps by
  identity, clip and match thresholds.
- **Sequence utilities** (`SeqUtils`, `JavaStrings`):
  - reverse complement and the smallest strand;
  - Levenshtein distance with two work rows;
  - maximal and minimal overlaps of two sequences;
  - GC counts, low-complexity and homopolymer tests;
  - k-mers and the k-mer iterator;
  - the parts of `java.lang.String` and `Integer` they use.
- **Bloom filter** (`BloomFilters`, `BitBuffers`). The filter maps hash
  values to bit indices with `getIndex`. It implements `add`, `lookup`,
  `lookupThenAdd`, `equivalent` and `getNumHash` over an `UnsafeBitBuffer`,
  modelled as an `array<bv8>`.

Stateful source classes are Dafny classes:
- `Layout`: the graph's vertex set and edge map;
- `PafRecord`: the ten fields;
- `UnsafeBitBuffer`: the byte array;
- `BloomFilter`;
- `KmerSeqIterator`.

Each of their methods is proved against a specification function. Loops in
the source are `while`/`for` loops with invariants.

JGraphT's `DefaultDirectedGraph.addEdge` ignores a second edge between the
same two vertices, so the first edge added keeps its overlap;
`OverlapGraphs.AddEdge` does the same.

## Model

| member | source | states |
|---|---|---|
| VertexIds.Forward | src/rnabloom/olc/Layout.java:407-410 | the forward vertex id is the name followed by `+` |
| VertexIds.Reverse | src/rnabloom/olc/Layout.java:407-410 | the reverse vertex id is the name followed by `-` |
| VertexIds.VertexName | src/rnabloom/olc/Layout.java:119-121 | the name is the id without its last character |
| VertexIds.ReverseComplementSign | src/rnabloom/olc/Layout.java:131-140 | `+` maps to `-`, `-` to `+`, any other sign to `0` |
| VertexIds.ReverseComplementId | src/rnabloom/olc/Layout.java:142-145 | the dual id has the same length, and an id signed `+` or `-` gets a different id signed `+` or `-` |
| VertexIds.ReverseComplementIdShape | src/rnabloom/olc/Layout.java:142-145 | the dual id has the same name and length, with the sign flipped as above |
| VertexIds.ReverseComplementIdInvolution | src/rnabloom/olc/Layout.java:142-145 | on ids ending in a sign, taking the dual twice gives the id back |
| VertexIds.OrientationsPair | src/rnabloom/olc/Layout.java:123-145 | `name+` and `name-` are each other's duals, both carry `name`, and only `name-` has the reverse sign |
| VertexIds.IdOfName | src/rnabloom/olc/Layout.java:119-129 | every id is `Forward` or `Reverse` of its own name, as its sign says |
| VertexIds.ForwardInjective | src/rnabloom/olc/Layout.java:407-410 | different names give different forward vertices |
| LayoutRecords.IdentityCrossMultiplied | src/rnabloom/olc/Layout.java:75-80 | for a positive span, the identity test `numMatch/span >= minAlnId` is the same as `numMatch >= minAlnId * span` |
| LayoutRecords.DovetailThresholds | src/rnabloom/olc/Layout.java:86-117 | both dovetail tests demand the minimum match count and the identity on both query and target |
| LayoutRecords.StrandedTestsRejectReverse | src/rnabloom/olc/Layout.java:75-84 | the stranded tests refuse reverse-complemented records; on forward records stranded containment is exactly containment |
| LayoutRecords.ForwardDovetailIsStranded | src/rnabloom/olc/Layout.java:86-117 | a forward record that is an unstranded dovetail is also a stranded dovetail |
| LayoutRecords.StrandedDovetailIsWeaker | src/rnabloom/olc/Layout.java:105-117 | a record exists that is a stranded dovetail but not an unstranded one, because the stranded test does not compare the start offsets |
| LayoutRecords.IsContainment | src/rnabloom/olc/Layout.java:75-80 | a containment passes both identity tests and leaves at most `2 * maxEdgeClip` bases of the query or of the target outside the alignment |
| LayoutRecords.IsStrandedContainment | src/rnabloom/olc/Layout.java:82-84 | stranded containment is containment restricted to forward records |
| LayoutRecords.IsDovetail | src/rnabloom/olc/Layout.java:86-103 | a dovetail has enough matches and both identities, each sequence is aligned to within `maxEdgeClip` of one of its ends, and on the forward strand the two aligned parts start at different offsets |
| LayoutRecords.IsStrandedDovetail | src/rnabloom/olc/Layout.java:105-117 | a stranded dovetail is a forward record with enough matches and both identities, each sequence aligned to within `maxEdgeClip` of one of its ends |
| JavaStrings.CompareTo | src/rnabloom/olc/Layout.java:363 | `compareTo` is zero exactly on equal strings |
| JavaStrings.CompareToAntisymmetric | src/rnabloom/olc/Layout.java:363 | swapping the operands negates the result |
| JavaStrings.CompareToTransitive | src/rnabloom/olc/Layout.java:374-383 | "greater than" is transitive, so the container ranking is a strict order |
| JavaStrings.CompareToConcat | src/rnabloom/util/SeqUtils.java:404-431 | with equal-length heads, comparing concatenations compares the heads, and the tails only when the heads are equal |
| JavaStrings.IndexOf | src/rnabloom/util/SeqUtils.java:442 | the result is -1 when the pattern does not occur from `from` on; otherwise it is the first occurrence at or after `from` |
| JavaStrings.Find | src/rnabloom/util/SeqUtils.java:442 | scanning from `from` finds the first occurrence, or -1 exactly when there is none |
| JavaStrings.Contains | src/rnabloom/util/SeqUtils.java:468 | true exactly when the pattern occurs somewhere |
| JavaStrings.NatToString | src/rnabloom/olc/Layout.java:454 | a non-empty string of decimal digits |
| JavaStrings.DigitsOfNat | src/rnabloom/olc/Layout.java:454 | reading the written digits gives the number back |
| JavaStrings.NatToStringInjective | src/rnabloom/olc/Layout.java:475 | different numbers are written differently |
| JavaStrings.ParseInt | src/rnabloom/io/PafRecord.java:33 | a successful parse yields a 32-bit integer |
| JavaStrings.ParseIntOfIntToString | src/rnabloom/io/PafRecord.java:33 | parsing the decimal form of any 32-bit integer gives it back |
| JavaStrings.ParseUnsigned | src/rnabloom/io/PafRecord.java:33 | a digit string whose value fits in 32 bits parses to that value |
| JavaStrings.ParseNegative | src/rnabloom/io/PafRecord.java:33 | `-` followed by digits whose negated value fits in 32 bits parses to that value |
| PafRecords.SetColumn | src/rnabloom/io/PafRecord.java:31-42 | storing one column fails exactly when it is an integer column whose text does not parse |
| PafRecords.UpdateFrom | src/rnabloom/io/PafRecord.java:31-42 | the statements of `update` from column `i` on succeed only when all ten columns exist; an error names a column from `i` on: a missing column is the first absent one, a malformed one is a numeric column that does not parse |
| PafRecords.Parsed | src/rnabloom/io/PafRecord.java:31-42 | a line describes a record exactly when it has ten columns whose numeric ones parse, and that record holds what each column says |
| PafRecords.UpdateMatchesParsed | src/rnabloom/io/PafRecord.java:31-42 | `update` succeeds exactly when all ten columns are present and the seven integer columns parse; the new fields are then those columns, with the strand `-` meaning reverse-complemented |
| PafRecords.UpdateStep | src/rnabloom/io/PafRecord.java:31-42 | columns are stored in order; a missing column or a bad integer stops the update there, keeping the fields written so far |
| PafRecords.UpdateIdempotent | src/rnabloom/io/PafRecord.java:31-42 | updating twice with the same columns leaves the same record and error as updating once |
| PafRecords.UpdateFromIdempotent | src/rnabloom/io/PafRecord.java:31-42 | the same holds from any column on |
| PafRecords.UpdateFromKeeps | src/rnabloom/io/PafRecord.java:31-42 | a column already holding its value still holds it after the later columns are stored |
| PafRecords.PafRecord.constructor | src/rnabloom/io/PafRecord.java:24-29 | a new record has no names, is forward, has `numMatch` -1 and all other integers 0 |
| PafRecords.PafRecord.Update | src/rnabloom/io/PafRecord.java:31-42 | the fields and the error are those of the column-by-column update from the old fields |
| Containment.OutranksTransitive | src/rnabloom/olc/Layout.java:374-383 | the container ranking (longer, then greater name) is transitive |
| Containment.OutranksIrreflexive | src/rnabloom/olc/Layout.java:374-383 | no container outranks itself |
| Containment.Gather | src/rnabloom/olc/Layout.java:354-389 | one record keeps every best container a known length |
| Containment.GatherAll | src/rnabloom/olc/Layout.java:353-390 | after the whole scan every best container has a known length |
| Containment.GatherRecords | src/rnabloom/olc/Layout.java:353-390 | the loop over the records computes the lengths, the best containers and the dovetail queue of the scan |
| Containment.GatherRecord | src/rnabloom/olc/Layout.java:354-389 | the loop body computes one step of the scan |
| Containment.GatherAllBest | src/rnabloom/olc/Layout.java:353-390 | when lengths are consistent: lengths are recorded for exactly the sequences named; a sequence has a best container exactly when some record says it is contained; that container comes from such a record and none of those records names a container that outranks it |
| Containment.AltsBestStep | src/rnabloom/olc/Layout.java:362-383 | after one more record, no record seen so far names, for a contained sequence, a container that outranks the one stored for it |
| Containment.DovetailsClassified | src/rnabloom/olc/Layout.java:385-389 | every queued dovetail comes from the records, passes the dovetail test and fails the containment test |
| Containment.RepresentativeSet | src/rnabloom/olc/Layout.java:396-401 | the loop builds the set of best containers plus every sequence without a container |
| Containment.RepresentativesCover | src/rnabloom/olc/Layout.java:396-401 | representatives are overlapped sequences, and every overlapped sequence is a representative or has a container |
| OverlapGraphs.Swapped | src/rnabloom/olc/Layout.java:147-151 | the dual edge exchanges the source and sink coordinates |
| OverlapGraphs.DualPairInvolution | src/rnabloom/olc/Layout.java:142-151 | the dual of the dual vertex pair is the pair |
| OverlapGraphs.AddEdge | src/rnabloom/olc/Layout.java:413-436 | adding an edge adds its pair and leaves every existing edge's coordinates as they were |
| OverlapGraphs.RecordEdges | src/rnabloom/olc/Layout.java:413-436 | a record adds at most two edges; each joins the record's two sequences and carries the record's coordinates, its source's first; an unstranded dovetail adds two edges and a stranded dovetail one |
| OverlapGraphs.RecordEdgesShape | src/rnabloom/olc/Layout.java:413-436 | unstranded, a dovetail gives no edge or an edge and its dual; stranded, at most one forward-to-forward edge between its two sequences |
| OverlapGraphs.AddDualKeepsClosed | src/rnabloom/olc/Layout.java:415-433 | adding an edge and then its dual keeps the graph closed under duals |
| OverlapGraphs.AddRecordEdgesClosed | src/rnabloom/olc/Layout.java:413-436 | the unstranded graph is closed under duals after all dovetails are added |
| OverlapGraphs.AddRepEdgesClosed | src/rnabloom/olc/Layout.java:414-434 | the same for one dovetail |
| OverlapGraphs.UnstrandedEdgePair | src/rnabloom/olc/Layout.java:415-433 | an unstranded dovetail between representatives adds nothing or one edge with its dual |
| OverlapGraphs.EdgesOfOriented | src/rnabloom/olc/Layout.java:407-436 | every edge joins two vertices of the graph |
| OverlapGraphs.AddRecordEdgesOf | src/rnabloom/olc/Layout.java:413-436 | the dovetail edges join representatives only, and only forward vertices when stranded |
| OverlapGraphs.RemoveKeepsClosed | src/rnabloom/olc/Layout.java:157-231 | removing edges together with their duals keeps the graph closed under duals |
| OverlapGraphs.DiscardsKeepBest | src/rnabloom/olc/Layout.java:161-192 | the widest edge at a junction is never among those removed |
| OverlapGraphs.DiscardsStep | src/rnabloom/olc/Layout.java:161-189 | when a wider edge replaces the best, the old best (and its dual) joins the removal set; otherwise the new edge does |
| OverlapGraphs.DegreesShrink | src/rnabloom/olc/Layout.java:157-231 | removing edges never raises a vertex's in- or out-degree |
| Layouts.IterationOrder | src/rnabloom/olc/Layout.java:161 | some order lists every element of a hash set once |
| Layouts.SelectWidest | src/rnabloom/olc/Layout.java:161-189 | the chosen edge has the widest overlap; it is the first in iteration order with that width; the removal set is every other candidate, with its dual when unstranded |
| Layouts.FirstWidestIsWidest | src/rnabloom/olc/Layout.java:161-189 | the edge kept by a strict-greater scan is at least as wide as every candidate |
| Layouts.ConsiderEdge | src/rnabloom/olc/Layout.java:163-188 | one loop step keeps the scan invariant: best so far, first with its width, all others queued for removal |
| Layouts.Layout.constructor | src/rnabloom/olc/Layout.java:54-62 | an empty graph with the given mode and thresholds |
| Layouts.Layout.AddVertex | src/rnabloom/olc/Layout.java:407-410 | the vertex is added and the edges are unchanged |
| Layouts.Layout.AddEdge | src/rnabloom/olc/Layout.java:413-436 | the edge map becomes `OverlapGraphs.AddEdge` of the old one |
| Layouts.Layout.RemoveAllEdges | src/rnabloom/olc/Layout.java:192 | exactly the given edges are removed |
| Layouts.Layout.Reduce | src/rnabloom/olc/Layout.java:438 | transitive reduction keeps a subset of the edges, with their coordinates, and the vertices |
| Layouts.Layout.ResolveAt | src/rnabloom/olc/Layout.java:157-231 | at a vertex with several out- (or in-) edges, only the widest survives there; the others go, with their duals when unstranded; nothing changes at a vertex with at most one; dual-closure is kept |
| Layouts.Layout.ResolveJunctions | src/rnabloom/olc/Layout.java:153-233 | afterwards every named forward vertex has in- and out-degree at most one; edges only disappear; unstranded dual-closure is kept |
| Layouts.ResolvedStep | src/rnabloom/olc/Layout.java:155-232 | resolving one more name keeps the names already resolved resolved |
| Layouts.JunctionSurvivor | src/rnabloom/olc/Layout.java:161-192 | after the removal the widest edge is the vertex's only out- (or in-) edge |
| Layouts.JunctionKeepsClosed | src/rnabloom/olc/Layout.java:157-231 | removing the discarded edges with their duals keeps the graph closed under duals |
| Layouts.Layout.RightExtension | src/rnabloom/olc/Layout.java:235-261 | the vertex followed by the result is a right walk: each step is the only successor and has one predecessor; it stops at a junction or a repeat and never repeats a vertex |
| Layouts.Layout.LeftExtension | src/rnabloom/olc/Layout.java:263-289 | the mirror image for predecessors |
| Walks.RightWalkUnique | src/rnabloom/olc/Layout.java:235-261 | the right extension is determined by the graph: two walks meeting its contract from one vertex are equal |
| Walks.RightWalksAgree | src/rnabloom/olc/Layout.java:243-258 | two right walks from one vertex agree on their common prefix |
| Walks.RightWalkNoLonger | src/rnabloom/olc/Layout.java:243-258 | a walk that stopped is not a proper prefix of another walk |
| Walks.RightStepsExtend | src/rnabloom/olc/Layout.java:243-258 | appending the only, unshared successor keeps a repeat-free right walk |
| Walks.LeftStepsExtend | src/rnabloom/olc/Layout.java:271-286 | prepending the only, unshared predecessor keeps a repeat-free left walk |
| Walks.RightStepsChain | src/rnabloom/olc/Layout.java:235-261 | consecutive vertices of a right walk are joined by edges |
| Walks.LeftStepsChain | src/rnabloom/olc/Layout.java:263-289 | the same for a left walk |
| Walks.LaidOutPath | src/rnabloom/olc/Layout.java:465-470 | the laid-out path follows edges and never repeats a vertex |
| Walks.RightAvoidsLeft | src/rnabloom/olc/Layout.java:465-470 | without an edge from the start back to the first vertex, the right extension never re-enters the left one |
| Layouts.Layout.PathFrom | src/rnabloom/olc/Layout.java:465-470 | the path is the left extension, the vertex, and the right extension unless the cycle check fires; it follows edges and never repeats a vertex |
| Layouts.PathNamesStart | src/rnabloom/olc/Layout.java:461-484 | the start's name is among the names a path marks visited |
| PathAssembly.Slice | src/rnabloom/olc/Layout.java:300-344 | a slice exists exactly for bounds within the sequence, and has their length |
| PathAssembly.SequenceOf | src/rnabloom/olc/Layout.java:300-344 | looking up a vertex's sequence fails exactly when its name has none; otherwise it is that sequence |
| PathAssembly.AssembleSingle | src/rnabloom/olc/Layout.java:300-344 | a one-vertex path assembles to its sequence, reverse-complemented for a `-` vertex |
| PathAssembly.AssembleForwardPair | src/rnabloom/olc/Layout.java:300-344 | two forward vertices assemble to the source up to the overlap start and the sink from its start; for a suffix–prefix overlap that is both lengths less the overlap |
| PathAssembly.AssembleReversePair | src/rnabloom/olc/Layout.java:300-344 | two reverse vertices assemble from the reverse complements of the source tail and the sink head |
| PathAssembly.AssembleDualPair | src/rnabloom/olc/Layout.java:300-344 | when the overlapped regions agree, the dual of a two-vertex path assembles to the reverse complement of the path's assembly |
| PathAssembly.JoinAtOverlap | src/rnabloom/olc/Layout.java:300-344 | joining at the start or at the end of agreeing overlap regions gives the same sequence |
| PathAssembly.AssembleExample | src/rnabloom/olc/Layout.java:300-344 | a concrete two-read path with a six-base overlap assembles to the merged read |
| PathAssembly.ReverseComplementConcat | src/rnabloom/util/SeqUtils.java:362-391 | the reverse complement of a concatenation is the reversed concatenation of the reverse complements |
| Layouts.Layout.AssemblePath | src/rnabloom/olc/Layout.java:300-344 | the loop over the path computes the assembly of the path, or its error |
| PathAssembly.AssembleFrom | src/rnabloom/olc/Layout.java:311-341 | the rest of an assembly extends what is already built; it succeeds only when every later vertex's sequence and every edge from the current vertex on exist; a missing sequence or edge it reports is missing |
| PathAssembly.Assemble | src/rnabloom/olc/Layout.java:300-344 | a backbone exists only when every vertex's sequence and an edge between each two consecutive vertices exist; a missing sequence or edge it reports is missing |
| Backbones.Header | src/rnabloom/olc/Layout.java:475-480 | the header starts with the number followed by nothing or a space, and has a path list exactly when the path has more than one vertex |
| Backbones.Join | src/rnabloom/olc/Layout.java:478 | the comma-joined list starts with the first id and ends with the last |
| Backbones.NumberedUnique | src/rnabloom/olc/Layout.java:454-480 | a header carries one number only |
| Backbones.NumberedDistinct | src/rnabloom/olc/Layout.java:454-480 | records numbered consecutively have pairwise different headers |
| Backbones.SequencesOfLastWins | src/rnabloom/olc/Layout.java:446-451 | the kept sequences are those of exactly the representatives the FASTA file names, each from its last record |
| Backbones.OrphansKept | src/rnabloom/olc/Layout.java:452-455 | a record is an orphan exactly when it is in the file, is not a representative and no alignment names it |
| Backbones.ReadSequences | src/rnabloom/olc/Layout.java:442-457 | the FASTA loop keeps the representatives' sequences and writes the orphans, in file order, numbered from 1 |
| Backbones.SequencesOf | src/rnabloom/olc/Layout.java:442-451 | only representatives get a sequence |
| Backbones.Orphans | src/rnabloom/olc/Layout.java:452-455 | there are no more orphans than records, and each is an orphan: not a representative and named by no alignment record |
| Backbones.VisitNames | src/rnabloom/olc/Layout.java:482-484 | the names of the path's vertices are added to the visited set |
| Backbones.CoveredStep | src/rnabloom/olc/Layout.java:461-484 | after a path is written, every visited name lies on some written path |
| Layouts.Layout.AddVertices | src/rnabloom/olc/Layout.java:407-410 | the vertices added are both orientations of every representative, only `+` when stranded |
| Layouts.Layout.AddOrientationsOf | src/rnabloom/olc/Layout.java:407-410 | the vertex loop adds the orientations of every name and leaves the edges alone |
| Layouts.Layout.AddOrientations | src/rnabloom/olc/Layout.java:408-409 | one name adds `name+`, and also `name-` unless stranded; the edges stay |
| Layouts.OrientedAllIs | src/rnabloom/olc/Layout.java:407-410 | orienting the representatives one by one, in any order, gives the oriented set |
| Layouts.Layout.AddRecordEdge | src/rnabloom/olc/Layout.java:414-434 | one dovetail between representatives adds its edges (with its dual when unstranded); any other adds none |
| Layouts.Layout.AddDovetailEdges | src/rnabloom/olc/Layout.java:413-436 | the edges are those of all dovetails, added in queue order |
| Layouts.Layout.BuildGraph | src/rnabloom/olc/Layout.java:405-439 | the graph holds the oriented representatives and a subset of the dovetail edges, and every representative's forward vertex is resolved |
| Layouts.Layout.LayoutFrom | src/rnabloom/olc/Layout.java:461-485 | one loop step, entered only for a representative not yet visited: the backbones written so far stay assemblies of paths laid out from representatives, under consecutive numbers; the new path starts from that representative, which ends up visited; `visited` stays exactly the names on written paths; an assembly error comes from a laid-out path and writes nothing |
| Layouts.ProgressStep | src/rnabloom/olc/Layout.java:462-484 | writing the path of a representative that no earlier path visited keeps every backbone tied to its path, start and number, keeps every start off the earlier paths, and keeps `visited` exactly the names on the paths |
| Layouts.ProgressStartsDistinct | src/rnabloom/olc/Layout.java:462-484 | because of the `visited` guard, no representative starts two backbones |
| Layouts.Layout.LayoutPaths | src/rnabloom/olc/Layout.java:460-486 | each backbone is the assembly of a path laid out from a representative, under consecutive numbers; no path starts from a name an earlier path visited; with no error every representative lies on a written path |
| Layouts.OutputWritten | src/rnabloom/olc/Layout.java:442-486 | orphans followed by backbones form the output, numbered 1, 2, … in that order, each backbone with its path and start |
| Layouts.Layout.WriteBackboneSequences | src/rnabloom/olc/Layout.java:291-298 | the whole layout, in both modes: graph of the representatives, junctions resolved, orphans then backbones written with distinct consecutive numbers, no representative starting two backbones, and every representative covered unless an assembly error stopped the loop |
| SeqUtils.AltNucleotides | src/rnabloom/util/SeqUtils.java:36-49 | for a nucleotide, the other three; for any other character, all four |
| SeqUtils.ReverseComplement | src/rnabloom/util/SeqUtils.java:362-391 | same length; position i holds the complement of position n-1-i, with `N` for anything not ACGT |
| SeqUtils.Complement | src/rnabloom/util/SeqUtils.java:372-387 | a nucleotide's complement is the other base of its pair; any other character becomes `N` |
| SeqUtils.ReverseComplementString | src/rnabloom/util/SeqUtils.java:362-391 | the loop filling the buffer from the back computes the reverse complement |
| SeqUtils.ReverseComplementTwice | src/rnabloom/util/SeqUtils.java:362-391 | twice gives the sequence back with every non-ACGT character turned into `N` |
| SeqUtils.ReverseComplementInvolution | src/rnabloom/util/SeqUtils.java:362-391 | on ACGT sequences the reverse complement is an involution |
| SeqUtils.SmallestStrand | src/rnabloom/util/SeqUtils.java:393-402 | the result is the sequence or its reverse complement, whichever compares no greater |
| SeqUtils.SmallestStrandCanonical | src/rnabloom/util/SeqUtils.java:393-402 | both strands of an ACGT sequence give the same smallest strand |
| SeqUtils.SmallestStrandPair | src/rnabloom/util/SeqUtils.java:404-431 | the pair is kept or replaced by the reverse complements in swapped order |
| SeqUtils.SmallestStrandPairByConcatenation | src/rnabloom/util/SeqUtils.java:404-431 | for equal lengths the code agrees with the commented-out version that compares the concatenations |
| SeqUtils.Min3 | src/rnabloom/util/SeqUtils.java:108-110 | the result is one of the three and no greater than any |
| SeqUtils.Distance | src/rnabloom/util/SeqUtils.java:64-106 | the two-row result as written: non-negative, 0 for equal strings, the other's length when one is empty |
| SeqUtils.FirstRow | src/rnabloom/util/SeqUtils.java:80-82 | cell i holds i |
| SeqUtils.FillRow | src/rnabloom/util/SeqUtils.java:90-96 | the inner loop writes the next work row from the previous one |
| SeqUtils.ArrayCopy | src/rnabloom/util/SeqUtils.java:99 | the first n cells are copied and the rest kept |
| SeqUtils.GetDistance | src/rnabloom/util/SeqUtils.java:64-106 | the method computes the as-written two-row value |
| SeqUtils.DistanceStaleCell | src/rnabloom/util/SeqUtils.java:99 | see Findings: for four or more `A`s against `A` the as-written value is 2, not the Levenshtein distance |
| SeqUtils.GetDistanceCorrected | src/rnabloom/util/SeqUtils.java:64-106 | with the whole row copied, the result is the Levenshtein distance |
| SeqUtils.LevLower | src/rnabloom/util/SeqUtils.java:64-106 | the distance is at least the difference of the lengths |
| SeqUtils.LevUpper | src/rnabloom/util/SeqUtils.java:64-106 | the distance is at most the longer length |
| SeqUtils.LevSame | src/rnabloom/util/SeqUtils.java:69 | a string is at distance 0 from itself, as the early return assumes |
| SeqUtils.OverlapMaximally | src/rnabloom/util/SeqUtils.java:433-474 | it throws exactly when `minOverlap` lies outside `0..right.length()`; otherwise a result contains both sequences and is `left`, `right`, or `left` followed by a tail of `right` |
| SeqUtils.OverlapMinimally | src/rnabloom/util/SeqUtils.java:476-494 | a `minOverlap` outside `0..left.length()` throws; otherwise the loop gives the outcome of scanning every position of `right` in turn, including the throw at a hit past the suffix start |
| SeqUtils.MinimalScanHit | src/rnabloom/util/SeqUtils.java:483-490 | at an occurrence: merge at 0; throw when the occurrence lies past the suffix start; merge when the prefix matches; otherwise go on |
| SeqUtils.MinimalScanSkips | src/rnabloom/util/SeqUtils.java:483 | `indexOf` jumps over positions with no occurrence |
| SeqUtils.MinimalScanMisses | src/rnabloom/util/SeqUtils.java:482-493 | without further occurrences the scan gives null |
| SeqUtils.MinimalScanMerges | src/rnabloom/util/SeqUtils.java:476-494 | a merged result is `left` joined to `right` at a real overlap |
| SeqUtils.MinimalScanEnds | src/rnabloom/util/SeqUtils.java:486 | a merged result starts with `left` and ends with `right` |
| SeqUtils.HitIsOverlap | src/rnabloom/util/SeqUtils.java:485 | an occurrence within the suffix start is an overlap exactly when the prefix test holds |
| SeqUtils.MinimalScanThrows | src/rnabloom/util/SeqUtils.java:485 | see Findings: `("AB", "CCB", 1)` throws although no overlap exists |
| SeqUtils.OverlapMinimallyChecked | src/rnabloom/util/SeqUtils.java:476-494 | corrected: it throws exactly when `minOverlap` lies outside `0..left.length()`; otherwise a result is the merge at the smallest overlap, and null means none exists |
| SeqUtils.CountGC | src/rnabloom/util/SeqUtils.java:112-131 | no more G/C than characters |
| SeqUtils.CountGCAppend | src/rnabloom/util/SeqUtils.java:112-131 | the count adds over concatenation |
| SeqUtils.CountGCReverseComplement | src/rnabloom/util/SeqUtils.java:112-131 | both strands have the same G/C count |
| SeqUtils.NumGC | src/rnabloom/util/SeqUtils.java:112-131 | the loop counts the G and C characters |
| SeqUtils.IsLowComplexityShort | src/rnabloom/util/SeqUtils.java:267-287 | true exactly when at most one character, or all but at most one, is G or C |
| SeqUtils.IsHomoPolymer | src/rnabloom/util/SeqUtils.java:513-524 | true exactly when every character equals the first |
| SeqUtils.SeqLengthOfNumKmers | src/rnabloom/util/SeqUtils.java:289-295 | the length is recovered from the k-mer count; there is a k-mer exactly when k is at most the length |
| SeqUtils.FirstKmer | src/rnabloom/util/SeqUtils.java:297-299 | a prefix of length k |
| SeqUtils.LastKmer | src/rnabloom/util/SeqUtils.java:301-304 | a suffix of length k |
| SeqUtils.Kmers | src/rnabloom/util/SeqUtils.java:343-352 | `n - k + 1` strings, the i-th being the k characters from i |
| SeqUtils.KmersEnds | src/rnabloom/util/SeqUtils.java:297-352 | the first and last k-mers are `getFirstKmer` and `getLastKmer`, and consecutive k-mers overlap by k-1 |
| SeqUtils.Kmerize | src/rnabloom/util/SeqUtils.java:343-352 | the array holds exactly the k-mers in order |
| SeqUtils.NumKmers | src/rnabloom/util/SeqUtils.java:289-291 | a sequence has a k-mer exactly when it is at least `k` long, and `getSeqLength` gives its length back |
| SeqUtils.SeqLength | src/rnabloom/util/SeqUtils.java:293-295 | a positive k-mer count means a length of at least `k`, and only then |
| SeqUtils.KmerSeqIterator.WithK | src/rnabloom/util/SeqUtils.java:312-314 | an iterator without a sequence has nothing to give |
| SeqUtils.KmerSeqIterator.HasNext | src/rnabloom/util/SeqUtils.java:327-330 | `hasNext` is true exactly while k-mers remain |
| SeqUtils.KmerSeqIterator.constructor | src/rnabloom/util/SeqUtils.java:316-319 | the remaining k-mers are all k-mers of the sequence |
| SeqUtils.KmerSeqIterator.Initialize | src/rnabloom/util/SeqUtils.java:321-325 | re-initialising restarts on the new sequence |
| SeqUtils.KmerSeqIterator.Next | src/rnabloom/util/SeqUtils.java:332-336 | `next` returns the first remaining k-mer and drops it |
| SeqUtils.KmerSeqIterator.Reset | src/rnabloom/util/SeqUtils.java:338-340 | `reset` restarts on the same sequence |
| SeqUtils.DrainKmers | src/rnabloom/util/SeqUtils.java:327-336 | draining a fresh iterator yields `kmerize` and leaves `hasNext` false |
| BitBuffers.NumBytes | src/rnabloom/bloom/buffer/UnsafeBitBuffer.java:34-37 | the fewest bytes that hold the bits |
| BitBuffers.OrMask | src/rnabloom/bloom/buffer/UnsafeBitBuffer.java:44 | or-ing in one mask sets that bit and keeps the others |
| BitBuffers.BitAtSetBit | src/rnabloom/bloom/buffer/UnsafeBitBuffer.java:43-45 | after `set(i)` bit j is set exactly when j is i or it was set |
| BitBuffers.SetBitWhenSet | src/rnabloom/bloom/buffer/UnsafeBitBuffer.java:70-74 | setting a bit already set changes nothing, so skipping the write is the same |
| BitBuffers.BitAtSetBits | src/rnabloom/bloom/BloomFilter.java:116-120 | after setting a list of bits, bit j is set exactly when it is listed or was set |
| BitBuffers.SetBitsMonotone | src/rnabloom/bloom/BloomFilter.java:116-120 | setting bits never clears one |
| BitBuffers.Tests | src/rnabloom/bloom/BloomFilter.java:149-157 | the test of each listed bit |
| BitBuffers.AllSetBits | src/rnabloom/bloom/BloomFilter.java:149-157 | the conjunction of the tests is "every listed bit is set" |
| BitBuffers.TestAndSetStep | src/rnabloom/bloom/BloomFilter.java:129-131 | test-and-set in order gives the same conjunction as testing all bits first |
| BitBuffers.UnsafeBitBuffer.constructor | src/rnabloom/bloom/buffer/UnsafeBitBuffer.java:32-40 | a fresh buffer of the given size, all bits clear |
| BitBuffers.UnsafeBitBuffer.Get | src/rnabloom/bloom/buffer/UnsafeBitBuffer.java:61-63 | bit `i % 8` of byte `i / 8` |
| BitBuffers.UnsafeBitBuffer.Set | src/rnabloom/bloom/buffer/UnsafeBitBuffer.java:43-45 | the bytes become those with bit i set |
| BitBuffers.UnsafeBitBuffer.GetAndSet | src/rnabloom/bloom/buffer/UnsafeBitBuffer.java:66-77 | returns the old bit and leaves it set |
| BitBuffers.UnsafeBitBuffer.Size | src/rnabloom/bloom/buffer/UnsafeBitBuffer.java:80-82 | on a valid buffer, `size()` is the bit count it was built with, and that count fits in its bytes |
| BloomFilters.GetIndex | src/rnabloom/bloom/BloomFilter.java:91-94 | the index is within the filter |
| BloomFilters.GetIndexShift | src/rnabloom/bloom/BloomFilter.java:91-94 | the index is the 64-bit hash shifted right unsigned by one, modulo the size, written out for both signs |
| BloomFilters.BloomFilter.constructor | src/rnabloom/bloom/BloomFilter.java:36-48 | a fresh filter of the given size and hash count, all bits clear |
| BloomFilters.BloomFilter.Indices | src/rnabloom/bloom/BloomFilter.java:116-120 | one in-range index per hash function |
| BloomFilters.BloomFilter.Add | src/rnabloom/bloom/BloomFilter.java:116-120 | the bits at the indices of the hash values are set, and nothing else changes |
| BloomFilters.BloomFilter.Lookup | src/rnabloom/bloom/BloomFilter.java:149-157 | true exactly when every index of the hash values is set |
| BloomFilters.BloomFilter.LookupThenAdd | src/rnabloom/bloom/BloomFilter.java:126-134 | as written: reports whether bits 0 … numHash-1 were all set and sets those bits |
| BloomFilters.BloomFilter.LookupThenAddByIndex | src/rnabloom/bloom/BloomFilter.java:126-134 | corrected: reports the old lookup, performs the add, and the key is then found |
| BloomFilters.BloomFilter.GetNumHash | src/rnabloom/bloom/BloomFilter.java:190-192 | the number of hash functions |
| BloomFilters.AddThenContains | src/rnabloom/bloom/BloomFilter.java:116-157 | after adding a key, a lookup of it succeeds: no false negatives |
| BloomFilters.AddKeepsContains | src/rnabloom/bloom/BloomFilter.java:116-157 | adding another key never makes a key that was found not found |
| BloomFilters.ContainsIsAllSet | src/rnabloom/bloom/BloomFilter.java:149-157 | membership is the conjunction of the bit tests |
| BloomFilters.AddThenLookup | src/rnabloom/bloom/BloomFilter.java:116-157 | calling `add` then `lookup` with the same hash values returns true |
| BloomFilters.AllSetCounter | src/rnabloom/bloom/BloomFilter.java:129-131 | testing indices 0 … n-1 is testing the first n bits |
| BloomFilters.EquivalentNeedsShape | src/rnabloom/bloom/BloomFilter.java:210-214 | filters of different size or hash count are never equivalent |
| BloomFilters.BloomFilter.Equivalent | src/rnabloom/bloom/BloomFilter.java:210-214 | equivalent valid filters have the same hash count and answer every lookup alike |
| BloomFilters.LookupThenAddMissesKey | src/rnabloom/bloom/BloomFilter.java:130 | see Findings: the hash value's own bit stays clear |

## Left out

- Reading PAF and FASTA files and writing FASTA: the files are sequences of records (alignments, `(name, sequence)` pairs) given as inputs and returned as outputs. The layout takes its alignments as `PafRecords.Alignment` values; the conversion from a parsed `PafRecords.PafState` is not modelled.
- Progress messages written to standard output.
- `OverlapLayoutConcensus.java` and the other callers: only the layout core and its helpers are modelled.
- The JGraphT graph is a vertex set and a map from vertex pairs to edges. Transitive reduction is a function parameter whose result is intersected with the current edges. Its own algorithm is not part of this model.
- Hash-set iteration order is unspecified in the source. Loops over `HashSet`s take their elements in an arbitrary order (`IterationOrder` or `:|`). The contracts hold for every order.
- `stringToBytes` truncation of a sequence to its recorded length, and the byte-array copy helpers: sequences stay strings, and a copy is a substring (`PathAssembly.Slice`).
- An exception from `assemblePath` (a missing sequence or an out-of-range slice) is an `AssemblyError` that ends the layout loop. The backbones written before it are kept.
- Layouts.Layout.LayoutPaths and Layouts.Layout.WriteBackboneSequences: the path and the start of each backbone are ghost outputs. They witness each written record; the source does not return them.
- Layouts.Layout.LayoutPaths: the model proves that no representative starts two backbones and that no path starts on an earlier path. It does not prove that the paths share no vertex. That would need the reduced graph to keep every edge's dual, which `Layouts.Layout.Reduce` does not claim.
- Layouts.Layout.Reduce: with an arbitrary reduction, closure under duals is not claimed after the reduction. It is claimed for the graph that is built and for each junction removal.
- Alignment identity is an exact real ratio, not a 32-bit float. A zero span counts as an identity above any threshold exactly when the match count is positive, as Java's infinity and NaN would behave.
- Strings are sequences of Unicode scalar `char`s. Java's `length`, `substring`, `indexOf` and `compareTo` count UTF-16 code units, so they differ from the model on characters outside the Basic Multilingual Plane. Sequence names and nucleotides are ASCII in practice.
- JavaStrings.ParseInt accepts only the ASCII digits `0` to `9` after an optional sign. `Integer.parseInt` also accepts the other Unicode decimal digits.
- Integers are unbounded, except the 64-bit hash values in `GetIndex` and the 32-bit range accepted by `Integer.parseInt`.
- The hash function (`HashFunction2`) and the key-based `add`/`lookup` overloads: the model starts from the hash values.
- `setCAS`, `addCAS`, `empty`, `destroy`, `popCount`, the FPR and size estimates, saving and loading a filter, and `LargeBitBuffer`: these are concurrency, I/O or floating point.
- BloomFilters.BloomFilter.Equivalent compares the bit arrays byte by byte. `BufferComparator` is not part of this model.
- BloomFilters.BloomFilter.constructor requires `size > 0`. The source accepts a size of 0, and every later `add` or `lookup` then throws an `ArithmeticException` from `% size` in `getIndex`.
- BloomFilters.BloomFilter.LookupThenAdd requires `numHash <= 8 * bytes.Length`. With more hash functions than bits the source indexes past the buffer.
- SeqUtils.IsHomoPolymer requires a non-empty sequence: the source reads `charAt(0)` and throws on an empty one.
- SeqUtils.FirstKmer, SeqUtils.LastKmer and SeqUtils.Kmerize require `k` within the sequence length (plus one for `kmerize`). Otherwise the source throws.
- The other `SeqUtils` members: percent identity, the regular-expression patterns, the long low-complexity tests, `kmerizeToCollection`, GC content and FASTQ filtering. They are outside the layout core.

## Findings

| source | as written | input that shows it | evidently intended | confidence | as-written member | corrected member |
|---|---|---|---|---|---|---|
| src/rnabloom/util/SeqUtils.java:99 | `System.arraycopy(v1, 0, v0, 0, tLen)` copies `tLen` of the `tLen + 1` cells, so the last cell of the previous row goes stale | `s` = four or more `A`s, `t` = `"A"`: the result is 2, the Levenshtein distance is `|s| - 1` | copy all `tLen + 1` cells; the result is the Levenshtein distance | not executed | SeqUtils.DistanceStaleCell | SeqUtils.GetDistanceCorrected |
| src/rnabloom/util/SeqUtils.java:485 | `left.substring(li - ri, li)` is taken for any occurrence `ri > 0`, and throws when `ri > li` | `left = "AB"`, `right = "CCB"`, `minOverlap = 1`: the occurrence at 2 is past `li = 1`, so the call throws although no overlap exists | skip occurrences past `li` and return null when none fits | not executed | SeqUtils.MinimalScanThrows | SeqUtils.OverlapMinimallyChecked |
| src/rnabloom/bloom/BloomFilter.java:130 | `bitArray.getAndSet(h)` tests and sets bit `h`, not `getIndex(hashVals[h])` | size 16, one hash function, hash value 10: `getIndex` gives bit 5, but bit 0 is set, so a later `lookup` of the same value is false | `getAndSet(getIndex(hashVals[h]))`; the value is then found | not executed | BloomFilters.LookupThenAddMissesKey | BloomFilters.BloomFilter.LookupThenAddByIndex |
