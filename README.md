# 6TBSPs protein search, modelled in Dafny

6TBSPs ("six-frame translation, BLAST-style protein search") looks DNA reads up in
a protein database in five steps:

- it parses FASTA files;
- it builds a k-mer index of the reference proteins;
- it translates each read in its six reading frames;
- it takes seeds of each frame and extends their hits in the index into candidate
  windows of the references;
- it aligns the frame locally against each window, by affine-gap Smith-Waterman
  (Gotoh) or by linear-gap Smith-Waterman.

A read simulator tiles references into error-free reads that serve as simulated
input to the pipeline.

This project models all of that logic except the I/O. Each module follows one
part of the program:

| module | file | what it models |
|---|---|---|
| `Wrappers` | wrappers.dfy | `Option` and `Result`: the error paths of the source (exceptions, a loop that never ends) become `Failure` values |
| `Text` | text.dfy | `str.rstrip()`, `s[::-1]`, clamping slices, `'%d' % n` |
| `Grid` | grid.dfy | `max`, `min`, row-major order of cells |
| `OrderedMap` | odict.dfy | Python's `dict` with its insertion order |
| `GotohSpec` | gotoh_spec.dfy | the three affine recurrences (X, Y, M with a NaN / -inf sentinel), the traceback walk as the source writes it, the alignment it renders, and a state-aware traceback |
| `Gotoh` | gotoh.dfy | class `LocalAlignment` of src/local_alignment_affine.py and scripts/local_alignment_affine.py over three `array2` fields, each method proved against `GotohSpec` |
| `GotohFixed` | gotoh_fixed.dfy | local_alignment_affine.py: the same class with fixed 5 / -1 / -3 / -1 scoring |
| `LinearSpec`, `Linear` | linear_spec.dfy, linear.dfy | the linear-gap class of scripts/local_alignment_linear.py (matrix V, `V_max`, traceback) and the fill of local_alignment.py |
| `KmerIndex` | kmer_index.dfy | `protein_kmer_table` of 6tbsps-build.py |
| `SeedExtend` | seed_extend.dfy | src/seed_and_extend.py: `hamming_dist`, head/tail `seed`, `extend`, `naive_seed_and_extend` |
| `SlidingSeedExtend` | seed_sliding.dfy | scripts/seed_and_extend.py: sliding seeds, the `extend` that raises, per-frame search |
| `Dna` | dna.dfy | `reverse_complement`, `transcription` and the codon table, which both six-frame scripts share |
| `SixFrame` | six_frame.dfy | scripts/six_frame_translation.py: frames as suffixes, and translation up to the first stop codon |
| `SixFrameChunks` | sixframe_chunks.dfy | scripts/SixFrame_translation.py: frames built from 3-character chunks, and translation that emits stops and raises on unknown codons |
| `Fasta` | fasta.dfy | the line-by-line `parse_fasta` loop of all four copies, as a fold over the lines |
| `ReadSimulator` | read_simulator.dfy | `read_simulation` of scripts/read_simulator.py |

How the source's forms map onto Dafny:

- Methods that update fields in place are `method`s of a `class`. The alignment
  matrices are `array2` fields that the fill writes cell by cell.
- Loops are `while` or `for` loops with invariants. Each loop method is proved
  equal to a specification function, and the properties are proved about that
  function.
- Python dictionaries are `ODict` values. The loops reassign them, as the source
  assigns into its dict.
- Errors the source raises are `Failure` results:
  - an index miss (`KeyError`);
  - an unbound local variable;
  - `range` with a step of 0;
  - an assignment into a tuple;
  - `int()` of an array with several elements.
- A loop that never ends is also a `Failure` result.

## Model

| member | source | states |
|---|---|---|
| Gotoh.LocalAlignment.constructor | src/local_alignment_affine.py:24-66 | the three matrices are (len(x)+1) x (len(y)+1); M's row 0 and column 0 are 0; X's row 0 and Y's column 0 are -inf; X's column 0 and Y's row 0 are NaN; gap open defaults to -12 and gap extend to -4; the same holds for the copy in scripts/local_alignment_affine.py (lines 46-88), whose loaded named matrix is the score function parameter |
| Gotoh.LocalAlignment.SetColumnZero | src/local_alignment_affine.py:60-63 | after the first border loop X is NaN all down column 0, and Y is NaN at (0, 0) and -inf below it |
| Gotoh.LocalAlignment.SetRowZero | src/local_alignment_affine.py:64-66 | after the second border loop X is -inf and Y is NaN along the rest of row 0, and column 0 is as the first loop left it |
| Gotoh.LocalAlignment.FillCell | src/local_alignment_affine.py:103-110 | after one step, X[i][j], Y[i][j] and M[i][j] hold the affine recurrences over their already filled neighbours, and every other cell is unchanged |
| Gotoh.LocalAlignment.FillMatrix | src/local_alignment_affine.py:99-114 | the column-major fill leaves every cell holding the recurrences; `max_loc_list` is non-empty and holds exactly the cells of M equal to max(M), in row-major order; `score` is that maximum; the same for the copy in scripts/local_alignment_affine.py (lines 121-136) |
| Gotoh.LocalAlignment.MaxOfM | src/local_alignment_affine.py:111 | `M.max()` is at least every cell of M and is reached in some cell |
| Gotoh.LocalAlignment.CellsEqualTo | src/local_alignment_affine.py:111-112 | `np.where(M == v)` lists every cell equal to v, and only those, in row-major order |
| Gotoh.LocalAlignment.TraceStep | src/local_alignment_affine.py:158-194 | one pass of the loop: the branch is M==Y first, then M==X, then diagonal; it emits the aligned characters and the marker of that column and moves to the cell and value the walk defines |
| Gotoh.LocalAlignment.WalkBack | src/local_alignment_affine.py:149-196 | the while loop builds the three rows right to left as the walk from the maximal cell defines them, and stops where that walk stops |
| Gotoh.LocalAlignment.TraceOne | src/local_alignment_affine.py:149-202 | one traceback yields exactly the rendered alignment: aligned x, aligned y, marker and both ranges |
| Gotoh.LocalAlignment.Traceback | src/local_alignment_affine.py:142-206 | one aligned x, aligned y, marker, x range and y range per cell of `max_loc_list`, in the same order, each the rendering of that cell's walk; `score` is returned unchanged; the same for the copy in scripts/local_alignment_affine.py (lines 164-228) |
| GotohSpec.XCell | src/local_alignment_affine.py:60-66 | a cell of X that the fill reads (column 1 on) is never NaN, and the interior cells are finite |
| GotohSpec.YCell | src/local_alignment_affine.py:60-66 | a cell of Y that the fill reads (row 1 on) is never NaN, and the interior cells are finite |
| GotohSpec.LocalFloor | src/local_alignment_affine.py:107-110 | every cell of M is at least 0, and every interior cell of M is at least the X and Y cells beside it |
| GotohSpec.CellStep | src/local_alignment_affine.py:103-110 | the defined cell (i, j) is the Python `max` of its three neighbours' values, the gap scores and the residue score, just as the fill computes it |
| GotohSpec.Step | src/local_alignment_affine.py:157-194 | with gap extend at most 0, a cell with a non-zero value always takes one of the three branches; each branch emits its column, lowers i + j and keeps the walk in a state where the value is non-negative and 0 only at an M cell of 0 |
| GotohSpec.ResumesEnd | src/local_alignment_affine.py:157 | the loop stops exactly when the value reached is 0, and the columns built so far are then the whole walk |
| GotohSpec.ReversedRowsRender | src/local_alignment_affine.py:198-200 | reversing the rows that were appended right to left gives the alignment read left to right |
| GotohSpec.WalkCovers | src/local_alignment_affine.py:149-196 | the walk stops at a cell whose M is 0, and its columns use exactly the residues x[start..i) and y[start..j) between that cell and the cell it began at |
| GotohSpec.RenderShape | src/local_alignment_affine.py:158-194 | aligned x, aligned y and the marker have the same length; a gap in one row faces a residue in the other and a blank marker; a residue pair carries a bar when equal and '*' otherwise |
| GotohSpec.RenderRanges | src/local_alignment_affine.py:152-155 | each range ends at the maximal cell's index minus 1 and starts where the walk stopped, at a cell whose M is 0; deleting '_' from aligned x (or y) gives x (or y) over that range |
| GotohSpec.GapMarks | src/local_alignment_affine.py:161-175 | a '_' in aligned x (or y) is exactly a column that gaps x (or y) |
| GotohSpec.MaxCellsSame | src/local_alignment_affine.py:111-112 | `max(M)` and the cells `np.where` lists are determined by M: two non-empty lists of maximal cells agree on the maximum and hold the same cells |
| GotohSpec.ExampleMaximum | src/local_alignment_affine.py:101-112 | for x = AAA, y = ABBA, A/A 5, A/B -2, gap open -2 and gap extend -1, the maximum of M is 6, and the cells holding it are exactly (2, 4) and (3, 4), in that order |
| GotohSpec.ExampleMaxLocList | src/local_alignment_affine.py:101-112 | on that example any maximum and non-empty list of maximal cells are 6 and [(2, 4), (3, 4)], so `max_loc_list` holds both cells |
| GotohSpec.ExampleWalk | src/local_alignment_affine.py:156-194 | on that example the walk from (3, 4) emits A/A, A/B, a gap in x against B, then A/A |
| GotohSpec.ExampleWalkFrom24 | src/local_alignment_affine.py:156-194 | on that example the walk from (2, 4) emits A/A, two gaps in x against B, then A/A |
| GotohSpec.WalkMisreportsScore | src/local_alignment_affine.py:164-169 | on that example both maximal cells report the score 6; the traceback from (2, 4) renders an alignment scoring 6, but the one from (3, 4) renders an alignment whose affine score is 5 |
| GotohSpec.AwareTracebackScore | src/local_alignment_affine.py:101-110 | a traceback that remembers which matrix it follows renders an alignment whose affine score is exactly M[i][j], for every cell and every gap open of at most 0 |
| GotohSpec.ReplayM | src/local_alignment_affine.py:107-110 | the state-aware walk from M replays M[i][j]; when it ends in a gap, M[i][j] equals the X or Y cell of that gap |
| GotohSpec.ReplayY | src/local_alignment_affine.py:105-106 | the state-aware walk in Y replays Y[i][j] and ends with a gap in x |
| GotohSpec.ReplayX | src/local_alignment_affine.py:103-104 | the state-aware walk in X replays X[i][j] and ends with a gap in y |
| GotohFixed.TestScoreMatrix | local_alignment_affine.py:26-40 | the score is 5 exactly for equal characters and -1 exactly for unequal ones, '-' included, since the '-' test raises nothing |
| GotohFixed.Bounds | local_alignment_affine.py:113-122 | with the fixed scoring, M[i][j] is at most 5 min(i, j), and X and Y cells are at most 5 times the residues they can have matched, minus 4 |
| GotohFixed.DiagonalValue | local_alignment_affine.py:113-122 | aligning x with itself, the diagonal cell (i, i) of M is 5 i |
| GotohFixed.SelfMaxCells | local_alignment_affine.py:123-125 | aligning a non-empty x with itself, the only maximal cell is (len(x), len(x)), with score 5 len(x) |
| GotohFixed.SelfWalk | local_alignment_affine.py:161-201 | the walk from (i, i) of a self-alignment is i diagonal columns pairing each residue with itself, down to (0, 0) |
| GotohFixed.SelfRender | local_alignment_affine.py:156-205 | a non-empty x aligned with itself renders as x over x with a marker of all bars, over the full range of both |
| GotohFixed.SelfAlignment | local_alignment_affine.py:113-205 | whatever fill and traceback reproduce the recurrences, aligning a non-empty x with itself reports score 5 len(x) and exactly one alignment: x over x, marked all bars |
| GotohFixed.AlignFixed | local_alignment_affine.py:43-207 | the class with fixed scoring: gap open -3 and gap extend -1 whatever score matrix is passed; the maximal cells are those of M in row-major order; one rendered alignment per maximal cell; a non-empty string aligned with itself gives score 5 len(x) and one gap-free alignment marked all bars |
| LinearSpec.TestScoreMatrix | scripts/local_alignment_linear.py:22-36 | 2 exactly for equal characters, -6 exactly for unequal ones where one is '-', -4 exactly for the other unequal ones |
| LinearSpec.VCell | scripts/local_alignment_linear.py:72-77 | every cell of V is at least 0 |
| LinearSpec.LStep | scripts/local_alignment_linear.py:103-123 | one step stays in the matrix and lowers i + j |
| LinearSpec.LStepReplays | scripts/local_alignment_linear.py:102-123 | a positive cell is never on the border, and the predecessor the step chooses plus the score of the emitted column gives back V[i][j] |
| LinearSpec.LWalkScore | scripts/local_alignment_linear.py:102-123 | the scores of the emitted columns sum to V[i][j]; the walk stops inside the start cell's rectangle, at a cell whose V is 0 |
| LinearSpec.LWalkCovers | scripts/local_alignment_linear.py:110-123 | the columns of the walk use exactly x[start..i) and y[start..j) |
| LinearSpec.RowsAgree | scripts/local_alignment_linear.py:111-123 | the marker row has a bar exactly where the xscript has 'M'; an 'M' column has equal top and bottom; a 'D' column has '-' at the bottom; an 'I' column has '-' at the top |
| LinearSpec.TranscribedRender | scripts/local_alignment_linear.py:124-125 | reversing the lists built right to left gives the xscript and the three alignment lines joined by line breaks |
| LinearSpec.TiedMaxRaises | scripts/local_alignment_linear.py:78-79 | aligning "A" with "B" leaves V all 0, the maximum 0 is in four cells, and `int()` of their values fails |
| Linear.LocalAlignment.constructor | scripts/local_alignment_linear.py:39-55 | V is a zero matrix of (len(x)+1) x (len(y)+1) |
| Linear.LocalAlignment.FillCell | scripts/local_alignment_linear.py:74-77 | one cell takes the max of diagonal, vertical, horizontal and 0, after its upper, left and diagonal neighbours |
| Linear.LocalAlignment.FillV | scripts/local_alignment_linear.py:72-77 | the row-major loops leave every cell of V holding its recurrence |
| Linear.LocalAlignment.FillMatrix | scripts/local_alignment_linear.py:72-79 | V is filled; `V_max` is the maximum when exactly one cell holds it, and the fill fails when several do |
| Linear.LocalAlignment.NotTied | scripts/local_alignment_linear.py:78-79 | a maximum found in exactly one cell is not tied, so `int()` succeeds |
| Linear.LocalAlignment.IsTied | scripts/local_alignment_linear.py:78-79 | a maximum found in any other number of cells is tied, so `int()` fails |
| Linear.LocalAlignment.CellsEqualTo | scripts/local_alignment_linear.py:78 | `np.where(V == v)` lists every cell equal to v, and only those, in row-major order |
| Linear.LocalAlignment.MaxOfV | scripts/local_alignment_linear.py:78 | `V.max()` is at least every cell and is reached in some cell |
| Linear.LocalAlignment.ArgMax | scripts/local_alignment_linear.py:99 | `np.argmax` lands on a maximal cell before which, in row-major order, every cell is smaller |
| Linear.LocalAlignment.TraceStep | scripts/local_alignment_linear.py:103-123 | diagonal when it is at least both others, else vertical when it is at least horizontal, else horizontal; the characters emitted are those of that column |
| Linear.LocalAlignment.Traceback | scripts/local_alignment_linear.py:99-125 | the traceback starts at the first maximal cell, and `xscript` and `alignment` are those of the walk from it |
| Linear.FillOnly | local_alignment.py:7-30 | the fill-only copy with its 2/-6/-4 cost function: `V_max` is the maximum of V when it is in one cell, and the fill fails when it is tied |
| KmerIndex.WindowsOf | 6tbsps-build.py:63-64 | the windows of one sequence are its k-character slices at offsets 0 .. len-k, in order |
| KmerIndex.FileAsWritten | 6tbsps-build.py:65-67 | "create an empty list if missing, then append" is one filing step |
| KmerIndex.FileSequence | 6tbsps-build.py:63-67 | the inner loop files the windows of one sequence after those filed before |
| KmerIndex.KmerTable | 6tbsps-build.py:50-68 | the table is the index of all windows of all sequences, in dictionary order |
| KmerIndex.IndexSelects | 6tbsps-build.py:65-67 | a k-mer is a key exactly when some window has that text, and its list is those windows' hits in the order they were met |
| KmerIndex.KmerTableSound | 6tbsps-build.py:62-67 | every (id, loc) stored under a key K has loc + k within seqs[id] and seqs[id][loc:loc+k] == K |
| KmerIndex.KmerTableFinds | 6tbsps-build.py:62-67 | every window of every sequence is stored under its own text |
| KmerIndex.KmerTableNoRepeat | 6tbsps-build.py:62-67 | no hit is stored twice under a key |
| KmerIndex.KmerTableTotal | 6tbsps-build.py:63-67 | the table holds sum of max(0, len - k + 1) entries over the sequences, so a sequence shorter than k adds none |
| KmerIndex.KmerTableKeys | 6tbsps-build.py:64-67 | every key is k characters long and maps to a non-empty list |
| KmerIndex.KmerTableOrder | 6tbsps-build.py:62-67 | within a key's list, two hits of the same sequence come by increasing offset |
| SeedExtend.HammingDist | src/seed_and_extend.py:37-44 | unequal lengths fail the assert; otherwise the result is the number of differing positions |
| SeedExtend.MismatchesZero | src/seed_and_extend.py:39-42 | no mismatch among the first n positions exactly when the first n characters agree |
| SeedExtend.HammingZero | src/seed_and_extend.py:37-44 | the distance is 0 exactly on equal strings |
| SeedExtend.HammingSymmetric | src/seed_and_extend.py:39-42 | the distance is symmetric |
| SeedExtend.Seed | src/seed_and_extend.py:58-65 | no seeds when the query is shorter than k; otherwise exactly its head and its tail of length k |
| SeedExtend.IndexSoundSubject | 6tbsps-build.py:62-67 | the table `kmer_table` builds is a sound subject for `extend`: every (r, p) filed under a k-mer K has seqs[r][p:p+len(K)] == K |
| SeedExtend.SeedHitsInReference | src/seed_and_extend.py:86-89 | with a sound subject, each hit (r, p) of a seed gives a span [p, p + len(seed)) that lies inside reference r and reads the seed there |
| SeedExtend.AllHitsInReference | src/seed_and_extend.py:83-89 | with a sound subject, every hit the loops of `extend` meet is a span inside its reference |
| SeedExtend.ExtendInReference | src/seed_and_extend.py:82-99 | with a sound subject, every window (r, (start, end)) `extend` returns has 0 <= start <= end <= len(seqs[r]) |
| SeedExtend.ExtendSeed | src/seed_and_extend.py:86-97 | the inner loop merges one seed's hits into the windows built so far |
| SeedExtend.Extend | src/seed_and_extend.py:82-99 | the output is the merged windows of every hit of every seed present in the index; missing seeds are skipped |
| SeedExtend.NaiveSeedAndExtend | src/seed_and_extend.py:101-117 | `naive_seed_and_extend(q, s, k)` is `extend(seed(q, k), s)` |
| SeedExtend.MergeOrder | src/seed_and_extend.py:82-99 | each reference appears once, in the order of its first hit |
| SeedExtend.MergeHas | src/seed_and_extend.py:91-92 | a reference has a window exactly when some hit names it |
| SeedExtend.MergeCovers | src/seed_and_extend.py:91-97 | every hit lies inside its reference's window |
| SeedExtend.MergeTight | src/seed_and_extend.py:94-97 | a window's start is some hit's start and its end some hit's end, so it is the smallest window holding the hits |
| SeedExtend.AllHitsHas | src/seed_and_extend.py:83-89 | every hit of a seed present in the index is among the hits that are merged |
| SeedExtend.ExtendCovers | src/seed_and_extend.py:84-97 | for every present seed and every hit (r, p), the output holds r with start at most p and end at least p + len(seed) |
| SeedExtend.ExtendFinds | src/seed_and_extend.py:82-99 | a hit (r, p) of a present seed gives an item (r, (start, end)) of the returned list with start <= p and end >= p + len(seed) |
| SeedExtend.ExtendRecall | src/seed_and_extend.py:101-117 | when the head or tail seed of the query occurs at offset p of reference r, `naive_seed_and_extend` over the index `kmer_table` builds returns an item for r whose window holds [p, p + k) |
| SlidingSeedExtend.Slide | scripts/seed_and_extend.py:40-42 | every seed has length slen |
| SlidingSeedExtend.SeedSliding | scripts/seed_and_extend.py:39-44 | a gap of 0 fails as `range` does; otherwise the seeds are the slices the loop appends |
| SlidingSeedExtend.SlideAt | scripts/seed_and_extend.py:40-42 | seed t is seq[i + t sgap .. i + t sgap + slen); there are seeds exactly when one fits, and the last one is the last that fits |
| SlidingSeedExtend.ExtendSeedStrict | scripts/seed_and_extend.py:63-74 | the inner loop folds one seed's hits as written, failing at the first assignment into a tuple |
| SlidingSeedExtend.ExtendStrict | scripts/seed_and_extend.py:61-76 | `extend` indexes the index directly and fails on a missing seed or a widening hit; otherwise it returns the windows in first-seen order |
| SlidingSeedExtend.StrictWidenAgrees | scripts/seed_and_extend.py:68-74 | one hit as written stores a new reference's window, leaves a window alone when the hit fits it, and raises when the hit would widen it |
| SlidingSeedExtend.StrictAgrees | scripts/seed_and_extend.py:61-74 | folding hits as written succeeds, with the windows of the widening merge, exactly when no hit falls outside its reference's earlier window |
| SlidingSeedExtend.StrictMissingFails | scripts/seed_and_extend.py:63 | a seed missing from the index makes `extend` fail |
| SlidingSeedExtend.StrictSeedsAllPresent | scripts/seed_and_extend.py:62-63 | with every seed in the index, the seed loop is the fold of all their hits |
| SlidingSeedExtend.ExtendVersionsAgree | scripts/seed_and_extend.py:61-76 | with every seed present, the strict `extend` returns what the widening `extend` returns when no hit widens a window, and raises on the tuple otherwise |
| SlidingSeedExtend.ContainedKeepsFirst | scripts/seed_and_extend.py:68-69 | when the fold succeeds, a reference's window is the span of its first hit |
| SlidingSeedExtend.SearchFrames | scripts/seed_and_extend.py:94-97 | a successful search gives one result per frame, tagged with the frames in input order |
| SlidingSeedExtend.NaiveSeedAndExtend | scripts/seed_and_extend.py:78-99 | the loop over frames computes the per-frame search and stops at the first error |
| SlidingSeedExtend.SeedAndExtendFrame | scripts/seed_and_extend.py:95-97 | one pass of the loop over frames either appends (frame, extend(seed(seq))) to the results of the frames before, or ends the whole search with the error it raises |
| SlidingSeedExtend.FramesFailureStays | scripts/seed_and_extend.py:95-97 | once a frame fails, the whole search fails with that error |
| Dna.Complement | scripts/six_frame_translation.py:36 | a base is complemented to a different base |
| Dna.ComplementComplement | scripts/six_frame_translation.py:36 | complementing twice gives the base back |
| Dna.Complemented | scripts/six_frame_translation.py:37-40 | the list the loop builds has only bases and is no longer than the input |
| Dna.ReverseComplement | scripts/six_frame_translation.py:36-41 | the loop builds the complemented bases, and the result is their reversal; the copy in scripts/SixFrame_translation.py (lines 61-66) is the same |
| Dna.RevCompLength | scripts/six_frame_translation.py:38-41 | the output has one character per A/C/G/T of the input; other characters are dropped |
| Dna.RevCompBases | scripts/six_frame_translation.py:36-41 | on a string of bases, character k of the output is the complement of the character k from the end |
| Dna.RevCompRevComp | scripts/six_frame_translation.py:36-41 | on a string of bases, the reverse complement of the reverse complement is the string |
| Dna.Transcribe | scripts/six_frame_translation.py:92 | `replace('T', 'U')` keeps the length, turns every T into U and changes nothing else; the same call in scripts/SixFrame_translation.py (line 129) |
| Dna.TranscribeNoT | scripts/six_frame_translation.py:92 | no T is left, and transcribing twice is transcribing once |
| Dna.TranscribeBases | scripts/six_frame_translation.py:92 | DNA bases become RNA bases |
| Dna.AminoAcidKeys | scripts/six_frame_translation.py:105-120 | the table holds exactly the 64 codons over A/C/G/U |
| Dna.StopCodons | scripts/six_frame_translation.py:105-120 | exactly UAA, UAG and UGA map to '.' |
| SixFrame.SixFrames | scripts/six_frame_translation.py:53-80 | the keys are exactly 1, 2, 3, -1, -2, -3 |
| SixFrame.SixFramesDrop | scripts/six_frame_translation.py:56-71 | frame f is dna[f-1:] and frame -f is the reverse complement's [f-1:] |
| SixFrame.SixFramesSuffixes | scripts/six_frame_translation.py:56-71 | frame f is the read minus its first f-1 characters, and frame -f the same of the reverse complement, whose length is the number of bases of the read |
| SixFrame.SixFramesStrands | scripts/six_frame_translation.py:56-65 | for a read of bases, frame 1 is the read and the reverse complement of frame -1 is the read |
| SixFrame.Translation | scripts/six_frame_translation.py:121-134 | the while loop computes the translation the codon reading defines, including its failure |
| SixFrame.TranslatedSound | scripts/six_frame_translation.py:121-132 | each output residue is the table value of its codon, none is '.', the codons read lie within the input, and an early end is a stop codon |
| SixFrame.TranslationLength | scripts/six_frame_translation.py:123-132 | the output has at most len(rna) div 3 residues |
| SixFrame.TranslatedTotal | scripts/six_frame_translation.py:105-127 | an RNA string over A/C/G/U always translates |
| SixFrame.TranslatedHangs | scripts/six_frame_translation.py:125-127 | the loop never ends only on a codon missing from the table |
| SixFrameChunks.PlusOneLongest | scripts/SixFrame_translation.py:81-85 | frame '+1' has a multiple of 3 characters, is strictly shorter than a non-empty read, and leaves at most 3 characters over |
| SixFrameChunks.ChunksFrom | scripts/SixFrame_translation.py:88-99 | chunking from offset 1 or 2 to the end gives dna[1:] or dna[2:] |
| SixFrameChunks.SixFrames | scripts/SixFrame_translation.py:68-117 | the keys are '+1' to '-3'; '+1' is the whole-chunk prefix; '+2' and '+3' are dna[1:] and dna[2:]; '-1' to '-3' are the reverse complements of '+1' to '+3' |
| SixFrameChunks.Translation | scripts/SixFrame_translation.py:158-164 | the while loop computes the translation the codon reading defines, including the KeyError |
| SixFrameChunks.TranslatedSound | scripts/SixFrame_translation.py:158-163 | each output residue is the table value of its codon, stop codons included; codons are read only while the codon start plus 3 is below the length |
| SixFrameChunks.TranslatedTotal | scripts/SixFrame_translation.py:142-163 | an RNA string over A/C/G/U never raises |
| SixFrameChunks.TranslatedRaises | scripts/SixFrame_translation.py:162 | a KeyError names a codon of the input, at a codon boundary, that the table lacks |
| SixFrameChunks.PlusOneDropsLastCodon | scripts/SixFrame_translation.py:83 | a read of n whole codons, n at least 1, keeps only n-1 of them in frame '+1', and the whole-codon frame keeps all n |
| SixFrameChunks.WholeCodonLongest | scripts/SixFrame_translation.py:83 | the whole-codon prefix has a multiple of 3 characters and leaves fewer than 3 over |
| SixFrameChunks.TranslationDropsLastCodon | scripts/SixFrame_translation.py:160 | an RNA string of n whole codons translates to n-1 residues as written, and to n when every whole codon is read |
| SixFrameChunks.WholeTranslatedSound | scripts/SixFrame_translation.py:160-163 | reading every whole codon gives one table value per codon and leaves fewer than 3 characters unread |
| SixFrameChunks.WholeTranslatedTotal | scripts/SixFrame_translation.py:142-163 | reading every whole codon of an A/C/G/U string never fails |
| Text.RStrip | scripts/file_io.py:42 | `rstrip()` keeps a prefix, removes only white space, and leaves no white space at the end |
| Text.DecimalValue | scripts/read_simulator.py:79 | `'%d' % n` reads back as n |
| OrderedMap.Put | scripts/file_io.py:43 | assigning a key sets its value; a key already present keeps its place and a new key goes last |
| OrderedMap.PutOthers | scripts/file_io.py:43 | assigning one key leaves every other key's presence and value as it was |
| Fasta.HeaderRulesAgree | scripts/file_io.py:39 | `line[1:].rstrip()` and `line.rstrip()[1:]` give the same id, and `line.rstrip()` is that id with '>' in front |
| Fasta.ParseFasta | scripts/file_io.py:33-43 | the readline loop leaves the dictionary the fold over the lines defines, or fails as the fold does; the header rule and the starting dictionary are parameters, which cover the copies in 6tbsps-build.py (lines 36-48: the id keeps its '>', empty start), scripts/read_simulator.py (lines 42-55: adds into the caller's dictionary) and scripts/SixFrame_translation.py (lines 37-49: the id stripped before the '>' is dropped) |
| Fasta.ParsedFails | scripts/file_io.py:42 | parsing fails exactly when the first line is not a header, as the sequence is then unbound |
| Fasta.ParsedCurrent | scripts/file_io.py:43 | after every line the current id maps to the sequence read so far, so a header with no sequence lines maps to '' |
| Fasta.ParsedLastRecord | scripts/file_io.py:38-43 | the last header's id maps to its right-stripped sequence lines, concatenated, replacing any earlier record with that id |
| Fasta.ParsedUntouched | scripts/file_io.py:21-43 | an entry of the caller's dictionary whose key no header names is left as it was |
| ReadSimulator.AppendTiles | scripts/read_simulator.py:78-81 | the inner loop appends the reads of one reference |
| ReadSimulator.ReadSimulation | scripts/read_simulator.py:57-83 | the reads of the references in sorted order, each tiled at the step; a step of 0 fails when there is a reference, as `range` does |
| ReadSimulator.TilesAt | scripts/read_simulator.py:78-80 | read t of a reference is seq[t step .. t step + readLen), named after that range; the offsets run up to len - readLen; a reference shorter than readLen gives no reads |
| ReadSimulator.SimulationSound | scripts/read_simulator.py:76-81 | every read is a slice of length readLen of one reference, named after that reference and the range it covers |
| ReadSimulator.ReadIdRange | scripts/read_simulator.py:79 | the id encodes the half-open range: two reads of one reference with the same id cover the same range |

## Left out

- Gotoh.LocalAlignment.Traceback: requires a gap extend of at most 0, as do `TraceOne`, `WalkBack` and `TraceStep`. With a positive gap extend the traceback may not terminate, and every copy of the class uses a negative one.
- GotohSpec.AwareTracebackScore: proved for gap open at most 0, which covers every value the copies use.
- Floating point: the numpy matrices hold floats that only ever take integer values, so they are modelled with `int`. NaN and -inf are cells of a sentinel type. `float()` and `int()` of a single value are the identity. `int()` of an array of several values is the `Failure` of the linear fill.
- Gotoh.LocalAlignment.Match / FillMatrix: `_match` looks the two residues up in a pandas matrix (src/local_alignment_affine.py:74, scripts/local_alignment_affine.py:96), so a residue missing from the matrix raises KeyError in the source; the model takes a total score function and has no such error.
- Score matrices: loading BLOSUM and other matrices through pandas (score_matrix.py, scripts/score_matrices.py) is I/O and is not part of this model. The matrix is a function parameter. The e-value computation is floating-point `exp` arithmetic and is left out.
- The `score_matrix` argument of the fixed copy (local_alignment_affine.py) is stored and never read, so `AlignFixed` takes it and ignores it.
- `display` and `display_file` of every alignment class: printing only.
- The query scripts, `main` of 6tbsps-build.py, SixFrame_translation.py and read_simulator.py, `write_fasta`, scripts/evaluator.py and test.py: argparse, files, pickle, printing, a process pool and an external library. `read_dict` and `write_dict` in scripts/file_io.py are pickle I/O.
- The stop-codon filter in `main` of SixFrame_translation.py (frames starting with a stop codon are skipped) is part of `main` and is left out with it.
- File access in `parse_fasta`: `open` and `readline` are replaced by the list of lines `readline` returns. Each line is non-empty and still carries its line break.
- Negative lengths: k, the seed length, the seed gap, the read length and the step are `nat`. Negative values, which `range` and slicing accept in Python, are not modelled.
- ReadSimulator.ReadSimulation: `sorted(seqs)` is given as the `names` parameter with a precondition saying it is the sorted keys. The step `int(readLen/cov)` is given as the `step` parameter, because the float division is not modelled.
- SixFrame.Translation: a codon missing from the table makes the source loop forever. The model returns `Failure(Hang)` instead.
- SixFrame.SixFrames: the result is a `map`. The insertion order of the Python dict (1, 2, 3, -1, -2, -3) is not kept. The same holds for SixFrameChunks.SixFrames.
- Dna.AminoAcid: the 64-entry codon dictionary is written as a function of the codon. It has the same keys and values, proved by `AminoAcidKeys` and `StopCodons`.
- Concurrency: `multiprocessing.Pool` in the fast query script is not modelled.

## Findings

| source | as written | input that shows it | evidently intended | confidence | as-written member | corrected member |
|---|---|---|---|---|---|---|
| src/local_alignment_affine.py:157-194 | the traceback chooses its branch from M again at every cell, even after extending a gap, so it can leave the gap matrix it was following (the other two affine copies do the same) | x = AAA, y = ABBA, A/A 5, A/B -2, gap open -2, gap extend -1: the maximum 6 is at (2, 4) and (3, 4); the first alignment, A/A, _/B, _/B, A/A, scores 6, but the second, from (3, 4), is A/A, A/B, _/B, A/A, which scores 5 | the rendered alignment scores what the reported score says, by tracing back through the matrix each value came from | not executed | GotohSpec.WalkMisreportsScore | GotohSpec.AwareTracebackScore |
| scripts/local_alignment_linear.py:78-79 | `int(self.V[argmax])` converts the array of all maximal values, which fails when the maximum is in more than one cell (local_alignment.py does the same) | x = A, y = B: V is all 0, and all four cells are maximal | `V_max` is the maximum of V | not executed | LinearSpec.TiedMaxRaises | Linear.LocalAlignment.MaxOfV |
| scripts/SixFrame_translation.py:83 | frame '+1' takes chunks while `f1_loc + 3 < len(dna)`, which drops the last whole codon | a read of 6 characters keeps 3 in frame '+1' | frame '+1' holds every whole codon | not executed | SixFrameChunks.PlusOneDropsLastCodon | SixFrameChunks.WholeCodonLongest |
| scripts/SixFrame_translation.py:160 | translation reads codons while `loc + 3 < len(rna)`, so the last whole codon is never translated | "AUGAUG" translates to "M" | every whole codon is translated, with `<=` as in scripts/six_frame_translation.py:123 | not executed | SixFrameChunks.TranslationDropsLastCodon | SixFrameChunks.WholeTranslatedSound |
