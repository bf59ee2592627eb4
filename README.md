# Ice-cream hidden Markov model in Dafny

This project models `main.go` of the ice-cream HMM program: a hidden Markov
model with a START state and two weather states, HOT and COLD. The model
emits how many ice creams were eaten ("1", "2" or "3"). The program
computes three things:

- `likelihood`: the probability of the observations given a state sequence.
- `forward`: the total probability of the observations.
- `viterbi`: a HOT/COLD label for every time step.

It also has a `max` helper and `initIceCreamHMM`, which fills in the
concrete model.

The model follows the code as written:

- Probabilities are `real`, so there is no rounding.
- A map lookup of an unknown key reads 0, Go's zero value.
- The trellis is an `array2<real>` with `len(Q) - 1` rows. It is filled by
  the same nested loops as the source, and each loop is proved against a
  pure recurrence: `ForwardEngine.Alpha` for forward and
  `ViterbiEngine.Delta` for viterbi.
- forward and viterbi allocate only rows 0 and 1, so they require
  `|Q| == 3` whenever a row is written.

Beyond what each loop computes, the project proves what the tables mean:

- `Paths` is a generic theory of state paths with step weights.
- For forward, table[j][i] is the sum of the weights of all paths that end
  in row j at step i.
- For viterbi, table[j][i] is the largest such weight, and the row that
  `max` picks traces back a path that reaches that weight.

Modules:

- `Model` (model.dfy): the HMM record, map lookups, the concrete model.
- `Maximum` (maximum.dfy): `max`.
- `Likelihood` (likelihood.dfy): `likelihood`.
- `ForwardEngine` (forward.dfy): `forward`.
- `ViterbiEngine` (viterbi.dfy): `viterbi`.
- `Paths` (paths.dfy): path weights, path enumeration, sums and bounds over paths.
- `Semantics` (semantics.dfy): the tables as sums and maxima over paths.
- `MostLikely` (mostlikely.dfy): the backtrace that viterbi's comment promises.
- `IceCreamExamples` (icecream.dfy): facts about the concrete model.

## Model

| member | source | states |
|---|---|---|
| Maximum.Max | main.go:15-25 | the returned value occurs in the input, no element exceeds it, and it is the first maximum `MaxOf` |
| Maximum.ArgMaxOf | main.go:17-23 | the index the scan keeps is in range, holds a value at least every element, and every earlier element is strictly smaller (ties keep the first) |
| Maximum.MaxOfIsMaximum | main.go:15-25 | `MaxOf` occurs in the slice and bounds every element |
| Maximum.MaxOfUnique | main.go:15-25 | any value that occurs in the slice and bounds it is `MaxOf` |
| Maximum.MaxOfSingleton | main.go:17 | a one-element slice yields its element |
| Model.Lookup | main.go:73-75 | a present key reads its value; a missing key reads 0 |
| Model.InitIceCream | main.go:39-58 | Q becomes {START, HOT, COLD} with two trellis rows, V becomes {1, 2, 3}, A is 3x3, and B keeps its old vectors followed by two new 3-entry vectors |
| Model.HmmVar.constructor | main.go:179 | a declared HMM variable holds the zero record |
| Model.HmmVar.InitIceCreamHMM | main.go:39-64 | the fields after the call are `InitIceCream` of the fields before it |
| Model.IceCream | main.go:179-180 | the model main builds has two emission vectors and two trellis rows |
| Likelihood.Likelihood | main.go:69-79 | the result is the product, over the observations, of `B[Q[q_i]][V[o_i]]` |
| Likelihood.LikelihoodEmpty | main.go:70 | no observations give 1.0 |
| Likelihood.LikelihoodIgnoresTransitions | main.go:71-77 | replacing A changes neither readability nor any partial product |
| Likelihood.LikelihoodIsProbability | main.go:71-77 | when the entries of B are in [0, 1], every partial product is in [0, 1] |
| Likelihood.ColdOutOfRange | main.go:73-76 | on the ice-cream model, a state sequence that contains COLD has no readable emission row |
| Likelihood.HotReadsColdRow | main.go:73-76 | on the ice-cream model, likelihood(["3"], ["HOT"]) is 0.1, while forward and viterbi give HOT the emission 0.4 for "3" |
| Likelihood.CorrectedLikelihood | main.go:69-79 | with the START offset removed, the loop computes `CorrectedProduct` |
| Likelihood.CorrectedMatchesTrellisRows | main.go:73-76 | with the offset removed, every HOT/COLD sequence is readable on the ice-cream model, and each factor is the emission of the trellis row that forward and viterbi use for that label |
| ForwardEngine.Forward | main.go:84-124 | the result is the sum of the last column's rows 0 and 1 of the forward recurrence `Alpha` |
| ForwardEngine.IncomingSum | main.go:106-117 | the inner loop over k sums `A[k+1][j+1] * B[j][V[o_i]] * table[k][i-1]`, giving `Alpha(j, i)` |
| ForwardEngine.AlphaUnfold | main.go:104-118 | a later column entry is the complete running sum over all source rows |
| ForwardEngine.AlphaSumFactors | main.go:111-116 | the running sum equals the emission factor `B[j][V[o_i]]` times the sum of `A[k+1][j+1] * table[k][i-1]` |
| ForwardEngine.ForwardSingle | main.go:96-122 | for one observation, forward is `A[0][1]*B[0][V[o0]] + A[0][2]*B[1][V[o0]]` |
| ForwardEngine.AlphaNonNegative | main.go:92-120 | non-negative parameters give non-negative table entries |
| ForwardEngine.AlphaSumNonNegative | main.go:111-116 | non-negative parameters give a non-negative running sum |
| ViterbiEngine.Viterbi | main.go:129-175 | the output has one label per observation; label i is HOT exactly when table[0][i] > table[1][i], and COLD exactly otherwise (ties included) |
| ViterbiEngine.FillTable | main.go:131-164 | with exactly two trellis rows whenever there is an observation, every entry of the filled table equals the recurrence `Delta` |
| ViterbiEngine.IncomingProducts | main.go:149-160 | the collected slice holds the product for each source row, in order |
| ViterbiEngine.IncomingMax | main.go:147-161 | the entry written is `Delta(j, i)`, the `max` of the collected products |
| ViterbiEngine.Backtrace | main.go:165-172 | one label per column: HOT exactly when row 0 is strictly larger than row 1 |
| ViterbiEngine.Candidates | main.go:154-160 | there is one product per source row |
| ViterbiEngine.Labels | main.go:165-172 | the first t labels have length t, and label i compares rows 0 and 1 of column i |
| ViterbiEngine.DeltaInitialIsAlphaInitial | main.go:139-145 | viterbi's column 0 equals forward's column 0 |
| ViterbiEngine.DeltaRecurrence | main.go:147-161 | a later entry bounds every source row's product and equals one of them |
| ViterbiEngine.CandidateAt | main.go:154-160 | entry m of the collected products is the product for source row m |
| ViterbiEngine.LabelsEmpty | main.go:165-174 | no observations give no labels |
| Paths.JointSnoc | main.go:104-118 | extending a path by one step multiplies its weight by that step's weight |
| Paths.PathsToComplete | main.go:92-120 | every path of the given length over the trellis rows that ends in row j is enumerated |
| Paths.PathsToDistinct | main.go:92-120 | the enumeration lists each path once |
| Paths.ViaSumIsPathSum | main.go:111-116 | summing over the previous row splits the sum over paths into per-source-row parts |
| Paths.JointBounded | main.go:147-161 | a table that bounds every one-step extension of its previous column bounds the weight of every path |
| Paths.TracebackStep | main.go:147-161 | each step of a traced-back path is the row chosen at the step after it |
| Paths.TracebackAttains | main.go:147-161 | when the chosen rows reach the table entries exactly, the traced-back path weighs exactly the table entry |
| Semantics.AlphaIsPathSum | main.go:92-120 | forward's table[j][i] is the total weight of all state paths that end in row j at step i |
| Semantics.ForwardIsSumOverPaths | main.go:121-123 | forward's result is the total weight of all state paths over the whole observation sequence |
| Semantics.WeightsNonNegative | main.go:112-113 | non-negative parameters give non-negative step weights |
| Semantics.DeltasDominate | main.go:139-161 | viterbi's table bounds every one-step extension of its previous column |
| Semantics.DeltasAttained | main.go:139-161 | the row that `max` selects reaches each viterbi entry exactly |
| Semantics.ChoiceStep | main.go:154-161 | the row whose product `max` keeps is a trellis row, and its product is the entry |
| Semantics.DeltaIsBestPathWeight | main.go:129-164 | viterbi's table[j][i] is the largest weight of any path ending in row j at step i, and the path its maxima select attains it |
| Semantics.LabelMeaning | main.go:165-172 | label i is HOT exactly when the heaviest path ending in HOT at step i outweighs every path ending in COLD at step i |
| MostLikely.MostLikelyPathIsOptimal | main.go:125-128 | the traced-back path is a valid state path, and no state path over the observations weighs more |
| MostLikely.PathBelowLastColumn | main.go:161 | every full path weighs at most the largest entry of the last column |
| MostLikely.MostLikelyStep | main.go:154-161 | each earlier step of the most likely path is the source row that `max` kept for the step after it |
| MostLikely.ViterbiPath | main.go:125-175 | with a real backtrace, viterbi returns exactly the labels of the most likely state path |
| MostLikely.TraceRows | main.go:165-172 | over a filled table, the backtrace loop returns exactly the rows of the most likely path |
| MostLikely.ArgMax | main.go:15-25 | the scan of `max`, keeping the index, returns the first maximum |
| MostLikely.BackStep | main.go:149-161 | the source row selected for row j of column t is the first one with the largest product |
| MostLikely.FinalColumn | main.go:122 | the last column of the filled table, row by row |
| MostLikely.PathLabels | main.go:165-172 | one label per path step: row 0 is HOT, any other row is COLD |
| IceCreamExamples.IceCreamIndexable | main.go:99-100 | on the ice-cream model every symbol has an emission entry, since unknown ones read index 0 |
| IceCreamExamples.UnknownSymbolReadsAsOne | main.go:99-100 | an unknown symbol is emitted with the probability of "1" |
| IceCreamExamples.IceCreamStochastic | main.go:42-54 | every transition row and both emission vectors are non-negative and sum to 1 |
| IceCreamExamples.TransitionRows | main.go:42 | every row of A is non-negative and sums to 1 |
| IceCreamExamples.EmissionRows | main.go:47-52 | both emission vectors are non-negative and sum to 1 |
| IceCreamExamples.ForwardOfThree | main.go:96-122 | forward(["3"]) is 0.8 * 0.4 + 0.2 * 0.1 = 0.34 |
| IceCreamExamples.ViterbiOfThree | main.go:139-168 | viterbi(["3"]) is ["HOT"] |
| IceCreamExamples.TrellisOfOneOne | main.go:135-164 | the viterbi trellis for ["1", "1"]: column 0 is 0.16 and 0.1, and column 1 is 0.0224 and 0.03 |
| IceCreamExamples.JointsOfOneOne | main.go:42-54 | the path HOT, COLD weighs 0.024 and COLD, COLD weighs 0.03 |
| IceCreamExamples.MostLikelyOfOneOne | main.go:125-128 | the most likely path for ["1", "1"] is COLD, COLD |
| IceCreamExamples.LabelsNotMostLikely | main.go:165-172 | viterbi labels ["1", "1"] HOT, COLD, a path lighter than COLD, COLD, which is the most likely path |

## Left out

- `matPrint` and `main` are not modelled. They only format and print.
- gonum's `mat.Dense` becomes nested sequences: `A.At(r, c)` is `A[r][c]` and `B[j].At(0, v)` is `B[j][v]`.
- Floating point is not modelled. Rounding and underflow on long sequences are ignored; all arithmetic is exact `real`.
- Panics are not modelled as behaviour. Out-of-range indices and a missing row are preconditions instead: `Indexable`, `Readable`, and `|Q| == 3`.
- The trellis is one `array2<real>` rather than a slice of row slices. The source allocates exactly rows 0 and 1, which the `|Q| == 3` precondition matches.
- The inner loops of forward and viterbi are separate methods: `IncomingSum`, `IncomingProducts` and `IncomingMax`. Their `fwP` slice or sum is the method's result.
- Model.InitIceCream: the record update is a function on values. `HmmVar.InitIceCreamHMM` gives the in-place version through a pointer receiver. forward, viterbi and likelihood never change the record, so they take it by value.
- ForwardEngine.Forward: an empty observation sequence is excluded. The Go code indexes column -1 in that case and panics.
- ViterbiEngine.Viterbi: with more than three entries in Q, allocating the table does not panic, but the fill loop panics at its first access to the missing third row (the read of `A.At(0, 3)` or the write to `table[2][0]`) as soon as there is an observation. The precondition therefore allows a larger Q only for the empty sequence, and `ViterbiEngine.FillTable` requires exactly two rows whenever there is an observation.

## Findings

| source | as written | input that shows it | evidently intended | confidence | as-written member | corrected member |
|---|---|---|---|---|---|---|
| main.go:165-172 | the backtrace labels each step by comparing rows 0 and 1 of that column on their own | ice-cream model, observations ["1", "1"]: the labels are HOT, COLD (path weight 0.024), but COLD, COLD weighs 0.03 | "the most likely state sequence" (main.go:126-127): trace back from the best final row through the rows that `max` selected | not executed | IceCreamExamples.LabelsNotMostLikely | MostLikely.ViterbiPath |
| main.go:72-76 | `B[Q[q]]` is the emission row for label q, but Q numbers START as 0, so HOT is 1 and COLD is 2; the comment at main.go:72 expects the index to be 0 or 1 | ice-cream model: any COLD label reads B[2], past the two emission vectors, so likelihood panics; likelihood(["3"], ["HOT"]) reads B[1] and gives 0.1, whereas forward and viterbi, which label row 0 HOT (main.go:168), give HOT the emission 0.4 of B[0] (the comments at main.go:46 and main.go:51 name the vectors the other way round, but the code's row convention is the one followed here) | `B[Q[q]-1]`, a 0 or 1 index, the row forward and viterbi use for that state | not executed | Likelihood.HotReadsColdRow | Likelihood.CorrectedLikelihood |
