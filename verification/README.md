# Modified Nakajima monomial crystals, modelled in Dafny

This project models the core of Sage's `monomial_crystals.py`: the crystal B(infinity)
and the highest weight crystals B(Lambda) realised by modified Nakajima monomials.

A monomial is a sparse map from a pair (i, k) to an integer exponent. Here i is a label of
the index set and k a level, and an absent key means exponent 0. The model covers:

- the commutation matrix `c` and its normalisation (`_normalize_c`);
- the crystal data of a Y-monomial: `phi`, `epsilon`, `_kf`, `_ke`, `e` and `f`;
- A-monomials, their conversion `to_Y_monomial`, and their `e` and `f`;
- the module generators of B(infinity) (`{}`) and B(Lambda) (`{(i,0): coefficient}`);
- the `f` of B(Lambda), which stops when phi_i is 0;
- monomial equality and the printed form (`_repr_`) of both kinds of monomial.

The Cartan datum is a value `Cartan.Datum` holding:

- the rank n;
- the Cartan matrix;
- the commutation matrix;
- whether the type is finite.

Labels are numbered consecutively from `Shift()`, which is 1 for finite types and 0 for
every other type. This matches the source's `i - shift` column lookup.

The operations phi, epsilon, `_kf`, `_ke`, `e`, `f`, `to_Y_monomial`, the A-side `phi`,
`epsilon`, `e` and `f`, the generator of B(Lambda) and the `f` of B(Lambda) have two forms:

- a specification function on maps, such as `Levels.Phi`, `YMonomials.FSpec` or
  `AMonomials.ToY`;
- a `method` that follows the source's loops. It copies the dictionary, fills the missing
  levels with 0, walks the running sums, builds `Aik` and folds it in. Its `ensures`
  says it returns exactly what the specification function describes.

The other operations have one form. `_normalize_c` is the single function
`Commutation.NormalizeC` and `__eq__` the single function `Monomials.Same`, since the source
has no loop there. `_repr_` is given only as a ghost specification, `Rendering.Render`, whose
key order `Rendering.SortedKeys` is chosen rather than computed; no compiled member prints a
monomial.

The crystal laws are proved about the specification functions. These are the inverse laws
of `e` and `f`, the weight shift, the effect on phi and epsilon, the relation between k_f
and k_e, and the commutation of `to_Y_monomial` with `e` and `f`.

Modules, one per file:

- `Wrappers`: `Option` and `Result`.
- `Monomials`: exponent maps, `Mul` (the source's "multiply by Aik" update) and
  `RemoveZeros`.
- `SetSums`: an order-free sum over a finite set of keys.
- `Levels`: running sums of one column and the values derived from them (phi, the pairing
  with h_i, epsilon, k_f, k_e).
- `Commutation`: the commutation matrix.
- `Cartan`: the Cartan datum.
- `YMonomials`: the monomial A_{i,k}^s and the specification of `e` and `f`.
- `YOperators`: the imperative methods of a Y-monomial.
- `AMonomials`: A-monomials.
- `Crystals`: the generators and the `f` of B(Lambda).
- `Rendering`: `_repr_`.

## Model

| member | source | states |
|---|---|---|
| Commutation.Default | src/sage/combinat/crystals/monomial_crystals.py:861-863 | the default matrix is n x n, with c_ij = 1 exactly when i < j |
| Commutation.NormalizeC | src/sage/combinat/crystals/monomial_crystals.py:836-871 | no matrix given means the default; a matrix is accepted (and returned unchanged) iff it is square, has a zero diagonal and c_ij + c_ji = 1 off the diagonal; the diagonal error is reported iff the diagonal has a nonzero entry, and the transpose error iff the diagonal is zero but some pair does not sum to 1 |
| Commutation.DefaultAccepted | src/sage/combinat/crystals/monomial_crystals.py:861-871 | the default matrix is always accepted, and its entry is 1 iff i < j |
| Commutation.DefaultRank4 | src/sage/combinat/crystals/monomial_crystals.py:843-847 | for n = 4 the default is [[0,1,1,1],[0,0,1,1],[0,0,0,1],[0,0,0,0]] |
| Commutation.ExplicitAccepted | src/sage/combinat/crystals/monomial_crystals.py:848-858 | the explicit matrix [[0,1,1],[0,0,0],[0,1,0]] is accepted unchanged |
| Commutation.Refusals | src/sage/combinat/crystals/monomial_crystals.py:867-870 | a symmetric off-diagonal pair is refused with the transpose error; a nonzero diagonal is refused with the diagonal error |
| Cartan.TypeA1 | src/sage/combinat/crystals/monomial_crystals.py:459-463 | the rank-1 finite datum is valid and has label 1 |
| Cartan.TypeA2 | src/sage/combinat/crystals/monomial_crystals.py:861-863 | the rank-2 finite datum with the default commutation matrix is valid and has labels 1 and 2 |
| Monomials.Same | src/sage/combinat/crystals/monomial_crystals.py:176-190 | two monomials are equal iff they store the same keys with the same exponents |
| Monomials.MulExp | src/sage/combinat/crystals/monomial_crystals.py:470-478 | the "multiply by Aik" loop adds exponents key by key |
| Monomials.MulOutside | src/sage/combinat/crystals/monomial_crystals.py:470-478 | a key outside Aik keeps its stored entry exactly |
| Monomials.MulNoZeros | src/sage/combinat/crystals/monomial_crystals.py:470-478 | when neither monomial stores a zero, the product stores none |
| Monomials.RemoveZeros | src/sage/combinat/crystals/monomial_crystals.py:619-621 | the clean-up stores no zero, keeps every exponent and adds no key |
| Levels.MaxPrefix | src/sage/combinat/crystals/monomial_crystals.py:346-348 | the result is the largest running sum of the column of index i over levels 0..K, and it is attained |
| Levels.FirstMax | src/sage/combinat/crystals/monomial_crystals.py:413-418 | the result is the first level whose running sum reaches the maximum |
| Levels.LastMax | src/sage/combinat/crystals/monomial_crystals.py:378-385 | the result is the last level whose running sum equals the maximum |
| Levels.Top | src/sage/combinat/crystals/monomial_crystals.py:341 | the result is the largest level stored with index i |
| Levels.EpsilonNonNegative | src/sage/combinat/crystals/monomial_crystals.py:315-318 | phi_i is at least the pairing sum_k y_i(k), so epsilon_i is never negative |
| Levels.KFBeforeKE | src/sage/combinat/crystals/monomial_crystals.py:350-418 | when k_e is finite, k_f <= k_e, and both are below the largest stored level |
| Levels.AbsentIndex | src/sage/combinat/crystals/monomial_crystals.py:337-338 | when index i does not occur, phi_i = epsilon_i = 0, k_f = 0 and k_e is infinite |
| YOperators.TopLevel | src/sage/combinat/crystals/monomial_crystals.py:337-341 | finds a key with index i exactly when one exists, and then the largest level of index i |
| YOperators.FillLevels | src/sage/combinat/crystals/monomial_crystals.py:340-345 | the copy has the same exponents, stores every level 0..K-1 of index i, and adds no other key |
| YOperators.ComputePhi | src/sage/combinat/crystals/monomial_crystals.py:320-348 | fails iff i is outside the index set; otherwise returns phi_i, the largest running sum of the column (0 when i does not occur) |
| YOperators.Pairing | src/sage/combinat/crystals/monomial_crystals.py:243-262 | on monomials with levels >= 0: fails (the fundamental-weight lookup) iff some stored label is outside the index set; otherwise the classical weight paired with h_i is the sum of the exponents stored with index i |
| YOperators.TotalIsSum | src/sage/combinat/crystals/monomial_crystals.py:262 | on monomials with levels >= 0, summing over the stored keys in any order gives the column total |
| YOperators.ComputeEpsilon | src/sage/combinat/crystals/monomial_crystals.py:300-318 | on monomials with levels >= 0: fails iff i is outside the index set (checked first) or some stored label is; otherwise returns phi_i minus the pairing, which is >= 0 |
| YOperators.EpsilonNeedsIndex | src/sage/combinat/crystals/monomial_crystals.py:365-368 | epsilon_i != 0 forces a key with index i, so the maximum over levels exists |
| YOperators.ComputeKF | src/sage/combinat/crystals/monomial_crystals.py:387-418 | 0 when i does not occur; otherwise the first level whose running sum reaches phi_i; fails iff i occurs but is outside the index set |
| YOperators.ComputeKE | src/sage/combinat/crystals/monomial_crystals.py:350-385 | infinite (None) when epsilon_i = 0, else the last level whose running sum equals phi_i; fails iff i is outside the index set (checked first) or some stored label is |
| YOperators.BuildFactor | src/sage/combinat/crystals/monomial_crystals.py:458-469 | the dictionary Aik built label by label is the monomial A_{i,k}^s |
| YOperators.MultiplyInto | src/sage/combinat/crystals/monomial_crystals.py:470-478 | the update loop computes the product, deleting keys whose exponent becomes 0 |
| YOperators.ComputeE | src/sage/combinat/crystals/monomial_crystals.py:420-479 | fails iff i is outside the index set (checked first) or some stored label is; None when epsilon_i = 0; otherwise M A_{i,k_e} |
| YOperators.ComputeF | src/sage/combinat/crystals/monomial_crystals.py:481-524 | fails iff i is outside the index set; otherwise M A_{i,k_f}^-1 |
| YMonomials.RowsAt | src/sage/combinat/crystals/monomial_crystals.py:464-469 | A_{i,k}^s stores (j, k + c_ji) with exponent s a_ji exactly for the labels j != i with a_ji != 0 |
| YMonomials.FactorExp | src/sage/combinat/crystals/monomial_crystals.py:458-469 | A_{i,k}^s has exponent s times that of A_{i,k} at every key and stores no zero |
| YMonomials.FactorKeys | src/sage/combinat/crystals/monomial_crystals.py:458-469 | the keys of A_{i,k}^s are (i,k), (i,k+1) and one key per adjacent label |
| YMonomials.ENoEdge | src/sage/combinat/crystals/monomial_crystals.py:453-454 | e_i is None iff epsilon_i = 0 |
| YMonomials.MulShift | src/sage/combinat/crystals/monomial_crystals.py:470-478 | multiplying by A_{i,k}^s adds s times the exponents of A_{i,k}, and keeps the no-zero invariant |
| YMonomials.MulFootprint | src/sage/combinat/crystals/monomial_crystals.py:470-478 | e and f touch only the keys of A_{i,k}; levels stay >= 0 and labels stay in the index set |
| YMonomials.MulCancel | src/sage/combinat/crystals/monomial_crystals.py:458-524 | multiplying by A_{i,k}^s and then by A_{i,k}^-s restores a monomial without stored zeros |
| YMonomials.PrefixAfterMul | src/sage/combinat/crystals/monomial_crystals.py:470-478 | running sums add under multiplication |
| YMonomials.TotalAfterMul | src/sage/combinat/crystals/monomial_crystals.py:243-262 | multiplying by A_{i,k}^s shifts the pairing with h_j by s a_ji |
| YMonomials.EWeight | src/sage/combinat/crystals/monomial_crystals.py:420-479 | e_i raises the weight by alpha_i: the pairing with h_j grows by a_ji |
| YMonomials.FWeight | src/sage/combinat/crystals/monomial_crystals.py:481-524 | f_i lowers the weight by alpha_i: the pairing with h_j drops by a_ji |
| YMonomials.KFAfterE | src/sage/combinat/crystals/monomial_crystals.py:350-479 | after e_i, the new k_f is the old k_e |
| YMonomials.KEAfterF | src/sage/combinat/crystals/monomial_crystals.py:350-524 | after f_i, epsilon_i grows by 1 and the new k_e is the old k_f |
| YMonomials.BelowAfterKE | src/sage/combinat/crystals/monomial_crystals.py:378-385 | running sums past k_e stay below phi_i |
| YMonomials.EThenF | src/sage/combinat/crystals/monomial_crystals.py:420-524 | f_i(e_i M) = M whenever e_i M is defined and M stores no zero |
| YMonomials.FThenE | src/sage/combinat/crystals/monomial_crystals.py:420-524 | e_i(f_i M) = M for every M without stored zeros |
| YMonomials.PhiAfterF | src/sage/combinat/crystals/monomial_crystals.py:320-348 | f_i lowers phi_i by exactly 1 |
| YMonomials.PhiAfterE | src/sage/combinat/crystals/monomial_crystals.py:300-348 | whenever e_i is defined, it raises phi_i by 1 and lowers epsilon_i by 1 |
| YMonomials.A1Factor | src/sage/combinat/crystals/monomial_crystals.py:458-469 | in type A1, A_{1,k}^s is Y(1,k)^s Y(1,k+1)^s |
| YMonomials.A2Factor | src/sage/combinat/crystals/monomial_crystals.py:503-514 | in type A2, A_{1,0}^-1 is Y(1,0)^-1 Y(1,1)^-1 Y(2,0) |
| AMonomials.InsideTouched | src/sage/combinat/crystals/monomial_crystals.py:604-618 | a key with a nonzero Y-exponent is one that some stored A-key contributes to |
| AMonomials.OutsideTouched | src/sage/combinat/crystals/monomial_crystals.py:604-618 | any other key has Y-exponent 0 |
| AMonomials.ToY | src/sage/combinat/crystals/monomial_crystals.py:583-622 | the Y-monomial stores no zero, and each Y-exponent is the sum over stored A-keys of exponent times the exponent in A_{i,k} |
| AMonomials.ToYStep | src/sage/combinat/crystals/monomial_crystals.py:583-622 | changing one A-exponent by s multiplies the Y-image by A_{i,k}^s, so the conversion is linear |
| AMonomials.ToYLevelled | src/sage/combinat/crystals/monomial_crystals.py:583-622 | levels >= 0 on the A side give levels >= 0 on the Y side |
| AMonomials.ToYLabelled | src/sage/combinat/crystals/monomial_crystals.py:583-622 | every label of the Y image is in the index set, so the Y-side epsilon and k_e never fail on an unknown label there |
| AMonomials.ToYEmpty | src/sage/combinat/crystals/monomial_crystals.py:583-622 | the empty A-monomial converts to the empty Y-monomial |
| AMonomials.AFCommutes | src/sage/combinat/crystals/monomial_crystals.py:720-749 | to_Y(f_i M) = f_i(to_Y M) |
| AMonomials.AECommutes | src/sage/combinat/crystals/monomial_crystals.py:689-718 | e_i is defined on M iff it is on to_Y(M), and then to_Y(e_i M) = e_i(to_Y M) |
| AMonomials.AEThenAF | src/sage/combinat/crystals/monomial_crystals.py:689-749 | f_i(e_i M) has the exponents of M (it may also store a 0) |
| AMonomials.KEAfterAF | src/sage/combinat/crystals/monomial_crystals.py:712-746 | after f_i on the A side, the k_e of the image is the old k_f |
| AMonomials.AFThenAE | src/sage/combinat/crystals/monomial_crystals.py:689-749 | e_i(f_i M) is M with its stored zeros dropped, for every A-monomial; so it is M when M stores no zero |
| AMonomials.A1Generator | src/sage/combinat/crystals/monomial_crystals.py:583-622 | in type A1, A(1,0) converts to Y(1,0) Y(1,1) |
| AMonomials.A1Image | src/sage/combinat/crystals/monomial_crystals.py:583-622 | in type A1, A(1,0) A(1,1)^-1 converts to Y(1,0) Y(1,2)^-1 |
| AMonomials.A1FirstMax | src/sage/combinat/crystals/monomial_crystals.py:387-418 | for Y(1,0) Y(1,2)^-1, k_f = 0 |
| AMonomials.AFStoresZero | src/sage/combinat/crystals/monomial_crystals.py:720-749 | f_1 of A(1,0) A(1,1)^-1 in type A1 keeps the key (1,0) with exponent 0 |
| AMonomials.DropZeros | src/sage/combinat/crystals/monomial_crystals.py:715-717 | the clean-up loop removes exactly the stored zeros |
| AMonomials.AccumulateFactor | src/sage/combinat/crystals/monomial_crystals.py:609-617 | one stored A-key with exponent v adds v times the exponents of A_{i,k} |
| AMonomials.ToYMonomial | src/sage/combinat/crystals/monomial_crystals.py:583-622 | the conversion loop computes to_Y |
| AMonomials.ComputeAPhi | src/sage/combinat/crystals/monomial_crystals.py:670-687 | fails iff i is outside the index set; otherwise phi_i of the Y-image |
| AMonomials.ComputeAEpsilon | src/sage/combinat/crystals/monomial_crystals.py:651-668 | fails iff i is outside the index set; otherwise epsilon_i of the Y-image |
| AMonomials.ComputeAE | src/sage/combinat/crystals/monomial_crystals.py:689-718 | fails iff i is outside the index set; otherwise the A-side e_i |
| AMonomials.ComputeAF | src/sage/combinat/crystals/monomial_crystals.py:720-749 | fails iff i is outside the index set; otherwise the A-side f_i, lowering (i, k_f) by 1 |
| Crystals.InfinityGeneratorIsHighest | src/sage/combinat/crystals/monomial_crystals.py:916 | on the empty monomial phi_i = epsilon_i = 0, k_f = 0 and no e_i applies |
| Crystals.Generator | src/sage/combinat/crystals/monomial_crystals.py:1189-1192 | the generator of B(Lambda) has exponent lambda_i at (i, 0) and nothing else |
| Crystals.BuildGenerator | src/sage/combinat/crystals/monomial_crystals.py:1189-1192 | the loop over the support builds that generator |
| Crystals.LevelZeroPhi | src/sage/combinat/crystals/monomial_crystals.py:320-348 | on a monomial stored at level 0 only, phi_i and the pairing are y_i(0), and epsilon_i = 0 |
| Crystals.GeneratorIsHighest | src/sage/combinat/crystals/monomial_crystals.py:1189-1192 | the generator of B(Lambda) has epsilon_i = 0, no e_i, and phi_i = lambda_i |
| Crystals.ComputeHwF | src/sage/combinat/crystals/monomial_crystals.py:1026-1044 | on monomials with levels >= 0: fails iff i is outside the index set; None iff phi_i = 0; otherwise the f_i of Y-monomials |
| Crystals.HwFLowersPhi | src/sage/combinat/crystals/monomial_crystals.py:1026-1044 | a step of B(Lambda) needs phi_i != 0 and lowers phi_i by 1, for every monomial |
| Crystals.HwFEdge | src/sage/combinat/crystals/monomial_crystals.py:1026-1044 | for M without stored zeros, a step of B(Lambda) needs phi_i != 0, lowers phi_i by 1, and e_i undoes it |
| Crystals.Chain | src/sage/combinat/crystals/monomial_crystals.py:1026-1044 | the t-th element of the 1-string of m Lambda_1 in type A1 is Y(1,0)^(m-t) Y(1,1)^-t |
| Crystals.ChainPhi | src/sage/combinat/crystals/monomial_crystals.py:320-418 | that element has phi_1 = m - t and k_f = 0 |
| Crystals.ChainStep | src/sage/combinat/crystals/monomial_crystals.py:1026-1044 | f_1 moves the t-th element to the next one for t < m, and gives None at t = m |
| Crystals.RankOneStart | src/sage/combinat/crystals/monomial_crystals.py:1189-1192 | the generator of B(m Lambda_1) in type A1 is Y(1,0)^m |
| Crystals.IterateString | src/sage/combinat/crystals/monomial_crystals.py:1026-1044 | along a string whose last element has no f_i, t applications reach the t-th element, and one more than the length fails |
| Crystals.ChainString | src/sage/combinat/crystals/monomial_crystals.py:1026-1044 | in type A1, the string of m Lambda_1 starts at the generator, each f_1 of B(Lambda) moves Chain(m, j) to Chain(m, j+1), and the last element has none |
| Crystals.RankOneString | src/sage/combinat/crystals/monomial_crystals.py:1026-1044 | from the generator of B(m Lambda_1) in type A1, exactly m applications of f_1 succeed |
| Crystals.A2FirstStep | src/sage/combinat/crystals/monomial_crystals.py:481-524 | in type A2, f_1(1) = Y(1,0)^-1 Y(1,1)^-1 Y(2,0) |
| Crystals.A2BackToOne | src/sage/combinat/crystals/monomial_crystals.py:420-479 | in type A2, e_1 of that monomial is 1 again |
| Rendering.SortedKeys | src/sage/combinat/crystals/monomial_crystals.py:159 | the keys in print order: each stored key once, strictly increasing by (i, k) |
| Rendering.SortedUnique | src/sage/combinat/crystals/monomial_crystals.py:159 | that order is unique: two strictly sorted sequences of the same keys are equal |
| Rendering.IntToString | src/sage/combinat/crystals/monomial_crystals.py:160 | an integer prints as decimal digits with a leading '-' exactly when it is negative |
| Rendering.IntRoundTrip | src/sage/combinat/crystals/monomial_crystals.py:160 | reading a printed integer back gives the integer |
| Rendering.FactorExponent | src/sage/combinat/crystals/monomial_crystals.py:160-162 | a factor carries '^' iff its exponent is not 1, and then ends with `^` and the exponent |
| Rendering.Render | src/sage/combinat/crystals/monomial_crystals.py:146-162 | a monomial prints as "1" iff it stores nothing |
| Rendering.RenderInOrder | src/sage/combinat/crystals/monomial_crystals.py:156-162 | a non-empty monomial prints as the factors of its stored keys, taken in any strictly increasing (i, k) order covering exactly those keys, joined by spaces |
| Rendering.RenderThree | src/sage/combinat/crystals/monomial_crystals.py:159-162 | three stored keys k0 < k1 < k2 print as their three factors in that order, separated by spaces |
| Rendering.YExample | src/sage/combinat/crystals/monomial_crystals.py:151-154 | {(1,0):1, (2,2):-2, (0,5):10} prints as `Y(0,5)^10 Y(1,0) Y(2,2)^-2` |
| Rendering.AExample | src/sage/combinat/crystals/monomial_crystals.py:542-558 | the A-monomial with keys (4,0), (2,0), (1,1), each with exponent -1, prints as `A(1,1)^-1 A(2,0)^-1 A(4,0)^-1` |

## Left out

- `weight`, `weight_in_root_lattice`, `_classical_weight` as a lattice element and `cardinality`: they need Sage's root systems. The model keeps only the pairing of the classical weight with h_i (`Levels.Total`), and the failure of its fundamental-weight lookup on a stored label outside the index set (`YMonomials.Error.UnknownLabel`), which `epsilon`, `_ke` and `e` inherit.
- The delta part of affine weights: it needs the same root-system machinery.
- Caching and unique representation (`__classcall_private__`, `_element_constructor_`), `__hash__`, `__lt__`, `_latex_` and `__ne__`: none of them affects the crystal operations.
- Cartan types as Sage objects: the datum is given directly, with labels consecutive from `Shift()`. The source reads the matrices by position `j_index` and by `i - shift`, which agree with labels exactly in that case.
- Cartan.Datum.Valid: requires the commutation matrix to have no negative entry, as the module documentation asks. `_normalize_c` as written does not check this, and `Commutation.NormalizeC` follows the code.
- YOperators.ComputePhi, ComputeKF, ComputeKE, ComputeE, ComputeF: require levels >= 0 (`Levelled`), the documented domain I x Z>=0. The source does not check this. `YMonomials.MulFootprint` proves that `e` and `f` keep monomials in that domain.
- YOperators.Pairing, YOperators.TotalIsSum, YOperators.ComputeEpsilon: require levels >= 0 (`Levelled`) for the same reason. The column total `Levels.Total` is read off the running sums from level 0.
- Crystals.ComputeHwF: requires levels >= 0 (`Levelled`) for the same reason, because it calls `ComputePhi` and `ComputeF`.
- AMonomials.ToYMonomial, ComputeAPhi, ComputeAEpsilon, ComputeAE, ComputeAF: also require every stored A-key to carry a label of the index set (`Labelled`). A label at or above `Shift() + n` makes the source index the matrices out of range. A label a little below `Shift()`, such as 0 in a finite type, gives a negative position `k[0] - shift`, which the matrices read from the end of the row, so the source silently uses another label's column (monomial_crystals.py lines 616-618). The `Labelled` requirement excludes both.
- Dictionary iteration order: keys are taken in any order. The results do not depend on it, and `TotalIsSum` shows this for the pairing.
- `phi` computes the maximum of the running sums with one running total. This is the same value the source gets by re-summing each prefix.
- YMonomials.EThenF, YMonomials.FThenE, Crystals.HwFEdge: require that no zero is stored. The multiplication deletes a stored 0 at a key that A_{i,k} touches, but keeps one elsewhere, so without that condition the result is M with only some of its zeros dropped. `AMonomials.AEThenAF` states the A-side law exponent-wise, because the A-side `f` can itself store a 0 (`AMonomials.AFStoresZero`). `AMonomials.AFThenAE` holds for every A-monomial: the result is M with all its zeros dropped.
- `crystals.NakajimaMonomials` with a weight Lambda is modelled by the sequence of its coefficients over the labels. Zero coefficients are skipped, as they are not in the support.
- git_interface.py and taylorParser.py are not part of this model. They have nothing to do with monomial crystals.
