# Weight lattices of root systems, modelled in Dafny

This project models the weight lattice (or weight space) of a root system as
implemented by `WeightSpace` and `WeightSpaceElement` in
`src/sage/combinat/root_system/weight_space.py`. The weight lattice is the free
module spanned by the fundamental weights `Lambda[i]`, one per node `i` of the
Dynkin diagram. For an affine type it can be *extended* by one more basis
element, `delta`. The simple roots are read off the columns of the Cartan
matrix, and the simple root at the special node is deformed by `+delta` in the
extended lattice.

Files and modules:

- `keys.dfy` (`Keys`): basis keys `Node(i) | Delta` and their display order,
  with `delta` after every node.
- `sums.dfy` (`Sums`): finite sums over sets of keys, and the lemma that any key
  can be summed first (`SumRemove`), so the order of summation does not matter.
- `free_module.dfy` (`FreeModule`): elements as sparse coefficient maps
  `map<Key, int>` with no zero entries. It provides monomials, sums of terms,
  addition and scaling. `Apply` is the linear extension of a map given on the
  basis.
- `weight_space.dfy` (`WeightSpaces`): the space itself. It covers
  construction, basis keys, fundamental weights, the basis extension, simple
  roots, the projection to the classical space, the quotient map from the
  extended space, and the guard of the ambient-space morphism.
- `weight_space_element.dfy` (`WeightSpaceElements`): the scalar product with
  the coroot lattice, dominance, `to_weight_space` and `to_ambient`.
- `weight_space_examples.dfy` (`WeightSpaceExamples`): the documented examples
  in types A_3, A_4, A_2^(1) and A_3^(1).

The root system is a collaborator and enters as a record `RootSystem`. The
record holds the index set, the Cartan matrix entries `cartan(i, j)`, the
special node, whether the type is affine, and whether the space is on the dual
side. The base ring is the integers.

Behaviour the model keeps from the source:

- Every failure is a `ValueError` in the source, except the ambient-space
  guard, which is a `TypeError`. The model gives each one its own `Error`
  variant.
- The ambient-space morphism does not check that the Cartan type is finite,
  and neither does the model.
- When both operands of `scalar` have the same number of terms, the sum runs
  over the coroot operand. That is how the source's `len(self) < len(lambdacheck)`
  test decides it.

In the source a space is built only by its constructor, which `Make` models
and which establishes `Valid`. The `WeightSpace` constructor itself is public:
`ExtendedSpace` and the examples use it directly, always on valid
configurations. The operations themselves are total over every `WeightSpace`
value and do not require `Valid`. On a configuration that `Make` refuses (an extended space
over a non-affine root system) they still compute the formulas of the source.

## Model

| member | source | states |
|---|---|---|
| `Keys.BelowIsTotalOrder` | src/sage/combinat/root_system/weight_space.py:181-185 | the display order of basis keys is a total order (reflexive, antisymmetric, transitive, total) |
| `Keys.Below` | src/sage/combinat/root_system/weight_space.py:181-185 | the display order of basis keys: nodes by their labels, `delta` after every node |
| `Keys.DeltaSortsLast` | src/sage/combinat/root_system/weight_space.py:181-182 | `delta` sorts after every key, and strictly after every node |
| `WeightSpaces.Make` | src/sage/combinat/root_system/weight_space.py:173-178 | construction succeeds iff the space is not extended or the type is affine; otherwise it fails with the "only for affine root systems" error; a constructed space keeps its root system and `is_extended` answers the flag |
| `WeightSpaces.Valid` | src/sage/combinat/root_system/weight_space.py:175-178 | the configurations construction accepts: an extended space only over an affine root system |
| `WeightSpaces.IsExtended` | src/sage/combinat/root_system/weight_space.py:203-216 | whether the space is extended, as given at construction |
| `WeightSpaces.BasisKeys` | src/sage/combinat/root_system/weight_space.py:173-179 | a key is a basis key iff it is a node of the index set, or it is `delta` and the space is extended |
| `WeightSpaces.FundamentalWeight` | src/sage/combinat/root_system/weight_space.py:272-282 | for a node: succeeds iff the node is in the index set (else the "not in the index set" error) and gives the element with coefficient 1 at that node and 0 elsewhere; for `delta`: fails iff the type is not affine, gives the `delta` basis element when extended and zero otherwise; every result is an element of the space |
| `WeightSpaces.BasisExtension` | src/sage/combinat/root_system/weight_space.py:305-308 | the family's keys are exactly the basis keys outside the index set: `{delta}` when extended, none otherwise; each member is the basis element of its key |
| `WeightSpaces.SimpleRoot` | src/sage/combinat/root_system/weight_space.py:362-368 | fails iff the key is not in the index set; otherwise the result is an element of the space whose coefficient at each node `i` is the Cartan entry (i, j) and whose `delta` coefficient is 1 iff the space is extended and `j` is the special node, 0 otherwise |
| `WeightSpaces.SimpleRootCoefficients` | src/sage/combinat/root_system/weight_space.py:362-368 | simple root `j` exists, and each of its coefficients is its `SimpleRootEntry`: the Cartan entry (i, j) at each index-set node `i`, 0 at every other node, and at `delta` 1 exactly when the space is extended and `j` is the special node |
| `WeightSpaces.ToClassicalOnBasis` | src/sage/combinat/root_system/weight_space.py:429-432 | zero for `delta` and for the special node, the basis element of the key otherwise; a basis key lands among the classical keys (index set without the special node) |
| `WeightSpaces.ToClassical` | src/sage/combinat/root_system/weight_space.py:408-432 | the linear extension of the projection sets the `delta` and special-node coefficients to zero and keeps every other coefficient; elements of the space go to elements of the classical space |
| `WeightSpaces.Quotient` | src/sage/combinat/root_system/weight_space.py:195-201 | for an affine non-extended space, the linear extension of `fundamental_weight` keeps each index-set coefficient and sends every other coefficient (so `delta`) to zero; elements of the extended space go to elements of this space |
| `WeightSpaces.QuotientDropsDelta` | src/sage/combinat/root_system/weight_space.py:195-201 | on an element of the extended space the quotient map is exactly the removal of the `delta` term |
| `WeightSpaces.QuotientOfFundamentalWeight` | src/sage/combinat/root_system/weight_space.py:272-278 | the quotient map sends each fundamental weight of the extended space to the fundamental weight of the same key, so `Lambda[i]` to `Lambda[i]` and `delta` to zero |
| `WeightSpaces.QuotientOfSimpleRoot` | src/sage/combinat/root_system/weight_space.py:64-69 | the quotient map sends each deformed simple root of the extended space to the simple root of the non-extended space |
| `WeightSpaces.ToAmbientSpaceMorphism` | src/sage/combinat/root_system/weight_space.py:450-457 | the morphism exists iff the space is not on the dual side; otherwise it fails with the "no map from the coweight space" error |
| `WeightSpaceElements.Scalar` | src/sage/combinat/root_system/weight_space.py:507-513 | fails iff the argument is outside the coroot lattice and space; otherwise, whichever operand the sum runs over, the result is the sum over all keys of the products of the two coefficients |
| `WeightSpaceElements.PairingOverEither` | src/sage/combinat/root_system/weight_space.py:510-513 | the sum over the keys of either operand alone equals the sum over the keys of both: a key missing from one operand contributes zero |
| `WeightSpaceElements.PairingSymmetric` | src/sage/combinat/root_system/weight_space.py:509-513 | the pairing does not depend on the order of its operands |
| `WeightSpaceElements.PairingWithBasis` | src/sage/combinat/root_system/weight_space.py:509-513 | pairing with the basis element of a key gives the coefficient of that key |
| `WeightSpaceElements.PairingAdditive` | src/sage/combinat/root_system/weight_space.py:509-513 | the pairing is additive in the weight |
| `WeightSpaceElements.PairingScaled` | src/sage/combinat/root_system/weight_space.py:509-513 | the pairing is homogeneous in the weight |
| `WeightSpaceElements.FundamentalWeightsDualToSimpleCoroots` | src/sage/combinat/root_system/weight_space.py:483-492 | `Lambda[i]` paired with the simple coroot `j` is 1 if `i == j` and 0 otherwise |
| `WeightSpaceElements.SimpleRootPairsToCartanEntry` | src/sage/combinat/root_system/weight_space.py:64-67 | the simple root `j`, deformed or not, paired with the simple coroot `i` is the Cartan entry (i, j) |
| `WeightSpaceElements.DeltaOrthogonalToCoroots` | src/sage/combinat/root_system/weight_space.py:531-533 | `delta` pairs to zero with every coroot-lattice element |
| `WeightSpaceElements.ScalarIgnoresDelta` | src/sage/combinat/root_system/weight_space.py:531-533 | adding any multiple of `delta` to a weight leaves its scalar product with any coroot-lattice element unchanged |
| `WeightSpaceElements.IsDominant` | src/sage/combinat/root_system/weight_space.py:543 | an element is dominant when its coefficient at every node of the index set is non-negative |
| `WeightSpaceElements.DominantIffNonNegativeOnSimpleCoroots` | src/sage/combinat/root_system/weight_space.py:543 | an element is dominant iff every index-set coefficient is non-negative, iff it pairs non-negatively with every simple coroot |
| `WeightSpaceElements.DominanceIgnoresDelta` | src/sage/combinat/root_system/weight_space.py:531-543 | adding any multiple of `delta` never changes dominance |
| `WeightSpaceElements.ToWeightSpace` | src/sage/combinat/root_system/weight_space.py:579 | the identity |
| `WeightSpaceElements.ToAmbient` | src/sage/combinat/root_system/weight_space.py:563 | fails iff the space is on the dual side; otherwise each coefficient of the image is the sum over the keys `k` of the element of its coefficient times the coefficient of the image of `k` |
| `WeightSpaceElements.ToAmbientOfFundamentalWeight` | src/sage/combinat/root_system/weight_space.py:450-457 | on the direct side, `Lambda[i]` goes to the ambient fundamental weight `i` |
| `WeightSpaceExamples.ConstructionExamples` | src/sage/combinat/root_system/weight_space.py:168-171 | an extended space of A_4 is refused; the basis keys of A_3^(1) are 0..3, plus `delta` when extended |
| `WeightSpaceExamples.BasisExtensionExamples` | src/sage/combinat/root_system/weight_space.py:291-303 | the basis extension is empty for A_3^(1) and A_3, and `{delta: delta}` for extended A_3^(1) |
| `WeightSpaceExamples.FundamentalWeightExamples` | src/sage/combinat/root_system/weight_space.py:262-270 | `Lambda[1]` of A_3; `delta` refused in A_3, `delta` itself in extended A_3^(1), zero in A_3^(1) |
| `WeightSpaceExamples.SimpleRootExampleA3` | src/sage/combinat/root_system/weight_space.py:40-43 | the simple root 2 of A_3 is `-Lambda[1] + 2*Lambda[2] - Lambda[3]` |
| `WeightSpaceExamples.SimpleRootExampleAffineA3` | src/sage/combinat/root_system/weight_space.py:79-83 | the simple root 0 of extended A_3^(1) is `2*Lambda[0] - Lambda[1] - Lambda[3] + delta` |
| `WeightSpaceExamples.SumOfSimpleRootsAffineA3` | src/sage/combinat/root_system/weight_space.py:53-88 | the simple roots of A_3^(1) sum to zero in the weight lattice and to `delta` in the extended one |
| `WeightSpaceExamples.SumOfSimpleRootsAffineA2` | src/sage/combinat/root_system/weight_space.py:535-538 | the null root of A_2^(1), the sum of its simple roots, is zero in the weight lattice and `delta` in the extended one, so the `delta` of the dominance example is the null root |
| `WeightSpaceExamples.DominanceExamples` | src/sage/combinat/root_system/weight_space.py:522-540 | `Lambda[1] + Lambda[3]` is dominant and `Lambda[1] - Lambda[2]` is not in A_3; `Lambda[1] - delta` is dominant in extended A_2^(1) |
| `WeightSpaceExamples.ClassicalProjectionExamples` | src/sage/combinat/root_system/weight_space.py:419-427 | in A_2^(1), `delta` and node 0 project to zero, nodes 1 and 2 to their classical basis elements |

## Left out

- Presentation: `_repr_`, `_name_string`, `_repr_term`, `_latex_term`, the `prefix` and `latex_prefix` arguments and the `deltacheck` renaming. They only affect how elements print.
- Unique representation (`__classcall_private__`) and coercion registration. A space is a plain value, and the registered quotient coercion is the explicit function `Quotient`. Its precondition (affine, not extended) is the condition under which the source registers it.
- `@cached_method` memoization. It has no effect on the values returned.
- The free-module machinery is replaced by `FreeModule`: sparse maps and a coefficientwise linear extension `Apply`. The category framework is not modelled.
- The base ring is the integers. Weight spaces over the rationals are not modelled, and neither is the order needed by `is_dominant` on other rings.
- Node labels are integers. The source accepts any hashable label.
- The Cartan type and Dynkin diagram are not computed. `dynkin_diagram().column(j)` is modelled as the Cartan entries `cartan(i, j)` over the index set.
- The classical space is represented only by its basis keys (`ClassicalKeys`). `classical().zero()` and `classical().monomial(i)` are the zero and basis elements of `FreeModule`.
- The ambient space is not modelled. Its fundamental weights are a parameter `omega` of `ToAmbientSpaceMorphism` and `ToAmbient`. The model does not say what happens when `delta` is applied in an extended space.
- Scalar: the membership test against the coroot lattice and coroot space (line 507) is the boolean parameter `inCoroots`. Coroot-lattice elements are sparse maps over node keys, and the simple coroot `j` is the basis element `Node(j)`.
- `null_root` lives in another module and is not modelled. The type BC example of a `2*delta` null root is not modelled either. For types A_2^(1) and A_3^(1) the null root is the sum of the simple roots, and `SumOfSimpleRootsAffineA2` and `SumOfSimpleRootsAffineA3` state that sum.
- Error messages are not modelled. Only which call fails, and with which `Error` variant, is modelled.
