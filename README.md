# Log-derivative lookup library, modelled in Dafny

This project models the generic log-derivative lookup library of the Honk
proof system. The library has two routines.

- `compute_logderivative_inverse` builds the lookup inverse column. It walks
  the rows below `circuit_size`. For every row that holds a lookup, it stores
  the product of the row's read terms and write terms. It then batch-inverts
  the whole column in place.
- `accumulate_logderivative_lookup_subrelation_contributions` adds one row's
  contribution to the two lookup subrelations. It does this in five steps:
  - evaluate the read terms and then the write terms into one array;
  - copy that array and turn the copy into prefix products in place;
  - add `(∏ terms · I − inverse_exists) · scaling_factor` to subrelation 0;
  - run a backward sweep, seeded with the committed inverse `I`, which turns
    slot `i` into `I · ∏_{j≠i} term_j`;
  - add each read predicate times its slot to subrelation 1, then subtract
    each write predicate times its slot times its read count.

The project has three modules.

- `Field` (field.dfy) is the scalar field `Z_P` for an arbitrary prime `P`.
  Elements are kept in normal form `0 <= x < P`. It provides addition,
  subtraction, multiplication and inversion. The inverse comes from the
  extended Euclidean algorithm and maps zero to zero, as the field library
  does. `BatchInvert` stands in for `FF::batch_invert`.
- `Products` (products.dfy) holds ordered products and sums of field elements,
  folded from the left the way the library multiplies its terms. It also holds
  the product algebra the lookup argument relies on: products of
  concatenations, "all but one" products, and the zero-product rule.
- `LookupLibrary` (lookup_library.dfy) holds the library itself. The concrete
  lookup relation is a plug-in value, `LookupRelation`. It gives the number of
  read and write terms, the term evaluators, the term predicates,
  `compute_inverse_exists`, `lookup_exists_at_row`, and the row's read-count
  and inverse columns.

Both routines are imperative methods over arrays. Each method is proved
against specification functions: `Terms`, `Denominator`, `Partial`,
`ReadContributions`, `WriteContributions` and `Subrelation0Contribution`.
Lemmas then state what those functions mean for the lookup argument.

The write side of subrelation 1 is subtracted, as the code does at line 154.
The doc comment at lines 72-74 writes that sum with "+". The model follows
the code.

The comment at line 18 says the inverse column is 0 at rows without a lookup.
The code never writes such rows; it only batch-inverts whatever they held.
So `ComputeLogderivativeInverse` states zero at those rows only when the
column starts out all zero. Otherwise it states that each such entry is
inverted in place.

## Model

| member | source | states |
|---|---|---|
| Field.Inv | barretenberg/cpp/src/barretenberg/honk/proof_system/lookup_library.hpp:58-59 | the inverse of a nonzero element multiplies it to 1; zero is mapped to 0 (the case the comment at line 58 worries about) |
| Field.InvUnique | barretenberg/cpp/src/barretenberg/honk/proof_system/lookup_library.hpp:58-59 | an element with a multiplicative partner is nonzero, and its partner is exactly its inverse |
| Field.NoZeroDivisors | barretenberg/cpp/src/barretenberg/honk/proof_system/lookup_library.hpp:58-59 | a product is zero exactly when one of its factors is zero (Z_P is a field because P is prime) |
| Field.AddSubAreModular | barretenberg/cpp/src/barretenberg/honk/proof_system/lookup_library.hpp:131-132 | the conditional-correction `Add` and `Sub` are addition and subtraction modulo P |
| Field.BatchInvert | barretenberg/cpp/src/barretenberg/honk/proof_system/lookup_library.hpp:59 | in place, every nonzero entry becomes its inverse and every zero entry stays zero; each entry becomes `Inv` of its old value |
| Products.ProdAppend | barretenberg/cpp/src/barretenberg/honk/proof_system/lookup_library.hpp:44-54 | folding the read terms and then the write terms gives the product of the two partial products |
| Products.ProdWithout | barretenberg/cpp/src/barretenberg/honk/proof_system/lookup_library.hpp:110-114 | the product of all entries except entry k, times entry k, is the product of all entries |
| Products.ProdZero | barretenberg/cpp/src/barretenberg/honk/proof_system/lookup_library.hpp:58 | a product is zero exactly when one of its factors is zero |
| LookupLibrary.ExpectedInverse | barretenberg/cpp/src/barretenberg/honk/proof_system/lookup_library.hpp:11-18 | at a lookup row with a nonzero denominator, the expected inverse times the denominator is 1; otherwise the expected inverse is 0 |
| LookupLibrary.ComputeDenominator | barretenberg/cpp/src/barretenberg/honk/proof_system/lookup_library.hpp:44-54 | folding `denominator *= term` over the read terms, then over the write terms, yields the product of all terms in slot order |
| LookupLibrary.StoreDenominators | barretenberg/cpp/src/barretenberg/honk/proof_system/lookup_library.hpp:38-56 | every lookup row below circuit_size holds its denominator; every other entry, including every index at or beyond circuit_size, is left unchanged |
| LookupLibrary.ComputeLogderivativeInverse | barretenberg/cpp/src/barretenberg/honk/proof_system/lookup_library.hpp:26-60 | lookup rows hold the inverse of their denominator (0 if it is 0); other entries are inverted in place; from an all-zero column, entry i is `ExpectedInverse` of row i below circuit_size and 0 beyond it |
| LookupLibrary.EvaluateTerms | barretenberg/cpp/src/barretenberg/honk/proof_system/lookup_library.hpp:115-119 | a fresh array holding the read terms in slots 0..R-1 and the write terms in slots R..R+W-1 |
| LookupLibrary.CopyTerms | barretenberg/cpp/src/barretenberg/honk/proof_system/lookup_library.hpp:121-122 | a fresh array with the same contents as the term array |
| LookupLibrary.PrefixProducts | barretenberg/cpp/src/barretenberg/honk/proof_system/lookup_library.hpp:124-125 | in place, slot i becomes the product of the original slots 0..i |
| LookupLibrary.SweepStep | barretenberg/cpp/src/barretenberg/honk/proof_system/lookup_library.hpp:135-139 | one sweep step: the prefix product before k times the running inverse is the partial at k, and multiplying in term k moves the running inverse down one slot |
| LookupLibrary.SweepEnds | barretenberg/cpp/src/barretenberg/honk/proof_system/lookup_library.hpp:127-140 | the sweep starts from I alone, and the running inverse left at the end is the partial for slot 0 |
| LookupLibrary.BackwardSweep | barretenberg/cpp/src/barretenberg/honk/proof_system/lookup_library.hpp:127-140 | starting from prefix products, every slot i ends as `I · ∏_{j≠i} term_j` |
| LookupLibrary.AddReadContributions | barretenberg/cpp/src/barretenberg/honk/proof_system/lookup_library.hpp:144-147 | subrelation 1 grows by the sum of read predicate i times partial i; subrelation 0 is untouched |
| LookupLibrary.SubtractWriteContributions | barretenberg/cpp/src/barretenberg/honk/proof_system/lookup_library.hpp:151-155 | subrelation 1 shrinks by the sum of write predicate k times partial R+k times read count k; subrelation 0 is untouched |
| LookupLibrary.AccumulateLogderivativeLookupSubrelationContributions | barretenberg/cpp/src/barretenberg/honk/proof_system/lookup_library.hpp:89-156 | subrelation 0 gains `(∏ terms · I − inverse_exists) · scaling_factor`; subrelation 1 gains the read sum and loses the write sum, unscaled; both slots are updated, never overwritten |
| LookupLibrary.DenominatorZero | barretenberg/cpp/src/barretenberg/honk/proof_system/lookup_library.hpp:58 | a row's denominator is zero exactly when one of its read or write terms is zero |
| LookupLibrary.Subrelation0Vanishes | barretenberg/cpp/src/barretenberg/honk/proof_system/lookup_library.hpp:129-132 | subrelation 0 gains zero exactly when the scaling factor is zero or `∏ terms · I == inverse_exists` |
| LookupLibrary.HonestRowSatisfiesSubrelation0 | barretenberg/cpp/src/barretenberg/honk/proof_system/lookup_library.hpp:64-72 | with the inverse column as compute_logderivative_inverse builds it and inverse_exists equal to 1 exactly at lookup rows, subrelation 0 gains zero at every row whose lookup denominator is nonzero |
| LookupLibrary.ZeroDenominatorViolatesSubrelation0 | barretenberg/cpp/src/barretenberg/honk/proof_system/lookup_library.hpp:58 | a row with a zero denominator and inverse_exists 1 makes subrelation 0 nonzero under any nonzero scaling factor, whatever the inverse column holds |
| LookupLibrary.Subrelation0DeterminesInverse | barretenberg/cpp/src/barretenberg/honk/proof_system/lookup_library.hpp:64-72 | where inverse_exists is 1 and the scaling factor is nonzero, subrelation 0 gains zero exactly when the denominator is nonzero and the inverse column holds its inverse: the check that I "has been computed correctly" |
| LookupLibrary.Subrelation0IgnoresInverseAtZeroRow | barretenberg/cpp/src/barretenberg/honk/proof_system/lookup_library.hpp:129-132 | where inverse_exists is 0 and the denominator is zero, subrelation 0 gains zero whatever the inverse column holds |
| LookupLibrary.PartialTimesTerm | barretenberg/cpp/src/barretenberg/honk/proof_system/lookup_library.hpp:110-114 | partial k times term k is I times the product of all terms |
| LookupLibrary.PartialIsTermInverse | barretenberg/cpp/src/barretenberg/honk/proof_system/lookup_library.hpp:110-114 | if I inverts the product of all terms, then partial k is the inverse of term k |
| LookupLibrary.CorrectInverseGivesFractions | barretenberg/cpp/src/barretenberg/honk/proof_system/lookup_library.hpp:109-114 | with a correct inverse, each read summand is read predicate / read term, and each write summand is write predicate · read count / write term |
| LookupLibrary.ZeroInverseAddsNothing | barretenberg/cpp/src/barretenberg/honk/proof_system/lookup_library.hpp:144-155 | a row whose inverse column holds 0 adds nothing to subrelation 1, on either side |

## Left out

- `FF::batch_invert` is part of the field library and is not part of this model. `Field.BatchInvert` inverts entry by entry with the same zero-preserving result. It does not model Montgomery's batch-inversion trick.
- Montgomery representation of field elements and the concrete BN254 scalar modulus. `P` is any prime; no step of the library depends on which prime.
- The univariate `View`/`Accumulator` types (lines 100-103, 127). The model evaluates the relation at a single point, with plain field elements, so each subrelation is a single field element.
- The polynomial-degree bookkeeping in the comments at lines 134, 142-143 and 149-150. It describes the univariate representation, not the arithmetic.
- The concrete lookup relations (range tables, XOR tables, the ECCVM lookup). They are not part of this model, so `LookupRelation` carries their evaluators as arbitrary functions.
- The sumcheck driver, the Fiat–Shamir transcript that samples `RelationParameters`, commitments, and the storage layout behind `get_row`. The polynomials are split into two parts:
  - a read-only sequence of rows, which the plug-in reads;
  - the mutable inverse column.

  The row loop reads row i before it writes entry i and reads no other entry, so the split loses nothing.
- `constexpr_for` unrolling at compile time. It is modelled as an ordinary loop over slot indices.
- Parallel or segmented execution of either routine. The model is sequential.
- The global claim that subrelation 1 sums to zero over a whole honest trace (lines 67-68, 74). The model works one row at a time. It has no whole-trace sum of subrelation 1. It also has no hypothesis tying each row's read count to how often that row's table value is read. So the global claim is not stated. Its sign also disagrees with the code at line 154. `CorrectInverseGivesFractions` states the per-row summands instead.
- Subrelation 0 does not make every inverse-column entry tamper-evident. At a row where inverse_exists is 0 and the denominator is zero, any value in the inverse column contributes zero (`Subrelation0IgnoresInverseAtZeroRow`). Only where inverse_exists is 1 does subrelation 0 force the entry to be the inverse (`Subrelation0DeterminesInverse`).
- LookupLibrary.AccumulateLogderivativeLookupSubrelationContributions: requires at least one read or write term. With none, `NUM_TOTAL_TERMS - 1` underflows as a `size_t` and line 132 indexes outside the array.
- LookupLibrary.PrefixProducts: requires a non-empty array, for the same reason (its loop bound is `NUM_TOTAL_TERMS - 1`).
- LookupLibrary.BackwardSweep: requires a non-empty array, for the same reason.
