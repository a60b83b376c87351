/**
 * The generic log-derivative lookup library: building the inverse column of
 * a lookup relation, and accumulating one row's contribution to the
 * relation's two subrelations.
 *
 * The concrete relation (range table, XOR table, ECCVM lookup, ...) is a
 * plug-in: its term evaluators and predicates are given as functions of a row
 * and the relation parameters.
 */
module LookupLibrary {
  import opened Field
  import opened Products

  /**
   * A lookup relation plug-in, together with the two entity columns the
   * library reads from a row: the read counts and the committed inverse.
   */
  datatype LookupRelation<-Row, -Params> = LookupRelation(
    readTerms: nat,                          // READ_TERMS
    writeTerms: nat,                         // WRITE_TERMS
    readTerm: (Row, Params, nat) -> Fe,      // compute_read_term<i>
    writeTerm: (Row, Params, nat) -> Fe,     // compute_write_term<i>
    readTermPredicate: (Row, nat) -> Fe,     // compute_read_term_predicate<i>
    writeTermPredicate: (Row, nat) -> Fe,    // compute_write_term_predicate<i>
    inverseExists: Row -> Fe,                // compute_inverse_exists
    lookupExistsAtRow: Row -> bool,          // lookup_exists_at_row
    lookupReadCounts: (Row, nat) -> Fe,      // the row's lookup_read_counts<i> column
    lookupInverses: Row -> Fe                // the row's lookup_inverses column
  )

  /* ---------- specification ---------- */

  /** The row's read terms, in slot order. */
  function ReadTerms<Row, Params>(rel: LookupRelation<Row, Params>, row: Row, params: Params): (t: seq<Fe>)
    ensures |t| == rel.readTerms
  {
    seq(rel.readTerms, i requires 0 <= i < rel.readTerms => rel.readTerm(row, params, i))
  }

  /** The row's write terms, in slot order. */
  function WriteTerms<Row, Params>(rel: LookupRelation<Row, Params>, row: Row, params: Params): (t: seq<Fe>)
    ensures |t| == rel.writeTerms
  {
    seq(rel.writeTerms, k requires 0 <= k < rel.writeTerms => rel.writeTerm(row, params, k))
  }

  /** The row's read terms followed by its write terms. */
  function Terms<Row, Params>(rel: LookupRelation<Row, Params>, row: Row, params: Params): (t: seq<Fe>)
    ensures |t| == rel.readTerms + rel.writeTerms
  {
    ReadTerms(rel, row, params) + WriteTerms(rel, row, params)
  }

  /** The row's denominator: the product of all its read and write terms. */
  function Denominator<Row, Params>(rel: LookupRelation<Row, Params>, row: Row, params: Params): Fe
  {
    Prod(Terms(rel, row, params))
  }

  /** The value the inverse column must hold at a row. */
  function ExpectedInverse<Row, Params>(rel: LookupRelation<Row, Params>, row: Row, params: Params): (r: Fe)
    ensures rel.lookupExistsAtRow(row) && Denominator(rel, row, params) != 0 ==>
              Mul(r, Denominator(rel, row, params)) == 1
    ensures !rel.lookupExistsAtRow(row) || Denominator(rel, row, params) == 0 ==> r == 0
  {
    var d := Denominator(rel, row, params);
    assert Mul(Inv(d), d) == Mul(d, Inv(d));
    if rel.lookupExistsAtRow(row) then Inv(d) else 0
  }

  /** Row i is below circuit_size and holds a lookup. */
  predicate IsLookupRow<Row, Params>(rel: LookupRelation<Row, Params>, rows: seq<Row>, circuitSize: nat, i: nat)
    requires circuitSize <= |rows|
  {
    i < circuitSize && rel.lookupExistsAtRow(rows[i])
  }

  /** I times the product of every term except term k. */
  function Partial(t: seq<Fe>, inverse: Fe, k: nat): Fe
    requires k < |t|
  {
    Mul(inverse, Prod(Without(t, k)))
  }

  /** What subrelation 0 gains at one row. */
  function Subrelation0Contribution<Row, Params>(
    rel: LookupRelation<Row, Params>, row: Row, params: Params, scalingFactor: Fe): Fe
  {
    Mul(Sub(Mul(Denominator(rel, row, params), rel.lookupInverses(row)), rel.inverseExists(row)), scalingFactor)
  }

  /** Read slot i's summand of subrelation 1: read predicate times partial inverse. */
  function ReadContribution<Row, Params>(rel: LookupRelation<Row, Params>, row: Row, params: Params, i: nat): Fe
    requires i < rel.readTerms
  {
    Mul(rel.readTermPredicate(row, i), Partial(Terms(rel, row, params), rel.lookupInverses(row), i))
  }

  /** Write slot k's summand of subrelation 1: write predicate times partial inverse times read count. */
  function WriteContribution<Row, Params>(rel: LookupRelation<Row, Params>, row: Row, params: Params, k: nat): Fe
    requires k < rel.writeTerms
  {
    Mul(rel.writeTermPredicate(row, k),
        Mul(Partial(Terms(rel, row, params), rel.lookupInverses(row), k + rel.readTerms), rel.lookupReadCounts(row, k)))
  }

  /** The read-side summands of subrelation 1, in slot order. */
  function ReadContributions<Row, Params>(rel: LookupRelation<Row, Params>, row: Row, params: Params): (r: seq<Fe>)
    ensures |r| == rel.readTerms
  {
    seq(rel.readTerms, i requires 0 <= i < rel.readTerms => ReadContribution(rel, row, params, i))
  }

  /** The write-side summands of subrelation 1, in slot order. */
  function WriteContributions<Row, Params>(rel: LookupRelation<Row, Params>, row: Row, params: Params): (r: seq<Fe>)
    ensures |r| == rel.writeTerms
  {
    seq(rel.writeTerms, k requires 0 <= k < rel.writeTerms => WriteContribution(rel, row, params, k))
  }

  /* ---------- compute_logderivative_inverse ---------- */

  /** The denominator of one row, folded term by term: read terms first, then write terms. */
  method ComputeDenominator<Row, Params>(rel: LookupRelation<Row, Params>, row: Row, params: Params)
    returns (denominator: Fe)
    ensures denominator == Prod(Terms(rel, row, params))
  {
    ghost var readTerms := ReadTerms(rel, row, params);
    ghost var writeTerms := WriteTerms(rel, row, params);
    denominator := 1;
    assert readTerms[..0] == [];
    for readIndex := 0 to rel.readTerms
      invariant denominator == Prod(readTerms[..readIndex])
    {
      ProdSnoc(readTerms, readIndex);
      denominator := Mul(denominator, rel.readTerm(row, params, readIndex));
    }
    assert readTerms + writeTerms[..0] == readTerms[..rel.readTerms];
    for writeIndex := 0 to rel.writeTerms
      invariant denominator == Prod(readTerms + writeTerms[..writeIndex])
    {
      ProdSnocAppend(readTerms, writeTerms, writeIndex);
      denominator := Mul(denominator, rel.writeTerm(row, params, writeIndex));
    }
    assert writeTerms[..rel.writeTerms] == writeTerms;
  }

  /** The row loop: every lookup row below circuit_size gets its denominator; every other entry is left alone. */
  method StoreDenominators<Row, Params>(
    rows: seq<Row>, inversePolynomial: array<Fe>, rel: LookupRelation<Row, Params>, params: Params, circuitSize: nat)
    requires circuitSize <= |rows| && circuitSize <= inversePolynomial.Length
    modifies inversePolynomial
    ensures forall i :: 0 <= i < inversePolynomial.Length && IsLookupRow(rel, rows, circuitSize, i) ==>
              inversePolynomial[i] == Denominator(rel, rows[i], params)
    ensures forall i :: 0 <= i < inversePolynomial.Length && !IsLookupRow(rel, rows, circuitSize, i) ==>
              inversePolynomial[i] == old(inversePolynomial[i])
  {
    for i := 0 to circuitSize
      invariant forall j :: 0 <= j < inversePolynomial.Length && IsLookupRow(rel, rows, i, j) ==>
                  inversePolynomial[j] == Denominator(rel, rows[j], params)
      invariant forall j :: 0 <= j < inversePolynomial.Length && !IsLookupRow(rel, rows, i, j) ==>
                  inversePolynomial[j] == old(inversePolynomial[j])
    {
      var row := rows[i];
      var hasInverse := rel.lookupExistsAtRow(row);
      if !hasInverse {
        continue;
      }
      var denominator := ComputeDenominator(rel, row, params);
      inversePolynomial[i] := denominator;
    }
  }

  /**
   * compute_logderivative_inverse: store each lookup row's denominator, then
   * invert the whole column in place.
   */
  method ComputeLogderivativeInverse<Row, Params>(
    rows: seq<Row>, inversePolynomial: array<Fe>, rel: LookupRelation<Row, Params>, params: Params, circuitSize: nat)
    requires circuitSize <= |rows| && circuitSize <= inversePolynomial.Length
    modifies inversePolynomial
    ensures forall i :: 0 <= i < inversePolynomial.Length && IsLookupRow(rel, rows, circuitSize, i) ==>
              InvertedEntry(Denominator(rel, rows[i], params), inversePolynomial[i])
    ensures forall i :: 0 <= i < inversePolynomial.Length && !IsLookupRow(rel, rows, circuitSize, i) ==>
              InvertedEntry(old(inversePolynomial[i]), inversePolynomial[i])
    ensures (forall i :: 0 <= i < inversePolynomial.Length ==> old(inversePolynomial[i]) == 0) ==>
              forall i :: 0 <= i < inversePolynomial.Length ==>
                inversePolynomial[i] == if i < circuitSize then ExpectedInverse(rel, rows[i], params) else 0
  {
    StoreDenominators(rows, inversePolynomial, rel, params, circuitSize);
    BatchInvert(inversePolynomial);
  }

  /* ---------- accumulate_logderivative_lookup_subrelation_contributions ---------- */

  /** Evaluates the read terms into slots 0..R-1 and the write terms into slots R..R+W-1. */
  method EvaluateTerms<Row, Params>(rel: LookupRelation<Row, Params>, row: Row, params: Params)
    returns (lookupTerms: array<Fe>)
    ensures fresh(lookupTerms)
    ensures lookupTerms[..] == Terms(rel, row, params)
  {
    ghost var readTerms := ReadTerms(rel, row, params);
    ghost var writeTerms := WriteTerms(rel, row, params);
    lookupTerms := new Fe[rel.readTerms + rel.writeTerms];
    for i := 0 to rel.readTerms
      invariant forall j :: 0 <= j < i ==> lookupTerms[j] == readTerms[j]
    {
      lookupTerms[i] := rel.readTerm(row, params, i);
    }
    for i := 0 to rel.writeTerms
      invariant forall j :: 0 <= j < rel.readTerms ==> lookupTerms[j] == readTerms[j]
      invariant forall j :: rel.readTerms <= j < rel.readTerms + i ==> lookupTerms[j] == writeTerms[j - rel.readTerms]
    {
      lookupTerms[i + rel.readTerms] := rel.writeTerm(row, params, i);
    }
    assert lookupTerms[..] == readTerms + writeTerms;
  }

  /** A fresh copy of the term slots. */
  method CopyTerms(lookupTerms: array<Fe>) returns (denominatorAccumulator: array<Fe>)
    ensures fresh(denominatorAccumulator)
    ensures denominatorAccumulator[..] == lookupTerms[..]
  {
    denominatorAccumulator := new Fe[lookupTerms.Length];
    for i := 0 to lookupTerms.Length
      invariant forall j :: 0 <= j < i ==> denominatorAccumulator[j] == lookupTerms[j]
    {
      denominatorAccumulator[i] := lookupTerms[i];
    }
  }

  /** The forward pass: slot i becomes the product of the original slots 0..i. */
  method PrefixProducts(a: array<Fe>)
    requires a.Length >= 1
    modifies a
    ensures forall i :: 0 <= i < a.Length ==> a[i] == Prod(old(a[..])[..i + 1])
  {
    ghost var s := a[..];
    assert s[..1] == [s[0]];
    ProdSingleton(s[0]);
    for i := 0 to a.Length - 1
      invariant forall k :: 0 <= k <= i ==> a[k] == Prod(s[..k + 1])
      invariant forall k :: i < k < a.Length ==> a[k] == s[k]
    {
      ProdSnoc(s, i + 1);
      MulComm(a[i + 1], a[i]);
      a[i + 1] := Mul(a[i + 1], a[i]);
      assert a[i + 1] == Prod(s[..i + 2]);
    }
  }

  /**
   * One step of the backward sweep at slot k: the prefix product of the
   * terms before k times the running inverse gives the partial at k, and
   * multiplying term k into the running inverse moves it one slot down.
   */
  lemma SweepStep(t: seq<Fe>, inverse: Fe, k: nat, prefix: Fe, running: Fe)
    requires k < |t|
    requires prefix == Prod(t[..k]) && running == Mul(inverse, Prod(t[k + 1..]))
    ensures Mul(prefix, running) == Partial(t, inverse, k)
    ensures Mul(running, t[k]) == Mul(inverse, Prod(t[k..]))
  {
    ProdAppend(t[..k], t[k + 1..]);
    MulSwap(Prod(t[..k]), inverse, Prod(t[k + 1..]));
    assert t[k..] == [t[k]] + t[k + 1..];
    ProdAppend([t[k]], t[k + 1..]);
    ProdSingleton(t[k]);
    MulAssoc(inverse, Prod(t[k + 1..]), t[k]);
    assert Mul(Prod(t[k + 1..]), t[k]) == Mul(t[k], Prod(t[k + 1..]));
  }

  /** The sweep's seed and its last step: slot 0 gets inverse times the product of terms 1.. . */
  lemma SweepEnds(t: seq<Fe>, inverse: Fe)
    requires |t| >= 1
    ensures Mul(inverse, Prod(t[|t|..])) == inverse
    ensures Mul(inverse, Prod(t[1..])) == Partial(t, inverse, 0)
  {
    assert t[|t|..] == [];
    MulOne(inverse);
    assert Without(t, 0) == t[1..];
  }

  /**
   * The backward sweep seeded by the committed inverse: slot i becomes
   * inverse times the product of every term other than term i.
   */
  method BackwardSweep(denominatorAccumulator: array<Fe>, lookupTerms: array<Fe>, inverse: Fe)
    requires denominatorAccumulator != lookupTerms
    requires denominatorAccumulator.Length == lookupTerms.Length >= 1
    requires forall k :: 0 <= k < lookupTerms.Length ==>
               denominatorAccumulator[k] == Prod(lookupTerms[..][..k + 1])
    modifies denominatorAccumulator
    ensures forall k :: 0 <= k < lookupTerms.Length ==>
              denominatorAccumulator[k] == Partial(lookupTerms[..], inverse, k)
  {
    ghost var t := lookupTerms[..];
    var n := lookupTerms.Length;
    var inverseAccumulator := inverse;
    SweepEnds(t, inverse);
    var i := 0;
    while i < n - 1
      invariant 0 <= i <= n - 1
      invariant forall j :: 0 <= j <= n - 1 - i ==> denominatorAccumulator[j] == Prod(t[..j + 1])
      invariant forall j :: n - 1 - i < j < n ==> denominatorAccumulator[j] == Partial(t, inverse, j)
      invariant inverseAccumulator == Mul(inverse, Prod(t[n - i..]))
    {
      var k := n - 1 - i;
      SweepStep(t, inverse, k, denominatorAccumulator[k - 1], inverseAccumulator);
      denominatorAccumulator[k] := Mul(denominatorAccumulator[k - 1], inverseAccumulator);
      inverseAccumulator := Mul(inverseAccumulator, lookupTerms[k]);
      i := i + 1;
    }
    denominatorAccumulator[0] := inverseAccumulator;
  }

  /** Subrelation 1 += read predicate i times partial i, for every read slot i. */
  method AddReadContributions<Row, Params>(
    accumulator: array<Fe>, rel: LookupRelation<Row, Params>, row: Row, params: Params,
    denominatorAccumulator: array<Fe>)
    requires accumulator.Length == 2 && accumulator != denominatorAccumulator
    requires denominatorAccumulator.Length == rel.readTerms + rel.writeTerms
    requires forall k :: 0 <= k < denominatorAccumulator.Length ==>
               denominatorAccumulator[k] == Partial(Terms(rel, row, params), rel.lookupInverses(row), k)
    modifies accumulator
    ensures accumulator[0] == old(accumulator[0])
    ensures accumulator[1] == Add(old(accumulator[1]), Sum(ReadContributions(rel, row, params)))
  {
    ghost var summands := ReadContributions(rel, row, params);
    AddZero(accumulator[1]);
    assert summands[..0] == [];
    for i := 0 to rel.readTerms
      invariant accumulator[0] == old(accumulator[0])
      invariant accumulator[1] == Add(old(accumulator[1]), Sum(summands[..i]))
    {
      SumSnoc(summands, i);
      AddAssoc(old(accumulator[1]), Sum(summands[..i]), summands[i]);
      accumulator[1] := Add(accumulator[1], Mul(rel.readTermPredicate(row, i), denominatorAccumulator[i]));
    }
    assert summands[..rel.readTerms] == summands;
  }

  /** Subrelation 1 -= write predicate k times partial R+k times read count k, for every write slot k. */
  method SubtractWriteContributions<Row, Params>(
    accumulator: array<Fe>, rel: LookupRelation<Row, Params>, row: Row, params: Params,
    denominatorAccumulator: array<Fe>)
    requires accumulator.Length == 2 && accumulator != denominatorAccumulator
    requires denominatorAccumulator.Length == rel.readTerms + rel.writeTerms
    requires forall k :: 0 <= k < denominatorAccumulator.Length ==>
               denominatorAccumulator[k] == Partial(Terms(rel, row, params), rel.lookupInverses(row), k)
    modifies accumulator
    ensures accumulator[0] == old(accumulator[0])
    ensures accumulator[1] == Sub(old(accumulator[1]), Sum(WriteContributions(rel, row, params)))
  {
    ghost var summands := WriteContributions(rel, row, params);
    AddZero(accumulator[1]);
    assert summands[..0] == [];
    for i := 0 to rel.writeTerms
      invariant accumulator[0] == old(accumulator[0])
      invariant accumulator[1] == Sub(old(accumulator[1]), Sum(summands[..i]))
    {
      SumSnoc(summands, i);
      SubSub(old(accumulator[1]), Sum(summands[..i]), summands[i]);
      var p := rel.writeTermPredicate(row, i);
      var lookupReadCount := rel.lookupReadCounts(row, i);
      accumulator[1] := Sub(accumulator[1], Mul(p, Mul(denominatorAccumulator[i + rel.readTerms], lookupReadCount)));
    }
    assert summands[..rel.writeTerms] == summands;
  }

  /**
   * accumulate_logderivative_lookup_subrelation_contributions: adds one
   * row's contribution to subrelation 0 (scaled) and subrelation 1 (unscaled).
   */
  method AccumulateLogderivativeLookupSubrelationContributions<Row, Params>(
    accumulator: array<Fe>, rel: LookupRelation<Row, Params>, row: Row, params: Params, scalingFactor: Fe)
    requires accumulator.Length == 2
    requires rel.readTerms + rel.writeTerms >= 1
    modifies accumulator
    ensures accumulator[0] == Add(old(accumulator[0]), Subrelation0Contribution(rel, row, params, scalingFactor))
    ensures accumulator[1] ==
              Sub(Add(old(accumulator[1]), Sum(ReadContributions(rel, row, params))),
                  Sum(WriteContributions(rel, row, params)))
  {
    var numTotalTerms := rel.readTerms + rel.writeTerms;
    var lookupInverses := rel.lookupInverses(row);
    var lookupTerms := EvaluateTerms(rel, row, params);
    ghost var t := lookupTerms[..];
    var denominatorAccumulator := CopyTerms(lookupTerms);
    PrefixProducts(denominatorAccumulator);
    assert lookupTerms[..] == t;

    var inverseExists := rel.inverseExists(row);
    assert t[..numTotalTerms] == t;
    accumulator[0] := Add(accumulator[0],
      Mul(Sub(Mul(denominatorAccumulator[numTotalTerms - 1], lookupInverses), inverseExists), scalingFactor));

    BackwardSweep(denominatorAccumulator, lookupTerms, lookupInverses);
    AddReadContributions(accumulator, rel, row, params, denominatorAccumulator);
    SubtractWriteContributions(accumulator, rel, row, params, denominatorAccumulator);
  }

  /* ---------- what the two subrelations establish ---------- */

  /** A row's denominator vanishes exactly when one of its terms does. */
  lemma DenominatorZero<Row, Params>(rel: LookupRelation<Row, Params>, row: Row, params: Params)
    ensures Denominator(rel, row, params) == 0 <==>
              (exists i :: 0 <= i < rel.readTerms && rel.readTerm(row, params, i) == 0) ||
              (exists k :: 0 <= k < rel.writeTerms && rel.writeTerm(row, params, k) == 0)
  {
    var t := Terms(rel, row, params);
    ProdZero(t);
    if exists j :: 0 <= j < |t| && t[j] == 0 {
      var j :| 0 <= j < |t| && t[j] == 0;
      if j < rel.readTerms {
        assert rel.readTerm(row, params, j) == 0;
      } else {
        assert rel.writeTerm(row, params, j - rel.readTerms) == 0;
      }
    }
    if exists i :: 0 <= i < rel.readTerms && rel.readTerm(row, params, i) == 0 {
      var i :| 0 <= i < rel.readTerms && rel.readTerm(row, params, i) == 0;
      assert t[i] == 0;
    }
    if exists k :: 0 <= k < rel.writeTerms && rel.writeTerm(row, params, k) == 0 {
      var k :| 0 <= k < rel.writeTerms && rel.writeTerm(row, params, k) == 0;
      assert t[k + rel.readTerms] == 0;
    }
  }

  /** Subrelation 0 gains nothing exactly when the scaling factor is zero or I * denominator == inverse_exists. */
  lemma Subrelation0Vanishes<Row, Params>(
    rel: LookupRelation<Row, Params>, row: Row, params: Params, scalingFactor: Fe)
    ensures Subrelation0Contribution(rel, row, params, scalingFactor) == 0 <==>
              scalingFactor == 0 ||
              Mul(Denominator(rel, row, params), rel.lookupInverses(row)) == rel.inverseExists(row)
  {
    var d := Mul(Denominator(rel, row, params), rel.lookupInverses(row));
    NoZeroDivisors(Sub(d, rel.inverseExists(row)), scalingFactor);
    SubZero(d, rel.inverseExists(row));
  }

  /**
   * An honestly built row satisfies subrelation 0: at a lookup row with a
   * nonzero denominator the inverse column holds the inverse and
   * inverse_exists is 1; at any other row both are 0.
   */
  lemma HonestRowSatisfiesSubrelation0<Row, Params>(
    rel: LookupRelation<Row, Params>, row: Row, params: Params, scalingFactor: Fe)
    requires rel.lookupExistsAtRow(row) ==> Denominator(rel, row, params) != 0
    requires rel.lookupInverses(row) == ExpectedInverse(rel, row, params)
    requires rel.inverseExists(row) == if rel.lookupExistsAtRow(row) then 1 else 0
    ensures Subrelation0Contribution(rel, row, params, scalingFactor) == 0
  {
    var d := Denominator(rel, row, params);
    if rel.lookupExistsAtRow(row) {
      assert Mul(d, rel.lookupInverses(row)) == Mul(rel.lookupInverses(row), d);
    } else {
      MulZero(d);
    }
    Subrelation0Vanishes(rel, row, params, scalingFactor);
  }

  /**
   * A lookup row whose denominator is zero cannot satisfy subrelation 0 with
   * inverse_exists == 1, whatever the inverse column holds: batch inversion
   * maps the zero denominator to zero and the row is caught.
   */
  lemma ZeroDenominatorViolatesSubrelation0<Row, Params>(
    rel: LookupRelation<Row, Params>, row: Row, params: Params, scalingFactor: Fe)
    requires Denominator(rel, row, params) == 0 && rel.inverseExists(row) == 1 && scalingFactor != 0
    ensures Subrelation0Contribution(rel, row, params, scalingFactor) != 0
  {
    MulZero(rel.lookupInverses(row));
    Subrelation0Vanishes(rel, row, params, scalingFactor);
  }

  /**
   * Where inverse_exists is 1, subrelation 0 pins the inverse column down: the
   * row contributes zero exactly when its denominator is nonzero and the
   * column holds its inverse.
   */
  lemma Subrelation0DeterminesInverse<Row, Params>(
    rel: LookupRelation<Row, Params>, row: Row, params: Params, scalingFactor: Fe)
    requires rel.inverseExists(row) == 1 && scalingFactor != 0
    ensures Subrelation0Contribution(rel, row, params, scalingFactor) == 0 <==>
              Denominator(rel, row, params) != 0 &&
              rel.lookupInverses(row) == Inv(Denominator(rel, row, params))
  {
    var d := Denominator(rel, row, params);
    var inverse := rel.lookupInverses(row);
    Subrelation0Vanishes(rel, row, params, scalingFactor);
    MulComm(d, inverse);
    if Mul(d, inverse) == 1 {
      InvUnique(d, inverse);
    }
  }

  /**
   * Where inverse_exists is 0 and the denominator is zero, subrelation 0 does
   * not constrain the inverse column at all: every value contributes zero.
   */
  lemma Subrelation0IgnoresInverseAtZeroRow<Row, Params>(
    rel: LookupRelation<Row, Params>, row: Row, params: Params, scalingFactor: Fe)
    requires rel.inverseExists(row) == 0 && Denominator(rel, row, params) == 0
    ensures Subrelation0Contribution(rel, row, params, scalingFactor) == 0
  {
    MulZero(rel.lookupInverses(row));
    Subrelation0Vanishes(rel, row, params, scalingFactor);
  }

  /** Partial k times term k is the committed inverse times the whole product. */
  lemma PartialTimesTerm(t: seq<Fe>, inverse: Fe, k: nat)
    requires k < |t|
    ensures Mul(Partial(t, inverse, k), t[k]) == Mul(inverse, Prod(t))
  {
    MulAssoc(inverse, Prod(Without(t, k)), t[k]);
    ProdWithout(t, k);
  }

  /**
   * When the committed inverse really inverts the product of all terms, each
   * partial is the inverse of its own term: the individual inverses are
   * recovered without any further inversion.
   */
  lemma PartialIsTermInverse(t: seq<Fe>, inverse: Fe, k: nat)
    requires k < |t|
    requires Mul(inverse, Prod(t)) == 1
    ensures Mul(Partial(t, inverse, k), t[k]) == 1
    ensures Partial(t, inverse, k) == Inv(t[k])
  {
    PartialTimesTerm(t, inverse, k);
    InvUnique(t[k], Partial(t, inverse, k));
  }

  /** Read slot i's log-derivative fraction: read predicate over read term. */
  function ReadFraction<Row, Params>(rel: LookupRelation<Row, Params>, row: Row, params: Params, i: nat): Fe
    requires i < rel.readTerms
  {
    Mul(rel.readTermPredicate(row, i), Inv(rel.readTerm(row, params, i)))
  }

  /** Write slot k's log-derivative fraction: write predicate times read count over write term. */
  function WriteFraction<Row, Params>(rel: LookupRelation<Row, Params>, row: Row, params: Params, k: nat): Fe
    requires k < rel.writeTerms
  {
    Mul(rel.writeTermPredicate(row, k), Mul(Inv(rel.writeTerm(row, params, k)), rel.lookupReadCounts(row, k)))
  }

  /**
   * With a correct inverse the subrelation 1 summands are the log-derivative
   * fractions: subrelation 1 gains the sum of read predicate / read term and
   * loses the sum of write predicate * read count / write term.
   */
  lemma CorrectInverseGivesFractions<Row, Params>(rel: LookupRelation<Row, Params>, row: Row, params: Params)
    requires Mul(rel.lookupInverses(row), Denominator(rel, row, params)) == 1
    ensures forall i :: 0 <= i < rel.readTerms ==> ReadContribution(rel, row, params, i) == ReadFraction(rel, row, params, i)
    ensures forall k :: 0 <= k < rel.writeTerms ==> WriteContribution(rel, row, params, k) == WriteFraction(rel, row, params, k)
  {
    var t := Terms(rel, row, params);
    var inverse := rel.lookupInverses(row);
    forall i | 0 <= i < rel.readTerms
      ensures ReadContribution(rel, row, params, i) == ReadFraction(rel, row, params, i)
    {
      PartialIsTermInverse(t, inverse, i);
      assert t[i] == rel.readTerm(row, params, i);
    }
    forall k | 0 <= k < rel.writeTerms
      ensures WriteContribution(rel, row, params, k) == WriteFraction(rel, row, params, k)
    {
      PartialIsTermInverse(t, inverse, k + rel.readTerms);
      assert t[k + rel.readTerms] == rel.writeTerm(row, params, k);
    }
  }

  /** A row whose inverse column holds zero adds nothing to subrelation 1. */
  lemma ZeroInverseAddsNothing<Row, Params>(rel: LookupRelation<Row, Params>, row: Row, params: Params)
    requires rel.lookupInverses(row) == 0
    ensures Sum(ReadContributions(rel, row, params)) == 0
    ensures Sum(WriteContributions(rel, row, params)) == 0
  {
    var t := Terms(rel, row, params);
    forall k | 0 <= k < |t|
      ensures Partial(t, 0, k) == 0
    {
      MulZero(Prod(Without(t, k)));
    }
    forall i | 0 <= i < rel.readTerms
      ensures ReadContributions(rel, row, params)[i] == 0
    {
      MulZero(rel.readTermPredicate(row, i));
    }
    forall k | 0 <= k < rel.writeTerms
      ensures WriteContributions(rel, row, params)[k] == 0
    {
      MulZero(rel.lookupReadCounts(row, k));
      MulZero(rel.writeTermPredicate(row, k));
    }
    SumZeros(ReadContributions(rel, row, params));
    SumZeros(WriteContributions(rel, row, params));
  }
}
