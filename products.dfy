/**
 * Ordered products and sums of field elements, folded from the left the way
 * the lookup library multiplies its terms, with the algebra the lookup
 * relation relies on.
 */
module Products {
  import opened Field

  /** s[0] * s[1] * ... * s[|s|-1], starting from 1. */
  function Prod(s: seq<Fe>): Fe
    decreases |s|
  {
    if s == [] then 1 else Mul(Prod(s[..|s| - 1]), s[|s| - 1])
  }

  /** s[0] + s[1] + ... + s[|s|-1], starting from 0. */
  function Sum(s: seq<Fe>): Fe
    decreases |s|
  {
    if s == [] then 0 else Add(Sum(s[..|s| - 1]), s[|s| - 1])
  }

  /** s with the entry at index k removed. */
  function Without(s: seq<Fe>, k: nat): (r: seq<Fe>)
    requires k < |s|
    ensures |r| == |s| - 1
  {
    s[..k] + s[k + 1..]
  }

  /** Extending a prefix by one entry multiplies the product by that entry. */
  lemma ProdSnoc(s: seq<Fe>, i: nat)
    requires i < |s|
    ensures Prod(s[..i + 1]) == Mul(Prod(s[..i]), s[i])
  {
    assert s[..i + 1][..i] == s[..i];
  }

  /** Extending a prefix by one entry adds that entry to the sum. */
  lemma SumSnoc(s: seq<Fe>, i: nat)
    requires i < |s|
    ensures Sum(s[..i + 1]) == Add(Sum(s[..i]), s[i])
  {
    assert s[..i + 1][..i] == s[..i];
  }

  /** Extending the second part of a concatenation by one entry multiplies the product by that entry. */
  lemma ProdSnocAppend(a: seq<Fe>, b: seq<Fe>, w: nat)
    requires w < |b|
    ensures Prod(a + b[..w + 1]) == Mul(Prod(a + b[..w]), b[w])
  {
    assert (a + b[..w + 1])[..|a| + w] == a + b[..w];
  }

  /** The product of a concatenation is the product of the products. */
  lemma {:induction false} ProdAppend(a: seq<Fe>, b: seq<Fe>)
    ensures Prod(a + b) == Mul(Prod(a), Prod(b))
    decreases |b|
  {
    if b == [] {
      assert a + b == a;
      MulOne(Prod(a));
    } else {
      var b' := b[..|b| - 1];
      var x := b[|b| - 1];
      assert (a + b)[..|a + b| - 1] == a + b';
      assert (a + b)[|a + b| - 1] == x;
      calc {
        Prod(a + b);
        Mul(Prod(a + b'), x);
        { ProdAppend(a, b'); }
        Mul(Mul(Prod(a), Prod(b')), x);
        { MulAssoc(Prod(a), Prod(b'), x); }
        Mul(Prod(a), Mul(Prod(b'), x));
        Mul(Prod(a), Prod(b));
      }
    }
  }

  lemma SplitAt(s: seq<Fe>, k: nat)
    requires k < |s|
    ensures s == (s[..k] + [s[k]]) + s[k + 1..]
  {
    assert s[k..] == [s[k]] + s[k + 1..];
    assert s == s[..k] + s[k..];
  }

  lemma ProdSingleton(x: Fe)
    ensures Prod([x]) == x
  {
    assert [x][..0] == [];
    MulOne(x);
  }

  /** Multiplying the product of all other entries by entry k gives the whole product. */
  lemma ProdWithout(s: seq<Fe>, k: nat)
    requires k < |s|
    ensures Mul(Prod(Without(s, k)), s[k]) == Prod(s)
  {
    var pre, post := s[..k], s[k + 1..];
    SplitAt(s, k);
    ProdSingleton(s[k]);
    calc {
      Prod(s);
      { ProdAppend(pre + [s[k]], post); }
      Mul(Prod(pre + [s[k]]), Prod(post));
      { ProdAppend(pre, [s[k]]); }
      Mul(Mul(Prod(pre), s[k]), Prod(post));
      { MulAssoc(Prod(pre), s[k], Prod(post)); }
      Mul(Prod(pre), Mul(s[k], Prod(post)));
      { assert Mul(s[k], Prod(post)) == Mul(Prod(post), s[k]); }
      Mul(Prod(pre), Mul(Prod(post), s[k]));
      { MulAssoc(Prod(pre), Prod(post), s[k]); }
      Mul(Mul(Prod(pre), Prod(post)), s[k]);
      { ProdAppend(pre, post); }
      Mul(Prod(pre + post), s[k]);
    }
  }

  /** A product vanishes exactly when one of its factors does. */
  lemma {:induction false} ProdZero(s: seq<Fe>)
    ensures Prod(s) == 0 <==> exists j :: 0 <= j < |s| && s[j] == 0
    decreases |s|
  {
    if s != [] {
      var s' := s[..|s| - 1];
      ProdZero(s');
      NoZeroDivisors(Prod(s'), s[|s| - 1]);
      if Prod(s) == 0 && s[|s| - 1] != 0 {
        var j :| 0 <= j < |s'| && s'[j] == 0;
        assert s[j] == 0;
      }
      if exists j :: 0 <= j < |s| && s[j] == 0 {
        var j :| 0 <= j < |s| && s[j] == 0;
        if j < |s| - 1 {
          assert s'[j] == 0;
        }
      }
    }
  }

  /** A sum of zeros is zero. */
  lemma {:induction false} SumZeros(s: seq<Fe>)
    requires forall i :: 0 <= i < |s| ==> s[i] == 0
    ensures Sum(s) == 0
    decreases |s|
  {
    if s != [] {
      SumZeros(s[..|s| - 1]);
      AddZero(0);
    }
  }
}
