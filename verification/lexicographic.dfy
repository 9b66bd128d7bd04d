/** The ordering Python's `<`, `<=`, `>`, `>=` give two `str` values:
    compare code point by code point; at the first difference the smaller
    code point decides; if one string runs out first it is the smaller.
    (Dafny's own `<` on sequences means "proper prefix", which is only part
    of this order.) */
module Lexicographic {

  /** `a < b` on Python strings. */
  predicate Less(a: string, b: string)
    decreases |a|
  {
    if |a| == 0 then |b| > 0
    else if |b| == 0 then false
    else if a[0] != b[0] then a[0] < b[0]
    else Less(a[1..], b[1..])
  }

  /** Reference definition: `a` and `b` agree on their first `k` code
      points, and position `k` is where `a` is found smaller, either by
      ending there or by a smaller code point. */
  ghost predicate FirstDifferenceAt(a: string, b: string, k: nat)
  {
    && k <= |a| && k <= |b|
    && a[..k] == b[..k]
    && ((k == |a| && k < |b|) || (k < |a| && k < |b| && a[k] < b[k]))
  }

  /** The recursive comparison agrees with the first-difference definition. */
  lemma {:induction false} LessIffFirstDifference(a: string, b: string)
    ensures Less(a, b) <==> exists k: nat :: FirstDifferenceAt(a, b, k)
    decreases |a|
  {
    if |a| == 0 {
      if |b| > 0 {
        assert FirstDifferenceAt(a, b, 0);
      }
    } else if |b| == 0 {
      // Nothing is smaller than the empty string.
    } else if a[0] != b[0] {
      if a[0] < b[0] {
        assert FirstDifferenceAt(a, b, 0);
      } else {
        // A first difference at k > 0 would need a[0] == b[0].
        forall k: nat | FirstDifferenceAt(a, b, k) ensures false {
        }
      }
    } else {
      LessIffFirstDifference(a[1..], b[1..]);
      if Less(a[1..], b[1..]) {
        var k: nat :| FirstDifferenceAt(a[1..], b[1..], k);
        assert a[..k + 1] == [a[0]] + a[1..][..k];
        assert b[..k + 1] == [b[0]] + b[1..][..k];
        assert FirstDifferenceAt(a, b, k + 1);
      } else {
        forall k: nat | FirstDifferenceAt(a, b, k) ensures false {
          assert k > 0;
          assert a[1..][..k - 1] == a[..k][1..];
          assert b[1..][..k - 1] == b[..k][1..];
          assert FirstDifferenceAt(a[1..], b[1..], k - 1);
        }
      }
    }
  }

  /** A string is never smaller than itself. */
  lemma {:induction false} Irreflexive(a: string)
    ensures !Less(a, a)
    decreases |a|
  {
    if |a| > 0 {
      Irreflexive(a[1..]);
    }
  }

  /** Two strings are never each smaller than the other. */
  lemma {:induction false} Asymmetric(a: string, b: string)
    ensures !(Less(a, b) && Less(b, a))
    decreases |a|
  {
    if |a| > 0 && |b| > 0 && a[0] == b[0] {
      Asymmetric(a[1..], b[1..]);
    }
  }

  /** Any two strings are equal or one is smaller: the order is total. */
  lemma {:induction false} Trichotomy(a: string, b: string)
    ensures Less(a, b) || a == b || Less(b, a)
    decreases |a|
  {
    if |a| > 0 && |b| > 0 && a[0] == b[0] {
      Trichotomy(a[1..], b[1..]);
      if a[1..] == b[1..] {
        assert a == [a[0]] + a[1..] && b == [b[0]] + b[1..];
      }
    }
  }

  lemma {:induction false} Transitive(a: string, b: string, c: string)
    requires Less(a, b) && Less(b, c)
    ensures Less(a, c)
    decreases |a|
  {
    if |a| > 0 && a[0] == b[0] && b[0] == c[0] {
      Transitive(a[1..], b[1..], c[1..]);
    }
  }

  /** A proper prefix (Dafny's `<` on sequences) is lexicographically smaller. */
  lemma {:induction false} ProperPrefixIsLess(a: string, b: string)
    requires a < b
    ensures Less(a, b)
    decreases |a|
  {
    if |a| > 0 {
      assert a[0] == b[0];
      assert a[1..] < b[1..] by {
        assert a[1..] == b[1..][..|a| - 1];
      }
      ProperPrefixIsLess(a[1..], b[1..]);
    }
  }

  /** Digit strings are not compared as numbers: "10" sorts before "9". */
  lemma DigitsAreNotNumbers()
    ensures Less("10", "9") && !Less("9", "10")
  {
  }
}
