/**
 Python's `<=` on `str`: lexicographic order of code points, where a proper
 prefix comes first. (Dafny's own `<=` on sequences means "is a prefix of".)
 */
module CodePointOrder {

  predicate LexLe(a: string, b: string)
    decreases |a|
  {
    |a| == 0 || (|b| > 0 && (a[0] < b[0] || (a[0] == b[0] && LexLe(a[1..], b[1..]))))
  }

  /**
   The textbook definition: `a` is a prefix of `b`, or at the first position where
   they differ `a` holds the smaller code point.
   */
  ghost predicate FirstDifferenceLe(a: string, b: string) {
    || a <= b
    || exists k :: 0 <= k < |a| && k < |b| && a[..k] == b[..k] && a[k] < b[k]
  }

  lemma {:induction false} LexLeIffFirstDifference(a: string, b: string)
    ensures LexLe(a, b) <==> FirstDifferenceLe(a, b)
    decreases |a|
  {
    if |a| > 0 && |b| > 0 {
      LexLeIffFirstDifference(a[1..], b[1..]);
      if a[0] == b[0] {
        if a[1..] <= b[1..] {
          assert a <= b;
        } else if k :| 0 <= k < |a[1..]| && k < |b[1..]| && a[1..][..k] == b[1..][..k] && a[1..][k] < b[1..][k] {
          assert a[..k + 1] == b[..k + 1] by {
            assert a[..k + 1] == [a[0]] + a[1..][..k];
            assert b[..k + 1] == [b[0]] + b[1..][..k];
          }
          assert a[k + 1] < b[k + 1];
        }
        if FirstDifferenceLe(a, b) {
          if a <= b {
            assert a[1..] <= b[1..];
          } else {
            var k :| 0 <= k < |a| && k < |b| && a[..k] == b[..k] && a[k] < b[k];
            assert k > 0;
            assert a[1..][..k - 1] == a[..k][1..];
            assert b[1..][..k - 1] == b[..k][1..];
            assert a[1..][k - 1] < b[1..][k - 1];
          }
        }
      } else if a[0] < b[0] {
        assert a[..0] == b[..0];
      }
    }
  }

  lemma {:induction false} LexLeReflexive(a: string)
    ensures LexLe(a, a)
    decreases |a|
  {
    if |a| > 0 {
      LexLeReflexive(a[1..]);
    }
  }

  lemma {:induction false} LexLeTotal(a: string, b: string)
    ensures LexLe(a, b) || LexLe(b, a)
    decreases |a|
  {
    if |a| > 0 && |b| > 0 && a[0] == b[0] {
      LexLeTotal(a[1..], b[1..]);
    }
  }

  lemma {:induction false} LexLeAntisymmetric(a: string, b: string)
    requires LexLe(a, b) && LexLe(b, a)
    ensures a == b
    decreases |a|
  {
    if |a| > 0 {
      LexLeAntisymmetric(a[1..], b[1..]);
      assert a == [a[0]] + a[1..];
      assert b == [b[0]] + b[1..];
    }
  }

  lemma {:induction false} LexLeTransitive(a: string, b: string, c: string)
    requires LexLe(a, b) && LexLe(b, c)
    ensures LexLe(a, c)
    decreases |a|
  {
    if |a| > 0 && a[0] == b[0] && b[0] == c[0] {
      LexLeTransitive(a[1..], b[1..], c[1..]);
    }
  }

  /** Comparing dotted addresses as text: "10.0.0.1" comes before "2.0.0.1". */
  lemma TextualAddressOrder()
    ensures LexLe("10.0.0.1", "2.0.0.1") && !LexLe("2.0.0.1", "10.0.0.1")
    ensures LexLe("1.2.3.4", "5.6.7.8") && !LexLe("5.6.7.8", "1.2.3.4")
  {
  }
}
