/** Python's order on strings: by code point, then by length. */
module Ordering {
  import opened Sorting

  predicate StrLe(a: string, b: string) {
    |a| == 0 || (|b| > 0 && (a[0] < b[0] || (a[0] == b[0] && StrLe(a[1..], b[1..]))))
  }

  /** Two strings agree up to a place, and there the first is lower. */
  ghost predicate LowerAtPlace(a: string, b: string, i: nat) {
    i < |a| && i < |b| && a[..i] == b[..i] && a[i] < b[i]
  }

  /** A string comes before its extensions, and otherwise by the first character in which it differs. */
  lemma {:induction false} StrLeExactly(a: string, b: string)
    ensures StrLe(a, b) <==> a <= b || exists i: nat :: LowerAtPlace(a, b, i)
  {
    if |a| > 0 && |b| > 0 {
      if a[0] < b[0] {
        assert LowerAtPlace(a, b, 0);
      } else if a[0] == b[0] {
        StrLeExactly(a[1..], b[1..]);
        assert a == [a[0]] + a[1..] && b == [b[0]] + b[1..];
        forall i: nat | i < |a[1..]| && i < |b[1..]| ensures LowerAtPlace(a[1..], b[1..], i) <==> LowerAtPlace(a, b, i + 1) {
          assert a[..i + 1] == [a[0]] + a[1..][..i] && b[..i + 1] == [b[0]] + b[1..][..i];
          assert a[..i + 1][1..] == a[1..][..i] && b[..i + 1][1..] == b[1..][..i];
        }
        if i: nat :| LowerAtPlace(a, b, i) {
          assert LowerAtPlace(a[1..], b[1..], i - 1);
        }
        if i: nat :| LowerAtPlace(a[1..], b[1..], i) {
          assert LowerAtPlace(a, b, i + 1);
        }
      } else {
        forall i: nat ensures !LowerAtPlace(a, b, i) {
          assert i > 0 && i < |a| && i < |b| ==> a[..i][0] == a[0] && b[..i][0] == b[0];
        }
      }
    }
  }

  lemma {:induction false} StrLeTotal(a: string, b: string)
    ensures StrLe(a, b) || StrLe(b, a)
    ensures StrLe(a, b) && StrLe(b, a) ==> a == b
  {
    if |a| > 0 && |b| > 0 && a[0] == b[0] {
      StrLeTotal(a[1..], b[1..]);
      assert a == [a[0]] + a[1..] && b == [b[0]] + b[1..];
    }
  }

  lemma {:induction false} StrLeTransitive(a: string, b: string, c: string)
    requires StrLe(a, b) && StrLe(b, c)
    ensures StrLe(a, c)
  {
    if |a| > 0 && a[0] == b[0] == c[0] { StrLeTransitive(a[1..], b[1..], c[1..]); }
  }

  lemma StrLeIsOrder()
    ensures TotalOrder(StrLe)
  {
    forall a: string, b: string ensures StrLe(a, b) || StrLe(b, a) ensures StrLe(a, b) && StrLe(b, a) ==> a == b {
      StrLeTotal(a, b);
    }
    forall a: string, b: string, c: string | StrLe(a, b) && StrLe(b, c) ensures StrLe(a, c) {
      StrLeTransitive(a, b, c);
    }
  }
}
