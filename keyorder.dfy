/**
 * The order in which the store iterates its keys. Keys are strings compared
 * lexicographically by their UTF-8 bytes, which orders them exactly as
 * comparing their characters' code points does.
 */
module KeyOrder {

  /** Strict lexicographic order on keys: a proper prefix comes first. */
  predicate KeyLess(a: string, b: string)
    decreases |a|
  {
    |b| > 0 && (|a| == 0 || a[0] < b[0] || (a[0] == b[0] && KeyLess(a[1..], b[1..])))
  }

  lemma {:induction false} KeyLessIrreflexive(a: string)
    ensures !KeyLess(a, a)
  {
    if |a| > 0 {
      KeyLessIrreflexive(a[1..]);
    }
  }

  lemma {:induction false} KeyLessTransitive(a: string, b: string, c: string)
    requires KeyLess(a, b) && KeyLess(b, c)
    ensures KeyLess(a, c)
  {
    if |a| > 0 && a[0] == b[0] && b[0] == c[0] {
      KeyLessTransitive(a[1..], b[1..], c[1..]);
    }
  }

  lemma {:induction false} KeyLessTotal(a: string, b: string)
    requires a != b
    ensures KeyLess(a, b) || KeyLess(b, a)
  {
    if |a| > 0 && |b| > 0 && a[0] == b[0] {
      assert a == [a[0]] + a[1..] && b == [b[0]] + b[1..];
      KeyLessTotal(a[1..], b[1..]);
    }
  }

  lemma {:induction false} KeyLessAsymmetric(a: string, b: string)
    requires KeyLess(a, b)
    ensures !KeyLess(b, a)
  {
    if |a| > 0 && a[0] == b[0] {
      KeyLessAsymmetric(a[1..], b[1..]);
    }
  }

  /** Every key comes strictly before every later one. */
  ghost predicate StrictlySorted(s: seq<string>)
  {
    forall i, j {:trigger KeyLess(s[i], s[j])} :: 0 <= i < j < |s| ==> KeyLess(s[i], s[j])
  }

  /** Places a new key in its position in a sorted key index. */
  function InsertKey(s: seq<string>, k: string): (r: seq<string>)
    requires StrictlySorted(s) && k !in s
    ensures StrictlySorted(r)
    ensures |r| == |s| + 1
    ensures forall x :: x in r <==> x in s || x == k
  {
    if s == [] then [k]
    else if KeyLess(k, s[0]) then
      assert forall j :: 0 <= j < |s| ==> KeyLess(k, s[j]) by {
        forall j | 0 <= j < |s| ensures KeyLess(k, s[j]) {
          if j > 0 { KeyLessTransitive(k, s[0], s[j]); }
        }
      }
      assert StrictlySorted([k] + s) by {
        var r := [k] + s;
        forall i, j | 0 <= i < j < |r| ensures KeyLess(r[i], r[j]) {
          assert r[j] == s[j - 1];
          if i > 0 { assert r[i] == s[i - 1]; }
        }
      }
      [k] + s
    else
      var rest := InsertKey(s[1..], k);
      assert KeyLess(s[0], k) by { KeyLessTotal(k, s[0]); }
      assert forall j :: 0 <= j < |rest| ==> KeyLess(s[0], rest[j]) by {
        forall j | 0 <= j < |rest| ensures KeyLess(s[0], rest[j]) {
          if rest[j] != k {
            assert rest[j] in s[1..];
            var m :| 0 <= m < |s| - 1 && s[1..][m] == rest[j];
            assert s[m + 1] == rest[j];
          }
        }
      }
      assert s == [s[0]] + s[1..];
      assert StrictlySorted([s[0]] + rest) by {
        var r := [s[0]] + rest;
        forall i, j | 0 <= i < j < |r| ensures KeyLess(r[i], r[j]) {
          assert r[j] == rest[j - 1];
          if i > 0 { assert r[i] == rest[i - 1]; }
        }
      }
      [s[0]] + rest
  }
}
