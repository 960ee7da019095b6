/**
 * Python's ordering of `str` values (code point by code point, a proper
 * prefix first) and `list.sort()` on a list of strings.
 */
module StringOrder {

  /** Python's `a <= b` on strings. */
  predicate LessEq(a: string, b: string)
    decreases |a|
  {
    if |a| == 0 then true
    else if |b| == 0 then false
    else if a[0] != b[0] then a[0] < b[0]
    else LessEq(a[1..], b[1..])
  }

  lemma {:induction false} LessEqTotal(a: string, b: string)
    ensures LessEq(a, b) || LessEq(b, a)
    decreases |a|
  {
    if |a| > 0 && |b| > 0 && a[0] == b[0] {
      LessEqTotal(a[1..], b[1..]);
    }
  }

  lemma {:induction false} LessEqTransitive(a: string, b: string, c: string)
    requires LessEq(a, b) && LessEq(b, c)
    ensures LessEq(a, c)
    decreases |a|
  {
    if |a| > 0 && |b| > 0 && |c| > 0 && a[0] == b[0] == c[0] {
      LessEqTransitive(a[1..], b[1..], c[1..]);
    }
  }

  lemma {:induction false} LessEqAntisymmetric(a: string, b: string)
    requires LessEq(a, b) && LessEq(b, a)
    ensures a == b
    decreases |a|
  {
    if |a| > 0 {
      LessEqAntisymmetric(a[1..], b[1..]);
      assert a == [a[0]] + a[1..] && b == [b[0]] + b[1..];
    }
  }

  predicate Sorted(s: seq<string>)
  {
    forall i, j :: 0 <= i < j < |s| ==> LessEq(s[i], s[j])
  }

  /** Inserts `x` into a list, before the first element it is not greater than. */
  function Insert(x: string, s: seq<string>): (r: seq<string>)
    ensures multiset(r) == multiset(s) + multiset{x}
  {
    if |s| == 0 then [x]
    else if LessEq(x, s[0]) then [x] + s
    else
      assert s == [s[0]] + s[1..];
      [s[0]] + Insert(x, s[1..])
  }

  /** Inserting into a sorted list keeps it sorted. */
  lemma {:induction false} InsertSorted(x: string, s: seq<string>)
    requires Sorted(s)
    ensures Sorted(Insert(x, s))
  {
    if |s| > 0 {
      if LessEq(x, s[0]) {
        LessEqTransitiveFrom(x, s);
      } else {
        var rest := Insert(x, s[1..]);
        InsertSorted(x, s[1..]);
        LessEqTotal(x, s[0]);
        assert s == [s[0]] + s[1..];
        forall j | 0 <= j < |rest| ensures LessEq(s[0], rest[j]) {
          assert rest[j] in multiset(rest);
          if rest[j] != x {
            assert rest[j] in multiset(s[1..]);
            var k :| 0 <= k < |s[1..]| && s[1..][k] == rest[j];
            assert LessEq(s[0], s[k + 1]);
          }
        }
      }
    }
  }

  /** An element no greater than the head of a sorted list is no greater than all of it. */
  lemma LessEqTransitiveFrom(x: string, s: seq<string>)
    requires Sorted(s) && |s| > 0 && LessEq(x, s[0])
    ensures forall j :: 0 <= j < |s| ==> LessEq(x, s[j])
  {
    forall j | 0 <= j < |s| ensures LessEq(x, s[j]) {
      if j > 0 {
        LessEqTransitive(x, s[0], s[j]);
      }
    }
  }

  /** Python's `sorted(s)` / `s.sort()` on strings: an ascending permutation. */
  function SortStrings(s: seq<string>): (r: seq<string>)
    ensures Sorted(r)
    ensures multiset(r) == multiset(s)
  {
    if |s| == 0 then []
    else
      var rest := SortStrings(s[1..]);
      InsertSorted(s[0], rest);
      assert s == [s[0]] + s[1..];
      Insert(s[0], rest)
  }
}
