/**
 * The handful of Python `str` operations the three scripts rely on:
 * `sep.join(parts)`, `s.split(d)`, `s.endswith(suffixes)` and `s.replace(old, new)`.
 */
module Strings {

  /** Python's `sep.join(parts)`. */
  function Join(parts: seq<string>, sep: string): string
    decreases |parts|
  {
    if |parts| == 0 then ""
    else if |parts| == 1 then parts[0]
    else parts[0] + sep + Join(parts[1..], sep)
  }

  /**
   * Python's `s.split(d)` for a one-character separator: the pieces between
   * consecutive separators, so there is always one more piece than separators.
   */
  function Split(s: string, d: char): (parts: seq<string>)
    ensures |parts| >= 1
    ensures forall i :: 0 <= i < |parts| ==> d !in parts[i]
    decreases |s|
  {
    if |s| == 0 then [""]
    else
      var rest := Split(s[1..], d);
      if s[0] == d then [""] + rest
      else [[s[0]] + rest[0]] + rest[1..]
  }

  /** Joining the pieces of a split with the separator gives the original text back. */
  lemma {:induction false} JoinSplit(s: string, d: char)
    ensures Join(Split(s, d), [d]) == s
    decreases |s|
  {
    if |s| > 0 {
      var rest := Split(s[1..], d);
      JoinSplit(s[1..], d);
      if s[0] == d {
        assert ([""] + rest)[1..] == rest;
      } else {
        var parts := [[s[0]] + rest[0]] + rest[1..];
        assert parts[1..] == rest[1..];
        if |rest| > 1 {
          assert Join(rest, [d]) == rest[0] + [d] + Join(rest[1..], [d]);
        }
      }
    }
  }

  /** A text without the separator is one piece. */
  lemma {:induction false} SplitWithoutSeparator(s: string, d: char)
    requires d !in s
    ensures Split(s, d) == [s]
    decreases |s|
  {
    if |s| > 0 {
      SplitWithoutSeparator(s[1..], d);
      assert [s[0]] + s[1..] == s;
    }
  }

  /** Everything before the first separator is the first piece; the rest is split the same way. */
  lemma {:induction false} SplitAtFirstSeparator(a: string, d: char, b: string)
    requires d !in a
    ensures Split(a + [d] + b, d) == [a] + Split(b, d)
    decreases |a|
  {
    var s := a + [d] + b;
    if |a| == 0 {
      assert s[1..] == b;
    } else {
      assert s[1..] == a[1..] + [d] + b;
      SplitAtFirstSeparator(a[1..], d, b);
      assert [a[0]] + a[1..] == a;
    }
  }

  /** Python's `s.endswith(suffix)`: a literal suffix test. */
  predicate EndsWith(s: string, suffix: string)
  {
    |suffix| <= |s| && s[|s| - |suffix|..] == suffix
  }

  /** Python's `s.endswith(tuple(suffixes))`: some suffix matches; an empty tuple matches nothing. */
  predicate EndsWithAny(s: string, suffixes: seq<string>)
  {
    exists k :: 0 <= k < |suffixes| && EndsWith(s, suffixes[k])
  }

  /** Python's `s.startswith(pat)`. */
  predicate StartsWith(s: string, pat: string)
  {
    |pat| <= |s| && s[..|pat|] == pat
  }

  /** `pat` occurs in `s` starting at index `i`. */
  predicate OccursAt(s: string, pat: string, i: nat)
  {
    i + |pat| <= |s| && s[i..i + |pat|] == pat
  }

  /** Python's `pat in s`. */
  predicate Contains(s: string, pat: string)
  {
    exists i: nat :: i <= |s| && OccursAt(s, pat, i)
  }

  /** What Python's `s.replace("", rep)` gives: `rep` before every character and at the end. */
  function Interleave(s: string, rep: string): string
    decreases |s|
  {
    if |s| == 0 then rep else rep + [s[0]] + Interleave(s[1..], rep)
  }

  /**
   * Python's `s.replace(pat, rep)`: every occurrence of `pat`, scanning left to
   * right without overlaps, is replaced; the replacement text is not rescanned.
   */
  function ReplaceAll(s: string, pat: string, rep: string): string
    decreases |s|
  {
    if |pat| == 0 then Interleave(s, rep)
    else if |s| < |pat| then s
    else if StartsWith(s, pat) then rep + ReplaceAll(s[|pat|..], pat, rep)
    else [s[0]] + ReplaceAll(s[1..], pat, rep)
  }

  /** Replacing a pattern by itself changes nothing (empty pattern included). */
  lemma {:induction false} ReplaceBySelf(s: string, pat: string)
    ensures ReplaceAll(s, pat, pat) == s
    decreases |s|
  {
    if |pat| == 0 {
      if |s| > 0 {
        ReplaceBySelf(s[1..], pat);
      }
    } else if |s| >= |pat| {
      if s[..|pat|] == pat {
        ReplaceBySelf(s[|pat|..], pat);
        assert s == s[..|pat|] + s[|pat|..];
      } else {
        ReplaceBySelf(s[1..], pat);
      }
    }
  }

  /** A text with no occurrence of a non-empty pattern is left unchanged. */
  lemma {:induction false} ReplaceAbsent(s: string, pat: string, rep: string)
    requires |pat| > 0 && !Contains(s, pat)
    ensures ReplaceAll(s, pat, rep) == s
    decreases |s|
  {
    if |s| >= |pat| {
      assert !OccursAt(s, pat, 0);
      forall i: nat | i <= |s[1..]|
        ensures !OccursAt(s[1..], pat, i)
      {
        assert !OccursAt(s, pat, i + 1);
        if i + |pat| <= |s[1..]| {
          assert s[1..][i..i + |pat|] == s[i + 1..i + 1 + |pat|];
        }
      }
      ReplaceAbsent(s[1..], pat, rep);
    }
  }

  /** A text that is exactly the (non-empty) pattern becomes the replacement. */
  lemma ReplaceWhole(pat: string, rep: string)
    requires |pat| > 0
    ensures ReplaceAll(pat, pat, rep) == rep
  {
    assert pat[|pat|..] == [];
  }

  /** Where a non-empty pattern does not start the text, the scan copies the first character and goes on. */
  lemma ReplaceCopiesFirst(s: string, pat: string, rep: string)
    requires |pat| > 0 && |s| > 0 && !StartsWith(s, pat)
    ensures ReplaceAll(s, pat, rep) == [s[0]] + ReplaceAll(s[1..], pat, rep)
  {
    if |s| < |pat| {
      assert ReplaceAll(s[1..], pat, rep) == s[1..];
      assert s == [s[0]] + s[1..];
    }
  }

  /** A scan that finds the pattern at the start of `a` emits `rep` and goes on after it. */
  lemma ReplaceStepMatch(a: string, c: char, b: string, pat: string, rep: string)
    requires |pat| > 0 && |pat| <= |a| && a[..|pat|] == pat
    requires ReplaceAll(a[|pat|..] + [c] + b, pat, rep) == ReplaceAll(a[|pat|..], pat, rep) + [c] + ReplaceAll(b, pat, rep)
    ensures ReplaceAll(a + [c] + b, pat, rep) == ReplaceAll(a, pat, rep) + [c] + ReplaceAll(b, pat, rep)
  {
    var s, rest := a + [c] + b, a[|pat|..];
    var x, y := ReplaceAll(rest, pat, rep), ReplaceAll(b, pat, rep);
    assert s[..|pat|] == a[..|pat|];
    assert s[|pat|..] == rest + [c] + b;
    assert ReplaceAll(s, pat, rep) == rep + (x + [c] + y);
    assert ReplaceAll(a, pat, rep) == rep + x;
    assert rep + (x + [c] + y) == (rep + x) + [c] + y;
  }

  /** A scan that does not find the pattern at the start of `a`, nor across `c`, copies one character and goes on. */
  lemma ReplaceStepCopy(a: string, c: char, b: string, pat: string, rep: string)
    requires |pat| > 0 && |a| > 0
    requires !StartsWith(a, pat) && !StartsWith(a + [c] + b, pat)
    requires ReplaceAll(a[1..] + [c] + b, pat, rep) == ReplaceAll(a[1..], pat, rep) + [c] + ReplaceAll(b, pat, rep)
    ensures ReplaceAll(a + [c] + b, pat, rep) == ReplaceAll(a, pat, rep) + [c] + ReplaceAll(b, pat, rep)
  {
    var s, rest := a + [c] + b, a[1..];
    var x, y := ReplaceAll(rest, pat, rep), ReplaceAll(b, pat, rep);
    calc {
      ReplaceAll(s, pat, rep);
    == { ReplaceCopiesFirst(s, pat, rep); }
      [s[0]] + ReplaceAll(s[1..], pat, rep);
    == { assert s[1..] == rest + [c] + b && s[0] == a[0]; }
      [a[0]] + (x + [c] + y);
    == 
      ([a[0]] + x) + [c] + y;
    == { ReplaceCopiesFirst(a, pat, rep); }
      ReplaceAll(a, pat, rep) + [c] + y;
    }
  }

  /**
   * An occurrence of a pattern that does not contain the character `c` never
   * spans `c`, so replacing around it is replacing on each side of it.
   */
  lemma {:induction false} ReplaceAroundSeparator(a: string, c: char, b: string, pat: string, rep: string)
    requires |pat| > 0 && c !in pat
    ensures ReplaceAll(a + [c] + b, pat, rep) == ReplaceAll(a, pat, rep) + [c] + ReplaceAll(b, pat, rep)
    decreases |a|
  {
    var s := a + [c] + b;
    if |a| < |pat| && |pat| <= |s| {
      assert pat[|a|] in pat;
      assert s[..|pat|][|a|] == c != pat[|a|];
    }
    if |a| == 0 {
      assert s[1..] == b;
      ReplaceCopiesFirst(s, pat, rep);
    } else if |pat| <= |a| && a[..|pat|] == pat {
      ReplaceAroundSeparator(a[|pat|..], c, b, pat, rep);
      ReplaceStepMatch(a, c, b, pat, rep);
    } else {
      if |pat| <= |a| {
        assert s[..|pat|] == a[..|pat|];
      }
      ReplaceAroundSeparator(a[1..], c, b, pat, rep);
      ReplaceStepCopy(a, c, b, pat, rep);
    }
  }

  /** `s.replace` applied to each part. */
  function ReplaceEach(parts: seq<string>, pat: string, rep: string): (r: seq<string>)
    ensures |r| == |parts|
  {
    seq(|parts|, i requires 0 <= i < |parts| => ReplaceAll(parts[i], pat, rep))
  }

  /** Replacing in a joined text is replacing in each part, when the pattern cannot span the separator. */
  lemma {:induction false} ReplaceJoin(parts: seq<string>, c: char, pat: string, rep: string)
    requires |pat| > 0 && c !in pat
    ensures ReplaceAll(Join(parts, [c]), pat, rep) == Join(ReplaceEach(parts, pat, rep), [c])
    decreases |parts|
  {
    if |parts| > 1 {
      ReplaceAroundSeparator(parts[0], c, Join(parts[1..], [c]), pat, rep);
      ReplaceJoin(parts[1..], c, pat, rep);
      assert ReplaceEach(parts, pat, rep)[1..] == ReplaceEach(parts[1..], pat, rep);
    }
  }
}
