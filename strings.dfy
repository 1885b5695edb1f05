/**
 Character-level helpers over `string` (= `seq<char>`) that mirror the three
 Python `str` operations chained by the failure-message normaliser:
 `split(marker)[0]`, `replace(c, rep)` for a one-character `c`, and
 `replace(c, "")`.
 */
module Strings {

  /** Number of occurrences of `c` in `s`. */
  function Count(s: string, c: char): (n: nat)
    ensures n <= |s|
    ensures n == 0 <==> c !in s
  {
    if s == [] then 0
    else
      assert s == [s[0]] + s[1..];
      (if s[0] == c then 1 else 0) + Count(s[1..], c)
  }

  lemma {:induction false} CountConcat(a: string, b: string, c: char)
    ensures Count(a + b, c) == Count(a, c) + Count(b, c)
  {
    if a == [] {
      assert a + b == b;
    } else {
      assert (a + b)[0] == a[0];
      assert (a + b)[1..] == a[1..] + b;
      CountConcat(a[1..], b, c);
    }
  }

  /** `m` occurs in `s` starting at index `i`. */
  predicate MatchAt(s: string, m: string, i: nat)
  {
    i + |m| <= |s| && s[i..i + |m|] == m
  }

  /** `m` occurs somewhere in `s` (Python's `m in s`). */
  predicate Contains(s: string, m: string)
  {
    exists i: nat :: i <= |s| && MatchAt(s, m, i)
  }

  /** Dropping the first character shifts every occurrence left by one. */
  lemma MatchAtTail(s: string, m: string, i: nat)
    requires s != []
    ensures MatchAt(s, m, i + 1) <==> MatchAt(s[1..], m, i)
  {
    if i + 1 + |m| <= |s| {
      assert s[1..][i..i + |m|] == s[i + 1..i + 1 + |m|];
    }
  }

  /** Two strings that agree on their first `n` characters have the same
      occurrences of `m` among those that end by index `n`. */
  lemma MatchAtAgree(s: string, t: string, n: nat, m: string, i: nat)
    requires n <= |s| && n <= |t| && s[..n] == t[..n]
    requires i + |m| <= n
    ensures MatchAt(s, m, i) <==> MatchAt(t, m, i)
  {
    assert s[i..i + |m|] == s[..n][i..i + |m|];
    assert t[i..i + |m|] == t[..n][i..i + |m|];
  }

  /** A non-empty `m` cannot occur in a string lacking its last character. */
  lemma MatchAtLastChar(s: string, m: string, i: nat)
    requires m != [] && MatchAt(s, m, i)
    ensures m[|m| - 1] in s
  {
    assert s[i + |m| - 1] == m[|m| - 1];
  }

  /** Python's `s.split(marker)[0]`: the text before the first occurrence of
      `marker`, or all of `s` when `marker` does not occur. Python rejects an
      empty separator, hence the precondition. */
  function PrefixBefore(s: string, marker: string): (r: string)
    requires marker != []
    ensures r <= s
    ensures forall i: nat :: i < |r| ==> !MatchAt(s, marker, i)
    ensures |r| < |s| ==> MatchAt(s, marker, |r|)
    decreases |s|
  {
    if s == [] || MatchAt(s, marker, 0) then []
    else
      var t := PrefixBefore(s[1..], marker);
      PrefixBeforeStep(s, marker, t);
      [s[0]] + t
  }

  /** One step of the scan: a first occurrence in `s[1..]` is a first
      occurrence in `s`, one position later, when none starts at 0. */
  lemma PrefixBeforeStep(s: string, marker: string, t: string)
    requires s != [] && !MatchAt(s, marker, 0)
    requires t <= s[1..]
    requires forall i: nat :: i < |t| ==> !MatchAt(s[1..], marker, i)
    requires |t| < |s| - 1 ==> MatchAt(s[1..], marker, |t|)
    ensures [s[0]] + t <= s
    ensures forall i: nat :: i < |t| + 1 ==> !MatchAt(s, marker, i)
    ensures |t| + 1 < |s| ==> MatchAt(s, marker, |t| + 1)
  {
    forall i: nat | i < |t| + 1 ensures !MatchAt(s, marker, i) {
      if i > 0 {
        MatchAtTail(s, marker, i - 1);
      }
    }
    MatchAtTail(s, marker, |t|);
  }

  /** The whole text is kept exactly when the marker does not occur. */
  lemma PrefixBeforeWhole(s: string, marker: string)
    requires marker != []
    ensures PrefixBefore(s, marker) == s <==> !Contains(s, marker)
  {
    var r := PrefixBefore(s, marker);
    if |r| < |s| {
      assert MatchAt(s, marker, |r|);
    }
  }

  /** The prefix is fixed by the text up to and including the first marker:
      whatever follows that marker does not matter. */
  lemma PrefixBeforeIgnoresTrailer(s: string, t: string, marker: string)
    requires marker != [] && Contains(s, marker)
    requires s[..|PrefixBefore(s, marker)| + |marker|] <= t
    ensures PrefixBefore(t, marker) == PrefixBefore(s, marker)
  {
    var p := PrefixBefore(s, marker);
    var k := |p|;
    var n := k + |marker|;
    assert MatchAt(s, marker, k);
    assert s[..n] == t[..n];
    var q := PrefixBefore(t, marker);
    MatchAtAgree(s, t, n, marker, k);
    if |q| < k {
      MatchAtAgree(s, t, n, marker, |q|);
      assert false;
    }
    if |q| > k {
      assert false;
    }
    assert q == t[..k] == s[..k] == p;
  }

  /** Taking the prefix twice changes nothing. */
  lemma PrefixBeforeIdempotent(s: string, marker: string)
    requires marker != []
    ensures PrefixBefore(PrefixBefore(s, marker), marker) == PrefixBefore(s, marker)
  {
    var p := PrefixBefore(s, marker);
    if Contains(p, marker) {
      var i: nat :| i <= |p| && MatchAt(p, marker, i);
      MatchAtAgree(p, s, |p|, marker, i);
      assert false;
    }
  }

  /** Python's `s.replace(c, rep)` for a one-character pattern `c`: every
      occurrence of `c` is replaced by `rep`, everything else is kept in
      order. */
  function ReplaceChar(s: string, c: char, rep: string): (r: string)
    ensures forall x :: x in r ==> (x in s && x != c) || x in rep
    ensures forall x :: x in s && x != c ==> x in r
    ensures c !in s ==> r == s
  {
    if s == [] then []
    else
      var t := ReplaceChar(s[1..], c, rep);
      assert s == [s[0]] + s[1..];
      assert forall x :: x in s <==> x == s[0] || x in s[1..];
      if s[0] == c then
        assert forall x :: x in rep + t <==> x in rep || x in t;
        rep + t
      else
        assert forall x :: x in [s[0]] + t <==> x == s[0] || x in t;
        [s[0]] + t
  }

  /** Each occurrence of `c` turns into `|rep|` characters. */
  lemma {:induction false} ReplaceCharLength(s: string, c: char, rep: string)
    ensures |ReplaceChar(s, c, rep)| == |s| + Count(s, c) * (|rep| - 1)
  {
    if s != [] {
      ReplaceCharLength(s[1..], c, rep);
      var k := Count(s[1..], c);
      if s[0] == c {
        assert (k + 1) * (|rep| - 1) == k * (|rep| - 1) + |rep| - 1;
      }
    }
  }

  /** Replacement does not touch the count of a character that is neither
      the one replaced nor part of the replacement. */
  lemma {:induction false} ReplaceCharCount(s: string, c: char, rep: string, x: char)
    requires x != c && x !in rep
    ensures Count(ReplaceChar(s, c, rep), x) == Count(s, x)
  {
    if s != [] {
      ReplaceCharCount(s[1..], c, rep, x);
      if s[0] == c {
        CountConcat(rep, ReplaceChar(s[1..], c, rep), x);
      } else {
        CountConcat([s[0]], ReplaceChar(s[1..], c, rep), x);
      }
    }
  }

  /** With a one-character replacement, replacing is a position-wise map. */
  lemma {:induction false} ReplaceCharPointwise(s: string, c: char, d: char, i: nat)
    requires i < |s|
    ensures |ReplaceChar(s, c, [d])| == |s|
    ensures ReplaceChar(s, c, [d])[i] == if s[i] == c then d else s[i]
  {
    ReplaceCharLength(s, c, [d]);
    if i > 0 {
      ReplaceCharPointwise(s[1..], c, d, i - 1);
    }
  }

  /** Replacement distributes over concatenation. */
  lemma {:induction false} ReplaceCharConcat(a: string, b: string, c: char, rep: string)
    ensures ReplaceChar(a + b, c, rep) == ReplaceChar(a, c, rep) + ReplaceChar(b, c, rep)
  {
    if a == [] {
      assert a + b == b;
    } else {
      assert (a + b)[0] == a[0];
      assert (a + b)[1..] == a[1..] + b;
      ReplaceCharConcat(a[1..], b, c, rep);
    }
  }

  /** Around one character `x`, replacing is done piecewise and in place:
      `x` turns into `rep` when it is `c` and stays itself otherwise, with
      the replaced text before and after it on either side. Together with
      ReplaceCharConcat this fixes the output string exactly. */
  lemma ReplaceCharAt(a: string, x: char, b: string, c: char, rep: string)
    ensures ReplaceChar(a + [x] + b, c, rep)
            == ReplaceChar(a, c, rep) + (if x == c then rep else [x]) + ReplaceChar(b, c, rep)
  {
    ReplaceCharConcat(a + [x], b, c, rep);
    ReplaceCharConcat(a, [x], c, rep);
    assert ([x])[1..] == [];
  }

  /** Python's `s.replace(c, "")`: every occurrence of `c` is deleted. */
  function DropChar(s: string, c: char): (r: string)
    ensures |r| == |s| - Count(s, c)
    ensures forall x :: x in r <==> x in s && x != c
    ensures c !in s ==> r == s
  {
    if s == [] then []
    else
      assert s == [s[0]] + s[1..];
      if s[0] == c then DropChar(s[1..], c)
      else [s[0]] + DropChar(s[1..], c)
  }

  /** Deleting `c` leaves the count of every other character unchanged. */
  lemma {:induction false} DropCharCount(s: string, c: char, x: char)
    requires x != c
    ensures Count(DropChar(s, c), x) == Count(s, x)
  {
    if s != [] {
      DropCharCount(s[1..], c, x);
      if s[0] != c {
        CountConcat([s[0]], DropChar(s[1..], c), x);
      }
    }
  }

  /** Deletion distributes over concatenation. */
  lemma {:induction false} DropCharConcat(a: string, b: string, c: char)
    ensures DropChar(a + b, c) == DropChar(a, c) + DropChar(b, c)
  {
    if a == [] {
      assert a + b == b;
    } else {
      assert (a + b)[0] == a[0];
      assert (a + b)[1..] == a[1..] + b;
      DropCharConcat(a[1..], b, c);
    }
  }

  /** Around one character `x`, deletion is done piecewise and in order:
      `x` disappears when it is `c` and stays in place otherwise. Together
      with DropCharConcat this fixes the output string exactly. */
  lemma DropCharAt(a: string, x: char, b: string, c: char)
    ensures DropChar(a + [x] + b, c)
            == DropChar(a, c) + (if x == c then [] else [x]) + DropChar(b, c)
  {
    DropCharConcat(a + [x], b, c);
    DropCharConcat(a, [x], c);
    assert ([x])[1..] == [];
  }
}
