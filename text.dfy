/** Python's string operations used to build file names: `str.replace`
    and `str` of a non-negative integer. */
module Text {

  /** `pat` occurs somewhere in `s`. */
  predicate Contains(s: string, pat: string)
    decreases |s|
  {
    if |s| < |pat| then false
    else s[..|pat|] == pat || Contains(s[1..], pat)
  }

  /** `pat` occurs in `s` starting at position `i`: `s[i:i+len(pat)] == pat`. */
  predicate OccursAt(s: string, pat: string, i: int) {
    0 <= i && i + |pat| <= |s| && s[i..i + |pat|] == pat
  }

  /** `Contains` is Python's `pat in s`: `pat` occurs at some position of `s`. */
  lemma {:induction false} ContainsOccurrence(s: string, pat: string)
    ensures Contains(s, pat) <==> exists i :: OccursAt(s, pat, i)
    decreases |s|
  {
    if |s| >= |pat| {
      if s[..|pat|] == pat {
        assert OccursAt(s, pat, 0);
      } else {
        var t := s[1..];
        ContainsOccurrence(t, pat);
        forall i | OccursAt(t, pat, i) ensures OccursAt(s, pat, i + 1) {
          assert t[i..i + |pat|] == s[i + 1..i + 1 + |pat|];
        }
        forall i | OccursAt(s, pat, i) ensures OccursAt(t, pat, i - 1) {
          assert i != 0;
          assert t[i - 1..i - 1 + |pat|] == s[i..i + |pat|];
        }
      }
    } else {
      forall i ensures !OccursAt(s, pat, i) {
      }
    }
  }

  /** Python's `s.replace(pat, rep)` for a non-empty `pat`: scanning from the
      left, every occurrence of `pat` that does not overlap an earlier
      replaced one is replaced by `rep`; the inserted text is not rescanned. */
  function Replace(s: string, pat: string, rep: string): string
    requires pat != []
    decreases |s|
  {
    if |s| < |pat| then s
    else if s[..|pat|] == pat then rep + Replace(s[|pat|..], pat, rep)
    else [s[0]] + Replace(s[1..], pat, rep)
  }

  /** No occurrence of `pat` in `a + b` can start in `a` and end in `b`:
      one side is empty, or a character on the seam does not occur in `pat`. */
  predicate Seamless(a: string, b: string, pat: string) {
    a == [] || b == [] || a[|a| - 1] !in pat || b[0] !in pat
  }

  lemma {:induction false} MissingCharNotContained(s: string, pat: string, c: char)
    requires c in pat && c !in s
    ensures !Contains(s, pat)
    decreases |s|
  {
    if |s| >= |pat| {
      assert s[..|pat|] != pat by {
        var k :| 0 <= k < |pat| && pat[k] == c;
        assert s[k] in s;
        assert s[..|pat|][k] != pat[k];
      }
      MissingCharNotContained(s[1..], pat, c);
    }
  }

  /** Replacing a pattern that does not occur changes nothing. */
  lemma {:induction false} ReplaceAbsent(s: string, pat: string, rep: string)
    requires pat != [] && !Contains(s, pat)
    ensures Replace(s, pat, rep) == s
    decreases |s|
  {
    if |s| >= |pat| {
      ReplaceAbsent(s[1..], pat, rep);
      assert [s[0]] + s[1..] == s;
    }
  }

  /** The pattern itself is replaced by exactly `rep`. */
  lemma ReplaceWhole(pat: string, rep: string)
    requires pat != []
    ensures Replace(pat, pat, rep) == rep
  {
    assert pat[|pat|..] == [];
    assert rep + [] == rep;
  }

  /** Replacement distributes over a concatenation whose seam no occurrence can cross. */
  lemma {:induction false} ReplaceConcat(a: string, b: string, pat: string, rep: string)
    requires pat != [] && Seamless(a, b, pat)
    ensures Replace(a + b, pat, rep) == Replace(a, pat, rep) + Replace(b, pat, rep)
    decreases |a|, 1
  {
    var s := a + b;
    if a == [] {
      assert s == b;
    } else if |s| < |pat| {
    } else if |a| >= |pat| && a[..|pat|] == pat {
      ReplaceConcatMatch(a, b, pat, rep);
    } else {
      ReplaceConcatSkip(a, b, pat, rep);
    }
  }

  /** The case where `a` starts with an occurrence: it is replaced on both sides. */
  lemma {:induction false} ReplaceConcatMatch(a: string, b: string, pat: string, rep: string)
    requires pat != [] && Seamless(a, b, pat) && |a| >= |pat| && a[..|pat|] == pat
    ensures Replace(a + b, pat, rep) == Replace(a, pat, rep) + Replace(b, pat, rep)
    decreases |a|, 0
  {
    var s := a + b;
    var a' := a[|pat|..];
    DropSeamless(a, b, pat, |pat|);
    assert s[..|pat|] == a[..|pat|];
    ReplaceAtFront(s, pat, rep);
    ReplaceAtFront(a, pat, rep);
    ReplaceConcat(a', b, pat, rep);
    PrefixConcat(Replace(s, pat, rep), Replace(a' + b, pat, rep), Replace(a, pat, rep),
                 Replace(a', pat, rep), Replace(b, pat, rep), rep);
  }

  /** An occurrence at the front is replaced, and the scan resumes after it. */
  lemma ReplaceAtFront(s: string, pat: string, rep: string)
    requires pat != [] && |s| >= |pat| && s[..|pat|] == pat
    ensures Replace(s, pat, rep) == rep + Replace(s[|pat|..], pat, rep)
  {
  }

  lemma PrefixConcat(x: string, y: string, u: string, u': string, v: string, r: string)
    requires x == r + y && y == u' + v && u == r + u'
    ensures x == u + v
  {
  }

  /** The case where `a + b` does not start with an occurrence: its first character is kept. */
  lemma {:induction false} ReplaceConcatSkip(a: string, b: string, pat: string, rep: string)
    requires pat != [] && Seamless(a, b, pat) && a != [] && |a + b| >= |pat|
    requires !(|a| >= |pat| && a[..|pat|] == pat)
    ensures Replace(a + b, pat, rep) == Replace(a, pat, rep) + Replace(b, pat, rep)
    decreases |a|, 0
  {
    var s := a + b;
    var a' := a[1..];
    DropSeamless(a, b, pat, 1);
    assert a == [a[0]] + a';
    if |a| >= |pat| {
      assert s[..|pat|] == a[..|pat|];
      ReplaceKeepsFirst(a, pat, rep);
    } else {
      NoSeamMatch(a, b, pat);
      ShorterReplace(a, pat, rep);
      ShorterReplace(a', pat, rep);
    }
    ReplaceKeepsFirst(s, pat, rep);
    ReplaceConcat(a', b, pat, rep);
    ConsConcat(Replace(s, pat, rep), Replace(a' + b, pat, rep), Replace(a, pat, rep),
               Replace(a', pat, rep), Replace(b, pat, rep), a[0]);
  }

  /** Dropping a prefix of `a` keeps the seam, and `(a + b)[k..] == a[k..] + b`. */
  lemma DropSeamless(a: string, b: string, pat: string, k: nat)
    requires Seamless(a, b, pat) && k <= |a|
    ensures Seamless(a[k..], b, pat) && (a + b)[k..] == a[k..] + b
  {
    if k < |a| {
      assert a[k..][|a[k..]| - 1] == a[|a| - 1];
    }
  }

  lemma ConsConcat(x: string, y: string, u: string, u': string, v: string, c: char)
    requires x == [c] + y && y == u' + v && u == [c] + u'
    ensures x == u + v
  {
  }

  /** Where no occurrence starts at the front, the first character is kept. */
  lemma ReplaceKeepsFirst(s: string, pat: string, rep: string)
    requires pat != [] && |s| >= |pat| && s[..|pat|] != pat
    ensures Replace(s, pat, rep) == [s[0]] + Replace(s[1..], pat, rep)
  {
  }

  /** A string shorter than the pattern is left as it is. */
  lemma ShorterReplace(s: string, pat: string, rep: string)
    requires pat != [] && |s| < |pat|
    ensures Replace(s, pat, rep) == s
  {
  }

  /** An occurrence at the start of `a + b` that is longer than `a` would cross the seam. */
  lemma NoSeamMatch(a: string, b: string, pat: string)
    requires Seamless(a, b, pat) && 0 < |a| < |pat| <= |a + b|
    ensures (a + b)[..|pat|] != pat
  {
    var s := a + b;
    assert s[..|pat|][|a| - 1] == a[|a| - 1] && s[..|pat|][|a|] == b[0];
    assert pat[|a| - 1] in pat && pat[|a|] in pat;
  }

  /** An occurrence in a concatenation lies on one side, unless it crosses the seam. */
  lemma {:induction false} ContainsConcat(a: string, b: string, pat: string)
    requires pat != [] && Seamless(a, b, pat)
    ensures Contains(a + b, pat) <==> Contains(a, pat) || Contains(b, pat)
    decreases |a|
  {
    var s := a + b;
    if a == [] {
      assert s == b;
      assert !Contains(a, pat);
    } else if |s| < |pat| {
      assert !Contains(a, pat) && !Contains(b, pat) by {
        ShorterNotContained(a, pat);
        ShorterNotContained(b, pat);
      }
    } else {
      assert s[1..] == a[1..] + b;
      ContainsConcat(a[1..], b, pat);
      if |a| >= |pat| {
        assert a[..|pat|] == s[..|pat|];
      } else {
        assert !Contains(a, pat) && !Contains(a[1..], pat) by {
          ShorterNotContained(a, pat);
          ShorterNotContained(a[1..], pat);
        }
        NoSeamMatch(a, b, pat);
      }
    }
  }

  /** A string built around `pat` contains it. */
  lemma {:induction false} ContainsInfix(p: string, pat: string, q: string)
    ensures Contains(p + pat + q, pat)
    decreases |p|
  {
    var s := p + pat + q;
    if p == [] {
      assert s[..|pat|] == pat;
    } else {
      assert s[1..] == p[1..] + pat + q;
      ContainsInfix(p[1..], pat, q);
    }
  }

  lemma ShorterNotContained(s: string, pat: string)
    requires |s| < |pat|
    ensures !Contains(s, pat)
  {
  }

  /** `c` is a decimal digit. */
  predicate IsDigit(c: char) {
    '0' <= c <= '9'
  }

  function DigitChar(d: nat): (c: char)
    requires d < 10
    ensures IsDigit(c)
  {
    (48 + d) as char
  }

  function DigitValue(c: char): (d: nat)
    requires IsDigit(c)
    ensures d < 10
  {
    (c as int) - 48
  }

  /** Python's `str(n)` for a non-negative integer: its decimal digits, no sign, no leading zero. */
  function NatToString(n: nat): (s: string)
    ensures |s| >= 1
    ensures forall i :: 0 <= i < |s| ==> IsDigit(s[i])
    ensures |s| > 1 ==> s[0] != '0'
    decreases n
  {
    if n < 10 then [DigitChar(n)] else NatToString(n / 10) + [DigitChar(n % 10)]
  }

  /** The value of a string of decimal digits (Python's `int` on such a string). */
  function ParseDigits(s: string): nat
    requires forall i :: 0 <= i < |s| ==> IsDigit(s[i])
    decreases |s|
  {
    if s == [] then 0 else ParseDigits(s[..|s| - 1]) * 10 + DigitValue(s[|s| - 1])
  }

  /** Reading back the decimal digits gives the number. */
  lemma {:induction false} ParseNatToString(n: nat)
    ensures ParseDigits(NatToString(n)) == n
    decreases n
  {
    var s := NatToString(n);
    if n >= 10 {
      ParseNatToString(n / 10);
      assert s[..|s| - 1] == NatToString(n / 10);
    }
  }

  lemma NatToStringInjective(m: nat, n: nat)
    ensures NatToString(m) == NatToString(n) ==> m == n
  {
    ParseNatToString(m);
    ParseNatToString(n);
  }

  /** Numbers from 1000 to 9999 print as four digits. */
  lemma {:induction false} NatToStringFourDigits(n: nat)
    requires 1000 <= n <= 9999
    ensures |NatToString(n)| == 4
  {
    var a := n / 10;
    var b := a / 10;
    var c := b / 10;
    assert |NatToString(c)| == 1;
    assert |NatToString(b)| == 2;
    assert |NatToString(a)| == 3;
  }
}
