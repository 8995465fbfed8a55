/** Text utilities the driver leans on: the decimal rendering a std::stringstream
 *  gives a non-negative counter, std::string::find(...) != npos as a substring
 *  test, and the leading-character tests used to recognise literals. */
module Text {

  predicate IsDigit(c: char) {
    '0' <= c <= '9'
  }

  function DigitValue(c: char): nat
    requires IsDigit(c)
  {
    (c as int) - ('0' as int)
  }

  function DigitChar(d: nat): (c: char)
    requires d < 10
    ensures IsDigit(c) && DigitValue(c) == d
  {
    (('0' as int) + d) as char
  }

  predicate AllDigits(s: string) {
    forall i :: 0 <= i < |s| ==> IsDigit(s[i])
  }

  /** Decimal rendering of n, most significant digit first, no leading zeros. */
  function NatToString(n: nat): (s: string)
    ensures |s| > 0 && AllDigits(s)
    ensures n < 10 <==> |s| == 1
    decreases n
  {
    if n < 10 then [DigitChar(n)] else NatToString(n / 10) + [DigitChar(n % 10)]
  }

  /** The value a string of decimal digits denotes. */
  function DigitsValue(s: string): nat
    requires AllDigits(s)
  {
    if s == [] then 0 else DigitsValue(s[..|s| - 1]) * 10 + DigitValue(s[|s| - 1])
  }

  /** Reading back a rendered counter gives the counter. */
  lemma {:induction false} DigitsValueOfNatToString(n: nat)
    ensures DigitsValue(NatToString(n)) == n
  {
    if n >= 10 {
      var s := NatToString(n);
      assert s[..|s| - 1] == NatToString(n / 10);
      DigitsValueOfNatToString(n / 10);
    }
  }

  /** Distinct counters render as distinct strings. */
  lemma NatToStringInjective(m: nat, n: nat)
    ensures NatToString(m) == NatToString(n) ==> m == n
  {
    DigitsValueOfNatToString(m);
    DigitsValueOfNatToString(n);
  }

  /** Distinct counters behind a common prefix ("$-", "$", "r", "lpTmpVar") stay distinct. */
  lemma PrefixedInjective(p: string, m: nat, n: nat)
    ensures p + NatToString(m) == p + NatToString(n) ==> m == n
  {
    if p + NatToString(m) == p + NatToString(n) {
      assert (p + NatToString(m))[|p|..] == NatToString(m);
      assert (p + NatToString(n))[|p|..] == NatToString(n);
      NatToStringInjective(m, n);
    }
  }

  /** p is a prefix of s, compared character by character. */
  predicate StartsWith(s: string, p: string)
    decreases |s|
  {
    |p| == 0 || (|s| > 0 && s[0] == p[0] && StartsWith(s[1..], p[1..]))
  }

  /** s.find(p) != npos. */
  predicate Contains(s: string, p: string)
    decreases |s|
  {
    StartsWith(s, p) || (|s| > 0 && Contains(s[1..], p))
  }

  lemma {:induction false} StartsWithIff(s: string, p: string)
    ensures StartsWith(s, p) <==> |p| <= |s| && s[..|p|] == p
    decreases |s|
  {
    if |p| > 0 && |s| > 0 {
      StartsWithIff(s[1..], p[1..]);
      if |p| <= |s| && s[..|p|] == p {
        assert s[1..][..|p| - 1] == p[1..];
      }
      if StartsWith(s, p) {
        assert s[..|p|] == [s[0]] + s[1..][..|p| - 1];
        assert p == [p[0]] + p[1..];
      }
    }
  }

  /** p occurs in s starting at index i. */
  predicate OccursAt(s: string, p: string, i: int) {
    0 <= i <= |s| - |p| && s[i..i + |p|] == p
  }

  /** The substring search agrees with "p occurs at some index of s". */
  lemma {:induction false} ContainsIff(s: string, p: string)
    ensures Contains(s, p) <==> exists i :: OccursAt(s, p, i)
    decreases |s|
  {
    StartsWithIff(s, p);
    if |s| > 0 {
      ContainsIff(s[1..], p);
      if exists i :: OccursAt(s, p, i) {
        var i :| OccursAt(s, p, i);
        if i > 0 {
          assert OccursAt(s[1..], p, i - 1) by {
            assert s[1..][i - 1..i - 1 + |p|] == s[i..i + |p|];
          }
        } else {
          assert StartsWith(s, p);
        }
      }
      if Contains(s[1..], p) {
        var i :| OccursAt(s[1..], p, i);
        assert OccursAt(s, p, i + 1) by {
          assert s[1..][i..i + |p|] == s[i + 1..i + 1 + |p|];
        }
      }
      if StartsWith(s, p) {
        assert OccursAt(s, p, 0);
      }
    } else {
      if exists i :: OccursAt(s, p, i) {
        var i :| OccursAt(s, p, i);
        assert |p| == 0 && s[..|p|] == p;
      }
      if Contains(s, p) {
        assert OccursAt(s, p, 0);
      }
    }
  }

  /** A string that contains p is at least as long as p. */
  lemma ContainsLength(s: string, p: string)
    requires Contains(s, p)
    ensures |p| <= |s|
  {
    ContainsIff(s, p);
  }

  /** A string lacking one of p's characters does not contain p. */
  lemma MissingChar(s: string, p: string, k: nat)
    requires k < |p| && p[k] !in s
    ensures !Contains(s, p)
  {
    ContainsIff(s, p);
    forall i | 0 <= i <= |s| - |p|
      ensures !OccursAt(s, p, i)
    {
      assert s[i..i + |p|][k] == s[i + k] && s[i + k] in s;
    }
  }

  /** A string that starts with p contains p. */
  lemma ContainsOwnPrefix(p: string, x: string)
    ensures Contains(p + x, p)
  {
    StartsWithIff(p + x, p);
  }

  /** s[0] on a std::string: the terminating NUL when s is empty. */
  function FirstChar(s: string): char {
    if |s| == 0 then '\0' else s[0]
  }

  /** An operand the liveness pass and the code generator treat as a numeric
   *  literal: its first character is a decimal digit or '.'. */
  predicate IsLiteral(s: string) {
    IsDigit(FirstChar(s)) || FirstChar(s) == '.'
  }

  // ---------------------------------------------------------------------
  // The order of std::map<std::string, ...> keys

  /** a sorts strictly before b: a is a proper prefix of b, or at the first
   *  position where they differ a has the smaller character. */
  predicate Below(a: string, b: string)
    decreases |a|
  {
    if b == [] then false
    else if a == [] then true
    else a[0] < b[0] || (a[0] == b[0] && Below(a[1..], b[1..]))
  }

  /** No string sorts before itself. */
  lemma {:induction false} BelowIrreflexive(a: string)
    ensures !Below(a, a)
    decreases |a|
  {
    if a != [] {
      BelowIrreflexive(a[1..]);
    }
  }

  lemma {:induction false} BelowTransitive(a: string, b: string, c: string)
    requires Below(a, b) && Below(b, c)
    ensures Below(a, c)
    decreases |a|
  {
    if a != [] && a[0] == b[0] && b[0] == c[0] {
      BelowTransitive(a[1..], b[1..], c[1..]);
    }
  }

  /** Of two different strings, one sorts before the other. */
  lemma {:induction false} BelowTotal(a: string, b: string)
    requires a != b
    ensures Below(a, b) || Below(b, a)
    decreases |a|
  {
    if a != [] && b != [] && a[0] == b[0] {
      assert a == [a[0]] + a[1..] && b == [b[0]] + b[1..];
      BelowTotal(a[1..], b[1..]);
    }
  }

  /** m is the first of s in the key order. */
  predicate Least(m: string, s: set<string>) {
    m in s && forall x :: x in s && x != m ==> Below(m, x)
  }

  /** Every non-empty set of strings has a first element. */
  lemma {:induction false} HasLeast(s: set<string>)
    requires s != {}
    ensures exists m :: Least(m, s)
    decreases |s|
  {
    var x :| x in s;
    if s != {x} {
      HasLeast(s - {x});
      var m :| Least(m, s - {x});
      if Below(x, m) {
        forall y | y in s && y != x
          ensures Below(x, y)
        {
          if y != m {
            BelowTransitive(x, m, y);
          }
        }
        assert Least(x, s);
      } else {
        BelowTotal(x, m);
        assert Least(m, s);
      }
    } else {
      assert Least(x, s);
    }
  }

  /** The first element is unique. */
  lemma LeastUnique(m: string, n: string, s: set<string>)
    requires Least(m, s) && Least(n, s)
    ensures m == n
  {
    if m != n {
      BelowTransitive(m, n, m);
      BelowIrreflexive(m);
    }
  }
}
