/** Text as the form builder uses it: string comparison, decimal numerals, and the fact that a
    piece of text free of a delimiter can be recovered from what follows the delimiter. */
module Text {

  /** The `<` of the source language on strings: lexicographic by character. */
  predicate Less(a: string, b: string) {
    b != [] && (a == [] || a[0] < b[0] || (a[0] == b[0] && Less(a[1..], b[1..])))
  }

  /** The first difference decides, and a proper prefix comes first. */
  lemma {:induction false} LessAtDifference(a: string, b: string)
    ensures Less(a, b) <==>
            exists k :: 0 <= k <= |a| && k < |b| && a[..k] == b[..k] && (k == |a| || a[k] < b[k])
  {
    if a != [] && b != [] && a[0] == b[0] {
      LessAtDifference(a[1..], b[1..]);
      if k :| 0 <= k <= |a[1..]| && k < |b[1..]| && a[1..][..k] == b[1..][..k] && (k == |a[1..]| || a[1..][k] < b[1..][k]) {
        assert a[..k + 1] == [a[0]] + a[1..][..k] && b[..k + 1] == [b[0]] + b[1..][..k];
      }
      if k :| 0 <= k <= |a| && k < |b| && a[..k] == b[..k] && (k == |a| || a[k] < b[k]) {
        assert k > 0;
        assert a[1..][..k - 1] == a[..k][1..] == b[..k][1..] == b[1..][..k - 1];
      }
    } else if b != [] {
      assert a == [] || a[0] < b[0] ==> a[..0] == b[..0];
      forall k | 0 < k <= |a| && k < |b| ensures a[..k] != b[..k] {
        assert a[..k][0] == a[0] && b[..k][0] == b[0];
      }
    }
  }

  lemma LessIrreflexive(a: string)
    ensures !Less(a, a)
  {}

  lemma LessTotal(a: string, b: string)
    ensures Less(a, b) || a == b || Less(b, a)
  {
    if a != [] && b != [] && a[0] == b[0] {
      LessTotal(a[1..], b[1..]);
      assert a == [a[0]] + a[1..] && b == [b[0]] + b[1..];
    }
  }

  lemma LessTransitive(a: string, b: string, c: string)
    requires Less(a, b) && Less(b, c)
    ensures Less(a, c)
  {
    if a != [] && a[0] == b[0] && b[0] == c[0] {
      LessTransitive(a[1..], b[1..], c[1..]);
    }
  }

  /** Two strings with the same delimiter after delimiter-free heads split the same way. */
  lemma SplitAt(a: string, b: string, d: char, x: string, y: string)
    requires d !in a && d !in b
    requires a + [d] + x == b + [d] + y
    ensures a == b && x == y
  {
    assert (a + [d] + x)[0] == (b + [d] + y)[0];
    if a != [] && b != [] {
      assert a[1..] + [d] + x == (a + [d] + x)[1..] == b[1..] + [d] + y;
      SplitAt(a[1..], b[1..], d, x, y);
      assert a == [a[0]] + a[1..] && b == [b[0]] + b[1..];
    } else {
      assert x == (a + [d] + x)[|a| + 1..] && y == (b + [d] + y)[|b| + 1..];
    }
  }

  const DIGITS: string := "0123456789"

  /** `str(n)` for a non-negative integer. */
  function Decimal(n: nat): (s: string)
    ensures s != [] && forall ch <- s :: '0' <= ch <= '9'
  {
    if n < 10 then [DIGITS[n]] else Decimal(n / 10) + [DIGITS[n % 10]]
  }

  /** What a digit is worth, by its code. */
  function DigitValue(ch: char): nat
    requires '0' <= ch <= '9'
  {
    ch as int - '0' as int
  }

  /** A numeral read in base ten. */
  function ReadDecimal(s: string): nat
    requires forall ch <- s :: '0' <= ch <= '9'
  {
    if s == [] then 0 else
      var rest := s[..|s| - 1];
      assert s[|s| - 1] in s;
      assert forall k :: 0 <= k < |rest| ==> rest[k] in s;
      10 * ReadDecimal(rest) + DigitValue(s[|s| - 1])
  }

  /** A numeral means its number, and starts with 0 only for 0. */
  lemma {:induction false} DecimalReads(n: nat)
    ensures ReadDecimal(Decimal(n)) == n
    ensures Decimal(n)[0] == '0' ==> n == 0 && Decimal(n) == "0"
  {
    var s := Decimal(n);
    if n >= 10 {
      DecimalReads(n / 10);
      assert s[..|s| - 1] == Decimal(n / 10);
      assert s[0] == Decimal(n / 10)[0];
    } else {
      assert s[..0] == [];
    }
  }

  lemma DecimalInjective(m: nat, n: nat)
    requires Decimal(m) == Decimal(n)
    ensures m == n
  {
    var s, t := Decimal(m), Decimal(n);
    assert s[|s| - 1] == DIGITS[m % 10] && t[|t| - 1] == DIGITS[n % 10];
    if m >= 10 && n >= 10 {
      assert Decimal(m / 10) == s[..|s| - 1] && Decimal(n / 10) == t[..|t| - 1];
      DecimalInjective(m / 10, n / 10);
    }
  }

  // ---------------------------------------------------------------- joining

  /** The parts with `d` between them. */
  function Join(parts: seq<string>, d: char): string {
    if parts == [] then "" else if |parts| == 1 then parts[0] else parts[0] + [d] + Join(parts[1..], d)
  }

  /** Joining more parts puts `d` between the two results. */
  lemma {:induction false} JoinAppends(a: seq<string>, b: seq<string>, d: char)
    requires a != [] && b != []
    ensures Join(a + b, d) == Join(a, d) + [d] + Join(b, d)
  {
    assert (a + b)[0] == a[0];
    if |a| == 1 {
      assert (a + b)[1..] == b;
    } else {
      assert (a + b)[1..] == a[1..] + b;
      JoinAppends(a[1..], b, d);
    }
  }

  lemma JoinShape(a: seq<string>, d: char)
    requires forall s <- a :: s != "" && d !in s
    ensures Join(a, d) == "" <==> a == []
    ensures d in Join(a, d) <==> |a| > 1
  {
    if |a| == 1 {
      assert a[0] in a;
    } else if |a| > 1 {
      assert a[0] in a;
      assert Join(a, d)[|a[0]|] == d;
    }
  }

  /** Joining non-empty delimiter-free parts loses nothing. */
  lemma {:induction false} JoinInjective(a: seq<string>, b: seq<string>, d: char)
    requires forall s <- a :: s != "" && d !in s
    requires forall s <- b :: s != "" && d !in s
    requires Join(a, d) == Join(b, d)
    ensures a == b
  {
    JoinShape(a, d);
    JoinShape(b, d);
    if |a| > 1 && |b| > 1 {
      assert a[0] in a && b[0] in b;
      SplitAt(a[0], b[0], d, Join(a[1..], d), Join(b[1..], d));
      assert forall s <- a[1..] :: s in a;
      assert forall s <- b[1..] :: s in b;
      JoinInjective(a[1..], b[1..], d);
      assert a == [a[0]] + a[1..] && b == [b[0]] + b[1..];
    }
  }
}
