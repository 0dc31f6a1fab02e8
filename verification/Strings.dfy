/** Go strings as the replication core uses them: the byte-wise order behind
    `<` and `sort.Strings`, and the decimal rendering behind `%d`. */
module Strings {

  /** Go's `a < b` on strings. */
  predicate Before(a: string, b: string) {
    b != [] && (a == [] || a[0] < b[0] || (a[0] == b[0] && Before(a[1..], b[1..])))
  }

  lemma {:induction false} BeforeTotal(a: string, b: string)
    ensures a == b || Before(a, b) || Before(b, a)
  {
    if a != [] && b != [] && a[0] == b[0] {
      BeforeTotal(a[1..], b[1..]);
      assert a == [a[0]] + a[1..] && b == [b[0]] + b[1..];
    }
  }

  lemma {:induction false} BeforeTransitive(a: string, b: string, c: string)
    requires Before(a, b) && Before(b, c)
    ensures Before(a, c)
  {
    if a != [] && a[0] == b[0] == c[0] {
      BeforeTransitive(a[1..], b[1..], c[1..]);
    }
  }

  lemma {:induction false} BeforeAsymmetric(a: string, b: string)
    requires Before(a, b)
    ensures !Before(b, a) && a != b
  {
    if a != [] && a[0] == b[0] {
      BeforeAsymmetric(a[1..], b[1..]);
    }
  }

  /** At position k, where the strings differ for the first time, a has the smaller character. */
  predicate SmallerAt(a: string, b: string, k: nat) {
    k < |a| && k < |b| && a[..k] == b[..k] && a[k] < b[k]
  }

  lemma SmallerAtNext(a: string, b: string, k: nat, next: nat)
    requires a != [] && b != [] && a[0] == b[0] && next == k + 1
    ensures SmallerAt(a[1..], b[1..], k) <==> SmallerAt(a, b, next)
  {
    if next < |a| && next < |b| {
      assert a[..next] == [a[0]] + a[1..][..k] && b[..next] == [b[0]] + b[1..][..k];
    }
  }

  lemma PrefixNext(a: string, b: string)
    requires a != [] && b != [] && a[0] == b[0] && |a| < |b|
    ensures a[1..] == b[1..][..|a| - 1] <==> a == b[..|a|]
  {
    assert a == [a[0]] + a[1..] && b[..|a|] == [b[0]] + b[1..][..|a| - 1];
  }

  /** The shorter of two strings comes first when it begins the other; otherwise the first character that
      differs decides. */
  lemma {:induction false} BeforeIff(a: string, b: string)
    ensures Before(a, b) <==> (|a| < |b| && a == b[..|a|]) || exists k :: SmallerAt(a, b, k)
  {
    if a != [] && b != [] && a[0] == b[0] {
      BeforeIff(a[1..], b[1..]);
      if |a| < |b| { PrefixNext(a, b); }
      if k: nat :| SmallerAt(a[1..], b[1..], k) { SmallerAtNext(a, b, k, k + 1); }
      if k: nat :| SmallerAt(a, b, k) { SmallerAtNext(a, b, k - 1, k); }
    } else if a != [] && b != [] {
      HeadsDiffer(a, b);
    }
  }

  lemma HeadsDiffer(a: string, b: string)
    requires a != [] && b != [] && a[0] != b[0]
    ensures (exists k :: SmallerAt(a, b, k)) <==> a[0] < b[0]
    ensures |a| < |b| ==> a != b[..|a|]
  {
    assert |a| < |b| ==> b[..|a|][0] == b[0];
    forall k: nat | 0 < k < |a| && k < |b| ensures a[..k] != b[..k] { assert a[..k][0] != b[..k][0]; }
    if a[0] < b[0] { assert SmallerAt(a, b, 0); }
  }

  // ---- Sorted listings ----

  ghost predicate Ascending(s: seq<string>) {
    forall i, j :: 0 <= i < j < |s| ==> Before(s[i], s[j])
  }

  /** s is the strictly ascending list of exactly the members of m. */
  ghost predicate Lists(s: seq<string>, m: set<string>) {
    Ascending(s) && forall x :: x in s <==> x in m
  }

  /** A set has one strictly ascending listing, so any sort gives the same list. */
  lemma {:induction false} ListingUnique(s: seq<string>, t: seq<string>, m: set<string>)
    requires Lists(s, m) && Lists(t, m)
    ensures s == t
  {
    SameEmptiness(s, t, m);
    if s != [] {
      assert s[0] in s && t[0] in t;
      HeadIsLeast(s, t[0]);
      HeadIsLeast(t, s[0]);
      if s[0] != t[0] { BeforeAsymmetric(s[0], t[0]); }
      TailLists(s, m);
      TailLists(t, m);
      ListingUnique(s[1..], t[1..], m - {s[0]});
      assert s == [s[0]] + s[1..] && t == [t[0]] + t[1..];
    }
  }

  lemma SameEmptiness(s: seq<string>, t: seq<string>, m: set<string>)
    requires Lists(s, m) && Lists(t, m)
    ensures s == [] <==> t == []
  {
    assert s != [] ==> s[0] in m;
    assert t != [] ==> t[0] in m;
  }

  lemma HeadIsLeast(s: seq<string>, x: string)
    requires Ascending(s) && x in s
    ensures s[0] == x || Before(s[0], x)
  {
  }

  lemma TailLists(s: seq<string>, m: set<string>)
    requires Lists(s, m) && s != []
    ensures Lists(s[1..], m - {s[0]})
  {
    forall x ensures x in s[1..] <==> x in m - {s[0]} {
      assert s == [s[0]] + s[1..];
      if x in s[1..] {
        var i :| 0 <= i < |s[1..]| && s[1..][i] == x;
        assert s[i + 1] == x && Before(s[0], s[i + 1]);
        BeforeAsymmetric(s[0], x);
      }
    }
  }

  /** Put x into its place in an ascending list. */
  method InsertSorted(s: seq<string>, x: string, ghost m: set<string>) returns (r: seq<string>)
    requires Lists(s, m) && x !in m
    ensures Lists(r, m + {x})
  {
    var i := 0;
    while i < |s| && Before(s[i], x)
      invariant 0 <= i <= |s|
      invariant forall j :: 0 <= j < i ==> Before(s[j], x)
    {
      i := i + 1;
    }
    r := s[..i] + [x] + s[i..];
    forall j | i <= j < |s| ensures Before(x, s[j]) {
      assert s[j] in s && s[i] in s;
      BeforeTotal(s[i], x);
      if j > i { BeforeTransitive(x, s[i], s[j]); }
    }
    forall y ensures y in r <==> y in m + {x} {
      assert s == s[..i] + s[i..];
    }
  }

  // ---- Decimal rendering ----

  function Digit(d: nat): char
    requires d < 10
  {
    "0123456789"[d]
  }

  function Decimal(n: nat): string {
    if n < 10 then [Digit(n)] else Decimal(n / 10) + [Digit(n % 10)]
  }

  lemma DecimalInjective(m: nat, n: nat)
    requires Decimal(m) == Decimal(n)
    ensures m == n
  {
    DecimalReadsBack(m);
    DecimalReadsBack(n);
  }

  lemma DecimalNonempty(n: nat)
    ensures |Decimal(n)| >= 1
  {
  }

  function Pow10(k: nat): nat {
    if k == 0 then 1 else 10 * Pow10(k - 1)
  }

  /** A number below 10^k has at most k digits. */
  lemma {:induction false} DecimalLength(n: nat, k: nat)
    requires n < Pow10(k) && k >= 1
    ensures |Decimal(n)| <= k
  {
    if n >= 10 {
      DecimalLength(n / 10, k - 1);
    }
  }

  predicate IsDigit(c: char) {
    '0' <= c <= '9'
  }

  /** The number that a string of digits denotes. */
  function ReadDecimal(s: string): int {
    if s == "" then 0 else 10 * ReadDecimal(s[..|s| - 1]) + (s[|s| - 1] as int - '0' as int)
  }

  /** A canonical numeral: digits only, and no leading zero but in "0". */
  predicate Numeral(s: string) {
    s != "" && (forall i :: 0 <= i < |s| ==> IsDigit(s[i])) && (|s| > 1 ==> s[0] != '0')
  }

  /** The rendering of n is a numeral that reads as n, ... */
  lemma {:induction false} DecimalReadsBack(n: nat)
    ensures Numeral(Decimal(n)) && ReadDecimal(Decimal(n)) == n && (n > 0 ==> Decimal(n)[0] != '0')
  {
    var d := n % 10;
    assert Digit(d) as int == '0' as int + d;
    if n < 10 {
      assert Decimal(n)[..0] == "" && ReadDecimal("") == 0;
    } else {
      DecimalReadsBack(n / 10);
      assert Decimal(n)[..|Decimal(n)| - 1] == Decimal(n / 10);
    }
  }

  lemma AppendDigit(m: nat, c: char, n: nat)
    requires IsDigit(c) && n == 10 * m + (c as int - '0' as int)
    ensures Decimal(n) == (if m == 0 then "" else Decimal(m)) + [c]
  {
    assert n / 10 == m && n % 10 == c as int - '0' as int;
    assert Digit(n % 10) == c;
  }

  /** ... and it is the only one. */
  lemma {:induction false} NumeralIsDecimal(s: string)
    requires Numeral(s)
    ensures ReadDecimal(s) >= 0 && Decimal(ReadDecimal(s)) == s && (s[0] != '0' ==> ReadDecimal(s) > 0)
  {
    var front, c := s[..|s| - 1], s[|s| - 1];
    if front == "" {
      OneDigit(s, c);
    } else {
      assert front[0] == s[0];
      NumeralIsDecimal(front);
      MoreDigits(s, front, c, ReadDecimal(front), 10 * ReadDecimal(front) + (c as int - '0' as int));
    }
  }

  lemma OneDigit(s: string, c: char)
    requires s == [c] && IsDigit(c)
    ensures ReadDecimal(s) == c as int - '0' as int && Decimal(ReadDecimal(s)) == s
  {
    assert s[..0] == "" && ReadDecimal("") == 0;
    AppendDigit(0, c, c as int - '0' as int);
  }

  lemma MoreDigits(s: string, front: string, c: char, m: nat, n: nat)
    requires s != "" && front == s[..|s| - 1] && c == s[|s| - 1] && IsDigit(c)
    requires ReadDecimal(front) == m && Decimal(m) == front && m > 0 && n == 10 * m + (c as int - '0' as int)
    ensures ReadDecimal(s) == n && Decimal(n) == s && n > 0
  {
    AppendDigit(m, c, n);
    assert s == front + [c];
  }
}
