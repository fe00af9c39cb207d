/**
 * String utilities the helpers rely on: the natural ordering of Java strings
 * (`String.compareTo`), the sort performed by `Collections.sort`, Guava's
 * `Joiner.join` and the decimal rendering of integers (`String.valueOf`).
 */
module Strings {

  /** The length of the longest common prefix of `a` and `b`: where `String.compareTo` stops. */
  function Mismatch(a: string, b: string): (k: nat)
    ensures k <= |a| && k <= |b|
    ensures a[..k] == b[..k]
    ensures k < |a| && k < |b| ==> a[k] != b[k]
  {
    if |a| == 0 || |b| == 0 || a[0] != b[0] then 0
    else
      var k := Mismatch(a[1..], b[1..]);
      assert a[..k + 1] == [a[0]] + a[1..][..k];
      assert b[..k + 1] == [b[0]] + b[1..][..k];
      k + 1
  }

  /**
   * `String.compareTo`: the difference of the first characters that differ,
   * or else the difference of the lengths.
   */
  function CompareTo(a: string, b: string): int
  {
    var k := Mismatch(a, b);
    if k < |a| && k < |b| then a[k] as int - b[k] as int else |a| - |b|
  }

  /** `a` comes no later than `b` in lexicographic order: a proper prefix sorts first. */
  predicate LessEq(a: string, b: string)
    ensures LessEq(a, b) <==> CompareTo(a, b) <= 0
  {
    |a| == 0 || (|b| > 0 && (a[0] < b[0] || (a[0] == b[0] && LessEq(a[1..], b[1..]))))
  }

  lemma {:induction false} LessEqReflexive(a: string)
    ensures LessEq(a, a)
  {
    if |a| > 0 {
      LessEqReflexive(a[1..]);
    }
  }

  lemma {:induction false} LessEqAntisymmetric(a: string, b: string)
    requires LessEq(a, b) && LessEq(b, a)
    ensures a == b
  {
    if |a| > 0 && |b| > 0 {
      LessEqAntisymmetric(a[1..], b[1..]);
      assert a == [a[0]] + a[1..];
      assert b == [b[0]] + b[1..];
    }
  }

  lemma {:induction false} LessEqTransitive(a: string, b: string, c: string)
    requires LessEq(a, b) && LessEq(b, c)
    ensures LessEq(a, c)
  {
    if |a| > 0 && |b| > 0 && |c| > 0 && a[0] == b[0] == c[0] {
      LessEqTransitive(a[1..], b[1..], c[1..]);
    }
  }

  lemma {:induction false} LessEqTotal(a: string, b: string)
    ensures LessEq(a, b) || LessEq(b, a)
  {
    if |a| > 0 && |b| > 0 && a[0] == b[0] {
      LessEqTotal(a[1..], b[1..]);
    }
  }

  /** Strings that agree on their first `k` characters and differ at the next are ordered by that character. */
  lemma {:induction false} LessEqAt(a: string, b: string, k: nat)
    requires k < |a| && k < |b| && a[..k] == b[..k] && a[k] < b[k]
    ensures LessEq(a, b)
  {
    if k > 0 {
      assert a[0] == a[..k][0] == b[..k][0] == b[0];
      assert a[1..][..k - 1] == a[..k][1..] == b[..k][1..] == b[1..][..k - 1];
      LessEqAt(a[1..], b[1..], k - 1);
    }
  }

  /** Every element is no later than every element after it. */
  ghost predicate Sorted(s: seq<string>)
  {
    forall i, j :: 0 <= i < j < |s| ==> LessEq(s[i], s[j])
  }

  /** An element no later than every element of a sorted sequence can go in front of it. */
  lemma SortedCons(x: string, s: seq<string>)
    requires Sorted(s)
    requires forall j :: 0 <= j < |s| ==> LessEq(x, s[j])
    ensures Sorted([x] + s)
  {
    assert forall j :: 0 < j <= |s| ==> ([x] + s)[j] == s[j - 1];
  }

  /** `x` no later than the head of a sorted sequence goes in front of it. */
  lemma InsertFront(x: string, s: seq<string>)
    requires Sorted(s) && s != [] && LessEq(x, s[0])
    ensures Sorted([x] + s)
  {
    forall j | 0 <= j < |s| ensures LessEq(x, s[j]) {
      if j > 0 { LessEqTransitive(x, s[0], s[j]); }
    }
    SortedCons(x, s);
  }

  /** The head of a sorted sequence stays in front of `x` inserted into its tail. */
  lemma InsertBehind(x: string, s: seq<string>, rest: seq<string>)
    requires Sorted(s) && s != [] && LessEq(s[0], x)
    requires multiset(rest) == multiset{x} + multiset(s[1..]) && Sorted(rest)
    ensures multiset([s[0]] + rest) == multiset{x} + multiset(s)
    ensures Sorted([s[0]] + rest)
  {
    forall k | 0 <= k < |rest| ensures LessEq(s[0], rest[k]) {
      assert rest[k] in multiset(rest);
      if rest[k] != x {
        assert rest[k] in multiset(s[1..]);
      }
    }
    SortedCons(s[0], rest);
    assert s == [s[0]] + s[1..];
  }

  /** Inserts `x` into a sorted sequence, after the elements that sort before it. */
  function Insert(x: string, s: seq<string>): (r: seq<string>)
    requires Sorted(s)
    ensures multiset(r) == multiset{x} + multiset(s)
    ensures Sorted(r)
  {
    if s == [] then [x]
    else if LessEq(x, s[0]) then
      InsertFront(x, s);
      [x] + s
    else
      LessEqTotal(x, s[0]);
      var rest := Insert(x, s[1..]);
      InsertBehind(x, s, rest);
      [s[0]] + rest
  }

  /** The list `Collections.sort` leaves behind: the same elements, in lexicographic order. */
  function SortStrings(s: seq<string>): (r: seq<string>)
    ensures multiset(r) == multiset(s)
    ensures Sorted(r)
  {
    if s == [] then []
    else
      assert s == [s[0]] + s[1..];
      Insert(s[0], SortStrings(s[1..]))
  }

  /** A sorted arrangement of a collection of strings is unique. */
  lemma {:induction false} SortedUnique(a: seq<string>, b: seq<string>)
    requires Sorted(a) && Sorted(b)
    requires multiset(a) == multiset(b)
    ensures a == b
  {
    if a == [] {
      assert |multiset(b)| == 0;
    } else {
      assert |b| == |multiset(b)| == |multiset(a)| == |a|;
      assert a[0] in multiset(b) && b[0] in multiset(a);
      assert a[0] in b && b[0] in a;
      assert LessEq(b[0], a[0]) by {
        var j :| 0 <= j < |b| && b[j] == a[0];
        if j == 0 { LessEqReflexive(a[0]); }
      }
      assert LessEq(a[0], b[0]) by {
        var j :| 0 <= j < |a| && a[j] == b[0];
        if j == 0 { LessEqReflexive(b[0]); }
      }
      LessEqAntisymmetric(a[0], b[0]);
      assert a == [a[0]] + a[1..];
      assert b == [b[0]] + b[1..];
      assert multiset(a) == multiset{a[0]} + multiset(a[1..]);
      assert multiset(b) == multiset{b[0]} + multiset(b[1..]);
      assert multiset(a[1..]) == multiset(a) - multiset{a[0]};
      assert multiset(b[1..]) == multiset(b) - multiset{b[0]};
      SortedUnique(a[1..], b[1..]);
    }
  }

  /** Two arrangements of the same strings have the same length and the same members. */
  lemma SameElements(a: seq<string>, b: seq<string>)
    requires multiset(a) == multiset(b)
    ensures |a| == |b|
    ensures forall x :: x in a <==> x in b
  {
    assert |a| == |multiset(a)| == |multiset(b)| == |b|;
    forall x ensures x in a <==> x in b {
      assert x in a <==> x in multiset(a);
      assert x in b <==> x in multiset(b);
    }
  }

  /** Sorting any two orderings of the same strings gives the same list. */
  lemma SortIgnoresOrder(a: seq<string>, b: seq<string>)
    requires multiset(a) == multiset(b)
    ensures SortStrings(a) == SortStrings(b)
  {
    SortedUnique(SortStrings(a), SortStrings(b));
  }

  /** `m` is in `s` and no later than any element of `s`. */
  predicate IsMinimum(m: string, s: set<string>)
  {
    m in s && forall y :: y in s ==> LessEq(m, y)
  }

  /** Adding `x` to a set whose minimum is `m` leaves `x` or `m` the minimum. */
  lemma MinimumWith(x: string, m: string, others: set<string>)
    requires IsMinimum(m, others)
    ensures IsMinimum(x, others + {x}) || IsMinimum(m, others + {x})
  {
    LessEqTotal(x, m);
    if LessEq(x, m) {
      forall y | y in others + {x} ensures LessEq(x, y) {
        if y == x { LessEqReflexive(x); } else { LessEqTransitive(x, m, y); }
      }
    }
  }

  lemma {:induction false} MinimumExists(s: set<string>)
    requires s != {}
    ensures exists m :: IsMinimum(m, s)
  {
    var x :| x in s;
    var others := s - {x};
    assert others + {x} == s;
    if others == {} {
      LessEqReflexive(x);
      assert IsMinimum(x, s);
    } else {
      MinimumExists(others);
      var m :| IsMinimum(m, others);
      MinimumWith(x, m, others);
    }
  }

  lemma LessEqAntisymmetricAll()
    ensures forall a, b :: LessEq(a, b) && LessEq(b, a) ==> a == b
  {
    forall a, b | LessEq(a, b) && LessEq(b, a) ensures a == b {
      LessEqAntisymmetric(a, b);
    }
  }

  /** The elements of a set in lexicographic order, each once: `new ArrayList<>(set)` followed by `Collections.sort`. */
  function SortedElements(s: set<string>): (r: seq<string>)
    ensures multiset(r) == multiset(s)
    ensures Sorted(r)
    decreases s
  {
    if s == {} then []
    else
      MinimumExists(s);
      LessEqAntisymmetricAll();
      var m :| IsMinimum(m, s);
      var rest := SortedElements(s - {m});
      MinimumInFront(m, s, rest);
      [m] + rest
  }

  /** The minimum of a set in front of a sorted listing of the others lists the whole set, sorted. */
  lemma MinimumInFront(m: string, s: set<string>, rest: seq<string>)
    requires IsMinimum(m, s)
    requires Sorted(rest) && multiset(rest) == multiset(s - {m})
    ensures Sorted([m] + rest) && multiset([m] + rest) == multiset(s)
  {
    forall k | 0 <= k < |rest| ensures LessEq(m, rest[k]) {
      assert rest[k] in multiset(rest);
    }
    SortedCons(m, rest);
    assert multiset(s) == multiset{m} + multiset(s - {m});
  }

  /** The sorted listing of a set holds each of its elements once and nothing else. */
  lemma SortedElementsMembers(s: set<string>)
    ensures |SortedElements(s)| == |s|
    ensures forall x :: x in SortedElements(s) <==> x in s
  {
    var r := SortedElements(s);
    assert |r| == |multiset(r)| == |multiset(s)| == |s|;
    forall x ensures x in r <==> x in s {
      assert x in r <==> x in multiset(r);
      assert x in s <==> x in multiset(s);
    }
  }

  /** The total length of `parts`. */
  function TotalLength(parts: seq<string>): nat
  {
    if |parts| == 0 then 0 else |parts[0]| + TotalLength(parts[1..])
  }

  /** Guava's `Joiner.on(sep).join(parts)`: the parts with `sep` between neighbours. */
  function Join(sep: string, parts: seq<string>): (r: string)
    ensures |parts| > 0 ==> |r| == TotalLength(parts) + (|parts| - 1) * |sep|
    ensures |parts| > 0 ==> r[..|parts[0]|] == parts[0]
    ensures |parts| == 0 ==> r == ""
  {
    if |parts| == 0 then ""
    else if |parts| == 1 then parts[0]
    else parts[0] + sep + Join(sep, parts[1..])
  }

  /**
   * `Joiner.appendTo`'s loop: the first part, then the separator and the next
   * part for each further part.
   */
  lemma {:induction false} JoinAppend(sep: string, parts: seq<string>, p: string)
    requires |parts| > 0
    ensures Join(sep, parts + [p]) == Join(sep, parts) + sep + p
  {
    if |parts| > 1 {
      assert (parts + [p])[1..] == parts[1..] + [p];
      JoinAppend(sep, parts[1..], p);
    } else {
      assert parts + [p] == [parts[0], p];
      assert [parts[0], p][1..] == [p];
    }
  }


  /** A decimal digit. */
  predicate IsDigit(c: char)
  {
    '0' as int <= c as int <= '9' as int
  }

  /** The character of decimal digit `d`. */
  function DigitChar(d: nat): (c: char)
    requires d < 10
    ensures IsDigit(c) && c as int - '0' as int == d
  {
    (d + '0' as int) as char
  }

  /** The number a string of decimal digits denotes, most significant digit first. */
  function DigitsValue(s: string): nat
    requires forall i :: 0 <= i < |s| ==> IsDigit(s[i])
  {
    if |s| == 0 then 0
    else
      assert IsDigit(s[|s| - 1]);
      DigitsValue(s[..|s| - 1]) * 10 + (s[|s| - 1] as int - '0' as int)
  }

  /** The decimal digits of `n`, without leading zeros. */
  function NatToString(n: nat): (r: string)
    ensures |r| > 0 && forall i :: 0 <= i < |r| ==> IsDigit(r[i])
    ensures DigitsValue(r) == n
    ensures r[0] == '0' ==> n == 0
    ensures r[0] == '0' ==> r == "0"
  {
    if n < 10 then [DigitChar(n)]
    else
      var r := NatToString(n / 10) + [DigitChar(n % 10)];
      assert r[..|r| - 1] == NatToString(n / 10);
      r
  }

  /** `String.valueOf` of a Java `int` or `long`: optional minus sign, then decimal digits. */
  function IntToString(n: int): (r: string)
    ensures n >= 0 ==> (forall i :: 0 <= i < |r| ==> IsDigit(r[i])) && DigitsValue(r) == n
    ensures n < 0 ==> |r| > 1 && r[0] == '-' && (forall i :: 1 <= i < |r| ==> IsDigit(r[i]))
                      && DigitsValue(r[1..]) == -n
    ensures |r| > 1 && IsDigit(r[0]) ==> r[0] != '0'
    ensures n < 0 ==> r[1] != '0'
    ensures |r| > 0 && (r[0] == '0' ==> r == "0")
  {
    if n < 0 then "-" + NatToString(-n) else NatToString(n)
  }
}
