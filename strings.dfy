/**
 * The JavaScript string operations the bot relies on: `includes`, `split`
 * with a one-character separator, `join`, `parseInt` on a run of digits, the
 * decimal rendering of a non-negative integer and `toFixed(2)` of an amount
 * held in cents.
 */
module Strings {
  import opened Chars

  /** `s.includes(k)`, also what `s.match(/k/)` tests for a literal `k`. */
  predicate Contains(s: string, k: string)
    decreases |s|
  {
    |k| <= |s| && (s[..|k|] == k || Contains(s[1..], k))
  }

  lemma {:induction false} ContainsChar(s: string, c: char)
    ensures Contains(s, [c]) <==> c in s
    decreases |s|
  {
    if |s| > 0 {
      ContainsChar(s[1..], c);
      assert s == [s[0]] + s[1..];
    }
  }

  /** `s` contains every slice of itself. */
  lemma {:induction false} ContainsSlice(s: string, i: nat, k: string)
    requires i + |k| <= |s| && s[i..i + |k|] == k
    ensures Contains(s, k)
    decreases i
  {
    if i > 0 {
      assert s[1..][i - 1..i - 1 + |k|] == k;
      ContainsSlice(s[1..], i - 1, k);
    }
  }

  /** `k` occurs in `s` at position `i`. */
  predicate OccursAt(s: string, k: string, i: nat) {
    i + |k| <= |s| && s[i..i + |k|] == k
  }

  /** `includes` means what it says: `k` occurs at some position of `s`. */
  lemma {:induction false} ContainsIff(s: string, k: string)
    ensures Contains(s, k) <==> exists i: nat :: OccursAt(s, k, i)
    decreases |s|
  {
    if Contains(s, k) {
      if s[..|k|] == k {
        assert OccursAt(s, k, 0);
      } else {
        ContainsIff(s[1..], k);
        var i: nat :| OccursAt(s[1..], k, i);
        assert s[i + 1..i + 1 + |k|] == k;
        assert OccursAt(s, k, i + 1);
      }
    } else {
      forall i: nat
        ensures !OccursAt(s, k, i)
      {
        if OccursAt(s, k, i) {
          ContainsSlice(s, i, k);
        }
      }
    }
  }

  /** A text holds whatever a part of it holds. */
  lemma ContainsWithin(a: string, b: string, c: string, k: string)
    requires Contains(b, k)
    ensures Contains(a + b + c, k)
  {
    ContainsIff(b, k);
    var i: nat :| OccursAt(b, k, i);
    assert (a + b + c)[|a| + i..|a| + i + |k|] == k;
    ContainsSlice(a + b + c, |a| + i, k);
  }

  /** A text holds whatever a text it holds holds. */
  lemma ContainsTrans(a: string, b: string, k: string)
    requires Contains(a, b) && Contains(b, k)
    ensures Contains(a, k)
  {
    ContainsIff(a, b);
    var i: nat :| OccursAt(a, b, i);
    assert a == a[..i] + b + a[i + |b|..];
    ContainsWithin(a[..i], b, a[i + |b|..], k);
  }

  /** A text holds itself. */
  lemma ContainsSelf(k: string)
    ensures Contains(k, k)
  {
    assert k[0..|k|] == k;
    ContainsSlice(k, 0, k);
  }

  /** A text without the first character of `k` does not contain `k`. */
  lemma {:induction false} MissingFirstChar(s: string, k: string)
    requires |k| > 0 && k[0] !in s
    ensures !Contains(s, k)
    decreases |s|
  {
    if |k| <= |s| {
      assert s[..|k|][0] == s[0];
      MissingFirstChar(s[1..], k);
    }
  }

  /** `parts.join(sep)`. */
  function Join(parts: seq<string>, sep: string): string
    decreases |parts|
  {
    if |parts| == 0 then ""
    else if |parts| == 1 then parts[0]
    else parts[0] + sep + Join(parts[1..], sep)
  }

  /** The joined text holds every part. */
  lemma {:induction false} JoinContains(parts: seq<string>, sep: string, j: nat)
    requires j < |parts|
    ensures Contains(Join(parts, sep), parts[j])
    decreases |parts|
  {
    if |parts| == 1 {
      ContainsSelf(parts[0]);
    } else if j == 0 {
      ContainsSelf(parts[0]);
      ContainsWithin([], parts[0], sep + Join(parts[1..], sep), parts[0]);
      assert [] + parts[0] + (sep + Join(parts[1..], sep)) == Join(parts, sep);
    } else {
      JoinContains(parts[1..], sep, j - 1);
      ContainsWithin(parts[0] + sep, Join(parts[1..], sep), [], parts[j]);
      assert parts[0] + sep + Join(parts[1..], sep) + [] == Join(parts, sep);
    }
  }

  /** The first position of `c` in `s`. */
  function IndexOf(s: string, c: char): (i: nat)
    requires c in s
    ensures i < |s| && s[i] == c && c !in s[..i]
  {
    if s[0] == c then 0 else 1 + IndexOf(s[1..], c)
  }

  /** `s.split(sep)` for a one-character separator: the pieces between the
      separators, in order, and nothing lost. */
  function Split(s: string, sep: char): (parts: seq<string>)
    ensures |parts| >= 1
    ensures forall k :: 0 <= k < |parts| ==> sep !in parts[k]
    ensures Join(parts, [sep]) == s
    decreases |s|
  {
    if sep !in s then [s]
    else
      var i := IndexOf(s, sep);
      var rest := Split(s[i + 1..], sep);
      assert s == s[..i] + [sep] + s[i + 1..];
      [s[..i]] + rest
  }

  predicate AllDigits(s: string) {
    forall k :: 0 <= k < |s| ==> IsDigit(s[k])
  }

  function DigitValue(c: char): (d: nat)
    requires IsDigit(c)
    ensures d < 10
  {
    c as int - '0' as int
  }

  function Digit(d: nat): (c: char)
    requires d < 10
    ensures IsDigit(c) && DigitValue(c) == d
  {
    ('0' as int + d) as char
  }

  /** `parseInt` of a string made only of digits: its decimal value. */
  function DigitsValue(ds: string): nat
    requires AllDigits(ds)
    decreases |ds|
  {
    if ds == [] then 0 else DigitsValue(ds[..|ds| - 1]) * 10 + DigitValue(ds[|ds| - 1])
  }

  /** Leading zeros do not change what `parseInt` reads. */
  lemma {:induction false} LeadingZeroIgnored(ds: string)
    requires AllDigits(ds)
    ensures AllDigits(['0'] + ds) && DigitsValue(['0'] + ds) == DigitsValue(ds)
    decreases |ds|
  {
    var z := ['0'] + ds;
    assert AllDigits(z);
    if ds != [] {
      assert z[..|z| - 1] == ['0'] + ds[..|ds| - 1];
      LeadingZeroIgnored(ds[..|ds| - 1]);
    }
  }

  /** The decimal rendering of a non-negative integer (`${n}` in a template):
      digits only, no superfluous leading zero, and it reads back as `n`. */
  function DigitsOf(n: nat): (r: string)
    ensures |r| >= 1 && AllDigits(r)
    ensures |r| > 1 ==> r[0] != '0'
    ensures DigitsValue(r) == n
    decreases n
  {
    if n < 10 then [Digit(n)]
    else
      var r := DigitsOf(n / 10) + [Digit(n % 10)];
      assert r[..|r| - 1] == DigitsOf(n / 10);
      r
  }

  /** `x.toFixed(2)` for a non-negative amount of `c` cents: whole units, a
      point and exactly two digits, which read back as `c`. */
  function CentsText(c: nat): (r: string)
    ensures |r| >= 4 && r[|r| - 3] == '.'
    ensures AllDigits(r[..|r| - 3]) && AllDigits(r[|r| - 2..])
    ensures DigitsValue(r[..|r| - 3]) * 100 + DigitsValue(r[|r| - 2..]) == c
  {
    var units := DigitsOf(c / 100);
    var cents := [Digit(c % 100 / 10), Digit(c % 10)];
    var r := units + "." + cents;
    assert r[..|r| - 3] == units && r[|r| - 2..] == cents;
    assert cents[..1] == [cents[0]] && cents[..1][..0] == [];
    assert DigitsValue(cents[..1]) == c % 100 / 10;
    assert DigitsValue(cents) == c % 100;
    r
  }

  /** `x.toFixed(2)` for an amount of `c` cents of either sign. */
  function MoneyText(c: int): (r: string)
    ensures c >= 0 ==> r == CentsText(c)
    ensures c < 0 ==> r == "-" + CentsText(-c)
  {
    if c < 0 then "-" + CentsText(-c) else CentsText(c)
  }
}
