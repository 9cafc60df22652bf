/** Spreadsheet column names: bijective base 26 over the letters A to Z, in shortlex order
    (the column part of a cell reference, ECMA-376 Part 1, section 18.3.1.4).
 */
module ColumnNames {

  predicate IsName(s: string) { forall i :: 0 <= i < |s| ==> 'A' <= s[i] <= 'Z' }

  function Letter(digit: nat): char
    requires digit < 26
  {
    'A' + digit as char
  }

  function Digit(c: char): int { c as int - 'A' as int + 1 }

  /** The index a name stands for: A is 1, Z is 26, AA is 27; the empty name is 0. */
  function Decode(name: string): int {
    if name == "" then 0 else 26 * Decode(name[..|name| - 1]) + Digit(name[|name| - 1])
  }

  /** `_column_name` */
  method ColumnName(index: nat) returns (name: string)
    ensures IsName(name) && Decode(name) == index
    ensures name == "" <==> index == 0
  {
    name := "";
    var rest := index;
    while rest > 0
      invariant rest >= 0 && IsName(name)
      invariant Decode(name) + rest * Pow26(|name|) == index
    {
      var quotient, remainder := (rest - 1) / 26, (rest - 1) % 26;
      DecodePrepend(Letter(remainder), name);
      Rebase(rest, quotient, remainder, Pow26(|name|));
      rest, name := quotient, [Letter(remainder)] + name;
    }
    assert rest == 0;
    if name != "" { DecodePositive(name); }
  }

  function Pow26(n: nat): nat { if n == 0 then 1 else 26 * Pow26(n - 1) }

  lemma Rebase(rest: nat, quotient: nat, remainder: nat, power: nat)
    requires rest == 26 * quotient + remainder + 1
    ensures rest * power == quotient * (26 * power) + (remainder + 1) * power
  {
  }

  lemma {:induction false} DecodePrepend(c: char, name: string)
    ensures Decode([c] + name) == Digit(c) * Pow26(|name|) + Decode(name)
  {
    var whole := [c] + name;
    if name == "" {
      assert whole[..0] == "";
    } else {
      assert whole[..|whole| - 1] == [c] + name[..|name| - 1];
      DecodePrepend(c, name[..|name| - 1]);
    }
  }

  lemma {:induction false} DecodePositive(name: string)
    requires IsName(name) && name != ""
    ensures Decode(name) >= 1
  {
    var init := name[..|name| - 1];
    if init != "" { DecodePositive(init); }
  }

  // ---------------------------------------------------------------- a bijection

  lemma SameQuotient(p: int, q: int, c: int, d: int)
    requires 26 * p + c == 26 * q + d && 1 <= c <= 26 && 1 <= d <= 26
    ensures p == q && c == d
  {
  }

  /** Distinct names stand for distinct indexes; so the name of an index is the only one that decodes to it. */
  lemma {:induction false} DecodeInjective(a: string, b: string)
    requires IsName(a) && IsName(b) && Decode(a) == Decode(b)
    ensures a == b
  {
    hide IsName, Decode, Digit;
    if a == "" || b == "" {
      EmptyIsZero();
      if a != "" { DecodePositive(a); }
      if b != "" { DecodePositive(b); }
    } else {
      var x, y, c, d := a[..|a| - 1], b[..|b| - 1], a[|a| - 1], b[|b| - 1];
      LastLetter(a);
      LastLetter(b);
      SameQuotient(Decode(x), Decode(y), Digit(c), Digit(d));
      SameDigit(c, d);
      DecodeInjective(x, y);
      assert a == x + [c] && b == y + [d];
    }
  }

  lemma EmptyIsZero()
    ensures Decode("") == 0
  {
  }

  lemma LastLetter(name: string)
    requires IsName(name) && name != ""
    ensures var init, last := name[..|name| - 1], name[|name| - 1];
            IsName(init) && 1 <= Digit(last) <= 26 && Decode(name) == 26 * Decode(init) + Digit(last)
  {
  }

  lemma SameDigit(c: char, d: char)
    requires Digit(c) == Digit(d)
    ensures c == d
  {
  }

  // ---------------------------------------------------------------- shortlex order

  ghost predicate FirstDifference(a: string, b: string, i: nat) {
    i < |a| == |b| && a[..i] == b[..i] && a[i] < b[i]
  }

  ghost predicate Shortlex(a: string, b: string) {
    |a| < |b| || exists i :: FirstDifference(a, b, i)
  }

  /** The least index of a name of length `n`. */
  function Least(n: nat): nat { if n == 0 then 0 else 26 * Least(n - 1) + 1 }

  lemma {:induction false} DecodeRange(name: string)
    requires IsName(name)
    ensures Least(|name|) <= Decode(name) < Least(|name| + 1)
  {
    if name != "" { DecodeRange(name[..|name| - 1]); }
  }

  lemma {:induction false} LeastMonotone(m: nat, n: nat)
    requires m <= n
    ensures Least(m) <= Least(n)
  {
    if m < n { LeastMonotone(m, n - 1); }
  }

  lemma {:induction false} DifferenceDecides(a: string, b: string, i: nat)
    requires IsName(a) && IsName(b) && FirstDifference(a, b, i)
    ensures Decode(a) < Decode(b)
  {
    var n := |a| - 1;
    if i == n {
      assert a[..n] == b[..n];
    } else {
      assert a[..n][..i] == a[..i] && b[..n][..i] == b[..i];
      DifferenceDecides(a[..n], b[..n], i);
    }
  }

  lemma ShortlexIncreases(a: string, b: string)
    requires IsName(a) && IsName(b) && Shortlex(a, b)
    ensures Decode(a) < Decode(b)
  {
    if |a| < |b| {
      DecodeRange(a);
      DecodeRange(b);
      LeastMonotone(|a| + 1, |b|);
    } else {
      var i :| FirstDifference(a, b, i);
      DifferenceDecides(a, b, i);
    }
  }

  lemma {:induction false} ShortlexTotal(a: string, b: string)
    ensures a == b || Shortlex(a, b) || Shortlex(b, a)
  {
    if |a| == |b| && a != b {
      var i := Differ(a, b, 0);
      assert FirstDifference(a, b, i) || FirstDifference(b, a, i);
    }
  }

  lemma {:induction false} Differ(a: string, b: string, from: nat) returns (i: nat)
    requires |a| == |b| && a != b && from <= |a| && a[..from] == b[..from]
    ensures i < |a| && a[..i] == b[..i] && a[i] != b[i]
    decreases |a| - from
  {
    if from < |a| && a[from] != b[from] {
      i := from;
    } else {
      assert from < |a|;
      assert a[..from + 1] == b[..from + 1];
      i := Differ(a, b, from + 1);
    }
  }

  /** Columns are ordered as their names are in shortlex order. */
  lemma IndexOrderIsShortlex(a: string, b: string)
    requires IsName(a) && IsName(b)
    ensures Decode(a) < Decode(b) <==> Shortlex(a, b)
  {
    ShortlexTotal(a, b);
    if Shortlex(a, b) { ShortlexIncreases(a, b); }
    if Shortlex(b, a) { ShortlexIncreases(b, a); }
  }
}
