/**
 * The few Python string operations the core relies on, written out:
 * `p in s`, `s.split(c)`, `int(s)` for decimal text and `str(n)`.
 */
module Strings {
  import opened Wrappers

  /** Python's substring test `p in s` (the empty pattern is in every string). */
  predicate Contains(s: string, p: string)
  {
    p <= s || (s != [] && Contains(s[1..], p))
  }

  /** `p` occurs in `s` starting at index `i`. */
  predicate OccursAt(s: string, p: string, i: int)
  {
    0 <= i <= |s| - |p| && s[i..i + |p|] == p
  }

  /** `p in s` holds exactly when `p` occurs in `s` at some position. */
  lemma {:induction false} ContainsIff(s: string, p: string)
    ensures Contains(s, p) <==> exists i :: OccursAt(s, p, i)
  {
    if s == [] {
      if p == [] {
        assert OccursAt(s, p, 0);
      }
    } else {
      ContainsIff(s[1..], p);
      if exists i :: OccursAt(s, p, i) {
        var i :| OccursAt(s, p, i);
        if i > 0 {
          assert s[1..][i - 1..i - 1 + |p|] == p;
          assert OccursAt(s[1..], p, i - 1);
        } else {
          assert p == s[..|p|];
        }
      }
      if Contains(s, p) {
        if p <= s {
          assert OccursAt(s, p, 0);
        } else {
          var i :| OccursAt(s[1..], p, i);
          assert s[i + 1..i + 1 + |p|] == p;
          assert OccursAt(s, p, i + 1);
        }
      }
    }
  }

  /** Python's `s.split(c)` for a one-character separator: every occurrence splits. */
  function Split(s: string, c: char): (r: seq<string>)
    ensures |r| >= 1
  {
    if s == [] then [[]]
    else if s[0] == c then [[]] + Split(s[1..], c)
    else
      var rest := Split(s[1..], c);
      [[s[0]] + rest[0]] + rest[1..]
  }

  /** A string without the separator is a single segment. */
  lemma {:induction false} SplitNoSeparator(s: string, c: char)
    requires c !in s
    ensures Split(s, c) == [s]
  {
    if s != [] {
      assert s[0] != c;
      SplitNoSeparator(s[1..], c);
      assert [s[0]] + s[1..] == s;
    }
  }

  /** Splitting distributes over a separator: `(x + c + y).split(c) == x.split(c) + y.split(c)`. */
  lemma {:induction false} SplitAtSeparator(x: string, c: char, y: string)
    ensures Split(x + [c] + y, c) == Split(x, c) + Split(y, c)
  {
    if x == [] {
      assert x + [c] + y == [c] + y;
      SplitCons(c, y, c);
    } else {
      var h, t := x[0], x[1..];
      var tail := t + [c] + y;
      assert x == [h] + t;
      assert x + [c] + y == [h] + tail;
      SplitAtSeparator(t, c, y);
      SplitCons(h, tail, c);
      SplitCons(h, t, c);
      SplitConsAppend(h, c, Split(t, c), Split(y, c));
    }
  }

  /** The list step of `SplitCons` commutes with appending the segments that follow. */
  lemma SplitConsAppend(h: char, c: char, rt: seq<string>, ry: seq<string>)
    requires |rt| >= 1
    ensures (if h == c then [[]] + (rt + ry) else [[h] + (rt + ry)[0]] + (rt + ry)[1..]) ==
      (if h == c then [[]] + rt else [[h] + rt[0]] + rt[1..]) + ry
  {
    if h != c {
      assert (rt + ry)[1..] == rt[1..] + ry;
    }
  }

  /** One step of `Split` on a string written as its first character and the rest. */
  lemma SplitCons(h: char, t: string, c: char)
    ensures Split([h] + t, c) ==
      if h == c then [[]] + Split(t, c)
      else [[h] + Split(t, c)[0]] + Split(t, c)[1..]
  {
    assert ([h] + t)[0] == h;
    assert ([h] + t)[1..] == t;
  }

  predicate IsDigit(ch: char) { '0' <= ch <= '9' }

  /** A non-empty run of ASCII decimal digits. */
  predicate IsDecimal(s: string)
  {
    |s| > 0 && forall i :: 0 <= i < |s| ==> IsDigit(s[i])
  }

  /** The value of a run of decimal digits, most significant first. */
  function DigitsValue(s: string): nat
    requires forall i :: 0 <= i < |s| ==> IsDigit(s[i])
  {
    if s == [] then 0
    else
      assert IsDigit(s[|s| - 1]);
      DigitsValue(s[..|s| - 1]) * 10 + (s[|s| - 1] as int - '0' as int)
  }

  /**
   * Python's `int(s)` on decimal text: an optional sign followed by digits.
   * None stands for the ValueError Python raises on anything else.
   */
  function ParseInt(s: string): Option<int>
  {
    if |s| > 0 && (s[0] == '-' || s[0] == '+') then
      if IsDecimal(s[1..]) then
        var magnitude: int := DigitsValue(s[1..]);
        Some(if s[0] == '-' then -magnitude else magnitude)
      else None
    else if IsDecimal(s) then Some(DigitsValue(s))
    else None
  }

  function DigitChar(d: nat): char
    requires d < 10
  {
    ('0' as int + d) as char
  }

  /** Python's `str(n)` for a natural number. */
  function NatToString(n: nat): string
  {
    if n < 10 then [DigitChar(n)] else NatToString(n / 10) + [DigitChar(n % 10)]
  }

  /** Python's `str(n)` (and f-string formatting) for an integer. */
  function IntToString(n: int): string
  {
    if n < 0 then "-" + NatToString(-n) else NatToString(n)
  }

  lemma {:induction false} NatToStringDigits(n: nat)
    ensures IsDecimal(NatToString(n))
    ensures DigitsValue(NatToString(n)) == n
  {
    if n >= 10 {
      NatToStringDigits(n / 10);
      var s := NatToString(n / 10) + [DigitChar(n % 10)];
      assert s[..|s| - 1] == NatToString(n / 10);
    }
  }

  /** `int(str(n)) == n`: the decimal rendering parses back to the same integer. */
  lemma IntToStringRoundTrip(n: int)
    ensures ParseInt(IntToString(n)) == Some(n)
  {
    var s := IntToString(n);
    if n < 0 {
      NatToStringDigits(-n);
      assert s[0] == '-' && s[1..] == NatToString(-n);
    } else {
      NatToStringDigits(n);
      assert IsDigit(s[0]);
    }
  }

  /** The rendering of an integer is made of digits and at most a leading minus sign. */
  lemma IntToStringChars(n: int)
    ensures |IntToString(n)| > 0
    ensures forall i :: 0 <= i < |IntToString(n)| ==> IsDigit(IntToString(n)[i]) || IntToString(n)[i] == '-'
    ensures forall i :: 0 < i < |IntToString(n)| ==> IsDigit(IntToString(n)[i])
    ensures IntToString(n)[0] == '-' <==> n < 0
  {
    if n < 0 { NatToStringDigits(-n); } else { NatToStringDigits(n); }
  }
}
