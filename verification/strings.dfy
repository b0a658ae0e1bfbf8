/** The string operations the dashboard relies on, with Python's meaning:
    `str.lower` (on ASCII), the substring tests `in` and `str.find`,
    `str.join`, `str(int)`, `list.index`, and the code-point order that
    Python uses to compare two strings. */
module Strings {
  import opened Wrappers

  // ---------------------------------------------------------------------
  // Lower-casing

  predicate IsUpper(c: char) {
    'A' <= c <= 'Z'
  }

  /** Lower-cases an ASCII capital and leaves every other character alone. */
  function LowerChar(c: char): (d: char)
    ensures !IsUpper(d)
    ensures IsUpper(c) ==> d as int - c as int == 32
    ensures !IsUpper(c) ==> d == c
  {
    if IsUpper(c) then (c as int + 32) as char else c
  }

  /** `s.lower()` on ASCII text: same length, every capital lowered. */
  function Lower(s: string): (r: string)
    ensures |r| == |s|
    ensures forall i :: 0 <= i < |s| ==> r[i] == LowerChar(s[i])
    ensures forall i :: 0 <= i < |r| ==> !IsUpper(r[i])
  {
    seq(|s|, i requires 0 <= i < |s| => LowerChar(s[i]))
  }

  /** `[h.lower() for h in hs]` */
  function LowerAll(hs: seq<string>): (r: seq<string>)
    ensures |r| == |hs|
    ensures forall i :: 0 <= i < |hs| ==> r[i] == Lower(hs[i])
  {
    seq(|hs|, i requires 0 <= i < |hs| => Lower(hs[i]))
  }

  // ---------------------------------------------------------------------
  // Substrings

  predicate IsPrefix(p: string, s: string) {
    |p| <= |s| && s[..|p|] == p
  }

  /** True when `needle` occurs somewhere in `hay`: Python's `needle in hay`. */
  predicate Contains(hay: string, needle: string)
    decreases |hay|
  {
    IsPrefix(needle, hay) || (|hay| > 0 && Contains(hay[1..], needle))
  }

  /** `needle` occurs in `hay` starting at position `i`. */
  predicate OccursAt(hay: string, needle: string, i: nat) {
    i + |needle| <= |hay| && hay[i..i + |needle|] == needle
  }

  /** Contains agrees with the positional definition of a substring. */
  lemma {:induction false} ContainsAt(hay: string, needle: string)
    ensures Contains(hay, needle) <==> exists i: nat :: OccursAt(hay, needle, i)
    decreases |hay|
  {
    if |needle| <= |hay| {
      assert hay[0..0 + |needle|] == hay[..|needle|];
    }
    if IsPrefix(needle, hay) {
      assert OccursAt(hay, needle, 0);
    } else if |hay| > 0 {
      ContainsAt(hay[1..], needle);
      var tail := hay[1..];
      if Contains(tail, needle) {
        var j: nat :| OccursAt(tail, needle, j);
        assert hay[j + 1..j + 1 + |needle|] == tail[j..j + |needle|];
        assert OccursAt(hay, needle, j + 1);
      } else {
        forall i: nat | i > 0 ensures !OccursAt(hay, needle, i) {
          if i + |needle| <= |hay| {
            assert hay[i..i + |needle|] == tail[i - 1..i - 1 + |needle|];
          }
          assert !OccursAt(tail, needle, i - 1);
        }
      }
    }
  }

  /** `hay.find(needle)`: the first index where `needle` occurs, or -1. */
  function Find(hay: string, needle: string): (r: int)
    ensures -1 <= r <= |hay|
    ensures r == -1 <==> !Contains(hay, needle)
    decreases |hay|
  {
    if IsPrefix(needle, hay) then 0
    else if |hay| == 0 then -1
    else
      var f := Find(hay[1..], needle);
      if f == -1 then -1 else f + 1
  }

  /** An occurrence after the first character is one in the rest of the text. */
  lemma OccursAtShift(hay: string, needle: string, j: nat)
    requires 0 < j && 0 < |hay|
    ensures OccursAt(hay, needle, j) <==> OccursAt(hay[1..], needle, j - 1)
  {
    if j + |needle| <= |hay| {
      assert hay[j..j + |needle|] == hay[1..][j - 1..j - 1 + |needle|];
    }
  }

  /** An occurrence at the start is a prefix. */
  lemma OccursAtStart(hay: string, needle: string)
    ensures OccursAt(hay, needle, 0) <==> IsPrefix(needle, hay)
  {
    if |needle| <= |hay| {
      assert hay[0..|needle|] == hay[..|needle|];
    }
  }

  /** An index Find returns is where `needle` first occurs in `hay`. */
  lemma {:induction false} FindFirst(hay: string, needle: string)
    ensures var r := Find(hay, needle);
      r >= 0 ==> OccursAt(hay, needle, r) && forall j: nat :: j < r ==> !OccursAt(hay, needle, j)
    decreases |hay|
  {
    var r := Find(hay, needle);
    OccursAtStart(hay, needle);
    if !IsPrefix(needle, hay) && |hay| > 0 && r >= 0 {
      FindFirst(hay[1..], needle);
      OccursAtShift(hay, needle, r);
      forall j: nat | 0 < j < r ensures !OccursAt(hay, needle, j) {
        OccursAtShift(hay, needle, j);
      }
    }
  }

  // ---------------------------------------------------------------------
  // Joining and splitting

  /** `sep.join(parts)` */
  function Join(sep: string, parts: seq<string>): (r: string)
    ensures |parts| == 0 ==> r == ""
    ensures |parts| > 0 ==> IsPrefix(parts[0], r)
    ensures |parts| == 1 ==> r == parts[0]
  {
    if |parts| == 0 then ""
    else if |parts| == 1 then parts[0]
    else parts[0] + sep + Join(sep, parts[1..])
  }

  /** Splits `s` at every occurrence of `c` (Python's `s.split(c)` for one character). */
  function Split(s: string, c: char): (r: seq<string>)
    ensures |r| >= 1
  {
    if |s| == 0 then [""]
    else
      var rest := Split(s[1..], c);
      if s[0] == c then [""] + rest else [[s[0]] + rest[0]] + rest[1..]
  }

  lemma {:induction false} SplitNoSeparator(s: string, c: char)
    requires c !in s
    ensures Split(s, c) == [s]
  {
    if |s| > 0 {
      SplitNoSeparator(s[1..], c);
      assert [s[0]] + s[1..] == s;
    }
  }

  lemma {:induction false} SplitAtSeparator(a: string, c: char, b: string)
    requires c !in a
    ensures Split(a + [c] + b, c) == [a] + Split(b, c)
  {
    if |a| == 0 {
      assert a + [c] + b == [c] + b;
      assert ([c] + b)[1..] == b;
    } else {
      SplitAtSeparator(a[1..], c, b);
      assert (a + [c] + b)[1..] == a[1..] + [c] + b;
      assert [a[0]] + a[1..] == a;
    }
  }

  /** Joining with a one-character separator that occurs in none of the parts
      can be undone by splitting at that character. */
  lemma {:induction false} SplitJoin(parts: seq<string>, c: char)
    requires |parts| >= 1
    requires forall i :: 0 <= i < |parts| ==> c !in parts[i]
    ensures Split(Join([c], parts), c) == parts
  {
    if |parts| == 1 {
      SplitNoSeparator(parts[0], c);
    } else {
      SplitJoin(parts[1..], c);
      SplitAtSeparator(parts[0], c, Join([c], parts[1..]));
      assert [parts[0]] + parts[1..] == parts;
    }
  }

  // ---------------------------------------------------------------------
  // Decimal rendering: str(n)

  function DigitChar(d: nat): (c: char)
    requires d < 10
    ensures '0' <= c <= '9' && c as int - '0' as int == d
  {
    "0123456789"[d]
  }

  predicate AllDigits(s: string) {
    forall i :: 0 <= i < |s| ==> '0' <= s[i] <= '9'
  }

  /** The value of a string of decimal digits. */
  function DecimalValue(s: string): nat
    requires AllDigits(s)
  {
    if |s| == 0 then 0
    else DecimalValue(s[..|s| - 1]) * 10 + (s[|s| - 1] as int - '0' as int)
  }

  /** `str(n)` for a natural number: digits only, without leading zeros. */
  function NatToString(n: nat): (s: string)
    ensures |s| >= 1 && AllDigits(s)
    ensures |s| > 1 ==> s[0] != '0'
  {
    if n < 10 then [DigitChar(n)] else NatToString(n / 10) + [DigitChar(n % 10)]
  }

  /** Reading back the digits of `str(n)` gives `n`. */
  lemma {:induction false} NatToStringRoundTrip(n: nat)
    ensures DecimalValue(NatToString(n)) == n
  {
    if n >= 10 {
      NatToStringRoundTrip(n / 10);
      var s := NatToString(n);
      assert s[..|s| - 1] == NatToString(n / 10);
    }
  }

  /** `str(i)` for any integer. */
  function IntToString(i: int): (s: string)
    ensures i >= 0 ==> s == NatToString(i)
    ensures i < 0 ==> |s| >= 2 && s[0] == '-' && s[1..] == NatToString(-i)
  {
    if i < 0 then "-" + NatToString(-i) else NatToString(i)
  }

  // ---------------------------------------------------------------------
  // Python's string order

  /** `a < b` on Python strings: code point by code point, a proper prefix first. */
  predicate Less(a: string, b: string)
    decreases |a|
  {
    if |b| == 0 then false
    else if |a| == 0 then true
    else if a[0] == b[0] then Less(a[1..], b[1..])
    else a[0] < b[0]
  }

  lemma {:induction false} LessIrreflexive(a: string)
    ensures !Less(a, a)
    decreases |a|
  {
    if |a| > 0 {
      LessIrreflexive(a[1..]);
    }
  }

  lemma {:induction false} LessAsymmetric(a: string, b: string)
    requires Less(a, b)
    ensures !Less(b, a)
    decreases |a|
  {
    if |a| > 0 && a[0] == b[0] {
      LessAsymmetric(a[1..], b[1..]);
    }
  }

  /** If a < c, then any b lies above a or below c; so "not less than" is transitive. */
  lemma {:induction false} LessSplit(a: string, b: string, c: string)
    requires Less(a, c)
    ensures Less(a, b) || Less(b, c)
    decreases |a|
  {
    if |a| > 0 && |b| > 0 && a[0] == b[0] && b[0] == c[0] {
      LessSplit(a[1..], b[1..], c[1..]);
    }
  }

  /** Two strings neither of which is less than the other are equal. */
  lemma {:induction false} LessTotal(a: string, b: string)
    requires !Less(a, b) && !Less(b, a)
    ensures a == b
    decreases |a|
  {
    if |a| > 0 && |b| > 0 {
      LessTotal(a[1..], b[1..]);
      assert a == [a[0]] + a[1..] && b == [b[0]] + b[1..];
    }
  }

  // ---------------------------------------------------------------------
  // list.index

  /** `xs.index(x)`: the first position of `x`, or None where Python raises ValueError. */
  function IndexOf(xs: seq<string>, x: string): (r: Option<nat>)
    ensures r.None? <==> x !in xs
    ensures r.Some? ==> r.value < |xs| && xs[r.value] == x
    ensures r.Some? ==> forall j :: 0 <= j < r.value ==> xs[j] != x
  {
    if |xs| == 0 then None
    else if xs[0] == x then Some(0)
    else
      match IndexOf(xs[1..], x)
      case None => None
      case Some(i) => Some(i + 1)
  }
}
