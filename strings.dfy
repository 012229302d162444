/** The operations on Rust `str` values that the library relies on, written
    out: prefix and substring tests, `split` on a non-empty pattern, `replace`,
    `usize::to_string` and `<usize as FromStr>::from_str`. */
module Strings {
  import opened Base

  predicate StartsWith(s: string, p: string) {
    |p| <= |s| && s[..|p|] == p
  }

  predicate EndsWith(s: string, p: string) {
    |p| <= |s| && s[|s| - |p|..] == p
  }

  /** `p` occurs in `s` starting at index `i`. */
  predicate OccursAt(s: string, p: string, i: nat) {
    i + |p| <= |s| && s[i..i + |p|] == p
  }

  /** Index of the leftmost occurrence of `p` in `s` at or after `from`. */
  function IndexOfFrom(s: string, p: string, from: nat): (r: Option<nat>)
    requires from <= |s|
    ensures r.Some? ==> from <= r.value && OccursAt(s, p, r.value)
    ensures r.Some? ==> forall j :: from <= j < r.value ==> !OccursAt(s, p, j)
    ensures r.None? ==> forall j :: from <= j ==> !OccursAt(s, p, j)
    decreases |s| - from
  {
    if from + |p| > |s| then None
    else if OccursAt(s, p, from) then Some(from)
    else IndexOfFrom(s, p, from + 1)
  }

  function IndexOf(s: string, p: string): (r: Option<nat>)
    ensures r.Some? ==> OccursAt(s, p, r.value)
    ensures r.Some? ==> forall j :: 0 <= j < r.value ==> !OccursAt(s, p, j)
    ensures r.None? ==> forall j :: !OccursAt(s, p, j)
  {
    IndexOfFrom(s, p, 0)
  }

  /** Rust's `str::contains`. */
  predicate Contains(s: string, p: string) {
    IndexOf(s, p).Some?
  }

  /** Rust's `str::split` with a non-empty pattern: the pieces between the
      leftmost non-overlapping occurrences; never empty. */
  function SplitOn(s: string, p: string): (r: seq<string>)
    requires |p| > 0
    ensures |r| >= 1
    decreases |s|
  {
    match IndexOf(s, p)
    case None => [s]
    case Some(i) => [s[..i]] + SplitOn(s[i + |p|..], p)
  }

  function Last<T>(s: seq<T>): T
    requires |s| > 0
  {
    s[|s| - 1]
  }

  /** The last piece of a split is the last piece of the text after the
      first occurrence. */
  lemma LastPieceFollows(s: string, p: string, i: nat)
    requires |p| > 0 && IndexOf(s, p) == Some(i)
    ensures Last(SplitOn(s, p)) == Last(SplitOn(s[i + |p|..], p))
  {
    var rest := SplitOn(s[i + |p|..], p);
    assert SplitOn(s, p) == [s[..i]] + rest;
    assert ([s[..i]] + rest)[|rest|] == rest[|rest| - 1];
  }

  /** A suffix of a suffix is a suffix. */
  lemma EndsWithDrop(s: string, k: nat, p: string)
    requires k <= |s| && EndsWith(s[k..], p)
    ensures EndsWith(s, p)
  {
    assert s[k..][|s| - k - |p|..] == s[|s| - |p|..];
  }

  /** Rust's `str::replace`: every leftmost non-overlapping occurrence of
      `from` becomes `to`; an empty `from` matches before every character
      and at the end. */
  function ReplaceAll(s: string, from: string, to: string): (r: string)
    decreases |s|
  {
    if |from| == 0 then
      if |s| == 0 then to else to + [s[0]] + ReplaceAll(s[1..], from, to)
    else
      match IndexOf(s, from)
      case None => s
      case Some(i) => s[..i] + to + ReplaceAll(s[i + |from|..], from, to)
  }

  /** Character-by-character substitution of `c` by `t`. */
  function SubstChar(s: string, c: char, t: string): (r: string)
    decreases |s|
  {
    if |s| == 0 then [] else (if s[0] == c then t else [s[0]]) + SubstChar(s[1..], c, t)
  }

  lemma {:induction false} SubstCharAppend(a: string, b: string, c: char, t: string)
    ensures SubstChar(a + b, c, t) == SubstChar(a, c, t) + SubstChar(b, c, t)
    decreases |a|
  {
    if |a| == 0 {
      assert a + b == b;
    } else {
      assert (a + b)[1..] == a[1..] + b;
      SubstCharAppend(a[1..], b, c, t);
    }
  }

  lemma {:induction false} SubstCharAbsent(s: string, c: char, t: string)
    requires c !in s
    ensures SubstChar(s, c, t) == s
    decreases |s|
  {
    if |s| > 0 {
      SubstCharAbsent(s[1..], c, t);
    }
  }

  /** Replacing a one-character pattern is substituting that character. */
  lemma {:induction false} ReplaceOneChar(s: string, c: char, t: string)
    ensures ReplaceAll(s, [c], t) == SubstChar(s, c, t)
    decreases |s|
  {
    match IndexOf(s, [c])
    case None =>
      assert c !in s by {
        forall j | 0 <= j < |s| ensures s[j] != c {
          assert !OccursAt(s, [c], j);
          assert s[j..j + 1] == [s[j]];
        }
      }
      SubstCharAbsent(s, c, t);
    case Some(i) =>
      var rest := s[i + 1..];
      assert s == s[..i] + [c] + rest by {
        assert s[i..i + 1] == [c];
      }
      assert c !in s[..i] by {
        forall j | 0 <= j < i ensures s[j] != c {
          assert !OccursAt(s, [c], j);
          assert s[j..j + 1] == [s[j]];
        }
      }
      SubstCharAbsent(s[..i], c, t);
      ReplaceOneChar(rest, c, t);
      SubstCharAppend(s[..i] + [c], rest, c, t);
      SubstCharAppend(s[..i], [c], c, t);
      assert SubstChar([c], c, t) == t;
  }

  lemma {:induction false} SubstCharRemoves(s: string, c: char, t: string, d: char)
    requires d !in t
    requires d == c || d !in s
    ensures d !in SubstChar(s, c, t)
    decreases |s|
  {
    if |s| > 0 {
      SubstCharRemoves(s[1..], c, t, d);
    }
  }

  /** Removing a character with `replace(c, "")` leaves none of it, and
      brings in no character that was absent. */
  lemma RemoveChar(s: string, c: char)
    ensures c !in ReplaceAll(s, [c], "")
    ensures forall d :: d !in s ==> d !in ReplaceAll(s, [c], "")
  {
    ReplaceOneChar(s, c, "");
    SubstCharRemoves(s, c, "", c);
    forall d | d !in s
      ensures d !in ReplaceAll(s, [c], "")
    {
      SubstCharRemoves(s, c, "", d);
    }
  }

  /** Every piece `split` yields is a stretch of its input, so a character
      the input lacks no piece has. */
  lemma {:induction false} SplitOnPiecesLack(s: string, p: string, c: char)
    requires |p| > 0 && c !in s
    ensures forall k :: 0 <= k < |SplitOn(s, p)| ==> c !in SplitOn(s, p)[k]
    decreases |s|
  {
    match IndexOf(s, p)
    case None =>
    case Some(i) =>
      assert c !in s[..i];
      SplitOnPiecesLack(s[i + |p|..], p, c);
  }

  // ---------------------------------------------------------------------
  // Decimal numbers

  predicate IsDigit(c: char) {
    '0' <= c <= '9'
  }

  predicate AllDigits(s: string) {
    forall i :: 0 <= i < |s| ==> IsDigit(s[i])
  }

  function DigitChar(d: nat): (c: char)
    requires d < 10
    ensures IsDigit(c) && c as int - '0' as int == d
  {
    ('0' as int + d) as char
  }

  /** Value of a string of decimal digits, most significant first. */
  function DigitsValue(s: string): nat
    requires AllDigits(s)
    decreases |s|
  {
    if |s| == 0 then 0
    else DigitsValue(s[..|s| - 1]) * 10 + (s[|s| - 1] as int - '0' as int)
  }

  /** `usize::to_string`: shortest decimal form, no sign, no leading zero. */
  function NatToDecimal(n: nat): (r: string)
    ensures |r| > 0 && AllDigits(r)
    ensures |r| > 1 ==> r[0] != '0'
  {
    if n < 10 then [DigitChar(n)] else NatToDecimal(n / 10) + [DigitChar(n % 10)]
  }

  /** `<usize as FromStr>::from_str`: an optional leading `+`, then at least
      one decimal digit and nothing else, with a value that fits a `usize`. */
  function ParseUsize(s: string): (r: Option<nat>)
    ensures r.Some? ==> r.value <= USIZE_MAX
  {
    var d := if |s| > 0 && s[0] == '+' then s[1..] else s;
    if |d| == 0 || !AllDigits(d) then None
    else if DigitsValue(d) > USIZE_MAX then None
    else Some(DigitsValue(d))
  }

  lemma {:induction false} DecimalValue(n: nat)
    ensures DigitsValue(NatToDecimal(n)) == n
  {
    if n >= 10 {
      DecimalValue(n / 10);
      var r := NatToDecimal(n);
      assert r[..|r| - 1] == NatToDecimal(n / 10);
    }
  }

  /** Printing a `usize` and parsing it back gives the same number. */
  lemma DecimalRoundTrip(n: nat)
    requires n <= USIZE_MAX
    ensures ParseUsize(NatToDecimal(n)) == Some(n)
  {
    DecimalValue(n);
  }
}
