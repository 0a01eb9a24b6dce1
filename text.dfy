/** The string operations the handlers apply to form input: Python's
    `str.strip()`, `str.lower()`, `str.isdigit()` and `int()` on a digit string,
    restricted to ASCII. */
module Text {
  import opened Options

  /** `str.isspace()` on the ASCII range: space, tab, line feed, vertical tab,
      form feed, carriage return and the four separators 0x1c-0x1f. */
  predicate IsSpace(c: char) {
    c == ' ' || 9 <= c as int <= 13 || 28 <= c as int <= 31
  }

  predicate AllSpace(s: string) {
    forall k :: 0 <= k < |s| ==> IsSpace(s[k])
  }

  /** `str.lstrip()` */
  function TrimStart(s: string): string {
    if s != [] && IsSpace(s[0]) then TrimStart(s[1..]) else s
  }

  /** What lstrip leaves is a suffix of `s`, everything it dropped is whitespace,
      and the suffix does not start with whitespace. */
  lemma {:induction false} TrimStartSpec(s: string)
    ensures var r := TrimStart(s);
            |r| <= |s| && r == s[|s| - |r|..] && AllSpace(s[..|s| - |r|])
            && (r != [] ==> !IsSpace(r[0]))
  {
    if s != [] && IsSpace(s[0]) {
      TrimStartSpec(s[1..]);
      var r := TrimStart(s);
      assert s[1..][|s| - 1 - |r|..] == s[|s| - |r|..];
      var dropped, rest := s[..|s| - |r|], s[1..][..|s| - 1 - |r|];
      forall k | 0 <= k < |dropped| ensures IsSpace(dropped[k]) {
        if k > 0 { assert dropped[k] == rest[k - 1]; }
      }
    }
  }

  /** `str.rstrip()` */
  function TrimEnd(s: string): string {
    if s != [] && IsSpace(s[|s| - 1]) then TrimEnd(s[..|s| - 1]) else s
  }

  /** What rstrip leaves is a prefix of `s`, everything it dropped is whitespace,
      and the prefix does not end with whitespace. */
  lemma {:induction false} TrimEndSpec(s: string)
    ensures var r := TrimEnd(s);
            |r| <= |s| && r == s[..|r|] && AllSpace(s[|r|..])
            && (r != [] ==> !IsSpace(r[|r| - 1]))
  {
    if s != [] && IsSpace(s[|s| - 1]) {
      var p := s[..|s| - 1];
      TrimEndSpec(p);
      var r := TrimEnd(s);
      assert p[..|r|] == s[..|r|];
      var dropped, rest := s[|r|..], p[|r|..];
      forall k | 0 <= k < |dropped| ensures IsSpace(dropped[k]) {
        if k < |rest| { assert dropped[k] == rest[k]; }
      }
    }
  }

  /** `str.strip()` */
  function Trim(s: string): string {
    TrimEnd(TrimStart(s))
  }

  /** Independent description of stripping: `r` is a slice `s[i..j]` with only
      whitespace outside it and no whitespace at either of its ends. */
  ghost predicate IsTrimOf(r: string, s: string) {
    exists i, j :: 0 <= i <= j <= |s| && r == s[i..j] && AllSpace(s[..i]) && AllSpace(s[j..])
                   && (r == [] || (!IsSpace(r[0]) && !IsSpace(r[|r| - 1])))
  }

  lemma TrimIsTrimOf(s: string)
    ensures IsTrimOf(Trim(s), s)
  {
    var t := TrimStart(s);
    var r := TrimEnd(t);
    TrimStartSpec(s);
    TrimEndSpec(t);
    var i := |s| - |t|;
    var j := i + |r|;
    assert t == s[i..];
    assert r == t[..|r|];
    assert s[i..j] == r;
    assert s[j..] == t[|r|..];
    assert AllSpace(s[..i]) && AllSpace(s[j..]);
    assert r == [] || (!IsSpace(r[0]) && !IsSpace(r[|r| - 1])) by {
      if r != [] { assert r[0] == t[0]; }
    }
  }

  lemma {:induction false} AllSpaceTrimStart(s: string)
    requires AllSpace(s)
    ensures TrimStart(s) == []
  {
    if s != [] {
      assert IsSpace(s[0]);
      AllSpaceTrimStart(s[1..]);
    }
  }

  /** When `s[..i]` is whitespace and `s[i]` is not, lstrip drops exactly `i` characters. */
  lemma {:induction false} TrimStartAt(s: string, i: nat)
    requires i < |s| && AllSpace(s[..i]) && !IsSpace(s[i])
    ensures TrimStart(s) == s[i..]
  {
    if i > 0 {
      assert s[..i][0] == s[0];
      assert s[1..][..i - 1] == s[1..i] && s[1..i] == s[..i][1..];
      TrimStartAt(s[1..], i - 1);
      assert s[1..][i - 1..] == s[i..];
    }
  }

  /** When `s[m..]` is whitespace and `s[m - 1]` is not, rstrip keeps exactly `m` characters. */
  lemma {:induction false} TrimEndAt(s: string, m: nat)
    requires 0 < m <= |s| && AllSpace(s[m..]) && !IsSpace(s[m - 1])
    ensures TrimEnd(s) == s[..m]
  {
    if m < |s| {
      var p := s[..|s| - 1];
      assert s[m..][|s| - 1 - m] == s[|s| - 1];
      assert p[m..] == s[m..|s| - 1];
      assert forall k :: 0 <= k < |p| - m ==> p[m..][k] == s[m..][k];
      TrimEndAt(p, m);
      assert p[..m] == s[..m];
    }
  }

  lemma AllSpaceJoin(s: string, i: nat)
    requires i <= |s| && AllSpace(s[..i]) && AllSpace(s[i..])
    ensures AllSpace(s)
  {
    assert s == s[..i] + s[i..];
  }

  lemma TrimOfIsTrim(r: string, s: string)
    requires IsTrimOf(r, s)
    ensures r == Trim(s)
  {
    var i, j :| 0 <= i <= j <= |s| && r == s[i..j] && AllSpace(s[..i]) && AllSpace(s[j..])
                && (r == [] || (!IsSpace(r[0]) && !IsSpace(r[|r| - 1])));
    if r == [] {
      AllSpaceJoin(s, i);
      AllSpaceTrimStart(s);
    } else {
      NonEmptyTrimOf(r, s, i, j);
    }
  }

  lemma NonEmptyTrimOf(r: string, s: string, i: nat, j: nat)
    requires i < j <= |s| && r == s[i..j] && AllSpace(s[..i]) && AllSpace(s[j..])
    requires !IsSpace(r[0]) && !IsSpace(r[|r| - 1])
    ensures r == Trim(s)
  {
    TrimStartAt(s, i);
    TrimEndSlice(s, i, j);
  }

  /** rstrip of the suffix `s[i..]` stops at `j` when `s[j..]` is whitespace and `s[j - 1]` is not. */
  lemma TrimEndSlice(s: string, i: nat, j: nat)
    requires i < j <= |s| && AllSpace(s[j..]) && !IsSpace(s[j - 1])
    ensures TrimEnd(s[i..]) == s[i..j]
  {
    var t := s[i..];
    assert t[j - i..] == s[j..];
    TrimEndAt(t, j - i);
  }

  /** Neither starting nor ending with whitespace: what stripping leaves. */
  predicate Stripped(s: string) {
    s == [] || (!IsSpace(s[0]) && !IsSpace(s[|s| - 1]))
  }

  /** A string is its own strip exactly when it has no whitespace at either end. */
  lemma TrimFixedIff(s: string)
    ensures Trim(s) == s <==> Stripped(s)
  {
    if s != [] && Stripped(s) {
      assert s[0..|s|] == s;
      NonEmptyTrimOf(s, s, 0, |s|);
    }
    if Trim(s) == s {
      TrimIsTrimOf(s);
    }
  }

  /** Stripping is characterised by IsTrimOf, in both directions. */
  lemma TrimCharacterized(r: string, s: string)
    ensures IsTrimOf(r, s) <==> r == Trim(s)
  {
    if IsTrimOf(r, s) { TrimOfIsTrim(r, s); }
    if r == Trim(s) { TrimIsTrimOf(s); }
  }

  /** A string is empty after stripping exactly when it is all whitespace. */
  lemma TrimEmptyIff(s: string)
    ensures Trim(s) == [] <==> AllSpace(s)
  {
    if AllSpace(s) {
      AllSpaceTrimStart(s);
    } else {
      var t := TrimStart(s);
      TrimStartSpec(s);
      TrimEndSpec(t);
      assert s[..|s|] == s;
      assert t != [];
      assert t[0..] == t;
    }
  }

  /** Stripping twice is stripping once. */
  lemma TrimIdempotent(s: string)
    ensures Trim(Trim(s)) == Trim(s)
  {
    var r := Trim(s);
    TrimIsTrimOf(s);
    assert r[0..|r|] == r;
    assert r[..0] == [] && r[|r|..] == [];
    assert IsTrimOf(r, r);
    TrimOfIsTrim(r, r);
  }

  /** `str.lower()` on ASCII letters. */
  function LowerChar(c: char): char {
    if 'A' <= c <= 'Z' then (c as int + 32) as char else c
  }

  function Lower(s: string): string {
    seq(|s|, k requires 0 <= k < |s| => LowerChar(s[k]))
  }

  lemma LowerIdempotent(s: string)
    ensures Lower(Lower(s)) == Lower(s)
  {
  }

  lemma {:induction false} TrimStartLower(s: string)
    ensures TrimStart(Lower(s)) == Lower(TrimStart(s))
  {
    if s != [] {
      assert Lower(s)[1..] == Lower(s[1..]);
      TrimStartLower(s[1..]);
    }
  }

  lemma {:induction false} TrimEndLower(s: string)
    ensures TrimEnd(Lower(s)) == Lower(TrimEnd(s))
  {
    if s != [] {
      assert Lower(s)[..|s| - 1] == Lower(s[..|s| - 1]);
      TrimEndLower(s[..|s| - 1]);
    }
  }

  /** Lower-casing never turns whitespace into text or text into whitespace,
      so stripping and lower-casing commute. */
  lemma TrimLowerCommute(s: string)
    ensures Trim(Lower(s)) == Lower(Trim(s))
  {
    TrimStartLower(s);
    TrimEndLower(TrimStart(s));
  }

  /** `str.isdigit()` on ASCII: non-empty and every character a decimal digit. */
  predicate IsDigit(c: char) {
    '0' <= c <= '9'
  }

  predicate AllDigits(s: string) {
    forall k :: 0 <= k < |s| ==> IsDigit(s[k])
  }

  predicate IsDigits(s: string) {
    s != [] && AllDigits(s)
  }

  /** `int(s)` for a string of decimal digits (leading zeros allowed, as in Python). */
  function DigitsValue(s: string): nat
    requires AllDigits(s)
  {
    if s == [] then 0 else 10 * DigitsValue(s[..|s| - 1]) + (s[|s| - 1] as int - '0' as int)
  }

  lemma {:induction false} DigitsValueZeroIff(s: string)
    requires AllDigits(s)
    ensures DigitsValue(s) == 0 <==> forall k :: 0 <= k < |s| ==> s[k] == '0'
  {
    if s != [] {
      var p := s[..|s| - 1];
      DigitsValueZeroIff(p);
      if DigitsValue(s) == 0 {
        forall k | 0 <= k < |s| ensures s[k] == '0' {
          if k < |s| - 1 { assert p[k] == s[k]; }
        }
      }
      if forall k :: 0 <= k < |s| ==> s[k] == '0' {
        assert forall k :: 0 <= k < |p| ==> p[k] == '0' by {
          forall k | 0 <= k < |p| ensures p[k] == '0' { assert p[k] == s[k]; }
        }
      }
    }
  }

  /** A lone decimal digit needs no stripping and reads as its own value. */
  lemma SingleDigit(s: string)
    requires |s| == 1 && IsDigit(s[0])
    ensures Trim(s) == s && IsDigits(s) && DigitsValue(s) == s[0] as int - '0' as int
  {
    assert TrimStart(s) == s by { assert !IsSpace(s[0]); }
    assert TrimEnd(s) == s by { assert s[|s| - 1] == s[0]; }
    assert s[..|s| - 1] == [];
  }

  /** The most digits Python's `int()` converts from a string
      (`sys.int_info.default_max_str_digits`); leading zeros count. */
  const MaxIntDigits: nat := 4300

  /** `int(s)` on a digit string: its value, or `None` where `int()` raises `ValueError`
      because the string has more than `MaxIntDigits` digits. */
  function IntValue(s: string): (r: Option<nat>)
    requires AllDigits(s)
    ensures r.None? <==> |s| > MaxIntDigits
  {
    if |s| > MaxIntDigits then None else Some(DigitsValue(s))
  }

  /** Independent description of a star rating: one digit 1-5, possibly after zeros,
      and no more digits than `int()` converts. */
  ghost predicate IsStarRating(s: string) {
    && 1 <= |s| <= MaxIntDigits
    && (forall k :: 0 <= k < |s| - 1 ==> s[k] == '0')
    && '1' <= s[|s| - 1] <= '5'
  }

  /** The rating check of the review handlers (`isdigit()`, then `int()` without raising,
      then a value in [1, 5]) accepts exactly the star-rating strings. */
  lemma StarRatingIff(s: string)
    ensures (IsDigits(s) && IntValue(s).Some? && 1 <= IntValue(s).value <= 5) <==> IsStarRating(s)
  {
    if s != [] {
      var p := s[..|s| - 1];
      if IsDigits(s) {
        assert AllDigits(p) by {
          forall k | 0 <= k < |p| ensures IsDigit(p[k]) { assert p[k] == s[k]; }
        }
        DigitsValueZeroIff(p);
        if 1 <= DigitsValue(s) <= 5 {
          assert DigitsValue(p) == 0;
          forall k | 0 <= k < |s| - 1 ensures s[k] == '0' { assert p[k] == s[k]; }
        }
      }
      if IsStarRating(s) {
        assert AllDigits(s);
        assert AllDigits(p) && forall k :: 0 <= k < |p| ==> p[k] == '0' by {
          forall k | 0 <= k < |p| ensures p[k] == '0' { assert p[k] == s[k]; }
        }
        DigitsValueZeroIff(p);
      }
    }
  }
}
