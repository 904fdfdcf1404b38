/**
 * String helpers shared by the validators: Python's whitespace test and
 * `str.strip()`, runs of decimal digits, and the decimal literals that the
 * quantity and tolerance validators read.
 */
module Text {

  import opened Wrappers

  /** Python's `str.isspace()` on ASCII: space, `\t`..`\r` and the separators `\x1c`..`\x1f`. */
  predicate IsSpace(c: char) {
    c == ' ' || ('\t' <= c <= '\r') || ('\U{001C}' <= c <= '\U{001F}')
  }

  predicate AllSpaces(s: string) {
    forall i | 0 <= i < |s| :: IsSpace(s[i])
  }

  /** `r` is `s` with some whitespace cut from each end: a slice `s[i..j]` with only whitespace outside it. */
  predicate IsTrimOf(r: string, s: string) {
    exists i, j | 0 <= i <= j <= |s| :: r == s[i..j] && AllSpaces(s[..i]) && AllSpaces(s[j..])
  }

  /**
   * `s.strip()`: leading and trailing whitespace removed. The result neither
   * starts nor ends with whitespace, and it is empty exactly when `s` is all
   * whitespace (Python's `not s.strip()`); StripIsTrim shows it is a slice
   * of `s` with only whitespace around it.
   */
  function Strip(s: string): (r: string)
    ensures r == [] || (!IsSpace(r[0]) && !IsSpace(r[|r| - 1]))
    ensures r == [] <==> AllSpaces(s)
    ensures |r| <= |s|
  {
    if s != [] && IsSpace(s[0]) then
      var r := Strip(s[1..]);
      assert AllSpaces(s) <==> AllSpaces(s[1..]) by {
        assert forall i | 1 <= i < |s| :: s[i] == s[1..][i - 1];
      }
      r
    else if s != [] && IsSpace(s[|s| - 1]) then
      var r := Strip(s[..|s| - 1]);
      assert AllSpaces(s) <==> AllSpaces(s[..|s| - 1]) by {
        assert forall i | 0 <= i < |s| - 1 :: s[i] == s[..|s| - 1][i];
      }
      r
    else s
  }

  /** `Strip` cuts whitespace off the ends of `s` and nothing else. */
  lemma {:induction false} StripIsTrim(s: string)
    ensures IsTrimOf(Strip(s), s)
    decreases |s|
  {
    if s != [] && IsSpace(s[0]) {
      StripIsTrim(s[1..]);
      TrimFront(s, Strip(s[1..]));
    } else if s != [] && IsSpace(s[|s| - 1]) {
      StripIsTrim(s[..|s| - 1]);
      TrimBack(s, Strip(s[..|s| - 1]));
    } else {
      assert s == s[0..|s|] && AllSpaces(s[..0]) && AllSpaces(s[|s|..]);
    }
  }

  /** Cutting a trim of `s[1..]` out of `s`, whose first character is whitespace, is a trim of `s`. */
  lemma TrimFront(s: string, r: string)
    requires s != [] && IsSpace(s[0]) && IsTrimOf(r, s[1..])
    ensures IsTrimOf(r, s)
  {
    var t := s[1..];
    var i, j :| 0 <= i <= j <= |t| && r == t[i..j] && AllSpaces(t[..i]) && AllSpaces(t[j..]);
    assert r == s[i + 1..j + 1] && AllSpaces(s[j + 1..]) by {
      assert t[i..j] == s[i + 1..j + 1];
      assert s[j + 1..] == t[j..];
    }
    assert AllSpaces(s[..i + 1]) by {
      var front := s[..i + 1];
      forall k | 0 <= k < |front|
        ensures IsSpace(front[k])
      {
        if k > 0 {
          assert front[k] == t[..i][k - 1];
        }
      }
    }
    assert 0 <= i + 1 <= j + 1 <= |s|;
  }

  /** Cutting a trim of `s[..|s| - 1]` out of `s`, whose last character is whitespace, is a trim of `s`. */
  lemma TrimBack(s: string, r: string)
    requires s != [] && IsSpace(s[|s| - 1]) && IsTrimOf(r, s[..|s| - 1])
    ensures IsTrimOf(r, s)
  {
    var t := s[..|s| - 1];
    var i, j :| 0 <= i <= j <= |t| && r == t[i..j] && AllSpaces(t[..i]) && AllSpaces(t[j..]);
    assert r == s[i..j];
    assert s[..i] == t[..i];
    assert AllSpaces(s[j..]) by {
      forall k | 0 <= k < |s| - j
        ensures IsSpace(s[j..][k])
      {
        if k < |t| - j {
          assert s[j..][k] == t[j..][k];
        }
      }
    }
  }

  /** A string that does not start or end with whitespace is its own `strip()`. */
  lemma {:induction false} StripUnchanged(s: string)
    requires s == [] || (!IsSpace(s[0]) && !IsSpace(s[|s| - 1]))
    ensures Strip(s) == s
  {
  }

  /** Whitespace around a text that neither starts nor ends with whitespace is exactly what `strip()` removes. */
  lemma {:induction false} StripAround(pre: string, core: string, post: string)
    requires AllSpaces(pre) && AllSpaces(post)
    requires core != [] && !IsSpace(core[0]) && !IsSpace(core[|core| - 1])
    ensures Strip(pre + core + post) == core
    decreases |pre| + |post|
  {
    var s := pre + core + post;
    if pre != [] {
      assert s[1..] == pre[1..] + core + post;
      assert AllSpaces(pre[1..]) by {
        forall i | 0 <= i < |pre| - 1 ensures IsSpace(pre[1..][i]) {
          assert pre[1..][i] == pre[i + 1];
        }
      }
      StripAround(pre[1..], core, post);
      assert s[0] == pre[0];
      StripFront(s);
    } else if post != [] {
      var last := post[..|post| - 1];
      assert s == core + post;
      assert s[..|s| - 1] == pre + core + last;
      assert AllSpaces(last) by {
        forall i | 0 <= i < |last| ensures IsSpace(last[i]) {
          assert last[i] == post[i];
        }
      }
      StripAround(pre, core, last);
      assert s[0] == core[0];
      assert s[|s| - 1] == post[|post| - 1];
      StripBack(s);
    } else {
      assert s == core;
      StripUnchanged(core);
    }
  }

  /** `strip()` drops a leading whitespace character. */
  lemma StripFront(s: string)
    requires s != [] && IsSpace(s[0])
    ensures Strip(s) == Strip(s[1..])
  {
  }

  /** `strip()` drops a trailing whitespace character once the front is clean. */
  lemma StripBack(s: string)
    requires s != [] && !IsSpace(s[0]) && IsSpace(s[|s| - 1])
    ensures Strip(s) == Strip(s[..|s| - 1])
  {
  }

  /** `s.replace(" ", "")`: every other character kept, in order. */
  function RemoveSpaces(s: string): (r: string)
    ensures ' ' !in r
    ensures |r| <= |s|
  {
    if s == [] then []
    else (if s[0] == ' ' then [] else [s[0]]) + RemoveSpaces(s[1..])
  }

  /** A string without spaces is left as it is. */
  lemma {:induction false} RemoveSpacesNoSpace(s: string)
    requires ' ' !in s
    ensures RemoveSpaces(s) == s
    decreases |s|
  {
    if s != [] {
      assert s[0] in s && ' ' !in s[1..];
      RemoveSpacesNoSpace(s[1..]);
    }
  }

  /** Exactly the spaces go: every other character is kept as often as it occurs. */
  lemma {:induction false} RemoveSpacesKeepsOthers(s: string)
    ensures multiset(RemoveSpaces(s)) == multiset(s)[' ' := 0]
    decreases |s|
  {
    if s != [] {
      assert s == [s[0]] + s[1..];
      RemoveSpacesCons(s[0], s[1..]);
      RemoveSpacesKeepsOthers(s[1..]);
    }
  }

  /** Removing the spaces from a string with one more character in front. */
  lemma RemoveSpacesCons(x: char, s: string)
    ensures RemoveSpaces([x] + s) == (if x == ' ' then [] else [x]) + RemoveSpaces(s)
  {
    assert ([x] + s)[0] == x && ([x] + s)[1..] == s;
  }

  /**
   * Removing the spaces works piece by piece, so the characters that remain
   * keep their order.
   */
  lemma {:induction false} RemoveSpacesConcat(a: string, b: string)
    ensures RemoveSpaces(a + b) == RemoveSpaces(a) + RemoveSpaces(b)
    decreases |a|
  {
    if a == [] {
      assert a + b == b;
    } else {
      var x, t := a[0], a[1..];
      var head := if x == ' ' then [] else [x];
      assert RemoveSpaces(a + b) == head + RemoveSpaces(t + b) by {
        assert a + b == [x] + (t + b);
        RemoveSpacesCons(x, t + b);
      }
      assert RemoveSpaces(a) == head + RemoveSpaces(t) by {
        assert a == [x] + t;
        RemoveSpacesCons(x, t);
      }
      RemoveSpacesConcat(t, b);
      assert head + (RemoveSpaces(t) + RemoveSpaces(b)) == (head + RemoveSpaces(t)) + RemoveSpaces(b);
    }
  }

  /** ASCII lower-casing, as used by case-insensitive matching. */
  function LowerChar(c: char): char {
    if 'A' <= c <= 'Z' then (c as int - 'A' as int + 'a' as int) as char else c
  }

  /** `s` spells the lower-case word `w` in any mix of cases. */
  predicate EqualsIgnoringCase(s: string, w: string) {
    |s| == |w| && forall i | 0 <= i < |s| :: LowerChar(s[i]) == w[i]
  }

  predicate IsDigit(c: char) {
    '0' <= c <= '9'
  }

  predicate AllDigits(s: string) {
    forall i | 0 <= i < |s| :: IsDigit(s[i])
  }

  /** The position of the first `c` in `s`. */
  function FirstIndex(s: string, c: char): (i: nat)
    requires c in s
    ensures i < |s| && s[i] == c
    ensures forall j | 0 <= j < i :: s[j] != c
  {
    if s[0] == c then 0 else 1 + FirstIndex(s[1..], c)
  }

  /** Length of the longest prefix of `s` made of digits (`\d*`, ASCII). */
  function DigitRun(s: string): (n: nat)
    ensures n <= |s| && AllDigits(s[..n])
    ensures n == |s| || !IsDigit(s[n])
  {
    if s != [] && IsDigit(s[0]) then
      var n := 1 + DigitRun(s[1..]);
      assert s[..n] == [s[0]] + s[1..][..n - 1];
      n
    else 0
  }

  /** Length of the longest prefix of `s` made of whitespace (`\s*`). */
  function SpaceRun(s: string): (n: nat)
    ensures n <= |s| && AllSpaces(s[..n])
    ensures n == |s| || !IsSpace(s[n])
  {
    if s != [] && IsSpace(s[0]) then
      var n := 1 + SpaceRun(s[1..]);
      assert s[..n] == [s[0]] + s[1..][..n - 1];
      n
    else 0
  }

  /** A digit run followed by a non-digit is read in full. */
  lemma {:induction false} DigitRunOf(ds: string, tail: string)
    requires AllDigits(ds)
    requires tail == [] || !IsDigit(tail[0])
    ensures DigitRun(ds + tail) == |ds|
  {
    if ds != [] {
      assert (ds + tail)[1..] == ds[1..] + tail;
      DigitRunOf(ds[1..], tail);
    } else {
      assert ds + tail == tail;
    }
  }

  /** A whitespace run followed by a non-space is skipped in full. */
  lemma {:induction false} SpaceRunOf(sp: string, tail: string)
    requires AllSpaces(sp)
    requires tail == [] || !IsSpace(tail[0])
    ensures SpaceRun(sp + tail) == |sp|
  {
    if sp != [] {
      assert (sp + tail)[1..] == sp[1..] + tail;
      SpaceRunOf(sp[1..], tail);
    } else {
      assert sp + tail == tail;
    }
  }

  /** The number a string of decimal digits denotes. */
  function DigitsValue(s: string): nat
    requires AllDigits(s)
  {
    if s == [] then 0 else 10 * DigitsValue(s[..|s| - 1]) + (s[|s| - 1] as int - '0' as int)
  }

  /** A non-negative decimal literal `whole[.frac]`; an empty `frac` means no fractional part. */
  datatype Decimal = Decimal(whole: string, frac: string)

  predicate WellFormed(d: Decimal) {
    d.whole != [] && AllDigits(d.whole) && AllDigits(d.frac)
  }

  /** The value of the digits after a decimal point: `0.d1d2...`, read from the right. */
  function FracValue(s: string): (v: real)
    requires AllDigits(s)
    ensures 0.0 <= v < 1.0
  {
    if s == [] then 0.0 else ((s[0] as int - '0' as int) as real + FracValue(s[1..])) / 10.0
  }

  /** The exact value of a literal (no binary floating-point rounding). */
  function Value(d: Decimal): (v: real)
    requires WellFormed(d)
    ensures v >= 0.0
  {
    DigitsValue(d.whole) as real + FracValue(d.frac)
  }

  /** The literal written out: `whole`, or `whole.frac`. */
  function Format(d: Decimal): string {
    d.whole + (if d.frac == [] then [] else ['.'] + d.frac)
  }

  /**
   * Reads the regular expression `\d+(\.\d+)?` at the start of `s`, greedily,
   * and returns the literal with the text that follows it. A dot that is not
   * followed by a digit is left unread.
   */
  function ReadDecimal(s: string): Option<(Decimal, string)> {
    var n := DigitRun(s);
    if n == 0 then None
    else
      var rest := s[n..];
      if |rest| >= 2 && rest[0] == '.' && IsDigit(rest[1]) then
        var m := DigitRun(rest[1..]);
        Some((Decimal(s[..n], rest[1..1 + m]), rest[1 + m..]))
      else
        Some((Decimal(s[..n], []), rest))
  }

  /**
   * The literal read followed by the text left over is the input itself, and
   * nothing is read exactly when the input does not start with a digit.
   */
  lemma ReadDecimalSplits(s: string)
    ensures var r := ReadDecimal(s);
      && (r.Some? ==> WellFormed(r.value.0) && s == Format(r.value.0) + r.value.1)
      && (r.None? <==> s == [] || !IsDigit(s[0]))
  {
    var n := DigitRun(s);
    if n == 0 {
      assert ReadDecimal(s) == None;
    } else {
      assert s[..n][0] == s[0];
      var rest := s[n..];
      if |rest| >= 2 && rest[0] == '.' && IsDigit(rest[1]) {
        FractionSplits(s, n);
      } else {
        WholeSplits(s, n);
      }
    }
  }

  /** A digit run not followed by a dot and a digit: the whole-number literal and what follows it make up `s`. */
  lemma WholeSplits(s: string, n: nat)
    requires 0 < n <= |s| && AllDigits(s[..n])
    ensures WellFormed(Decimal(s[..n], [])) && s == Format(Decimal(s[..n], [])) + s[n..]
  {
    assert Format(Decimal(s[..n], [])) == s[..n];
  }

  /** A digit run, a dot and more digits: the literal with a fraction and what follows it make up `s`. */
  lemma FractionSplits(s: string, n: nat)
    requires 0 < n <= |s| && DigitRun(s) == n
    requires |s[n..]| >= 2 && s[n..][0] == '.' && IsDigit(s[n..][1])
    ensures var rest := s[n..]; var m := DigitRun(rest[1..]);
      && 1 + m <= |rest|
      && WellFormed(Decimal(s[..n], rest[1..1 + m]))
      && s == Format(Decimal(s[..n], rest[1..1 + m])) + rest[1 + m..]
  {
    var rest := s[n..];
    var m := DigitRun(rest[1..]);
    var k := n + 1 + m;
    var frac := s[n + 1..k];
    assert rest[1..1 + m] == frac && rest[1 + m..] == s[k..];
    assert AllDigits(frac) && frac != [] by {
      assert frac == rest[1..][..m];
    }
    assert s == s[..n] + (['.'] + frac) + s[k..] by {
      assert s[n] == rest[0];
      SplitAround(s, n, k);
    }
    assert Format(Decimal(s[..n], frac)) == s[..n] + (['.'] + frac);
  }

  /** `s` is what comes before position `n`, the element there, the run up to `k`, and the rest. */
  lemma SplitAround(s: string, n: nat, k: nat)
    requires n < k <= |s|
    ensures s == s[..n] + ([s[n]] + s[n + 1..k]) + s[k..]
  {
    assert s[n..k] == [s[n]] + s[n + 1..k];
    assert s == s[..n] + s[n..k] + s[k..];
  }

  /** Reading the written-out literal gives it back, whatever non-numeric text follows. */
  lemma ReadDecimalFormat(d: Decimal, tail: string)
    requires WellFormed(d)
    requires tail == [] || (!IsDigit(tail[0]) && tail[0] != '.')
    ensures ReadDecimal(Format(d) + tail) == Some((d, tail))
  {
    if d.frac == [] {
      ReadWholeFormat(d, tail);
    } else {
      ReadFractionFormat(d, tail);
    }
  }

  lemma ReadWholeFormat(d: Decimal, tail: string)
    requires WellFormed(d) && d.frac == []
    requires tail == [] || (!IsDigit(tail[0]) && tail[0] != '.')
    ensures ReadDecimal(Format(d) + tail) == Some((d, tail))
  {
    var s := Format(d) + tail;
    var n := |d.whole|;
    assert DigitRun(s) == n && s[..n] == d.whole && s[n..] == tail by {
      assert s == d.whole + tail;
      DigitRunOf(d.whole, tail);
    }
    assert Decimal(s[..n], []) == d;
  }

  lemma ReadFractionFormat(d: Decimal, tail: string)
    requires WellFormed(d) && d.frac != []
    requires tail == [] || !IsDigit(tail[0])
    ensures ReadDecimal(Format(d) + tail) == Some((d, tail))
  {
    var rest := ['.'] + d.frac + tail;
    var s := d.whole + rest;
    assert Format(d) + tail == s;
    var n := |d.whole|;
    assert DigitRun(s) == n && s[..n] == d.whole && s[n..] == rest by {
      DigitRunOf(d.whole, rest);
    }
    DigitRunOf(d.frac, tail);
    ReadFractionAt(s, n, d.frac, tail);
  }

  /** How `ReadDecimal` splits a string whose fractional digits are known. */
  lemma ReadFractionAt(s: string, n: nat, frac: string, tail: string)
    requires 0 < n <= |s| && DigitRun(s) == n
    requires frac != [] && AllDigits(frac) && s[n..] == ['.'] + frac + tail
    requires DigitRun(frac + tail) == |frac|
    ensures ReadDecimal(s) == Some((Decimal(s[..n], frac), tail))
  {
    var rest := s[n..];
    var m := |frac|;
    assert rest[1..] == frac + tail;
    assert rest[1..1 + m] == frac by {
      assert rest[1..1 + m] == rest[1..][..m];
    }
    assert rest[1 + m..] == tail;
  }

  /** A literal never contains whitespace, spaces, signs or a percent sign. */
  lemma FormatChars(d: Decimal)
    requires WellFormed(d)
    ensures forall i | 0 <= i < |Format(d)| :: IsDigit(Format(d)[i]) || Format(d)[i] == '.'
    ensures Format(d) != [] && IsDigit(Format(d)[0]) && IsDigit(Format(d)[|Format(d)| - 1])
  {
  }
}
