/**
 * The string operations the hotel servers borrow from Python: `str.lower`,
 * `str.strip`, the `in` substring test, `startswith`, slicing with a negative
 * stop, `zfill`, `str(n)` and `sep.join`, together with the character classes
 * `\s`, `\d` and `\w` of Python's `re` module.
 */
module Text {

  /** Python's `str.isspace`: the set both `re`'s `\s` and `str.strip()` use. */
  predicate IsSpace(c: char) {
    ('\t' <= c <= '\r') || ('\U{1C}' <= c <= '\U{1F}') || c == ' ' || c == '\U{85}' || c == '\U{A0}'
    || c == '\U{1680}' || ('\U{2000}' <= c <= '\U{200A}') || c == '\U{2028}' || c == '\U{2029}'
    || c == '\U{202F}' || c == '\U{205F}' || c == '\U{3000}'
  }

  /** `re`'s `\d`, restricted to the ASCII digits. */
  predicate IsDigit(c: char) {
    '0' <= c <= '9'
  }

  /** `re`'s `\w` (letters, digits, numerals and `_`), restricted to Latin-1. */
  predicate IsWordChar(c: char) {
    IsDigit(c) || ('a' <= c <= 'z') || ('A' <= c <= 'Z') || c == '_'
    || c == '\U{AA}' || c == '\U{B2}' || c == '\U{B3}' || c == '\U{B5}' || c == '\U{B9}' || c == '\U{BA}'
    || ('\U{BC}' <= c <= '\U{BE}') || ('\U{C0}' <= c <= '\U{D6}') || ('\U{D8}' <= c <= '\U{F6}')
    || ('\U{F8}' <= c <= '\U{FF}')
  }

  predicate AllDigits(s: string) {
    forall i :: 0 <= i < |s| ==> IsDigit(s[i])
  }

  /** The upper-case letters of Latin-1; `str.lower` moves each of them up by 32. */
  predicate IsUpper(c: char) {
    ('A' <= c <= 'Z') || ('\U{C0}' <= c <= '\U{DE}' && c != '\U{D7}')
  }

  function LowerChar(c: char): char {
    if IsUpper(c) then (c as int + 32) as char else c
  }

  /** `s.lower()`, character by character. */
  function Lower(s: string): (r: string)
    ensures |r| == |s|
    ensures forall i :: 0 <= i < |s| ==> r[i] == LowerChar(s[i])
  {
    seq(|s|, i requires 0 <= i < |s| => LowerChar(s[i]))
  }

  /** A string holding no upper-case letter is its own lower-case form. */
  lemma LowerFixes(s: string)
    requires forall i :: 0 <= i < |s| ==> !IsUpper(s[i])
    ensures Lower(s) == s
  {
  }

  /** Lower-casing keeps a non-word character where it is: every upper-case letter is a
      word character. */
  lemma LowerNonWord(s: string)
    requires s == [] || !IsWordChar(s[0])
    ensures Lower(s) == [] || Lower(s)[0] == s[0]
  {
  }

  /** Lower-casing works piece by piece: text without upper-case letters spliced between
      two others survives in the lower-cased whole. */
  lemma LowerSplice(a: string, m: string, b: string)
    requires forall i :: 0 <= i < |m| ==> !IsUpper(m[i])
    ensures Lower(a + m + b) == Lower(a) + m + Lower(b)
  {
    var s := a + m + b;
    forall i | 0 <= i < |s|
      ensures Lower(s)[i] == (Lower(a) + m + Lower(b))[i]
    {
      if i < |a| {
      } else if i < |a| + |m| {
        assert s[i] == m[i - |a|];
      } else {
        assert s[i] == b[i - |a| - |m|];
      }
    }
  }

  /** `s.lstrip()`: the leading whitespace is dropped and nothing else. */
  function TrimStart(s: string): (r: string)
    ensures |r| <= |s| && r == s[|s| - |r|..]
    ensures forall i :: 0 <= i < |s| - |r| ==> IsSpace(s[i])
    ensures r == [] || !IsSpace(r[0])
  {
    if s != [] && IsSpace(s[0]) then TrimStart(s[1..]) else s
  }

  /** `s.rstrip()`: the trailing whitespace is dropped and nothing else. */
  function TrimEnd(s: string): (r: string)
    ensures |r| <= |s| && r == s[..|r|]
    ensures forall i :: |r| <= i < |s| ==> IsSpace(s[i])
    ensures r == [] || !IsSpace(r[|r| - 1])
  {
    if s != [] && IsSpace(s[|s| - 1]) then TrimEnd(s[..|s| - 1]) else s
  }

  /** `s.strip()`. */
  function Strip(s: string): (r: string)
    ensures r == [] || (!IsSpace(r[0]) && !IsSpace(r[|r| - 1]))
  {
    TrimEnd(TrimStart(s))
  }

  /** A string that neither starts nor ends with whitespace is left alone by `strip`. */
  lemma StripKeeps(s: string)
    requires s == [] || (!IsSpace(s[0]) && !IsSpace(s[|s| - 1]))
    ensures Strip(s) == s
  {
  }

  /** `s.startswith(p)`. */
  predicate StartsWith(s: string, p: string) {
    |p| <= |s| && s[..|p|] == p
  }

  /** Python's substring test `t in s`. */
  function Contains(s: string, t: string): bool
    decreases |s|
  {
    if |t| > |s| then false
    else if s[..|t|] == t then true
    else Contains(s[1..], t)
  }

  /** `t` occurs in `s` starting at position `i`. */
  predicate OccursAt(s: string, t: string, i: nat) {
    i + |t| <= |s| && s[i..i + |t|] == t
  }

  /** `t in s` holds exactly when `t` occurs at some position of `s`. */
  lemma {:induction false} ContainsIff(s: string, t: string)
    ensures Contains(s, t) <==> exists i: nat :: OccursAt(s, t, i)
  {
    if |t| > |s| {
    } else if s[..|t|] == t {
      assert OccursAt(s, t, 0);
    } else {
      ContainsIff(s[1..], t);
      if Contains(s, t) {
        var i: nat :| OccursAt(s[1..], t, i);
        assert s[1..][i..i + |t|] == s[i + 1..i + 1 + |t|];
        assert OccursAt(s, t, i + 1);
      }
      if exists i: nat :: OccursAt(s, t, i) {
        var i: nat :| OccursAt(s, t, i);
        assert i != 0;
        assert s[1..][i - 1..i - 1 + |t|] == s[i..i + |t|];
        assert OccursAt(s[1..], t, i - 1);
      }
    }
  }

  /** Whatever is spliced into a string occurs in it. */
  lemma ContainsSpliced(a: string, t: string, b: string)
    ensures Contains(a + t + b, t)
  {
    ContainsIff(a + t + b, t);
    assert OccursAt(a + t + b, t, |a|);
  }

  /** A word found in the lower-cased form of a piece is found in the lower-cased form of any
      text the piece is spliced into. */
  lemma ContainsLowerSpliced(a: string, t: string, b: string, w: string)
    requires Contains(Lower(t), w)
    ensures Contains(Lower(a + t + b), w)
  {
    var s := a + t + b;
    ContainsIff(Lower(t), w);
    var k: nat :| OccursAt(Lower(t), w, k);
    assert Lower(s)[|a| + k..|a| + k + |w|] == Lower(t)[k..k + |w|] by {
      forall p | |a| <= p < |a| + |t|
        ensures Lower(s)[p] == Lower(t)[p - |a|]
      {
        assert s[p] == t[p - |a|];
      }
    }
    assert OccursAt(Lower(s), w, |a| + k);
    ContainsIff(Lower(s), w);
  }

  /** Python's `s[start:-back]` for `back >= 1`: the bounds are clamped to the string and an
      empty slice results when they cross. */
  function SliceDropping(s: string, start: nat, back: nat): string
    requires back >= 1
  {
    var stop := if |s| >= back then |s| - back else 0;
    var lo := if start <= |s| then start else |s|;
    if lo < stop then s[lo..stop] else ""
  }

  function DigitChar(d: nat): (c: char)
    requires d < 10
    ensures IsDigit(c) && c as int - '0' as int == d
  {
    ('0' as int + d) as char
  }

  /** `str(n)` for a natural number. */
  function NatToString(n: nat): (r: string)
    ensures |r| >= 1 && AllDigits(r)
    decreases n
  {
    if n < 10 then [DigitChar(n)] else NatToString(n / 10) + [DigitChar(n % 10)]
  }

  /** The number a string of decimal digits denotes, as `int(s)` reads it. */
  function DigitsValue(s: string): nat
    requires AllDigits(s)
  {
    if s == [] then 0 else DigitsValue(s[..|s| - 1]) * 10 + (s[|s| - 1] as int - '0' as int)
  }

  /** Reading back the digits `str(n)` prints gives `n`. */
  lemma {:induction false} NatToStringRoundTrip(n: nat)
    ensures DigitsValue(NatToString(n)) == n
  {
    if n >= 10 {
      NatToStringRoundTrip(n / 10);
      var s := NatToString(n);
      assert s[..|s| - 1] == NatToString(n / 10);
    }
  }

  /** Leading zeros do not change the number a digit string denotes. */
  lemma {:induction false} LeadingZerosValue(z: string, s: string)
    requires forall i :: 0 <= i < |z| ==> z[i] == '0'
    requires AllDigits(s)
    ensures AllDigits(z + s) && DigitsValue(z + s) == DigitsValue(s)
  {
    if s == [] {
      assert z + s == z;
      ZerosValue(z);
    } else {
      LeadingZerosValue(z, s[..|s| - 1]);
      assert (z + s)[..|z + s| - 1] == z + s[..|s| - 1];
    }
  }

  lemma {:induction false} ZerosValue(z: string)
    requires forall i :: 0 <= i < |z| ==> z[i] == '0'
    ensures AllDigits(z) && DigitsValue(z) == 0
  {
    if z != [] {
      ZerosValue(z[..|z| - 1]);
    }
  }

  function Pow10(w: nat): nat {
    if w == 0 then 1 else 10 * Pow10(w - 1)
  }

  /** `str(n)` has at most `w` digits when `n < 10^w`. */
  lemma {:induction false} NatToStringWidth(n: nat, w: nat)
    requires 1 <= w && n < Pow10(w)
    ensures |NatToString(n)| <= w
  {
    if n >= 10 {
      assert w >= 2;
      NatToStringWidth(n / 10, w - 1);
    }
  }

  /** `str(i)` for any integer. */
  function IntToString(i: int): string {
    if i < 0 then "-" + NatToString(-i) else NatToString(i)
  }

  /** Neither a sign nor a digit: a character `str(i)` never prints. */
  lemma NumberLacks(i: int, c: char)
    requires !IsDigit(c) && c != '-'
    ensures c !in IntToString(i)
  {
    var digits := NatToString(if i < 0 then -i else i);
    assert forall k :: 0 <= k < |digits| ==> digits[k] != c;
  }

  /** `s.zfill(width)` for a digit string: padded on the left with '0' up to `width`
      characters. (Every string the servers pad is a run of digits, so `zfill`'s
      handling of a leading sign never arises.) */
  function ZeroFill(s: string, width: nat): (r: string)
    ensures |r| == if |s| >= width then |s| else width
    ensures r[|r| - |s|..] == s
    ensures forall i :: 0 <= i < |r| - |s| ==> r[i] == '0'
  {
    if |s| >= width then s else seq(width - |s|, _ => '0') + s
  }

  /** Padding a digit string with zeros keeps it a digit string denoting the same number. */
  lemma ZeroFillValue(s: string, width: nat)
    requires AllDigits(s)
    ensures AllDigits(ZeroFill(s, width)) && DigitsValue(ZeroFill(s, width)) == DigitsValue(s)
  {
    if |s| < width {
      LeadingZerosValue(seq(width - |s|, _ => '0'), s);
    }
  }

  /** `sep.join(xs)`. */
  function Join(xs: seq<string>, sep: string): string {
    if |xs| == 0 then "" else if |xs| == 1 then xs[0] else xs[0] + sep + Join(xs[1..], sep)
  }

  /** `acc` followed by `f(x)` for every `x` of `xs`, in order: what a loop that appends
      one piece of text per element to `acc` leaves behind. */
  function AppendAll<T>(acc: string, xs: seq<T>, f: T -> string): string {
    if xs == [] then acc else AppendAll(acc, xs[..|xs| - 1], f) + f(xs[|xs| - 1])
  }

  /** Appending for two runs of elements is appending for the first, then for the second. */
  lemma {:induction false} AppendAllSplit<T>(acc: string, a: seq<T>, b: seq<T>, f: T -> string)
    ensures AppendAll(acc, a + b, f) == AppendAll(acc, a, f) + AppendAll("", b, f)
  {
    if b == [] {
      assert a + b == a;
    } else {
      var last := b[|b| - 1];
      AppendAllSplit(acc, a, b[..|b| - 1], f);
      assert (a + b)[..|a + b| - 1] == a + b[..|b| - 1];
      assert AppendAll("", b, f) == AppendAll("", b[..|b| - 1], f) + f(last);
    }
  }

  /** Every element's piece sits in its own place: after the pieces of the elements before it
      and before those of the elements after it. */
  lemma AppendAllElement<T>(acc: string, xs: seq<T>, f: T -> string, i: nat)
    requires i < |xs|
    ensures AppendAll(acc, xs, f)
            == AppendAll(acc, xs[..i], f) + f(xs[i]) + AppendAll("", xs[i + 1..], f)
  {
    var before, rest := xs[..i], xs[i + 1..];
    assert xs == (before + [xs[i]]) + rest;
    AppendAllSplit(acc, before + [xs[i]], rest, f);
    assert (before + [xs[i]])[..i] == before;
  }

  /** A join splits at any inner boundary into the joins of both sides. */
  lemma {:induction false} JoinSplit(xs: seq<string>, sep: string, i: nat)
    requires 0 < i < |xs|
    ensures Join(xs, sep) == Join(xs[..i], sep) + sep + Join(xs[i..], sep)
  {
    if i == 1 {
      assert xs[..1] == [xs[0]];
      assert xs[i..] == xs[1..];
    } else {
      JoinSplit(xs[1..], sep, i - 1);
      assert xs[1..][..i - 1] == xs[..i][1..];
      assert xs[1..][i - 1..] == xs[i..];
    }
  }

  /** Every element of a join sits in its own place, in order: after the join of the
      elements before it and a separator, and before a separator and the rest. */
  lemma JoinElement(xs: seq<string>, sep: string, i: nat)
    requires i < |xs|
    ensures Join(xs, sep) == Join(xs[..i], sep) + (if i > 0 then sep else "") + xs[i]
                             + (if i + 1 < |xs| then sep + Join(xs[i + 1..], sep) else "")
  {
    var rest := xs[i..];
    assert Join(rest[..1], sep) == xs[i] by { assert rest[..1] == [xs[i]]; }
    if i + 1 < |xs| {
      JoinSplit(rest, sep, 1);
      assert rest[1..] == xs[i + 1..];
    } else {
      assert rest == [xs[i]];
    }
    if i > 0 {
      JoinSplit(xs, sep, i);
    } else {
      assert xs[..i] == [] && xs[i..] == xs;
    }
  }
}
