/**
 * The date rules of the reservation handlers: main_backup.py's `_parse_date`
 * (Spanish "D de <mes>", ISO pass-through, "D/M/YYYY"), the three date
 * patterns it searches chat messages with, and main_new.py's relative rule
 * ("hoy", "mañana") with today's date given as a parameter.
 *
 * Regular expressions are modelled by greedy prefix matchers. In every pattern
 * here a greedy run is followed by something the run itself cannot contain (a
 * digit run by `\s` or `/`, a `\s` run by a letter or a `\w` character), so
 * backtracking to a shorter run never lets a failed match succeed, and the
 * greedy lengths are the only ones to consider.
 */
module Dates {

  import opened Wrappers
  import opened Text

  // ---------------------------------------------------------------------------
  // Matchers anchored at the start of a string

  /** `\d{1,2}`, greedy: how many digits it takes at the start of `t` (0 when none). */
  function DayDigits(t: string): (n: nat)
    ensures n <= 2 && n <= |t|
    ensures forall i :: 0 <= i < n ==> IsDigit(t[i])
    ensures n < 2 && n < |t| ==> !IsDigit(t[n])
  {
    if t == [] || !IsDigit(t[0]) then 0 else if |t| >= 2 && IsDigit(t[1]) then 2 else 1
  }

  /** The length of the whitespace run (`\s*`) at the start of `t`. */
  function SpaceRun(t: string): (n: nat)
    ensures n <= |t|
    ensures forall i :: 0 <= i < n ==> IsSpace(t[i])
    ensures n < |t| ==> !IsSpace(t[n])
  {
    if t != [] && IsSpace(t[0]) then 1 + SpaceRun(t[1..]) else 0
  }

  /** The length of the word-character run (`\w*`) at the start of `t`. */
  function WordRun(t: string): (n: nat)
    ensures n <= |t|
    ensures forall i :: 0 <= i < n ==> IsWordChar(t[i])
    ensures n < |t| ==> !IsWordChar(t[n])
  {
    if t != [] && IsWordChar(t[0]) then 1 + WordRun(t[1..]) else 0
  }

  /** A whitespace run followed by text that does not start with whitespace. */
  lemma {:induction false} SpaceRunOf(w: string, rest: string)
    requires forall i :: 0 <= i < |w| ==> IsSpace(w[i])
    requires rest == [] || !IsSpace(rest[0])
    ensures SpaceRun(w + rest) == |w|
    ensures (w + rest)[..|w|] == w && (w + rest)[|w|..] == rest
    decreases |w|
  {
    if w != [] {
      assert (w + rest)[1..] == w[1..] + rest;
      SpaceRunOf(w[1..], rest);
    } else {
      assert w + rest == rest;
    }
  }

  /** A run of word characters that ends the string. */
  lemma WordRunOf(w: string)
    requires forall i :: 0 <= i < |w| ==> IsWordChar(w[i])
    ensures WordRun(w) == |w|
  {
  }

  /** A run of word characters followed by text that does not start with one. */
  lemma {:induction false} WordRunThen(w: string, rest: string)
    requires forall i :: 0 <= i < |w| ==> IsWordChar(w[i])
    requires rest == [] || !IsWordChar(rest[0])
    ensures WordRun(w + rest) == |w|
    decreases |w|
  {
    if w != [] {
      assert (w + rest)[1..] == w[1..] + rest;
      WordRunThen(w[1..], rest);
    } else {
      assert w + rest == rest;
    }
  }

  /** A one- or two-digit day followed by a non-digit: `\d{1,2}` takes exactly the day. */
  lemma DayDigitsOf(day: string, rest: string)
    requires 1 <= |day| <= 2 && AllDigits(day)
    requires rest != [] && !IsDigit(rest[0])
    ensures DayDigits(day + rest) == |day|
    ensures (day + rest)[..|day|] == day && (day + rest)[|day|..] == rest
  {
    assert (day + rest)[|day|] == rest[0];
  }

  /** What `(\d{1,2})\s+de\s+` takes from the start of a text: the day, the whitespace on
      either side of "de", and the text after. */
  datatype DeMatch = DeMatch(day: string, gap1: string, gap2: string, rest: string)

  /** The text of a match of `(\d{1,2})\s+de\s+` with its groups, followed by `tail`. */
  function DeText(day: string, gap1: string, gap2: string, tail: string): string {
    day + (gap1 + ("de" + (gap2 + tail)))
  }

  /** The shape of a match of `(\d{1,2})\s+de\s+` taken greedily. */
  ghost predicate DeShaped(p: DeMatch) {
    && 1 <= |p.day| <= 2 && AllDigits(p.day)
    && |p.gap1| >= 1 && (forall i :: 0 <= i < |p.gap1| ==> IsSpace(p.gap1[i]))
    && |p.gap2| >= 1 && (forall i :: 0 <= i < |p.gap2| ==> IsSpace(p.gap2[i]))
    && (p.rest == [] || !IsSpace(p.rest[0]))
  }

  /** `(\d{1,2})\s+de\s+` at the start of `t`. */
  function DeAt(t: string): Option<DeMatch> {
    var d := DayDigits(t);
    if d == 0 then None
    else
      var a := t[d..];
      var g := SpaceRun(a);
      if g == 0 || !StartsWith(a[g..], "de") then None
      else
        var b := a[g + 2..];
        var h := SpaceRun(b);
        if h == 0 then None
        else Some(DeMatch(t[..d], a[..g], b[..h], b[h..]))
  }

  /** A match `DeAt` finds has the pattern's shape. */
  lemma DeAtShaped(t: string)
    ensures DeAt(t).Some? ==> DeShaped(DeAt(t).value)
  {
    if DeAt(t).Some? {
      var d := DayDigits(t);
      var a := t[d..];
      var g := SpaceRun(a);
      var b := a[g + 2..];
      var h := SpaceRun(b);
      assert DeAt(t).value == DeMatch(t[..d], a[..g], b[..h], b[h..]);
      assert AllDigits(t[..d]);
      assert forall i :: 0 <= i < g ==> IsSpace(a[..g][i]);
      assert forall i :: 0 <= i < h ==> IsSpace(b[..h][i]);
      assert b[h..] == [] || b[h..][0] == b[h];
    }
  }

  /** A match `DeAt` finds covers the start of the text. */
  lemma DeAtCovers(t: string)
    ensures DeAt(t).Some? ==>
      t == DeText(DeAt(t).value.day, DeAt(t).value.gap1, DeAt(t).value.gap2, DeAt(t).value.rest)
  {
    if DeAt(t).Some? {
      var d := DayDigits(t);
      var g := SpaceRun(t[d..]);
      DeTextCuts(t[..d], t[d..], g, SpaceRun(t[d..][g + 2..]));
      assert t == t[..d] + t[d..];
    }
  }

  /** Cutting the text after the day at the two gaps and around "de" loses nothing. */
  lemma DeTextCuts(day: string, a: string, g: nat, h: nat)
    requires g + 2 <= |a| && h <= |a[g + 2..]| && a[g..g + 2] == "de"
    ensures day + a == DeText(day, a[..g], a[g + 2..][..h], a[g + 2..][h..])
  {
    var b := a[g + 2..];
    assert a == a[..g] + ("de" + b);
    assert b == b[..h] + b[h..];
  }

  /** The matcher on text that is one match of its pattern followed by non-whitespace. */
  lemma DeAtOf(p: DeMatch)
    requires DeShaped(p)
    ensures DeAt(DeText(p.day, p.gap1, p.gap2, p.rest)) == Some(p)
  {
    var r3 := p.gap2 + p.rest;
    var r2 := "de" + r3;
    var r1 := p.gap1 + r2;
    var t := p.day + r1;
    assert DeText(p.day, p.gap1, p.gap2, p.rest) == t;
    assert DayDigits(t) == |p.day| && t[..|p.day|] == p.day && t[|p.day|..] == r1 by {
      assert r1[0] == p.gap1[0];
      DayDigitsOf(p.day, r1);
    }
    assert SpaceRun(r1) == |p.gap1| && r1[..|p.gap1|] == p.gap1 && r1[|p.gap1|..] == r2 by {
      SpaceRunOf(p.gap1, r2);
    }
    assert StartsWith(r2, "de") && r2[2..] == r3;
    assert SpaceRun(r3) == |p.gap2| && r3[..|p.gap2|] == p.gap2 && r3[|p.gap2|..] == p.rest by {
      SpaceRunOf(p.gap2, p.rest);
    }
  }

  /** The two groups of a match of `(\d{1,2})\s+de\s+(\w+)`. */
  datatype DayMonth = DayMonth(day: string, month: string)

  /** `(\d{1,2})\s+de\s+(\w+)` at the start of `t`. */
  function DayMonthAt(t: string): (r: Option<DayMonth>)
    ensures r.Some? ==> 1 <= |r.value.day| <= 2 && AllDigits(r.value.day)
  {
    DeAtShaped(t);
    DeAtCovers(t);
    match DeAt(t)
    case None => None
    case Some(p) =>
      var k := WordRun(p.rest);
      if k == 0 then None else Some(DayMonth(p.day, p.rest[..k]))
  }

  /** `\d{4}-\d{2}-\d{2}` at the start of `t` (what `re.match` tests). */
  predicate IsoPrefix(t: string) {
    && |t| >= 10
    && IsDigit(t[0]) && IsDigit(t[1]) && IsDigit(t[2]) && IsDigit(t[3]) && t[4] == '-'
    && IsDigit(t[5]) && IsDigit(t[6]) && t[7] == '-' && IsDigit(t[8]) && IsDigit(t[9])
  }

  /** A string in the `YYYY-MM-DD` shape and nothing more. */
  predicate IsIsoDate(t: string) {
    |t| == 10 && IsoPrefix(t)
  }

  /** The three groups of a match of `(\d{1,2})/(\d{1,2})/(\d{4})`. */
  datatype SlashDate = SlashDate(day: string, month: string, year: string)

  /** The text such a match covers. */
  function SlashText(sd: SlashDate): string {
    sd.day + ("/" + (sd.month + ("/" + sd.year)))
  }

  /** `(\d{1,2})/(\d{1,2})/(\d{4})` at the start of `t`. */
  function SlashAt(t: string): (r: Option<SlashDate>)
    ensures r.Some? ==> && 1 <= |r.value.day| <= 2 && AllDigits(r.value.day)
                        && 1 <= |r.value.month| <= 2 && AllDigits(r.value.month)
                        && |r.value.year| == 4 && AllDigits(r.value.year)
                        && StartsWith(t, SlashText(r.value))
  {
    var d := DayDigits(t);
    if d == 0 || d == |t| || t[d] != '/' then None
    else
      var rest := t[d + 1..];
      var m := DayDigits(rest);
      if m == 0 || m == |rest| || rest[m] != '/' then None
      else
        var y := rest[m + 1..];
        if |y| < 4 || !AllDigits(y[..4]) then None
        else
          var sd := SlashDate(t[..d], rest[..m], y[..4]);
          assert t[..|SlashText(sd)|] == SlashText(sd);
          Some(sd)
  }

  // ---------------------------------------------------------------------------
  // Searching

  /** The matcher `at` finds `r` at position `q` of `t`. */
  ghost predicate FoundAt<T>(t: string, at: string -> Option<T>, q: nat, r: T) {
    q <= |t| && at(t[q..]) == Some(r)
  }

  /** `re.search`: the match at the leftmost position of `t` where the pattern matches. */
  function FindFirst<T>(t: string, at: string -> Option<T>): (r: Option<T>)
    ensures r.Some? ==> exists q: nat :: FoundAt(t, at, q, r.value)
    decreases |t|
  {
    if at(t).Some? || t == [] then
      FoundHere(t, at);
      at(t)
    else
      var r := FindFirst(t[1..], at);
      FoundLater(t, at, r);
      r
  }

  /** A match at the start of `t` is a match in `t`. */
  lemma FoundHere<T>(t: string, at: string -> Option<T>)
    ensures at(t).Some? ==> FoundAt(t, at, 0, at(t).value)
  {
    assert t[0..] == t;
  }

  /** A match in the tail of `t` is a match in `t`, one position further on. */
  lemma FoundLater<T>(t: string, at: string -> Option<T>, r: Option<T>)
    requires t != []
    requires r.Some? ==> exists q: nat :: FoundAt(t[1..], at, q, r.value)
    ensures r.Some? ==> exists q: nat :: FoundAt(t, at, q, r.value)
  {
    if r.Some? {
      var q: nat :| FoundAt(t[1..], at, q, r.value);
      assert t[1..][q..] == t[q + 1..];
      assert FoundAt(t, at, q + 1, r.value);
    }
  }

  /** The search finds the leftmost match: what it finds matches at a position before which
      the pattern matches nowhere, and it finds nothing only when the pattern matches at no
      position at all. */
  lemma {:induction false} FindFirstLeftmost<T>(t: string, at: string -> Option<T>)
    ensures FindFirst(t, at).Some? ==>
              exists q: nat :: FoundAt(t, at, q, FindFirst(t, at).value)
                               && forall p :: 0 <= p < q ==> at(t[p..]).None?
    ensures FindFirst(t, at).None? ==> forall q :: 0 <= q <= |t| ==> at(t[q..]).None?
    decreases |t|
  {
    assert t[0..] == t;
    if at(t).Some? || t == [] {
      FoundHere(t, at);
    } else {
      var r := FindFirst(t[1..], at);
      FindFirstLeftmost(t[1..], at);
      if r.Some? {
        var q: nat :| FoundAt(t[1..], at, q, r.value) && forall p :: 0 <= p < q ==> at(t[1..][p..]).None?;
        assert t[1..][q..] == t[q + 1..];
        forall p | 0 <= p < q + 1
          ensures at(t[p..]).None?
        {
          if p > 0 {
            assert t[1..][p - 1..] == t[p..];
          }
        }
        assert FoundAt(t, at, q + 1, r.value);
      } else {
        forall q | 0 <= q <= |t|
          ensures at(t[q..]).None?
        {
          if q > 0 {
            assert t[1..][q - 1..] == t[q..];
          }
        }
      }
    }
  }

  /** Conversely, a match at `q` with none before it is what the search finds. */
  lemma {:induction false} FindFirstAt<T>(t: string, at: string -> Option<T>, q: nat)
    requires q <= |t| && at(t[q..]).Some?
    requires forall p :: 0 <= p < q ==> at(t[p..]).None?
    ensures FindFirst(t, at) == at(t[q..])
    decreases q
  {
    assert t[0..] == t;
    if q > 0 {
      forall p | 0 <= p < q - 1
        ensures at(t[1..][p..]).None?
      {
        assert t[1..][p..] == t[p + 1..];
      }
      assert t[1..][q - 1..] == t[q..];
      FindFirstAt(t[1..], at, q - 1);
    }
  }

  /** A string without whitespace holds no match of `(\d{1,2})\s+de\s+(\w+)` anywhere. */
  lemma {:induction false} NoSpaceNoDayMonth(t: string)
    requires forall i :: 0 <= i < |t| ==> !IsSpace(t[i])
    ensures FindFirst(t, DayMonthAt).None?
  {
    var d := DayDigits(t);
    assert d < |t| ==> !IsSpace(t[d]);
    if t != [] {
      NoSpaceNoDayMonth(t[1..]);
    }
  }

  /** A string without digits holds no match of `(\d{1,2})\s+de\s+(\w+)` anywhere. */
  lemma {:induction false} NoDigitNoDayMonth(t: string)
    requires forall i :: 0 <= i < |t| ==> !IsDigit(t[i])
    ensures FindFirst(t, DayMonthAt).None?
  {
    assert DayDigits(t) == 0;
    if t != [] {
      NoDigitNoDayMonth(t[1..]);
    }
  }

  /** Lower-casing neither makes nor removes a digit. */
  lemma LowerDigits(s: string)
    ensures forall i :: 0 <= i < |s| ==> (IsDigit(Lower(s)[i]) <==> IsDigit(s[i]))
  {
  }

  /** Lower-casing turns no character into whitespace. */
  lemma LowerNoSpace(s: string)
    requires forall i :: 0 <= i < |s| ==> !IsSpace(s[i])
    ensures forall i :: 0 <= i < |s| ==> !IsSpace(Lower(s)[i])
  {
  }

  // ---------------------------------------------------------------------------
  // main_backup.py's `_parse_date`

  /** The month table `meses`. */
  const Months: map<string, string> := map[
    "enero" := "01", "febrero" := "02", "marzo" := "03", "abril" := "04",
    "mayo" := "05", "junio" := "06", "julio" := "07", "agosto" := "08",
    "septiembre" := "09", "octubre" := "10", "noviembre" := "11", "diciembre" := "12"]

  /** The months in calendar order. */
  const MonthNames: seq<string> := [
    "enero", "febrero", "marzo", "abril", "mayo", "junio",
    "julio", "agosto", "septiembre", "octubre", "noviembre", "diciembre"]

  /** The table maps each month name to its number in the calendar, written with two digits,
      and knows no other names. */
  lemma MonthsTable(name: string)
    ensures name in Months <==> name in MonthNames
    ensures name in Months ==>
      var mm := Months[name];
      && |mm| == 2 && AllDigits(mm)
      && 1 <= DigitsValue(mm) <= 12 && MonthNames[DigitsValue(mm) - 1] == name
  {
  }

  /** The text `YYYY-MM-DD` assembled from its three groups. */
  function IsoText(y: string, m: string, d: string): string {
    y + "-" + m + "-" + d
  }

  /** Groups of four, two and two digits assemble into an ISO-shaped date, from whose
      slices they can be read back. */
  lemma IsoTextShape(y: string, m: string, d: string)
    requires |y| == 4 && |m| == 2 && |d| == 2 && AllDigits(y) && AllDigits(m) && AllDigits(d)
    ensures IsIsoDate(IsoText(y, m, d))
    ensures IsoText(y, m, d)[..4] == y && IsoText(y, m, d)[5..7] == m && IsoText(y, m, d)[8..10] == d
  {
    var t := IsoText(y, m, d);
    assert t[..4] == y;
    assert t[5..7] == m;
    assert t[8..10] == d;
  }

  /** `_parse_date(date_str)`: the first rule that applies, in order:
      1. a "D de <word>" found anywhere in the lower-cased text, whose word is a month name,
         gives "2025-MM-DD" with the day zero-padded (a word that is not a month name falls
         through to the next rules, without searching further);
      2. text starting with `YYYY-MM-DD` is returned unchanged;
      3. text starting with "D/M/YYYY" gives "YYYY-MM-DD" with day and month zero-padded;
      4. anything else is returned unchanged. */
  function ParseDate(s: string): string {
    var found := FindFirst(Lower(s), DayMonthAt);
    if found.Some? && found.value.month in Months then
      IsoText("2025", Months[found.value.month], ZeroFill(found.value.day, 2))
    else if IsoPrefix(s) then s
    else match SlashAt(s)
      case Some(sd) => IsoText(sd.year, ZeroFill(sd.month, 2), ZeroFill(sd.day, 2))
      case None => s
  }

  /** A zero-padded 1- or 2-digit group is exactly two digits. */
  lemma TwoDigits(s: string)
    requires 1 <= |s| <= 2 && AllDigits(s)
    ensures |ZeroFill(s, 2)| == 2 && AllDigits(ZeroFill(s, 2))
  {
    ZeroFillValue(s, 2);
  }

  /** Rule 1's result is ISO-shaped. */
  lemma DayMonthIso(day: string, month: string)
    requires 1 <= |day| <= 2 && AllDigits(day) && month in Months
    ensures IsIsoDate(IsoText("2025", Months[month], ZeroFill(day, 2)))
  {
    MonthsTable(month);
    TwoDigits(day);
    IsoTextShape("2025", Months[month], ZeroFill(day, 2));
  }

  /** Rule 3's result is ISO-shaped. */
  lemma SlashIso(sd: SlashDate)
    requires 1 <= |sd.day| <= 2 && AllDigits(sd.day)
    requires 1 <= |sd.month| <= 2 && AllDigits(sd.month)
    requires |sd.year| == 4 && AllDigits(sd.year)
    ensures IsIsoDate(IsoText(sd.year, ZeroFill(sd.month, 2), ZeroFill(sd.day, 2)))
  {
    TwoDigits(sd.day);
    TwoDigits(sd.month);
    IsoTextShape(sd.year, ZeroFill(sd.month, 2), ZeroFill(sd.day, 2));
  }

  /** Whatever it is given, `_parse_date` either returns it unchanged or returns an
      ISO-shaped date. */
  lemma ParseDateShape(s: string)
    ensures ParseDate(s) == s || IsIsoDate(ParseDate(s))
  {
    var found := FindFirst(Lower(s), DayMonthAt);
    if found.Some? && found.value.month in Months {
      var q: nat :| FoundAt(Lower(s), DayMonthAt, q, found.value);
      DayMonthIso(found.value.day, found.value.month);
    } else if !IsoPrefix(s) && SlashAt(s).Some? {
      SlashIso(SlashAt(s).value);
    }
  }

  /** Text starting with `YYYY-MM-DD` and holding no whitespace, such as an ISO date or
      "2025-07-25T10:00", passes through unchanged: without whitespace no "D de <month>"
      can be found ahead of the ISO rule. */
  lemma ParseDateKeepsIso(s: string)
    requires IsoPrefix(s) && forall i :: 0 <= i < |s| ==> !IsSpace(s[i])
    ensures ParseDate(s) == s
  {
    LowerNoSpace(s);
    NoSpaceNoDayMonth(Lower(s));
  }

  /** `_parse_date` is idempotent: its output is a fixed point. */
  lemma ParseDateIdempotent(s: string)
    ensures ParseDate(ParseDate(s)) == ParseDate(s)
  {
    ParseDateShape(s);
    if ParseDate(s) != s {
      IsoNoSpace(ParseDate(s));
      ParseDateKeepsIso(ParseDate(s));
    }
  }

  /** An ISO date is digits and dashes: it holds no whitespace. */
  lemma IsoNoSpace(t: string)
    requires IsIsoDate(t)
    ensures forall i :: 0 <= i < |t| ==> !IsSpace(t[i])
  {
    forall i | 0 <= i < |t|
      ensures !IsSpace(t[i])
    {
      assert IsDigit(t[i]) || t[i] == '-';
    }
  }

  /** Every month name is lower-case ASCII. */
  lemma MonthNameLetters(name: string)
    requires name in Months
    ensures forall i :: 0 <= i < |name| ==> 'a' <= name[i] <= 'z'
  {
  }

  /** The matcher of `(\d{1,2})\s+de\s+(\w+)` on text that is one such match. */
  lemma DayMonthAtText(day: string, gap1: string, gap2: string, word: string)
    requires DeShaped(DeMatch(day, gap1, gap2, word))
    requires |word| >= 1 && forall i :: 0 <= i < |word| ==> IsWordChar(word[i])
    ensures DayMonthAt(DeText(day, gap1, gap2, word)) == Some(DayMonth(day, word))
  {
    DeAtOf(DeMatch(day, gap1, gap2, word));
    WordRunOf(word);
    assert word[..|word|] == word;
  }

  /** Rule 1 on "D de <mes>" itself: "25 de julio" becomes "2025-07-25", whatever the
      whitespace around "de". */
  lemma ParseDayMonth(day: string, gap1: string, gap2: string, month: string)
    requires 1 <= |day| <= 2 && AllDigits(day)
    requires |gap1| >= 1 && forall i :: 0 <= i < |gap1| ==> IsSpace(gap1[i])
    requires |gap2| >= 1 && forall i :: 0 <= i < |gap2| ==> IsSpace(gap2[i])
    requires month in Months
    ensures ParseDate(DeText(day, gap1, gap2, month)) == IsoText("2025", Months[month], ZeroFill(day, 2))
  {
    var s := DeText(day, gap1, gap2, month);
    MonthNameLetters(month);
    assert forall i :: 0 <= i < |s| ==> !IsUpper(s[i]);
    LowerFixes(s);
    DayMonthAtText(day, gap1, gap2, month);
  }

  /** Rule 4: text without a digit matches none of the three patterns and comes back as it
      was ("mañana", "el próximo lunes"). */
  lemma ParseDateNoDigits(s: string)
    requires forall i :: 0 <= i < |s| ==> !IsDigit(s[i])
    ensures ParseDate(s) == s
  {
    LowerDigits(s);
    NoDigitNoDayMonth(Lower(s));
    assert DayDigits(s) == 0;
  }

  /** The matcher of `(\d{1,2})\s+de\s+(\w+)` on a "D de <mes>" followed by text that does
      not extend the month's word: the word group is exactly the month. */
  lemma DayMonthAtThen(day: string, gap1: string, gap2: string, month: string, rest: string)
    requires 1 <= |day| <= 2 && AllDigits(day)
    requires |gap1| >= 1 && forall i :: 0 <= i < |gap1| ==> IsSpace(gap1[i])
    requires |gap2| >= 1 && forall i :: 0 <= i < |gap2| ==> IsSpace(gap2[i])
    requires |month| >= 1 && forall i :: 0 <= i < |month| ==> 'a' <= month[i] <= 'z'
    requires rest == [] || !IsWordChar(rest[0])
    ensures DayMonthAt(DeText(day, gap1, gap2, month) + rest) == Some(DayMonth(day, month))
  {
    var w := month + rest;
    var t := DeText(day, gap1, gap2, w);
    assert DeText(day, gap1, gap2, month) + rest == t;
    assert DeShaped(DeMatch(day, gap1, gap2, w));
    DeAtOf(DeMatch(day, gap1, gap2, w));
    WordRunThen(month, rest);
    assert w[..|month|] == month;
  }

  /** In text whose first `k` characters hold no digit, the pattern matches at none of the
      first `k` positions. */
  lemma NoDigitsBefore(t: string, k: nat)
    requires k <= |t| && forall i :: 0 <= i < k ==> !IsDigit(t[i])
    ensures forall p :: 0 <= p < k ==> DayMonthAt(t[p..]).None?
  {
    forall p | 0 <= p < k
      ensures DayMonthAt(t[p..]).None?
    {
      assert DayDigits(t[p..]) == 0;
    }
  }

  /** Rule 1 searches the whole text: a "D de <mes>" after digit-free text, and followed by
      anything that does not extend the month's word, decides the date. */
  lemma ParseDayMonthIn(pre: string, day: string, gap1: string, gap2: string, month: string, post: string)
    requires forall i :: 0 <= i < |pre| ==> !IsDigit(pre[i])
    requires 1 <= |day| <= 2 && AllDigits(day)
    requires |gap1| >= 1 && forall i :: 0 <= i < |gap1| ==> IsSpace(gap1[i])
    requires |gap2| >= 1 && forall i :: 0 <= i < |gap2| ==> IsSpace(gap2[i])
    requires month in Months
    requires post == [] || !IsWordChar(post[0])
    ensures ParseDate(pre + DeText(day, gap1, gap2, month) + post)
            == IsoText("2025", Months[month], ZeroFill(day, 2))
  {
    var m := DeText(day, gap1, gap2, month);
    var rest := Lower(post);
    var r := DayMonth(day, month);
    assert Lower(pre + m + post) == Lower(pre) + (m + rest) by {
      MonthNameLetters(month);
      DeTextNoUpper(day, gap1, gap2, month);
      LowerSplice(pre, m, post);
    }
    assert DayMonthAt(m + rest) == Some(r) by {
      MonthNameLetters(month);
      LowerNonWord(post);
      DayMonthAtThen(day, gap1, gap2, month, rest);
    }
    assert FindFirst(Lower(pre) + (m + rest), DayMonthAt) == Some(r) by {
      LowerDigits(pre);
      FoundAfterNoDigits(Lower(pre), m + rest, r);
    }
    ParseDateFound(pre + m + post, r);
  }

  /** Rule 1 when the search finds a month name. */
  lemma ParseDateFound(s: string, r: DayMonth)
    requires FindFirst(Lower(s), DayMonthAt) == Some(r) && r.month in Months
    ensures ParseDate(s) == IsoText("2025", Months[r.month], ZeroFill(r.day, 2))
  {
  }

  /** "D de <mes>" holds no upper-case letter. */
  lemma DeTextNoUpper(day: string, gap1: string, gap2: string, month: string)
    requires AllDigits(day)
    requires forall i :: 0 <= i < |gap1| ==> IsSpace(gap1[i])
    requires forall i :: 0 <= i < |gap2| ==> IsSpace(gap2[i])
    requires forall i :: 0 <= i < |month| ==> 'a' <= month[i] <= 'z'
    ensures forall i :: 0 <= i < |DeText(day, gap1, gap2, month)| ==> !IsUpper(DeText(day, gap1, gap2, month)[i])
  {
  }

  /** The search skips a digit-free head and finds what matches right after it. */
  lemma FoundAfterNoDigits(head: string, rest: string, r: DayMonth)
    requires forall i :: 0 <= i < |head| ==> !IsDigit(head[i])
    requires DayMonthAt(rest) == Some(r)
    ensures FindFirst(head + rest, DayMonthAt) == Some(r)
  {
    var t := head + rest;
    assert t[|head|..] == rest;
    NoDigitsBefore(t, |head|);
    FindFirstAt(t, DayMonthAt, |head|);
  }

  /** A group followed by a slash: the group, the slash and the text after it. */
  lemma SlashCut(group: string, rest: string)
    requires 1 <= |group| <= 2 && AllDigits(group)
    ensures DayDigits(group + ("/" + rest)) == |group|
    ensures (group + ("/" + rest))[..|group|] == group
    ensures (group + ("/" + rest))[|group|] == '/'
    ensures (group + ("/" + rest))[|group| + 1..] == rest
  {
    DayDigitsOf(group, "/" + rest);
  }

  /** The matcher of `(\d{1,2})/(\d{1,2})/(\d{4})` on text that is one such match. */
  lemma SlashAtText(sd: SlashDate)
    requires 1 <= |sd.day| <= 2 && AllDigits(sd.day)
    requires 1 <= |sd.month| <= 2 && AllDigits(sd.month)
    requires |sd.year| == 4 && AllDigits(sd.year)
    ensures SlashAt(SlashText(sd)) == Some(sd)
  {
    var rest := sd.month + ("/" + sd.year);
    SlashCut(sd.day, rest);
    SlashCut(sd.month, sd.year);
    assert sd.year[..4] == sd.year;
  }

  /** Rule 3 on "D/M/YYYY" itself: "3/7/2025" becomes "2025-07-03". */
  lemma ParseSlashDate(sd: SlashDate)
    requires 1 <= |sd.day| <= 2 && AllDigits(sd.day)
    requires 1 <= |sd.month| <= 2 && AllDigits(sd.month)
    requires |sd.year| == 4 && AllDigits(sd.year)
    ensures ParseDate(SlashText(sd)) == IsoText(sd.year, ZeroFill(sd.month, 2), ZeroFill(sd.day, 2))
  {
    var s := SlashText(sd);
    assert forall i :: 0 <= i < |s| ==> IsDigit(s[i]) || s[i] == '/';
    LowerNoSpace(s);
    NoSpaceNoDayMonth(Lower(s));
    assert |s| >= 10 ==> s[4] != '-';
    SlashAtText(sd);
  }

  // ---------------------------------------------------------------------------
  // The date patterns main_backup.py's handler searches each message with

  /** A match of `(\d{1,2})\s+de\s+(enero|febrero|...|diciembre)`. */
  datatype NamedDay = NamedDay(day: string, gap1: string, gap2: string, month: string)

  function NamedDayText(nd: NamedDay): string {
    DeText(nd.day, nd.gap1, nd.gap2, nd.month)
  }

  /** The first of `names` (in order, as the alternation tries them) that `t` starts with. */
  function MonthPrefix(t: string, names: seq<string>): (r: Option<string>)
    ensures r.Some? ==> r.value in names && StartsWith(t, r.value)
  {
    if names == [] then None
    else if StartsWith(t, names[0]) then Some(names[0])
    else MonthPrefix(t, names[1..])
  }

  /** A prefix of the text after a common head extends to a prefix of the whole text. */
  lemma StartsWithAfter(head: string, rest: string, p: string)
    requires StartsWith(rest, p)
    ensures StartsWith(head + rest, head + p)
  {
    assert (head + rest)[..|head + p|] == head + rest[..|p|];
  }

  /** Text that starts with `p` after the pattern's head starts with the head and `p`. */
  lemma DeTextPrefix(day: string, gap1: string, gap2: string, rest: string, p: string)
    requires StartsWith(rest, p)
    ensures StartsWith(DeText(day, gap1, gap2, rest), DeText(day, gap1, gap2, p))
  {
    StartsWithAfter(gap2, rest, p);
    StartsWithAfter("de", gap2 + rest, gap2 + p);
    StartsWithAfter(gap1, "de" + (gap2 + rest), "de" + (gap2 + p));
    StartsWithAfter(day, gap1 + ("de" + (gap2 + rest)), gap1 + ("de" + (gap2 + p)));
  }

  /** `(\d{1,2})\s+de\s+(enero|...|diciembre)` at the start of `t`. */
  function NamedDayAt(t: string): (r: Option<NamedDay>)
    ensures r.Some? ==>
      var nd := r.value;
      && DeShaped(DeMatch(nd.day, nd.gap1, nd.gap2, nd.month))
      && nd.month in MonthNames
      && StartsWith(t, NamedDayText(nd))
  {
    match DeAt(t)
    case None => None
    case Some(p) =>
      match MonthPrefix(p.rest, MonthNames)
      case None => None
      case Some(month) =>
        NamedDayFound(t, month);
        Some(NamedDay(p.day, p.gap1, p.gap2, month))
  }

  /** A month name right after the head `DeAt` finds completes a match of the pattern. */
  lemma NamedDayFound(t: string, month: string)
    requires DeAt(t).Some? && month in MonthNames && StartsWith(DeAt(t).value.rest, month)
    ensures var p := DeAt(t).value;
            && DeShaped(DeMatch(p.day, p.gap1, p.gap2, month))
            && StartsWith(t, DeText(p.day, p.gap1, p.gap2, month))
  {
    var p := DeAt(t).value;
    DeAtShaped(t);
    DeAtCovers(t);
    MonthNameStart(month);
    DeTextPrefix(p.day, p.gap1, p.gap2, p.rest, month);
  }

  /** No month name starts with whitespace. */
  lemma MonthNameStart(name: string)
    requires name in MonthNames
    ensures name != [] && !IsSpace(name[0])
  {
  }

  /** `\d{4}-\d{2}-\d{2}` at the start of `t`, as the matched text. */
  function IsoAt(t: string): (r: Option<string>)
    ensures r.Some? ==> IsIsoDate(r.value) && StartsWith(t, r.value)
  {
    if IsoPrefix(t) then Some(t[..10]) else None
  }

  /** The date mention a message holds: the text of the first pattern, in the handler's
      order, that occurs anywhere in the message. */
  function DateMention(content: string): Option<string> {
    match FindFirst(content, NamedDayAt)
    case Some(nd) => Some(NamedDayText(nd))
    case None =>
      match FindFirst(content, IsoAt)
      case Some(iso) => Some(iso)
      case None =>
        match FindFirst(content, SlashAt)
        case Some(sd) => Some(SlashText(sd))
        case None => None
  }

  /** The pattern matches at no position of `t`. */
  ghost predicate MatchesNowhere<T>(t: string, at: string -> Option<T>) {
    forall q :: 0 <= q <= |t| ==> at(t[q..]).None?
  }

  /** `q` is the leftmost position of `t` where the pattern matches. */
  ghost predicate LeftmostAt<T>(t: string, at: string -> Option<T>, q: nat) {
    q <= |t| && at(t[q..]).Some? && forall p :: 0 <= p < q ==> at(t[p..]).None?
  }

  /** A message holds no date mention exactly when none of the three patterns matches
      anywhere in it. */
  lemma DateMentionNone(content: string)
    ensures DateMention(content).None? <==>
              && MatchesNowhere(content, NamedDayAt)
              && MatchesNowhere(content, IsoAt)
              && MatchesNowhere(content, SlashAt)
  {
    FindFirstLeftmost(content, NamedDayAt);
    FindFirstLeftmost(content, IsoAt);
    FindFirstLeftmost(content, SlashAt);
  }

  /** A pattern that matches somewhere is found at its leftmost match. */
  lemma LeftmostFound<T>(t: string, at: string -> Option<T>)
    requires !MatchesNowhere(t, at)
    ensures exists q: nat :: LeftmostAt(t, at, q) && FindFirst(t, at) == at(t[q..])
  {
    FindFirstLeftmost(t, at);
    var q: nat :| FoundAt(t, at, q, FindFirst(t, at).value)
                  && forall p :: 0 <= p < q ==> at(t[p..]).None?;
    assert LeftmostAt(t, at, q);
  }

  /** A pattern that matches nowhere is not found. */
  lemma NowhereNotFound<T>(t: string, at: string -> Option<T>)
    requires MatchesNowhere(t, at)
    ensures FindFirst(t, at).None?
  {
    FindFirstLeftmost(t, at);
  }

  /** The handler's first pattern wins: a "D de <mes>" anywhere in a message is its date
      mention, taken at the leftmost match, whatever other dates the message holds. */
  lemma DateMentionNamedFirst(content: string)
    requires !MatchesNowhere(content, NamedDayAt)
    ensures exists q: nat :: LeftmostAt(content, NamedDayAt, q)
                        && DateMention(content) == Some(NamedDayText(NamedDayAt(content[q..]).value))
  {
    LeftmostFound(content, NamedDayAt);
    var q: nat :| LeftmostAt(content, NamedDayAt, q) && FindFirst(content, NamedDayAt) == NamedDayAt(content[q..]);
    assert DateMention(content) == Some(NamedDayText(NamedDayAt(content[q..]).value));
  }

  /** Without a "D de <mes>", the leftmost ISO date is the mention, ahead of any
      "D/M/YYYY". */
  lemma DateMentionIsoNext(content: string)
    requires MatchesNowhere(content, NamedDayAt) && !MatchesNowhere(content, IsoAt)
    ensures exists q: nat :: LeftmostAt(content, IsoAt, q) && DateMention(content) == IsoAt(content[q..])
  {
    NowhereNotFound(content, NamedDayAt);
    LeftmostFound(content, IsoAt);
    var q: nat :| LeftmostAt(content, IsoAt, q) && FindFirst(content, IsoAt) == IsoAt(content[q..]);
    assert DateMention(content) == IsoAt(content[q..]);
  }

  /** With neither of the first two patterns, the leftmost "D/M/YYYY" is the mention. */
  lemma DateMentionSlashLast(content: string)
    requires MatchesNowhere(content, NamedDayAt) && MatchesNowhere(content, IsoAt)
    requires !MatchesNowhere(content, SlashAt)
    ensures exists q: nat :: LeftmostAt(content, SlashAt, q)
                        && DateMention(content) == Some(SlashText(SlashAt(content[q..]).value))
  {
    NowhereNotFound(content, NamedDayAt);
    NowhereNotFound(content, IsoAt);
    LeftmostFound(content, SlashAt);
    var q: nat :| LeftmostAt(content, SlashAt, q) && FindFirst(content, SlashAt) == SlashAt(content[q..]);
    assert DateMention(content) == Some(SlashText(SlashAt(content[q..]).value));
  }

  /** Every date mention the handler finds, once passed through `_parse_date`, is an ISO
      date: a reservation date taken from the chat history is always `YYYY-MM-DD`. */
  lemma MentionParsesToIso(content: string)
    requires DateMention(content).Some?
    ensures IsIsoDate(ParseDate(DateMention(content).value))
  {
    var named := FindFirst(content, NamedDayAt);
    if named.Some? {
      var q: nat :| FoundAt(content, NamedDayAt, q, named.value);
      var nd := named.value;
      MonthsTable(nd.month);
      ParseDayMonth(nd.day, nd.gap1, nd.gap2, nd.month);
      DayMonthIso(nd.day, nd.month);
    } else {
      var iso := FindFirst(content, IsoAt);
      if iso.Some? {
        var q: nat :| FoundAt(content, IsoAt, q, iso.value);
        IsoNoSpace(iso.value);
        ParseDateKeepsIso(iso.value);
      } else {
        var sd := FindFirst(content, SlashAt).value;
        var q: nat :| FoundAt(content, SlashAt, q, sd);
        ParseSlashDate(sd);
        SlashIso(sd);
      }
    }
  }

  // ---------------------------------------------------------------------------
  // Calendar dates and main_new.py's relative rule

  /** A calendar date, as `datetime.date` holds it. */
  datatype Date = Date(year: int, month: int, day: int)

  predicate IsLeapYear(year: int) {
    year % 4 == 0 && (year % 100 != 0 || year % 400 == 0)
  }

  function DaysInMonth(year: int, month: int): (n: int)
    ensures 28 <= n <= 31
  {
    if month == 2 then (if IsLeapYear(year) then 29 else 28)
    else if month == 4 || month == 6 || month == 9 || month == 11 then 30
    else 31
  }

  /** The dates `datetime.date` can represent: years 1 to 9999. */
  predicate ValidDate(d: Date) {
    1 <= d.year <= 9999 && 1 <= d.month <= 12 && 1 <= d.day <= DaysInMonth(d.year, d.month)
  }

  const LastDate := Date(9999, 12, 31)

  /** Calendar order. */
  predicate Before(a: Date, b: Date) {
    a.year < b.year || (a.year == b.year && (a.month < b.month || (a.month == b.month && a.day < b.day)))
  }

  /** `d + timedelta(days=1)`; `None` where Python raises `OverflowError`, past the last
      representable date. */
  function NextDay(d: Date): (r: Option<Date>)
    requires ValidDate(d)
    ensures r.None? <==> d == LastDate
    ensures r.Some? ==> ValidDate(r.value) && Before(d, r.value)
  {
    if d.day < DaysInMonth(d.year, d.month) then Some(Date(d.year, d.month, d.day + 1))
    else if d.month < 12 then Some(Date(d.year, d.month + 1, 1))
    else if d.year < 9999 then Some(Date(d.year + 1, 1, 1))
    else None
  }

  /** The day after is the immediate successor: no valid date lies strictly between a date
      and its next day, and every date but the last has one. */
  lemma NextDayIsSuccessor(d: Date, e: Date)
    requires ValidDate(d) && ValidDate(e) && Before(d, e)
    ensures NextDay(d).Some? && !Before(e, NextDay(d).value)
  {
  }

  lemma Pow10Values()
    ensures Pow10(2) == 100 && Pow10(4) == 10000
  {
  }

  /** `str(n).zfill(w)`: `n` in exactly `w` decimal digits. */
  function Padded(n: nat, w: nat): (r: string)
    requires 1 <= w && n < Pow10(w)
    ensures |r| == w && AllDigits(r) && DigitsValue(r) == n
  {
    NatToStringWidth(n, w);
    ZeroFillValue(NatToString(n), w);
    NatToStringRoundTrip(n);
    ZeroFill(NatToString(n), w)
  }

  /** `date.strftime("%Y-%m-%d")`, with the year written with four digits. */
  function FormatIso(d: Date): (r: string)
    requires ValidDate(d)
    ensures IsIsoDate(r)
  {
    Pow10Values();
    var y, m, dd := Padded(d.year, 4), Padded(d.month, 2), Padded(d.day, 2);
    IsoTextShape(y, m, dd);
    IsoText(y, m, dd)
  }

  /** Reading a `YYYY-MM-DD` text back as a date, when it names a valid one. */
  function ParseIso(t: string): Option<Date> {
    if !IsIsoDate(t) then None
    else
      var d := Date(DigitsValue(t[..4]), DigitsValue(t[5..7]), DigitsValue(t[8..10]));
      if ValidDate(d) then Some(d) else None
  }

  /** Formatting a date and reading it back gives the same date. */
  lemma IsoRoundTrip(d: Date)
    requires ValidDate(d)
    ensures ParseIso(FormatIso(d)) == Some(d)
  {
    Pow10Values();
    IsoTextShape(Padded(d.year, 4), Padded(d.month, 2), Padded(d.day, 2));
  }

  /** What the relative rule finds in a text. */
  datatype Relative = NoMention | Dated(iso: string) | Overflow

  /** "hoy" in the lower-cased text means today, otherwise "mañana" means the day after;
      `Overflow` is the `OverflowError` of asking for the day after the last date. */
  function RelativeDate(text: string, today: Date): (r: Relative)
    requires ValidDate(today)
    ensures r.Dated? ==> IsIsoDate(r.iso)
  {
    var low := Lower(text);
    if Contains(low, "hoy") then Dated(FormatIso(today))
    else if Contains(low, "mañana") then
      match NextDay(today)
      case Some(next) => Dated(FormatIso(next))
      case None => Overflow
    else NoMention
  }

  /** The relative rule names the right day: "hoy" reads back as today and wins over
      "mañana", which reads back as the day after (or overflows on the last date). */
  lemma RelativeDateMeaning(text: string, today: Date)
    requires ValidDate(today)
    ensures Contains(Lower(text), "hoy") ==> ParseIso(RelativeDate(text, today).iso) == Some(today)
    ensures !Contains(Lower(text), "hoy") && Contains(Lower(text), "mañana") ==>
              if today == LastDate then RelativeDate(text, today) == Overflow
              else ParseIso(RelativeDate(text, today).iso) == NextDay(today)
    ensures !Contains(Lower(text), "hoy") && !Contains(Lower(text), "mañana")
            ==> RelativeDate(text, today) == NoMention
  {
    IsoRoundTrip(today);
    if today != LastDate {
      IsoRoundTrip(NextDay(today).value);
    }
  }

  /** main_new.py's `_parse_date(date_str)`: the relative rule, and the text itself otherwise;
      the `except` also returns the text when the day after cannot be represented. */
  function ParseRelativeDate(s: string, today: Date): (r: string)
    requires ValidDate(today)
    ensures r == s || IsIsoDate(r)
    ensures RelativeDate(s, today).Dated? ==> r == RelativeDate(s, today).iso
    ensures !RelativeDate(s, today).Dated? ==> r == s
  {
    match RelativeDate(s, today)
    case Dated(iso) => iso
    case _ => s
  }

  /** What main_new.py's `_parse_date` returns, by the words of its input: "hoy" gives today's
      date and wins over "mañana"; "mañana" gives the next day's date, except on the last
      representable date, where the `except` hands the input back; any other text comes
      back unchanged. */
  lemma ParseRelativeDateMeaning(s: string, today: Date)
    requires ValidDate(today)
    ensures Contains(Lower(s), "hoy") ==> ParseIso(ParseRelativeDate(s, today)) == Some(today)
    ensures !Contains(Lower(s), "hoy") && Contains(Lower(s), "mañana") ==>
              if today == LastDate then ParseRelativeDate(s, today) == s
              else ParseIso(ParseRelativeDate(s, today)) == NextDay(today)
    ensures !Contains(Lower(s), "hoy") && !Contains(Lower(s), "mañana") ==> ParseRelativeDate(s, today) == s
  {
    RelativeDateMeaning(s, today);
  }
}
