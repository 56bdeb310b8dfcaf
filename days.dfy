/**
 * `extract_days`: find every case-insensitive occurrence of a day name's
 * three-letter prefix, capitalise each, drop repeats (keeping first
 * occurrences) and join the rest with ", ".
 */
module Days {
  import opened Wrappers
  import opened Text
  import opened Lists

  /** The day names the script passes in as its day list. */
  const WeekDays: seq<string> :=
    ["Monday", "Tuesday", "Wednesday", "Thursday", "Friday", "Saturday", "Sunday"]

  /** `day[:3]`: the first three characters of a day name, or all of a shorter one. */
  function Abbrev(day: string): (a: string)
    ensures |a| == if |day| < 3 then |day| else 3
    ensures a <= day
  {
    if |day| <= 3 then day else day[..3]
  }

  /** Every alternative of the pattern is non-empty. */
  predicate NonEmptyNames(days: seq<string>) {
    forall k :: 0 <= k < |days| ==> |days[k]| > 0
  }

  /** The literal `a` matches `s` at index `i`, ignoring case, compared character by character. */
  predicate MatchesAt(s: string, i: int, a: string)
    decreases |a|
  {
    0 <= i && i + |a| <= |s| &&
    (a == [] || (Lower(s[i]) == Lower(a[0]) && MatchesAt(s, i + 1, a[1..])))
  }

  /** A match at `i` is a slice of `s` that equals `a` up to case. */
  lemma {:induction false} MatchesAtSlice(s: string, i: int, a: string)
    ensures MatchesAt(s, i, a) <==> 0 <= i && i + |a| <= |s| && SameIgnoringCase(s[i..i + |a|], a)
    decreases |a|
  {
    if 0 <= i && i + |a| <= |s| && a != [] {
      MatchesAtSlice(s, i + 1, a[1..]);
      var x := s[i..i + |a|];
      assert x[0] == s[i] && x[1..] == s[i + 1..i + 1 + |a[1..]|];
      SameIgnoringCaseTail(x, a);
    }
  }

  /**
   * The alternative the regular expression takes at index `i`: the first one,
   * in the order of the day list from `k` on, that matches there.
   */
  function FirstAlternative(s: string, i: int, days: seq<string>, k: nat): (j: Option<nat>)
    requires k <= |days|
    ensures j.Some? ==> k <= j.value < |days| && 0 <= i && i + |Abbrev(days[j.value])| <= |s|
    decreases |days| - k
  {
    if k == |days| then None
    else if MatchesAt(s, i, Abbrev(days[k])) then Some(k)
    else FirstAlternative(s, i, days, k + 1)
  }

  /**
   * The alternative taken matches, and no earlier one does; when none is
   * taken, none matches.
   */
  lemma {:induction false} FirstAlternativeSpec(s: string, i: int, days: seq<string>, k: nat)
    requires k <= |days|
    ensures var j := FirstAlternative(s, i, days, k);
      (j.Some? ==> MatchesAt(s, i, Abbrev(days[j.value]))) &&
      (j.Some? ==> forall m :: k <= m < j.value ==> !MatchesAt(s, i, Abbrev(days[m]))) &&
      (j.None? ==> forall m :: k <= m < |days| ==> !MatchesAt(s, i, Abbrev(days[m])))
    decreases |days| - k
  {
    if k < |days| && !MatchesAt(s, i, Abbrev(days[k])) {
      FirstAlternativeSpec(s, i, days, k + 1);
    }
  }

  /** `m` is, up to case, the prefix of one of the day names. */
  ghost predicate IsDayPrefix(m: string, days: seq<string>) {
    exists k :: 0 <= k < |days| && SameIgnoringCase(m, Abbrev(days[k]))
  }

  /**
   * `re.findall` of the alternation from index `i`: the matched texts, left to
   * right, each search resuming where the previous match ended.
   */
  function FindAll(s: string, days: seq<string>, i: nat): seq<string>
    requires i <= |s| && NonEmptyNames(days)
    decreases |s| - i
  {
    if i == |s| then []
    else
      match FirstAlternative(s, i, days, 0)
      case None => FindAll(s, days, i + 1)
      case Some(k) =>
        var len := |Abbrev(days[k])|;
        [s[i..i + len]] + FindAll(s, days, i + len)
  }

  /** Where no alternative matches, the scan moves on by one character. */
  lemma FindAllSkip(s: string, days: seq<string>, i: nat)
    requires i < |s| && NonEmptyNames(days) && FirstAlternative(s, i, days, 0).None?
    ensures FindAll(s, days, i) == FindAll(s, days, i + 1)
  {
  }

  /** Where alternative `k` matches, its text is taken and the scan resumes after it. */
  lemma FindAllTake(s: string, days: seq<string>, i: nat, k: nat)
    requires i < |s| && NonEmptyNames(days) && FirstAlternative(s, i, days, 0) == Some(k)
    ensures FindAll(s, days, i) ==
      [s[i..i + |Abbrev(days[k])|]] + FindAll(s, days, i + |Abbrev(days[k])|)
  {
  }

  /**
   * The scan is leftmost: when no day prefix matches anywhere in `[i, p)` and
   * alternative `k` is the one taken at `p`, the next match is the text of
   * `s` at `p` and the scan resumes right after it.
   */
  lemma {:induction false} FindAllLeftmost(s: string, days: seq<string>, i: nat, p: nat, k: nat)
    requires i <= p < |s| && NonEmptyNames(days)
    requires forall q, m :: i <= q < p && 0 <= m < |days| ==> !MatchesAt(s, q, Abbrev(days[m]))
    requires FirstAlternative(s, p, days, 0) == Some(k)
    ensures FindAll(s, days, i) ==
      [s[p..p + |Abbrev(days[k])|]] + FindAll(s, days, p + |Abbrev(days[k])|)
    decreases p - i
  {
    if i < p {
      FirstAlternativeSpec(s, i, days, 0);
      FindAllSkip(s, days, i);
      FindAllLeftmost(s, days, i + 1, p, k);
    } else {
      FindAllTake(s, days, p, k);
    }
  }

  /** Every text of `ms` is, up to case, the prefix of one of the day names. */
  ghost predicate AllDayPrefixes(ms: seq<string>, days: seq<string>)
    decreases |ms|
  {
    ms == [] || (IsDayPrefix(ms[0], days) && AllDayPrefixes(ms[1..], days))
  }

  lemma {:induction false} AllDayPrefixesAt(ms: seq<string>, days: seq<string>, n: nat)
    requires AllDayPrefixes(ms, days) && n < |ms|
    ensures IsDayPrefix(ms[n], days)
    decreases n
  {
    if n > 0 {
      AllDayPrefixesAt(ms[1..], days, n - 1);
    }
  }

  /** Every match is, up to case, the prefix of one of the day names. */
  lemma {:induction false} FindAllArePrefixes(s: string, days: seq<string>, i: nat)
    requires i <= |s| && NonEmptyNames(days)
    ensures AllDayPrefixes(FindAll(s, days, i), days)
    decreases |s| - i
  {
    if i < |s| {
      match FirstAlternative(s, i, days, 0)
      case None =>
        FindAllArePrefixes(s, days, i + 1);
        FindAllSkip(s, days, i);
        assert AllDayPrefixes(FindAll(s, days, i), days);
      case Some(k) =>
        var len := |Abbrev(days[k])|;
        var m, rest := s[i..i + len], FindAll(s, days, i + len);
        FindAllArePrefixes(s, days, i + len);
        FindAllTake(s, days, i, k);
        FirstAlternativeSpec(s, i, days, 0);
        MatchesAtSlice(s, i, Abbrev(days[k]));
        assert IsDayPrefix(m, days);
        assert ([m] + rest)[0] == m && ([m] + rest)[1..] == rest;
    }
  }

  /** The matches in their capitalised form, one for one and equal up to case. */
  function CapitalizeAll(ms: seq<string>): (cs: seq<string>)
    ensures |cs| == |ms|
    ensures forall n :: 0 <= n < |ms| ==> SameIgnoringCase(cs[n], ms[n])
  {
    seq(|ms|, n requires 0 <= n < |ms| => Capitalize(ms[n]))
  }

  /** The list `extract_days` joins: capitalised matches without repeats. */
  function DaysFound(s: string, days: seq<string>): (found: seq<string>)
    requires NonEmptyNames(days)
    ensures Distinct(found)
  {
    Dedupe(CapitalizeAll(FindAll(s, days, 0)))
  }

  /** Every item found is non-empty, being the capitalised prefix of a non-empty day name. */
  lemma DaysFoundNonEmpty(s: string, days: seq<string>)
    requires NonEmptyNames(days)
    ensures forall n :: 0 <= n < |DaysFound(s, days)| ==> |DaysFound(s, days)[n]| > 0
  {
    var found := DaysFound(s, days);
    DaysFoundAreCanonical(s, days);
    forall n | 0 <= n < |found| ensures |found[n]| > 0 {
      assert found[n] in Canonical(days);
    }
  }

  /** `extract_days`: the items found, joined by ", "; empty exactly when nothing is found. */
  function ExtractDays(s: string, days: seq<string>): (r: string)
    requires NonEmptyNames(days)
    ensures r == "" <==> DaysFound(s, days) == []
  {
    DaysFoundNonEmpty(s, days);
    JoinEmpty(DaysFound(s, days), ", ");
    Join(DaysFound(s, days), ", ")
  }

  /** The capitalised prefixes of the day names: the only items the result can hold. */
  function Canonical(days: seq<string>): set<string> {
    set k | 0 <= k < |days| :: Capitalize(Abbrev(days[k]))
  }

  /** Each item found is the capitalised prefix of one of the day names. */
  lemma DaysFoundAreCanonical(s: string, days: seq<string>)
    requires NonEmptyNames(days)
    ensures forall x :: x in DaysFound(s, days) ==> x in Canonical(days)
  {
    var ms := FindAll(s, days, 0);
    FindAllArePrefixes(s, days, 0);
    forall x | x in DaysFound(s, days) ensures x in Canonical(days) {
      var n :| 0 <= n < |ms| && CapitalizeAll(ms)[n] == x;
      AllDayPrefixesAt(ms, days, n);
      var k :| 0 <= k < |days| && SameIgnoringCase(ms[n], Abbrev(days[k]));
      CapitalizeIgnoresCase(ms[n], Abbrev(days[k]));
    }
  }

  /**
   * Each item appears once, and items are ordered by where their first match
   * lies in the list of matches.
   */
  lemma DaysFoundDistinctInOrder(s: string, days: seq<string>)
    requires NonEmptyNames(days)
    ensures var found, ms := DaysFound(s, days), CapitalizeAll(FindAll(s, days, 0));
      Distinct(found) &&
      (forall x :: x in found <==> x in ms) &&
      forall i, j :: 0 <= i < j < |found| ==> FirstIndex(ms, found[i]) < FirstIndex(ms, found[j])
  {
    DedupeByFirstOccurrence(CapitalizeAll(FindAll(s, days, 0)));
  }

  /** Nothing is found exactly when no day prefix occurs anywhere from `i` on. */
  lemma {:induction false} FindAllEmpty(s: string, days: seq<string>, i: nat)
    requires i <= |s| && NonEmptyNames(days)
    ensures FindAll(s, days, i) == [] <==>
      forall p, k :: i <= p < |s| && 0 <= k < |days| ==> !MatchesAt(s, p, Abbrev(days[k]))
    decreases |s| - i
  {
    if i < |s| {
      FirstAlternativeSpec(s, i, days, 0);
      match FirstAlternative(s, i, days, 0)
      case None =>
        FindAllEmpty(s, days, i + 1);
        FindAllSkip(s, days, i);
      case Some(k) =>
        FindAllTake(s, days, i, k);
        assert MatchesAt(s, i, Abbrev(days[k]));
        assert exists p, m :: i <= p < |s| && 0 <= m < |days| && MatchesAt(s, p, Abbrev(days[m]));
    }
  }

  /**
   * The result is the empty string exactly when no day prefix occurs in the
   * input at any position.
   */
  lemma ExtractDaysEmpty(s: string, days: seq<string>)
    requires NonEmptyNames(days)
    ensures ExtractDays(s, days) == "" <==>
      forall p, k :: 0 <= p < |s| && 0 <= k < |days| ==> !MatchesAt(s, p, Abbrev(days[k]))
  {
    FindAllEmpty(s, days, 0);
    var ms := CapitalizeAll(FindAll(s, days, 0));
    var found := DaysFound(s, days);
    if found != [] {
      assert found[0] in ms;
    }
    if ms != [] {
      assert ms[0] in found;
    }
  }

  lemma {:induction false} MatchesAtIgnoresCase(s: string, t: string, i: int, a: string)
    requires SameIgnoringCase(s, t)
    ensures MatchesAt(s, i, a) <==> MatchesAt(t, i, a)
    decreases |a|
  {
    if 0 <= i && i + |a| <= |s| && a != [] {
      assert Lower(s[i]) == Lower(t[i]);
      MatchesAtIgnoresCase(s, t, i + 1, a[1..]);
    }
  }

  lemma SliceIgnoresCase(s: string, t: string, i: int, j: int)
    requires SameIgnoringCase(s, t) && 0 <= i <= j <= |s|
    ensures SameIgnoringCase(s[i..j], t[i..j])
  {
  }

  /** Inputs that agree up to case take the same alternative at every index. */
  lemma {:induction false} FirstAlternativeIgnoresCase(s: string, t: string, i: int, days: seq<string>, k: nat)
    requires SameIgnoringCase(s, t) && k <= |days|
    ensures FirstAlternative(s, i, days, k) == FirstAlternative(t, i, days, k)
    decreases |days| - k
  {
    if k < |days| {
      MatchesAtIgnoresCase(s, t, i, Abbrev(days[k]));
      FirstAlternativeIgnoresCase(s, t, i, days, k + 1);
    }
  }

  /** Two lists of matches that agree one for one, up to case. */
  predicate AgreeIgnoringCase(ms: seq<string>, mt: seq<string>) {
    |ms| == |mt| && forall n :: 0 <= n < |ms| ==> SameIgnoringCase(ms[n], mt[n])
  }

  lemma AgreeIgnoringCaseCons(a: string, b: string, ms: seq<string>, mt: seq<string>)
    requires SameIgnoringCase(a, b) && AgreeIgnoringCase(ms, mt)
    ensures AgreeIgnoringCase([a] + ms, [b] + mt)
  {
    forall n | 1 <= n < 1 + |ms| ensures SameIgnoringCase(([a] + ms)[n], ([b] + mt)[n]) {
      assert ([a] + ms)[n] == ms[n - 1] && ([b] + mt)[n] == mt[n - 1];
    }
  }

  /** Inputs that agree up to case give matches that agree up to case, one for one. */
  lemma {:induction false} FindAllIgnoresCase(s: string, t: string, days: seq<string>, i: nat)
    requires SameIgnoringCase(s, t) && i <= |s| && NonEmptyNames(days)
    ensures AgreeIgnoringCase(FindAll(s, days, i), FindAll(t, days, i))
    decreases |s| - i
  {
    if i < |s| {
      FirstAlternativeIgnoresCase(s, t, i, days, 0);
      match FirstAlternative(s, i, days, 0)
      case None =>
        FindAllIgnoresCase(s, t, days, i + 1);
        FindAllSkip(s, days, i);
        FindAllSkip(t, days, i);
      case Some(k) =>
        var len := |Abbrev(days[k])|;
        FindAllIgnoresCase(s, t, days, i + len);
        SliceIgnoresCase(s, t, i, i + len);
        FindAllTake(s, days, i, k);
        FindAllTake(t, days, i, k);
        AgreeIgnoringCaseCons(s[i..i + len], t[i..i + len], FindAll(s, days, i + len), FindAll(t, days, i + len));
    }
  }

  /**
   * Matching ignores case: inputs that differ only in letter case give the
   * same result.
   */
  lemma ExtractDaysIgnoresCase(s: string, t: string, days: seq<string>)
    requires SameIgnoringCase(s, t) && NonEmptyNames(days)
    ensures ExtractDays(s, days) == ExtractDays(t, days)
  {
    var ms, mt := FindAll(s, days, 0), FindAll(t, days, 0);
    FindAllIgnoresCase(s, t, days, 0);
    forall n | 0 <= n < |ms| ensures CapitalizeAll(ms)[n] == CapitalizeAll(mt)[n] {
      CapitalizeIgnoresCase(ms[n], mt[n]);
    }
    assert CapitalizeAll(ms) == CapitalizeAll(mt);
  }

  /**
   * When every match is, up to case, the same text `a`, the result is that
   * text capitalised, listed once: "mon MON Mon" gives "Mon".
   */
  lemma ExtractDaysOneDay(s: string, days: seq<string>, a: string)
    requires NonEmptyNames(days)
    requires FindAll(s, days, 0) != []
    requires forall n :: 0 <= n < |FindAll(s, days, 0)| ==> SameIgnoringCase(FindAll(s, days, 0)[n], a)
    ensures ExtractDays(s, days) == Capitalize(a)
  {
    var ms := FindAll(s, days, 0);
    var caps := CapitalizeAll(ms);
    forall n | 0 <= n < |ms| ensures caps[n] == Capitalize(a) {
      CapitalizeIgnoresCase(ms[n], a);
    }
    assert caps[0] in caps;
    DistinctSingle(DaysFound(s, days), Capitalize(a));
  }

  /**
   * A non-empty result lists the items separated by exactly ", ": splitting it
   * on ", " gives the items back, provided no day prefix holds a comma.
   */
  lemma ExtractDaysSplits(s: string, days: seq<string>)
    requires NonEmptyNames(days)
    requires forall k :: 0 <= k < |days| ==> ',' !in Abbrev(days[k])
    requires DaysFound(s, days) != []
    ensures Split(ExtractDays(s, days), ", ") == DaysFound(s, days)
  {
    var found := DaysFound(s, days);
    DaysFoundAreCanonical(s, days);
    forall n | 0 <= n < |found| ensures EndsCleanly(found[n], ", ") && Free(found[n], ", ") {
      assert found[n] in Canonical(days);
      var k :| 0 <= k < |days| && found[n] == Capitalize(Abbrev(days[k]));
      var a := Abbrev(days[k]);
      assert forall m :: 0 <= m < |a| ==> Lower(found[n][m]) == Lower(a[m]);
      CleanWithoutLead(found[n], ", ");
    }
    SplitJoin(found, ", ");
  }

  /** The script's own day list meets the conditions of the lemmas above. */
  lemma WeekDaysQualify()
    ensures NonEmptyNames(WeekDays)
    ensures forall k :: 0 <= k < |WeekDays| ==> ',' !in Abbrev(WeekDays[k])
  {
  }

  /** With the script's day list the items are the seven usual abbreviations, in order. */
  lemma WeekDaysCanonical()
    ensures forall k :: 0 <= k < |WeekDays| ==>
      Capitalize(Abbrev(WeekDays[k])) == ["Mon", "Tue", "Wed", "Thu", "Fri", "Sat", "Sun"][k]
  {
    var abbrevs := ["Mon", "Tue", "Wed", "Thu", "Fri", "Sat", "Sun"];
    forall k | 0 <= k < 7 ensures Capitalize(Abbrev(WeekDays[k])) == abbrevs[k] {
      assert Abbrev(WeekDays[k]) == abbrevs[k];
      CapitalizeKeepsCapitalized(abbrevs[k]);
    }
  }

  /** No day of the script's list starts at a character that is not the initial of one. */
  lemma NoWeekDayAt(s: string, q: nat)
    requires q < |s| && Lower(s[q]) !in "mtwfs"
    ensures forall m :: 0 <= m < |WeekDays| ==> !MatchesAt(s, q, Abbrev(WeekDays[m]))
  {
    forall m | 0 <= m < |WeekDays| ensures !MatchesAt(s, q, Abbrev(WeekDays[m])) {
      var a := Abbrev(WeekDays[m]);
      assert a[0] == WeekDays[m][0];
      assert Lower(a[0]) in "mtwfs";
    }
  }

  /** The text the examples below scan. */
  const Sample: string := "Mon/Wed and Fri"

  /** The prefixes of the first five days of the script's list. */
  lemma WeekDayPrefixes()
    ensures Abbrev(WeekDays[0]) == "Mon" && Abbrev(WeekDays[1]) == "Tue" && Abbrev(WeekDays[2]) == "Wed"
    ensures Abbrev(WeekDays[3]) == "Thu" && Abbrev(WeekDays[4]) == "Fri"
  {
  }

  /** In the sample, "Mon" is taken at 0. */
  lemma SampleMon(s: string)
    requires s == Sample
    ensures FirstAlternative(s, 0, WeekDays, 0) == Some(0)
  {
    WeekDayPrefixes();
    assert MatchesAt(s, 0, "Mon");
  }

  /** In the sample, "Wed" is taken at 4. */
  lemma SampleWed(s: string)
    requires s == Sample
    ensures FirstAlternative(s, 4, WeekDays, 0) == Some(2)
  {
    WeekDayPrefixes();
    assert !MatchesAt(s, 4, "Mon") && !MatchesAt(s, 4, "Tue") && MatchesAt(s, 4, "Wed");
  }

  /** In the sample, "Fri" is taken at 12. */
  lemma SampleFri(s: string)
    requires s == Sample
    ensures FirstAlternative(s, 12, WeekDays, 0) == Some(4)
  {
    WeekDayPrefixes();
    assert !MatchesAt(s, 12, "Mon") && !MatchesAt(s, 12, "Tue") && !MatchesAt(s, 12, "Wed");
    assert !MatchesAt(s, 12, "Thu") && MatchesAt(s, 12, "Fri");
  }

  /** Nothing matches at the '/' of the sample. */
  lemma SampleSlash(s: string)
    requires s == Sample
    ensures forall q, m :: 3 <= q < 4 && 0 <= m < |WeekDays| ==> !MatchesAt(s, q, Abbrev(WeekDays[m]))
  {
    NoWeekDayAt(s, 3);
  }

  /** Nothing matches in the " and " of the sample. */
  lemma SampleAnd(s: string)
    requires s == Sample
    ensures forall q, m :: 7 <= q < 12 && 0 <= m < |WeekDays| ==> !MatchesAt(s, q, Abbrev(WeekDays[m]))
  {
    NoWeekDayAt(s, 7);
    NoWeekDayAt(s, 8);
    NoWeekDayAt(s, 9);
    NoWeekDayAt(s, 10);
    NoWeekDayAt(s, 11);
    forall q, m | 7 <= q < 12 && 0 <= m < |WeekDays| ensures !MatchesAt(s, q, Abbrev(WeekDays[m])) {
      assert q == 7 || q == 8 || q == 9 || q == 10 || q == 11;
    }
  }

  /** The scan of the sample from index 7 finds only "Fri". */
  lemma SampleFromSeven(s: string)
    requires s == Sample
    ensures NonEmptyNames(WeekDays)
    ensures FindAll(s, WeekDays, 7) == ["Fri"]
  {
    WeekDaysQualify();
    WeekDayPrefixes();
    SampleFri(s);
    SampleAnd(s);
    FindAllLeftmost(s, WeekDays, 7, 12, 4);
    assert s[12..15] == "Fri";
  }

  /** The scan of the sample from index 3 finds "Wed" and then "Fri". */
  lemma SampleFromThree(s: string)
    requires s == Sample
    ensures NonEmptyNames(WeekDays)
    ensures FindAll(s, WeekDays, 3) == ["Wed", "Fri"]
  {
    SampleFromSeven(s);
    SampleWed(s);
    SampleSlash(s);
    FindAllLeftmost(s, WeekDays, 3, 4, 2);
    assert Abbrev(WeekDays[2]) == "Wed";
    assert s[4..7] == "Wed";
  }

  /** The scan of the sample finds "Mon", "Wed" and "Fri", in that order. */
  lemma SampleMatches(s: string)
    requires s == Sample
    ensures NonEmptyNames(WeekDays)
    ensures FindAll(s, WeekDays, 0) == ["Mon", "Wed", "Fri"]
  {
    SampleFromThree(s);
    WeekDayPrefixes();
    SampleMon(s);
    FindAllTake(s, WeekDays, 0, 0);
    assert s[0..3] == "Mon";
  }

  /** Capitalising, de-duplicating and joining the sample's matches. */
  lemma SampleJoined(ms: seq<string>)
    requires ms == ["Mon", "Wed", "Fri"]
    ensures Join(Dedupe(CapitalizeAll(ms)), ", ") == "Mon, Wed, Fri"
  {
    CapitalizeKeepsCapitalized(ms[0]);
    CapitalizeKeepsCapitalized(ms[1]);
    CapitalizeKeepsCapitalized(ms[2]);
    assert CapitalizeAll(ms) == ms;
    DedupeDistinct(ms);
    assert Join(ms[2..], ", ") == "Fri";
    assert Join(ms[1..], ", ") == "Wed, Fri";
  }

  /** The days field "Mon/Wed and Fri" normalises to "Mon, Wed, Fri". */
  lemma ExtractDaysExample()
    ensures NonEmptyNames(WeekDays)
    ensures ExtractDays(Sample, WeekDays) == "Mon, Wed, Fri"
  {
    SampleMatches(Sample);
    SampleJoined(FindAll(Sample, WeekDays, 0));
  }

  /** A text that names Monday three times, in three different cases. */
  const Repeated: string := "mon MON Mon"

  /** Monday's prefix is taken at each of the three words of `Repeated`. */
  lemma RepeatedMondays(s: string)
    requires s == Repeated
    ensures FirstAlternative(s, 0, WeekDays, 0) == Some(0)
    ensures FirstAlternative(s, 4, WeekDays, 0) == Some(0)
    ensures FirstAlternative(s, 8, WeekDays, 0) == Some(0)
  {
    WeekDayPrefixes();
    assert MatchesAt(s, 0, "Mon") && MatchesAt(s, 4, "Mon") && MatchesAt(s, 8, "Mon");
  }

  /** The scan of `Repeated` from index 7 finds only its last word. */
  lemma RepeatedFromSeven(s: string)
    requires s == Repeated
    ensures NonEmptyNames(WeekDays)
    ensures FindAll(s, WeekDays, 7) == ["Mon"]
  {
    WeekDaysQualify();
    WeekDayPrefixes();
    RepeatedMondays(s);
    NoWeekDayAt(s, 7);
    FindAllLeftmost(s, WeekDays, 7, 8, 0);
    assert s[8..11] == "Mon";
  }

  /** The scan of `Repeated` from index 3 finds its last two words. */
  lemma RepeatedFromThree(s: string)
    requires s == Repeated
    ensures NonEmptyNames(WeekDays)
    ensures FindAll(s, WeekDays, 3) == ["MON", "Mon"]
  {
    RepeatedFromSeven(s);
    RepeatedMondays(s);
    NoWeekDayAt(s, 3);
    FindAllLeftmost(s, WeekDays, 3, 4, 0);
    assert Abbrev(WeekDays[0]) == "Mon";
    assert s[4..7] == "MON";
  }

  /** The scan of `Repeated` finds its three words, each as written. */
  lemma RepeatedMatches(s: string)
    requires s == Repeated
    ensures NonEmptyNames(WeekDays)
    ensures FindAll(s, WeekDays, 0) == ["mon", "MON", "Mon"]
  {
    RepeatedFromThree(s);
    WeekDayPrefixes();
    RepeatedMondays(s);
    FindAllTake(s, WeekDays, 0, 0);
    assert s[0..3] == "mon";
  }

  /** The three words of `Repeated` are Monday's prefix up to case. */
  lemma RepeatedSameDay(ms: seq<string>)
    requires ms == ["mon", "MON", "Mon"]
    ensures forall n :: 0 <= n < |ms| ==> SameIgnoringCase(ms[n], "Mon")
  {
    assert SameIgnoringCase(ms[0], "Mon") && SameIgnoringCase(ms[1], "Mon") && SameIgnoringCase(ms[2], "Mon");
  }

  /** "mon MON Mon" gives "Mon": one day, capitalised and listed once. */
  lemma ExtractDaysRepeatedExample(s: string)
    requires s == Repeated
    ensures NonEmptyNames(WeekDays)
    ensures ExtractDays(s, WeekDays) == "Mon"
  {
    RepeatedMatches(s);
    RepeatedSameDay(FindAll(s, WeekDays, 0));
    ExtractDaysOneDay(s, WeekDays, "Mon");
    CapitalizeKeepsCapitalized("Mon");
  }

  /**
   * With no day names at all nothing is found and the result is "", which is
   * also what the empty pattern Python builds for an empty list ends in.
   */
  lemma ExtractDaysNoDays(s: string)
    ensures NonEmptyNames([])
    ensures ExtractDays(s, []) == ""
  {
    FindAllEmpty(s, [], 0);
    assert FindAll(s, [], 0) == [];
  }
}
