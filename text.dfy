/**
 * String helpers the script relies on from Python's standard library:
 * ASCII case handling (`re.IGNORECASE`, `str.capitalize`) and the
 * literal-separator `split` and `join` of `str`.
 */
module Text {
  import opened Wrappers

  /** ASCII lower-casing of one character; every other character is unchanged. */
  function Lower(c: char): char {
    if 'A' <= c <= 'Z' then (c as int + 32) as char else c
  }

  /** ASCII upper-casing of one character; every other character is unchanged. */
  function Upper(c: char): char {
    if 'a' <= c <= 'z' then (c as int - 32) as char else c
  }

  function LowerAll(s: string): string {
    seq(|s|, i requires 0 <= i < |s| => Lower(s[i]))
  }

  /** `a` and `b` are the same text once letter case is ignored. */
  predicate SameIgnoringCase(a: string, b: string) {
    |a| == |b| && forall i :: 0 <= i < |a| ==> Lower(a[i]) == Lower(b[i])
  }

  /**
   * `str.capitalize`: the same word ignoring case, with the first character
   * upper-case and every later one lower-case.
   */
  function Capitalize(s: string): (r: string)
    ensures SameIgnoringCase(r, s)
    ensures |r| > 0 ==> Upper(r[0]) == r[0]
    ensures forall i :: 1 <= i < |r| ==> Lower(r[i]) == r[i]
  {
    if s == [] then [] else [Upper(s[0])] + LowerAll(s[1..])
  }

  /** Words that agree up to case capitalise to the same word. */
  lemma CapitalizeIgnoresCase(a: string, b: string)
    requires SameIgnoringCase(a, b)
    ensures Capitalize(a) == Capitalize(b)
  {
    var ra, rb := Capitalize(a), Capitalize(b);
    if |ra| > 0 {
      assert Lower(ra[0]) == Lower(rb[0]);
      UpperOfLower(ra[0]);
      UpperOfLower(rb[0]);
    }
    assert forall i :: 1 <= i < |ra| ==> ra[i] == Lower(a[i]) == Lower(b[i]) == rb[i];
  }

  /** A word already in capitalised form is left as it is. */
  lemma CapitalizeKeepsCapitalized(a: string)
    requires |a| > 0 ==> Upper(a[0]) == a[0]
    requires forall i :: 1 <= i < |a| ==> Lower(a[i]) == a[i]
    ensures Capitalize(a) == a
  {
    var r := Capitalize(a);
    if |a| > 0 {
      UpperOfLower(r[0]);
      UpperOfLower(a[0]);
    }
  }

  lemma UpperOfLower(c: char)
    ensures Upper(Lower(c)) == Upper(c)
  {
  }

  /** Equality up to case, split into the first character and the rest. */
  lemma SameIgnoringCaseTail(x: string, a: string)
    requires |x| == |a| > 0
    ensures SameIgnoringCase(x, a) <==> Lower(x[0]) == Lower(a[0]) && SameIgnoringCase(x[1..], a[1..])
  {
    if Lower(x[0]) == Lower(a[0]) && SameIgnoringCase(x[1..], a[1..]) {
      forall n | 1 <= n < |x| ensures Lower(x[n]) == Lower(a[n]) {
        assert x[n] == x[1..][n - 1] && a[n] == a[1..][n - 1];
      }
    }
  }

  /** The separator `sep` occurs in `s` starting at index `p`. */
  predicate OccursAt(s: string, p: int, sep: string) {
    0 <= p && p + |sep| <= |s| && s[p..p + |sep|] == sep
  }

  /** `s.find(pat, i)`: the first occurrence of `pat` at or after `i`. */
  function Find(s: string, pat: string, i: nat): (k: Option<nat>)
    requires i <= |s|
    ensures k.Some? ==> i <= k.value && OccursAt(s, k.value, pat)
    ensures k.Some? ==> forall p :: i <= p < k.value ==> !OccursAt(s, p, pat)
    ensures k.None? ==> forall p :: i <= p ==> !OccursAt(s, p, pat)
    decreases |s| - i
  {
    if i + |pat| > |s| then None
    else if OccursAt(s, i, pat) then Some(i)
    else Find(s, pat, i + 1)
  }

  /** `sep.join(parts)`. */
  function Join(parts: seq<string>, sep: string): string {
    if |parts| == 0 then ""
    else if |parts| == 1 then parts[0]
    else parts[0] + sep + Join(parts[1..], sep)
  }

  /** Joining non-empty pieces gives the empty text exactly when there are no pieces. */
  lemma JoinEmpty(parts: seq<string>, sep: string)
    requires forall n :: 0 <= n < |parts| ==> |parts[n]| > 0
    ensures Join(parts, sep) == "" <==> parts == []
  {
    if |parts| >= 2 {
      assert |Join(parts, sep)| >= |parts[0]|;
    }
  }

  /**
   * `s.split(sep)` for a non-empty literal separator: the pieces between the
   * non-overlapping occurrences of `sep`, found left to right. Joining the
   * pieces back gives `s` again.
   */
  function Split(s: string, sep: string): (parts: seq<string>)
    requires |sep| > 0
    ensures |parts| >= 1
    ensures Join(parts, sep) == s
    decreases |s|
  {
    match Find(s, sep, 0)
    case None => [s]
    case Some(k) =>
      var rest := Split(s[k + |sep|..], sep);
      assert s == s[..k] + sep + s[k + |sep|..];
      [s[..k]] + rest
  }

  /** `sep` does not occur anywhere in `s`. */
  predicate Free(s: string, sep: string) {
    forall p :: 0 <= p <= |s| ==> !OccursAt(s, p, sep)
  }

  /** In `x + sep`, the first occurrence of `sep` is the appended one. */
  predicate EndsCleanly(x: string, sep: string) {
    forall p :: 0 <= p < |x| ==> !OccursAt(x + sep, p, sep)
  }

  lemma OccursAtPrefix(a: string, b: string, p: int, sep: string)
    requires 0 <= p && p + |sep| <= |a|
    ensures OccursAt(a + b, p, sep) <==> OccursAt(a, p, sep)
  {
    assert (a + b)[p..p + |sep|] == a[p..p + |sep|];
  }

  /** A piece that does not contain the separator's first character cannot disturb a split. */
  lemma CleanWithoutLead(x: string, sep: string)
    requires |sep| > 0 && sep[0] !in x
    ensures EndsCleanly(x, sep) && Free(x, sep)
  {
    forall p | 0 <= p < |x| ensures !OccursAt(x + sep, p, sep) {
      assert (x + sep)[p] == x[p];
    }
  }

  /** After a piece that ends cleanly, the first occurrence of `sep` is the one that follows it. */
  lemma FindAfterClean(x: string, sep: string, rest: string)
    requires |sep| > 0 && EndsCleanly(x, sep)
    ensures Find(x + sep + rest, sep, 0) == Some(|x|)
  {
    var s := (x + sep) + rest;
    OccursAtPrefix(x + sep, rest, |x|, sep);
    assert (x + sep)[|x|..|x| + |sep|] == sep;
    forall p | 0 <= p < |x| ensures !OccursAt(s, p, sep) {
      OccursAtPrefix(x + sep, rest, p, sep);
    }
  }

  /**
   * Splitting a joined list gives the list back, provided no piece brings
   * an occurrence of the separator of its own.
   */
  lemma {:induction false} SplitJoin(parts: seq<string>, sep: string)
    requires |sep| > 0 && |parts| >= 1
    requires forall i :: 0 <= i < |parts| - 1 ==> EndsCleanly(parts[i], sep)
    requires Free(parts[|parts| - 1], sep)
    ensures Split(Join(parts, sep), sep) == parts
  {
    if |parts| == 1 {
      assert Join(parts, sep) == parts[0];
    } else {
      var x, rest := parts[0], Join(parts[1..], sep);
      var s := Join(parts, sep);
      assert s == x + sep + rest;
      FindAfterClean(x, sep, rest);
      assert s[..|x|] == x && s[|x| + |sep|..] == rest;
      SplitJoin(parts[1..], sep);
    }
  }

  /**
   * `split` cuts at every occurrence of `sep`: each piece but the last runs
   * cleanly into the separator that follows it, and the last piece holds no
   * separator at all.
   */
  lemma {:induction false} SplitPieces(s: string, sep: string)
    requires |sep| > 0
    ensures var parts := Split(s, sep);
      (forall n :: 0 <= n < |parts| - 1 ==> EndsCleanly(parts[n], sep)) &&
      Free(parts[|parts| - 1], sep)
    decreases |s|
  {
    match Find(s, sep, 0)
    case None =>
    case Some(k) =>
      var x, tail := s[..k], s[k + |sep|..];
      SplitPieces(tail, sep);
      assert x + sep == s[..k + |sep|];
      assert (x + sep) + tail == s;
      forall p | 0 <= p < |x| ensures !OccursAt(x + sep, p, sep) {
        OccursAtPrefix(x + sep, tail, p, sep);
      }
      var parts, rest := Split(s, sep), Split(tail, sep);
      assert parts == [x] + rest;
      forall n | 1 <= n < |parts| - 1 ensures EndsCleanly(parts[n], sep) {
        assert parts[n] == rest[n - 1];
      }
      assert parts[|parts| - 1] == rest[|rest| - 1];
  }

  /**
   * When `s` splits into at least two pieces, the first piece is exactly the
   * text before the first occurrence of `sep`.
   */
  lemma SplitHead(s: string, sep: string)
    requires |sep| > 0 && |Split(s, sep)| >= 2
    ensures var h := Split(s, sep)[0];
      s[..|h|] == h && OccursAt(s, |h|, sep) &&
      forall p :: 0 <= p < |h| ==> !OccursAt(s, p, sep)
  {
  }
}
