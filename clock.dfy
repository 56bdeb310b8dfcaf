/**
 * `parse_time`: a time of day read with the format `%H:%M`, or `None`.
 *
 * The `%H` directive accepts one or two ASCII digits with a value up to 23
 * and `%M` one or two digits up to 59; the whole text must be consumed.
 * Anything else (including the empty text) is coerced to a missing value,
 * which the script turns into `None`.
 */
module Clock {
  import opened Wrappers
  import opened Text

  datatype TimeOfDay = TimeOfDay(hour: nat, minute: nat)

  predicate ValidTime(t: TimeOfDay) {
    t.hour < 24 && t.minute < 60
  }

  predicate IsDigit(c: char) {
    '0' <= c <= '9'
  }

  function DigitValue(c: char): nat
    requires IsDigit(c)
  {
    c as int - '0' as int
  }

  function DigitChar(d: nat): char
    requires d < 10
  {
    (d + '0' as int) as char
  }

  /** One field of the format: one or two digits whose value is below `limit`. */
  function ParseField(f: string, limit: nat): (v: Option<nat>)
    ensures v.Some? ==> v.value < limit && 1 <= |f| <= 2
  {
    if |f| == 1 && IsDigit(f[0]) && DigitValue(f[0]) < limit then
      Some(DigitValue(f[0]))
    else if |f| == 2 && IsDigit(f[0]) && IsDigit(f[1]) && 10 * DigitValue(f[0]) + DigitValue(f[1]) < limit then
      Some(10 * DigitValue(f[0]) + DigitValue(f[1]))
    else
      None
  }

  function ParseTime(s: string): (t: Option<TimeOfDay>)
    ensures t.Some? ==> ValidTime(t.value)
  {
    match Find(s, ":", 0)
    case None => None
    case Some(k) =>
      match (ParseField(s[..k], 24), ParseField(s[k + 1..], 60))
      case (Some(h), Some(m)) => Some(TimeOfDay(h, m))
      case _ => None
  }

  /** The ways a field of value `v` may be written: two digits, or one when `v` < 10. */
  function FieldSpellings(v: nat): set<string>
    requires v < 100
  {
    {[DigitChar(v / 10), DigitChar(v % 10)]} + (if v < 10 then {[DigitChar(v)]} else {})
  }

  /** Every text that names the valid time `t` in the format. */
  function Spellings(t: TimeOfDay): set<string>
    requires ValidTime(t)
  {
    set h, m | h in FieldSpellings(t.hour) && m in FieldSpellings(t.minute) :: h + ":" + m
  }

  /** The two-digit `HH:MM` form of a valid time. */
  function Format(t: TimeOfDay): (s: string)
    requires ValidTime(t)
    ensures |s| == 5 && s in Spellings(t)
  {
    var h, m := [DigitChar(t.hour / 10), DigitChar(t.hour % 10)], [DigitChar(t.minute / 10), DigitChar(t.minute % 10)];
    assert h in FieldSpellings(t.hour) && m in FieldSpellings(t.minute);
    h + ":" + m
  }

  lemma ParseFieldSpelling(f: string, limit: nat, v: nat)
    requires limit <= 100 && v < limit
    ensures ParseField(f, limit) == Some(v) <==> f in FieldSpellings(v)
  {
    if f in FieldSpellings(v) {
      if |f| == 2 {
        assert f == [DigitChar(v / 10), DigitChar(v % 10)];
      }
    }
    if ParseField(f, limit) == Some(v) {
      if |f| == 2 {
        assert v / 10 == DigitValue(f[0]) && v % 10 == DigitValue(f[1]);
        assert f == [DigitChar(v / 10), DigitChar(v % 10)];
      } else {
        assert f == [DigitChar(v)];
      }
    }
  }

  /** A field spelling holds digits only, so the first ':' is the separator. */
  lemma FieldHasNoColon(f: string, v: nat)
    requires v < 100 && f in FieldSpellings(v)
    ensures ':' !in f
  {
  }

  lemma FindAfterColonFree(h: string, m: string)
    requires ':' !in h
    ensures Find(h + ":" + m, ":", 0) == Some(|h|)
  {
    var s := h + ":" + m;
    assert OccursAt(s, |h|, ":");
    forall p | 0 <= p < |h| ensures !OccursAt(s, p, ":") {
      assert s[p..p + 1][0] == h[p];
    }
  }

  /** `s` splits at its first ':' into the two fields the parser reads. */
  lemma ParseTimeFields(h: string, m: string)
    requires ':' !in h
    ensures ParseTime(h + ":" + m) ==
      match (ParseField(h, 24), ParseField(m, 60))
      case (Some(hh), Some(mm)) => Some(TimeOfDay(hh, mm))
      case _ => None
  {
    var s := h + ":" + m;
    FindAfterColonFree(h, m);
    assert s[..|h|] == h && s[|h| + 1..] == m;
  }

  /** Sufficiency: every spelling of `t` parses to `t`. */
  lemma ParseSpelling(s: string, t: TimeOfDay)
    requires ValidTime(t) && s in Spellings(t)
    ensures ParseTime(s) == Some(t)
  {
    var h, m :| h in FieldSpellings(t.hour) && m in FieldSpellings(t.minute) && s == h + ":" + m;
    FieldHasNoColon(h, t.hour);
    ParseTimeFields(h, m);
    ParseFieldSpelling(h, 24, t.hour);
    ParseFieldSpelling(m, 60, t.minute);
  }

  /** Necessity: whatever parses to `t` is a spelling of `t`. */
  lemma ParsedIsSpelling(s: string, t: TimeOfDay)
    requires ParseTime(s) == Some(t)
    ensures ValidTime(t) && s in Spellings(t)
  {
    var k := Find(s, ":", 0).value;
    var h, m := s[..k], s[k + 1..];
    ParseFieldSpelling(h, 24, t.hour);
    ParseFieldSpelling(m, 60, t.minute);
    assert s == h + ":" + m;
  }

  /**
   * The parser accepts exactly the spellings of valid times: it returns `t`
   * for `s` if and only if `s` is one of the ways of writing `t`.
   */
  lemma ParseTimeExact(s: string, t: TimeOfDay)
    requires ValidTime(t)
    ensures ParseTime(s) == Some(t) <==> s in Spellings(t)
  {
    if s in Spellings(t) {
      ParseSpelling(s, t);
    }
    if ParseTime(s) == Some(t) {
      ParsedIsSpelling(s, t);
    }
  }

  /** Text that spells no valid time gives `None`, never an error. */
  lemma ParseTimeRejects(s: string)
    requires forall t :: ValidTime(t) ==> s !in Spellings(t)
    ensures ParseTime(s) == None
  {
    if ParseTime(s).Some? {
      ParseTimeExact(s, ParseTime(s).value);
    }
  }

  /** Formatting a time and parsing it back gives the same time. */
  lemma ParseFormat(t: TimeOfDay)
    requires ValidTime(t)
    ensures ParseTime(Format(t)) == Some(t)
  {
    ParseTimeExact(Format(t), t);
  }

  /** "09:30" is half past nine; "25:61" and the empty text are not times. */
  lemma ParseTimeExamples()
    ensures ParseTime("09:30") == Some(TimeOfDay(9, 30))
    ensures ParseTime("25:61") == None
    ensures ParseTime("") == None
  {
    ParseTimeFields("09", "30");
    assert "09" + ":" + "30" == "09:30";
    ParseTimeFields("25", "61");
    assert "25" + ":" + "61" == "25:61";
  }
}
