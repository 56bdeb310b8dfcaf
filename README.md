# Broker schedule parser

A model of the three functions in `question-3.py` that turn a one-column table
of broker schedule lines into structured records. A line has the form
`Name / Days / HH:MM / HH:MM / HH:MM / HH:MM`.

- `extract_days` builds a case-insensitive alternation of the three-letter
  prefixes of the day names. It collects the non-overlapping matches from left
  to right and capitalises each one. It then drops repeats, keeping first
  occurrences, and joins the rest with `", "`.
  Modelled in `days.dfy`, on top of `text.dfy` (ASCII case, `capitalize`,
  `find`, `split`, `join`) and `lists.dfy` (first index, order-preserving
  dedupe).
- `parse_time` reads `%H:%M` and returns a time of day, or `None`.
  Modelled in `clock.dfy`.
- `parse_schedule_optimized` does the following:
  - It rejects any table without exactly one column.
  - It splits every line on `" / "`.
  - It requires the split to produce six columns.
  - It applies `parse_time` to the four time columns, then `extract_days` to
    the day column.
  - Any failure makes the whole result `None`.

  Modelled in `schedule.dfy` as a method over a column-wise table. Its loop
  overwrites the time columns one by one, as the source's `for` loop does.

Behaviour of the libraries the script calls, as the model takes it:

- The regular-expression alternation takes, at each position, the first
  alternative in list order that matches there. `findall` resumes scanning
  where the last match ended (`Days.FindAll`).
- `pd.to_datetime(..., format='%H:%M', errors='coerce')`:
  - The hour is one or two digits with value at most 23. The minute is one or
    two digits with value at most 59. The whole text must be used.
  - Anything else becomes a missing time. Its `.time()` raises the `ValueError`
    caught at line 18, so `parse_time` returns `None`.
- `str.split(' / ', expand=True)` makes as many columns as the longest line has
  pieces. An empty table gives no columns. Shorter lines are padded with missing
  cells.
  - `parse_time` on a missing cell raises an `AttributeError`. Only the outer
    handler at line 45 catches it, so one short line makes the whole result
    `None` even when the widest line has six pieces.
  - The net rule is in the contract of `Schedule.ParseSchedule`. The result is
    `None` exactly when the table does not have one column, has no rows, or has
    a line that does not split into six pieces.

Two points where the code differs from what a first reading suggests; the model follows the code:
- `parse_time` is not a strict `HH:MM` parser. One-digit fields are accepted,
  so `"9:5"` reads as 09:05. `Clock.ParseTimeExact` lists exactly which texts
  parse to a given time.
- The days column holds three-letter abbreviations, not full day names.

## Model

| member | source | states |
|---|---|---|
| Text.Capitalize | question-3.py:9 | the result equals the input up to case, its first character is upper case and every other character is lower case |
| Text.CapitalizeIgnoresCase | question-3.py:9 | two texts that differ only in case capitalise to the same text |
| Text.CapitalizeKeepsCapitalized | question-3.py:9 | a text that is already capitalised is left unchanged |
| Text.Find | question-3.py:30 | the position found is an occurrence of the separator at or after the start, and no earlier position holds one; `None` means there is none |
| Text.Join | question-3.py:12 | `sep.join`; `Text.SplitJoin` shows that splitting undoes it |
| Text.JoinEmpty | question-3.py:12 | joining non-empty items gives the empty string exactly when there are no items |
| Text.Split | question-3.py:30 | a split yields at least one piece, and joining the pieces with the separator gives the original text back |
| Text.SplitPieces | question-3.py:30 | the split cuts at every occurrence of the separator: no piece but the last runs into a separator early, and the last holds none |
| Text.SplitJoin | question-3.py:30 | splitting a joined list gives the list back, provided no piece brings a separator occurrence of its own |
| Text.SplitHead | question-3.py:30 | with two or more pieces, the first piece is exactly the text before the first occurrence of the separator |
| Lists.FirstIndex | question-3.py:11 | `list.index`: the position of the first occurrence of the item |
| Lists.Dedupe | question-3.py:11 | the result has no repeats and holds exactly the items of the input |
| Lists.DedupeByFirstOccurrence | question-3.py:11 | the items of the result are ordered strictly by the index of their first occurrence in the input |
| Lists.DedupeDistinct | question-3.py:11 | a list without repeats is left unchanged, order included |
| Lists.DistinctSingle | question-3.py:11 | a repeat-free list holding one value and nothing else is that value alone |
| Days.Abbrev | question-3.py:6 | `day[:3]` is a prefix of the day name, three long or the whole name if shorter |
| Days.MatchesAtSlice | question-3.py:6-7 | a prefix matches at a position exactly when the text there equals it up to case |
| Days.FirstAlternative | question-3.py:6-7 | the alternative taken is one of the day list's entries, and its prefix fits in the input at that position |
| Days.FirstAlternativeSpec | question-3.py:6-7 | the alternative taken at a position is the first one in list order whose prefix matches there, ignoring case; `None` means none matches |
| Days.FindAll | question-3.py:7 | `re.findall` of the alternation; its meaning is fixed by `Days.FindAllLeftmost` and `Days.FindAllEmpty` |
| Days.FindAllLeftmost | question-3.py:7 | the scan is leftmost and non-overlapping: if nothing matches before position p and alternative k is taken at p, the next match is the input's own text at p, of k's prefix length, and the scan resumes right after it |
| Days.FindAllArePrefixes | question-3.py:7 | every match found is, up to case, the prefix of one of the day names |
| Days.FindAllEmpty | question-3.py:7 | no match is found from a position exactly when no day prefix matches at any position from there on |
| Days.FindAllIgnoresCase | question-3.py:7 | inputs that differ only in case give matches that agree one for one, up to case |
| Days.FirstAlternativeIgnoresCase | question-3.py:6-7 | inputs that differ only in case take the same alternative at every position |
| Days.CapitalizeAll | question-3.py:9 | one capitalised item per match, in order, each equal to its match up to case |
| Days.DaysFound | question-3.py:11 | the items to be joined hold no repeats |
| Days.ExtractDays | question-3.py:4-12 | `extract_days`: the items joined by ", ", which is the empty string exactly when no item was found |
| Days.DaysFoundAreCanonical | question-3.py:6-9 | every item of the output is the capitalised prefix of one of the day names |
| Days.DaysFoundDistinctInOrder | question-3.py:7-11 | every item appears once, the items are exactly the capitalised matches, and they are ordered by first occurrence among the matches, which `Days.FindAllLeftmost` lists in the order they occur in the input |
| Days.ExtractDaysEmpty | question-3.py:7-12 | the result is the empty string exactly when no day prefix matches anywhere in the input |
| Days.ExtractDaysIgnoresCase | question-3.py:7-12 | inputs that differ only in case give the same result, so "mon MON Mon" gives what "Mon Mon Mon" gives |
| Days.ExtractDaysOneDay | question-3.py:7-12 | when every match is the same text up to case, the result is that text capitalised and listed once, as "mon MON Mon" gives "Mon" |
| Days.ExtractDaysSplits | question-3.py:11-12 | a non-empty result splits on ", " back into the deduplicated items, so the items are separated by exactly ", " |
| Days.WeekDaysQualify | question-3.py:50 | the script's day list has non-empty names and no prefix with a comma, so the lemmas above apply to it |
| Days.WeekDaysCanonical | question-3.py:6-9 | with the script's day list the possible items are Mon, Tue, Wed, Thu, Fri, Sat and Sun, in that order |
| Days.SampleMatches | question-3.py:6-7 | with the script's day list, the scan of "Mon/Wed and Fri" finds "Mon", "Wed" and "Fri", in that order |
| Days.RepeatedMatches | question-3.py:6-7 | with the script's day list, the scan of "mon MON Mon" finds its three words as written |
| Days.ExtractDaysRepeatedExample | question-3.py:4-12 | with the script's day list, "mon MON Mon" gives "Mon" |
| Days.ExtractDaysNoDays | question-3.py:4-12 | with an empty day list the result is "", as Python's empty pattern also ends in "" |
| Days.ExtractDaysExample | question-3.py:4-12 | with the script's day list, "Mon/Wed and Fri" gives "Mon, Wed, Fri" |
| Clock.ParseField | question-3.py:17 | a field that is read has one or two characters and a value below the field's limit |
| Clock.ParseTime | question-3.py:14-19 | a returned time always has hour below 24 and minute below 60 |
| Clock.ParseFieldSpelling | question-3.py:17 | a field reads as value v exactly when it is v written with two digits, or with one digit when v < 10 |
| Clock.ParseTimeFields | question-3.py:17 | the text before the first ':' is read as the hour and the text after it as the minute; the time is returned only when both are read |
| Clock.ParseSpelling | question-3.py:14-19 | every way of writing a valid time parses to that time |
| Clock.ParsedIsSpelling | question-3.py:14-19 | whatever parses to a time is one of the ways of writing that time |
| Clock.ParseTimeExact | question-3.py:14-19 | the text parses to time t if and only if it is one of the ways of writing t |
| Clock.ParseTimeRejects | question-3.py:14-19 | a text that writes no valid time gives `None`, not an error |
| Clock.Format | question-3.py:17 | the two-digit `HH:MM` form is five characters long and is one of the spellings of the time |
| Clock.ParseFormat | question-3.py:14-19 | formatting a valid time and parsing it back gives the same time |
| Clock.ParseTimeExamples | question-3.py:14-19 | "09:30" is 09:30, and "25:61" and "" give `None` |
| Schedule.Fields | question-3.py:30 | a line splits into at least one piece, the pieces joined by " / " give the line back, and the line is cut at every " / " |
| Schedule.Lines | question-3.py:30 | the split table has one row of pieces per input row, each holding at least one piece |
| Schedule.Widest | question-3.py:30-31 | the column count is the length of the longest line's pieces: no line is longer, some line is that long, and an empty table has none |
| Schedule.ApplyParseTime | question-3.py:37-38 | applying `parse_time` to a column fails exactly when some cell is missing, and otherwise parses each cell in place |
| Schedule.ApplyExtractDays | question-3.py:41-42 | applying `extract_days` to a column fails exactly when some cell is missing, and otherwise normalises each cell in place |
| Schedule.RecordOf | question-3.py:29-42 | the record of a six-piece line keeps the first piece untouched as the broker name, and its times are valid when present |
| Schedule.Records | question-3.py:34-44 | the finished table read row by row gives one record per row |
| Schedule.RecordsOfTable | question-3.py:34-44 | read row by row, the finished table gives each line's record |
| Schedule.ParseFields | question-3.py:34-44 | over lines of at most six pieces, the result is `None` exactly when some line is short; otherwise there is one record per line, in order |
| Schedule.ParseSchedule | question-3.py:21-47 | `None` exactly when the table does not have one column, has no rows, or has a line not splitting into six pieces; otherwise the records follow the rows one for one, each built from its line's six pieces |
| Schedule.NoSpacedSlashIsClean | question-3.py:30 | a field in which no space is directly followed by '/' neither holds " / " nor runs into the " / " after it |
| Schedule.NoSlashIsClean | question-3.py:30 | in particular, a field without '/' is such a field |
| Schedule.SampleIsClean | question-3.py:30 | the days field "Mon/Wed and Fri" is such a field, so its '/' survives the split |
| Schedule.LineRoundTrip | question-3.py:29-42 | six fields that hold no " / " and do not run into one, joined by " / ", split back into those fields, and the record holds the name as written, the normalised days and the four parsed times |
| Schedule.BrokerNameLeadsLine | question-3.py:29-34 | the broker name of a six-piece line is exactly its text before the first " / " |

## Left out

- Loading the CSV from a fixed path (question-3.py:53-56) is file I/O. The table is a parameter of `Schedule.ParseSchedule`.
- The module-level day list and file path (question-3.py:50-59) are parameters. `Days.WeekDays` holds the day list for the lemmas about it.
- The error message (question-3.py:46) and the `.head()` previews (question-3.py:61-67) are console output only.
- Exceptions are modelled as `None` results. The model does not keep which exception was raised.
- Cells are text. A numeric or NaN cell from `read_csv` is not modelled.
- Days.FindAll: requires every day name to be non-empty. An empty name adds an empty alternative to the pattern, and `findall`'s empty-match rules are not modelled. The script's own list meets this requirement (`Days.WeekDaysQualify`).
- Days.FindAll: with an empty day list Python builds the empty pattern, so `re.findall` returns `len(s) + 1` empty matches, which de-duplicate to one `''` and join to `""`. The model finds no match at all and `Days.ExtractDays` also returns `""`, so only the intermediate list of matches differs, and `Days.FindAllEmpty` describes the model's list, not Python's, for that case.
- Days.ExtractDays: also requires non-empty day names, as above. The same applies to every member that calls it.
- Text.Capitalize: ASCII case mapping only. Python also changes the case of non-ASCII letters, and the regex flag `IGNORECASE` folds them too.
- Clock.ParseTime: ASCII digits only. Python's `\d` also accepts other Unicode decimal digits.
- The internals of `pd.to_datetime` and of pandas data frames are replaced by the rules above. Column names are positions in `Schedule.Columns`.
- Only two concrete `extract_days` inputs, "Mon/Wed and Fri" and "mon MON Mon", are worked through letter by letter (`Days.ExtractDaysExample`, `Days.ExtractDaysRepeatedExample`). Other inputs are covered by the general lemmas on the scan, case, order, repeats and the empty result.
