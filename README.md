# Temperature statistics and letter cipher — a Dafny model

This project models the two programs of an assignment repository.

- `q2.py` reads every CSV file of a folder of station temperature readings. It
  extracts `(station, month, temperature)` observations from files in either of two
  layouts:
  - a *long* layout: one reading per row, with station, temperature and date/month
    columns;
  - a *wide* layout: one date/month column plus one column per station.

  It aggregates the observations per station (all readings, minimum, maximum) and
  per Australian season (sum and count). From those it produces three reports:
  - the seasonal averages;
  - the station(s) with the largest temperature range;
  - the most stable and most variable station(s) by population standard deviation.

  Ties within `1e-9` are reported together, in sorted order.
- `q1.py` builds a letter substitution cipher from two integer shifts. Lower case
  a–m and n–z, and upper case A–M and N–Z, each move by their own rule. It
  inverts the map for decryption and refuses a map that is not one-to-one. It
  encrypts and decrypts text letter by letter, and checks that decryption restores
  the original.

## Modules

| module | file | models |
|---|---|---|
| `Wrappers` | `wrappers.dfy` | `Option` and `Result` |
| `Text` | `text.dfy` | `str.strip`, `str.lower`, substring test, string order, `sorted`, `str(n)` |
| `Seasons` | `seasons.dfy` | `_season_for_month` and the fixed season order |
| `Values` | `values.dfy` | `_is_missing`, `_to_float`, `int()` truncation, `_parse_month_from_date` |
| `Columns` | `columns.dfy` | `_find_col` and the four header searches |
| `Extraction` | `extraction.dfy` | `iter_temperature_observations`, long and wide layouts |
| `Stats` | `stats.dfy` | the `StationStats` class (`new`, `add`) |
| `Aggregation` | `aggregation.dfy` | `load_all_data` |
| `Reports` | `reports.dfy` | the selection logic of the three `write_…` functions |
| `Cipher` | `cipher.dfy` | `_shift_char`, `build_cipher_maps`, `encrypt_text`, `decrypt_text`, the encrypt–decrypt–verify run |

### How the pieces fit

- **Files and parsers.**
  - A CSV file is a sequence of records, each a sequence of cells.
  - The library parsers are parameters of the model: `datetime.fromisoformat`,
    `datetime.strptime` for each format, and `float()`. Together they form the
    `Parsers` record.
  - The six `strptime` formats are kept as ordered data.
- **Stations.** `StationStats` is a class whose `Add` updates its fields in place.
  - Python's `math.inf` / `-math.inf` initial extremes are a `Bound` datatype.
  - `Valid()` states that `minTemp`/`maxTemp` are the extremes of `temps`, or the
    infinities when no reading was added.
- **Aggregation.**
  - The dictionary of stations is a `map<string, StationStats>` plus a
    `names: seq<string>` that records its insertion order.
  - `LoadAllData` is proved against specification functions of the concatenated
    observations: `StationOrder`, `TempsOf` and `SeasonTotalOf`.
- **Report methods.**
  - `LargestTempRange` and `Stability` are each proved equal to a specification
    function (`RangeReportOf`, `StabilityReportOf`). `SeasonalAverages` states its
    lines directly in its `ensures`.
  - Lemmas then state what those reports mean, in terms of the map from station to
    value (`RangeMap`, `StdevMap`). A winner is a station whose value is within
    `Eps` of the largest (or, for the most stable group, the smallest) value,
    which is the same as being no more than `Eps` below (above) every value.
    Winners are listed exactly once, in strictly ascending order.
- **Cipher.**
  - `BuildCipherMaps` succeeds exactly when the encoding map is injective. In that
    case the decoding map inverts it, and `DecryptEncrypt` proves that decryption
    undoes encryption for every text.
  - The model also characterises when the build succeeds. The map is injective
    exactly when both shifts are multiples of 26 (`BuildableIff`). Then every
    letter maps to itself (`BuildableIsIdentity`).

    The reason: the two halves of each alphabet move by amounts that must agree
    modulo 26 for the map to be one-to-one. This forces
    `shift1*shift2 + shift1 + shift2 ≡ 0` and `shift1 + shift2² ≡ 0 (mod 26)`, and
    these hold only when both shifts are `≡ 0`.

    So for every other input, for example shifts 1 and 2 (`SmallShiftsRejected`),
    `build_cipher_maps` raises its `ValueError`. This is what the code does. Its
    comments claim the map is "safe for all A-Z a-z".

## Model

| member | source | states |
|---|---|---|
| `Stats.StationStats.New` | q2.py:29-31 | a new record has no readings, minimum +inf and maximum -inf, and is valid |
| `Stats.StationStats.Add` | q2.py:33-39 | appends the reading, lowers the minimum / raises the maximum only when the reading passes it, and keeps the record valid |
| `Stats.StationStats.Range` | q2.py:239 | for a valid record with readings, `max_temp - min_temp` is the largest minus the smallest reading, never negative |
| `Stats.AddKeepsExtremes` | q2.py:33-39 | adding a reading keeps min/max equal to the extremes of the readings |
| `Stats.ExtremesEnclose` | q2.py:25-27 | once a reading exists, min and max are finite readings that bound every reading |
| `Stats.SeqMin` | q2.py:36-37 | the minimum is one of the readings and no reading is below it |
| `Stats.SeqMax` | q2.py:38-39 | the maximum is one of the readings and no reading is above it |
| `Values.IsMissingIff` | q2.py:42-49 | a cell is missing exactly when it is blank or its stripped text spells `nan` in any case |
| `Values.BlankIsMissing` | q2.py:44-48 | no cell, the empty cell and a blank cell are missing |
| `Values.NanSpellingIsMissing` | q2.py:49 | every case spelling of `nan`, with any surrounding whitespace, is missing |
| `Values.NanIsMissing` | q2.py:49 | `NaN`, `nan` and `NAN` are missing |
| `Values.DigitIsPresent` | q2.py:42-49 | a cell containing a digit is never missing |
| `Values.ToFloat` | q2.py:52-59 | missing cells give no number; other cells give what `float()` makes of the stripped text, nothing when it fails |
| `Values.Trunc` | q2.py:151 | `int()` on a float truncates toward zero |
| `Values.MonthNumber` | q2.py:150-151 | a month cell gives a month exactly when it converts to a number, and then its truncation |
| `Values.RemoveChar` | q2.py:71 | `replace("Z", "")` leaves no `Z` and keeps exactly the characters other than `Z` |
| `Values.RemoveCharAppend` | q2.py:71 | removal distributes over concatenation, so the kept characters keep their order and multiplicity |
| `Values.RemoveCharSingle` | q2.py:71 | a single `Z` is dropped and any other single character is kept |
| `Values.FirstFormat` | q2.py:76-89 | the result is the month of the first `strptime` format that parses, none when none parses |
| `Values.ParseMonthFromDate` | q2.py:62-91 | blank text has no month; ISO parsing of the `Z`-less text is tried first, then the formats in order |
| `Values.ResolveMonth` | q2.py:172-177 | a date that parses gives its month, otherwise the same cell is read as a month number |
| `Seasons.SeasonForMonth` | q2.py:94-102 | months 12,1,2 are Summer, 3–5 Autumn, 6–8 Winter and every other value Spring |
| `Seasons.AllSeasonsComplete` | q2.py:197 | the season order lists each of the four seasons exactly once |
| `Text.StripSpec` | q2.py:46 | `strip()` cuts off exactly the surrounding whitespace; blank text strips to the empty string |
| `Text.ContainsIff` | q2.py:110 | `kw in h` holds exactly when `kw` occurs at some position of `h` |
| `Text.SortStrings` | q2.py:250 | `sorted()` returns an ascending permutation of its input |
| `Text.SortStringsMembers` | q2.py:250 | sorting keeps exactly the given names, as many as given |
| `Text.SortStringsDistinct` | q2.py:250 | sorting names without repetition repeats none |
| `Text.NatToString` | q2.py:184 | `str(i)` is a non-empty string of decimal digits |
| `Text.NatToStringValue` | q2.py:184 | the digits `str(i)` writes denote `i` |
| `Text.NatToStringInjective` | q2.py:184 | different column indexes are written differently, so the default station names differ |
| `Columns.NormalizeAll` | q2.py:107 | each header is stripped and lower-cased, position by position |
| `Columns.AnyKeywordInIff` | q2.py:109-111 | a header matches exactly when one of the keywords occurs in it |
| `Columns.FirstMatch` | q2.py:105-112 | the result is the first matching header index, none exactly when no header matches |
| `Columns.SearchKeywords` | q2.py:108-112 | the nested search loop returns the first matching index |
| `Columns.FindCol` | q2.py:105-112 | `_find_col` returns the first header that matches, an index within the headers |
| `Columns.ResolveColumns` | q2.py:132-135 | the four column searches give indexes within the headers |
| `Extraction.StripAll` | q2.py:128 | each header is replaced by its stripped text, position by position |
| `Extraction.LongRowObservation` | q2.py:138-160 | a long-layout row yields an observation only with a non-empty stripped station, a month and a temperature, taken from their columns |
| `Extraction.LongRowComplete` | q2.py:138-160 | conversely, a row with a non-blank station, a month and a temperature yields exactly that `(station, month, t)` |
| `Extraction.LongMonthDateFirst` | q2.py:146-151 | the date column decides the month when it parses; only otherwise is the month column used |
| `Extraction.LongShortRow` | q2.py:142-158 | a row too short to hold the station or temperature column yields nothing |
| `Extraction.LongRows` | q2.py:138-160 | the rows yield no more observations than there are rows, each with a non-empty station |
| `Extraction.LongRow` | q2.py:139-160 | the row step computes the row's observation |
| `Extraction.LongMonth` | q2.py:146-151 | the month step computes the row's month |
| `Extraction.ExtractLong` | q2.py:137-161 | the row loop yields the long-layout observations in row order |
| `Extraction.DateLikeIndex` | q2.py:163-165 | the date column if any, else the month column, else column 0 |
| `Extraction.StationName` | q2.py:184 | the stripped header text, or `Station_<i>` when the header is blank; never empty |
| `Extraction.StationNames` | q2.py:184 | every header position gets its station name |
| `Extraction.CellReadings` | q2.py:185 | every cell of a row is converted with `_to_float` |
| `Extraction.ReadingColumns` | q2.py:167-187 | exactly the non-date columns present in the row with a reading, in ascending order |
| `Extraction.WideRowComplete` | q2.py:181-188 | every station cell with a reading in a row with a month is yielded |
| `Extraction.WideRowSound` | q2.py:172-188 | every yielded observation comes from a station cell of the row, with the row's month |
| `Extraction.WideRowObservations` | q2.py:168-188 | a wide row yields no more observations than there are non-date columns, each with a non-empty station |
| `Extraction.WideRows` | q2.py:168-188 | the rows yield no more observations than rows times non-date columns, each with a non-empty station |
| `Extraction.WideMonth` | q2.py:172-179 | the month step computes the row's month |
| `Extraction.StationCells` | q2.py:181-188 | the inner column loop yields the observations of the reading columns |
| `Extraction.WideRow` | q2.py:169-188 | the row step computes the row's observations |
| `Extraction.ExtractWide` | q2.py:168-188 | the row loop yields the wide-layout observations in row order |
| `Extraction.LongShapeChosen` | q2.py:137-165 | the long layout is used exactly when both a station and a temperature column are found |
| `Extraction.FileObservations` | q2.py:115-188 | every observation of a file has a non-empty station name |
| `Extraction.IterTemperatureObservations` | q2.py:115-188 | the generator yields exactly the file's observations, each with a non-empty station |
| `Aggregation.AllObservations` | q2.py:203-204 | the observations of all files in order, every one with a station name |
| `Aggregation.StationOrderSpec` | q2.py:205-206 | the station order lists each observed station once and no other |
| `Aggregation.TempsOfUnseen` | q2.py:205-207 | a station with no observation has no readings |
| `Aggregation.SeasonTotalsAddUp` | q2.py:209-211 | the four season counts add up to the number of observations and the four sums to their total |
| `Aggregation.SeasonCountZero` | q2.py:209-211 | a season's count is zero exactly when no observation falls in it |
| `Aggregation.ReadingsAddUp` | q2.py:205-207 | the stations' reading counts add up to the number of observations |
| `Aggregation.SnocSteps` | q2.py:204-211 | one more observation extends exactly its station's readings and its season's totals |
| `Aggregation.AddObservation` | q2.py:205-211 | one loop step keeps the station and season dictionaries equal to the aggregate of the observations so far |
| `Aggregation.AddObservations` | q2.py:204-211 | the loop over a file's observations keeps the same invariant |
| `Aggregation.AggregatedResult` | q2.py:213 | the invariant means: stations in first-seen order, one distinct valid record per station holding its readings in order, the four season totals |
| `Aggregation.LoadAllData` | q2.py:191-213 | the returned dictionaries are the station records and the season totals of all observations of all files |
| `Reports.SeasonalAverages` | q2.py:216-226 | one line per season in Summer–Spring order; NaN exactly when the count is zero or the season is absent, otherwise the sum divided by the count |
| `Reports.Abs` | q2.py:247 | `abs` is non-negative and equals the value or its negation |
| `Reports.MaxValue` | q2.py:245 | `max(...)` is one of the values and no value exceeds it |
| `Reports.MinValue` | q2.py:272 | `min(...)` is one of the values and no value is below it |
| `Reports.SelectMembers` | q2.py:247 | the comprehension keeps exactly the stations whose value is within `eps` of the target |
| `Reports.SelectDistinct` | q2.py:247 | it lists no station twice |
| `Reports.NearMaxIff` | q2.py:245-247 | being within `eps` of the maximum is being no more than `eps` below every value |
| `Reports.NearMinIff` | q2.py:272-275 | being within `eps` of the minimum is being no more than `eps` above every value |
| `Reports.SortedSelection` | q2.py:250 | the sorted winners are strictly ascending and are exactly the winners |
| `Reports.EntriesEmpty` | q2.py:241-243 | the entry list is empty exactly when the dictionary is |
| `Reports.SelectMaxIff` | q2.py:245-247 | the near-maximum stations are exactly the top stations of the dictionary, and there is at least one |
| `Reports.SelectMinIff` | q2.py:272-275 | the near-minimum stations are exactly the bottom stations of the dictionary, and there is at least one |
| `Reports.TopGroup` | q2.py:245-250 | the sorted top group is non-empty, strictly ascending and holds exactly the top stations |
| `Reports.BottomGroup` | q2.py:272-279 | the sorted bottom group is non-empty, strictly ascending and holds exactly the bottom stations |
| `Reports.RangeMapEmpty` | q2.py:235-243 | there are no ranges exactly when no station has a reading |
| `Reports.RangeEntriesSound` | q2.py:236-239 | every collected range belongs to a station with readings and is its max minus min |
| `Reports.RangeEntriesComplete` | q2.py:236-239 | every station with readings gets a range |
| `Reports.RangeEntriesDistinct` | q2.py:236-239 | no station gets two ranges |
| `Reports.RangeEntriesOf` | q2.py:235-239 | the collected ranges are exactly the `ranges` dictionary |
| `Reports.RangeOutcome` | q2.py:231-250 | no ranges exactly when no station has readings; otherwise the sorted winners are exactly the top-range stations |
| `Reports.CollectRanges` | q2.py:235-239 | the collection loop builds the ranges in station order |
| `Reports.RangeLinesForSpec` | q2.py:249-253 | one line per winner in order, each showing that station's range, maximum and minimum |
| `Reports.RangeLines` | q2.py:249-253 | the line loop builds those lines |
| `Reports.RangeReportEmpty` | q2.py:231-243 | "No valid temperature data" is reported exactly when no station has a reading |
| `Reports.RangeReportWinners` | q2.py:245-254 | otherwise the lines name, in strictly ascending order, exactly the stations whose range is within `eps` of the largest, each with its range and extremes |
| `Reports.LargestTempRange` | q2.py:229-254 | `write_largest_temp_range` produces that report |
| `Reports.StdevMapEmpty` | q2.py:262-268 | there are no deviations exactly when no station has two readings |
| `Reports.StdevEntriesSound` | q2.py:263-266 | every collected deviation belongs to a station with at least two readings and is `pstdev` of them |
| `Reports.StdevEntriesComplete` | q2.py:263-266 | every station with at least two readings gets a deviation |
| `Reports.StdevEntriesDistinct` | q2.py:263-266 | no station gets two deviations |
| `Reports.StdevEntriesOf` | q2.py:262-266 | the collected deviations are exactly the `stdevs` dictionary |
| `Reports.GroupMembers` | q2.py:275-276 | a selected station is one of the collected stations |
| `Reports.StabilityGroupsKnown` | q2.py:279-282 | every station printed in either group has a record |
| `Reports.StdLinesForSpec` | q2.py:279-282 | one line per group member in order, each showing that station's deviation |
| `Reports.CollectStdevs` | q2.py:262-266 | the collection loop builds the deviations in station order |
| `Reports.StdLines` | q2.py:279-282 | the line loop builds those lines |
| `Reports.GroupLines` | q2.py:275-282 | a group's lines are those of its sorted members |
| `Reports.StabilityReportEmpty` | q2.py:268-270 | "Not enough data" is reported exactly when no station has two readings |
| `Reports.StabilityReportMostStable` | q2.py:272-280 | the "Most Stable" lines name, strictly ascending, exactly the stations within `eps` of the smallest deviation, each with its deviation |
| `Reports.StabilityReportMostVariable` | q2.py:273-282 | the "Most Variable" lines name, strictly ascending, exactly the stations within `eps` of the largest deviation, each with its deviation |
| `Reports.Stability` | q2.py:257-284 | `write_stability` produces that report |
| `Cipher.ShiftChar` | q1.py:25-28 | the result lies in the 26-letter block at `base` and is congruent to the character moved by `delta` |
| `Cipher.ShiftCharCompose` | q1.py:25-28 | shifting by `d` then `e` is shifting by `d + e` |
| `Cipher.ShiftCharInverse` | q1.py:25-28 | shifting by `-d` undoes shifting by `d` for a letter of the block |
| `Cipher.LettersAreLetters` | q1.py:39-54 | the two loops visit the 52 letters, each once |
| `Cipher.EncodingMap` | q1.py:36-54 | the map is defined on exactly the letters and keeps lower case lower and upper case upper |
| `Cipher.Invert` | q1.py:57 | the inverted dictionary's keys are the images, each mapped back to a letter that encodes to it |
| `Cipher.InvertSize` | q1.py:57-58 | the inverse is never larger, and is as large exactly when the map is one-to-one |
| `Cipher.InjectiveOnLetters` | q1.py:57-58 | a map on exactly the letters has 52 entries and is one-to-one exactly when it is one-to-one along the letter list the inversion walks |
| `Cipher.BuildCipherMaps` | q1.py:31-61 | the maps are built exactly when the encoding is one-to-one, and then the decoding map inverts it; otherwise the `ValueError` path is taken |
| `Cipher.HalvesInjectiveIff` | q1.py:39-54 | an alphabet whose two halves move by `lo` and `hi` is permuted exactly when `lo ≡ hi (mod 26)` |
| `Cipher.InjectiveByCase` | q1.py:39-54 | the map is one-to-one exactly when both alphabets' halves move consistently |
| `Cipher.CongruencesAtZero` | q1.py:42-53 | both consistency congruences hold exactly when both shifts are multiples of 26 |
| `Cipher.BuildableIff` | q1.py:31-61 | the maps can be built exactly when both shifts are multiples of 26 |
| `Cipher.BuildableIsIdentity` | q1.py:39-54 | whenever the maps can be built, every letter encrypts to itself |
| `Cipher.SmallShiftsRejected` | q1.py:58-59 | shifts 1 and 2 are rejected |
| `Cipher.Translate` | q1.py:64-77 | translation keeps the text's length |
| `Cipher.TranslateAt` | q1.py:64-77 | each output character is the mapped character, or the input character when it is unmapped |
| `Cipher.DecryptEncrypt` | q1.py:64-77 | with built maps, decrypting the encryption of any text gives that text back |
| `Cipher.TranslateText` | q1.py:66-69 | the character loop maps each character and keeps the rest |
| `Cipher.EncryptText` | q1.py:64-69 | encryption maps each letter through `enc` and keeps every other character |
| `Cipher.DecryptText` | q1.py:72-77 | decryption maps each character through `dec` and keeps every other character |
| `Cipher.EncryptDecryptVerify` | q1.py:94-104 | the run fails exactly when the maps cannot be built, and otherwise its verification always succeeds |

## Left out

- Files and CSV parsing are not modelled:
  - opening files, the `utf-8-sig` byte-order mark, and `csv.reader` tokenising (quotes,
    embedded newlines) are not modelled; a file is given as its records;
  - listing and sorting `*.csv` files is not modelled; the files are given in order;
  - the `FileNotFoundError` for a folder with no CSV file and for a missing folder is
    left out, because it is an environment check on the file system.
- The library parsers `float()`, `datetime.fromisoformat` and `datetime.strptime` are
  parameters. The model does not say which strings they accept; a parsed date's month is a
  `Month` (1..12), as `datetime.month` always is.
- `Values.ToFloat`:
  - `float()` can return NaN or infinity for text such as `+nan` or `inf`; the model's
    numbers are reals, so it does not capture those values;
  - it does not capture the `OverflowError` / `ValueError` that `int()` then raises on
    a month cell.
- Floating point is not modelled: temperatures, sums, averages, ranges and deviations
  are exact reals, with no rounding.
- `statistics.pstdev` is a parameter `pstdev: seq<real> -> real`; its computation is
  not modelled.
- `Text.Lower`: `str.lower()` is modelled on ASCII letters only; other characters are
  kept unchanged.
- Output text is not modelled:
  - the two-decimal formatting, the `°C` text and writing the output files are left
    out;
  - the report methods return the report's content as data (`SeasonAverage`,
    `RangeReport`, `StabilityReport`).
- Python dictionary insertion order is modelled by the `names` sequence kept next to
  the station map.
- `Extraction.StationCells`: the wide-layout loop skips the date-like column as it
  goes, instead of first building the `station_cols` list; the observations yielded are
  the same.
- `Cipher.ShiftChar` requires its 26-letter block to lie below the surrogate range.
  This holds for the only bases used, `a` and `A`.
- The interactive parts of `q1.py` are not modelled: `_prompt_int`, the file
  reading/writing of `encrypt_file`, `decrypt_file` and `verify_decryption`, its
  messages, and `main`. The encrypt–decrypt–verify run is modelled on strings by
  `Cipher.EncryptDecryptVerify`.
- `q3.py` is not part of this model.
