# FFWC water-level normaliser, modelled in Dafny

The Flask dashboard in `app.py` downloads a seven-day water-level forecast
from the Flood Forecasting and Warning Centre (FFWC) of Bangladesh. It then
reshapes that forecast before plotting it. This project models the reshaping
step:

- **The station directory** (`STATION_MAP`). A dict comprehension over the
  reference records. It maps a station id to a display name and a danger
  level, and keeps only the records that have both an `id` and a `name`.
- **The allow-list** (`ALLOWED_STATIONS`). The fifteen stations of the
  basin of interest.
- **The normalisation loops of `fetch_data`**. For each key of the decoded
  JSON body the loops do the following:
  - parse the key with `int()`;
  - look the id up in the directory;
  - check that the station's name is on the allow-list;
  - keep every date entry whose `MM-DD-YYYY` key is a real calendar date and
    whose value is an `int`, `float` or `bool`, re-keyed by the ISO date
    `YYYY-MM-DD`;
  - sort the kept readings by that date string with the stable `list.sort`;
  - store the series, with the station's danger level, in `all_data` under
    the station's name.
- **The date step**. `MM-DD-YYYY` is split on `-`, each piece goes through
  `int()`, then `datetime(yyyy, mm, dd)` and `isoformat()`.

Modules:

| file | module | models |
|---|---|---|
| `wrappers.dfy` | `Wrappers` | `Option`, which stands for a Python `None` or a raised exception |
| `json.dfy` | `Json` | decoded JSON values and `isinstance(v, (int, float))` |
| `text.dfy` | `Text` | `int()` on a str, `str.split`, `%0Nd` padding, and the ordering of Python strs |
| `dates.dfy` | `Dates` | `datetime` validity, the `MM-DD-YYYY` parse and `isoformat()` |
| `stations.dfy` | `Stations` | `STATION_MAP` and `ALLOWED_STATIONS` |
| `sequences.dfy` | `Sequences` | the keep-if-it-passes shape of the inner loop |
| `readings.dfy` | `Readings` | the inner loop, and the sort as an in-place stable insertion sort on an array |
| `ordered_map.dfy` | `OrderedMap` | the result dict: insertion-ordered, and assignment overwrites in place |
| `fetch.dfy` | `Fetch` | the outer loop, as a method proved equal to a specification function, and the properties of that function |

The loops of `fetch_data` are modelled as the method `Fetch.NormalizePayload`.
It has a `for` loop over the payload. For each resolved station it calls
`Fetch.CollectReadings`, which holds the inner `for` loop over that station's
entries and then sorts the kept readings in an array with
`Readings.SortInPlace`. Its postcondition ties the result to the function
`Fetch.Normalized`. The lemmas about that function state what the result
means: which names it holds, where each series comes from, and that each
series is sorted, a permutation of the kept readings, and stable.

`all_data` is a Python dict. A dict keeps its entries in insertion order,
and assigning to a key that is already present keeps that key's position. So
the model represents `all_data` as a list of (name, series) pairs with `Put`
and `Get`, not as a Dafny `map`. The order of the stations in the result is
therefore part of the model.

## Model

| member | source | states |
|---|---|---|
| Fetch.NormalizePayload | app.py:33-69 | The loops return exactly `Normalized(payload, directory)`: the stated meaning of `all_data` |
| Fetch.CollectReadings | app.py:50-63 | The inner loop and the sort leave exactly the kept readings of the entries, stably sorted by date (`SortByDate(Kept(entries))`) |
| Fetch.Resolve | app.py:35-48 | A payload key selects a station if and only if `int()` accepts it, the id is in the directory and the name is allowed; the station it selects is the directory's entry for that id |
| Fetch.StationSeries | app.py:64-67 | The value stored for a resolved station is its kept readings sorted by date, as a permutation of them, with the station's danger level; NormalizedLastWins and NormalizedSeries say which payload key it comes from |
| Fetch.Normalized | app.py:33-69 | The value of `all_data` after the loops; it has at most one entry per payload key. Its meaning is given by NormalizedKeys, NormalizedLastWins, NormalizedEntry and NormalizedSeries |
| Fetch.NormalizedKeys | app.py:34-64 | A name is in `all_data` if and only if some payload key resolves to a station of that name |
| Fetch.NormalizedAllowed | app.py:47-48 | Every station name in `all_data` is on the allow-list |
| Fetch.NormalizedDistinct | app.py:64 | `all_data` never holds two entries for one station name |
| Fetch.NormalizedSnocKeys | app.py:34-64 | One more payload entry adds at most the resolved name to the key set and keeps the names distinct |
| Fetch.NormalizedLastWins | app.py:44-67 | A station's entry is the series of the last payload key that resolves to its name, with its danger level |
| Fetch.NormalizedEntry | app.py:50-67 | Every entry of `all_data` is the series built from some payload key that resolves to its name |
| Fetch.NormalizedSeries | app.py:50-67 | Every series is sorted by date, is a permutation of the kept readings of a key that resolves to its name, keeps the input order within each date, and carries that station's danger level |
| Fetch.EmptyStationListed | app.py:50-67 | An allowed station all of whose entries are rejected is still in `all_data`, with an empty series and its danger level |
| Fetch.UnresolvedKeyIgnored | app.py:35-48 | A key that `int()` refuses, or whose id is unknown or whose station is not allowed, changes nothing wherever it stands in the payload |
| Readings.KeepReading | app.py:52-61 | An entry yields a reading if and only if its key parses as a date and its value is an int, float or bool; the reading keeps the value and carries the ISO form of the parsed date |
| Readings.Kept | app.py:50-61 | `station_data` after the inner loop holds no more readings than the entries; which readings it holds is given by KeptMembers and KeptAppend |
| Readings.KeptAppend | app.py:51-61 | Keeping entries distributes over concatenation: each entry is judged on its own |
| Readings.RejectedEntryIgnored | app.py:53-61 | An entry with a bad date or a non-numeric value leaves the other readings as they are |
| Readings.KeptMembers | app.py:51-61 | A reading is kept if and only if some entry yields it |
| Readings.KeptNone | app.py:50-61 | A station whose entries are all rejected has no readings |
| Readings.KeptDate | app.py:54-59 | Every kept reading's date is the `isoformat()` of a valid date |
| Readings.SortByDate | app.py:63 | The sort specification keeps the length; SortByDateSorted, SortByDatePermutes and SortByDateStable state that it is a stable sort by date |
| Readings.SortInPlace | app.py:63 | The in-place sort of the array leaves it equal to `SortByDate` of its old contents |
| Readings.InsertLast | app.py:63 | One pass of the in-place insertion sort leaves the whole array equal to the stable insertion of `a[i]` into the sorted prefix, followed by the untouched rest |
| Readings.SortStep | app.py:63 | One pass extends the sorted prefix by the next input reading and leaves the rest of the input as it was |
| Readings.ShiftedIsInsert | app.py:63 | The array a pass leaves behind is the stable insertion of the moved reading, followed by the rest |
| Readings.InsertAt | app.py:63 | Inserting before every later-dated reading, and after the rest, is `Insert` |
| Readings.Insert | app.py:63 | One insertion step adds one reading |
| Readings.InsertPermutes | app.py:63 | Insertion adds exactly the one reading |
| Readings.InsertSorted | app.py:63 | Insertion into a sorted list gives a sorted list |
| Readings.InsertBounded | app.py:63 | Insertion brings in no reading dated later than a bound that all the inputs keep to |
| Readings.SortedSnoc | app.py:63 | Appending a reading dated no earlier than all the others keeps a list sorted |
| Readings.InsertStable | app.py:63 | Insertion keeps the order of the readings of each date, with the new reading last |
| Readings.SortByDateSorted | app.py:63 | The sort result is in ascending order of the date string |
| Readings.SortByDatePermutes | app.py:63 | The sort neither drops nor duplicates a reading |
| Readings.SortByDateStable | app.py:63 | The sort is stable: the readings of any one date keep their input order |
| Readings.SortedChronologically | app.py:54-63 | After the sort, the dates read back from the strings are in chronological order |
| Sequences.FilterMapAppend | app.py:50-61 | The keep-if-it-passes loop distributes over concatenation |
| Sequences.FilterMapMembers | app.py:50-61 | A value is kept if and only if some item yields it |
| Sequences.FilterMapNone | app.py:50-61 | If no item passes, nothing is kept |
| Dates.ParseMdy | app.py:53-54 | A parsed date is always one that `datetime()` accepts, and a key that does not split into exactly three pieces on `-` is rejected |
| Dates.ParseMdyOfPieces | app.py:53-54 | Any key of three `-`-free pieces is read piece by piece with `int()` as month, day and year, and gives that date exactly when `datetime()` accepts it; so `7-4-2024` and `+07-04-2024` both give 4 July 2024, and a piece `int()` refuses rejects the key |
| Dates.ParseMdyOfKey | app.py:53-54 | The key `MM-DD-YYYY` of a date parses back to that date exactly when `datetime()` accepts it, and is rejected otherwise |
| Dates.IsoDate | app.py:53-54 | The ISO string exists if and only if the key parses, has the shape `YYYY-MM-DD`, and reads back as the parsed date |
| Dates.IsoRoundTrip | app.py:54 | `isoformat()` is `YYYY-MM-DD`, zero-padded, and loses nothing of the date |
| Dates.IsoOrderIsChronological | app.py:54-63 | Comparing two `isoformat()` strings as Python strs orders the dates chronologically, in both directions |
| Dates.CalendarBounds | app.py:54 | The dates `datetime()` accepts (`IsValid`): 29 February exactly in leap years from 1 to 9999, no day past the end of its month, years 1 to 9999 only |
| Dates.IsoOrderByFields | app.py:63 | Two `Y-M-D` strings whose fields have equal widths compare as strs field by field |
| Dates.DaysInMonth | app.py:54 | Every month has 28 to 31 days |
| Dates.IsoFormat | app.py:54 | `isoformat()` is always ten characters |
| Stations.InfoOf | app.py:15-18 | The directory value has the record's name; its danger level is `None` exactly when the key is absent or its value is `None`, and otherwise is that value |
| Stations.StationMap | app.py:14-20 | Every directory entry is the value of a record with both `id` and `name` and that id |
| Stations.StationMapDomain | app.py:14-20 | An id is in the directory if and only if some record with both `id` and `name` has that id |
| Stations.StationMapLastWins | app.py:14-20 | When several records share an id, the directory holds the value of the last of them |
| Stations.AllowedStationsExact | app.py:22-26 | `ALLOWED_STATIONS` holds fifteen names, and the test at app.py:47 is exact string equality |
| Json.IsNumber | app.py:55 | `isinstance(v, (int, float))` accepts ints, floats and bools, and rejects strings, `None`, lists and objects |
| Text.ParseInt | app.py:36 | `int()` on a str succeeds if and only if the str is an optional sign and 1 to 4300 ASCII digits; the result is the decimal value of the digits, negated after a `-` |
| Text.ParseIntPad | app.py:53 | `int()` reads a zero-padded number back, leading zeros included |
| Text.PadValue | app.py:54 | Zero padding loses nothing: the digits read back as the number |
| Text.PadInjective | app.py:54 | Distinct numbers of one width pad to distinct strings |
| Text.PadLt | app.py:54 | Zero-padded numbers of one width compare as strings as they do as numbers |
| Text.Pad | app.py:54 | `%0Nd` of a number below `10^N` is `N` ASCII digits |
| Text.Split | app.py:53 | `str.split` always returns at least one piece |
| Text.SplitPiecesAvoidSep | app.py:53 | No piece of a split contains the separator |
| Text.JoinSplit | app.py:53 | Joining the pieces of a split gives back the string |
| Text.SplitJoin | app.py:53 | Splitting a join of separator-free pieces gives back the pieces |
| Text.SplitAtSep | app.py:53 | Splitting distributes over one occurrence of the separator |
| Text.SplitWithoutSep | app.py:53 | A string without the separator splits into itself alone |
| Text.StrLt | app.py:63 | Python's str `<` never holds between equal strs, and a proper prefix is smaller; its order properties are StrLtIrreflexive, StrLtTransitive, StrLtTotal and StrLtAsymmetric |
| Text.StrLtIrreflexive | app.py:63 | Python's str `<` is irreflexive |
| Text.StrLtTransitive | app.py:63 | Python's str `<` is transitive |
| Text.StrLtTotal | app.py:63 | Any two strs are equal or ordered one way |
| Text.StrLtAsymmetric | app.py:63 | Python's str `<` is asymmetric |
| Text.StrLeTransitive | app.py:63 | "Not greater than" is transitive, so the order `list.sort` keeps is a total preorder |
| Text.StrLtConcat | app.py:63 | Comparing concatenations whose first parts have the same length compares the first parts, then the second |
| OrderedMap.Get | app.py:64 | A lookup finds a value if and only if the key is present, and the value found is that of the first entry with the key |
| OrderedMap.GetDistinct | app.py:64 | With one entry per key, a lookup finds exactly the value of that key's entry |
| OrderedMap.Put | app.py:64 | After `d[k] = v`, `k` maps to `v` and every other key keeps its value |
| OrderedMap.PutKeys | app.py:64 | Assignment adds `k` to the keys, and grows the dict by one entry exactly when `k` is new |
| OrderedMap.PutKeepsOrder | app.py:64 | Existing entries keep their positions, and a new key is appended at the end |
| OrderedMap.PutDistinct | app.py:64 | Assignment never creates a second entry for a key |

## Left out

- The HTTP request, `raise_for_status()` and the JSON decoding (app.py:29-31). The model starts from the decoded body, given as the list of its (key, entries) pairs in order. A JSON object cannot repeat a key after decoding, but the model allows repeated keys, which is more general.
- A payload value that is not a JSON object. If its key resolves to an allowed station, `date_dict.items()` raises outside any `try` and `fetch_data` fails. If the key does not resolve, one of the `continue`s at app.py:38, 42 or 48 skips the value before it is used, so Python ignores it silently. The model's payload type holds only objects, so it expresses neither case.
- Fetch.UnresolvedKeyIgnored: stated only for unresolved keys whose value is an object. That a non-object value under such a key is skipped too is not modelled.
- The Flask routes, the pandas frames and the Plotly figures (app.py:71-152). They only display the normalised data.
- The contents of `stations.py`, which are not part of this model. The reference records are an input of `Stations.StationMap`. Their ids are taken to be ints. Records whose id is of another type are not modelled. A float id such as `1.0` or a bool id such as `True` compares equal to an int and would be found by the lookup at app.py:40. A str id would never be found.
- Stations.InfoOf: `float()` of the `dangerlevel` value is not modelled. The value is passed through as a number, and the `ValueError` that `float()` raises on a non-numeric string is not modelled. The code lets that error escape at import time, so the program does not start. So a non-numeric `dangerlevel` never becomes `None`.
- Text.ParseInt: `int()` also accepts surrounding whitespace, underscores between digits and non-ASCII decimal digits. The model accepts only an optional sign followed by ASCII digits, so keys using those forms are treated as rejected. CPython's default limit of 4300 digits for `int()` is modelled. It applies from CPython 3.11 and in the 3.7.14, 3.8.14, 3.9.14 and 3.10.7 security releases. An interpreter without the limit, or one configured with a different limit (`PYTHONINTMAXSTRDIGITS`, `-X int_max_str_digits`, `sys.set_int_max_str_digits`), accepts other digit runs.
- Json.JVal: floats are exact reals. NaN and the infinities are not modelled. Neither is the distinction between `int` and `float`, beyond the constructor.
- Caching of the upstream response and per-river grouping are not in `app.py`, so they are not modelled.
- The timsort algorithm itself is not modelled. `list.sort` is modelled by a stable insertion sort. Its result is the same, because any stable sort by one key gives one and the same order.
