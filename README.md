# Berlin travel guide: a verified model of its data logic

The Berlin travel guide is a single Streamlit page (`streamlit_app.py`). Most
of it is UI, HTTP and map drawing. A few pieces of it are deterministic data
logic, and this project models those pieces in Dafny and proves what they
promise:

- **The place fetch** (`get_osm_places`). An ordered, first-match-wins
  cuisine classifier works on a lower-cased cuisine tag. Restaurants get
  one of five Korean labels (한식, 양식, 아시안, 카페, 일반/기타). Hotels and
  sights get 기타. A cuisine selection can restrict restaurants; it holds a
  "전체" ("all") sentinel that switches it off. A loop turns the elements of
  a place-service response into place records (module `Places`, file
  `places.dfy`). The loop is a method. Its specification is a function
  over the input elements.
- **District extraction from the crime table**
  (`load_and_process_crime_data`). Headers are normalised: line breaks are
  removed and whitespace is trimmed. The total column is chosen, and the
  district rows are picked out: their region code ends in "0000". Each row
  is cut down to a trimmed district name and the total (module `Crime`).
- **The session store** (`st.session_state`). It holds reviews per place,
  the recommendation board (newest first), the chat transcript and the map
  position set by a search. It is modelled as a class whose methods update
  its fields (module `Session`).
- **The place list of the review tab**. This is the names of all course
  stops, with the "N. " numbering cut off, without repeats, in Python's
  string order (module `Courses`).

Shared helpers live in `options.dfy`, `seqs.dfy` and `text.dfy`:
- `Option`;
- filtering and the positions it keeps, first index, `del xs[i]` and flattening;
- Python's `in`, `endswith`, `lower`, `strip`, `replace('\n', '')` and `split(sep)[1]` on strings.

## Model

| member | source | states |
|---|---|---|
| Places.Classify | streamlit_app.py:84-89 | every cuisine tag of a restaurant gets exactly one of the five restaurant labels |
| Places.FirstMatchWins | streamlit_app.py:85-88 | in an ordered rule list, the first rule whose keywords occur decides the label, whatever later rules match |
| Places.FirstMatchFallback | streamlit_app.py:89 | when no rule matches, the fallback label is given |
| Places.ClassifyIsFirstMatch | streamlit_app.py:84-89 | the if/elif chain equals the ordered rule list korean → Western → Asian → Cafe, falling back to 일반/기타 |
| Places.KoreanWins | streamlit_app.py:85 | a tag holding "korean" is 한식 even when it also holds "pizza", "sushi" or "cafe" |
| Places.WesternBeforeAsianAndCafe | streamlit_app.py:86-88 | a tag with a Western keyword and no "korean" is 양식, whatever Asian or cafe keyword it also holds |
| Places.ClassifyExample | streamlit_app.py:86 | "vegan, italian, pizza" is 양식 |
| Places.DefaultIsGeneral | streamlit_app.py:85-89 | the default tag "general" matches no keyword and is classified 일반/기타 |
| Places.DefaultElementIsGeneral | streamlit_app.py:80-89 | a named restaurant without a cuisine tag gets the raw cuisine "general" and the label 일반/기타 |
| Places.KoreanTagIsKorean | streamlit_app.py:80-85 | a named restaurant whose cuisine tag holds "korean" in any mix of capitals is labelled 한식, since the tag is lower-cased first |
| Places.Collect | streamlit_app.py:77-102 | the loop never yields more records than there are elements |
| Places.OsmPlaces | streamlit_app.py:53-104 | an unknown category or a failed request gives []; the result never has more records than the response has elements |
| Places.GetOsmPlaces | streamlit_app.py:53-104 | the loop over the response returns exactly the reference result `OsmPlaces`: [] for an unknown category or a failed request, else one record per kept element, or [] once a kept element lacks coordinates |
| Places.CollectStaysFailed | streamlit_app.py:94-104 | once building a record raised, the result of the whole loop is the failure, whatever elements follow |
| Places.CollectIsFilterMap | streamlit_app.py:77-102 | the loop fails exactly when some kept element lacks coordinates; otherwise it yields the records of the filtered elements, in input order |
| Places.OsmPlacesSelection | streamlit_app.py:77-102 | the result is never longer than the input; without a broken element it has one record per kept element, taken at strictly increasing input positions; with one it is [] |
| Places.OsmPlacesRecords | streamlit_app.py:79-101 | every record carries the requested category. A restaurant record carries one of the five labels, and one inside an active selection. A hotel or sight record carries 기타. Every name comes from a named element of the response |
| Places.OsmPlacesComplete | streamlit_app.py:78-101 | every named element that passes the selection has its record in the result (when no kept element lacks coordinates) |
| Places.CollectSameKept | streamlit_app.py:91-92 | two selections that keep the same elements give the same loop result |
| Places.SelectionIgnoredOutsideRestaurants | streamlit_app.py:84-92 | for hotels and sights the cuisine selection makes no difference |
| Places.InactiveSelectionKeepsAll | streamlit_app.py:91 | an empty or missing selection, or one holding "전체", drops no restaurant: the result equals the unfiltered one |
| Text.ContainsSplits | streamlit_app.py:85 | `needle in hay` holds exactly when `hay` is some text, then `needle`, then some text |
| Text.ContainsAnySplits | streamlit_app.py:86-88 | `any(x in cuisine for x in keys)` holds exactly when the tag can be cut around one of the keys |
| Text.EndsWithSplits | streamlit_app.py:135 | `s.endswith(suffix)` holds exactly when `s` is some text followed by `suffix` |
| Text.Lower | streamlit_app.py:80 | lower-casing keeps the length |
| Text.LowerKeepsMatch | streamlit_app.py:80 | a case-blind occurrence of a keyword becomes a plain occurrence after lower-casing |
| Text.Strip | streamlit_app.py:146 | the stripped string neither starts nor ends with whitespace, and only whitespace was cut from either end |
| Text.StripIdempotent | streamlit_app.py:146 | stripping twice is stripping once |
| Text.RemoveNewlines | streamlit_app.py:122 | the result holds no line break and keeps every other character |
| Text.RemoveNewlinesKeepsOrder | streamlit_app.py:122 | the other characters are kept in order and each once: the k-th character of the result is the one at the k-th position of the input that holds no line break |
| Text.RemoveNewlinesNoop | streamlit_app.py:122 | a string without line breaks is left unchanged |
| Text.RemoveNewlinesJoins | streamlit_app.py:122 | a header broken by one line break reads as its two lines joined |
| Text.SecondPiece | streamlit_app.py:396 | `split(sep)[1]` is the piece right after the first `sep`, up to the next `sep` or the end, and holds no `sep` |
| Seqs.FirstIndex | streamlit_app.py:125-129 | the first element that passes the test, or none exactly when no element does |
| Seqs.RemoveAt | streamlit_app.py:419 | `del xs[i]` removes exactly the element at `i` (as a multiset) and keeps the others in order |
| Seqs.FilterAtPositions | streamlit_app.py:135 | filtering keeps input order: the k-th element kept is the element at the k-th passing position |
| Crime.NormalizeHeaderClean | streamlit_app.py:122 | a normalised header holds no line break and has no surrounding whitespace |
| Crime.HeadersNormalized | streamlit_app.py:122 | the same, for every header of the table |
| Crime.NormalizeHeaderIdempotent | streamlit_app.py:122 | normalising a normalised header changes nothing |
| Crime.CleanHeaderKept | streamlit_app.py:122 | a header with no line break and no surrounding whitespace comes through normalisation unchanged |
| Crime.BrokenHeaderJoined | streamlit_app.py:122 | a header broken over two lines normalises to the two lines joined |
| Crime.TotalColumn | streamlit_app.py:125-129 | the chosen total column is the first header holding both "Straftaten" and "insgesamt"; there is none exactly when no header does |
| Crime.ColumnIndex | streamlit_app.py:135-148 | a named column is found exactly when the header row holds that name |
| Crime.Renamed | streamlit_app.py:138-141 | the name column is called `District`, every column named like the total `Total_Crime`, every other column keeps its name |
| Crime.DistrictFoundAfterRename | streamlit_app.py:138-146 | after the rename a `District` column exists exactly when the name column or a column already called `District` does (the total never bears that name) |
| Crime.FindColumns | streamlit_app.py:122-146 | the lookup fails exactly when no normalised header names the total, the code column is missing, or there is neither a name column nor a `District` column; otherwise the found columns are a total header, the code header and the name (or `District`) column |
| Crime.LoadDistrictStats | streamlit_app.py:107-152 | a failed column lookup gives the empty table; the result never has more rows than the table |
| Crime.Project | streamlit_app.py:146-148 | an output row holds the total cell as it stands and the district cell trimmed (present exactly when the cell is, cut only of edge whitespace) |
| Crime.NoTotalColumnIsEmpty | streamlit_app.py:125-128 | with no total header the result is empty |
| Crime.TotalIsFirstMatchingHeader | streamlit_app.py:125-129 | the loader's total column is the first normalised header naming the total |
| Crime.StripCell | streamlit_app.py:146 | a trimmed cell stays present or missing as it was; a present one is its input with only whitespace cut from either end, and is already trimmed |
| Crime.DistrictStats | streamlit_app.py:135-148 | the result never has more rows than the table |
| Crime.StatsAtPositions | streamlit_app.py:135-148 | row selection on the rows alone: one output row per row with a district code, in table order, each the projection of that row |
| Crime.DistrictRowsSelected | streamlit_app.py:135-148 | the loader yields one row per table row whose code is present and ends in "0000", at strictly increasing table positions, each cut down to its trimmed name and its total (so a row with a missing code never contributes a row) |
| Crime.DistrictRowMembership | streamlit_app.py:135 | the projection of a row with a district code is in the result, and every output row is the projection of such a row |
| Crime.DistrictNamesTrimmed | streamlit_app.py:146-148 | every district name in the result is trimmed |
| Crime.ThreeColumns | streamlit_app.py:122-146 | on a three-column header row normalising to the code header, the name header and a total header, the columns are found at 0, 1 and 2 |
| Crime.ExampleTotalHeaderJoined | streamlit_app.py:122 | the header "Straftaten \n-insgesamt-" normalises to "Straftaten -insgesamt-" |
| Crime.JoinedTotalHeaderNamesTotal | streamlit_app.py:125 | "Straftaten -insgesamt-" names the total |
| Crime.ExampleColumns | streamlit_app.py:122-146 | on the header row (code header, name header, "Straftaten \n-insgesamt-") the lookup finds the columns at 0, 1 and 2 |
| Crime.ExampleRowsSelected | streamlit_app.py:135-148 | with those columns, rows "010000 / ␣Mitte␣ / 120" and "011001 / Tiergarten / 40" give just ("Mitte", "120") |
| Crime.TwoRowExample | streamlit_app.py:107-152 | the whole loader on that header row and those two rows gives just ("Mitte", "120"): the broken header is normalised, the columns are found, the sub-district row is dropped and the name trimmed |
| Session.WithPlace | streamlit_app.py:404-405 | selecting a place gives it an empty review list when it has none, and changes nothing else |
| Session.WithReview | streamlit_app.py:410 | a review goes to the end of that place's list; other places' lists are unchanged |
| Session.WithoutReview | streamlit_app.py:419 | deleting review `i` removes exactly that entry of that place's list, keeps the rest in order, and leaves other places unchanged |
| Session.DeleteUndoesPost | streamlit_app.py:410-419 | deleting the review just posted gives back the reviews as they were |
| Session.PlacesIndependent | streamlit_app.py:410-419 | posting at one place and deleting at another commute |
| Session.DeleteUndoesRecommend | streamlit_app.py:430-437 | deleting entry 0 right after a recommendation was posted gives back the board as it was |
| Session.WithTurn | streamlit_app.py:447-452 | a chat turn appends the question and then the answer, leaving the earlier transcript untouched |
| Session.TurnKeepsAlternating | streamlit_app.py:447-452 | a transcript alternating question/answer stays so after a turn |
| Session.SessionState.constructor | streamlit_app.py:235-239 | a new session has no reviews, no recommendations, no chat, the map on (52.52, 13.405) and no marker |
| Session.SessionState.SelectPlace | streamlit_app.py:403-405 | a non-empty choice applies `WithPlace`; an empty one changes nothing |
| Session.SessionState.AddReview | streamlit_app.py:410 | the reviews become `WithReview` of the old ones |
| Session.SessionState.DeleteReview | streamlit_app.py:415-419 | for an index the page enumerates, the reviews become `WithoutReview` of the old ones |
| Session.SessionState.AddRecommendation | streamlit_app.py:430 | the new entry is at index 0 and the old entries follow, shifted by one |
| Session.SessionState.DeleteRecommendation | streamlit_app.py:433-437 | for an enumerated index, the board loses exactly that entry |
| Session.SessionState.ChatTurn | streamlit_app.py:446-452 | a non-empty prompt appends the user message and then the reply; the transcript keeps alternating |
| Session.SessionState.ApplySearch | streamlit_app.py:258-262 | a search that found non-zero coordinates moves the map centre there and sets the marker; otherwise nothing changes |
| Courses.StopLabel | streamlit_app.py:396 | a name without ". " is kept whole; otherwise the label is the piece after the first ". " and holds no ". " |
| Courses.NumberedStop | streamlit_app.py:396 | "N. name", with no full stop in N and no ". " in name, is listed as "name" |
| Courses.LessIsLexicographic | streamlit_app.py:396 | `a < b` on strings holds exactly when `a` is a proper prefix of `b`, or `a` holds the smaller code point where they first differ |
| Courses.LessIrreflexive | streamlit_app.py:396 | Python's string order is irreflexive |
| Courses.LessTransitive | streamlit_app.py:396 | Python's string order is transitive |
| Courses.LessTotal | streamlit_app.py:396 | any two different strings are ordered one way or the other |
| Courses.Insert | streamlit_app.py:396 | inserting into a strictly sorted list keeps it strictly sorted and adds exactly the new string |
| Courses.SortedDistinct | streamlit_app.py:396 | `sorted(set(xs))` is strictly sorted and holds exactly the strings of `xs` |
| Courses.SortedListIsUnique | streamlit_app.py:396 | two strictly sorted lists with the same strings are equal |
| Courses.StopLabels | streamlit_app.py:396 | the labels are exactly those of the stops of all courses |
| Courses.PlaceNames | streamlit_app.py:396 | the place list is strictly sorted, has no repeats, and holds exactly the stop labels |
| Courses.PlaceNamesIgnoreOrder | streamlit_app.py:396 | the place list depends only on which stop names occur, not on the order of courses or stops |

## Left out

- The network calls are not modelled. These are the place service (`requests.get` at 74-75), the exchange-rate and weather services, geocoding and the chat backend. Their outcomes are parameters:
  - `response` (None when the request or the JSON decoding failed);
  - the geocoder's `found`;
  - the chat `reply`.
- The query string for the place service (65-71) is not modelled. It is formatting of float coordinates that only the network call reads.
- Crime.FindColumns: the `dtype={'LOR-Schlüssel (Bezirksregion)': str}` of `read_csv` (114) is keyed on the raw header, and headers are only normalised later (122). A code header that matches only after normalisation, such as "LOR-Schlüssel (Bezirksregion)\n", therefore gets no text type: codes like "010000" and "011001" are read as integers, `.str.endswith` (135) raises, and the loader returns an empty table (150-152). The model treats every cell as text and finds the column after normalisation, so on that table it returns the district row ("Mitte", "120").
- `pd.read_csv` and pandas' dtype inference (114) are not modelled otherwise. The crime table starts as a header row and rows of optional text cells; a missing cell (NaN) is None.
- Crime.FindColumns: duplicate column names, after normalisation or after the rename, are not modelled. For example, raw headers "X" and "X\n" both become "X". When the code, name or `District` column is duplicated, `df[...]` returns a frame, `.str` raises and the loader returns an empty table; the model's ColumnIndex takes the first match instead, and Renamed renames each copy. Non-text values in the name column are not modelled either.
- Memoisation (`st.cache_data`), reruns, widgets, layout and the map drawing are UI and framework behaviour, and are not modelled.
- Coordinates are carried as opaque `real`s and never computed with. Temperatures and exchange rates are not modelled.
- The contents of the static course table (177-226) are not modelled. The place list is proved for any list of courses of stop names.
- Text.Lower: lower-cases only the ASCII capitals A-Z. Python's `str.lower()` also maps non-ASCII capitals, and two of them onto letters of the ASCII keywords: U+212A KELVIN SIGN becomes "k" and U+0130 (capital I with dot) becomes "i" followed by U+0307. So the tag "\u212Aorean" is 한식 in the program but 일반/기타 in the model, and "thaİ" is 아시안 in the program but 일반/기타 in the model.
- Courses.StopLabel: follows the code, so `split(". ")[1]` keeps only the piece up to a second ". " (e.g. "1. A. B" is listed as "A"). No stop of the shipped course table has a second ". ".
- Places.GetOsmPlaces: a kept element without `lat` or `lon` raises KeyError in the code. The except clause turns that into [], and the model does the same, rather than skipping the element.
- Session.SessionState.DeleteReview: the index must be in range, since the page only offers the indices it enumerates. The same holds for Session.SessionState.DeleteRecommendation; neither is a silent no-op on a bad index.
- Session.SessionState.ApplySearch: Python's truthiness of a float is modelled as "not 0.0". NaN is not modelled.
