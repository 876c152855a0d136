# Paris 2024 Olympics dashboard: the shared data layer, in Dafny

This project models `utils.py`, the data-preparation and filtering layer that
every page of a Streamlit dashboard over the Paris 2024 Olympics data shares:

- **Age derivation** (`calculate_age`): completed years between a birth date and
  today; a missing birth date gives a missing age (module `Ages`).
- **Name resolution** (`get_continent`, `get_iso3_code`): country name to
  continent through three library lookups with the sentinel `"Other"`, and
  country name to ISO3 code through fuzzy search, then a fixed table of
  Olympic-specific names, then `None` (module `Geography`).
- **Load-time enrichment** (`load_data`): the disciplines text loses its list
  brackets and quotes, each athlete gets `Age` and `Continent`, the medallist
  table drops its own `gender` and is left-merged with the athletes' `code`,
  `Age` and `gender` on `code_athlete == code`, then gets a `Continent` from
  its own `country` (modules `Tables`, `Loader`).
- **Filter resolution** (`create_sidebar` without its widgets): sorted distinct
  option lists for continent, country (cascading: only athletes on the
  resolved continents), sport and gender; an empty pick falls back to the
  whole option list; the age range defaults to the observed minimum and
  maximum (modules `Ordering`, `Sidebar`).
- **Team-medal deduplication** (`count_medals`): one row per
  (country, discipline, event, medal type), the first one, in table order,
  checked against an independent reference definition (module `Medals`).

Tables are sequences of row datatypes. `date.today()` and the pycountry
lookups are parameters (`today`, `Geography.Lookups`). `load_data` and
`create_sidebar` are methods, since the source builds their results step by
step. The other operations are functions, with lemmas that state their
properties.

Behaviour of the code worth noting:
- The ISO3 manual table is consulted only when fuzzy search finds nothing.
  So "Great Britain" gives `"GBR"` only on a fuzzy-search miss.
- A resolved dimension can still be empty: if no athlete has a known gender,
  the gender default is the empty option list.
- `create_sidebar` fails when no athlete has an age, because
  `int(NaN)` raises. The model returns `Err(NoKnownAge)` in that case.

## Model

| member | source | states |
|---|---|---|
| `Ages.CalculateAge` | utils.py:18-21 | The age is absent exactly when the birth date is. Otherwise it counts the birthdays passed: the last one falls on or before today, and the next one falls after today. |
| `Ages.AgeIsTheLastBirthdayPassed` | utils.py:20-21 | Only one birthday count has that property, so the completed-years age is unique. |
| `Ages.AgeNonNegative` | utils.py:20-21 | Nobody born on or before today has a negative age. |
| `Ages.AgeOnBirthday` | utils.py:21 | On the k-th birthday itself the age is already k, so the month/day comparison is strict. |
| `Ages.AgeDayBeforeBirthday` | utils.py:21 | The day before the k-th birthday, in the same month (so the birthday is not on the 1st), the age is still k - 1. |
| `Ages.AgeExample` | utils.py:18-21 | Born 2000-06-15: age 23 on 2024-06-14 and 24 on 2024-06-15. |
| `Geography.GetContinent` | utils.py:10-16 | The answer is `"Other"` when the name-to-alpha-2 lookup, the alpha-2-to-continent-code lookup or the code-to-name lookup fails. |
| `Geography.ContinentIsKnownOrOther` | utils.py:10-16 | The continent is either `"Other"` or a name the continent table gives for some code. |
| `Geography.ContinentWhenResolved` | utils.py:12-14 | When all three lookups succeed, the result is the continent name they lead to. |
| `Geography.ManualLookup` | utils.py:106-115 | A name outside the manual table gives `None`. A code from the table is one of GBR, KOR, TWN, HKG, XKX. |
| `Geography.GetIso3` | utils.py:100-115 | A fuzzy-search hit gives the best match's alpha-3 code. A miss gives the manual table's answer. |
| `Geography.Iso3Fallbacks` | utils.py:105-115 | After a fuzzy miss: Great Britain→GBR, Korea→KOR, Chinese Taipei→TWN, "Hong Kong, China"→HKG, Kosovo→XKX, Refugee Olympic Team→None, any other name→None. |
| `Geography.Iso3Origin` | utils.py:100-115 | Every code returned is either the best fuzzy match or a manual-table entry for that name. |
| `Loader.StripRemovesListSyntax` | utils.py:36 | No `[`, `]` or `'` is left in the result, and every remaining character comes from the input. |
| `Loader.StripKeepsOtherCharacters` | utils.py:36 | Every other character keeps its number of occurrences. |
| `Loader.StripKeepsCleanText` | utils.py:36 | Text with none of the three characters comes through unchanged. |
| `Loader.StripIdempotent` | utils.py:36 | Cleaning twice gives the same text as cleaning once. |
| `Loader.StripAppend` | utils.py:36 | Cleaning distributes over concatenation, so the kept characters stay in order. |
| `Loader.CleanDisciplines` | utils.py:36 | A missing value becomes `"nan"` (via `astype(str)`). A present value is cleaned. |
| `Loader.CleanSingleDiscipline` | utils.py:35-36 | A one-element list text such as `"['Swimming']"` becomes the bare discipline name. |
| `Loader.MatchesSpec` | utils.py:49-54 | The athletes `Matches` returns are exactly the table's athletes whose `code` equals the given code. |
| `Loader.AthleteByCodeSpec` | utils.py:49-54 | The lookup `AthleteByCode` is absent exactly when no athlete has the code. Otherwise it is an athlete of the table with that code. |
| `Loader.NoMatches` | utils.py:49-54 | A code that no athlete has matches nothing. |
| `Loader.MatchesAtMostOne` | utils.py:49-54 | With unique athlete codes, a `code_athlete` matches at most one athlete. |
| `Loader.JoinRowShape` | utils.py:47-57 | Each medallist gives at least one merged row. Every such row carries that medallist's country, discipline, event, medal type and code, and the continent of its own country. |
| `Loader.JoinRowUnique` | utils.py:47-57 | With unique codes, a medallist gives exactly one row. Its `code`, `Age` and `gender` come from the athlete with its code, or are all absent when there is none. |
| `Loader.JoinRowGeneral` | utils.py:47-57 | For any athlete table, a medallist gives one merged row per athlete with its code, or one row when none has it. Every row carries its medal and its own-country continent. Its `code`, `Age` and `gender` come from an athlete with its `code_athlete`, or are all absent when no athlete has that code. |
| `Loader.JoinPrefix` | utils.py:49-54 | Merging a prefix of the medallist table gives a prefix of the merge, so row order is kept. |
| `Loader.JoinLength` | utils.py:49-54 | The left merge is never shorter than the medallist table. |
| `Loader.JoinSnoc` | utils.py:49-54 | Merging one more medallist appends exactly that medallist's merged rows after the earlier ones. |
| `Loader.JoinBlock` | utils.py:47-57 | Medallist i's rows form a non-empty block inside the merge. The block is exactly medallist i's own merged rows, and each of its rows carries medallist i's medal. |
| `Loader.JoinKeepsEveryRow` | utils.py:47-57 | The merge splits into consecutive non-empty blocks, one per medallist, in medallist order. Block i is exactly medallist i's merged rows, so no medallist row is dropped. |
| `Loader.RowForRowAppend` | utils.py:47-57 | A row-for-row merge of a table stays row for row when one medallist and its completed row are appended. |
| `Loader.JoinIsRowForRow` | utils.py:47-57 | With unique athlete codes, merged row i is medallist i. Its `code`, `Age` and `gender` come from the athlete whose code is its `code_athlete`, or are absent when there is none. Its continent is computed from the medallist's own country. |
| `Loader.JoinIgnoresMedallistGender` | utils.py:46-54 | Medallist tables that differ only in their own gender column merge to the same result, so that column is never kept. |
| `Loader.EnrichAthletes` | utils.py:34-43 | Builds one enriched row per athlete, in order: cleaned disciplines, `Age` from the birth date and `Continent` from the country. |
| `Loader.FindMatches` | utils.py:49-54 | The scan over the athlete table finds exactly `Matches`: the athletes with the given code, in table order. |
| `Loader.MergeMedallists` | utils.py:47-57 | The row-by-row merge loop builds exactly the left join `LeftJoin`. |
| `Loader.LoadData` | utils.py:25-59 | The athlete table keeps its length and its identity columns. Each row gets cleaned disciplines, the derived age and the derived continent. The medallist table is the left join. |
| `Ordering.SortedDistinct` | utils.py:67 | `sorted(column.unique())` is strictly ascending in Python's string order (so it has no duplicates) and holds exactly the column's values. |
| `Ordering.SortedIsUnique` | utils.py:67 | Two strictly ascending lists with the same elements are equal, so the option lists are fully determined. |
| `Sidebar.CountriesIn` | utils.py:72 | Lists the countries of exactly those athletes whose continent is among the given ones. |
| `Sidebar.KnownGenders` | utils.py:82 | `dropna()` on gender keeps exactly the genders that are present. |
| `Sidebar.ContinentOptions` | utils.py:67 | Strictly ascending, and holds exactly the continents of the athletes. |
| `Sidebar.CountryOptions` | utils.py:72 | Strictly ascending. It holds exactly the countries of athletes whose continent is among the resolved continents. |
| `Sidebar.SportOptions` | utils.py:77 | Strictly ascending, and holds exactly the athletes' cleaned discipline texts. |
| `Sidebar.GenderOptions` | utils.py:82 | Strictly ascending, and holds exactly the non-null genders. |
| `Sidebar.MinAge` | utils.py:87 | Absent exactly when no athlete has an age. Otherwise it is an athlete's age, and no known age is below it. |
| `Sidebar.MaxAge` | utils.py:88 | Absent exactly when no athlete has an age. Otherwise it is an athlete's age, and no known age is above it. |
| `Sidebar.AgeBounds` | utils.py:87-89 | Absent exactly when no athlete has an age. Otherwise every known age lies within the range, and both ends are the ages of some athlete. |
| `Sidebar.CreateSidebar` | utils.py:63-98 | Fails exactly when no athlete has an age. Each empty multiselect resolves to its full option list, and a non-empty one to the user's picks. Country options come from the resolved continents. An untouched slider gives the observed age range: every known age lies inside it and both ends are attained. |
| `Sidebar.NoContinentPickOffersEveryCountry` | utils.py:67-74 | With no continent picked, every athlete's country is offered. An empty pick widens the choice rather than emptying it. |
| `Sidebar.CountryOutsideContinentsNotOffered` | utils.py:72 | A country none of whose athletes is on a chosen continent is never offered. |
| `Sidebar.CountryOptionsMonotone` | utils.py:72 | Narrowing the continent selection can only narrow the country options. |
| `Medals.CountMedals` | utils.py:119-129 | An empty table is returned unchanged. |
| `Medals.DropDuplicatesAppend` | utils.py:129 | Appending a row to the scanned table appends it to the output unless its medal was already seen or earlier in the table. |
| `Medals.CountMedalsIsFirstOccurrences` | utils.py:127-129 | The left-to-right `keep='first'` scan equals the reference definition: the rows whose medal no earlier row has. |
| `Medals.FirstOccurrencesKeys` | utils.py:127-129 | The reference definition loses no medal key, adds none, and has no two rows with one key. |
| `Medals.FirstOccurrencesPositions` | utils.py:127-129 | The kept rows sit at strictly increasing input positions, and those positions are exactly the first occurrences of their keys. |
| `Medals.FirstOccurrencesOfDistinct` | utils.py:127-129 | A table without repeated keys is its own deduplication. |
| `Medals.CountMedalsSpec` | utils.py:119-129 | `count_medals` keeps the same key set, never repeats a key, and is a subsequence of its input. It keeps exactly the first row of each key, in table order. |
| `Medals.CountMedalsIdempotent` | utils.py:127-129 | Applying `count_medals` twice equals applying it once. |
| `Medals.TeamMedalExample` | utils.py:127-129 | Two French football gold rows and one other row deduplicate to the first French row and the other row, so the team gold counts once. |

## Left out

- Reading the CSV files and building their paths (utils.py:26-32), and the `nocs` and `events` tables, which pass through unchanged. The tables are input sequences.
- `@st.cache_data` (utils.py:24). `LoadData` is simply called once.
- `pd.to_datetime(..., errors='coerce')` (utils.py:39). Birth dates arrive already parsed, and an unparsable one is `None`.
- `date.today()` (utils.py:20). It is the parameter `today`.
- The pycountry and pycountry_convert lookups (utils.py:12-14, 103). They are the uninterpreted functions of `Geography.Lookups`: a miss (an exception) is `None`, and a `search_fuzzy` failure is an empty match list.
- The Streamlit widgets (utils.py:64, 68, 73, 78, 83, 89). The user's picks are an input, `Sidebar.Picks`.
- Widget-side guarantees are not modelled: a multiselect offers only listed options, and the slider stays within `[min, max]`. `CreateSidebar` takes the picks as given.
- Pass-through columns (height, weight, coach, nickname and others) are not carried. Only the columns this layer reads or writes are modelled.
- `country`, `Continent` and `disciplines` are taken to be strings once loaded. A missing `country` would make Python's `sorted` raise on mixed types; that case is not modelled.
- `Age` is a whole number. pandas stores the column as floating point when some ages are missing, and `int(...)` of a whole float is exact.
- Loader.EnrichAthletes: it fills the three new athlete columns (utils.py:36, 40, 43) in one pass per row, not three column-wise passes. The result is the same, because each column depends only on the row's own raw fields.
- Loader.LoadData: pandas assigns columns in place on the frames. The model builds fresh row sequences instead. Nothing else holds the frames, so no aliasing is lost.
- Loader.JoinIsRowForRow: it assumes unique athlete codes. Without that assumption, `Loader.JoinKeepsEveryRow` and `Loader.JoinRowGeneral` together state what a left merge guarantees. Every medallist row is kept, in order, as a block of its own. The block has one row per athlete with the medallist's code, or a single unmatched row. Each row's `code`, `Age` and `gender` come from such an athlete, or are absent when there is none.
- Home.py and the page modules: page layout, per-page filtering, aggregation, sorting for display and top-N charts are not part of this model.
