# Football match browser: data core

`main.py` is a small Streamlit front end over a table of football matches, one
row per match, with columns Saison, Date, Compétition, Phase, Journée,
Domicile (home team), Extérieur (away team), Score, Stade, Diffuseur, Langue and
Qualité. Under the widgets there is a small data core, and this project models it:

- **Loading** (`load_data`). Rows that lack a home or an away team are dropped. When the table
  has a Date column, every Date cell holding an Excel serial number is rewritten
  in place as the `dd/mm/yyyy` text of the date that lies that many days after
  1899-12-30.
- **Menus.** These are the sorted, de-duplicated team list (home and away names
  together) and the sorted competition list. They also include the columns shown
  in every result table and the default entries of the two head-to-head selectors.
- **Filters.** These are the three searches: head-to-head between two teams,
  one team's history, and one competition's history.

A row is a `MatchRecord` holding the four cells the program reads: date,
competition, home and away. The remaining columns are carried along unchanged.
A missing cell is `None`. A Date cell is an integer serial, some other text, or
empty. The table is its header (the column names) plus its rows.

Modules:
- `Wrappers`: Option and Result.
- `Sequences`: order-preserving selection (`Filter`, the meaning of `df[mask]`)
  and subsequences.
- `StringOrder`: Python's code-point order on `str`.
- `Calendar`: serial numbers and civil dates.
- `DateText`: the `dd/mm/yyyy` text and its reading back.
- `Matches`: the record.
- `Loading`, `Menus` and `Filters`: the three parts above.

The Date rewrite (`df.loc[mask, 'Date'] = ...`) and the two `.sort()` calls
change data in place. They are methods over arrays. The masks, the column list
and the default indices are expressions, so they are functions with lemmas.

Behaviour that the code shows and the model follows:
- The code drops NaN competitions when it builds the competition list, and the
  model does the same. It does not assume every row has a competition.
- Indexing a column the table lacks raises `KeyError`, and nothing catches it.
  The model returns `MissingColumns` for `dropna` on Domicile/Extérieur and for
  `df['Compétition']`.
- `pd.to_datetime` raises `OutOfBoundsDatetime` for a serial beyond pandas'
  nanosecond timestamp range, and nothing catches that either. The model returns
  `DateOutOfBounds`. The range is taken to be whole days -106751 to 106751
  around 1970-01-01, which is serials -81182 to 132320, or 1677-09-22 to
  2262-04-11. This is pandas' documented `Timestamp.min`/`Timestamp.max`
  rounded inward to whole days.
- Serial numbers follow pandas with origin 1899-12-30, so serial 2 is
  1900-01-01. For serials 1 to 60, Excel itself shows dates one day later,
  because of its fictitious 29 February 1900. The model follows the code.

## Model

| member | source | states |
|---|---|---|
| `Loading.LoadData` | main.py:10-21 | A missing Domicile/Extérieur column fails with exactly the missing names. Otherwise an out-of-range serial fails with DateOutOfBounds. Otherwise the result keeps the columns and holds the rows with both teams, in order, each with its Date fixed when the table has a Date column. Every kept row is complete, and no serial remains. |
| `Loading.MissingRequired` | main.py:12 | Names exactly the subset columns Domicile/Extérieur that the table lacks. |
| `Loading.DropIncomplete` | main.py:12 | Every kept row has both teams. Every row with both teams is kept as often as it occurs. The result is a subsequence of the input, so the original order is kept. |
| `Loading.FixDate` | main.py:15-19 | A serial cell becomes text that reads back as the date whose serial is that number. Non-serial cells stay as they are, and so do all other columns. |
| `Loading.SerialText` | main.py:18-19 | For an in-range serial n, the text parses as a valid date lying n days after 1899-12-30. |
| `Loading.ConvertExcelDates` | main.py:17-19 | In place: the array becomes `FixDates` of its old contents, row by row. |
| `Loading.ConvertCell` | main.py:19 | Only a serial cell is written. Row i becomes `FixDate` of itself, and every other row is untouched. |
| `Loading.SerialYearRange` | main.py:18 | Serials inside the timestamp range give years 1677 to 2262, so `%Y` writes four digits. |
| `Loading.TimestampRangeEnds` | main.py:18 | The range bounds are the serials of 1677-09-22 and 2262-04-11. |
| `Calendar.SerialToDate` | main.py:18 | For every integer n, the result is a valid Gregorian date whose day count from 1899-12-30 (`SerialOf`) is n. |
| `Calendar.YearOf` | main.py:18 | The closed-form year estimate lands in the year whose first day is at most n and whose successor's first day is above n. |
| `Calendar.MonthFrom` | main.py:18 | Finds the month whose day range contains a day of the year. |
| `Calendar.YearStep` | main.py:18 | The closed-form first day of year y+1 is the first day of year y plus the length of year y, including leap years. |
| `Calendar.SerialToDateOfSerial` | main.py:18 | Converting a valid date's serial back gives the same date, so conversion is a bijection. |
| `Calendar.SerialOfInjective` | main.py:18 | Distinct valid dates have distinct serials. |
| `Calendar.OriginExample` | main.py:18 | Serial 0 is 1899-12-30, the origin. |
| `Calendar.FirstDayOf1900Example` | main.py:18 | Serial 2 is 1900-01-01. |
| `Calendar.EpochExample` | main.py:18 | Serial 25569 is 1970-01-01. |
| `Calendar.RecentExample` | main.py:18 | Serial 45000 is 2023-03-15. |
| `DateText.FormatDate` | main.py:19 | `%d/%m/%Y` gives ten characters: digits with slashes at positions 2 and 5. |
| `DateText.ParseFormat` | main.py:19 | Reading the written text gives back the same date. |
| `DateText.FormatParse` | main.py:19 | Any text that reads as a date is exactly the text written for that date, so the format is canonical. |
| `Menus.SortInPlace` | main.py:28 | In place: the array ends ascending and is a permutation of its old contents. |
| `Menus.SortedDistinct` | main.py:27-31 | `dropna().unique()` then `sort()` gives a strictly ascending list holding exactly the non-missing names. |
| `Menus.TeamList` | main.py:27-28 | Strictly ascending, with no duplicates. A name is listed iff it is the home or away team of some row. |
| `Menus.CompetitionList` | main.py:30-31 | Without a Compétition column it fails. Otherwise the list is strictly ascending and holds a name iff some row has that competition. |
| `Menus.ColumnsToDisplay` | main.py:37-39 | Exactly the ideal columns present in the table, as a subsequence of the ideal list. |
| `Menus.IndexOf` | main.py:48 | `list.index`: the first position holding the name. |
| `Menus.FirstDefault` | main.py:48 | If PSG is listed, its first position. Otherwise 0. |
| `Menus.SecondDefault` | main.py:51 | If Marseille is listed, its first position. Otherwise 1. |
| `Menus.FirstDefaultInRange` | main.py:48-49 | The first default is a valid position iff the list is not empty. |
| `Menus.SecondDefaultInRange` | main.py:51-52 | The second default is a valid position iff Marseille is listed or there are at least two teams. |
| `Filters.HeadToHead` | main.py:54-56 | Holds exactly the rows whose {home, away} equals {équipe1, équipe2}, each as often as in the table, as a subsequence of the table. |
| `Filters.FacesAsSets` | main.py:54-55 | The two-branch mask holds iff the set of the two sides is the set of the two selected teams. |
| `Filters.HeadToHeadSymmetric` | main.py:54-55 | Swapping Équipe 1 and Équipe 2 selects the same rows in the same order. |
| `Filters.TeamMatches` | main.py:71 | Holds exactly the rows where the team is home or away, each as often as in the table, in table order. |
| `Filters.HeadToHeadWithinTeam` | main.py:71 | Every head-to-head result for (t, x) is an order-preserving selection of t's history. |
| `Filters.TeamMatchesNonEmpty` | main.py:71-73 | A team's history is non-empty iff the team is home or away in some row, that is, iff it is in the team list. |
| `Filters.ByCompetition` | main.py:83 | Holds exactly the rows whose competition equals the selected name, each as often as in the table, in table order. |
| `Filters.CompetitionsPartition` | main.py:83 | Selecting each name of the competition list in turn yields, as a multiset, exactly the rows that have a competition. Every such row lands in exactly one result. |
| `Sequences.Filter` | main.py:56 | `df[mask]`: each element is kept as many times as it occurs when the mask holds, and dropped otherwise. |
| `Sequences.FilterIsSubsequence` | main.py:56 | A masked selection keeps table order. |
| `StringOrder.LessTotal` | main.py:28 | Python's string order is total: two distinct names always compare one way. |
| `StringOrder.LessTransitive` | main.py:28 | Python's string order is transitive. |

## Left out

- The Streamlit calls (page setup, tabs, columns, selectboxes, dataframes, messages) are user interface. `df_x[colonnes_a_afficher]` only projects columns for display.
- Reading `matchs.csv` with delimiter sniffing, `@st.cache_data`, and the `FileNotFoundError` handler are I/O and caching. The model starts from a table that has already been read.
- `pd.to_numeric(errors='coerce')` on text is not modelled: numeric-looking text such as "45000" or "4.5e4" is taken as already classified. A Date cell is an integer serial or opaque text.
- Fractional serials (time of day) are not modelled. They are floating point.
- What Streamlit does with an out-of-range default index is not modelled. The range lemmas only state when the default indices are valid positions.
- Sorting a column that mixes strings with numbers raises `TypeError` in numpy. This is not modelled, because names are strings here.
- Taxonomy navigation, cart pricing, name normalisation and logo lookup are not part of `main.py` and are not modelled.
