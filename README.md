# Species-sighting bar graphs: a verified model of the data pipeline

`data_to_graph.py` reads one sheet of a survey spreadsheet. Each row is a
survey: a Date cell, then one cell per species, where 1 means the species was
seen and 0 or an empty cell means it was not. The script turns the sheet into
a figure with one bar chart per species. Each chart shows, year by year, the
share of surveys with a sighting, and each bar is annotated with
"sightings / surveys". The figure is written to a PNG file whose name never
overwrites an existing one.

This project models the part of the script that decides what is drawn and
where it goes:

- `filenames.dfy` (module `FileNames`) makes the phylum title and the sheet
  name file-name safe. The nine characters `\ / : * " < > | .` are deleted one
  after another. A title that pandas reported as an `Unnamed` column becomes
  `Unspecified Phylum`.
- `cleaning.dfy` (module `Cleaning`) covers the date-shape filter. The rows
  whose Date text contains no `-` are collected by position and dropped. Then
  every empty cell is filled with 0.
- `yearly.dfy` (module `Yearly`) groups the clean rows by calendar year, with
  keys in ascending order. It counts each year's rows and averages each
  species column over the year. It also takes the complement `1 - mean` and
  builds the annotation `int(count * mean) / count`.
- `output_path.dfy` (module `OutputPath`) models the loop that picks the
  output name: `base.png`, then `base (1).png`, `base (2).png`, and so on,
  until a name is free.
- `script.dfy` (module `Script`) composes the steps into one run, from the
  raw title, sheet name and table to the plan of the figure and its path.
- `sequences.dfy` (module `Sequences`) defines order-preserving subsequences,
  used to state that cleaning only removes.

The character-stripping loops, the plotting loop over species and the
file-name loop are methods with loops. Each is proved against a function that
states its result. Filtering, filling and aggregation are functions, with
lemmas about them.

A cell is `Option<real>`, where `None` is an empty cell. Arithmetic is exact.
Python's `int()` is modelled as truncation toward zero. Date parsing is a
parameter `yearOf`, which gives the calendar year of a Date text. The file
system is the finite set `existing` of paths that are already taken.

## Model

| member | source | states |
|---|---|---|
| FileNames.Without | data_to_graph.py:131-132 | Deleting characters never lengthens a string, and the result has no deleted character. |
| FileNames.WithoutConcat | data_to_graph.py:131-132 | Deleting characters from a concatenation deletes them from each part. |
| FileNames.WithoutKeepsClean | data_to_graph.py:131-132 | A string with none of the characters is returned unchanged. |
| FileNames.WithoutStep | data_to_graph.py:131-132 | One more `replace(c, '')` on a string already stripped of some characters strips that set plus `c`. |
| FileNames.WithoutIsSubsequence | data_to_graph.py:131-132 | The surviving characters keep their order and none is invented. |
| FileNames.WithoutCounts | data_to_graph.py:131-132 | Each kept character keeps its number of occurrences, and each deleted character occurs 0 times. |
| FileNames.SanitizedIdempotent | data_to_graph.py:115 | Sanitising a sanitised name changes nothing. |
| FileNames.SanitizedSpec | data_to_graph.py:115 | A sanitised name has no forbidden character and keeps every other character in order and in number. |
| FileNames.StripSpecialChars | data_to_graph.py:142-143 | The loop over the nine forbidden characters returns the sanitised form of the input. |
| FileNames.HasSubstring | data_to_graph.py:126 | Python's `sub in s` is true exactly when `sub` occurs at some position of `s`. |
| FileNames.ResolveTitle | data_to_graph.py:126-132 | An `Unnamed` header gives `Unspecified Phylum`; any other title gives its sanitised form. Either way the title has no forbidden character. |
| FileNames.SlashDropped | data_to_graph.py:131-132 | A slash between two clean parts of a title, as in `Mollusca/Test`, is deleted and nothing else is. |
| FileNames.UnnamedHeaderExample | data_to_graph.py:126 | `Unnamed: 0`, pandas' name for a column with an empty header, triggers the fallback. |
| Cleaning.DateShaped | data_to_graph.py:155 | The reference filter keeps only rows whose Date contains `-`, and only rows of the table. |
| Cleaning.BadPositionsCount | data_to_graph.py:155-162 | The number of positions selected for dropping is the number of rows minus the number of rows whose Date contains `-`. |
| Cleaning.DropPositions | data_to_graph.py:163 | Dropping positions never adds rows and keeps only rows of the table. |
| Cleaning.DropBadIsFilter | data_to_graph.py:155-163 | Dropping the bad positions gives the same rows as the date-shape filter. |
| Cleaning.DropPrefix | data_to_graph.py:162-163 | On every prefix of the table, dropping the bad positions equals filtering that prefix. |
| Cleaning.DateShapedIsSubsequence | data_to_graph.py:163 | The kept rows are a subsequence of the table, in their original order. |
| Cleaning.DateShapedCounts | data_to_graph.py:155-163 | Each date-shaped row is kept as many times as it occurs, and any other row is gone. |
| Cleaning.FillRow | data_to_graph.py:167 | Present cells keep their value, empty cells become 0, and the date and width are unchanged. |
| Cleaning.FillLiftRoundTrip | data_to_graph.py:167 | Filling a row that has no empty cell returns its values. A row equals its filled form exactly when it has no empty cell. |
| Cleaning.Sanitize | data_to_graph.py:155-167 | Cleaning a table of width w gives a clean table of width w. |
| Cleaning.SanitizeSpec | data_to_graph.py:155-167 | Cleaning is filling the date-shaped rows. The kept rows are a subsequence and a sub-multiset of the table, width is kept, and every clean Date contains `-`. |
| Cleaning.SanitizeCells | data_to_graph.py:163-167 | The clean table has one row per date-shaped row, with the same Date. Each empty cell reads 0 and each present cell keeps its value. |
| Cleaning.SanitizeAppend | data_to_graph.py:155-167 | Cleaning works row by row: a new row is dropped if its Date has no `-`, and otherwise appended in filled form. |
| Yearly.Insert | data_to_graph.py:178 | Adding a year to the ascending key list keeps it strictly ascending, and its members are the old keys plus the year. |
| Yearly.Years | data_to_graph.py:178-179 | The group keys are strictly ascending, and a year is a key exactly when some row has that year. |
| Yearly.InYear | data_to_graph.py:178-179 | A year's group is no larger than the table, keeps the table's width, and keeps 0/1 cells 0/1. |
| Yearly.InYearMembers | data_to_graph.py:178-179 | A row is in a year's group exactly when it is in the table and has that year. |
| Yearly.InYearCounts | data_to_graph.py:178-179 | A year's group holds each row of that year as many times as the table does, and no other row, so identical surveys are all counted. |
| Yearly.InYearNonEmpty | data_to_graph.py:178-179 | Every key's group has at least one row. |
| Yearly.CountsFor | data_to_graph.py:178 | There is one count per key, and each count is the size of that key's group. |
| Yearly.OccurrencesInIncreasing | data_to_graph.py:178 | A key occurs at most once among strictly ascending keys. |
| Yearly.CountsAddRow | data_to_graph.py:178 | Appending a row adds one to the total count of the keys equal to its year. |
| Yearly.CountsCoverRows | data_to_graph.py:178 | Over keys that cover every row's year, the counts add up to the number of rows. |
| Yearly.YearCountsSpec | data_to_graph.py:178 | `df_count` has one entry per key, each equal to the size of the year's group and at least 1, and the entries add up to the number of rows. |
| Yearly.BinarySumIsOnes | data_to_graph.py:179 | With 0/1 cells, a column's sum is its number of sightings, which is at most the number of rows. |
| Yearly.YearMeans | data_to_graph.py:179 | `df_perc` has one row per key, each as wide as the table. |
| Yearly.Complement | data_to_graph.py:180 | `df_perc_inv` has the shape of `df_perc`, and each cell adds up with its mean to exactly 1. |
| Yearly.MeanTimesCount | data_to_graph.py:179 | A group's size times its mean gives back the column sum. |
| Yearly.BinaryMeanIsShare | data_to_graph.py:179 | With 0/1 cells, a mean lies in [0, 1]. The truncated product of size and mean is the number of sightings, which is at most the size. |
| Yearly.YearlyTablesAligned | data_to_graph.py:178-180 | Position j of the counts, of the means and of the complements describes the same year. With 0/1 cells, every mean and every complement lies in [0, 1]. |
| Yearly.Trunc | data_to_graph.py:235 | `int(x)` truncates toward zero: below a non-negative x by less than 1, and above a negative x by less than 1. |
| Yearly.TruncOfWhole | data_to_graph.py:235 | `int` of a whole number is that number. |
| Yearly.Annotations | data_to_graph.py:234-236 | A chart gets one fraction per year. |
| Yearly.AnnotationOfGroup | data_to_graph.py:235-236 | When a position's count and mean come from a 0/1 group, its fraction is sightings over rows. |
| Yearly.AnnotationCountsSightings | data_to_graph.py:234-236 | With 0/1 cells, the fraction on year j's bar is that year's sightings over that year's surveys, and it never exceeds 1. |
| Yearly.ExampleYears | data_to_graph.py:178 | Three surveys dated 2020, 2020 and 2021 have the keys 2020 and 2021. |
| Yearly.ExampleGroup2020 | data_to_graph.py:178-179 | In the example, the 2020 group is the first two surveys. |
| Yearly.ExampleGroup2021 | data_to_graph.py:178-179 | In the example, the 2021 group is the last survey. |
| Yearly.ExampleCounts | data_to_graph.py:178 | In the example, the counts are 2 and 1. |
| Yearly.ExampleGroupMeans | data_to_graph.py:179 | In the example, the group means are 0.5 and 1.0. |
| Yearly.ExampleRates | data_to_graph.py:179 | In the example, the sighting rates are 0.5 for 2020 and 1.0 for 2021. |
| OutputPath.Decimal | data_to_graph.py:268 | `str(i)` is a non-empty string of digits that starts with `0` only for 0. |
| OutputPath.DecimalRoundTrip | data_to_graph.py:268 | Reading back `str(n)` gives n. |
| OutputPath.DecimalInjective | data_to_graph.py:268 | Different counters give different `str` forms. |
| OutputPath.CandidateInjective | data_to_graph.py:261-268 | Two different attempts never give the same path. |
| OutputPath.TriedSize | data_to_graph.py:266-269 | The first i attempts are i distinct paths. |
| OutputPath.ChooseOutputPath | data_to_graph.py:261-269 | The chosen path is the first free one among `base.png`, `base (1).png`, and so on. A free base is used as is, and the loop ends after at most as many steps as there are existing files. |
| OutputPath.RepeatedRuns | data_to_graph.py:261-269 | With `base.png` taken the second run writes `base (1).png`, and with both taken the third run writes `base (2).png`. |
| Script.CountsCoverCleanRows | data_to_graph.py:155-178 | The yearly counts of the cleaned table add up to the number of date-shaped rows. |
| Script.AnnotateCharts | data_to_graph.py:216-236 | The loop over species builds, for each species column in order, that chart's list of fractions. |
| Script.DataToGraph | data_to_graph.py:126-269 | A whole run gives the resolved title and the sanitised sheet name, and keys, counts, means and complements of the cleaned table. The counts add up to the number of date-shaped rows. It also gives one fraction list per species and the first free output path. |

## Left out

- Reading the configuration file (data_to_graph.py:71-108) is left out: its values are plain inputs here.
- Reading the spreadsheet with pandas (data_to_graph.py:120-121, 137-139) is left out. The title, the sheet name and the table are parameters.
- Date parsing with `pandas.to_datetime` (data_to_graph.py:170) is the abstract function `yearOf`. A Date that contains `-` but cannot be parsed ends the script's run with pandas' parse error. The model's total `yearOf` has no such path.
- Yearly.YearMeans: averages every species column of a rectangular numeric table. It does not model which columns pandas' `mean` keeps or drops.
- Yearly.Numerator: uses exact reals, not IEEE doubles. In floating point, `count * (sum / count)` can fall just below the whole number. `int()` then gives one less sighting than `Yearly.BinaryMeanIsShare` states, for example when a year has 49 surveys and one sighting.
- Drawing is left out (data_to_graph.py:192-247, 273): figure size, layout, colours, bar geometry, titles, labels and the footnote. Only the values the bars and annotations are built from are modelled.
- Creating `./graphs/` and the `isfile` test (data_to_graph.py:256-257, 267) are modelled only as the set `existing`. Races with other processes writing to the same directory are not modelled.
- The progress messages printed by the script are left out.
- The name search has no upper bound, as in the script. It ends because `existing` is finite.
- Script.DataToGraph: returns a plan and a free path for every number of species columns. The script never reaches the name search with fewer than two. With no column, `plt.subplots` fails at data_to_graph.py:196. With one column it returns a single Axes rather than an array, so `axs[i]` at data_to_graph.py:217 fails. Drawing is outside the model, so this way the run aborts is not captured.
- The bar numerator is `int(count * mean)` (data_to_graph.py:235): truncated, not rounded.
- The title fallback fires for any title that contains `Unnamed` (data_to_graph.py:126), not only for an empty header cell.
