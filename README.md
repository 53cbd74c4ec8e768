# LEGO Report integration pipeline, modelled in Dafny

The application takes three campaign report workbooks (DAD, DMC and TA) and
a PCA template workbook. It merges the raw sheets of the three reports into
one integrated report. The user then picks campaigns, and the rows of those
campaigns are converted into the PCA column layout that the template
describes. Under the web interface sits a small table-transformation
pipeline, and that pipeline is what this project models:

- `classifier.dfy` (module `Classifier`): `classify_files`. Each upload name
  is upper-cased and tested for `DAD`, then `DMC`, then `TA`. A later file
  overwrites an earlier one's slot.
- `template_mapper.dfy` (module `TemplateMapper`): `load_pca_template` after
  the workbook read. It builds the rename dict from the template's source and
  target label rows, and the ordered PCA header list.
- `dicts.dfy` (module `Dicts`): the Python dict that dict is kept in. Entries
  stay in insertion order, and assigning to a present key replaces its value
  in place.
- `converter.dfy` (module `Converter`): `convert_to_pca_format`. It builds the
  new frame column by column, then projects it on the header list.
- `formatter.dfy` (module `Formatter`): `format_dataframe`. It chooses a
  column rule from the upper-cased name, renders percentages and groups
  integers by thousands.
- `raw_sheet.dfy` (module `RawSheet`): what `read_raw_sheet` does after the
  read. It drops all-empty rows and inserts the `Source_File` column.
- `integration.dfy` (module `Integration`): `pd.concat` of the three sheets.
  When a `date` column exists, its values are parsed and the rows are sorted
  newest first.
- `selection.dfy` (module `Selection`): the glue around the report. It drops
  the pseudo-columns, lists the campaigns, filters rows with `isin`, and
  builds the empty PCA template.
- `frames.dfy`, `text.dfy`, `seqs.dfy`, `wrappers.dfy` hold shared
  definitions: the frame datatypes, `str.upper` and `str.strip`, substring
  tests, integer renderings and sequence helpers.

A frame is a `Table`: a row count plus a sequence of named `Column`s.
Column names may repeat, because a PCA header list can repeat a label. A cell
is `Empty` (NaN/None/NaT), `Num(int)`, `Text(string)` or `Date(key)`, where a
date key is an integer ordered like the dates. A column's `numeric` flag
stands for a pandas `int64`/`float64`/`int32`/`float32` dtype.

The loops in the source are written as Dafny methods, and each method is
proved equal to a specification function:

- the classification loop, `Classifier.ClassifyFiles`;
- the template loop that fills `mapping_dict`, `TemplateMapper.LoadPcaTemplate`;
- the column-by-column build of the PCA frame, `Converter.ConvertToPcaFormat`;
- the formatting loop, `Formatter.FormatDataframe`;
- the collection of `cols_to_drop`, `Selection.DropPseudoColumns`.

The comprehensions, the concatenation, the sort, `unique` and `isin` are
functions, with lemmas stating their properties.

pandas behaviour that the code depends on, and that the model keeps:

- `pd.DataFrame()` has no index until the first Series is stored into it. A
  converted frame with no present source column therefore has zero rows.
  `None` columns stored before the first real column are reindexed to the
  input's rows (`Converter.ReindexBuilt`).
- Storing `df[name]` when the input holds two columns called `name` raises.
  The except branch then returns an empty frame (`Converter.Raises`,
  `Converter.DuplicateSourceFails`).
- In `format_dataframe`, selecting a repeated column name gives a frame, not
  a Series. The thousands rendering then raises inside its `try`; the
  percent rendering raises too, or, on a frame with no rows, writes the
  column back as it was. Either way such columns are left unchanged
  (`Formatter.RepeatedNameUntouched`).
- `insert(0, 'Source_File', ...)` raises if the column already exists, so
  that read fails (`RawSheet.ReadRawSheetSpec`).

Three behaviours of the code that a reader might not expect:

- File classification depends on upload order. The last matching file per
  category is kept, and `Classifier.OrderMatters` exhibits two uploads whose
  order changes the result.
- Only NaN labels are skipped in the template, so a source label that is
  blank after trimming becomes the key `""` (`TemplateMapper.BlankLabelKept`).
- The date sort is `sort_values` with its default, unstable quicksort. The
  model fixes one order among equal dates and promises only what pandas
  promises: a permutation, non-increasing by date, with missing dates last
  (`Integration.IntegrateWithDate`).

One consequence of the name rule is shown as a lemma:
`Formatter.DurationIsPercent`. A column named "Duration" contains `RATIO`
once upper-cased, so it is rendered as a percentage.

## Model

| member | source | states |
|---|---|---|
| `Classifier.ClassifyFiles` | streamlit_app.py:115-128 | each slot ends holding the position of the last upload whose name goes to that category, or None when no upload does |
| `Classifier.LastOf` | streamlit_app.py:119-126 | the slot value is a file of that category, no later file has that category, and None means no file has it |
| `Classifier.CategoryIgnoresCase` | streamlit_app.py:120 | a name and its upper-cased form go to the same slot |
| `Classifier.CategoryPriority` | streamlit_app.py:121-126 | a name with DAD goes to DAD, one with DMC and no DAD goes to DMC, and TA only when neither DAD nor DMC occurs |
| `Classifier.UniqueMatchFills` | streamlit_app.py:119-126 | when exactly one upload matches a category, that upload fills its slot |
| `Classifier.OrderMatters` | streamlit_app.py:119-126 | swapping two DAD uploads changes which file fills the DAD slot (the assignment is order-dependent) |
| `Classifier.ThreeFilesInOrder` | streamlit_app.py:117-128 | three uploads of the three categories fill the three slots with their own positions |
| `Classifier.ExampleUploads` | streamlit_app.py:120-126 | lego_DAD_0101.xlsx, lego_DMC_0101.xlsx and lego_TA_0101.xlsx go to DAD, DMC and TA |
| `TemplateMapper.LoadPcaTemplate` | streamlit_app.py:29-54 | without a sheet or with fewer than three rows: empty dict and empty headers; otherwise the dict built from rows 1 and 2 paired by position, and the header list of row 2 |
| `TemplateMapper.Zip` | streamlit_app.py:41 | the pairs are the labels at equal positions, as many as the shorter row |
| `TemplateMapper.BuildKeys` | streamlit_app.py:40-46 | the dict keys are unique and are exactly the source labels of the contributing entries |
| `TemplateMapper.BuildLastWins` | streamlit_app.py:40-46 | a source label with several entries maps to the target of its last entry |
| `TemplateMapper.MappingKeys` | streamlit_app.py:41-46 | a label is a key exactly when some column has both labels present, and its trimmed source label is that label and is not a placeholder |
| `TemplateMapper.MappingLastWins` | streamlit_app.py:41-46 | a source label repeated across template columns keeps the trimmed target label of its last column |
| `TemplateMapper.PlaceholdersExcluded` | streamlit_app.py:45 | none of the four placeholder labels is ever a key |
| `TemplateMapper.BlankMarkerIgnored` | streamlit_app.py:42-46 | a column whose trimmed source label is the blank marker "공란" contributes nothing: the dict equals the one built from the template without that column |
| `TemplateMapper.BlankMarkerExample` | streamlit_app.py:45 | the single pair ("공란", "X") gives the empty dict |
| `TemplateMapper.BlankLabelKept` | streamlit_app.py:42-46 | a present source label that is blank after trimming, with a present target label, makes "" a key of the dict |
| `TemplateMapper.BlankLabelExample` | streamlit_app.py:42-46 | the single pair (" ", " Y ") gives the dict holding only ("", "Y") |
| `TemplateMapper.HeadersAppend` | streamlit_app.py:49 | the header list keeps column order and repetitions: the headers of two joined parts are the two header lists joined |
| `TemplateMapper.HeadersMembers` | streamlit_app.py:49 | a label is a header exactly when it is non-empty and some present target cell trims to it |
| `TemplateMapper.HeadersTrimmed` | streamlit_app.py:49 | every header is non-empty and has no whitespace at either end |
| `TemplateMapper.HeadersExample` | streamlit_app.py:49 | missing and blank target cells are skipped, and a repeated target label stays repeated |
| `Dicts.PutSpec` | streamlit_app.py:46 | after `d[k] = v`, `k` maps to `v`, every other key keeps its value, a new key goes at the end, and keys stay unique |
| `Text.StripSpec` | streamlit_app.py:43-44 | `strip` keeps the slice between the leading and trailing whitespace, and neither end of the result is whitespace |
| `Converter.ConvertToPcaFormat` | streamlit_app.py:56-74 | the result of the column-by-column build and projection is the converted frame: empty when a mapped source column is duplicated, and otherwise the projection of the target columns on the header list |
| `Converter.LastSourceFor` | streamlit_app.py:61-65 | there is a source for target `h` exactly when `h` is a value of the dict |
| `Converter.LastSourceForSpec` | streamlit_app.py:61-65 | the chosen source belongs to an entry for `h`, and no later entry targets `h` (later assignments overwrite earlier ones) |
| `Converter.ConvertedNames` | streamlit_app.py:61-69 | when no mapped source column is held twice by the input, the output columns are the headers that are dict values, in header order with repetitions; a header no entry maps to never appears |
| `Converter.KeptHeadersMembers` | streamlit_app.py:68 | a header is kept exactly when it is listed and is a column of the built frame |
| `Converter.ConvertedColumn` | streamlit_app.py:61-65 | each output column holds the cells and dtype of the source column of the last entry for its name, or only missing values when the input lacks that source |
| `Converter.ConvertedWellFormed` | streamlit_app.py:59-69 | every output column has one cell per output row |
| `Converter.DuplicateSourceFails` | streamlit_app.py:58-74 | for every input, dict and header list: a dict source column that the input holds twice makes the conversion return an empty frame |
| `Converter.DuplicateClicksExample` | streamlit_app.py:58-74 | an input holding "Clicks" twice, mapped to a listed header, converts to the empty frame |
| `Formatter.FormatDataframe` | streamlit_app.py:76-105 | the loop's result is the formatted copy: each column rendered by its rule, in place |
| `Formatter.FormattedShape` | streamlit_app.py:78-80 | formatting keeps the row count, the column names and their order, and one cell per row |
| `Formatter.YearColumnUntouched` | streamlit_app.py:83-84 | a column whose upper-cased name contains YEAR is never changed |
| `Formatter.RepeatedNameUntouched` | streamlit_app.py:88-103 | a column whose name another column shares is left unchanged |
| `Formatter.PercentChangesOnlyNumbers` | streamlit_app.py:87-93 | in a percent-keyword column whose name no other column shares, exactly the number cells change, each into a text; missing values, texts and dates pass through |
| `Formatter.ThousandsCells` | streamlit_app.py:95-101 | in a numeric column whose name no other column shares, under the thousands rule, missing values stay missing and each number of magnitude at most 2^53 becomes a grouped text that reads back as the number |
| `Formatter.NonNumericUntouched` | streamlit_app.py:96-98 | a column without a numeric dtype is not grouped |
| `Formatter.FormattedIdempotent` | streamlit_app.py:76-105 | formatting the formatted frame again changes nothing |
| `Formatter.DurationIsPercent` | streamlit_app.py:87 | a column named "Duration" gets the percent rule, because DURATION contains RATIO |
| `Formatter.YearIsSkipped` | streamlit_app.py:83 | "Year" is skipped |
| `Formatter.CtrIsPercent` | streamlit_app.py:87 | "CTR" is a percent column |
| `Formatter.ImpressionsIsThousands` | streamlit_app.py:95-98 | "Impressions" gets thousands grouping |
| `Text.GroupedRoundTrip` | streamlit_app.py:100 | for an integer of magnitude at most 2^53, the thousands rendering uses only digits, commas and a leading minus, and reading it back gives the integer |
| `Text.GroupedShape` | streamlit_app.py:100 | for every integer, the rendering after its sign is non-empty, holds only digits and commas, and has one to three leading digits, then comma-separated groups of exactly three |
| `Text.GroupedExample` | streamlit_app.py:100 | 12345 is rendered "12,345" |
| `RawSheet.NonEmptyRows` | streamlit_app.py:22 | the kept row positions are in range and strictly increasing |
| `RawSheet.NonEmptyRowsMembers` | streamlit_app.py:22 | a row is kept exactly when it holds a value |
| `RawSheet.DropEmptyRowsSpec` | streamlit_app.py:22 | dropping keeps the columns and every row with a value, in order, and leaves no all-empty row |
| `RawSheet.ReadRawSheetSpec` | streamlit_app.py:18-27 | a read fails exactly when the sheet already has `Source_File`; otherwise `Source_File` comes first with the file name on every row, then the sheet's columns over its non-empty rows |
| `Integration.ConcatNames` | streamlit_app.py:227 | the stacked frame has each input column name once, in order of first appearance, and no other |
| `Integration.ConcatThree` | streamlit_app.py:227 | the row count is the sum of the three, and every column holds the DAD rows, then the DMC rows, then the TA rows (missing values where a sheet lacks the column) |
| `Integration.ParseDates` | streamlit_app.py:232 | the parsed frame keeps its rows and column names |
| `Integration.ParseDatesSpec` | streamlit_app.py:232 | the `date` column keeps its position, loses its numeric dtype and holds, row by row, the parser's reading of the old cell (a date, or missing where the parser gives none); every other column is unchanged |
| `Integration.SortOrder` | streamlit_app.py:233 | the sort order is a permutation of the row positions |
| `Integration.SortOrderSorted` | streamlit_app.py:233 | in the sort order the dates never increase and missing dates come last |
| `Integration.IntegrateShape` | streamlit_app.py:227-235 | the integrated report has exactly the rows of the three sheets and the stacked frame's columns |
| `Integration.IntegrateWithoutDate` | streamlit_app.py:227-235 | without a date column the rows stay in file order, DAD then DMC then TA |
| `Integration.IntegrateWithDate` | streamlit_app.py:230-235 | with a date column the report is a permutation of the stacked rows, sorted newest first with missing dates last |
| `Integration.SortedDateColumn` | streamlit_app.py:233 | after the sort, the date column itself runs from the newest date down, with missing dates last |
| `Selection.DropPseudoColumns` | streamlit_app.py:246-251 | collecting the pseudo-column names and then dropping them removes exactly the columns named "1", "2", "Unnamed: 0" or "Unnamed: 1" |
| `Selection.DropPseudoSpec` | streamlit_app.py:246-251 | after the drop no pseudo-column is left, every other column is, and the rows are untouched |
| `Selection.KeepColumnsSpec` | streamlit_app.py:251 | the kept columns are exactly the columns whose name is not dropped |
| `Selection.KeepColumnsAppend` | streamlit_app.py:251 | dropping keeps column order |
| `Selection.DropPseudoExample` | streamlit_app.py:246-251 | "Unnamed: 0" and "2" go and "Campaign" stays |
| `Selection.CampaignsSpec` | streamlit_app.py:277-282 | there is a campaign list exactly when there is a Campaign column; it holds each non-missing campaign value once, in order of first appearance |
| `Selection.FilterCampaignsSpec` | streamlit_app.py:306 | the filter keeps exactly the rows whose campaign is selected, unchanged and in their order, and keeps the columns |
| `Selection.SelectAllCampaigns` | streamlit_app.py:282-306 | selecting every listed campaign keeps exactly the rows that have a campaign |
| `Selection.EmptyTemplateSpec` | streamlit_app.py:327 | the empty template has no rows and exactly the PCA headers as columns, in order and with repetitions |

## Left out

- The web interface is not modelled: widgets, messages, metrics, session
  caching, reruns, and the checks on the number of uploads.
- Workbook reading and writing are not modelled: `pd.read_excel` with
  `skiprows=9` and with `header=None`, and `save_to_excel`. Sheets enter the
  model as tables, and the template enters as rows of optional labels.
  `Classifier` identifies uploads by their position in the upload list.
- `pd.to_datetime(..., errors='coerce')` is the parameter `parse` of
  `Integration.Integrate`. A date is an integer key ordered like the dates.
- The date stamp `datetime.now()` in the download names, and the MIME
  strings, are not modelled.
- `Formatter.PercentChangesOnlyNumbers` covers integer cells only. The
  source renders floats with `f"{x*100:.3f}%"`, and floating-point rounding is
  not modelled. For an integer `n` with |n*100| <= 2^53 the rendering is
  `str(n*100) + ".000%"`; `Text.PercentText` renders larger products exactly,
  where the program prints the nearest double.
- `Formatter.ThousandsCells` covers integers only, and only those with
  |n| <= 2^53. Rounding floats to zero decimals in `f"{x:,.0f}"` is not
  modelled, nor the conversion to the nearest double that the program makes
  for a larger integer.
- `Text.GroupedRoundTrip` holds for |n| <= 2^53 only. `Text.Grouped` renders
  every integer exactly, while the program prints `float(n)`, which differs
  from n beyond that bound.
- `Integration.Integrate` assumes that parsing the dates and sorting never
  raise. The program's `except: pass` branch, which returns the stacked frame
  in file order, is not modelled.
- `Formatter.FormatColumn`: the dtype after formatting is approximated. A
  column that received a text is no longer numeric, and any other column
  keeps its flag.
- `Text.Upper` upper-cases ASCII letters only. Python's `str.upper` also maps
  other scripts, and can change a string's length.
- Template cells are taken as their `str()` text. The text of non-string
  cells, such as the `str()` of a number, is not modelled.
- `Integration.Concat`: a stacked column is numeric when every sheet holding
  it has it numeric. pandas' full dtype promotion, such as bool or mixed
  object columns, is not modelled. A sheet with two columns of the same name
  is not modelled either; the reads never produce one.
- `Integration.SortOrder` places rows with equal dates in their stacked
  order. pandas' default quicksort leaves that order unspecified, so the
  lemmas promise only the permutation and the date order.
- `format_dataframe` is applied to `head(50)` in the previews (lines 259 and
  312). Taking the first 50 rows is not modelled separately.
