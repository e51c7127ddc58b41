# Insurance Policy Price Estimator — model of the form logic

The estimator is a Streamlit page. It collects an applicant's details and
hands the loaded pricing pipeline a one-row table to predict a yearly
premium for. The page writes three pieces of logic of its own, and this
project models and proves those three:

- **The code/label tables.** `sex_map`, `smoking_map` and `product_map`
  map category codes to the labels the user sees. Their inverses
  (`name_to_sex_code`, `name_to_smoking_code`, `name_to_code`) are built by
  dict comprehension. The selectable name lists are the maps' values.
  Marital status and issue state are offered as their codes unchanged.
- **The submit block.** It translates the selected labels back to codes
  and assembles the eight-field record the predictor receives.
- **`extract_year_of_birth`.** It is the feature step the pipeline calls
  on that record. It reads `customerdob` with the `%Y` directive, coerces
  unreadable text to a missing value, adds `year_of_birth` and drops
  `customerdob`.

Modules:

- `Wrappers`: `Option` and `Result`.
- `Dicts`: Python's insertion-ordered `dict`, modelled as its item list.
  - `d[k] = v` keeps an existing key in its slot and appends a new key.
  - A display or comprehension stores its pairs one after another, so the
    last write wins.
  - Inversion by comprehension is `Invert`. The central fact is
    `CodeLabelCodeIff`: every code survives the code → label → code round
    trip if and only if the values are distinct.
- `Mappings`: the literal tables of the page. Each is proved to be a
  `LosslessTable`:
  - its keys are the original code list, and its values are the name list;
  - both have no repetitions;
  - code → label → code holds;
  - label → code → label holds, with the code among the originals;
  - a label outside the name list is not a key of the inverse.
- `Decimal`: `str(n)` for integers, and `%Y` (exactly four ASCII digits).
- `Frames`: a DataFrame abstracted to its column list and its rows, each
  row a map from column name to cell.
- `YearOfBirth`: `extract_year_of_birth`. It is an imperative method over
  the rows, proved equal to a specification function, and lemmas describe
  that function's result.
- `Submission`: the submit block. The model looks labels up in the
  inverse tables, so an unknown label gives a KeyError (`Failure`). Under
  the ranges the widgets enforce (`FromWidgets`), it proves three things:
  - the submission always succeeds;
  - the record holds the expected codes and values;
  - `extract_year_of_birth` recovers the selected year from it.

## Model

| member | source | states |
|---|---|---|
| Dicts.Get | streamlit_app.py:120-122 | `d[k]` finds a value exactly when `k` is a key, and the value found belongs to an item with that key; an absent key is a KeyError (`None`) |
| Dicts.Insert | streamlit_app.py:54 | `d[k] = v`: the key list grows by `k` only if it is new, `k` then maps to `v`, every other key keeps its value, and no other item appears |
| Dicts.FromPairs | streamlit_app.py:50-54 | a dict built from pairs has distinct keys, exactly the keys of the pairs, and only items from the pairs |
| Dicts.Values | streamlit_app.py:55 | `list(d.values())` has one value per item (its members are characterised by `ValuesOfItems`) |
| Dicts.ValuesOfItems | streamlit_app.py:55 | a text is in `list(d.values())` exactly when some item of `d` has it as its value |
| Dicts.Invert | streamlit_app.py:54 | `{v: k for k, v in d.items()}` has distinct keys, its keys are exactly the values of `d`, and each of its items is an item of `d` swapped; `CodeLabelCodeIff`, `LabelCodeLabel` and `InverseDomain` state its round trips |
| Dicts.InsertNewKey | streamlit_app.py:54 | storing a key that is not there yet appends the item at the end |
| Dicts.FromPairsOfDistinct | streamlit_app.py:50-53 | a display whose keys are distinct is stored exactly as written, in order |
| Dicts.GetItem | streamlit_app.py:50-53 | in a dict, looking up an item's key gives that item's value |
| Dicts.InvertOfDistinctValues | streamlit_app.py:54 | with distinct values, the comprehension inverse is the item list swapped pair by pair in the same order; its keys are the values and its values the keys |
| Dicts.CodeLabelCode | streamlit_app.py:54 | with distinct values, `inverse[d[c]] == c` for every code `c` |
| Dicts.CodeLabelCodeIff | streamlit_app.py:54 | inversion by comprehension satisfies code → label → code for every code if and only if no two codes share a label |
| Dicts.SharedLabel | streamlit_app.py:54 | when two codes share a label, some code does not survive the round trip |
| Dicts.SharedLabelLosesCode | streamlit_app.py:54 | of two codes with one label, the inverse gives back at most one |
| Dicts.InverseDomain | streamlit_app.py:54 | a label is a key of the inverse exactly when it is one of the dict's values |
| Dicts.LabelCodeLabel | streamlit_app.py:54 | label → code → label: the code the inverse gives for a label is a key of the dict and maps back to that label |
| Mappings.CodesOfInversion | streamlit_app.py:54 | with distinct keys and values, every code comes back from the inverse of its label |
| Mappings.NamesOfInversion | streamlit_app.py:54-55 | every value is a key of the inverse, and its code is a key mapping back to it; no other text resolves |
| Mappings.InversionIsLossless | streamlit_app.py:54-55 | any dict with distinct keys and values, inverted by comprehension, is a lossless table over its keys and values |
| Mappings.DisplayIsLossless | streamlit_app.py:50-55 | a display with distinct codes and labels is stored as written and gives a lossless table |
| Mappings.SexTable | streamlit_app.py:50-55 | `sex_map` is stored as written, `sex_names` is `["Male", "Female"]`, and with `original_sex` and `name_to_sex_code` it forms a lossless table |
| Mappings.SmokingTable | streamlit_app.py:58-63 | `smoking_map` is stored as written, `smoking_names` is `["Smoker", "Non-smoker"]`, and with `original_smokingclass` and `name_to_smoking_code` it forms a lossless table |
| Mappings.ProductTable | streamlit_app.py:66-73 | `product_map` is stored as written, `product_names` lists the four product names in order, and with `original_prodcode` and `name_to_code` it forms a lossless table |
| Mappings.ProductCodesDistinct | streamlit_app.py:40 | the four product codes are pairwise distinct |
| Mappings.ProductNamesDistinct | streamlit_app.py:66-71 | the four product labels are pairwise distinct |
| Mappings.SexLabelLookup | streamlit_app.py:120 | `name_to_sex_code[l]` succeeds exactly for the sex names, and gives an original code whose label is `l` |
| Mappings.SmokingLabelLookup | streamlit_app.py:121 | `name_to_smoking_code[l]` succeeds exactly for the smoking names, and gives an original code whose label is `l` |
| Mappings.ProductLabelLookup | streamlit_app.py:122 | `name_to_code[l]` succeeds exactly for the product names, and gives an original code whose label is `l` |
| Decimal.DigitChar | streamlit_app.py:126 | the digit character of a value below ten is a digit and reads back as that value |
| Decimal.DigitsValue | streamlit_app.py:15 | a string of `k` digits denotes a number below 10^k |
| Decimal.NatToDigits | streamlit_app.py:126 | `str(n)` of a natural number is non-empty digits that denote `n`, with a leading zero only for 0 |
| Decimal.IntToString | streamlit_app.py:126 | `str(n)` is non-empty and is all digits exactly when `n` is not negative; those digits denote `n`, and for a negative `n` the text is `-` followed by digits denoting `-n` |
| Decimal.ParseYear | streamlit_app.py:15 | `%Y` accepts only four digits, so a year read is within 0..9999 |
| Decimal.YearTextLength | streamlit_app.py:126 | a year from 1000 to 9999 prints as four characters |
| Decimal.YearTextRoundTrip | streamlit_app.py:15 | every year from 1000 to 9999 prints as four digits, and `%Y` reads that text back as the same year |
| Decimal.LeadingDigitBound | streamlit_app.py:15 | digits with a nonzero leading digit denote at least 10^(length-1) |
| Decimal.NatToDigitsStep | streamlit_app.py:126 | the digits of `10a + d` are the digits of `a` followed by `d` |
| Decimal.CanonicalDigits | streamlit_app.py:126 | digits without a leading zero are exactly `str` of the number they denote |
| Decimal.ParsedYearPrintsBack | streamlit_app.py:15 | text that `%Y` reads and that does not start with 0 prints back as itself, and the year is at least 1000 |
| Decimal.YearLowerBound | streamlit_app.py:15 | four digits without a leading zero denote at least 1000 |
| Frames.Without | streamlit_app.py:17 | dropping a column keeps exactly the other columns, keeps any two of them in their original relative order, and keeps them distinct |
| YearOfBirth.ToDatetime | streamlit_app.py:15 | a text cell becomes a datetime exactly when `%Y` reads it; anything unreadable becomes NaT rather than an error |
| YearOfBirth.DtYear | streamlit_app.py:16 | `.dt.year` gives an integer exactly for a datetime, and a missing value for NaT |
| YearOfBirth.ExtractedRow | streamlit_app.py:14-17 | an output row has no `customerdob`, has `year_of_birth` holding the year read from the old `customerdob`, and every other column unchanged |
| YearOfBirth.ExtractedColumns | streamlit_app.py:15-17 | the output columns lack `customerdob`, contain `year_of_birth`, keep every other column, and stay distinct |
| YearOfBirth.WithoutAppend | streamlit_app.py:16-17 | dropping `customerdob` commutes with appending the new `year_of_birth` column |
| YearOfBirth.ExtractedFrame | streamlit_app.py:13-17 | `extract_year_of_birth(X)` succeeds exactly when `customerdob` is a column and otherwise raises KeyError naming it; the result has as many rows as `X`, no `customerdob` and a `year_of_birth` column (`ExtractedRow`, `ExtractedFrameShape` and `ExtractedYear` give the rest) |
| YearOfBirth.ExtractYearOfBirth | streamlit_app.py:13-17 | the step-by-step method (overwrite `customerdob` with its datetimes, add `year_of_birth`, drop `customerdob`) returns exactly the specified frame, or KeyError when `customerdob` is absent |
| YearOfBirth.ExtractedFrameShape | streamlit_app.py:13-17 | on a well-formed frame the step succeeds exactly when `customerdob` is a column; the result is well formed, has the same number of rows, lacks `customerdob`, has `year_of_birth` and keeps the other columns |
| YearOfBirth.ExtractedYear | streamlit_app.py:15-16 | the `year_of_birth` of each output row is the year `%Y` reads from that row's `customerdob` text, or missing (not an error) when the text does not parse |
| Submission.RecordColumnsDistinct | streamlit_app.py:124-133 | the eight record columns are distinct, and they are the record's key set |
| Submission.InputRow | streamlit_app.py:124-133 | the record has exactly the eight keys: the three codes given, the year as `str`, and the other four inputs unchanged |
| Submission.InputFrameWellFormed | streamlit_app.py:135 | a record with the eight keys makes a well-formed one-row frame |
| Submission.Translate | streamlit_app.py:119-133 | a successful submission is a well-formed frame with the eight columns in order and one row |
| Submission.Submit | streamlit_app.py:119-133 | with the page's own tables, the submission succeeds exactly when each of the three labels is one of its select box's names (`SubmitFailsOnlyOnUnknownLabel` and `SubmitRecord` give the error and the record) |
| Submission.TranslateOutcome | streamlit_app.py:119-133 | the submission fails exactly when a label is not a key of its inverse table, and the KeyError names the first such label (sex, then smoking class, then product); otherwise the row is the record built from the three looked-up codes |
| Submission.SubmitFailsOnlyOnUnknownLabel | streamlit_app.py:119-122 | with the page's tables, the submission fails exactly when a label is not among its select box's names, and names the first such label |
| Submission.SubmitRecord | streamlit_app.py:87-133 | whatever the widgets hand over is accepted; sex, smoking class and product carry an original code whose label was selected; `customerdob` is four digits that `%Y` reads back as the year; and the other four values pass through unchanged |
| Submission.ExampleLookups | streamlit_app.py:120-122 | "Male", "Non-smoker" and "Basic Life Insurance" translate to "M", "N" and "A0001" |
| Submission.DefaultYearText | streamlit_app.py:89 | the default year 1980 is written as "1980" |
| Submission.ExampleSubmission | streamlit_app.py:119-133 | ("Male", 1980, "Non-smoker", "married", 96, 15, "Basic Life Insurance", "CA") gives exactly the record {sex: "M", customerdob: "1980", smokingclass: "N", maritalstatus: "married", coverageunit: 96, policyterm: 15, prodcode: "A0001", issuestate: "CA"} |
| Submission.RecordHasNoYearOfBirth | streamlit_app.py:124-133 | the record has a `customerdob` column and no `year_of_birth` column |
| Submission.SubmittedBirthYearText | streamlit_app.py:126 | a submission from the widgets succeeds, with `customerdob` holding the year as text and no `year_of_birth` |
| Submission.SubmittedYearOfBirth | streamlit_app.py:13-17 | the submitted record passes `extract_year_of_birth`; the result has one row with `year_of_birth` equal to the selected year, no `customerdob`, and the other seven values as submitted |

## Left out

- The Streamlit page itself is not modelled: page config, title, form, columns, select boxes, number inputs, submit button and success message (lines 7, 27-28, 83-113, 141). The widgets' guarantees are the predicate `Submission.FromWidgets`: each select box returns one of its options, the year is within 1960..2015, and coverage unit and policy term are at least 1.
- Loading `model.pkl` and `pipeline.predict` (lines 23-24, 138) are file I/O and an opaque trained model. The model stops at the frame handed to the pipeline. The pipeline's call of `extract_year_of_birth` on it is `Submission.SubmittedYearOfBirth`.
- The `:.2f` formatting of the floating-point prediction (line 141) is not modelled.
- `pd.DataFrame(input_data)` (line 135) is not modelled as pandas builds it. The frame is the column list in dict order plus one row map, and pandas dtypes are not modelled. NaN and NaT are both the single `Missing` cell.
- `YearOfBirth.ToDatetime`: pandas' own limits on datetimes are not modelled. Year 0 and years outside the nanosecond range (before 1678, after 2262) also become NaT in pandas. Here `%Y` accepts any four digits. Every year the widget allows is well inside those limits.
- `YearOfBirth.ToDatetime`: a cell that is neither text nor a datetime becomes missing. pandas would interpret numbers as well, but the page only ever stores text in `customerdob`.
- `YearOfBirth.ExtractYearOfBirth`: pandas works column by column. The method performs the same three column steps one row at a time, which gives the same cells.
- `X.copy()` (line 14) is implicit: frames are values, so the caller's frame cannot change. The method's contract is about its result only.
- `Submission.Translate`: the submit block looks up the three labels one after another. The first KeyError ends it, which is modelled by the order of the failure cases.
