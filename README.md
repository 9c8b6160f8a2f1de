# Loan-default pipeline: a Dafny model of its core logic

This project models the data-handling logic of the loan-default analysis
script `Insight_Project_Framework/main.py`. The script reads a table of
microfinance loans and keeps the rows whose status is "paid" or
"defaulted". It then builds a numeric feature matrix: one-hot blocks for the
categorical columns, followed by min/max-normalised ordinal columns. It
trains the classifier(s) the `--solver` option selects on one train/test
split and hands the parallel lists of predictions, probabilities and titles
to a report. The script also has a utility, `split`, that cuts a large CSV
file into numbered chunks.

Modules, one per piece of logic:

- `Splitter` (splitter.dfy): `split`. Files are sequences of rows, and the
  output files are a list of chunks that grows as rows are written. The
  method keeps the source's two counters, `i` and `current_chunk`. It is
  proved to produce chunks numbered 1, 2, … that each start with the header.
  Every chunk holds at most `max(row_limit, 1)` rows, all but the last
  exactly that many. Their rows concatenate back to the data rows. There are
  `ceil(n / max(row_limit, 1))` chunks.
- `Normalizer` (normalizer.dfy): `normalize_column` over exact reals. The
  method copies the column into an array and applies the in-place `-=` and
  `*=` steps of the source. It is proved equal to the affine rescale onto
  [0, 1], or onto [-1, 1] when centred. Lemmas give the range and where the
  extremes go, and show that order is preserved.
- `StringOrder` (strings.dfy): Python's string comparison (lexicographic on
  code points), which fixes the order of the label encoder's classes.
- `FeatureEncoder` (encoder.dfy): `dataframe_to_numpy`. A table is a
  sequence of rows mapping column names to cells, and the result is a
  row-major matrix. A value's label code is the number of distinct column
  values that sort before it. This is what `LabelEncoder` computes from its
  sorted `classes_`. The method keeps the source's loop that stacks one
  normalised column per ordinal column.
- `Cleaning` (cleaning.dfy): the status filter and the two label vectors
  (`get_dummies(...)['defaulted']` and `get_dummies(...)['paid']`).
- `Harness` (harness.dfy): the solver branching of the script's main block.
  The train/test split, the fitted models and the embedding model are
  opaque function parameters.

The script does not validate `--solver`, has no fallback for a constant
column, and never meets an unknown category:

- An unrecognised `--solver` value does not fail before loading. The script
  runs through and raises `NameError` at the report call, because `y_test`
  was never bound. The same happens for "Embeddings", after the embedding
  model has printed its accuracy. In `Harness.Run` this is
  `Failed(UnboundTestLabels(printed))`, where `printed` keeps that accuracy.
- A constant ordinal column has no fallback in the code; numpy divides by
  zero. The model states this as the precondition `Normalizable`.
- The encoder has no unknown-category path in use (see "Left out").

## Model

| member | source | states |
|---|---|---|
| `Splitter.Split` | Insight_Project_Framework/main.py:38-58 | A file without rows makes reading the header fail (`None`). Otherwise the chunks are numbered 1, 2, … consecutively and each is opened with the header. With `L = max(row_limit, 1)` (a limit below 1 acts as 1), each holds 1 to `L` rows, every chunk but the last holds exactly `L`, and their rows concatenated in order are exactly the data rows. |
| `Splitter.ChunkFiles` | Insight_Project_Framework/main.py:28-58 | Every output file, as written, is the header followed by the data rows from position `j * max(row_limit, 1)` of the input on. |
| `Splitter.OpenChunkStep` | Insight_Project_Framework/main.py:50-58 | Opening the next numbered file with the header, after a full file or as the first, and writing a row to it keeps the chunk layout of the rows read so far. |
| `Splitter.WriteRowStep` | Insight_Project_Framework/main.py:57-58 | Writing a row to a file that is not yet full keeps the chunk layout of the rows read so far. |
| `Splitter.FullChunksLength` | Insight_Project_Framework/main.py:45-58 | For every `j` below the chunk count, the first `j` chunks together hold `j * L` rows, where `L = max(row_limit, 1)` is the limit `Split` uses. |
| `Splitter.ChunkRowsAt` | Insight_Project_Framework/main.py:49-58 | Chunk `j` holds exactly the data rows from position `j * L` on (`L = max(row_limit, 1)`), in their original order, and that slice lies within the data rows. |
| `Splitter.ChunkCount` | Insight_Project_Framework/main.py:45-58 | For `n` data rows and `L = max(row_limit, 1)`: `(chunks - 1) * L < n <= chunks * L`, so there are `ceil(n / L)` chunks, and none at all iff there is no data row. |
| `Splitter.TwoHundredFiftyRows` | Insight_Project_Framework/main.py:38-58 | 250 data rows with limit 100 give three files of 100, 100 and 50 rows, each starting with the header. |
| `StringOrder.LessMeaning` | Insight_Project_Framework/main.py:85 | The string order the encoder's classes are sorted by: `a` comes before `b` iff `a` is a proper prefix of `b`, or `a` has the smaller code point at the first position where they differ. |
| `StringOrder.LessIrreflexive` | Insight_Project_Framework/main.py:85 | No string sorts before itself. |
| `StringOrder.LessTransitive` | Insight_Project_Framework/main.py:85 | The order is transitive. |
| `StringOrder.LessTotal` | Insight_Project_Framework/main.py:85 | Of two different strings, one sorts before the other. |
| `StringOrder.LessAsymmetric` | Insight_Project_Framework/main.py:85 | Two strings never sort before each other both ways. |
| `Normalizer.MinOf` | Insight_Project_Framework/main.py:69 | `np.min` is a lower bound of the column. |
| `Normalizer.MinOfAttained` | Insight_Project_Framework/main.py:69 | `np.min` is an entry of the column. |
| `Normalizer.MaxOf` | Insight_Project_Framework/main.py:69 | `np.max` is an upper bound of the column. |
| `Normalizer.MaxOfAttained` | Insight_Project_Framework/main.py:69 | `np.max` is an entry of the column. |
| `Normalizer.SubtractInPlace` | Insight_Project_Framework/main.py:70 | In-place `-=` lowers every entry by the same amount and changes nothing else. |
| `Normalizer.MultiplyInPlace` | Insight_Project_Framework/main.py:72-75 | In-place `*=` scales every entry by the same factor. |
| `Normalizer.InPlaceStepsNormalize` | Insight_Project_Framework/main.py:70-75 | Subtracting the minimum, then multiplying by `1/(max - min)` (or by `2/(max - min)` and subtracting 1) gives the affine rescale of every entry. |
| `Normalizer.NormalizeColumn` | Insight_Project_Framework/main.py:62-76 | The returned array has the column's length, and entry `i` is `(v_i - min)/(max - min)`, or `2(v_i - min)/(max - min) - 1` when centred. |
| `Normalizer.NormalizedRange` | Insight_Project_Framework/main.py:68-75 | Default output lies in [0, 1]; centred output lies in [-1, 1]. |
| `Normalizer.NormalizedExtremes` | Insight_Project_Framework/main.py:68-75 | Every entry equal to the minimum maps to 0 (centred: -1), every entry equal to the maximum maps to 1, and both ends are reached. |
| `Normalizer.NormalizedMonotone` | Insight_Project_Framework/main.py:70-75 | `v_i <= v_j` iff `out_i <= out_j`, and `v_i < v_j` iff `out_i < out_j`, in both modes. |
| `Normalizer.CenteredIsStretched` | Insight_Project_Framework/main.py:71-75 | The centred output is twice the default output minus 1. |
| `FeatureEncoder.LabelEncode` | Insight_Project_Framework/main.py:85 | One code per row, each below the number of distinct values of the column. |
| `FeatureEncoder.CodeBelowCount` | Insight_Project_Framework/main.py:85 | A category's code is below the number of categories. |
| `FeatureEncoder.CodeMonotone` | Insight_Project_Framework/main.py:85 | A category that sorts before another gets a smaller code. |
| `FeatureEncoder.DistinctCodes` | Insight_Project_Framework/main.py:85-88 | The label codes a column receives are exactly 0, 1, …, n - 1 for its n distinct values. So the classes `OneHotEncoder` fits at line 87 are these codes, and `VocabularySizes` (the `nunique` of line 177) counts them. |
| `FeatureEncoder.OneHotFitsCodes` | Insight_Project_Framework/main.py:85-88 | Fitted on a column's codes, the one-hot encoder has as many classes as the column has distinct values, and each row's code sits at its own position among the sorted classes. So `OneHotEncode` (`ohe.fit_transform`, line 88) writes the indicator at the code, in a block `nunique` wide. |
| `FeatureEncoder.LabelEncodeOrder` | Insight_Project_Framework/main.py:85 | Two rows get equal codes iff their values are equal, and a smaller code iff their value sorts first. The codes are sorted-order ranks. |
| `FeatureEncoder.TransposeTwice` | Insight_Project_Framework/main.py:88-93 | `Transpose` models `np.transpose` (lines 88 and 93): transposing a rectangular matrix twice gives it back. |
| `FeatureEncoder.CategoricalPart` | Insight_Project_Framework/main.py:84-88 | The one-hot part of a row is as wide as the sum of the columns' distinct-value counts. |
| `FeatureEncoder.FeatureRow` | Insight_Project_Framework/main.py:79-93 | A feature row is as wide as the sum of the distinct-value counts plus the number of ordinal columns. |
| `FeatureEncoder.DataframeToNumpy` | Insight_Project_Framework/main.py:79-93 | The result has one row per input row, in the same order. Row `i` is the one-hot blocks of row `i` followed by entry `i` of each normalised ordinal column. |
| `FeatureEncoder.CategoricalBlock` | Insight_Project_Framework/main.py:84-88 | Block `j` starts after the earlier blocks and is as wide as column `j`'s distinct-value count. It is the indicator of the code of the row's value. |
| `FeatureEncoder.OneHotSingle` | Insight_Project_Framework/main.py:87-88 | An indicator block holds exactly one 1, at the code, and 0 elsewhere. |
| `FeatureEncoder.FeatureRowLayout` | Insight_Project_Framework/main.py:84-93 | In each feature row the categorical blocks come first, in declared order. Each is as wide as the `nunique` vocabulary size of line 177 and holds the indicator of the row's code. |
| `FeatureEncoder.FeatureRowOrdinals` | Insight_Project_Framework/main.py:90-93 | `OrdinalPart` models the rows of the stacked `normalize_column` results (lines 90-91). After the blocks, entry `k` of feature row `i` is entry `i` of normalised ordinal column `k`, in declared order. |
| `FeatureEncoder.TenBySix` | Insight_Project_Framework/main.py:79-93 | 10 rows, two categorical columns with 3 and 2 distinct values and one ordinal column give a 10 × 6 matrix. |
| `Cleaning.Clean` | Insight_Project_Framework/main.py:123-125 | Every kept row has status "paid" or "defaulted", and no rows are added. |
| `Cleaning.CleanAppend` | Insight_Project_Framework/main.py:125 | Filtering distributes over concatenation, so the kept rows stay in their original order. |
| `Cleaning.CleanMembers` | Insight_Project_Framework/main.py:125 | A row is kept iff it is in the raw table and its status is valid. |
| `Cleaning.CleanKeepsValid` | Insight_Project_Framework/main.py:125 | A table whose statuses are all valid is unchanged by the filter. |
| `Cleaning.CleanIdempotent` | Insight_Project_Framework/main.py:125 | Cleaning twice equals cleaning once. |
| `Cleaning.ClassifierLabelsMeaning` | Insight_Project_Framework/main.py:140 | `Dummy` models `get_dummies(...)[value]` and `ClassifierLabels` its use at line 140: the label column is missing (KeyError) iff no cleaned row is "defaulted". Otherwise it has one 0/1 entry per row, and the entry is 1 iff the row is "defaulted". |
| `Cleaning.LabelsComplement` | Insight_Project_Framework/main.py:189 | `EmbeddingLabels` models `get_dummies(...)['paid']` at line 189. On a cleaned table, the embedding label ("paid" indicator) is `1 - y[i]` for the classifier label `y` of line 140. |
| `Harness.Run` | Insight_Project_Framework/main.py:134-195 | "Logistic Regression" appends only the LR entry, "Random Forest" only the RF entry, and "All" LR then RF. The three lists always have equal length. Every entry is the prediction / positive-class probability on the held-out rows of one split of the feature matrix, from the model fitted on its training rows. The failures are: a missing "defaulted" or "paid" dummy column (KeyError), and any solver other than LR, RF or All reaching the report with `y_test` unbound. For "Embeddings" and "All" the accuracy of the embedding model is kept: in the report for "All", and in the `UnboundTestLabels` failure for "Embeddings". |

## Left out

- File I/O: `open`, `csv.reader`/`csv.writer`, the delimiter, and the
  `name % filenumber` path formatting (lines 28–36), plus `pd.read_csv`
  (line 119). Files are sequences of rows, and a row is a sequence of fields.
- Splitter.Split: the writers of earlier chunks are never closed in the
  source. Closing and flushing are I/O and are not modelled.
- Floating point: normalisation and the feature matrix are over exact reals,
  and numpy's rounding is not modelled. The script multiplies by the
  reciprocal (lines 72 and 75), so in doubles a column with minimum 0 and
  maximum 49 sends its maximum to `49 * (1/49) = 0.9999999999999999`, not 1.
  `NormalizedRange`, `NormalizedExtremes` and the other rescale lemmas are
  facts about the exact arithmetic, not about the script's doubles.
- Normalizer.NormalizeColumn: a constant column makes numpy divide by zero
  (inf/nan), and an empty column makes `np.max` raise. Both are excluded by
  the precondition `Normalizable`, because the code has no guard for either.
- FeatureEncoder.DataframeToNumpy: the precondition `Encodable` demands a
  non-empty table (sklearn refuses to fit on zero samples). It also demands
  text in the categorical columns and non-constant numbers in the ordinal
  columns. These are true of the script's own call. A missing or mistyped
  column (KeyError/ValueError in pandas or numpy) is not modelled as an
  error path.
- FeatureEncoder.DataframeToNumpy: `handle_unknown='ignore'` (line 87) is
  never exercised, because the encoder is fitted and applied to the same
  data. Unseen categories are not modelled. sklearn's refusal of an empty
  list of categorical columns is not modelled either.
- Cleaning.Clean: the projection onto `useful_columns` (line 125) is not
  modelled, and rows are kept whole. The derived "Funded Time" column
  (`year + 0.0833*month`, lines 126–127) is left out as floating-point
  arithmetic. A missing status (NaN in pandas) counts as matching no status.
- Harness.Run: `train_test_split` (line 144), including its randomness and
  its test-set size, is an opaque function parameter. So are the
  construction, fitting and prediction of `LogisticRegression` and
  `RandomForestClassifier` (lines 148–168). Claims that depend on what the
  models compute are not proved, such as predictions having as many entries
  as `y_test`.
- Harness.Run: `embeddings_DL` (lines 174–191) is an opaque function of the
  cleaned table, the vocabulary sizes and the "paid" labels. Its
  preprocessing and the normalisation of ordinal data at line 186 are
  folded into it. The printing of the accuracy (line 193) is output; the
  printed value is kept in the outcome.
- Harness.Run: the learners are assumed never to fail. Fitting and
  prediction are total functions in the model. The source can raise:
  `logmodel.fit` (line 152) raises ValueError when the training labels hold
  a single class, for instance when every cleaned row is "defaulted", and
  `predict_proba(X_test)[:,1]` (line 167) raises IndexError then. In such
  cases the model returns `Reported` where the script stops.
- The `visualization` calls (lines 129–130, 195) and the report itself are
  plotting and output.
- Command-line parsing with `argparse` (lines 102–112). The solver is a
  plain string parameter.
