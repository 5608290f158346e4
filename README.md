# Fairness dataset core, modelled in Dafny

This project models the `Dataset` class of the fairness-measures code
(`src/data_structure/dataset.py`). A dataset wraps a table with named columns.
Columns whose name starts with `protected` hold group-membership codes. Columns
whose name starts with `target` hold classification outcomes. Construction
classifies the columns and refuses a table that has no protected column, has no
target column, or has a protected column holding a value that is not an integer
code. On a constructed dataset the core answers four queries:

- the outcomes of one group;
- how many of them equal an outcome;
- the overall rate of outcome 1;
- per group, the conditional probability of an outcome.

Layout:

- `wrappers.dfy` (`Wrappers`): `Option` and `Result`. Every `raise` of the code becomes a `Failure`.
- `frames.dfy` (`Frames`): the parts of a DataFrame the core uses.
  - `Cell` is `Int | Float | Text | Missing`.
  - `Table` holds column names, columns and a row count.
  - Column lookup, with `None` standing for pandas' `KeyError`.
  - `unique()`, `np.unique` with counts, and `(column == k).sum()`.
- `schema.dfy` (`Schema`):
  - the error cases, with the messages of the code's `ValueError`s;
  - the prefix classification;
  - the `Dataset` datatype and the invariant `Valid` that construction establishes;
  - `NewDataset`, the constructor, written as a method whose loop checks the protected columns one by one.
- `group_statistics.dfy` (`GroupStatistics`):
  - the three query functions;
  - `ConditionalProbForGroupCategory`, a method whose loop fills the result map group by group;
  - `CondProb`, the specification function that method is proved against.
- `group_sums.dfy` (`GroupSums`): lemmas that relate the queries to each other.
  - The member counts add up to the row count.
  - The groups' counts of outcome 1 add up to the overall count.
  - The positive rate is the mean of the groups' conditional probabilities of outcome 1, each weighted by the group's member count.
  - For outcomes in {0, 1}, the two conditional probability maps add up to 1 for every group.

The properties `data`, `protected_cols` and `target_cols` are the fields
`data`, `protectedCols` and `targetCols` of the `Dataset` datatype.

Python's `cell == k` is modelled by `Frames.Matches`:

- an integer or float cell equals `k` when its value does;
- NaN and strings never equal `k`.

`isinstance(item, numpy.integer)` is modelled by `Frames.IsIntCode`.
Probabilities are exact `real` quotients of integer counts. The code's float
division is taken to approximate them.

`prob_positive_classification` divides by `len` of the column, which counts
every row, NaN included; the model does the same.

## Model

| member | source | states |
|---|---|---|
| `Frames.Column` | src/data_structure/dataset.py:62 | `data[name]` is the column of that name, one cell per row |
| `Frames.Distinct` | src/data_structure/dataset.py:63 | `unique()` holds each value of the column once and only values of the column |
| `Frames.Matches` | src/data_structure/dataset.py:108 | definition, no contract: the comparison `cell == group` of the row mask, also used for `== accepted` at line 95 |
| `Frames.IsIntCode` | src/data_structure/dataset.py:64 | definition, no contract: `isinstance(item, integer)` for one value |
| `Frames.AllIntCodes` | src/data_structure/dataset.py:64 | definition, no contract: every value passes `isinstance(item, integer)` |
| `Frames.Occurrences` | src/data_structure/dataset.py:116-117 | the number of cells equal to `k`, what `value_counts().get(1, 0)` and, at line 95, `(... == accepted).sum()` compute, is at most the number of cells |
| `Frames.OccurrencesExtremes` | src/data_structure/dataset.py:95 | a count of cells equal to `k` is 0 exactly when no cell equals `k`, and is the length exactly when every cell does |
| `Frames.Groups` | src/data_structure/dataset.py:144 | `np.unique` of an integer-coded column holds each code once, and a code is in it exactly when some row has it |
| `Frames.GroupCounts` | src/data_structure/dataset.py:144-145 | the group-count dictionary has exactly the column's codes as keys, each with its positive number of rows |
| `Schema.Message` | src/data_structure/dataset.py:56-141 | definition, no contract: the message each `ValueError` carries |
| `Schema.ColumnsWithPrefix` | src/data_structure/dataset.py:51-52 | a name is classified exactly when it is a column name starting with the prefix |
| `Schema.ColumnsWithPrefixKeepsOrder` | src/data_structure/dataset.py:51-52 | the classified names appear in table column order, as a subsequence of the column names |
| `Schema.ClassesAreDisjoint` | src/data_structure/dataset.py:51-52 | no column is both protected and target |
| `Schema.DistinctKeepsVerdict` | src/data_structure/dataset.py:61-65 | checking the de-duplicated values gives the same verdict as checking every cell |
| `Schema.NewDataset` | src/data_structure/dataset.py:48-65 | no protected column fails first, then no target column; with both present, construction succeeds exactly when every cell of every protected column is an integer code and fails otherwise; a success holds the table and both classifications, both non-empty |
| `GroupStatistics.Targets` | src/data_structure/dataset.py:108 | the `.loc[mask, target_col].values` filter keeps one target cell per row of the group, as many as the group has members |
| `GroupStatistics.TargetsAreMatchingRows` | src/data_structure/dataset.py:108 | the selected outcomes are the target cells of exactly the rows whose protected cell equals the group, in increasing row order |
| `GroupStatistics.GetAllTargetsOfGroup` | src/data_structure/dataset.py:98-108 | a missing column is a KeyError, the protected column checked first; otherwise the result lists the target cells of the matching rows in row order, is no longer than the table, and is empty exactly when the group never occurs |
| `GroupStatistics.CountIsJointCount` | src/data_structure/dataset.py:93-95 | counting `accepted` among the group's outcomes is counting the rows that have both the group and the outcome |
| `GroupStatistics.CountClassificationAndCategory` | src/data_structure/dataset.py:75-95 | same KeyErrors as above; otherwise the count of rows in the group with outcome `accepted`, at most the group size, and 0 for an absent group |
| `GroupStatistics.ProbPositiveClassification` | src/data_structure/dataset.py:111-119 | KeyError for a missing column, division by zero for an empty table; otherwise the number of cells equal to 1 divided by all rows, in [0, 1], 0 exactly when no cell is 1 and 1 exactly when all are |
| `GroupStatistics.CondProb` | src/data_structure/dataset.py:150-151 | a group's conditional probability lies in [0, 1], is 0 exactly when no member has the outcome and 1 exactly when all members do |
| `GroupStatistics.FillNext` | src/data_structure/dataset.py:148-151 | one pass of the loop, storing the next group's count over its member count, extends the map by exactly that group with its conditional probability |
| `GroupStatistics.ConditionalProbForGroupCategory` | src/data_structure/dataset.py:123-153 | an unknown target column fails, then an unknown protected column; otherwise the keys are exactly the codes occurring in the protected column, and each value is that group's count of `accepted` over its positive member count |
| `GroupStatistics.WorkedExample` | src/data_structure/dataset.py:93-108 | codes [0,0,1,1,1] with outcomes [0,1,1,0,1]: group 1's outcomes are [1,0,1], two positive; the probabilities of outcome 1 are 1/2 and 2/3; an absent group gives no outcomes |
| `GroupStatistics.ExampleTargets` | src/data_structure/dataset.py:108 | on the example rows group 1's outcomes are [1,0,1] and an absent group 7 has none |
| `GroupStatistics.ExampleOutcomeCount` | src/data_structure/dataset.py:116-117 | three of the example outcomes [0,1,1,0,1] are 1 |
| `GroupStatistics.ExampleDatasetIsValid` | src/data_structure/dataset.py:51-65 | the example table with columns `protected_x` and `target_y` passes construction with exactly that classification |
| `GroupStatistics.DatasetWorkedExample` | src/data_structure/dataset.py:93-119 | on the example dataset group 1's outcomes are [1,0,1], groups 0 and 1 have one and two positive outcomes, the positive rate is 0.6, and an unknown protected column is a KeyError |
| `GroupStatistics.WorkedExampleProbMap` | src/data_structure/dataset.py:143-153 | on the example rows the only conditional probability map for outcome 1 is {0: 0.5, 1: 2/3} |
| `GroupSums.MemberCountsSumToRows` | src/data_structure/dataset.py:144-145 | the member counts of all groups add up to the number of rows |
| `GroupSums.AcceptedCountsSumToTotal` | src/data_structure/dataset.py:148-151 | the groups' counts of an outcome add up to that outcome's count over the whole column |
| `GroupSums.PositiveRateIsGroupWeighted` | src/data_structure/dataset.py:111-119 | the positive rate equals the sum of the groups' outcome-1 counts over the row count |
| `GroupStatistics.CondProbIsQuotient` | src/data_structure/dataset.py:150-151 | a group's conditional probability is its outcome count divided by its member count |
| `GroupSums.CondProbTimesCount` | src/data_structure/dataset.py:144-151 | a group's entry in the result map, weighted by its `protected_group_counts` entry, gives back its outcome count |
| `GroupSums.WeightedSumIsAcceptedCount` | src/data_structure/dataset.py:144-151 | weighting every group's conditional probability by its member count and adding up gives the groups' total outcome count |
| `GroupSums.PositiveRateIsWeightedMean` | src/data_structure/dataset.py:111-153 | the positive rate is the sum, over the groups, of each group's conditional probability of outcome 1 times its member count, divided by the row count |
| `GroupSums.BinaryOutcomesSplitGroup` | src/data_structure/dataset.py:127 | with outcomes in {0, 1}, a group's outcome-0 and outcome-1 counts add up to its size |
| `GroupSums.ConditionalProbsComplement` | src/data_structure/dataset.py:124-127 | with outcomes in {0, 1}, the maps for `accepted = 0` and `accepted = 1` have the same keys and add up to 1 per group |

## Left out

- Construction from a file name (`pd.read_csv` with separator sniffing, lines 45-47) is file I/O. Only construction from an in-memory table is modelled. The code leaves an input that is neither a string nor a table unhandled.
- `normalize_column` (lines 68-72) is floating-point mean/min/max arithmetic with no guard for `max == min`. It is the only operation that changes a dataset after construction. Leaving it out is why `Dataset` is an immutable datatype here.
- The `data` property returns the DataFrame itself, so callers can alias and mutate it. The model returns the table as a value.
- Cell types are abstracted by `Cell`. The model does not capture:
  - that a Python `int` is not a `numpy.integer`;
  - that NaN turns an integer column into a float column;
  - booleans comparing equal to 0 and 1;
  - that `unique()` compares by value, so in an object column a numpy integer and an equal float become one value and the first one kept decides the verdict; `Distinct` keeps both.
- Duplicate column names are not modelled. `Table.WellFormed` requires distinct names, so `data[name]` is always a single column.
- `np.unique` sorts the codes, so the result dictionary iterates in ascending key order. A Dafny `map` has no order, so the model keeps the keys and values only.
- `ProbPositiveClassification`: `value_counts().get(1, 0)` is modelled as the number of cells equal to 1. Older pandas can fall back to positional lookup on an index that holds no numbers. That fallback is not modelled.
- Float rounding of the divisions is not modelled. Probabilities are exact rationals.
- The unused import at line 9 (`dataset_length`) has no counterpart.
- Column labels are strings here. The code fails with `AttributeError` at line 51 when a label is not a string, for example an integer label.
