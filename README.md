# nreporter, modelled in Dafny

`nreporter` keeps an audit trail of sample sizes through a chain of dataframe
filters. An `NReporter` is built with a list of grouping variables and a list
of columns whose non-null values are counted. Each call to
`update(df, description)` records one row, keyed (step, description), in a
counts table. The row holds:

- the number of rows of `df`;
- the number of groups for each grouping variable;
- the number of non-null values for each tracked column.

Each count also has a delta column, the change from the row above. Arguments
are validated by `check_arg_value`, which raises an `ArgumentValueError` that
names the argument, the values it was given (as a list) and the allowed values.

The project has four modules:

- `Wrappers` (wrappers.dfy): `Option`, `Result` and `Outcome` (pass, or fail with an error).
- `Validation` (validation.dfy): `iterable`, `check_arg_value` and `ArgumentValueError`, as pure functions with lemmas.
- `CountsTable` (counts.dfy): what the reporter reads of a dataframe (`Frame`), as values. Also the counts table as a sequence of rows, with the effect of `update` on it as a function (`AfterUpdate`) and the properties of that function.
- `Reporter` (reporter.dfy): the class `NReporter`. Its fields are updated in place, like the Python object's. Its methods loop as the source does and are proved against the `CountsTable` functions.

How the model reads the table:

- A row is located by its key, as `.loc` does. When a row with the key `(current_i, description)` exists, `update` overwrites it in place. Such a row is one left by an earlier `update` that raised. When no row has the key, `update` appends one.
- A delta of `None` is pandas' NaN. `diff` gives it to row 0, which has no predecessor.
- A raised exception is a `Failure` result. The rows stay as far as they had been written, and the step counter stays where it was.

What `update` leaves in the table, beyond the new counts:

- `update` overwrites the row of a failed update at the same step with the same description, rather than appending a second row with that key.
- After a successful `update`, row 0's deltas are NaN, because `diff` gives row 0 no predecessor.
- The row a failed `update` wrote keeps the zero deltas of `.loc[_irow, :] = 0`. Its counts are those written before the exception: the row count, the counts of the variables checked before the offending one, and 0 for the rest. The next successful `update` computes its deltas against that row.

## Model

| member | source | states |
|---|---|---|
| Validation.Iterable | nreporter/nreporter.py:6-18 | defines `iterable`: an argument is either a single value (a string is one) or an iterable of elements; `ScalarIsSingleton` and `Normalize` state how the two cases are treated |
| Validation.Normalize | nreporter/nreporter.py:64-65 | defines the wrapping of a non-iterable argument into a one-element list, used by `check_arg_value` and by the constructor (lines 90-98); `ScalarIsSingleton`, `NReporter.constructor` and `ConstructorColumnsCorrected` state its effect |
| Validation.AllValid | nreporter/nreporter.py:67 | the `all(...)` test holds exactly when every element of the values is among the valid values |
| Validation.CheckArgValue | nreporter/nreporter.py:36-68 | returns normally exactly when every element of the normalized argument is valid; otherwise the error carries the argument name, the normalized values and the valid values |
| Validation.ScalarIsSingleton | nreporter/nreporter.py:6-18 | a non-iterable argument (including a string) is validated exactly as the one-element list holding it, and passes iff it is a valid value |
| Validation.CheckDependsOnElementsOnly | nreporter/nreporter.py:64-68 | validating a concatenation passes iff both parts pass; only the set of elements matters, not their order or repetition |
| Validation.DocstringExamples | nreporter/nreporter.py:46-62 | the six docstring examples: `arg1`, `arg3` and `arg5` pass; `arg2`, `arg4` and `arg6` raise with the listed values |
| CountsTable.Columns | nreporter/nreporter.py:101-103 | the column keys of `MultiIndex.from_product`: two per tracked variable, (v, N) at 2i and (v, 𝝙) at 2i+1 |
| CountsTable.ColumnsAreProduct | nreporter/nreporter.py:101-103 | a key is a column of the table iff its variable is tracked |
| CountsTable.DeltaColumnsOf | nreporter/nreporter.py:119-123 | the selected keys are exactly the column keys whose metric is 𝝙 |
| CountsTable.DeltaColumnsOfProduct | nreporter/nreporter.py:119-123 | on the product columns, the 𝝙 keys are one per tracked variable, in column order |
| CountsTable.InitialTable | nreporter/nreporter.py:100-109 | the new table has the single row (0, 'Init'), with every count and every delta 0; it satisfies the table invariant at counter 1 and its steps are consecutive |
| CountsTable.Locate | nreporter/nreporter.py:126-128 | `.loc` on a row key finds the first row with that key, or reports that none has it |
| CountsTable.Zeroed | nreporter/nreporter.py:131-132 | `.loc[_irow, :] = 0` overwrites the row with the key in place, or appends a zero row; every other row is unchanged |
| CountsTable.LocateZeroed | nreporter/nreporter.py:131-133 | after zeroing, the key is found at the zeroed row, so `_set_total` writes into it |
| CountsTable.ZeroedKeepsInvariant | nreporter/nreporter.py:131-132 | zeroing the current step's row keeps the table invariant: steps non-decreasing by at most one, row 0 all zero, keys unique, every row tracking exactly the tracked variables |
| CountsTable.AppendKeepsInvariant | nreporter/nreporter.py:132 | appending a zero row under a fresh key of the current step keeps the table invariant |
| CountsTable.FillCounts | nreporter/nreporter.py:135-145 | defines one counting loop: validate each variable in turn with `check_arg_value`, stop at the first that raises, otherwise write its count with `_set_total`; its contract keeps the row count of the table, and `FillCountsFrame`, `FillCountsResult` and `FillCountsWritten` state what it writes and when it raises |
| CountsTable.FillCountsFrame | nreporter/nreporter.py:135-145 | a counting loop writes only the N values of the target row, only for variables among those it was given |
| CountsTable.FillCountsKeepsInvariant | nreporter/nreporter.py:135-145 | a counting loop over variables the target row of the current step has keeps the table invariant and changes no other row, and no key, delta or set of variables of the target row |
| CountsTable.FillCountsResult | nreporter/nreporter.py:135-145 | a counting loop raises iff some variable is not valid, and then names the first one; otherwise every variable's count is written, the later write winning |
| CountsTable.FirstInvalid | nreporter/nreporter.py:135-145 | the position of the first variable a loop rejects: every earlier one is valid and that one is not, or the length when all are valid |
| CountsTable.FillCountsWritten | nreporter/nreporter.py:135-145 | a counting loop raises iff a variable is rejected; the variables before the first rejected one hold their counts, and every other variable keeps its old value |
| CountsTable.CountedFacts | nreporter/nreporter.py:131-133 | after zeroing and `_set_total('rows')` the table invariant holds, the target row has its key and exactly the tracked variables, 'rows' holds the row count, and the other rows are untouched |
| CountsTable.CountedRow | nreporter/nreporter.py:131-133 | after zeroing and `_set_total('rows')`, the target row holds the row count under 'rows' and 0 for every other tracked variable |
| CountsTable.Filled | nreporter/nreporter.py:131-145 | defines lines 131-145 in sequence: zero the row, write the row count, run the group loop and, if it did not raise, the nan loop; `FilledFrame`, `FilledResult`, `FilledGroupFailure` and `FilledNanFailure` state its properties |
| CountsTable.FilledFrame | nreporter/nreporter.py:131-145 | after both counting loops, whether they raise or not, only the target row differs, it keeps its key and zero deltas, and the invariant holds |
| CountsTable.FilledResult | nreporter/nreporter.py:135-145 | the loops finish iff every group variable is a column or index name and every nan column is a column; then all counts are written; otherwise the first offending variable is named |
| CountsTable.FilledGroupFailure | nreporter/nreporter.py:133-139 | when a group variable raises, the row holds the group counts of the group variables before it, the row count under 'rows', and 0 for the rest |
| CountsTable.FilledNanFailure | nreporter/nreporter.py:133-145 | when a nan column raises, the row holds every group count, the non-null counts of the nan columns before it, the row count under 'rows', and 0 for the rest |
| CountsTable.Diff | nreporter/nreporter.py:147-152 | `diff` gives every tracked variable of a row a delta |
| CountsTable.WithDeltas | nreporter/nreporter.py:147-152 | recomputing the deltas leaves every row's key and counts as they were |
| CountsTable.WithDeltasAt | nreporter/nreporter.py:147-152 | after recomputing, row i's delta is its difference with row i-1, and NaN for row 0 |
| CountsTable.WithDeltasSpec | nreporter/nreporter.py:147-152 | after recomputing, every delta equals N[i] - N[i-1], and row 0's deltas are NaN |
| CountsTable.WithDeltasIdempotent | nreporter/nreporter.py:147-152 | recomputing the deltas twice gives the same table as once |
| CountsTable.WithDeltasKeepsInvariant | nreporter/nreporter.py:147-154 | recomputing the deltas and advancing the counter keeps the table invariant |
| CountsTable.StepsBeforeCounterRecorded | nreporter/nreporter.py:111-117 | every step before the counter has a row in the table |
| CountsTable.AfterUpdate | nreporter/nreporter.py:130-155 | defines `update` on the table: `Filled`, then, on a raise, the rows as written with the counter unchanged, and otherwise the recomputed deltas, the counter plus one and `df` returned; the `Update...` lemmas below state its properties, and `NReporter.Update` is proved to produce it |
| CountsTable.UpdatePreservesInvariant | nreporter/nreporter.py:130-155 | `update` keeps the table invariant, whether it returns or raises |
| CountsTable.UpdateSucceedsIff | nreporter/nreporter.py:130-155 | `update` returns iff every group variable is a column or index name and every nan column is a column; it then returns `df` and advances the counter by one; when it raises, the counter stays |
| CountsTable.UpdateFailureReason | nreporter/nreporter.py:135-145 | when `update` raises, the error names the first invalid group variable (`group_var`), or else the first invalid nan column (`nan_cols`), with the valid names |
| CountsTable.UpdateWritesOneRow | nreporter/nreporter.py:131-152 | `update` writes only the row keyed (current_i, description): overwritten in place if present, appended otherwise; other rows keep keys and counts, and on failure they are untouched and the written row keeps zero deltas (its counts: `UpdateFailedRowCounts`) |
| CountsTable.UpdateFailedRowCounts | nreporter/nreporter.py:131-145 | the counts of the row a failed `update` leaves behind: the counts written before the exception (row count, the group counts and non-null counts checked so far) and 0 for the rest |
| CountsTable.UpdateLocatesItsRow | nreporter/nreporter.py:131-133 | after `update`, the key (old counter, description) is found at the row it wrote |
| CountsTable.UpdateAppendsRow | nreporter/nreporter.py:130-155 | a successful `update` under a fresh description appends exactly one row after unchanged rows |
| CountsTable.UpdateNewRowCounts | nreporter/nreporter.py:133-145 | the new row holds each nan column's non-null count, each other group variable's group count and, unless overwritten, the row count, for exactly the tracked variables |
| CountsTable.UpdateDeltas | nreporter/nreporter.py:147-152 | after a successful `update`, each row's deltas are N[i] - N[i-1] and row 0's are NaN |
| CountsTable.UpdateKeepsConsecutive | nreporter/nreporter.py:130-155 | when every update so far has succeeded, row i is step i, and a further successful update keeps that |
| Reporter.NReporter.constructor | nreporter/nreporter.py:76-109 | scalar arguments are wrapped in lists; the columns are the product of the tracked variables and the metrics; one zero row (0, 'Init'); counter 1; invariant established |
| Reporter.NReporter.CurrentI | nreporter/nreporter.py:111-113 | the counter is at least 1, and the last row was written at this step or the one before |
| Reporter.NReporter.PrevI | nreporter/nreporter.py:115-117 | one less than the counter, and a step that has a row in the table |
| Reporter.NReporter.DeltaColumns | nreporter/nreporter.py:119-123 | exactly the (v, 𝝙) keys, one per tracked variable, in column order |
| Reporter.NReporter.SetTotal | nreporter/nreporter.py:125-128 | writes the value into (var, N) of the row keyed (current_i, desc) and changes nothing else |
| Reporter.NReporter.CountAll | nreporter/nreporter.py:135-145 | one counting loop as a method; its new rows and raised error are those of `FillCounts` |
| Reporter.NReporter.FillRow | nreporter/nreporter.py:131-145 | zeroing the row, writing the row count and running both counting loops leaves the rows and the raised error that `Filled` defines, and changes no other field |
| Reporter.NReporter.Update | nreporter/nreporter.py:130-155 | the new rows, counter and result are those of `AfterUpdate`, so the invariant and the lemmas above hold of the object |
| Reporter.ConstructorColumnsAsWritten | nreporter/nreporter.py:100-103 | line 102 as written: building the columns raises `TypeError` iff either argument is not iterable |
| Reporter.SingleGroupNameRaises | nreporter/nreporter.py:90-103 | `NReporter('hatch_id')` is normalized to `['hatch_id']` but raises on line 102 |
| Reporter.ConstructorColumnsCorrected | nreporter/nreporter.py:90-103 | the corrected columns agree with line 102 on list arguments, and a single name counts as a one-element list |
| Reporter.TwoUpdates | nreporter/nreporter.py:76-155 | two successful updates of a fresh reporter give rows of steps 0, 1, 2 and counter 3 |

## Left out

- `report()` (nreporter/nreporter.py:160-173) is not modelled. It renders the table through IPython and pandas styling. It shows the rows from index 1 on, cast to int, with signed deltas.
- The exception message and `__str__` (nreporter/nreporter.py:24-33) are not modelled. `ArgumentValueError` keeps only its three fields.
- `__deepcopy__` (nreporter/nreporter.py:157-158) is not modelled. `deepcopy` is never imported (lines 1-4), so a direct `__deepcopy__()` call raises `NameError` before anything recurses. `copy.deepcopy` of a reporter calls `__deepcopy__` with a memo argument it does not accept, which raises `TypeError`. Object copying is outside the table model.
- setup.py is not part of this model.
- pandas and the dataframe are inputs: `Frame` carries the row count, the column and index names, `groupby(v).ngroups` and `count()` for each name. How pandas computes them is not modelled.
- When a name is both a column and an index level, pandas' `groupby` ambiguity error is not modelled.
- Tuples, which are iterable, are not distinguished from lists. A tuple argument to the constructor also makes line 102 raise `TypeError` (list plus tuple); `Arg.Items` stands for lists only.
- Aliasing of the constructor arguments is not modelled. Lines 93 and 98 keep the caller's own list, including the shared default `[]`. When the caller later appends a name to it, `_set_total` (line 128) adds a new (v, N) column, and the delta assignment of lines 147-152 then meets more N columns than delta columns. `Reporter.NReporter` stores `groupby` and `nancols` as values, so the variables tracked are fixed at construction.
- `iterable` (line 16) uses `collections.Iterable`, which Python 3.10 removed. There, `iterable` raises `AttributeError`, so the constructor and every `check_arg_value` raise. The model follows the Python versions that still provide the alias (3.6 to 3.9).
- Names are modelled as strings (`Var`). An unnamed index level (`None`, as `df.index.names` is `[None]` for a default RangeIndex) and non-string labels (such as the integer columns of a frame built from an array) are not represented. So the model's `valid_vals` for `group_var`, `GroupNames(df)`, leaves out the `None` entries that line 137 passes, and the error of `UpdateFailureReason` differs from the source's in them; non-string columns cannot be tracked.
- CountsTable.UpdateFailureReason: the valid names in its error are `df.columns + df.indexNames` without the `None` of an unnamed index level (previous line).
- Python default arguments are not modelled; `Items([])` stands for the default `[]`.
- Float dtypes are not modelled: counts are naturals and deltas are integers or NaN (`None`).
- Duplicate tracked names are not modelled faithfully. They arise from a variable that is both grouped and nan-counted (`NReporter(['x'], ['x'])`), from a repeated name, or from a group variable named `'rows'`, and they give duplicate pandas columns. For the N values written at lines 128-145, the model keeps one value per name, the last one written, which is what every duplicate column then holds. At lines 147-152 the model breaks down: `_delta_columns` (line 122) lists a duplicated (v, 𝝙) key once per copy, `.loc` resolves each copy to every matching column, and the selection then has more columns than the `xs('N')` values, so pandas evidently raises `ValueError` there, after every count is written and before the counter advances at line 154. The model instead recomputes the deltas and returns normally.
- CountsTable.AfterUpdate: for duplicate tracked names it returns normally where the source evidently raises at line 147 with the counter unchanged (previous line).
- CountsTable.UpdateSucceedsIff: its success condition and counter claims hold only when the tracked names `TrackedVars(groupby, nancols)` are distinct; with duplicates the source evidently raises at line 147 even when every name is found.
- CountsTable.UpdateDeltas: like `UpdateSucceedsIff`, it is about a successful `update`, which for duplicate tracked names the source evidently does not reach.
- CountsTable.UpdateAppendsRow: like `UpdateSucceedsIff`, it is about a successful `update`, which for duplicate tracked names the source evidently does not reach.
- CountsTable.UpdateNewRowCounts: like `UpdateSucceedsIff`, it is about a successful `update`, which for duplicate tracked names the source evidently does not reach.
- CountsTable.UpdateKeepsConsecutive: like `UpdateSucceedsIff`, it is about a successful `update`, which for duplicate tracked names the source evidently does not reach.
- Reporter.NReporter.SetTotal: requires the row to exist and the name to be tracked. `.loc` enlargement on a missing row, or on an untracked name (which would add a (v, N) column to every row), is not modelled, because `update` always writes the row before calling it and passes only tracked names.
- CountsTable.FillCounts: its own contract states only the length; `FillCountsFrame` and `FillCountsResult` state what it computes.

## Findings

| source | as written | input that shows it | evidently intended | confidence | as-written member | corrected member |
|---|---|---|---|---|---|---|
| nreporter/nreporter.py:102 | the columns are built from the raw `group_vars` and `nan_cols` arguments, not from the normalized `self._groupby` and `self._nancols` | `NReporter('hatch_id')`: `['rows'] + 'hatch_id'` raises `TypeError` | a single name is wrapped in a list (lines 90-98) and is then tracked like a list of one | high (not executed) | Reporter.ConstructorColumnsAsWritten, Reporter.SingleGroupNameRaises | Reporter.NReporter.constructor, Reporter.ConstructorColumnsCorrected |
