/**
 * The `NReporter` class of nreporter/nreporter.py: a counts table updated in
 * place, step by step, as a dataframe is filtered.
 */
module Reporter {
  import opened Wrappers
  import opened Validation
  import opened CountsTable

  /**
   * The reporter. `groupby` and `nancols` are the normalized constructor
   * arguments, `columns` the column keys of the table, `rows` its rows in
   * order and `currentI` the step the next `update` writes.
   */
  class NReporter {
    var groupby: seq<Var>
    var nancols: seq<Var>
    var columns: seq<Column>
    var rows: seq<Row>
    var currentI: nat

    /** The column keys are the product of the tracked variables and the metrics; the rows keep the table invariant. */
    ghost predicate Valid()
      reads this
    {
      && columns == Columns(TrackedVars(groupby, nancols))
      && TableInvariant(rows, currentI, TrackedVars(groupby, nancols))
    }

    /**
     * `NReporter(group_vars, nan_cols)`: a single value is wrapped in a list;
     * the table has the columns (v, N) and (v, 𝝙) for `'rows'`, each group
     * variable and each nan column, and one row (0, 'Init') of zeros. The
     * columns are built from the normalized lists (see `ConstructorColumnsAsWritten`).
     */
    constructor (groupVars: Arg<Var>, nanCols: Arg<Var>)
      ensures Valid()
      ensures groupby == Normalize(groupVars) && nancols == Normalize(nanCols)
      ensures columns == Columns(TrackedVars(groupby, nancols))
      ensures rows == InitialRows(TrackedVars(groupby, nancols))
      ensures currentI == 1
    {
      var gb := Normalize(groupVars);
      var nc := Normalize(nanCols);
      groupby := gb;
      nancols := nc;
      columns := Columns(TrackedVars(gb, nc));
      rows := InitialRows(TrackedVars(gb, nc));
      currentI := 1;
      InitialTable(TrackedVars(gb, nc));
    }

    /**
     * `current_i`: the step the next `update` writes. The last row is of this
     * step (a failed update left it) or of the one before.
     */
    function CurrentI(): (r: nat)
      reads this
      requires Valid()
      ensures 1 <= r
      ensures Last(rows).step == r || Last(rows).step + 1 == r
    {
      currentI
    }

    /** `prev_i`: the step before the current one, which has a row in the table. */
    function PrevI(): (r: nat)
      reads this
      requires Valid()
      ensures r + 1 == CurrentI()
      ensures exists i | 0 <= i < |rows| :: rows[i].step == r
    {
      StepsBeforeCounterRecorded(rows, currentI, TrackedVars(groupby, nancols), currentI - 1);
      currentI - 1
    }

    /** `_delta_columns`: the (v, 𝝙) column keys, one per tracked variable, in column order. */
    function DeltaColumns(): (r: seq<Column>)
      reads this
      requires Valid()
      ensures |r| == |TrackedVars(groupby, nancols)|
      ensures forall i | 0 <= i < |r| :: r[i] == Column(TrackedVars(groupby, nancols)[i], Delta)
      ensures forall c :: c in r <==> c.metric == Delta && c.variable in TrackedVars(groupby, nancols)
    {
      var vars := TrackedVars(groupby, nancols);
      DeltaColumnsOfProduct(vars);
      assert forall c :: c in DeltaColumnsOf(columns) <==> c.metric == Delta && c.variable in vars by {
        forall c ensures c in DeltaColumnsOf(columns) <==> c.metric == Delta && c.variable in vars {
          ColumnsAreProduct(vars, c);
        }
      }
      DeltaColumnsOf(columns)
    }

    /** `_set_total(desc, var, val)`: writes `val` into (var, N) of the row (current step, desc). */
    method SetTotal(description: string, v: Var, val: nat)
      requires Locate(rows, currentI, description).Some?
      requires v in TrackedVars(groupby, nancols)
      modifies this
      ensures rows == SetN(old(rows), old(Locate(rows, currentI, description)).value, v, val)
      ensures groupby == old(groupby) && nancols == old(nancols) && columns == old(columns) && currentI == old(currentI)
      ensures Locate(rows, currentI, description) == old(Locate(rows, currentI, description))
    {
      var at := Locate(rows, currentI, description).value;
      var before := rows;
      rows := SetN(rows, at, v, val);
      LocateByKeys(before, rows, currentI, description);
    }

    /**
     * One loop of `update`: for each variable of `vars` in turn,
     * `check_arg_value(argName, v, valid)`, then `_set_total(description, v,
     * counts[v])`. Stops at the first variable that is not valid and returns
     * the error it raised.
     */
    method CountAll(argName: string, vars: seq<Var>, valid: seq<Var>, counts: map<Var, nat>, description: string)
      returns (error: Option<ArgumentValueError<Var>>)
      requires Locate(rows, currentI, description).Some?
      requires forall v | v in vars :: v in TrackedVars(groupby, nancols)
      requires forall v | v in valid :: v in counts
      modifies this
      ensures groupby == old(groupby) && nancols == old(nancols) && columns == old(columns) && currentI == old(currentI)
      ensures Locate(rows, currentI, description) == old(Locate(rows, currentI, description))
      ensures var f := FillCounts(old(rows), old(Locate(rows, currentI, description)).value, argName, valid, counts, vars);
        rows == f.rows && error == f.error
    {
      var at := Locate(rows, currentI, description).value;
      ghost var start := rows;
      for k := 0 to |vars|
        invariant groupby == old(groupby) && nancols == old(nancols) && columns == old(columns) && currentI == old(currentI)
        invariant Locate(rows, currentI, description) == Some(at)
        invariant FillCounts(rows, at, argName, valid, counts, vars[k..]) == FillCounts(start, at, argName, valid, counts, vars)
      {
        var v := vars[k];
        var check := CheckArgValue(argName, Scalar(v), valid);
        if check.Fail? {
          return Some(check.error);
        }
        SetTotal(description, v, counts[v]);
        assert vars[k..][1..] == vars[k + 1..];
      }
      assert vars[|vars|..] == [];
      error := None;
    }

    /**
     * Lines 131-145 of `update`: zero the row (current step, description),
     * write the row count, then the group counts and the non-null counts,
     * stopping at the first variable that raises. Returns the error raised, if any.
     */
    method FillRow(df: Frame, description: string) returns (error: Option<ArgumentValueError<Var>>)
      requires df.WellFormed()
      modifies this
      ensures groupby == old(groupby) && nancols == old(nancols) && columns == old(columns) && currentI == old(currentI)
      ensures var f := Filled(old(rows), old(currentI), groupby, nancols, df, description);
        rows == f.rows && error == f.error
    {
      var vars := TrackedVars(groupby, nancols);
      TrackedVarsCover(groupby, nancols);
      LocateZeroed(rows, currentI, description, vars);

      rows := Zeroed(rows, currentI, description, vars);
      SetTotal(description, RowLabel, df.rowCount);

      error := CountAll("group_var", groupby, GroupNames(df), df.groupCounts, description);
      if error.Some? {
        return;
      }
      error := CountAll("nan_cols", nancols, df.columns, df.nonNullCounts, description);
    }

    /**
     * `update(df, description)`: the table becomes what `AfterUpdate` says, so
     * it keeps its invariant, and the call returns `df` exactly when every
     * group variable and nan column is found (`UpdateSucceedsIff`).
     */
    method Update(df: Frame, description: string) returns (r: Result<Frame, ArgumentValueError<Var>>)
      requires Valid() && df.WellFormed()
      modifies this
      ensures Valid()
      ensures groupby == old(groupby) && nancols == old(nancols) && columns == old(columns)
      ensures var u := AfterUpdate(old(rows), old(currentI), groupby, nancols, df, description);
        rows == u.rows && currentI == u.currentI && r == u.result
    {
      ghost var u := AfterUpdate(rows, currentI, groupby, nancols, df, description);
      ghost var f := Filled(rows, currentI, groupby, nancols, df, description);
      UpdatePreservesInvariant(rows, currentI, groupby, nancols, df, description);
      assert TableInvariant(u.rows, u.currentI, TrackedVars(groupby, nancols));
      var error := FillRow(df, description);
      assert rows == f.rows && error == f.error;
      if error.Some? {
        assert rows == u.rows && currentI == u.currentI;
        return Failure(error.value);
      }
      rows := WithDeltas(rows);
      currentI := currentI + 1;
      assert rows == u.rows && currentI == u.currentI;
      r := Success(df);
    }
  }

  /** Python's `TypeError` for `list + str`: only the fact that it is raised is modelled. */
  datatype TypeError = CannotConcatenate

  /**
   * The column keys as line 102 builds them, from the raw constructor
   * arguments rather than the normalized lists: `[_ROW_LABEL] + group_vars +
   * nan_cols` raises a `TypeError` as soon as either argument is a single value.
   */
  function ConstructorColumnsAsWritten(groupVars: Arg<Var>, nanCols: Arg<Var>): (r: Result<seq<Column>, TypeError>)
    ensures r.Success? <==> Iterable(groupVars) && Iterable(nanCols)
    ensures r.Success? ==> r.value == Columns(TrackedVars(groupVars.items, nanCols.items))
  {
    if groupVars.Scalar? || nanCols.Scalar? then Failure(CannotConcatenate)
    else Success(Columns([RowLabel] + groupVars.items + nanCols.items))
  }

  /**
   * A single name, as lines 90-98 allow (`NReporter('hatch_id')`), is
   * normalized to `['hatch_id']`, and the constructor then fails on line 102.
   */
  lemma SingleGroupNameRaises()
    ensures Normalize(Scalar("hatch_id")) == ["hatch_id"]
    ensures ConstructorColumnsAsWritten(Scalar("hatch_id"), Items([])).Failure?
  {
  }

  /**
   * The corrected constructor builds exactly the columns of line 102 when
   * both arguments are lists, and treats a single value as a one-element list.
   */
  lemma ConstructorColumnsCorrected(groupVars: Arg<Var>, nanCols: Arg<Var>)
    ensures var cols := Columns(TrackedVars(Normalize(groupVars), Normalize(nanCols)));
      && (Iterable(groupVars) && Iterable(nanCols) ==> ConstructorColumnsAsWritten(groupVars, nanCols) == Success(cols))
      && cols == ConstructorColumnsAsWritten(Items(Normalize(groupVars)), Items(Normalize(nanCols))).value
      && (forall v :: Column(v, N) in cols <==> v == RowLabel || v in Normalize(groupVars) || v in Normalize(nanCols))
  {
    var vars := TrackedVars(Normalize(groupVars), Normalize(nanCols));
    forall v ensures Column(v, N) in Columns(vars) <==> v == RowLabel || v in Normalize(groupVars) || v in Normalize(nanCols) {
      ColumnsAreProduct(vars, Column(v, N));
    }
  }

  /** Two updates on a fresh reporter; the reporter then holds the three rows of steps 0, 1 and 2. */
  method TwoUpdates(df1: Frame, df2: Frame) returns (reporter: NReporter)
    requires df1.WellFormed() && df2.WellFormed()
    requires "hatch_id" in df1.columns && "hatch_id" in df2.columns
    ensures |reporter.rows| == 3 && reporter.currentI == 3
    ensures forall i | 0 <= i < 3 :: reporter.rows[i].step == i
  {
    reporter := new NReporter(Items(["hatch_id"]), Items([]));
    InitialTable(TrackedVars(["hatch_id"], []));
    var r1 := reporter.Update(df1, "filtered");
    assert forall g | g in reporter.groupby :: g in df1.columns;
    UpdateSucceedsIff(InitialRows(TrackedVars(["hatch_id"], [])), 1, ["hatch_id"], [], df1, "filtered");
    UpdateKeepsConsecutive(InitialRows(TrackedVars(["hatch_id"], [])), 1, ["hatch_id"], [], df1, "filtered");
    ghost var rows1 := reporter.rows;
    var r2 := reporter.Update(df2, "filtered again");
    UpdateSucceedsIff(rows1, 2, ["hatch_id"], [], df2, "filtered again");
    UpdateKeepsConsecutive(rows1, 2, ["hatch_id"], [], df2, "filtered again");
  }
}
