/**
 * The counts table that `NReporter` keeps (nreporter/nreporter.py), as values:
 * its rows and columns, the dataframe it is updated from, and what `update`
 * does to the table, with the properties of that bookkeeping.
 */
module CountsTable {
  import opened Wrappers
  import opened Validation

  /** A tracked variable: `'rows'`, a grouping variable or a non-null-count column. */
  type Var = string

  /** `_ROW_LABEL`: the pseudo-variable that counts the rows of the dataframe. */
  const RowLabel: Var := "rows"

  /** The description of row 0. */
  const InitLabel: string := "Init"

  /** The second level of a column key, `_COL_LABELS`: the count `N`, and its change `𝝙`. */
  datatype Metric = N | Delta

  /** A column key (tracked variable, metric). */
  datatype Column = Column(variable: Var, metric: Metric)

  /**
   * One row of the table, keyed by (step, description). `n` holds the `N`
   * columns and `delta` the `𝝙` columns; a delta of `None` is pandas' NaN,
   * which `diff` gives the first row because it has no predecessor.
   */
  datatype Row = Row(step: nat, description: string, n: map<Var, nat>, delta: map<Var, Option<int>>)

  /**
   * What `update` reads of a dataframe: `df.shape[0]`, `df.columns`,
   * `df.index.names`, `df.groupby(v).ngroups` and `df[v].count()`.
   */
  datatype Frame = Frame(
    rowCount: nat,
    columns: seq<Var>,
    indexNames: seq<Var>,
    groupCounts: map<Var, nat>,
    nonNullCounts: map<Var, nat>)
  {
    /** Every column and index level can be grouped by; every column has a non-null count. */
    predicate WellFormed()
    {
      && (forall v | v in columns :: v in groupCounts)
      && (forall v | v in indexNames :: v in groupCounts)
      && (forall v | v in columns :: v in nonNullCounts)
    }
  }

  /** `[_ROW_LABEL] + group_vars + nan_cols` */
  function TrackedVars(groupby: seq<Var>, nancols: seq<Var>): seq<Var>
  {
    [RowLabel] + groupby + nancols
  }

  /** `'rows'`, every group variable and every nan column are tracked. */
  lemma TrackedVarsCover(groupby: seq<Var>, nancols: seq<Var>)
    ensures RowLabel in TrackedVars(groupby, nancols)
    ensures forall v | v in groupby :: v in TrackedVars(groupby, nancols)
    ensures forall v | v in nancols :: v in TrackedVars(groupby, nancols)
  {
  }

  function VarSet(vars: seq<Var>): set<Var>
  {
    set v | v in vars
  }

  /**
   * `pd.MultiIndex.from_product([vars, _COL_LABELS])`: for each variable in
   * order, its `N` column followed by its `𝝙` column.
   */
  function Columns(vars: seq<Var>): (cols: seq<Column>)
    ensures |cols| == 2 * |vars|
    ensures forall i | 0 <= i < |vars| :: cols[2 * i] == Column(vars[i], N) && cols[2 * i + 1] == Column(vars[i], Delta)
  {
    if vars == [] then []
    else [Column(vars[0], N), Column(vars[0], Delta)] + Columns(vars[1..])
  }

  /** The column set is the product of the tracked variables with the two metrics. */
  lemma ColumnsAreProduct(vars: seq<Var>, c: Column)
    ensures c in Columns(vars) <==> c.variable in vars
  {
    var cols := Columns(vars);
    if c in cols {
      var k :| 0 <= k < |cols| && cols[k] == c;
      assert c.variable == vars[k / 2];
    }
    if c.variable in vars {
      var i :| 0 <= i < |vars| && vars[i] == c.variable;
      if c.metric == N { assert cols[2 * i] == c; } else { assert cols[2 * i + 1] == c; }
    }
  }

  /** `_delta_columns`: the columns whose metric is `𝝙`, in column order. */
  function DeltaColumnsOf(cols: seq<Column>): (r: seq<Column>)
    ensures forall c :: c in r <==> c in cols && c.metric == Delta
  {
    if cols == [] then []
    else if cols[0].metric == Delta then [cols[0]] + DeltaColumnsOf(cols[1..])
    else DeltaColumnsOf(cols[1..])
  }

  /** The delta columns of the table are one per tracked variable, in the variables' order. */
  lemma {:induction false} DeltaColumnsOfProduct(vars: seq<Var>)
    ensures |DeltaColumnsOf(Columns(vars))| == |vars|
    ensures forall i | 0 <= i < |vars| :: DeltaColumnsOf(Columns(vars))[i] == Column(vars[i], Delta)
  {
    if vars != [] {
      var cols := Columns(vars);
      var rest := Columns(vars[1..]);
      assert cols == [Column(vars[0], N), Column(vars[0], Delta)] + rest;
      assert cols[1..][1..] == rest;
      assert DeltaColumnsOf(cols) == DeltaColumnsOf(cols[1..]);
      assert DeltaColumnsOf(cols[1..]) == [Column(vars[0], Delta)] + DeltaColumnsOf(rest);
      var d, dr := DeltaColumnsOf(cols), DeltaColumnsOf(rest);
      DeltaColumnsOfProduct(vars[1..]);
      forall i | 0 <= i < |vars| ensures d[i] == Column(vars[i], Delta) {
        if i > 0 {
          assert d[i] == dr[i - 1];
          assert vars[1..][i - 1] == vars[i];
        }
      }
    }
  }

  /** A row of zeros, as `data=0` and `.loc[_irow, :] = 0` write it. */
  function ZeroRow(step: nat, description: string, vars: seq<Var>): Row
  {
    Row(step, description, map v | v in vars :: 0, map v | v in vars :: Some(0))
  }

  /** The table the constructor builds: the single row `(0, 'Init')`. */
  function InitialRows(vars: seq<Var>): seq<Row>
  {
    [ZeroRow(0, InitLabel, vars)]
  }

  predicate HasKey(row: Row, step: nat, description: string)
  {
    row.step == step && row.description == description
  }

  /** The position `.loc[(step, description)]` refers to: the first row with that key. */
  function Locate(rows: seq<Row>, step: nat, description: string): (r: Option<nat>)
    ensures r.Some? ==> r.value < |rows| && HasKey(rows[r.value], step, description)
    ensures r.Some? ==> forall j | 0 <= j < r.value :: !HasKey(rows[j], step, description)
    ensures r.None? ==> forall j | 0 <= j < |rows| :: !HasKey(rows[j], step, description)
  {
    if rows == [] then None
    else if HasKey(rows[0], step, description) then Some(0)
    else match Locate(rows[1..], step, description)
      case Some(k) => Some(k + 1)
      case None => None
  }

  /** The row `update` writes: the existing row with that key, or a new last row. */
  function TargetIndex(rows: seq<Row>, step: nat, description: string): (at: nat)
    ensures at <= |rows|
  {
    match Locate(rows, step, description)
    case Some(k) => k
    case None => |rows|
  }

  /** `.loc[(step, description), :] = 0`: overwrite the row with that key, or append one. */
  function Zeroed(rows: seq<Row>, step: nat, description: string, vars: seq<Var>): (r: seq<Row>)
    ensures |r| == if Locate(rows, step, description).Some? then |rows| else |rows| + 1
    ensures TargetIndex(rows, step, description) < |r|
    ensures r[TargetIndex(rows, step, description)] == ZeroRow(step, description, vars)
    ensures forall i | 0 <= i < |rows| && i != TargetIndex(rows, step, description) :: r[i] == rows[i]
  {
    var at := TargetIndex(rows, step, description);
    if at < |rows| then rows[at := ZeroRow(step, description, vars)]
    else rows + [ZeroRow(step, description, vars)]
  }

  /** `_set_total`: `.loc[row, (v, 'N')] = val` on the row at position `at`. */
  function SetN(rows: seq<Row>, at: nat, v: Var, val: nat): seq<Row>
    requires at < |rows|
  {
    rows[at := rows[at].(n := rows[at].n[v := val])]
  }

  /** The rows after one of the loops of `update`, and the exception it raised, if any. */
  datatype Fill = Fill(rows: seq<Row>, error: Option<ArgumentValueError<Var>>)

  /**
   * One loop of `update`: for each variable in turn, validate it against
   * `valid` under the argument name `argName`, then write its count.
   */
  function FillCounts(rows: seq<Row>, at: nat, argName: string, valid: seq<Var>, counts: map<Var, nat>, vars: seq<Var>): (f: Fill)
    requires at < |rows|
    requires forall v | v in valid :: v in counts
    ensures |f.rows| == |rows|
    decreases |vars|
  {
    if vars == [] then Fill(rows, None)
    else match CheckArgValue(argName, Scalar(vars[0]), valid)
      case Fail(e) => Fill(rows, Some(e))
      case Pass => FillCounts(SetN(rows, at, vars[0], counts[vars[0]]), at, argName, valid, counts, vars[1..])
  }

  /** The `𝝙` values of a row with a predecessor: the change of every `N` value. */
  function Diff(prev: Row, cur: Row): (d: map<Var, Option<int>>)
    ensures d.Keys == cur.n.Keys
  {
    map v | v in cur.n :: if v in prev.n then Some(cur.n[v] as int - prev.n[v] as int) else None
  }

  /** The `𝝙` values of the first row: NaN throughout, for want of a predecessor. */
  function NoPredecessor(row: Row): (d: map<Var, Option<int>>)
    ensures d.Keys == row.n.Keys
  {
    map v | v in row.n :: None
  }

  /**
   * `.loc[:, _delta_columns] = counts.xs('N', axis=1, level=1).diff(axis=0).values`:
   * every delta recomputed from the `N` values of the row above; NaN in row 0.
   */
  function WithDeltas(rows: seq<Row>): (r: seq<Row>)
    ensures |r| == |rows|
    ensures forall i {:trigger r[i]} | 0 <= i < |rows| ::
      r[i].step == rows[i].step && r[i].description == rows[i].description && r[i].n == rows[i].n
    decreases |rows|
  {
    if rows == [] then []
    else if |rows| == 1 then [rows[0].(delta := NoPredecessor(rows[0]))]
    else WithDeltas(rows[..|rows| - 1]) + [Last(rows).(delta := Diff(rows[|rows| - 2], Last(rows)))]
  }

  /** Every row below the first carries, per variable, the change of its count from the row above. */
  ghost predicate DeltasConsistent(rows: seq<Row>)
  {
    forall i, v {:trigger rows[i].delta[v]} | 1 <= i < |rows| && v in rows[i].n && v in rows[i - 1].n ::
      v in rows[i].delta && rows[i].delta[v] == Some(rows[i].n[v] as int - rows[i - 1].n[v] as int)
  }

  /** The table after `update`, and what the call returned or raised. */
  datatype Updated = Updated(rows: seq<Row>, currentI: nat, result: Result<Frame, ArgumentValueError<Var>>)

  /** The arguments `check_arg_value` is given for group variables. */
  function GroupNames(df: Frame): seq<Var>
  {
    df.columns + df.indexNames
  }

  /** The rows after `.loc[_irow, :] = 0` and the `'rows'` total. */
  function Counted(rows: seq<Row>, currentI: nat, vars: seq<Var>, df: Frame, description: string): seq<Row>
  {
    SetN(Zeroed(rows, currentI, description, vars), TargetIndex(rows, currentI, description), RowLabel, df.rowCount)
  }

  /**
   * The two loops of `update` after the row count is written: the group
   * variables, then, if none of them raised, the nan columns.
   */
  function Filled(rows: seq<Row>, currentI: nat, groupby: seq<Var>, nancols: seq<Var>, df: Frame, description: string): Fill
    requires df.WellFormed()
  {
    var at := TargetIndex(rows, currentI, description);
    var counted := Counted(rows, currentI, TrackedVars(groupby, nancols), df, description);
    var g := FillCounts(counted, at, "group_var", GroupNames(df), df.groupCounts, groupby);
    if g.error.Some? then g
    else FillCounts(g.rows, at, "nan_cols", df.columns, df.nonNullCounts, nancols)
  }

  /**
   * `update(df, description)` on a table with rows `rows` and counter
   * `currentI`, in the order of the source: zero the row, write the row count,
   * validate and write each group count, validate and write each non-null
   * count, recompute the deltas, advance the counter and return `df`. An
   * exception leaves the rows as far as they were written and the counter as it was.
   */
  function AfterUpdate(rows: seq<Row>, currentI: nat, groupby: seq<Var>, nancols: seq<Var>, df: Frame, description: string): Updated
    requires df.WellFormed()
  {
    var f := Filled(rows, currentI, groupby, nancols, df, description);
    if f.error.Some? then Updated(f.rows, currentI, Failure(f.error.value))
    else Updated(WithDeltas(f.rows), currentI + 1, Success(df))
  }

  function Last(rows: seq<Row>): Row
    requires rows != []
  {
    rows[|rows| - 1]
  }

  /** No two rows share a (step, description) key. */
  ghost predicate KeysUnique(rows: seq<Row>)
  {
    forall i, j | 0 <= i < j < |rows| :: !HasKey(rows[j], rows[i].step, rows[i].description)
  }

  /**
   * Step numbers start at 0 and climb by at most one from row to row; every
   * row after the first belongs to a step of `update`.
   */
  ghost predicate Staircase(rows: seq<Row>)
  {
    && rows != []
    && rows[0].step == 0
    && (forall i | 0 < i < |rows| :: 1 <= rows[i].step)
    && forall i, j | 0 <= i && j == i + 1 && j < |rows| :: rows[j].step == rows[i].step || rows[j].step == rows[i].step + 1
  }

  /**
   * What holds of the table between calls, whether or not the calls raised:
   * row 0 is `(0, 'Init')` with zero counts, every row has exactly the
   * tracked variables, keys are unique, the steps form a staircase whose last
   * step is the last successful one or the current one.
   */
  ghost predicate TableInvariant(rows: seq<Row>, currentI: nat, vars: seq<Var>)
  {
    && Staircase(rows)
    && rows[0].description == InitLabel
    && (forall v | v in rows[0].n :: rows[0].n[v] == 0)
    && (forall i | 0 <= i < |rows| :: rows[i].n.Keys == VarSet(vars) && rows[i].delta.Keys == VarSet(vars))
    && 1 <= currentI
    && (Last(rows).step == currentI - 1 || Last(rows).step == currentI)
    && KeysUnique(rows)
  }

  /** A history of successful updates only: row i is step i and the counter is the row count. */
  ghost predicate Consecutive(rows: seq<Row>, currentI: nat)
  {
    && |rows| == currentI
    && forall i | 0 <= i < |rows| :: rows[i].step == i
  }

  // ---------------------------------------------------------------------------
  // Lemmas

  /** The constructor's table: one zero row `(0, 'Init')`, and the invariant holds with counter 1. */
  lemma InitialTable(vars: seq<Var>)
    ensures |InitialRows(vars)| == 1
    ensures HasKey(InitialRows(vars)[0], 0, InitLabel)
    ensures InitialRows(vars)[0].n.Keys == VarSet(vars)
    ensures forall v | v in vars :: InitialRows(vars)[0].n[v] == 0 && InitialRows(vars)[0].delta[v] == Some(0)
    ensures TableInvariant(InitialRows(vars), 1, vars)
    ensures Consecutive(InitialRows(vars), 1)
  {
  }

  /** Steps never decrease down the table. */
  lemma {:induction false} StaircaseMonotone(rows: seq<Row>, i: nat, j: nat)
    requires Staircase(rows)
    requires i <= j < |rows|
    ensures rows[i].step <= rows[j].step
    decreases j - i
  {
    if i < j {
      StaircaseMonotone(rows, i, j - 1);
    }
  }

  /** Every step from 0 to the last one has a row. */
  lemma {:induction false} StaircaseCovers(rows: seq<Row>, s: nat)
    requires Staircase(rows)
    requires s <= Last(rows).step
    ensures exists i | 0 <= i < |rows| :: rows[i].step == s
  {
    if s == Last(rows).step {
      assert rows[|rows| - 1].step == s;
    } else {
      var prefix := rows[..|rows| - 1];
      assert |rows| > 1;
      assert Staircase(prefix);
      StaircaseCovers(prefix, s);
      var i :| 0 <= i < |prefix| && prefix[i].step == s;
      assert rows[i].step == s;
    }
  }

  /** Every step before the counter, in particular `prev_i`, has a row in a valid table. */
  lemma StepsBeforeCounterRecorded(rows: seq<Row>, currentI: nat, vars: seq<Var>, s: nat)
    requires TableInvariant(rows, currentI, vars)
    requires s < currentI
    ensures exists i | 0 <= i < |rows| :: rows[i].step == s
  {
    StaircaseCovers(rows, s);
  }

  /** After zeroing, the key is found at the target row. */
  lemma LocateZeroed(rows: seq<Row>, step: nat, description: string, vars: seq<Var>)
    ensures Locate(Zeroed(rows, step, description, vars), step, description) == Some(TargetIndex(rows, step, description))
  {
    var r := Zeroed(rows, step, description, vars);
    var at := TargetIndex(rows, step, description);
    assert HasKey(r[at], step, description);
    forall j | 0 <= j < at ensures !HasKey(r[j], step, description) {
      assert r[j] == rows[j];
    }
  }

  /** Locating a key only looks at the keys of the rows. */
  lemma LocateByKeys(a: seq<Row>, b: seq<Row>, step: nat, description: string)
    requires |a| == |b|
    requires forall i | 0 <= i < |a| :: a[i].step == b[i].step && a[i].description == b[i].description
    ensures Locate(a, step, description) == Locate(b, step, description)
  {
    var la, lb := Locate(a, step, description), Locate(b, step, description);
    if la.Some? {
      assert HasKey(b[la.value], step, description);
    }
    if lb.Some? {
      assert HasKey(a[lb.value], step, description);
    }
  }

  /** A zero row has exactly the tracked variables. */
  lemma ZeroRowKeys(step: nat, description: string, vars: seq<Var>)
    ensures ZeroRow(step, description, vars).n.Keys == VarSet(vars)
    ensures ZeroRow(step, description, vars).delta.Keys == VarSet(vars)
  {
  }

  /** Appending a zero row for the current step under a fresh key keeps the invariant. */
  lemma AppendKeepsInvariant(rows: seq<Row>, currentI: nat, description: string, vars: seq<Var>)
    requires TableInvariant(rows, currentI, vars)
    requires Locate(rows, currentI, description).None?
    ensures TableInvariant(rows + [ZeroRow(currentI, description, vars)], currentI, vars)
  {
    var r := rows + [ZeroRow(currentI, description, vars)];
    ZeroRowKeys(currentI, description, vars);
    assert Staircase(r);
    forall i, j | 0 <= i < j < |r| ensures !HasKey(r[j], r[i].step, r[i].description) {
      if j == |rows| {
        assert !HasKey(rows[i], currentI, description);
      } else {
        assert r[i] == rows[i] && r[j] == rows[j];
      }
    }
  }

  /** Zeroing the row for the current step keeps the invariant. */
  lemma ZeroedKeepsInvariant(rows: seq<Row>, currentI: nat, description: string, vars: seq<Var>)
    requires TableInvariant(rows, currentI, vars)
    ensures TableInvariant(Zeroed(rows, currentI, description, vars), currentI, vars)
  {
    var r := Zeroed(rows, currentI, description, vars);
    var at := TargetIndex(rows, currentI, description);
    if Locate(rows, currentI, description).Some? {
      ZeroRowKeys(currentI, description, vars);
      RowEditKeepsInvariant(rows, r, currentI, vars, at);
    } else {
      assert r == rows + [ZeroRow(currentI, description, vars)];
      AppendKeepsInvariant(rows, currentI, description, vars);
    }
  }

  /**
   * Changing only the counts of one row of the current step, without adding
   * or removing variables, keeps the invariant.
   */
  lemma RowEditKeepsInvariant(rows: seq<Row>, rows': seq<Row>, currentI: nat, vars: seq<Var>, at: nat)
    requires TableInvariant(rows, currentI, vars)
    requires at < |rows| == |rows'|
    requires rows[at].step == currentI
    requires forall i | 0 <= i < |rows| && i != at :: rows'[i] == rows[i]
    requires rows'[at].step == rows[at].step && rows'[at].description == rows[at].description
    requires rows'[at].delta.Keys == rows[at].delta.Keys && rows'[at].n.Keys == rows[at].n.Keys
    ensures TableInvariant(rows', currentI, vars)
  {
    assert at != 0;
    SameShapeKeepsInvariant(rows, rows', currentI, currentI, vars);
  }

  /**
   * A loop of `update` changes only the counts of row `at`, and of those only
   * the counts of the variables it visits; it adds no variable the row does
   * not already have.
   */
  lemma {:induction false} FillCountsFrame(rows: seq<Row>, at: nat, argName: string, valid: seq<Var>, counts: map<Var, nat>, vars: seq<Var>)
    requires at < |rows|
    requires forall v | v in valid :: v in counts
    ensures var f := FillCounts(rows, at, argName, valid, counts, vars);
      && |f.rows| == |rows|
      && (forall i | 0 <= i < |rows| && i != at :: f.rows[i] == rows[i])
      && f.rows[at].step == rows[at].step && f.rows[at].description == rows[at].description
      && f.rows[at].delta == rows[at].delta
      && (forall v | v in rows[at].n && v !in vars :: v in f.rows[at].n && f.rows[at].n[v] == rows[at].n[v])
      && ((forall v | v in vars :: v in rows[at].n) ==> f.rows[at].n.Keys == rows[at].n.Keys)
    decreases |vars|
  {
    if vars != [] {
      match CheckArgValue(argName, Scalar(vars[0]), valid)
      case Fail(_) =>
      case Pass =>
        var next := SetN(rows, at, vars[0], counts[vars[0]]);
        FillCountsFrame(next, at, argName, valid, counts, vars[1..]);
        assert forall v | v in vars[1..] :: v in vars;
    }
  }

  /**
   * A loop of `update` finishes exactly when every variable it visits is among
   * `valid`; it then has written every visited variable's count. Otherwise it
   * raised for the first variable that is not, with that variable as a
   * one-element list.
   */
  lemma {:induction false} FillCountsResult(rows: seq<Row>, at: nat, argName: string, valid: seq<Var>, counts: map<Var, nat>, vars: seq<Var>)
    requires at < |rows|
    requires forall v | v in valid :: v in counts
    ensures var f := FillCounts(rows, at, argName, valid, counts, vars);
      && |f.rows| == |rows|
      && (f.error.None? <==> forall v | v in vars :: v in valid)
      && (f.error.None? ==> forall v | v in vars :: v in f.rows[at].n && f.rows[at].n[v] == counts[v])
      && (f.error.Some? ==> exists k | 0 <= k < |vars| ::
            && vars[k] !in valid
            && (forall j | 0 <= j < k :: vars[j] in valid)
            && f.error.value == ArgumentValueError(argName, [vars[k]], valid))
    decreases |vars|
  {
    FillCountsFrame(rows, at, argName, valid, counts, vars);
    if vars != [] {
      var f := FillCounts(rows, at, argName, valid, counts, vars);
      match CheckArgValue(argName, Scalar(vars[0]), valid)
      case Fail(e) =>
        assert vars[0] !in valid;
        assert f.error.value == ArgumentValueError(argName, [vars[0]], valid);
      case Pass =>
        var next := SetN(rows, at, vars[0], counts[vars[0]]);
        FillCountsResult(next, at, argName, valid, counts, vars[1..]);
        FillCountsFrame(next, at, argName, valid, counts, vars[1..]);
        assert f == FillCounts(next, at, argName, valid, counts, vars[1..]);
        assert forall v | v in vars :: v == vars[0] || v in vars[1..];
        if f.error.Some? {
          var k :| 0 <= k < |vars[1..]| && vars[1..][k] !in valid
            && (forall j | 0 <= j < k :: vars[1..][j] in valid)
            && f.error.value == ArgumentValueError(argName, [vars[1..][k]], valid);
          assert vars[k + 1] == vars[1..][k];
          forall j | 0 <= j < k + 1 ensures vars[j] in valid {
            if j > 0 { assert vars[j] == vars[1..][j - 1]; }
          }
        }
    }
  }

  /** The position of the first variable that is not among `valid`, or `|vars|` when every one is. */
  function FirstInvalid(vars: seq<Var>, valid: seq<Var>): (k: nat)
    ensures k <= |vars|
    ensures forall j | 0 <= j < k :: vars[j] in valid
    ensures k < |vars| ==> vars[k] !in valid
    decreases |vars|
  {
    if vars == [] || vars[0] !in valid then 0
    else 1 + FirstInvalid(vars[1..], valid)
  }

  /**
   * What a loop of `update` has written into row `at` when it finishes or
   * raises: the count of every variable before the first invalid one, and
   * the old value of every variable not among them. It raises exactly when
   * some variable is invalid.
   */
  lemma {:induction false} FillCountsWritten(rows: seq<Row>, at: nat, argName: string, valid: seq<Var>, counts: map<Var, nat>, vars: seq<Var>)
    requires at < |rows|
    requires forall v | v in valid :: v in counts
    ensures var f := FillCounts(rows, at, argName, valid, counts, vars);
      var k := FirstInvalid(vars, valid);
      && |f.rows| == |rows|
      && (f.error.None? <==> k == |vars|)
      && (forall j | 0 <= j < k :: vars[j] in f.rows[at].n && vars[j] in counts && f.rows[at].n[vars[j]] == counts[vars[j]])
      && (forall v | v in rows[at].n && v !in vars[..k] :: v in f.rows[at].n && f.rows[at].n[v] == rows[at].n[v])
    decreases |vars|
  {
    var f := FillCounts(rows, at, argName, valid, counts, vars);
    var k := FirstInvalid(vars, valid);
    if vars != [] && vars[0] in valid {
      var next := SetN(rows, at, vars[0], counts[vars[0]]);
      var tail := vars[1..];
      FillCountsWritten(next, at, argName, valid, counts, tail);
      assert f == FillCounts(next, at, argName, valid, counts, tail);
      assert k == 1 + FirstInvalid(tail, valid);
      assert vars[..k] == [vars[0]] + tail[..k - 1];
      forall j | 0 <= j < k
        ensures vars[j] in f.rows[at].n && vars[j] in counts && f.rows[at].n[vars[j]] == counts[vars[j]]
      {
        if j > 0 {
          assert vars[j] == tail[j - 1];
        } else if vars[0] in tail[..k - 1] {
          var m :| 0 <= m < k - 1 && tail[..k - 1][m] == vars[0];
          assert tail[m] == vars[0];
        }
      }
    }
  }

  /** Row 0 gets NaN deltas and every other row the change from the row above. */
  lemma {:induction false} WithDeltasAt(rows: seq<Row>, i: nat)
    requires i < |rows|
    ensures WithDeltas(rows)[i].delta == if i == 0 then NoPredecessor(rows[0]) else Diff(rows[i - 1], rows[i])
    decreases |rows|
  {
    if i < |rows| - 1 {
      var prefix := rows[..|rows| - 1];
      WithDeltasAt(prefix, i);
      assert WithDeltas(rows)[i] == WithDeltas(prefix)[i];
    }
  }

  /** Recomputing the deltas makes every delta consistent; row 0's is NaN. */
  lemma WithDeltasSpec(rows: seq<Row>)
    ensures DeltasConsistent(WithDeltas(rows))
    ensures rows != [] ==> forall v | v in WithDeltas(rows)[0].delta :: WithDeltas(rows)[0].delta[v] == None
  {
    var r := WithDeltas(rows);
    forall i, v | 1 <= i < |r| && v in r[i].n && v in rows[i - 1].n
      ensures v in r[i].delta && r[i].delta[v] == Some(r[i].n[v] as int - rows[i - 1].n[v] as int)
    {
      WithDeltasAt(rows, i);
    }
    if rows != [] {
      WithDeltasAt(rows, 0);
    }
  }

  /** Recomputing the deltas a second time changes nothing. */
  lemma WithDeltasIdempotent(rows: seq<Row>)
    ensures WithDeltas(WithDeltas(rows)) == WithDeltas(rows)
  {
    var once := WithDeltas(rows);
    var twice := WithDeltas(once);
    forall i | 0 <= i < |once| ensures twice[i] == once[i] {
      if i == 0 {
        WithDeltasAt(rows, 0);
        WithDeltasAt(once, 0);
        assert NoPredecessor(once[0]) == NoPredecessor(rows[0]);
      } else {
        WithDeltasAt(rows, i);
        WithDeltasAt(once, i);
        assert Diff(once[i - 1], once[i]) == Diff(rows[i - 1], rows[i]);
      }
    }
  }

  /**
   * A table whose rows keep their keys, their variables and the counts of
   * row 0 satisfies the invariant for any counter that its last step allows.
   */
  lemma SameShapeKeepsInvariant(rows: seq<Row>, rows': seq<Row>, currentI: nat, currentI': nat, vars: seq<Var>)
    requires TableInvariant(rows, currentI, vars)
    requires |rows'| == |rows|
    requires forall i | 0 <= i < |rows| ::
      && rows'[i].step == rows[i].step && rows'[i].description == rows[i].description
      && rows'[i].n.Keys == rows[i].n.Keys && rows'[i].delta.Keys == rows[i].delta.Keys
    requires rows'[0].n == rows[0].n
    requires 1 <= currentI' && (Last(rows').step == currentI' - 1 || Last(rows').step == currentI')
    ensures TableInvariant(rows', currentI', vars)
  {
    assert Staircase(rows');
    forall i, j | 0 <= i < j < |rows'| ensures !HasKey(rows'[j], rows'[i].step, rows'[i].description) {
      assert !HasKey(rows[j], rows[i].step, rows[i].description);
    }
  }

  /** Recomputing the deltas leaves every row with the same variables in its delta columns. */
  lemma WithDeltasKeepsKeys(rows: seq<Row>, currentI: nat, vars: seq<Var>)
    requires TableInvariant(rows, currentI, vars)
    ensures forall i {:trigger WithDeltas(rows)[i]} | 0 <= i < |rows| :: WithDeltas(rows)[i].delta.Keys == rows[i].delta.Keys
  {
    var r := WithDeltas(rows);
    forall i | 0 <= i < |rows| ensures r[i].delta.Keys == rows[i].delta.Keys {
      WithDeltasAt(rows, i);
    }
  }

  /** Recomputing the deltas after the current step was written keeps the invariant with the counter advanced. */
  lemma WithDeltasKeepsInvariant(rows: seq<Row>, currentI: nat, vars: seq<Var>, at: nat)
    requires TableInvariant(rows, currentI, vars)
    requires at < |rows| && rows[at].step == currentI
    ensures TableInvariant(WithDeltas(rows), currentI + 1, vars)
  {
    StaircaseMonotone(rows, at, |rows| - 1);
    WithDeltasKeepsKeys(rows, currentI, vars);
    var r := WithDeltas(rows);
    SameShapeKeepsInvariant(rows, r, currentI, currentI + 1, vars);
  }

  /** The rows after `.loc[_irow, :] = 0` and the `'rows'` total. */
  lemma CountedFacts(rows: seq<Row>, currentI: nat, vars: seq<Var>, df: Frame, description: string)
    requires TableInvariant(rows, currentI, vars)
    requires RowLabel in vars
    ensures var at := TargetIndex(rows, currentI, description);
      var counted := Counted(rows, currentI, vars, df, description);
      && at < |counted| == |Zeroed(rows, currentI, description, vars)|
      && TableInvariant(counted, currentI, vars)
      && HasKey(counted[at], currentI, description)
      && counted[at].n.Keys == VarSet(vars)
      && counted[at].n[RowLabel] == df.rowCount
      && counted[at].delta == ZeroRow(currentI, description, vars).delta
      && (forall i | 0 <= i < |rows| && i != at :: counted[i] == rows[i])
  {
    var at := TargetIndex(rows, currentI, description);
    var zeroed := Zeroed(rows, currentI, description, vars);
    ZeroedKeepsInvariant(rows, currentI, description, vars);
    ZeroRowKeys(currentI, description, vars);
    RowEditKeepsInvariant(zeroed, Counted(rows, currentI, vars, df, description), currentI, vars, at);
  }

  /**
   * One loop of `update` on a row of the current step whose variables it
   * visits keeps the invariant, and changes only that row's counts.
   */
  lemma FillCountsKeepsInvariant(rows: seq<Row>, at: nat, argName: string, valid: seq<Var>, counts: map<Var, nat>, vars: seq<Var>, currentI: nat, tracked: seq<Var>)
    requires at < |rows| && rows[at].step == currentI
    requires forall v | v in valid :: v in counts
    requires forall v | v in vars :: v in rows[at].n
    requires TableInvariant(rows, currentI, tracked)
    ensures var f := FillCounts(rows, at, argName, valid, counts, vars);
      && |f.rows| == |rows|
      && TableInvariant(f.rows, currentI, tracked)
      && (forall i | 0 <= i < |rows| && i != at :: f.rows[i] == rows[i])
      && f.rows[at].step == rows[at].step && f.rows[at].description == rows[at].description
      && f.rows[at].delta == rows[at].delta
      && f.rows[at].n.Keys == rows[at].n.Keys
  {
    FillCountsFrame(rows, at, argName, valid, counts, vars);
    RowEditKeepsInvariant(rows, FillCounts(rows, at, argName, valid, counts, vars).rows, currentI, tracked, at);
  }

  /**
   * What the two loops of `update` leave: only the target row differs from
   * the rows before the call, it keeps its key, its variables and its zero
   * deltas, and the invariant holds.
   */
  lemma FilledFrame(rows: seq<Row>, currentI: nat, groupby: seq<Var>, nancols: seq<Var>, df: Frame, description: string)
    requires df.WellFormed()
    requires TableInvariant(rows, currentI, TrackedVars(groupby, nancols))
    ensures var vars := TrackedVars(groupby, nancols);
      var at := TargetIndex(rows, currentI, description);
      var f := Filled(rows, currentI, groupby, nancols, df, description);
      && at < |f.rows| == |Zeroed(rows, currentI, description, vars)|
      && TableInvariant(f.rows, currentI, vars)
      && HasKey(f.rows[at], currentI, description)
      && f.rows[at].delta == ZeroRow(currentI, description, vars).delta
      && (forall i | 0 <= i < |rows| && i != at :: f.rows[i] == rows[i])
  {
    var vars := TrackedVars(groupby, nancols);
    var at := TargetIndex(rows, currentI, description);
    var counted := Counted(rows, currentI, vars, df, description);
    CountedFacts(rows, currentI, vars, df, description);
    TrackedVarsCover(groupby, nancols);
    var g := FillCounts(counted, at, "group_var", GroupNames(df), df.groupCounts, groupby);
    FillCountsKeepsInvariant(counted, at, "group_var", GroupNames(df), df.groupCounts, groupby, currentI, vars);
    if g.error.None? {
      FillCountsKeepsInvariant(g.rows, at, "nan_cols", df.columns, df.nonNullCounts, nancols, currentI, vars);
    }
  }

  /**
   * The two loops of `update` finish exactly when every group variable is a
   * column or an index name and every nan column is a column; they then have
   * written every count. Otherwise the error names the first group variable
   * that is not found, or, if there is none, the first nan column that is not.
   */
  lemma FilledResult(rows: seq<Row>, currentI: nat, groupby: seq<Var>, nancols: seq<Var>, df: Frame, description: string)
    requires df.WellFormed()
    requires TableInvariant(rows, currentI, TrackedVars(groupby, nancols))
    ensures var at := TargetIndex(rows, currentI, description);
      var f := Filled(rows, currentI, groupby, nancols, df, description);
      && at < |f.rows|
      && (f.error.None? <==>
            (forall g | g in groupby :: g in GroupNames(df)) && (forall c | c in nancols :: c in df.columns))
      && (f.error.None? ==>
            && (forall c | c in nancols :: c in f.rows[at].n && c in df.nonNullCounts && f.rows[at].n[c] == df.nonNullCounts[c])
            && (forall g | g in groupby && g !in nancols :: g in f.rows[at].n && g in df.groupCounts && f.rows[at].n[g] == df.groupCounts[g])
            && (RowLabel !in groupby && RowLabel !in nancols ==> RowLabel in f.rows[at].n && f.rows[at].n[RowLabel] == df.rowCount))
      && (f.error.Some? ==>
          || (exists k | 0 <= k < |groupby| ::
                && groupby[k] !in GroupNames(df)
                && (forall j | 0 <= j < k :: groupby[j] in GroupNames(df))
                && f.error.value == ArgumentValueError("group_var", [groupby[k]], GroupNames(df)))
          || (&& (forall g | g in groupby :: g in GroupNames(df))
              && exists k | 0 <= k < |nancols| ::
                && nancols[k] !in df.columns
                && (forall j | 0 <= j < k :: nancols[j] in df.columns)
                && f.error.value == ArgumentValueError("nan_cols", [nancols[k]], df.columns)))
  {
    var vars := TrackedVars(groupby, nancols);
    var at := TargetIndex(rows, currentI, description);
    var counted := Counted(rows, currentI, vars, df, description);
    CountedFacts(rows, currentI, vars, df, description);
    var g := FillCounts(counted, at, "group_var", GroupNames(df), df.groupCounts, groupby);
    FillCountsResult(counted, at, "group_var", GroupNames(df), df.groupCounts, groupby);
    FillCountsFrame(counted, at, "group_var", GroupNames(df), df.groupCounts, groupby);
    if g.error.None? {
      FillCountsResult(g.rows, at, "nan_cols", df.columns, df.nonNullCounts, nancols);
      FillCountsFrame(g.rows, at, "nan_cols", df.columns, df.nonNullCounts, nancols);
    }
  }

  /** `update` preserves the table invariant, whether it returns or raises. */
  lemma UpdatePreservesInvariant(rows: seq<Row>, currentI: nat, groupby: seq<Var>, nancols: seq<Var>, df: Frame, description: string)
    requires df.WellFormed()
    requires TableInvariant(rows, currentI, TrackedVars(groupby, nancols))
    ensures var u := AfterUpdate(rows, currentI, groupby, nancols, df, description);
      TableInvariant(u.rows, u.currentI, TrackedVars(groupby, nancols))
  {
    FilledFrame(rows, currentI, groupby, nancols, df, description);
    var f := Filled(rows, currentI, groupby, nancols, df, description);
    if f.error.None? {
      WithDeltasKeepsInvariant(f.rows, currentI, TrackedVars(groupby, nancols), TargetIndex(rows, currentI, description));
    }
  }

  /**
   * `update` returns normally exactly when every group variable is a column
   * or an index name and every nan column is a column. It then returns the
   * dataframe unchanged and advances the counter by one; when it raises, the
   * counter stays.
   */
  lemma UpdateSucceedsIff(rows: seq<Row>, currentI: nat, groupby: seq<Var>, nancols: seq<Var>, df: Frame, description: string)
    requires df.WellFormed()
    requires TableInvariant(rows, currentI, TrackedVars(groupby, nancols))
    ensures var u := AfterUpdate(rows, currentI, groupby, nancols, df, description);
      && (u.result.Success? <==>
            (forall g | g in groupby :: g in df.columns || g in df.indexNames)
            && (forall c | c in nancols :: c in df.columns))
      && (u.result.Success? ==> u.result.value == df && u.currentI == currentI + 1)
      && (u.result.Failure? ==> u.currentI == currentI)
  {
    FilledResult(rows, currentI, groupby, nancols, df, description);
  }

  /**
   * When `update` raises, the error names the first group variable that is
   * neither a column nor an index name, or, if all of them are, the first nan
   * column that is not a column.
   */
  lemma UpdateFailureReason(rows: seq<Row>, currentI: nat, groupby: seq<Var>, nancols: seq<Var>, df: Frame, description: string)
    requires df.WellFormed()
    requires TableInvariant(rows, currentI, TrackedVars(groupby, nancols))
    requires AfterUpdate(rows, currentI, groupby, nancols, df, description).result.Failure?
    ensures var e := AfterUpdate(rows, currentI, groupby, nancols, df, description).result.error;
      || (exists k | 0 <= k < |groupby| ::
            && groupby[k] !in GroupNames(df)
            && (forall j | 0 <= j < k :: groupby[j] in GroupNames(df))
            && e == ArgumentValueError("group_var", [groupby[k]], GroupNames(df)))
      || (&& (forall g | g in groupby :: g in GroupNames(df))
          && exists k | 0 <= k < |nancols| ::
            && nancols[k] !in df.columns
            && (forall j | 0 <= j < k :: nancols[j] in df.columns)
            && e == ArgumentValueError("nan_cols", [nancols[k]], df.columns))
  {
    FilledResult(rows, currentI, groupby, nancols, df, description);
  }

  /**
   * `update` writes one row only, the one keyed (counter, description), which
   * is appended when no row has that key and overwritten in place otherwise.
   * Every other row keeps its key and its counts; when `update` raises, every
   * other row is left entirely as it was and the written row keeps the zero
   * deltas of `.loc[_irow, :] = 0`.
   */
  lemma UpdateWritesOneRow(rows: seq<Row>, currentI: nat, groupby: seq<Var>, nancols: seq<Var>, df: Frame, description: string)
    requires df.WellFormed()
    requires TableInvariant(rows, currentI, TrackedVars(groupby, nancols))
    ensures var u := AfterUpdate(rows, currentI, groupby, nancols, df, description);
      var at := TargetIndex(rows, currentI, description);
      && |u.rows| == (if Locate(rows, currentI, description).None? then |rows| + 1 else |rows|)
      && at < |u.rows|
      && HasKey(u.rows[at], currentI, description)
      && (forall i | 0 <= i < |rows| && i != at ::
            u.rows[i].step == rows[i].step && u.rows[i].description == rows[i].description && u.rows[i].n == rows[i].n)
      && (u.result.Failure? ==> forall i | 0 <= i < |rows| && i != at :: u.rows[i] == rows[i])
      && (u.result.Failure? ==> u.rows[at].delta == ZeroRow(currentI, description, TrackedVars(groupby, nancols)).delta)
  {
    FilledFrame(rows, currentI, groupby, nancols, df, description);
  }

  /** After `update`, the key (counter before the call, description) is found at the row it wrote. */
  lemma UpdateLocatesItsRow(rows: seq<Row>, currentI: nat, groupby: seq<Var>, nancols: seq<Var>, df: Frame, description: string)
    requires df.WellFormed()
    requires TableInvariant(rows, currentI, TrackedVars(groupby, nancols))
    ensures var u := AfterUpdate(rows, currentI, groupby, nancols, df, description);
      Locate(u.rows, currentI, description) == Some(TargetIndex(rows, currentI, description))
  {
    UpdateWritesOneRow(rows, currentI, groupby, nancols, df, description);
    var u := AfterUpdate(rows, currentI, groupby, nancols, df, description);
    var at := TargetIndex(rows, currentI, description);
    forall j | 0 <= j < at ensures !HasKey(u.rows[j], currentI, description) {
      assert !HasKey(rows[j], currentI, description);
    }
  }

  /**
   * A successful `update` with a description not yet used at this step
   * appends exactly one row, keyed (counter, description), after rows whose
   * keys and counts are unchanged.
   */
  lemma UpdateAppendsRow(rows: seq<Row>, currentI: nat, groupby: seq<Var>, nancols: seq<Var>, df: Frame, description: string)
    requires df.WellFormed()
    requires TableInvariant(rows, currentI, TrackedVars(groupby, nancols))
    requires Locate(rows, currentI, description).None?
    requires AfterUpdate(rows, currentI, groupby, nancols, df, description).result.Success?
    ensures var u := AfterUpdate(rows, currentI, groupby, nancols, df, description);
      && |u.rows| == |rows| + 1
      && HasKey(Last(u.rows), currentI, description)
      && (forall i | 0 <= i < |rows| ::
            u.rows[i].step == rows[i].step && u.rows[i].description == rows[i].description && u.rows[i].n == rows[i].n)
      && u.currentI == currentI + 1
  {
    UpdateWritesOneRow(rows, currentI, groupby, nancols, df, description);
  }

  /**
   * The row a successful `update` writes holds, for each nan column, its
   * non-null count; for each group variable that is not also a nan column
   * (those are written later), its number of groups; and for `'rows'`, unless
   * a later write claimed that name, the row count. It has exactly the tracked
   * variables.
   */
  lemma UpdateNewRowCounts(rows: seq<Row>, currentI: nat, groupby: seq<Var>, nancols: seq<Var>, df: Frame, description: string)
    requires df.WellFormed()
    requires TableInvariant(rows, currentI, TrackedVars(groupby, nancols))
    requires AfterUpdate(rows, currentI, groupby, nancols, df, description).result.Success?
    ensures var u := AfterUpdate(rows, currentI, groupby, nancols, df, description);
      var at := TargetIndex(rows, currentI, description);
      && at < |u.rows|
      && u.rows[at].n.Keys == VarSet(TrackedVars(groupby, nancols))
      && (forall c | c in nancols :: c in u.rows[at].n && c in df.nonNullCounts && u.rows[at].n[c] == df.nonNullCounts[c])
      && (forall g | g in groupby && g !in nancols :: g in u.rows[at].n && g in df.groupCounts && u.rows[at].n[g] == df.groupCounts[g])
      && (RowLabel !in groupby && RowLabel !in nancols ==> u.rows[at].n[RowLabel] == df.rowCount)
  {
    FilledFrame(rows, currentI, groupby, nancols, df, description);
    FilledResult(rows, currentI, groupby, nancols, df, description);
  }

  /**
   * After a successful `update` every row below the first carries, for every
   * tracked variable, N[i] - N[i-1] as its delta, and row 0's delta is NaN.
   */
  lemma UpdateDeltas(rows: seq<Row>, currentI: nat, groupby: seq<Var>, nancols: seq<Var>, df: Frame, description: string)
    requires df.WellFormed()
    requires TableInvariant(rows, currentI, TrackedVars(groupby, nancols))
    requires AfterUpdate(rows, currentI, groupby, nancols, df, description).result.Success?
    ensures var u := AfterUpdate(rows, currentI, groupby, nancols, df, description);
      && (forall i | 0 <= i < |u.rows| :: u.rows[i].n.Keys == VarSet(TrackedVars(groupby, nancols)))
      && DeltasConsistent(u.rows)
      && (forall v | v in TrackedVars(groupby, nancols) :: v in u.rows[0].delta && u.rows[0].delta[v] == None)
  {
    UpdatePreservesInvariant(rows, currentI, groupby, nancols, df, description);
    var f := Filled(rows, currentI, groupby, nancols, df, description);
    WithDeltasSpec(f.rows);
  }

  /**
   * From a history of successful updates only, another successful update
   * keeps the step numbers consecutive: the new row is step `currentI`, at
   * position `currentI`.
   */
  lemma UpdateKeepsConsecutive(rows: seq<Row>, currentI: nat, groupby: seq<Var>, nancols: seq<Var>, df: Frame, description: string)
    requires df.WellFormed()
    requires TableInvariant(rows, currentI, TrackedVars(groupby, nancols))
    requires Consecutive(rows, currentI)
    requires AfterUpdate(rows, currentI, groupby, nancols, df, description).result.Success?
    ensures var u := AfterUpdate(rows, currentI, groupby, nancols, df, description);
      Consecutive(u.rows, u.currentI)
  {
    assert Locate(rows, currentI, description).None? by {
      forall j | 0 <= j < |rows| ensures !HasKey(rows[j], currentI, description) {
        assert rows[j].step == j < currentI;
      }
    }
    UpdateAppendsRow(rows, currentI, groupby, nancols, df, description);
  }

  /** The target row after `.loc[_irow, :] = 0` and the `'rows'` total: the row count and zeros. */
  lemma CountedRow(rows: seq<Row>, currentI: nat, vars: seq<Var>, df: Frame, description: string)
    ensures var at := TargetIndex(rows, currentI, description);
      var counted := Counted(rows, currentI, vars, df, description);
      && at < |counted|
      && counted[at].n.Keys == VarSet(vars) + {RowLabel}
      && (forall v | v in counted[at].n :: counted[at].n[v] == if v == RowLabel then df.rowCount else 0)
  {
  }

  /**
   * When a group variable raises, the target row holds the group counts of
   * the group variables before it, the row count under `'rows'` unless one
   * of them is named so, and 0 for every other variable.
   */
  lemma FilledGroupFailure(rows: seq<Row>, currentI: nat, groupby: seq<Var>, nancols: seq<Var>, df: Frame, description: string)
    requires df.WellFormed()
    requires FirstInvalid(groupby, GroupNames(df)) < |groupby|
    ensures var f := Filled(rows, currentI, groupby, nancols, df, description);
      var at := TargetIndex(rows, currentI, description);
      var kg := FirstInvalid(groupby, GroupNames(df));
      && f.error.Some?
      && at < |f.rows|
      && (forall j | 0 <= j < kg :: groupby[j] in f.rows[at].n && groupby[j] in df.groupCounts && f.rows[at].n[groupby[j]] == df.groupCounts[groupby[j]])
      && (forall v | v in TrackedVars(groupby, nancols) && v !in groupby[..kg] ::
            v in f.rows[at].n && f.rows[at].n[v] == (if v == RowLabel then df.rowCount else 0))
  {
    var vars := TrackedVars(groupby, nancols);
    var at := TargetIndex(rows, currentI, description);
    var counted := Counted(rows, currentI, vars, df, description);
    CountedRow(rows, currentI, vars, df, description);
    FillCountsWritten(counted, at, "group_var", GroupNames(df), df.groupCounts, groupby);
  }

  /**
   * When every group variable is found and a nan column raises, the target
   * row holds every group count, the non-null counts of the nan columns
   * before the offending one (overwriting group counts of the same names),
   * the row count under `'rows'` unless renamed so, and 0 for every other variable.
   */
  lemma FilledNanFailure(rows: seq<Row>, currentI: nat, groupby: seq<Var>, nancols: seq<Var>, df: Frame, description: string)
    requires df.WellFormed()
    requires FirstInvalid(groupby, GroupNames(df)) == |groupby|
    requires FirstInvalid(nancols, df.columns) < |nancols|
    ensures var f := Filled(rows, currentI, groupby, nancols, df, description);
      var at := TargetIndex(rows, currentI, description);
      var kn := FirstInvalid(nancols, df.columns);
      && f.error.Some?
      && at < |f.rows|
      && (forall j | 0 <= j < kn :: nancols[j] in f.rows[at].n && nancols[j] in df.nonNullCounts && f.rows[at].n[nancols[j]] == df.nonNullCounts[nancols[j]])
      && (forall v | v in groupby && v !in nancols[..kn] :: v in f.rows[at].n && v in df.groupCounts && f.rows[at].n[v] == df.groupCounts[v])
      && (forall v | v in TrackedVars(groupby, nancols) && v !in groupby && v !in nancols[..kn] ::
            v in f.rows[at].n && f.rows[at].n[v] == (if v == RowLabel then df.rowCount else 0))
  {
    var vars := TrackedVars(groupby, nancols);
    var at := TargetIndex(rows, currentI, description);
    var counted := Counted(rows, currentI, vars, df, description);
    CountedRow(rows, currentI, vars, df, description);
    var g := FillCounts(counted, at, "group_var", GroupNames(df), df.groupCounts, groupby);
    FillCountsWritten(counted, at, "group_var", GroupNames(df), df.groupCounts, groupby);
    assert groupby[..|groupby|] == groupby;
    forall v | v in groupby ensures v in g.rows[at].n && v in df.groupCounts && g.rows[at].n[v] == df.groupCounts[v] {
      var j :| 0 <= j < |groupby| && groupby[j] == v;
    }
    FillCountsWritten(g.rows, at, "nan_cols", df.columns, df.nonNullCounts, nancols);
  }

  /**
   * The row a failed `update` leaves, in one of the two cases above: a
   * group variable raised, or every group variable was found and a nan
   * column raised. Deltas of the next successful `update` are taken against
   * these counts.
   */
  lemma UpdateFailedRowCounts(rows: seq<Row>, currentI: nat, groupby: seq<Var>, nancols: seq<Var>, df: Frame, description: string)
    requires df.WellFormed()
    requires AfterUpdate(rows, currentI, groupby, nancols, df, description).result.Failure?
    ensures var u := AfterUpdate(rows, currentI, groupby, nancols, df, description);
      var at := TargetIndex(rows, currentI, description);
      var kg := FirstInvalid(groupby, GroupNames(df));
      var kn := FirstInvalid(nancols, df.columns);
      && at < |u.rows|
      && (kg < |groupby| ==>
            && (forall j | 0 <= j < kg :: groupby[j] in u.rows[at].n && groupby[j] in df.groupCounts && u.rows[at].n[groupby[j]] == df.groupCounts[groupby[j]])
            && (forall v | v in TrackedVars(groupby, nancols) && v !in groupby[..kg] ::
                  v in u.rows[at].n && u.rows[at].n[v] == (if v == RowLabel then df.rowCount else 0)))
      && (kg == |groupby| ==>
            && kn < |nancols|
            && (forall j | 0 <= j < kn :: nancols[j] in u.rows[at].n && nancols[j] in df.nonNullCounts && u.rows[at].n[nancols[j]] == df.nonNullCounts[nancols[j]])
            && (forall v | v in groupby && v !in nancols[..kn] :: v in u.rows[at].n && v in df.groupCounts && u.rows[at].n[v] == df.groupCounts[v])
            && (forall v | v in TrackedVars(groupby, nancols) && v !in groupby && v !in nancols[..kn] ::
                  v in u.rows[at].n && u.rows[at].n[v] == (if v == RowLabel then df.rowCount else 0)))
  {
    var vars := TrackedVars(groupby, nancols);
    var at := TargetIndex(rows, currentI, description);
    var counted := Counted(rows, currentI, vars, df, description);
    var kg := FirstInvalid(groupby, GroupNames(df));
    if kg < |groupby| {
      FilledGroupFailure(rows, currentI, groupby, nancols, df, description);
    } else {
      var g := FillCounts(counted, at, "group_var", GroupNames(df), df.groupCounts, groupby);
      CountedRow(rows, currentI, vars, df, description);
      FillCountsWritten(counted, at, "group_var", GroupNames(df), df.groupCounts, groupby);
      FillCountsWritten(g.rows, at, "nan_cols", df.columns, df.nonNullCounts, nancols);
      FilledNanFailure(rows, currentI, groupby, nancols, df, description);
    }
  }
}
