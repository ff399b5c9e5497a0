/** The O*NET task-path table: every task statement joined to the detailed
    work activities (DWAs) it is mapped to, each DWA joined to its
    intermediate work activities (IWAs) and general work activities, one row
    per combination, and in each row the path from the work activity down to
    the task written into one column.

    A table is a header and a list of records. A cell that is missing (NaN in
    the script's tables) is a column the record's map does not hold. */
module TaskPaths {
  import opened Taxonomy
  import Text
  import LevelColumns

  // ---------------------------------------------------------------------------
  // Column names

  const SocCode: string := "O*NET-SOC Code"
  const TaskId: string := "Task ID"
  const TaskColumn: string := "Task"
  const DwaId: string := "DWA ID"
  const DwaTitle: string := "DWA Title"
  const IwaId: string := "IWA ID"
  const IwaTitle: string := "IWA Title"
  const ElementId: string := "Element ID"
  const ElementName: string := "Element Name"
  const WaElementId: string := "WA_Element_ID"
  const WaElementName: string := "WA_Element_Name"
  const PathColumn: string := "Hierarchy_Path"

  /** The task columns the output starts with, when the task table has them. */
  const TaskColumns: seq<string> :=
    [SocCode, "Title", TaskId, TaskColumn, "Task Type", "Incumbents Responding", "Date", "Domain Source"]

  /** The columns the output always ends with. */
  const HierarchyColumns: seq<string> :=
    [DwaId, DwaTitle, IwaId, IwaTitle, WaElementId, WaElementName, PathColumn]

  /** The cells the path is built from, from the top of the hierarchy down. */
  const PathFields: seq<string> := [WaElementName, IwaTitle, DwaTitle, TaskColumn]

  datatype Table = Table(columns: seq<string>, rows: seq<Record>)

  /** A cell of a row: None when it is missing. */
  function Cell(row: Record, c: string): Option<string>
  {
    if c in row then Some(row[c]) else None
  }

  // ---------------------------------------------------------------------------
  // The path string of one row

  /** The cells of `row` in `fields` that are not missing, in field order. */
  function Present(row: Record, fields: seq<string>): (vals: seq<string>)
    ensures |vals| <= |fields|
    ensures forall v :: v in vals ==> exists f :: f in fields && f in row && row[f] == v
  {
    if fields == [] then []
    else (if fields[0] in row then [row[fields[0]]] else []) + Present(row, fields[1..])
  }

  /** The cell `f` as a list of zero or one values. */
  function Opt(row: Record, f: string): seq<string>
  {
    if f in row then [row[f]] else []
  }

  lemma {:induction false} PresentAppend(row: Record, a: seq<string>, b: seq<string>)
    ensures Present(row, a + b) == Present(row, a) + Present(row, b)
    decreases |a|
  {
    if a != [] {
      assert (a + b)[1..] == a[1..] + b;
      PresentAppend(row, a[1..], b);
    } else {
      assert a + b == b;
    }
  }

  lemma PresentOne(row: Record, f: string)
    ensures Present(row, [f]) == Opt(row, f)
  {
    assert [f][1..] == [];
  }

  /** The present path components, in order: work activity name, IWA title,
      DWA title, task; a missing one is left out and the others keep their
      places. */
  lemma PathPartsInOrder(row: Record)
    ensures Present(row, PathFields) ==
      Opt(row, WaElementName) + Opt(row, IwaTitle) + Opt(row, DwaTitle) + Opt(row, TaskColumn)
  {
    var lower := [DwaTitle] + [TaskColumn];
    var middle := [IwaTitle] + lower;
    assert PathFields == [WaElementName] + middle;
    PresentAppend(row, [WaElementName], middle);
    PresentAppend(row, [IwaTitle], lower);
    PresentAppend(row, [DwaTitle], [TaskColumn]);
    PresentOne(row, WaElementName);
    PresentOne(row, IwaTitle);
    PresentOne(row, DwaTitle);
    PresentOne(row, TaskColumn);
  }

  /** No component is present exactly when every field is missing. */
  lemma {:induction false} PresentEmpty(row: Record, fields: seq<string>)
    ensures Present(row, fields) == [] <==> forall f :: f in fields ==> f !in row
    decreases |fields|
  {
    if fields != [] {
      PresentEmpty(row, fields[1..]);
      assert forall f :: f in fields <==> f == fields[0] || f in fields[1..];
    }
  }

  /** With every field present, the components are the fields' cells one by one. */
  lemma {:induction false} PresentAll(row: Record, fields: seq<string>)
    requires forall f :: f in fields ==> f in row
    ensures |Present(row, fields)| == |fields|
    ensures forall i :: 0 <= i < |fields| ==> Present(row, fields)[i] == row[fields[i]]
    decreases |fields|
  {
    if fields != [] {
      PresentAll(row, fields[1..]);
      var vals := Present(row, fields);
      assert vals == [row[fields[0]]] + Present(row, fields[1..]);
      forall i | 0 <= i < |fields| ensures vals[i] == row[fields[i]] {
        if i > 0 {
          assert vals[i] == Present(row, fields[1..])[i - 1];
        }
      }
    }
  }

  /** What `create_path_string` returns: None when all four components are
      missing, otherwise the present ones joined by " ; ". */
  function PathString(row: Record): Option<string>
  {
    var parts := Present(row, PathFields);
    if parts == [] then None else Some(Text.Join(parts))
  }

  /** `create_path_string`: the present components are collected one field
      at a time into a list, which is then joined. */
  method CreatePathString(row: Record) returns (path: Option<string>)
    ensures path == PathString(row)
  {
    var components: seq<string> := [];
    if WaElementName in row {
      components := components + [row[WaElementName]];
    }
    assert components == Opt(row, WaElementName);
    if IwaTitle in row {
      components := components + [row[IwaTitle]];
    }
    assert components == Opt(row, WaElementName) + Opt(row, IwaTitle);
    if DwaTitle in row {
      components := components + [row[DwaTitle]];
    }
    assert components == Opt(row, WaElementName) + Opt(row, IwaTitle) + Opt(row, DwaTitle);
    if TaskColumn in row {
      components := components + [row[TaskColumn]];
    }
    assert components == Opt(row, WaElementName) + Opt(row, IwaTitle) + Opt(row, DwaTitle) + Opt(row, TaskColumn);
    PathPartsInOrder(row);
    if components != [] {
      path := Some(Text.Join(components));
    } else {
      path := None;
    }
  }

  /** The path is missing exactly when all four components are. */
  lemma PathStringNone(row: Record)
    ensures PathString(row) == None <==> forall f :: f in PathFields ==> f !in row
  {
    PresentEmpty(row, PathFields);
  }

  /** When no component contains ';', splitting the path on " ; " gives the
      present components back, in order. */
  lemma PathStringSplits(row: Record)
    requires forall f :: f in PathFields && f in row ==> Text.NoSemicolon(row[f])
    ensures PathString(row).Some? ==> Text.Split(PathString(row).value) == Present(row, PathFields)
  {
    var parts := Present(row, PathFields);
    if parts != [] {
      forall v | v in parts ensures Text.NoSemicolon(v) {
        var f :| f in PathFields && f in row && row[f] == v;
      }
      Text.SplitJoin(parts);
    }
  }

  /** A row with all four components has a path of exactly four parts. */
  lemma FullPath(row: Record)
    requires forall f :: f in PathFields ==> f in row
    requires forall f :: f in PathFields ==> Text.NoSemicolon(row[f])
    ensures PathString(row).Some?
    ensures Text.Split(PathString(row).value) ==
      [row[WaElementName], row[IwaTitle], row[DwaTitle], row[TaskColumn]]
  {
    PathPartsInOrder(row);
    PathStringSplits(row);
  }

  // ---------------------------------------------------------------------------
  // Left joins

  /** `l` and `r` agree on every key column. Two missing keys agree, as they
      do in a pandas merge. */
  predicate KeysMatch(l: Record, r: Record, keys: seq<string>)
  {
    forall k :: k in keys ==> Cell(l, k) == Cell(r, k)
  }

  /** The rows of `right` that match `l`, in the order of `right`. */
  function Matches(l: Record, right: seq<Record>, keys: seq<string>): (ms: seq<Record>)
    ensures |ms| <= |right|
  {
    if right == [] then []
    else (if KeysMatch(l, right[0], keys) then [right[0]] else []) + Matches(l, right[1..], keys)
  }

  /** The matches are the rows of `right` that match `l`. */
  lemma {:induction false} MatchesAre(l: Record, right: seq<Record>, keys: seq<string>)
    ensures forall r :: r in Matches(l, right, keys) <==> r in right && KeysMatch(l, r, keys)
    decreases |right|
  {
    if right != [] {
      MatchesAre(l, right[1..], keys);
      assert right == [right[0]] + right[1..];
    }
  }

  lemma MatchesCons(l: Record, x: Record, rest: seq<Record>, keys: seq<string>)
    ensures Matches(l, [x] + rest, keys) == (if KeysMatch(l, x, keys) then [x] else []) + Matches(l, rest, keys)
  {
    assert ([x] + rest)[0] == x && ([x] + rest)[1..] == rest;
  }

  lemma {:induction false} MatchesAppend(l: Record, a: seq<Record>, b: seq<Record>, keys: seq<string>)
    ensures Matches(l, a + b, keys) == Matches(l, a, keys) + Matches(l, b, keys)
    decreases |a|
  {
    if a != [] {
      var rest := a[1..];
      assert a == [a[0]] + rest;
      assert a + b == [a[0]] + (rest + b);
      MatchesCons(l, a[0], rest, keys);
      MatchesCons(l, a[0], rest + b, keys);
      MatchesAppend(l, rest, b, keys);
      var first := if KeysMatch(l, a[0], keys) then [a[0]] else [];
      Text.Associative(first, Matches(l, rest, keys), Matches(l, b, keys));
    } else {
      assert a + b == b;
    }
  }

  /** Each matching row of `right` is matched as often as it occurs there,
      and no other row is. */
  lemma {:induction false} MatchesCount(l: Record, right: seq<Record>, keys: seq<string>)
    ensures forall r ::
      multiset(Matches(l, right, keys))[r] == if KeysMatch(l, r, keys) then multiset(right)[r] else 0
    decreases |right|
  {
    if right != [] {
      MatchesCount(l, right[1..], keys);
      assert right == [right[0]] + right[1..];
      assert multiset(right) == multiset{right[0]} + multiset(right[1..]);
    }
  }

  /** `l` with the columns `take` of `r`; those `r` lacks are missing. */
  function Combine(l: Record, r: Record, take: set<string>): Record
  {
    (l - take) + (map c | c in take && c in r :: r[c])
  }

  /** The rows a left join makes of one left row: one per matching right row,
      in order, or the left row alone, with the `take` columns missing, when
      nothing matches. */
  function JoinOne(l: Record, right: seq<Record>, keys: seq<string>, take: set<string>): (rows: seq<Record>)
    ensures |rows| >= 1
  {
    var ms := Matches(l, right, keys);
    if ms == [] then [l - take]
    else seq(|ms|, i requires 0 <= i < |ms| => Combine(l, ms[i], take))
  }

  /** `left.merge(right, on=keys, how='left')`, with `take` the columns the
      right table adds: the left rows in order, each expanded by JoinOne. */
  function LeftJoin(left: seq<Record>, right: seq<Record>, keys: seq<string>, take: set<string>): (rows: seq<Record>)
    ensures |rows| >= |left|
  {
    if left == [] then []
    else JoinOne(left[0], right, keys, take) + LeftJoin(left[1..], right, keys, take)
  }

  /** A left row with `k >= 1` matching right rows yields `k` rows, one with
      none yields exactly one. */
  lemma JoinOneCount(l: Record, right: seq<Record>, keys: seq<string>, take: set<string>)
    ensures |JoinOne(l, right, keys, take)| == if |Matches(l, right, keys)| == 0 then 1 else |Matches(l, right, keys)|
    ensures Matches(l, right, keys) == [] <==> forall r :: r in right ==> !KeysMatch(l, r, keys)
  {
    var ms := Matches(l, right, keys);
    MatchesAre(l, right, keys);
    if ms != [] {
      assert ms[0] in ms;
    }
  }

  /** The rows made of one left row: the left row combined with each right
      row that matches it, or, when none does, the left row with the `take`
      columns missing. */
  lemma JoinOneRows(l: Record, right: seq<Record>, keys: seq<string>, take: set<string>, row: Record)
    ensures row in JoinOne(l, right, keys, take) <==>
      (exists r :: r in right && KeysMatch(l, r, keys) && row == Combine(l, r, take)) ||
      ((forall r :: r in right ==> !KeysMatch(l, r, keys)) && row == l - take)
  {
    var ms := Matches(l, right, keys);
    var rows := JoinOne(l, right, keys, take);
    JoinOneCount(l, right, keys, take);
    MatchesAre(l, right, keys);
    if ms != [] {
      if row in rows {
        var i :| 0 <= i < |rows| && rows[i] == row;
        assert ms[i] in ms;
      }
      if exists r :: r in right && KeysMatch(l, r, keys) && row == Combine(l, r, take) {
        var r :| r in right && KeysMatch(l, r, keys) && row == Combine(l, r, take);
        var i :| 0 <= i < |ms| && ms[i] == r;
        assert rows[i] == row;
      }
    }
  }

  /** Every row made of a left row keeps that row's cells outside `take`. */
  lemma JoinOneKeeps(l: Record, right: seq<Record>, keys: seq<string>, take: set<string>)
    ensures forall row :: row in JoinOne(l, right, keys, take) ==>
      forall c :: c in l && c !in take ==> c in row && row[c] == l[c]
  {
    forall row | row in JoinOne(l, right, keys, take)
      ensures forall c :: c in l && c !in take ==> c in row && row[c] == l[c]
    {
      JoinOneRows(l, right, keys, take, row);
    }
  }

  /** The join keeps the order of the left table. */
  lemma {:induction false} LeftJoinAppend(a: seq<Record>, b: seq<Record>, right: seq<Record>, keys: seq<string>, take: set<string>)
    ensures LeftJoin(a + b, right, keys, take) == LeftJoin(a, right, keys, take) + LeftJoin(b, right, keys, take)
    decreases |a|
  {
    if a != [] {
      var l, rest := a[0], a[1..];
      assert a == [l] + rest;
      Text.Associative([l], rest, b);
      LeftJoinCons(l, rest + b, right, keys, take);
      LeftJoinAppend(rest, b, right, keys, take);
      Text.Associative(JoinOne(l, right, keys, take), LeftJoin(rest, right, keys, take), LeftJoin(b, right, keys, take));
    } else {
      assert a + b == b;
    }
  }

  lemma LeftJoinCons(l: Record, rest: seq<Record>, right: seq<Record>, keys: seq<string>, take: set<string>)
    ensures LeftJoin([l] + rest, right, keys, take) == JoinOne(l, right, keys, take) + LeftJoin(rest, right, keys, take)
  {
    assert ([l] + rest)[1..] == rest;
  }

  /** The joined rows are exactly the rows JoinOne makes of some left row. */
  lemma {:induction false} LeftJoinRows(left: seq<Record>, right: seq<Record>, keys: seq<string>, take: set<string>, row: Record)
    ensures row in LeftJoin(left, right, keys, take) <==>
      exists i :: 0 <= i < |left| && row in JoinOne(left[i], right, keys, take)
    decreases |left|
  {
    if left != [] {
      LeftJoinRows(left[1..], right, keys, take, row);
      if exists i :: 0 <= i < |left| && row in JoinOne(left[i], right, keys, take) {
        var i :| 0 <= i < |left| && row in JoinOne(left[i], right, keys, take);
        if i > 0 {
          assert left[1..][i - 1] == left[i];
        }
      }
      if row in LeftJoin(left[1..], right, keys, take) {
        var i :| 0 <= i < |left[1..]| && row in JoinOne(left[1..][i], right, keys, take);
        assert left[1..][i] == left[i + 1];
      }
    }
  }

  /** No left row is lost: each has at least one joined row, and every
      joined row of it keeps its cells outside `take`. */
  lemma LeftJoinKeepsLeft(left: seq<Record>, right: seq<Record>, keys: seq<string>, take: set<string>, i: nat)
    requires i < |left|
    ensures exists row ::
      row in LeftJoin(left, right, keys, take) && forall c :: c in left[i] && c !in take ==> c in row && row[c] == left[i][c]
  {
    var rows := JoinOne(left[i], right, keys, take);
    assert rows[0] in rows;
    JoinOneKeeps(left[i], right, keys, take);
    LeftJoinRows(left, right, keys, take, rows[0]);
  }

  // ---------------------------------------------------------------------------
  // The output columns

  /** The task columns the table has, in their fixed order, then the seven
      hierarchy columns. */
  function ColumnOrder(available: set<string>): seq<string>
  {
    LevelColumns.Filter(TaskColumns, c => c in available) + HierarchyColumns
  }

  /** A column is in the output exactly when it is a task column the table
      has or a hierarchy column, and the hierarchy columns come last. */
  lemma ColumnOrderContents(available: set<string>)
    ensures forall c :: c in ColumnOrder(available) <==> (c in TaskColumns && c in available) || c in HierarchyColumns
    ensures |ColumnOrder(available)| >= |HierarchyColumns|
    ensures ColumnOrder(available)[|ColumnOrder(available)| - |HierarchyColumns|..] == HierarchyColumns
  {
  }

  /** `x` comes before `y` in `s`. */
  predicate Before(s: seq<string>, x: string, y: string)
  {
    exists a, b :: 0 <= a < b < |s| && s[a] == x && s[b] == y
  }

  /** What comes in order after the first element comes in order in the whole. */
  lemma BeforeInTail(s: seq<string>, x: string, y: string)
    requires s != [] && Before(s[1..], x, y)
    ensures Before(s, x, y)
  {
    var a, b :| 0 <= a < b < |s[1..]| && s[1..][a] == x && s[1..][b] == y;
    assert s[a + 1] == x && s[b + 1] == y;
  }

  /** Filtering keeps the relative order of what it keeps. */
  lemma {:induction false} FilterPairOrder(s: seq<string>, keep: string -> bool, i: nat, j: nat)
    requires i < j < |LevelColumns.Filter(s, keep)|
    ensures Before(s, LevelColumns.Filter(s, keep)[i], LevelColumns.Filter(s, keep)[j])
    decreases |s|
  {
    var r := LevelColumns.Filter(s, keep);
    var tail := LevelColumns.Filter(s[1..], keep);
    if keep(s[0]) {
      assert r == [s[0]] + tail;
      assert r[j] == tail[j - 1];
      if i == 0 {
        assert r[j] in s[1..];
        var b :| 0 <= b < |s[1..]| && s[1..][b] == r[j];
        assert s[0] == r[0] && s[b + 1] == r[j];
      } else {
        assert r[i] == tail[i - 1];
        FilterPairOrder(s[1..], keep, i - 1, j - 1);
        BeforeInTail(s, r[i], r[j]);
      }
    } else {
      assert r == tail;
      FilterPairOrder(s[1..], keep, i, j);
      BeforeInTail(s, r[i], r[j]);
    }
  }

  /** The task columns keep their fixed relative order, and with every task
      column present the output header is the full fixed list. */
  lemma ColumnOrderKeepsOrder(available: set<string>)
    ensures forall i, j :: 0 <= i < j < |ColumnOrder(available)| - |HierarchyColumns| ==>
      Before(TaskColumns, ColumnOrder(available)[i], ColumnOrder(available)[j])
    ensures (forall c :: c in TaskColumns ==> c in available) ==>
      ColumnOrder(available) == TaskColumns + HierarchyColumns
  {
    var keep := c => c in available;
    var order := ColumnOrder(available);
    var kept := LevelColumns.Filter(TaskColumns, keep);
    forall i, j | 0 <= i < j < |order| - |HierarchyColumns| ensures Before(TaskColumns, order[i], order[j]) {
      FilterPairOrder(TaskColumns, keep, i, j);
      assert order[i] == kept[i] && order[j] == kept[j];
    }
    if forall c :: c in TaskColumns ==> c in available {
      LevelColumns.FilterKeepsAll(TaskColumns, keep);
    }
  }

  // ---------------------------------------------------------------------------
  // The whole table

  /** What a run of `create_hierarchy_paths` ends with: the table, or the
      first input that lacks a column the script reads. */
  datatype Built = Built(table: Table) | NoSuchColumn(input: string, column: string)

  /** The first of `cols` that `header` lacks, if any. */
  function FirstMissing(header: seq<string>, cols: seq<string>): (r: Option<string>)
    ensures r == None <==> forall c :: c in cols ==> c in header
    ensures r.Some? ==> r.value in cols && r.value !in header
  {
    if cols == [] then None
    else if cols[0] !in header then Some(cols[0])
    else FirstMissing(header, cols[1..])
  }

  /** The column `from` renamed to `to`. */
  function Rename(row: Record, from: string, to: string): Record
  {
    var rest := row - {from, to};
    if from in row then rest[to := row[from]] else rest
  }

  /** The row with its path column set from its own cells. */
  function WithPath(row: Record): Record
  {
    match PathString(row)
    case Some(p) => row[PathColumn := p]
    case None => row - {PathColumn}
  }

  /** The row cut down to the output columns. */
  function Project(row: Record, cols: seq<string>): Record
  {
    map c | c in row && c in cols :: row[c]
  }

  /** The tasks joined to their DWAs, and those to the DWA reference. */
  function Joined(tasks: seq<Record>, taskDwas: seq<Record>, dwaRef: seq<Record>): seq<Record>
  {
    var withDwa := LeftJoin(tasks, taskDwas, [SocCode, TaskId], {DwaId, DwaTitle});
    LeftJoin(withDwa, dwaRef, [DwaId], {IwaId, IwaTitle, ElementId, ElementName})
  }

  /** The rows of the two joins, with the work-activity columns renamed and
      the path column added. */
  function PathRows(tasks: seq<Record>, taskDwas: seq<Record>, dwaRef: seq<Record>): seq<Record>
  {
    var full := Joined(tasks, taskDwas, dwaRef);
    seq(|full|, i requires 0 <= i < |full| =>
      WithPath(Rename(Rename(full[i], ElementId, WaElementId), ElementName, WaElementName)))
  }

  /** The output rows: the path rows cut down to the output columns. */
  function OutputRows(tasks: Table, taskDwas: seq<Record>, dwaRef: seq<Record>): seq<Record>
  {
    var rows := PathRows(tasks.rows, taskDwas, dwaRef);
    var order := ColumnOrder(set c | c in tasks.columns);
    seq(|rows|, i requires 0 <= i < |rows| => Project(rows[i], order))
  }

  /** `create_hierarchy_paths(task_statements, tasks_to_dwas, dwa_reference)`.
      The columns read from the mapping tables, the join keys of the task
      table, and the Task column the path is built from must exist. */
  function CreateHierarchyPaths(tasks: Table, taskDwas: Table, dwaRef: Table): Built
  {
    var dwaCols := [SocCode, TaskId, DwaId, DwaTitle];
    var refCols := [DwaId, IwaId, IwaTitle, ElementId, ElementName];
    if FirstMissing(taskDwas.columns, dwaCols).Some? then
      NoSuchColumn("tasks_to_dwas", FirstMissing(taskDwas.columns, dwaCols).value)
    else if FirstMissing(tasks.columns, [SocCode, TaskId]).Some? then
      NoSuchColumn("task_statements", FirstMissing(tasks.columns, [SocCode, TaskId]).value)
    else if FirstMissing(dwaRef.columns, refCols).Some? then
      NoSuchColumn("dwa_reference", FirstMissing(dwaRef.columns, refCols).value)
    else if TaskColumn !in tasks.columns then
      NoSuchColumn("task_statements", TaskColumn)
    else
      Built(Table(ColumnOrder(set c | c in tasks.columns), OutputRows(tasks, taskDwas.rows, dwaRef.rows)))
  }

  /** Rows that agree on `fields` have the same present components. */
  lemma {:induction false} PresentSameCells(a: Record, b: Record, fields: seq<string>)
    requires forall f :: f in fields ==> Cell(a, f) == Cell(b, f)
    ensures Present(a, fields) == Present(b, fields)
    decreases |fields|
  {
    if fields != [] {
      assert Cell(a, fields[0]) == Cell(b, fields[0]);
      PresentSameCells(a, b, fields[1..]);
    }
  }

  lemma PathRowsCount(tasks: seq<Record>, taskDwas: seq<Record>, dwaRef: seq<Record>)
    ensures |PathRows(tasks, taskDwas, dwaRef)| >= |tasks|
    ensures tasks == [] ==> PathRows(tasks, taskDwas, dwaRef) == []
  {
  }

  /** The run stops exactly when a column it reads is missing: one of the
      mapping-table columns, a join key of the task table, or the Task
      column. Otherwise the header is the available task
      columns in their fixed order, then the hierarchy columns, and there is
      at least one row per task. */
  lemma CreateHierarchyPathsOutcome(tasks: Table, taskDwas: Table, dwaRef: Table)
    ensures CreateHierarchyPaths(tasks, taskDwas, dwaRef).Built? <==>
      (forall c :: c in [SocCode, TaskId, DwaId, DwaTitle] ==> c in taskDwas.columns) &&
      SocCode in tasks.columns && TaskId in tasks.columns &&
      (forall c :: c in [DwaId, IwaId, IwaTitle, ElementId, ElementName] ==> c in dwaRef.columns) &&
      TaskColumn in tasks.columns
    ensures CreateHierarchyPaths(tasks, taskDwas, dwaRef).Built? ==>
      CreateHierarchyPaths(tasks, taskDwas, dwaRef).table.columns == ColumnOrder(set c | c in tasks.columns) &&
      CreateHierarchyPaths(tasks, taskDwas, dwaRef).table.rows == OutputRows(tasks, taskDwas.rows, dwaRef.rows) &&
      |OutputRows(tasks, taskDwas.rows, dwaRef.rows)| >= |tasks.rows|
  {
    PathRowsCount(tasks.rows, taskDwas.rows, dwaRef.rows);
  }

  /** A task column is none of the columns the joins, the renames and the
      path add. */
  lemma TaskColumnApart(c: string)
    requires c in TaskColumns
    ensures c !in {DwaId, DwaTitle} && c !in {IwaId, IwaTitle, ElementId, ElementName}
    ensures c != WaElementId && c != WaElementName && c != PathColumn
  {
  }

  lemma TaskColumnsApart()
    ensures (set c | c in TaskColumns) !! {DwaId, DwaTitle}
    ensures (set c | c in TaskColumns) !! {IwaId, IwaTitle, ElementId, ElementName}
  {
    forall c | c in TaskColumns ensures c !in {DwaId, DwaTitle} && c !in {IwaId, IwaTitle, ElementId, ElementName} {
      TaskColumnApart(c);
    }
  }

  /** The renames and the path column leave a task column's cell alone. */
  lemma FinishKeeps(row: Record, c: string)
    requires c in TaskColumns && c in row
    ensures var done := WithPath(Rename(Rename(row, ElementId, WaElementId), ElementName, WaElementName));
      c in done && done[c] == row[c]
  {
  }

  /** The place of a joined row that keeps left row `i`'s cells in the
      columns `cols`, which the join does not add. */
  lemma KeptAt(left: seq<Record>, right: seq<Record>, keys: seq<string>, take: set<string>, i: nat, cols: set<string>)
    returns (j: nat)
    requires i < |left| && cols !! take
    ensures j < |LeftJoin(left, right, keys, take)|
    ensures forall c :: c in cols && c in left[i] ==>
      c in LeftJoin(left, right, keys, take)[j] && LeftJoin(left, right, keys, take)[j][c] == left[i][c]
  {
    var rows := LeftJoin(left, right, keys, take);
    LeftJoinKeepsLeft(left, right, keys, take, i);
    var row :| row in rows && forall c :: c in left[i] && c !in take ==> c in row && row[c] == left[i][c];
    j :| 0 <= j < |rows| && rows[j] == row;
  }

  /** Some row of the two joins carries the task row's cells in the task
      columns; `k` is its place. */
  lemma TaskInJoins(tasks: seq<Record>, taskDwas: seq<Record>, dwaRef: seq<Record>, i: nat) returns (k: nat)
    requires i < |tasks|
    ensures k < |Joined(tasks, taskDwas, dwaRef)|
    ensures forall c :: c in TaskColumns && c in tasks[i] ==>
      c in Joined(tasks, taskDwas, dwaRef)[k] && Joined(tasks, taskDwas, dwaRef)[k][c] == tasks[i][c]
  {
    var take1: set<string> := {DwaId, DwaTitle};
    var take2: set<string> := {IwaId, IwaTitle, ElementId, ElementName};
    var cols := set c | c in TaskColumns;
    TaskColumnsApart();
    var withDwa := LeftJoin(tasks, taskDwas, [SocCode, TaskId], take1);
    var j := KeptAt(tasks, taskDwas, [SocCode, TaskId], take1, i, cols);
    k := KeptAt(withDwa, dwaRef, [DwaId], take2, j, cols);
  }

  lemma ProjectKeeps(row: Record, cols: seq<string>, c: string)
    requires c in row && c in cols
    ensures c in Project(row, cols) && Project(row, cols)[c] == row[c]
  {
  }

  /** No task is lost: each task row has an output row that carries its
      cells in every output task column. */
  lemma TasksKept(tasks: Table, taskDwas: seq<Record>, dwaRef: seq<Record>, i: nat)
    requires i < |tasks.rows|
    ensures exists row ::
      row in OutputRows(tasks, taskDwas, dwaRef) &&
      forall c :: c in TaskColumns && c in tasks.columns && c in tasks.rows[i] ==> c in row && row[c] == tasks.rows[i][c]
  {
    var k := TaskInJoins(tasks.rows, taskDwas, dwaRef, i);
    var full := Joined(tasks.rows, taskDwas, dwaRef);
    var rows := PathRows(tasks.rows, taskDwas, dwaRef);
    var available := set c | c in tasks.columns;
    var order := ColumnOrder(available);
    var out := OutputRows(tasks, taskDwas, dwaRef);
    var finished := WithPath(Rename(Rename(full[k], ElementId, WaElementId), ElementName, WaElementName));
    assert rows[k] == finished;
    assert out[k] == Project(finished, order);
    ColumnOrderContents(available);
    forall c | c in TaskColumns && c in tasks.columns && c in tasks.rows[i]
      ensures c in out[k] && out[k][c] == tasks.rows[i][c]
    {
      FinishKeeps(full[k], c);
      assert c in available;
      ProjectKeeps(finished, order, c);
    }
    assert out[k] in out;
  }

  /** In every output row the path column is what `create_path_string`
      makes of that row's own cells. */
  lemma PathColumnAgrees(tasks: Table, taskDwas: seq<Record>, dwaRef: seq<Record>, k: nat)
    requires TaskColumn in tasks.columns && k < |OutputRows(tasks, taskDwas, dwaRef)|
    ensures Cell(OutputRows(tasks, taskDwas, dwaRef)[k], PathColumn) == PathString(OutputRows(tasks, taskDwas, dwaRef)[k])
  {
    var rows := PathRows(tasks.rows, taskDwas, dwaRef);
    var available := set c | c in tasks.columns;
    var order := ColumnOrder(available);
    var full := Joined(tasks.rows, taskDwas, dwaRef);
    var before := Rename(Rename(full[k], ElementId, WaElementId), ElementName, WaElementName);
    assert rows[k] == WithPath(before);
    assert OutputRows(tasks, taskDwas, dwaRef)[k] == Project(WithPath(before), order);
    ColumnOrderContents(available);
    assert TaskColumn in available;
    ProjectedPathAgrees(before, order);
  }

  /** Setting the path column and cutting the row down to columns that keep
      the path and its components leaves the two in agreement. */
  lemma ProjectedPathAgrees(before: Record, order: seq<string>)
    requires PathColumn in order && forall f :: f in PathFields ==> f in order
    ensures Cell(Project(WithPath(before), order), PathColumn) == PathString(Project(WithPath(before), order))
  {
    var row := WithPath(before);
    PresentSameCells(before, row, PathFields);
    PresentSameCells(row, Project(row, order), PathFields);
  }
}
