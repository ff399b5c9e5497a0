/** The skill path table: one output row per upward path of each skill,
    carrying the skill's own columns, an ID and a label column for every
    level above the skill, and the path's labels joined into one string. */
module PathRows {
  import opened Taxonomy
  import Text
  import SkillLevels
  import SkillPaths
  import LevelColumns

  /** node id -> preferred label, for skills and skill groups alike */
  type Labels = map<string, string>

  /** `labels.get(id, fallback)` */
  function LabelOr(labels: Labels, id: string, fallback: string): string
  {
    if id in labels then labels[id] else fallback
  }

  /** Each node's label, or its ID when it has none, from the skill upward. */
  function PathLabels(path: seq<string>, labels: Labels): seq<string>
  {
    seq(|path|, i requires 0 <= i < |path| => LabelOr(labels, path[i], path[i]))
  }

  /** `row` with the ID and label columns of levels 1 .. upTo - 1 set. */
  function WithLevels(row: Record, path: seq<string>, labels: Labels, upTo: nat): Record
    requires 1 <= upTo <= |path|
  {
    if upTo == 1 then row
    else
      var k := upTo - 1;
      WithLevels(row, path, labels, k)
        [LevelColumns.LevelName(k) := path[k]]
        [LevelColumns.LabelName(k) := LabelOr(labels, path[k], "")]
  }

  /** The output row of `skill` for one of its paths. */
  function PathRow(skill: Record, path: seq<string>, labels: Labels): Record
    requires |path| >= 1
  {
    WithLevels(skill, path, labels, |path|)[LevelColumns.PathColumn := Text.Join(PathLabels(path, labels))]
  }

  /** `c` is the ID or label column of some level 1 .. upTo - 1. */
  ghost predicate AddedBelow(c: string, upTo: nat)
  {
    exists k :: 1 <= k < upTo && (c == LevelColumns.LevelName(k) || c == LevelColumns.LabelName(k))
  }

  lemma AddedBelowGrows(c: string, k: nat, upTo: nat)
    requires k <= upTo && AddedBelow(c, k)
    ensures AddedBelow(c, upTo)
  {
  }

  /** The ID and label columns of levels 1 .. upTo - 1 hold the path's nodes
      and their labels (empty when a node has none). */
  lemma {:induction false} WithLevelsSets(row: Record, path: seq<string>, labels: Labels, upTo: nat)
    requires 1 <= upTo <= |path|
    ensures forall k :: 1 <= k < upTo ==>
      LevelColumns.LevelName(k) in WithLevels(row, path, labels, upTo) &&
      WithLevels(row, path, labels, upTo)[LevelColumns.LevelName(k)] == path[k] &&
      LevelColumns.LabelName(k) in WithLevels(row, path, labels, upTo) &&
      WithLevels(row, path, labels, upTo)[LevelColumns.LabelName(k)] == LabelOr(labels, path[k], "")
    decreases upTo
  {
    if upTo > 1 {
      var k := upTo - 1;
      var idCol, labelCol := LevelColumns.LevelName(k), LevelColumns.LabelName(k);
      var r0 := WithLevels(row, path, labels, k);
      var r := r0[idCol := path[k]][labelCol := LabelOr(labels, path[k], "")];
      assert WithLevels(row, path, labels, upTo) == r;
      WithLevelsSets(row, path, labels, k);
      LevelColumns.ColumnNamesDistinct(k, k);
      forall j | 1 <= j < k
        ensures LevelColumns.LevelName(j) in r && r[LevelColumns.LevelName(j)] == path[j]
        ensures LevelColumns.LabelName(j) in r && r[LevelColumns.LabelName(j)] == LabelOr(labels, path[j], "")
      {
        LevelColumns.ColumnNamesDistinct(j, k);
        LevelColumns.ColumnNamesDistinct(k, j);
      }
    }
  }

  /** Every other column of the row keeps its value. */
  lemma {:induction false} WithLevelsKeeps(row: Record, path: seq<string>, labels: Labels, upTo: nat)
    requires 1 <= upTo <= |path|
    ensures forall c :: c in row && !AddedBelow(c, upTo) ==>
      c in WithLevels(row, path, labels, upTo) && WithLevels(row, path, labels, upTo)[c] == row[c]
    decreases upTo
  {
    if upTo > 1 {
      var k := upTo - 1;
      WithLevelsKeeps(row, path, labels, k);
      forall c | c in row && !AddedBelow(c, upTo)
        ensures c in WithLevels(row, path, labels, upTo) && WithLevels(row, path, labels, upTo)[c] == row[c]
      {
        assert c != LevelColumns.LevelName(k) && c != LevelColumns.LabelName(k);
        if AddedBelow(c, k) {
          AddedBelowGrows(c, k, upTo);
        }
      }
    }
  }

  /** No column is added besides those of the levels. */
  lemma {:induction false} WithLevelsOnly(row: Record, path: seq<string>, labels: Labels, upTo: nat)
    requires 1 <= upTo <= |path|
    ensures forall c :: c in WithLevels(row, path, labels, upTo) ==> c in row || AddedBelow(c, upTo)
    decreases upTo
  {
    if upTo > 1 {
      var k := upTo - 1;
      WithLevelsOnly(row, path, labels, k);
      forall c | c in WithLevels(row, path, labels, upTo) ensures c in row || AddedBelow(c, upTo) {
        if AddedBelow(c, k) {
          AddedBelowGrows(c, k, upTo);
        }
      }
    }
  }

  /** The level columns of a path row: level `k` holds the `k`-th node
      above the skill and its label (empty when the label is unknown). */
  lemma PathRowLevels(skill: Record, path: seq<string>, labels: Labels)
    requires |path| >= 1
    ensures forall k :: 1 <= k < |path| ==>
      LevelColumns.LevelName(k) in PathRow(skill, path, labels) &&
      PathRow(skill, path, labels)[LevelColumns.LevelName(k)] == path[k] &&
      LevelColumns.LabelName(k) in PathRow(skill, path, labels) &&
      PathRow(skill, path, labels)[LevelColumns.LabelName(k)] == LabelOr(labels, path[k], "")
  {
    WithLevelsSets(skill, path, labels, |path|);
    forall k | 1 <= k < |path|
      ensures LevelColumns.LevelName(k) != LevelColumns.PathColumn
      ensures LevelColumns.LabelName(k) != LevelColumns.PathColumn
    {
      LevelColumns.ColumnNamesDistinct(k, k);
    }
  }

  /** A path row keeps the skill row's other columns and adds only level
      columns and the path column. */
  lemma PathRowKeeps(skill: Record, path: seq<string>, labels: Labels)
    requires |path| >= 1
    ensures forall c :: c in skill && c != LevelColumns.PathColumn && !AddedBelow(c, |path|) ==>
      c in PathRow(skill, path, labels) && PathRow(skill, path, labels)[c] == skill[c]
    ensures forall c :: c in PathRow(skill, path, labels) ==>
      c in skill || c == LevelColumns.PathColumn || AddedBelow(c, |path|)
  {
    WithLevelsKeeps(skill, path, labels, |path|);
    WithLevelsOnly(skill, path, labels, |path|);
  }

  /** The path column joins the labels of the path, skill first; when no
      label holds the separator, splitting it gives the labels back. */
  lemma PathRowPathColumn(skill: Record, path: seq<string>, labels: Labels)
    requires |path| >= 1
    ensures LevelColumns.PathColumn in PathRow(skill, path, labels)
    ensures PathRow(skill, path, labels)[LevelColumns.PathColumn] == Text.Join(PathLabels(path, labels))
    ensures (forall i :: 0 <= i < |path| ==> Text.NoSemicolon(LabelOr(labels, path[i], path[i]))) ==>
      Text.Split(PathRow(skill, path, labels)[LevelColumns.PathColumn]) == PathLabels(path, labels)
  {
    var parts := PathLabels(path, labels);
    if forall i :: 0 <= i < |path| ==> Text.NoSemicolon(LabelOr(labels, path[i], path[i])) {
      Text.SplitJoin(parts);
    }
  }

  /** The body of the per-path loop: a copy of the skill row, the level
      columns filled one level at a time, then the path column. */
  method FillPathRow(skill: Record, path: seq<string>, labels: Labels) returns (row: Record)
    requires |path| >= 1
    ensures row == PathRow(skill, path, labels)
  {
    row := skill;
    var level := 1;
    while level < |path|
      invariant 1 <= level <= |path|
      invariant row == WithLevels(skill, path, labels, level)
    {
      var parentId := path[level];
      var levelName := LevelColumns.LevelName(level);
      row := row[levelName := parentId];
      row := row[levelName + "_preferredlabel" := LabelOr(labels, parentId, "")];
      level := level + 1;
    }
    var pathLabels := seq(|path|, i requires 0 <= i < |path| => LabelOr(labels, path[i], path[i]));
    row := row[LevelColumns.PathColumn := Text.Join(pathLabels)];
  }

  /** One row per path, in the order the paths come. */
  function RowsFor(skill: Record, paths: seq<seq<string>>, labels: Labels): seq<Record>
    requires forall q :: q in paths ==> |q| >= 1
  {
    seq(|paths|, i requires 0 <= i < |paths| => PathRow(skill, paths[i], labels))
  }

  predicate AllHaveId(skills: seq<Record>)
  {
    forall i :: 0 <= i < |skills| ==> IdColumn in skills[i]
  }

  /** The rows the loop over the skills produces: each skill's path rows,
      skill after skill. */
  function ExpandedRows(skills: seq<Record>, m: SkillPaths.Hierarchy, labels: Labels): seq<Record>
    requires AllHaveId(skills)
  {
    if skills == [] then []
    else
      var last := skills[|skills| - 1];
      ExpandedRows(skills[..|skills| - 1], m, labels) + RowsFor(last, SkillPaths.Paths(m, last[IdColumn]), labels)
  }

  /** The number of nodes on the longest of `paths` (0 for none). */
  function LongestPath(paths: seq<seq<string>>): nat
  {
    if paths == [] then 0
    else SkillLevels.Max(LongestPath(paths[..|paths| - 1]), |paths[|paths| - 1]|)
  }

  /** The number of nodes on the longest path of any of `skills`. */
  function LongestOver(skills: seq<Record>, m: SkillPaths.Hierarchy): nat
    requires AllHaveId(skills)
  {
    if skills == [] then 0
    else
      var last := skills[|skills| - 1];
      SkillLevels.Max(LongestOver(skills[..|skills| - 1], m), LongestPath(SkillPaths.Paths(m, last[IdColumn])))
  }

  /** The total number of paths of `skills`. */
  function PathTotal(skills: seq<Record>, m: SkillPaths.Hierarchy): nat
    requires AllHaveId(skills)
  {
    if skills == [] then 0
    else
      var last := skills[|skills| - 1];
      PathTotal(skills[..|skills| - 1], m) + |SkillPaths.Paths(m, last[IdColumn])|
  }

  /** The first loop over a skill's paths: the running maximum of the path
      lengths. */
  method LongestOf(paths: seq<seq<string>>, before: nat) returns (longest: nat)
    ensures longest == SkillLevels.Max(before, LongestPath(paths))
  {
    longest := before;
    var j := 0;
    while j < |paths|
      invariant 0 <= j <= |paths|
      invariant longest == SkillLevels.Max(before, LongestPath(paths[..j]))
    {
      assert paths[..j + 1][..j] == paths[..j];
      longest := SkillLevels.Max(longest, |paths[j]|);
      j := j + 1;
    }
    assert paths[..|paths|] == paths;
  }

  /** The second loop over a skill's paths: one filled row per path. */
  method RowsOfPaths(skill: Record, paths: seq<seq<string>>, labels: Labels) returns (rows: seq<Record>)
    requires forall q :: q in paths ==> |q| >= 1
    ensures rows == RowsFor(skill, paths, labels)
  {
    rows := [];
    var j := 0;
    while j < |paths|
      invariant 0 <= j <= |paths|
      invariant rows == RowsFor(skill, paths[..j], labels)
    {
      var row := FillPathRow(skill, paths[j], labels);
      rows := rows + [row];
      j := j + 1;
    }
    assert paths[..|paths|] == paths;
  }

  /** The body of the loop over the skills, for one skill row with an ID:
      its paths, their rows, and the running maximum length. */
  method ExpandSkill(skillRow: Record, m: SkillPaths.Hierarchy, labels: Labels, longestBefore: nat)
    returns (pathRows: seq<Record>, longest: nat)
    requires IdColumn in skillRow
    ensures pathRows == RowsFor(skillRow, SkillPaths.Paths(m, skillRow[IdColumn]), labels)
    ensures longest == SkillLevels.Max(longestBefore, LongestPath(SkillPaths.Paths(m, skillRow[IdColumn])))
  {
    var skillId := skillRow[IdColumn];
    var paths := SkillPaths.Paths(m, skillId);
    longest := LongestOf(paths, longestBefore);
    pathRows := RowsOfPaths(skillRow, paths, labels);
  }

  /** One more skill row with an ID adds its path rows and path lengths. */
  lemma ExpandedRowsStep(skills: seq<Record>, idx: nat, m: SkillPaths.Hierarchy, labels: Labels)
    requires idx < |skills| && AllHaveId(skills[..idx]) && IdColumn in skills[idx]
    ensures AllHaveId(skills[..idx + 1])
    ensures ExpandedRows(skills[..idx + 1], m, labels) ==
      ExpandedRows(skills[..idx], m, labels) + RowsFor(skills[idx], SkillPaths.Paths(m, skills[idx][IdColumn]), labels)
    ensures LongestOver(skills[..idx + 1], m) ==
      SkillLevels.Max(LongestOver(skills[..idx], m), LongestPath(SkillPaths.Paths(m, skills[idx][IdColumn])))
  {
    var done := skills[..idx + 1];
    assert forall i :: 0 <= i < idx + 1 ==> done[i] == skills[i];
    assert done[..idx] == skills[..idx];
  }

  /** The first `idx` skill rows have been expanded into `outputRows`, and
      `longest` is the longest of their paths. */
  ghost predicate ExpandedUpTo(skills: seq<Record>, idx: nat, m: SkillPaths.Hierarchy, labels: Labels,
                               outputRows: seq<Record>, longest: nat)
  {
    idx <= |skills| && AllHaveId(skills[..idx]) &&
    outputRows == ExpandedRows(skills[..idx], m, labels) &&
    longest == LongestOver(skills[..idx], m)
  }

  lemma ExpandedUpToStep(skills: seq<Record>, idx: nat, m: SkillPaths.Hierarchy, labels: Labels,
                         outputRows: seq<Record>, longest: nat, pathRows: seq<Record>, longest': nat)
    requires ExpandedUpTo(skills, idx, m, labels, outputRows, longest)
    requires idx < |skills| && IdColumn in skills[idx]
    requires pathRows == RowsFor(skills[idx], SkillPaths.Paths(m, skills[idx][IdColumn]), labels)
    requires longest' == SkillLevels.Max(longest, LongestPath(SkillPaths.Paths(m, skills[idx][IdColumn])))
    ensures ExpandedUpTo(skills, idx + 1, m, labels, outputRows + pathRows, longest')
  {
    ExpandedRowsStep(skills, idx, m, labels);
  }

  lemma ExpandedAll(skills: seq<Record>, m: SkillPaths.Hierarchy, labels: Labels, outputRows: seq<Record>, longest: nat)
    requires ExpandedUpTo(skills, |skills|, m, labels, outputRows, longest)
    ensures AllHaveId(skills) && outputRows == ExpandedRows(skills, m, labels) && longest == LongestOver(skills, m)
  {
    assert skills[..|skills|] == skills;
  }

  /** A row without an ID after `idx` rows with one. */
  lemma FirstWithoutId(skills: seq<Record>, idx: nat)
    requires idx < |skills| && AllHaveId(skills[..idx]) && IdColumn !in skills[idx]
    ensures !AllHaveId(skills)
    ensures forall i :: 0 <= i < idx ==> IdColumn in skills[i]
  {
    assert forall i :: 0 <= i < idx ==> skills[..idx][i] == skills[i];
  }

  /** `map_skill_hierarchies` without its file handling: the relation rows
      are loaded into parent lists, and every skill row, in order, yields
      one output row per upward path; alongside, the length of the longest
      path seen. A skill row without an ID column stops the run. */
  method MapSkillHierarchies(skills: seq<Record>, rows: seq<Edge>, labels: Labels)
    returns (out: Outcome<seq<Record>>, maxPathLength: nat)
    ensures out.Done? <==> AllHaveId(skills)
    ensures out.MissingColumn? ==>
      out.column == IdColumn && out.row < |skills| && IdColumn !in skills[out.row] &&
      forall i :: 0 <= i < out.row ==> IdColumn in skills[i]
    ensures out.Done? ==>
      out.value == ExpandedRows(skills, SkillPaths.HierarchyOf(rows), labels) &&
      maxPathLength == LongestOver(skills, SkillPaths.HierarchyOf(rows))
  {
    var m := SkillPaths.LoadHierarchy(rows);
    var outputRows: seq<Record> := [];
    maxPathLength := 0;
    var idx := 0;
    while idx < |skills|
      invariant ExpandedUpTo(skills, idx, m, labels, outputRows, maxPathLength)
      decreases |skills| - idx
    {
      var skillRow := skills[idx];
      if IdColumn !in skillRow {
        FirstWithoutId(skills, idx);
        return MissingColumn(idx, IdColumn), maxPathLength;
      }
      var pathRows, longest := ExpandSkill(skillRow, m, labels, maxPathLength);
      ExpandedUpToStep(skills, idx, m, labels, outputRows, maxPathLength, pathRows, longest);
      outputRows, maxPathLength := outputRows + pathRows, longest;
      idx := idx + 1;
    }
    ExpandedAll(skills, m, labels, outputRows, maxPathLength);
    return Done(outputRows), maxPathLength;
  }

  lemma FrontHasIds(skills: seq<Record>)
    requires AllHaveId(skills) && skills != []
    ensures AllHaveId(skills[..|skills| - 1])
  {
    var front := skills[..|skills| - 1];
    assert forall j :: 0 <= j < |front| ==> front[j] == skills[j];
  }

  /** The table of a non-empty list of skills is the table of all but the
      last, followed by the rows of the last. */
  lemma Unsnoc(skills: seq<Record>, m: SkillPaths.Hierarchy, labels: Labels)
    requires AllHaveId(skills) && skills != []
    ensures AllHaveId(skills[..|skills| - 1])
    ensures ExpandedRows(skills, m, labels) == ExpandedRows(skills[..|skills| - 1], m, labels) +
      RowsFor(skills[|skills| - 1], SkillPaths.Paths(m, skills[|skills| - 1][IdColumn]), labels)
    ensures LongestOver(skills, m) ==
      SkillLevels.Max(LongestOver(skills[..|skills| - 1], m), LongestPath(SkillPaths.Paths(m, skills[|skills| - 1][IdColumn])))
    ensures PathTotal(skills, m) ==
      PathTotal(skills[..|skills| - 1], m) + |SkillPaths.Paths(m, skills[|skills| - 1][IdColumn])|
  {
    var front := skills[..|skills| - 1];
    assert forall j :: 0 <= j < |front| ==> front[j] == skills[j];
  }

  // ---------------------------------------------------------------------------
  // What the table holds

  /** Each skill contributes one row per path, so there are as many rows as
      paths, and at least one per skill. */
  lemma {:induction false} RowCount(skills: seq<Record>, m: SkillPaths.Hierarchy, labels: Labels)
    requires AllHaveId(skills)
    ensures |ExpandedRows(skills, m, labels)| == PathTotal(skills, m) >= |skills|
    decreases |skills|
  {
    if skills != [] {
      Unsnoc(skills, m, labels);
      RowCount(skills[..|skills| - 1], m, labels);
    }
  }

  /** `r` is the row of some skill of `skills` for one of that skill's paths. */
  ghost predicate RowOfSomePath(r: Record, skills: seq<Record>, m: SkillPaths.Hierarchy, labels: Labels)
    requires AllHaveId(skills)
  {
    exists i, q :: 0 <= i < |skills| && q in SkillPaths.Paths(m, skills[i][IdColumn]) && r == PathRow(skills[i], q, labels)
  }

  /** The rows of one skill hold its row for each of its paths ... */
  lemma RowsForHas(skill: Record, paths: seq<seq<string>>, labels: Labels, q: seq<string>)
    requires forall p :: p in paths ==> |p| >= 1
    requires q in paths
    ensures PathRow(skill, q, labels) in RowsFor(skill, paths, labels)
  {
    var k :| 0 <= k < |paths| && paths[k] == q;
    assert RowsFor(skill, paths, labels)[k] == PathRow(skill, q, labels);
  }

  /** ... and no other row. */
  lemma RowsForOnly(skill: Record, paths: seq<seq<string>>, labels: Labels, r: Record) returns (q: seq<string>)
    requires forall p :: p in paths ==> |p| >= 1
    requires r in RowsFor(skill, paths, labels)
    ensures q in paths && r == PathRow(skill, q, labels)
  {
    var rows := RowsFor(skill, paths, labels);
    var k :| 0 <= k < |rows| && rows[k] == r;
    q := paths[k];
  }


  lemma InEither<T>(a: seq<T>, b: seq<T>, x: T)
    requires x in a || x in b
    ensures x in a + b
  {
    if x in a {
      var k :| 0 <= k < |a| && a[k] == x;
      assert (a + b)[k] == x;
    } else {
      var k :| 0 <= k < |b| && b[k] == x;
      assert (a + b)[|a| + k] == x;
    }
  }

  /** The table holds the row of skill `i` for its path `q`. */
  lemma {:induction false} PathRowInTable(skills: seq<Record>, m: SkillPaths.Hierarchy, labels: Labels, i: nat, q: seq<string>)
    requires AllHaveId(skills) && i < |skills| && q in SkillPaths.Paths(m, skills[i][IdColumn])
    ensures PathRow(skills[i], q, labels) in ExpandedRows(skills, m, labels)
    decreases |skills|, 1
  {
    if i < |skills| - 1 {
      PathRowOfFront(skills, m, labels, i, q);
    } else {
      PathRowOfLast(skills, m, labels, q);
    }
  }

  lemma {:induction false} PathRowOfFront(skills: seq<Record>, m: SkillPaths.Hierarchy, labels: Labels, i: nat, q: seq<string>)
    requires AllHaveId(skills) && i < |skills| - 1 && q in SkillPaths.Paths(m, skills[i][IdColumn])
    ensures PathRow(skills[i], q, labels) in ExpandedRows(skills, m, labels)
    decreases |skills|, 0
  {
    var front := skills[..|skills| - 1];
    FrontHasIds(skills);
    assert skills[i] == front[i];
    PathRowInTable(front, m, labels, i, q);
    IntoSnocTable(skills, m, labels, PathRow(skills[i], q, labels));
  }

  lemma PathRowOfLast(skills: seq<Record>, m: SkillPaths.Hierarchy, labels: Labels, q: seq<string>)
    requires AllHaveId(skills) && skills != [] && q in SkillPaths.Paths(m, skills[|skills| - 1][IdColumn])
    ensures PathRow(skills[|skills| - 1], q, labels) in ExpandedRows(skills, m, labels)
  {
    var last := skills[|skills| - 1];
    FrontHasIds(skills);
    RowsForHas(last, SkillPaths.Paths(m, last[IdColumn]), labels, q);
    IntoSnocTable(skills, m, labels, PathRow(last, q, labels));
  }


  /** A row of the table of all but the last skill, or of the last skill's
      rows, is a row of the table. */
  lemma IntoSnocTable(skills: seq<Record>, m: SkillPaths.Hierarchy, labels: Labels, r: Record)
    requires AllHaveId(skills) && skills != [] && AllHaveId(skills[..|skills| - 1])
    requires r in ExpandedRows(skills[..|skills| - 1], m, labels) ||
      r in RowsFor(skills[|skills| - 1], SkillPaths.Paths(m, skills[|skills| - 1][IdColumn]), labels)
    ensures r in ExpandedRows(skills, m, labels)
  {
    var last := skills[|skills| - 1];
    InEither(ExpandedRows(skills[..|skills| - 1], m, labels), RowsFor(last, SkillPaths.Paths(m, last[IdColumn]), labels), r);
  }

  /** A row of the table is a row of the table of all but the last skill or
      one of the last skill's rows. */
  lemma OutOfSnocTable(skills: seq<Record>, m: SkillPaths.Hierarchy, labels: Labels, r: Record)
    requires AllHaveId(skills) && skills != [] && AllHaveId(skills[..|skills| - 1])
    requires r in ExpandedRows(skills, m, labels)
    ensures r in ExpandedRows(skills[..|skills| - 1], m, labels) ||
      r in RowsFor(skills[|skills| - 1], SkillPaths.Paths(m, skills[|skills| - 1][IdColumn]), labels)
  {
    var last := skills[|skills| - 1];
    InOneOf(ExpandedRows(skills[..|skills| - 1], m, labels), RowsFor(last, SkillPaths.Paths(m, last[IdColumn]), labels), r);
  }


  /** The table holds the row of every skill for every one of its paths. */
  lemma PathRowsInTable(skills: seq<Record>, m: SkillPaths.Hierarchy, labels: Labels)
    requires AllHaveId(skills)
    ensures forall i, q :: 0 <= i < |skills| && q in SkillPaths.Paths(m, skills[i][IdColumn]) ==>
      PathRow(skills[i], q, labels) in ExpandedRows(skills, m, labels)
  {
    forall i, q | 0 <= i < |skills| && q in SkillPaths.Paths(m, skills[i][IdColumn])
      ensures PathRow(skills[i], q, labels) in ExpandedRows(skills, m, labels)
    {
      PathRowInTable(skills, m, labels, i, q);
    }
  }

  lemma InOneOf<T>(a: seq<T>, b: seq<T>, x: T)
    requires x in a + b
    ensures x in a || x in b
  {
    var k :| 0 <= k < |a + b| && (a + b)[k] == x;
    if k < |a| {
      assert a[k] == x;
    } else {
      assert b[k - |a|] == x;
    }
  }

  /** A row of the table is the row of some skill for one of its paths. */
  lemma {:induction false} TableRowIsPathRow(skills: seq<Record>, m: SkillPaths.Hierarchy, labels: Labels, r: Record)
    returns (i: nat, q: seq<string>)
    requires AllHaveId(skills) && r in ExpandedRows(skills, m, labels)
    ensures i < |skills| && q in SkillPaths.Paths(m, skills[i][IdColumn]) && r == PathRow(skills[i], q, labels)
    decreases |skills|, 1
  {
    FrontHasIds(skills);
    OutOfSnocTable(skills, m, labels, r);
    var last := skills[|skills| - 1];
    if r in ExpandedRows(skills[..|skills| - 1], m, labels) {
      i, q := RowOfFront(skills, m, labels, r);
    } else {
      i := |skills| - 1;
      q := RowsForOnly(last, SkillPaths.Paths(m, last[IdColumn]), labels, r);
    }
  }

  lemma {:induction false} RowOfFront(skills: seq<Record>, m: SkillPaths.Hierarchy, labels: Labels, r: Record)
    returns (i: nat, q: seq<string>)
    requires skills != [] && AllHaveId(skills) && AllHaveId(skills[..|skills| - 1])
    requires r in ExpandedRows(skills[..|skills| - 1], m, labels)
    ensures i < |skills| && q in SkillPaths.Paths(m, skills[i][IdColumn]) && r == PathRow(skills[i], q, labels)
    decreases |skills|, 0
  {
    var front := skills[..|skills| - 1];
    i, q := TableRowIsPathRow(front, m, labels, r);
    assert skills[i] == front[i];
  }


  /** Every row of the table is the row of some skill for one of its paths. */
  lemma TableRowsArePathRows(skills: seq<Record>, m: SkillPaths.Hierarchy, labels: Labels)
    requires AllHaveId(skills)
    ensures forall r :: r in ExpandedRows(skills, m, labels) ==> RowOfSomePath(r, skills, m, labels)
  {
    forall r | r in ExpandedRows(skills, m, labels) ensures RowOfSomePath(r, skills, m, labels) {
      var i, q := TableRowIsPathRow(skills, m, labels, r);
    }
  }

  lemma {:induction false} LongestPathIsMax(paths: seq<seq<string>>)
    ensures forall q :: q in paths ==> |q| <= LongestPath(paths)
    ensures paths != [] ==> exists q :: q in paths && |q| == LongestPath(paths)
    decreases |paths|
  {
    if paths != [] {
      var front := paths[..|paths| - 1];
      LongestPathIsMax(front);
      assert paths == front + [paths[|paths| - 1]];
    }
  }

  /** No path of any skill is longer than the reported maximum ... */
  lemma {:induction false} LongestOverBounds(skills: seq<Record>, m: SkillPaths.Hierarchy, i: nat, q: seq<string>)
    requires AllHaveId(skills) && i < |skills| && q in SkillPaths.Paths(m, skills[i][IdColumn])
    ensures |q| <= LongestOver(skills, m)
    decreases |skills|
  {
    var n := |skills| - 1;
    var front, last := skills[..n], skills[n];
    FrontHasIds(skills);
    if i < n {
      assert skills[i] == front[i];
      LongestOverBounds(front, m, i, q);
    } else {
      assert i == n;
      LongestPathIsMax(SkillPaths.Paths(m, last[IdColumn]));
    }
  }

  /** ... and some path of some skill has exactly that length. */
  lemma {:induction false} LongestOverAttained(skills: seq<Record>, m: SkillPaths.Hierarchy) returns (i: nat, q: seq<string>)
    requires AllHaveId(skills) && skills != []
    ensures i < |skills| && q in SkillPaths.Paths(m, skills[i][IdColumn]) && |q| == LongestOver(skills, m)
    decreases |skills|
  {
    var n := |skills| - 1;
    var front, last := skills[..n], skills[n];
    FrontHasIds(skills);
    var lastPaths := SkillPaths.Paths(m, last[IdColumn]);
    LongestPathIsMax(lastPaths);
    assert front == [] ==> LongestOver(front, m) == 0;
    if LongestOver(skills, m) == LongestPath(lastPaths) {
      i := n;
      q :| q in lastPaths && |q| == LongestPath(lastPaths);
    } else {
      i, q := LongestOverAttained(front, m);
      assert skills[i] == front[i];
    }
  }

  /** The reported maximum is the length of the longest path of any skill. */
  lemma LongestOverIsMax(skills: seq<Record>, m: SkillPaths.Hierarchy)
    requires AllHaveId(skills)
    ensures forall i, q :: 0 <= i < |skills| && q in SkillPaths.Paths(m, skills[i][IdColumn]) ==>
      |q| <= LongestOver(skills, m)
    ensures skills != [] ==>
      exists i, q :: 0 <= i < |skills| && q in SkillPaths.Paths(m, skills[i][IdColumn]) && |q| == LongestOver(skills, m)
  {
    forall i, q | 0 <= i < |skills| && q in SkillPaths.Paths(m, skills[i][IdColumn])
      ensures |q| <= LongestOver(skills, m)
    {
      LongestOverBounds(skills, m, i, q);
    }
    if skills != [] {
      var i, q := LongestOverAttained(skills, m);
    }
  }

  /** Without cycles, the longest path length reported for the skills is the
      deepest LEVEL the level script gives any of them. */
  lemma LongestIsDeepestLevel(skills: seq<Record>, rows: seq<Edge>)
    requires AllHaveId(skills) && SkillLevels.Acyclic(SkillLevels.ParentSets(rows))
    ensures forall i :: 0 <= i < |skills| ==>
      SkillLevels.Height(SkillLevels.ParentSets(rows), skills[i][IdColumn]) <= LongestOver(skills, SkillPaths.HierarchyOf(rows))
    ensures skills != [] ==>
      exists i :: 0 <= i < |skills| && SkillLevels.Height(SkillLevels.ParentSets(rows), skills[i][IdColumn]) == LongestOver(skills, SkillPaths.HierarchyOf(rows))
  {
    var m := SkillPaths.HierarchyOf(rows);
    var pm := SkillLevels.ParentSets(rows);
    forall i | 0 <= i < |skills| ensures SkillLevels.Height(pm, skills[i][IdColumn]) <= LongestOver(skills, m) {
      SkillPaths.LevelIsLongestPath(rows, skills[i][IdColumn]);
      var q :| q in SkillPaths.Paths(m, skills[i][IdColumn]) && |q| == SkillLevels.Height(pm, skills[i][IdColumn]);
      LongestOverBounds(skills, m, i, q);
    }
    if skills != [] {
      var i, q := LongestOverAttained(skills, m);
      SkillPaths.LevelIsLongestPath(rows, skills[i][IdColumn]);
    }
  }
}
