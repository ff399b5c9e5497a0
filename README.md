# Taxonomy hierarchy scripts, modelled in Dafny

This project models three scripts that flatten occupational and skill
taxonomies into tables.

- `scripts/esco/add_skill_levels.py` reads the ESCO skill hierarchy as (PARENTID, CHILDID) rows. It builds a map from each child to the set of its parents. It then gives every skill a LEVEL: 1 for a root, otherwise one more than its deepest parent. The recursion keeps a cache shared by all rows and a path set that cuts cycles.
- `scripts/esco/map_skill_hierarchy_paths.py` loads the same relation as a child → list of parents. It lists every upward path from a skill to a root and writes one output row per path. Each row has an ID column and a label column per level (`1_level_up`, `2_levels_up`, …, and `…_preferredlabel`) and a `hierarchy_path` column of labels joined by `" ; "`. The level columns are ordered by the number read back out of their names.
- `scripts/onet/map_task_hierarchy_paths.py` left-joins O*NET task statements to their detailed work activities (DWAs), and those to IWAs and general work activities. It renames the element columns and adds a `Hierarchy_Path` string. It then projects the table onto a fixed column order.

Modules, one per file:

- `Text` (`text.dfy`): the `" ; "` join and its inverse split, decimal rendering, and the leading digit run.
- `Taxonomy` (`taxonomy.dfy`): edges, records (a row is a map from column to cell) and the outcome of a run.
- `SkillLevels` (`skill_levels.dfy`): the parent map, the memoised depth recursion, and the row loop, proved against a cache-free reference depth.
- `SkillPaths` (`skill_paths.dfy`): the list loader and the path enumeration, with its shape and counting properties.
- `LevelColumns` (`level_columns.dfy`): column names, `get_level_num`, the stable sort and the interleaving.
- `PathRows` (`path_rows.dfy`): one path row, the skill loop, and what the whole table holds.
- `TaskPaths` (`task_paths.dfy`): the path string, the left joins, the column order and the whole `create_hierarchy_paths`.

The loops and mutations are imperative Dafny: `BuildParentMap`, `CalculateDepth`, `DeepestParent`, `AddLevelColumn`, `LoadHierarchy`, `FillPathRow`, `RowsOfPaths`, `LongestOf`, `ExpandSkill`, `MapSkillHierarchies` and `CreatePathString`. Each is proved equal to a specification function, or to the case split the source performs. The source's shared cache and path set are passed in and returned as values. The pandas pipeline of the O*NET script is expressions over tables, so it is modelled as functions.

## Model

| member | source | states |
|---|---|---|
| SkillLevels.BuildParentMap | scripts/esco/add_skill_levels.py:67-76 | the loop's map holds exactly the children of the rows, each with the set of all parents the rows record for it |
| SkillLevels.ParentSetsSnoc | scripts/esco/add_skill_levels.py:71-74 | reading one more row adds its parent to its child's set, creating the entry if the child is new |
| SkillLevels.DuplicateEdgeChangesNothing | scripts/esco/add_skill_levels.py:74 | a repeated (parent, child) row leaves the parent map unchanged |
| SkillLevels.ParentSetsOfSameEdges | scripts/esco/add_skill_levels.py:67-76 | the parent map depends only on which edges occur, not on their order or multiplicity |
| SkillLevels.DepthSpec | scripts/esco/add_skill_levels.py:115-141 | the cache-free depth recursion yields at least 1 |
| SkillLevels.MaxDepthSpecIsMax | scripts/esco/add_skill_levels.py:130-133 | the parent maximum bounds every parent's depth, is attained by some parent, and is 0 with no parents |
| SkillLevels.DepthSpecIgnoresVisited | scripts/esco/add_skill_levels.py:116-118 | when no upward walk meets the path set, shrinking the path set does not change the depth |
| SkillLevels.ChainAtMostDepth | scripts/esco/add_skill_levels.py:15-19 | on cycle-free input, no upward chain from a node is longer than its depth |
| SkillLevels.LongestChainFrom | scripts/esco/add_skill_levels.py:15-19 | on cycle-free input, some upward chain from the node ends at a root and is exactly as long as its depth |
| SkillLevels.HeightIsLongestChain | scripts/esco/add_skill_levels.py:15-19 | the level of a node with no cycle above it is the length of its longest upward chain, and that chain ends at a root |
| SkillLevels.CalculateDepth | scripts/esco/add_skill_levels.py:111-141 | four cases: a cache hit returns the cached value; a node already on the path returns 1 and caches nothing; a root returns 1 and caches it; otherwise one more than the deepest parent's cached depth, cached. The path set comes back unchanged. The cache only grows, stays positive, never gains a node of the path, and a new entry is 1 exactly for a root. With no cycle above the node and an exact cache, the result is the node's true depth and the cache stays exact |
| SkillLevels.DeepestParent | scripts/esco/add_skill_levels.py:130-133 | after the loop every parent is cached or on the path, the result bounds every parent's cached depth and is attained by one (0 when there are no parents), and cache exactness is kept on cycle-free input |
| SkillLevels.AddLevelColumn | scripts/esco/add_skill_levels.py:177-195 | the run completes iff every row has an ID, and otherwise stops at the first row without one. A completed run keeps the row count and gives every row a LEVEL of at least 1. On acyclic input each row is the input row with LEVEL set to the decimal text of its true depth |
| SkillLevels.QueryTwoCycle | scripts/esco/add_skill_levels.py:112-141 | with X and Y each other's parent and X queried first, X gets a level of at least 3 and the later query of Y returns X's level minus one from the cache |
| Text.NatToDecimal | scripts/esco/add_skill_levels.py:194 | `str(depth)` is a non-empty digit string with no leading zero |
| Text.DecimalRoundTrip | scripts/esco/add_skill_levels.py:194 | reading back the decimal text of n gives n |
| SkillPaths.LoadHierarchy | scripts/esco/map_skill_hierarchy_paths.py:18-29 | the loop's map lists for each child the parents of its rows, in row order and with repeats |
| SkillPaths.HierarchyOfSnoc | scripts/esco/map_skill_hierarchy_paths.py:24-27 | reading one more row appends its parent to its child's list, creating the entry if the child is new |
| SkillPaths.ParentListAppend | scripts/esco/map_skill_hierarchy_paths.py:24-27 | a child's parent list over two row blocks is the concatenation of its lists over each |
| SkillPaths.ParentListElems | scripts/esco/map_skill_hierarchy_paths.py:27 | the elements of a child's parent list are exactly its parent set in the level script |
| SkillPaths.LoadersAgree | scripts/esco/map_skill_hierarchy_paths.py:18-29 | the list loader and the set loader of the level script give the same parents for every child |
| SkillPaths.DuplicateEdgeRepeats | scripts/esco/map_skill_hierarchy_paths.py:27 | a repeated edge lengthens the child's parent list by one while the parent set stays the same |
| SkillPaths.AllPaths | scripts/esco/map_skill_hierarchy_paths.py:51-84 | the enumeration returns at least one path, and every path extends the path walked so far |
| SkillPaths.PathsVia | scripts/esco/map_skill_hierarchy_paths.py:74-84 | the parent loop yields at least one path per parent, each extending the current path by one of the parents |
| SkillPaths.Paths | scripts/esco/map_skill_hierarchy_paths.py:57-68 | every path of a skill starts at the skill, and a skill with no parents has the single path [skill] |
| SkillPaths.InPathsVia | scripts/esco/map_skill_hierarchy_paths.py:75-82 | a path comes out of the parent loop iff it comes out of the recursive call for some parent |
| SkillPaths.PathsShape | scripts/esco/map_skill_hierarchy_paths.py:51-84 | every path starts at the skill and climbs one parent edge per step. No node repeats except possibly the last. The last node is a root, or a node met earlier on the path, where the cycle was cut |
| SkillPaths.AllPathsPrefix | scripts/esco/map_skill_hierarchy_paths.py:76-80 | the path walked so far is only a prefix: enumerating from a longer prefix prepends it to every path |
| SkillPaths.AllPathsIgnoresVisited | scripts/esco/map_skill_hierarchy_paths.py:63-64 | when no upward walk meets the visited set, the visited set does not change the paths |
| SkillPaths.ViaParentsCount | scripts/esco/map_skill_hierarchy_paths.py:75-82 | the paths through a parent list number the sum of each parent's own path counts |
| SkillPaths.PathsRecurrence | scripts/esco/map_skill_hierarchy_paths.py:75-82 | on cycle-free input a skill's paths are its parents' paths, parent by parent in list order, each prefixed by the skill. Their count is the sum over the parent list, so a repeated parent is counted twice |
| SkillPaths.CycleFreeStep | scripts/esco/map_skill_hierarchy_paths.py:71-80 | having no cycle above a node carries over to each of its parents, with the node added to the visited set |
| SkillPaths.ChainsCorrespond | scripts/esco/map_skill_hierarchy_paths.py:67 | a parent-edge chain and a root in the list hierarchy are the same as in the parent-set map |
| SkillPaths.PathsEndAtRoots | scripts/esco/map_skill_hierarchy_paths.py:66-68 | on cycle-free input every enumerated path ends at a node with no parents |
| SkillPaths.RootChainsAreEnumerated | scripts/esco/map_skill_hierarchy_paths.py:73-82 | on cycle-free input every upward chain from the node to a root is enumerated |
| SkillPaths.LevelIsLongestPath | scripts/esco/map_skill_hierarchy_paths.py:51-84 | with no cycle above a skill, no path is longer than the skill's LEVEL from the level script, and some path is exactly that long |
| LevelColumns.GetLevelNumSpec | scripts/esco/map_skill_hierarchy_paths.py:153-157 | the value is the number of a digit run that opens the name and is followed by "_level"; without such a run it is 999 |
| LevelColumns.LevelPrefixIsLeadingDigits | scripts/esco/map_skill_hierarchy_paths.py:156 | the match takes the whole leading digit run |
| LevelColumns.LevelNumRoundTrip | scripts/esco/map_skill_hierarchy_paths.py:122-128 | reading the level number back out of a level's ID or label column name gives that level |
| LevelColumns.ColumnNamesDistinct | scripts/esco/map_skill_hierarchy_paths.py:122-133 | different levels have different column names, an ID column is never a label column, and neither is the path column |
| LevelColumns.ColumnKinds | scripts/esco/map_skill_hierarchy_paths.py:150-161 | both columns of a level contain "_level"; only the label column contains "preferredlabel" |
| LevelColumns.Filter | scripts/esco/map_skill_hierarchy_paths.py:150 | the comprehension keeps exactly the elements that pass the test |
| LevelColumns.FilterCount | scripts/esco/map_skill_hierarchy_paths.py:150 | each kept element keeps its multiplicity, and each dropped one has none |
| LevelColumns.SortBy | scripts/esco/map_skill_hierarchy_paths.py:160-161 | `sorted(..., key=get_level_num)` returns a permutation of its input ordered by key |
| LevelColumns.SortByStable | scripts/esco/map_skill_hierarchy_paths.py:160-161 | the sort is stable: the elements of each key keep their input order |
| LevelColumns.SortedUnique | scripts/esco/map_skill_hierarchy_paths.py:160-161 | when no two elements share a key, only one sorted permutation exists |
| LevelColumns.SortIntoPosition | scripts/esco/map_skill_hierarchy_paths.py:152-161 | any arrangement of level names keyed by position sorts back to level order |
| LevelColumns.Interleave | scripts/esco/map_skill_hierarchy_paths.py:164-166 | `zip` pairs up as many columns as the shorter list has, two output columns per pair |
| LevelColumns.InterleaveAt | scripts/esco/map_skill_hierarchy_paths.py:164-166 | the i-th ID column sits at position 2i and the i-th label column right after it |
| LevelColumns.IdColumnsOfLevels | scripts/esco/map_skill_hierarchy_paths.py:150-160 | if the level columns present are those of levels 1..n in any order, the ID columns come out as levels 1..n in order |
| LevelColumns.LabelColumnsOfLevels | scripts/esco/map_skill_hierarchy_paths.py:150-161 | the same holds for the label columns |
| LevelColumns.InterleaveLevels | scripts/esco/map_skill_hierarchy_paths.py:163-166 | interleaving the columns of levels 1..n gives ID, label, ID, label, … level by level |
| LevelColumns.FinalColumnsOfLevels | scripts/esco/map_skill_hierarchy_paths.py:146-169 | for the level columns of levels 1..n in any order, the written header is the skill table's own columns, then level 1's ID and label columns, then level 2's, and so on up to n, then `hierarchy_path` |
| PathRows.WithLevelsSets | scripts/esco/map_skill_hierarchy_paths.py:120-128 | the level loop sets level k's ID column to the k-th node of the path and its label column to the node's label, or "" when it has none |
| PathRows.WithLevelsKeeps | scripts/esco/map_skill_hierarchy_paths.py:116-128 | every column of the skill row that is not a level column written by the loop keeps its value |
| PathRows.WithLevelsOnly | scripts/esco/map_skill_hierarchy_paths.py:116-128 | the loop adds no column other than the level columns of the path |
| PathRows.PathRowLevels | scripts/esco/map_skill_hierarchy_paths.py:115-133 | in a path row, level k's ID column is the path's k-th node and its label column is that node's label or "" |
| PathRows.PathRowKeeps | scripts/esco/map_skill_hierarchy_paths.py:116-133 | a path row keeps the skill's own cells except those it overwrites, and holds nothing beyond them, the level columns and the path column |
| PathRows.PathRowPathColumn | scripts/esco/map_skill_hierarchy_paths.py:130-133 | the path column is the nodes' labels, or their IDs when they have no label, joined from the skill up to the root. When no label holds ';', splitting it gives that list back |
| PathRows.FillPathRow | scripts/esco/map_skill_hierarchy_paths.py:115-133 | the loop-built row is the specified path row |
| PathRows.LongestOf | scripts/esco/map_skill_hierarchy_paths.py:111-112 | the running maximum grows to the longest path length |
| PathRows.RowsOfPaths | scripts/esco/map_skill_hierarchy_paths.py:115-135 | one row per path, in path order |
| PathRows.ExpandSkill | scripts/esco/map_skill_hierarchy_paths.py:105-135 | one skill gives the path rows of its enumerated paths, and updates the running maximum |
| PathRows.MapSkillHierarchies | scripts/esco/map_skill_hierarchy_paths.py:100-135 | the row loop completes iff every skill row has an ID, and otherwise stops at the first row without one. When it completes, the rows are each skill's path rows in skill order and then path order, and the reported maximum is the longest path over all skills |
| PathRows.RowCount | scripts/esco/map_skill_hierarchy_paths.py:114-135 | the table has as many rows as the skills have paths in total, and at least one row per skill |
| PathRows.RowsForHas | scripts/esco/map_skill_hierarchy_paths.py:115-135 | each path of a skill gives a row among that skill's rows |
| PathRows.RowsForOnly | scripts/esco/map_skill_hierarchy_paths.py:115-135 | each of a skill's rows is the path row of one of its paths |
| PathRows.PathRowsInTable | scripts/esco/map_skill_hierarchy_paths.py:104-135 | every path of every skill appears as a row of the table |
| PathRows.TableRowsArePathRows | scripts/esco/map_skill_hierarchy_paths.py:104-135 | every row of the table is the path row of some skill and one of its paths |
| PathRows.LongestPathIsMax | scripts/esco/map_skill_hierarchy_paths.py:111-112 | the longest path length of a skill bounds each path's length and is attained |
| PathRows.LongestOverIsMax | scripts/esco/map_skill_hierarchy_paths.py:102-112 | the reported maximum bounds every path of every skill and, when there are skills, is attained by one |
| PathRows.LongestIsDeepestLevel | scripts/esco/map_skill_hierarchy_paths.py:102-112 | on acyclic input the reported maximum is the largest LEVEL the level script gives the skills |
| Text.SplitJoin | scripts/esco/map_skill_hierarchy_paths.py:133 | a non-empty list of parts with no ';' in them comes back from splitting the joined string |
| Text.JoinSplit | scripts/esco/map_skill_hierarchy_paths.py:133 | joining the split parts of any string gives the string back |
| Text.LeadingDigits | scripts/esco/map_skill_hierarchy_paths.py:156 | the result is the longest run of digits that begins the string |
| Text.LeadingDigitsOf | scripts/esco/map_skill_hierarchy_paths.py:156 | a digit run followed by a non-digit is exactly what is taken |
| TaskPaths.Present | scripts/onet/map_task_hierarchy_paths.py:92-100 | the components are at most the four fields, each a value that one of the fields holds |
| TaskPaths.PathPartsInOrder | scripts/onet/map_task_hierarchy_paths.py:89-100 | the components are work activity, IWA title, DWA title and task, in that order, each only when present |
| TaskPaths.PresentEmpty | scripts/onet/map_task_hierarchy_paths.py:92-102 | there are no components iff none of the fields is present |
| TaskPaths.PresentAll | scripts/onet/map_task_hierarchy_paths.py:92-100 | when every field is present, there is one component per field, equal to its cell |
| TaskPaths.CreatePathString | scripts/onet/map_task_hierarchy_paths.py:90-102 | the row-by-row builder gives the specified path string |
| TaskPaths.PathStringNone | scripts/onet/map_task_hierarchy_paths.py:102 | the path is None iff all four fields are missing |
| TaskPaths.PathStringSplits | scripts/onet/map_task_hierarchy_paths.py:92-102 | when no component holds ';', splitting the path gives back exactly the present components in order |
| TaskPaths.FullPath | scripts/onet/map_task_hierarchy_paths.py:88-102 | a row with all four fields gives the path "work activity ; IWA title ; DWA title ; task" |
| TaskPaths.Matches | scripts/onet/map_task_hierarchy_paths.py:62-66 | a left row matches no more right rows than there are |
| TaskPaths.MatchesAre | scripts/onet/map_task_hierarchy_paths.py:62-66 | the matched right rows are exactly those that agree with the left row on every key |
| TaskPaths.MatchesCount | scripts/onet/map_task_hierarchy_paths.py:62-66 | each matching right row is matched as often as it occurs, and each other one never |
| TaskPaths.JoinOne | scripts/onet/map_task_hierarchy_paths.py:62-66 | a left row gives at least one joined row |
| TaskPaths.JoinOneCount | scripts/onet/map_task_hierarchy_paths.py:62-66 | a left row gives one row per match, or a single row when nothing matches |
| TaskPaths.JoinOneRows | scripts/onet/map_task_hierarchy_paths.py:62-66 | a left row's output rows are its combinations with matching right rows; when nothing matches, the output is the left row with the taken columns missing |
| TaskPaths.JoinOneKeeps | scripts/onet/map_task_hierarchy_paths.py:62-66 | every output row keeps the left row's cells outside the taken columns |
| TaskPaths.LeftJoin | scripts/onet/map_task_hierarchy_paths.py:62-78 | a left join never has fewer rows than its left table |
| TaskPaths.LeftJoinAppend | scripts/onet/map_task_hierarchy_paths.py:62-78 | the left join works row by row: joining two blocks is joining each and concatenating |
| TaskPaths.LeftJoinRows | scripts/onet/map_task_hierarchy_paths.py:62-78 | a row is in the join iff some left row gives it |
| TaskPaths.LeftJoinKeepsLeft | scripts/onet/map_task_hierarchy_paths.py:62-78 | every left row survives the join with its cells outside the taken columns intact |
| TaskPaths.ColumnOrderContents | scripts/onet/map_task_hierarchy_paths.py:108-115 | the order holds the available task columns and all seven hierarchy columns, and ends with the hierarchy columns |
| TaskPaths.FilterPairOrder | scripts/onet/map_task_hierarchy_paths.py:114 | filtering keeps the relative order of the kept columns |
| TaskPaths.ColumnOrderKeepsOrder | scripts/onet/map_task_hierarchy_paths.py:108-115 | the task columns appear in their listed order. When all are available, the order is the full task list followed by the hierarchy columns |
| TaskPaths.FirstMissing | scripts/onet/map_task_hierarchy_paths.py:62-78 | none is reported iff every needed column exists, and a reported column is needed and absent |
| TaskPaths.PathRowsCount | scripts/onet/map_task_hierarchy_paths.py:60-104 | the path table has at least one row per task, and none without tasks |
| TaskPaths.CreateHierarchyPathsOutcome | scripts/onet/map_task_hierarchy_paths.py:51-119 | the build completes iff the three inputs have the columns read from them, the Task column of the task table included. A completed build's header is the column order for the task table's columns, and it has at least one row per task |
| TaskPaths.TaskColumnsApart | scripts/onet/map_task_hierarchy_paths.py:62-84 | no task column is taken from the joined tables or renamed |
| TaskPaths.FinishKeeps | scripts/onet/map_task_hierarchy_paths.py:81-104 | renaming and adding the path leave every task column's cell alone |
| TaskPaths.TaskInJoins | scripts/onet/map_task_hierarchy_paths.py:62-78 | each task has a row of the two joins that carries its task cells unchanged |
| TaskPaths.ProjectKeeps | scripts/onet/map_task_hierarchy_paths.py:117 | projection keeps the cells of the chosen columns |
| TaskPaths.TasksKept | scripts/onet/map_task_hierarchy_paths.py:51-119 | every task has an output row carrying its cells in all available task columns |
| TaskPaths.PathColumnAgrees | scripts/onet/map_task_hierarchy_paths.py:104-117 | in every output row the path cell is the path string of that row's own cells |
| TaskPaths.ProjectedPathAgrees | scripts/onet/map_task_hierarchy_paths.py:104-117 | projecting a row onto an order that keeps the path and its four fields keeps the path consistent with them |

## Where the code and its comments differ

The model follows the code in each case below.

- Repeated paths. The comments promise one row per unique path (`map_skill_hierarchy_paths.py:114`, `map_task_hierarchy_paths.py:56`). The code never removes repeats. The list loader keeps a repeated (parent, child) row (`:27`), and `extend` (`:82`) repeats every path through that parent. `SkillPaths.DuplicateEdgeRepeats` and `SkillPaths.PathsRecurrence` state this. The joins likewise give one row per matching pair, repeats included (`TaskPaths.MatchesCount`). The level script's parent sets absorb the repeat (`SkillLevels.DuplicateEdgeChangesNothing`).
- Path direction. `hierarchy_path` in the skill script runs from the skill up to the root (`:130-133`). The O*NET path runs from the work activity down to the task (`:89-100`).
- Levels through a cycle. Cutting a cycle makes the node met again count as 1, and that 1 is not cached (`add_skill_levels.py:116-118`). Every value computed above the cut is cached (`:140`) and reused by later rows. So for X and Y that are each other's parent, querying X first gives X a level of at least 3, and the later query of Y returns one less from the cache (`SkillLevels.QueryTwoCycle`; the contract states these bounds, not the exact values 3 and 2). The LEVEL of a node on a cycle therefore depends on which row is processed first, and it is not bounded by the cycle's length. The depth contracts promise true depths only on cycle-free input.
- Parents as sets or lists. The level script keeps parents as a set and the path script as a list. `SkillPaths.LoadersAgree` proves the two loaders agree on which parents a child has.

## Left out

- Reading and writing CSV files, `load_labels` and `load_onet_data`: the input tables and the label map are parameters. The label map is a `map` from node ID to label, so a later entry overriding an earlier one is not modelled.
- All printing: progress lines, the cycle warning, the level distribution (`add_skill_levels.py:205-212`), the path statistics (`map_skill_hierarchy_paths.py:140-141`, `176-186`), the join counts and `analyze_paths`.
- The CSV header of the level script (the reader's field names plus LEVEL). The model works on rows as maps from column to cell.
- Python's set iteration order: `CalculateDepth` visits the parents in an unspecified order. Its contract holds for every order.
- SkillLevels.CalculateDepth: the shared cache and path set are threaded through as values in and out, not aliased mutable objects; every state the source reaches is a returned value.
- A missing `ID` or other column, which raises `KeyError` in the source, ends the run with `MissingColumn` or `NoSuchColumn` naming the first failure.
- NaN cells are modelled as columns a row's map does not hold. `str()` conversions of non-string cells and pandas dtypes are not modelled; cells are strings.
- The pandas merge suffixes (`_x`, `_y`) for clashing non-key columns are not modelled. The taken columns of the right table replace those of the left.
- The empty-table behaviour of `apply` is not modelled: the model treats a task table without a Task column as an error whether or not it has rows.
- PathRows.MapSkillHierarchies: models the row loop only. The DataFrame assembly and column selection at `map_skill_hierarchy_paths.py:143-170` are not part of it. In particular, with an empty skills table `output_df[final_cols]` raises `KeyError`, because `pd.DataFrame([])` has no columns; the model returns `Done([])` with maximum 0 instead.
- LevelColumns.FinalColumnsOfLevels: the order of columns in `pd.DataFrame(output_rows)` (first appearance across the rows) is not modelled. The lemma assumes the columns containing "_level" are exactly those of levels 1..n. That holds when no column of the skill table contains "_level", because a path row with k levels carries all the columns of levels 1..k.
- `\d` in `get_level_num` also matches non-ASCII digits. The model reads ASCII digits only, which are the only ones the script's column names contain.
- Integer widths: Python integers are unbounded, as in the model.
