/** The per-level columns of the skill path table: how a level's ID and label
    columns are named, how the level number is read back out of a column
    name, and the order the columns are written in. */
module LevelColumns {
  import Text

  /** The ID column of the node `k` steps above the skill: "1_level_up",
      "2_levels_up", ... */
  function LevelName(k: nat): string
    requires k >= 1
  {
    Text.NatToDecimal(k) + "_level" + (if k > 1 then "s" else "") + "_up"
  }

  /** The label column of the node `k` steps above the skill. */
  function LabelName(k: nat): string
    requires k >= 1
  {
    LevelName(k) + "_preferredlabel"
  }

  /** The column holding the joined labels of the whole path. */
  const PathColumn: string := "hierarchy_path"

  /** What `get_level_num` yields for a name that does not match. */
  const NoLevel: nat := 999

  /** `col` starts with the digit run `d` followed by "_level". */
  predicate LevelPrefix(col: string, d: string)
  {
    |d| >= 1 && Text.AllDigits(d) && d + "_level" <= col
  }

  /** `get_level_num`: the number a name starts with when "_level" follows
      it, otherwise 999. */
  function GetLevelNum(col: string): nat
  {
    var d := Text.LeadingDigits(col);
    if |d| >= 1 && d + "_level" <= col then Text.DecimalValue(d) else NoLevel
  }

  /** A digit run followed by "_level" is what the greedy digit match takes. */
  lemma LevelPrefixIsLeadingDigits(col: string, d: string)
    requires LevelPrefix(col, d)
    ensures Text.LeadingDigits(col) == d
  {
    var rest := col[|d|..];
    assert col == d + rest;
    assert rest[0] == '_';
    Text.LeadingDigitsOf(d, rest);
  }

  /** `get_level_num` matches `(\d+)_level` at the start of the name: it
      yields the number when the name has that shape and 999 when not. */
  lemma GetLevelNumSpec(col: string)
    ensures forall d :: LevelPrefix(col, d) ==> GetLevelNum(col) == Text.DecimalValue(d)
    ensures (forall d :: !LevelPrefix(col, d)) ==> GetLevelNum(col) == NoLevel
  {
    forall d | LevelPrefix(col, d) ensures GetLevelNum(col) == Text.DecimalValue(d) {
      LevelPrefixIsLeadingDigits(col, d);
    }
    var d := Text.LeadingDigits(col);
    if |d| >= 1 && d + "_level" <= col {
      assert LevelPrefix(col, d);
    }
  }

  /** The number in a level's column names reads back as the level. */
  lemma LevelNumRoundTrip(k: nat)
    requires k >= 1
    ensures GetLevelNum(LevelName(k)) == k
    ensures GetLevelNum(LabelName(k)) == k
  {
    var d := Text.NatToDecimal(k);
    assert LevelPrefix(LevelName(k), d);
    assert LevelPrefix(LabelName(k), d);
    LevelPrefixIsLeadingDigits(LevelName(k), d);
    LevelPrefixIsLeadingDigits(LabelName(k), d);
    Text.DecimalRoundTrip(k);
  }

  /** No two of the columns a path row adds share a name, and none is the
      path column. */
  lemma ColumnNamesDistinct(j: nat, k: nat)
    requires j >= 1 && k >= 1
    ensures LevelName(j) == LevelName(k) ==> j == k
    ensures LabelName(j) == LabelName(k) ==> j == k
    ensures LevelName(j) != LabelName(k)
    ensures LevelName(j) != PathColumn && LabelName(j) != PathColumn
  {
    LevelNumRoundTrip(j);
    LevelNumRoundTrip(k);
    var a, b := LevelName(j), LabelName(k);
    assert a[|a| - 1] == 'p' && b[|b| - 1] == 'l';
    assert Text.IsDigit(a[0]) && Text.IsDigit(LabelName(j)[0]);
  }

  // ---------------------------------------------------------------------------
  // Column order

  /** `'_level' in col`: the columns the ordering treats as level columns. */
  predicate IsHierarchyColumn(col: string)
  {
    Text.Contains(col, "_level")
  }

  /** `'preferredlabel' in col`: a level column holding a label. */
  predicate IsLabelColumn(col: string)
  {
    Text.Contains(col, "preferredlabel")
  }

  /** The ID and label columns of a level are both level columns, and only
      the second is a label column. */
  lemma ColumnKinds(k: nat)
    requires k >= 1
    ensures IsHierarchyColumn(LevelName(k)) && !IsLabelColumn(LevelName(k))
    ensures IsHierarchyColumn(LabelName(k)) && IsLabelColumn(LabelName(k))
  {
    var d := Text.NatToDecimal(k);
    var s, n := LevelName(k), LabelName(k);
    assert Text.OccursAt(s, "_level", |d|);
    assert Text.OccursAt(n, "_level", |d|);
    assert Text.OccursAt(n, "preferredlabel", |n| - 14);
    forall i | 0 <= i <= |s| - 14 ensures !Text.OccursAt(s, "preferredlabel", i) {
      assert s[i] == d[i];
      assert s[i..i + 14][0] == s[i];
    }
  }

  /** The elements of `s` that `keep` accepts, in order (a list comprehension
      with a condition). */
  function Filter(s: seq<string>, keep: string -> bool): (r: seq<string>)
    ensures forall x :: x in r <==> x in s && keep(x)
  {
    if s == [] then [] else (if keep(s[0]) then [s[0]] else []) + Filter(s[1..], keep)
  }

  /** How often `x` occurs in the filtered list. */
  lemma {:induction false} FilterCount(s: seq<string>, keep: string -> bool, x: string)
    ensures multiset(Filter(s, keep))[x] == if keep(x) then multiset(s)[x] else 0
  {
    if s != [] {
      FilterCount(s[1..], keep, x);
      assert s == [s[0]] + s[1..];
    }
  }

  /** Filtering lists with the same elements gives lists with the same elements. */
  lemma FilterSameElements(a: seq<string>, b: seq<string>, keep: string -> bool)
    requires multiset(a) == multiset(b)
    ensures multiset(Filter(a, keep)) == multiset(Filter(b, keep))
  {
    forall x ensures multiset(Filter(a, keep))[x] == multiset(Filter(b, keep))[x] {
      FilterCount(a, keep, x);
      FilterCount(b, keep, x);
    }
  }

  predicate SortedBy(s: seq<string>, key: string -> nat)
  {
    forall i, j :: 0 <= i < j < |s| ==> key(s[i]) <= key(s[j])
  }

  lemma ConsSorted(h: string, t: seq<string>, key: string -> nat)
    requires SortedBy(t, key) && forall c :: c in t ==> key(h) <= key(c)
    ensures SortedBy([h] + t, key)
  {
    var r := [h] + t;
    forall i, j | 0 <= i < j < |r| ensures key(r[i]) <= key(r[j]) {
      assert r[j] == t[j - 1];
      if i > 0 {
        assert r[i] == t[i - 1];
      }
    }
  }

  /** `x` placed after every element of `s` whose key is not above its own. */
  function Insert(x: string, s: seq<string>, key: string -> nat): (r: seq<string>)
    ensures multiset(r) == multiset(s) + multiset{x}
  {
    if s == [] then [x]
    else if key(s[0]) <= key(x) then
      assert s == [s[0]] + s[1..];
      [s[0]] + Insert(x, s[1..], key)
    else [x] + s
  }

  lemma {:induction false} InsertSorted(x: string, s: seq<string>, key: string -> nat)
    requires SortedBy(s, key)
    ensures SortedBy(Insert(x, s, key), key)
    decreases |s|
  {
    if s == [] {
    } else if key(s[0]) <= key(x) {
      var rest := s[1..];
      var r' := Insert(x, rest, key);
      assert SortedBy(rest, key);
      InsertSorted(x, rest, key);
      forall c | c in r' ensures key(s[0]) <= key(c) {
        assert multiset(r')[c] > 0;
        assert c in rest || c == x;
      }
      ConsSorted(s[0], r', key);
    } else {
      ConsSorted(x, s, key);
    }
  }

  /** `sorted(s, key=key)`: ascending by key; equal keys keep their order. */
  function SortBy(s: seq<string>, key: string -> nat): (r: seq<string>)
    ensures SortedBy(r, key) && multiset(r) == multiset(s)
  {
    if s == [] then []
    else
      var front := s[..|s| - 1];
      assert s == front + [s[|s| - 1]];
      InsertSorted(s[|s| - 1], SortBy(front, key), key);
      Insert(s[|s| - 1], SortBy(front, key), key)
  }

  /** The elements of `s` whose key is `v`, in order. */
  function WithKey(s: seq<string>, key: string -> nat, v: nat): seq<string>
  {
    if s == [] then []
    else (if key(s[0]) == v then [s[0]] else []) + WithKey(s[1..], key, v)
  }

  lemma {:induction false} WithKeyAppend(a: seq<string>, b: seq<string>, key: string -> nat, v: nat)
    ensures WithKey(a + b, key, v) == WithKey(a, key, v) + WithKey(b, key, v)
    decreases |a|
  {
    if a == [] {
      assert a + b == b;
    } else {
      assert (a + b)[1..] == a[1..] + b;
      WithKeyAppend(a[1..], b, key, v);
    }
  }

  lemma {:induction false} WithKeyNone(s: seq<string>, key: string -> nat, v: nat)
    requires forall c :: c in s ==> key(c) != v
    ensures WithKey(s, key, v) == []
    decreases |s|
  {
    if s != [] {
      WithKeyNone(s[1..], key, v);
    }
  }

  lemma {:induction false} InsertWithKey(x: string, s: seq<string>, key: string -> nat, v: nat)
    requires SortedBy(s, key)
    ensures WithKey(Insert(x, s, key), key, v) == WithKey(s, key, v) + (if key(x) == v then [x] else [])
    decreases |s|, 1
  {
    if s == [] {
    } else if key(s[0]) <= key(x) {
      InsertWithKeyPast(x, s, key, v);
    } else {
      InsertWithKeyFront(x, s, key, v);
    }
  }

  lemma {:induction false} InsertWithKeyPast(x: string, s: seq<string>, key: string -> nat, v: nat)
    requires SortedBy(s, key) && s != [] && key(s[0]) <= key(x)
    ensures WithKey(Insert(x, s, key), key, v) == WithKey(s, key, v) + (if key(x) == v then [x] else [])
    decreases |s|, 0
  {
    var head, rest := [s[0]], s[1..];
    assert s == head + rest;
    var tail := if key(x) == v then [x] else [];
    assert Insert(x, s, key) == head + Insert(x, rest, key);
    SortedTail(s, key);
    InsertWithKey(x, rest, key, v);
    WithKeyAppend(head, Insert(x, rest, key), key, v);
    WithKeyAppend(head, rest, key, v);
    Text.Associative(WithKey(head, key, v), WithKey(rest, key, v), tail);
  }

  lemma InsertWithKeyFront(x: string, s: seq<string>, key: string -> nat, v: nat)
    requires SortedBy(s, key) && s != [] && key(x) < key(s[0])
    ensures WithKey(Insert(x, s, key), key, v) == WithKey(s, key, v) + (if key(x) == v then [x] else [])
  {
    assert Insert(x, s, key) == [x] + s;
    WithKeyAppend([x], s, key, v);
    if key(x) == v {
      forall c | c in s ensures key(c) != v {
        var i :| 0 <= i < |s| && s[i] == c;
        assert key(s[0]) <= key(s[i]);
      }
      WithKeyNone(s, key, v);
    }
  }

  /** The sort is stable: the elements with any one key keep their input order. */
  lemma {:induction false} SortByStable(s: seq<string>, key: string -> nat, v: nat)
    ensures WithKey(SortBy(s, key), key, v) == WithKey(s, key, v)
    decreases |s|
  {
    if s != [] {
      var front, x := s[..|s| - 1], s[|s| - 1];
      assert s == front + [x];
      var sorted := SortBy(front, key);
      assert SortBy(s, key) == Insert(x, sorted, key);
      SortByStable(front, key, v);
      InsertWithKey(x, sorted, key, v);
      WithKeyAppend(front, [x], key, v);
      assert WithKey([x], key, v) == if key(x) == v then [x] else [];
    }
  }

  lemma SortedTail(s: seq<string>, key: string -> nat)
    requires SortedBy(s, key) && s != []
    ensures SortedBy(s[1..], key)
  {
    forall i, j | 0 <= i < j < |s[1..]| ensures key(s[1..][i]) <= key(s[1..][j]) {
      assert s[1..][i] == s[i + 1] && s[1..][j] == s[j + 1];
    }
  }

  /** Two sorted lists with the same elements, no two of which share a key,
      start with the same element. */
  lemma SortedSameHead(a: seq<string>, b: seq<string>, key: string -> nat)
    requires SortedBy(a, key) && SortedBy(b, key) && multiset(a) == multiset(b) && a != []
    requires forall x, y :: x in a && y in a && key(x) == key(y) ==> x == y
    ensures b != [] && a[0] == b[0]
  {
    assert a[0] in multiset(b);
    assert b != [];
    assert b[0] in multiset(a);
    assert key(a[0]) <= key(b[0]) by {
      var j :| 0 <= j < |a| && a[j] == b[0];
    }
    assert key(b[0]) <= key(a[0]) by {
      var i :| 0 <= i < |b| && b[i] == a[0];
    }
  }

  /** Two sorted lists with the same elements are equal when no two of
      those elements share a key. */
  lemma {:induction false} SortedUnique(a: seq<string>, b: seq<string>, key: string -> nat)
    requires SortedBy(a, key) && SortedBy(b, key) && multiset(a) == multiset(b)
    requires forall x, y :: x in a && y in a && key(x) == key(y) ==> x == y
    ensures a == b
    decreases |a|
  {
    if a == [] {
      assert |b| == |multiset(b)| == 0;
    } else {
      SortedSameHead(a, b, key);
      var a', b' := a[1..], b[1..];
      assert a == [a[0]] + a';
      assert b == [b[0]] + b';
      assert multiset(a') == multiset(a) - multiset{a[0]};
      assert multiset(b') == multiset(b) - multiset{b[0]};
      SortedTail(a, key);
      SortedTail(b, key);
      assert forall x :: x in a' ==> x in a;
      SortedUnique(a', b', key);
    }
  }

  /** `names` holds the columns of levels 1, 2, ... in that order. */
  predicate KeyedByPosition(names: seq<string>, key: string -> nat)
  {
    forall i :: 0 <= i < |names| ==> key(names[i]) == i + 1
  }

  /** Sorting any arrangement of such columns gives them in level order. */
  lemma SortIntoPosition(found: seq<string>, names: seq<string>, key: string -> nat)
    requires KeyedByPosition(names, key) && multiset(found) == multiset(names)
    ensures SortBy(found, key) == names
  {
    assert SortedBy(names, key);
    forall x, y | x in names && y in names && key(x) == key(y) ensures x == y {
      var i :| 0 <= i < |names| && names[i] == x;
      var j :| 0 <= j < |names| && names[j] == y;
    }
    SortedUnique(names, SortBy(found, key), key);
  }

  function Min(a: nat, b: nat): nat
  {
    if a <= b then a else b
  }

  /** `zip(ids, labels)` flattened: an ID column, then its label column, and
      so on; the longer list's extra columns are dropped. */
  function Interleave(ids: seq<string>, labels: seq<string>): (r: seq<string>)
    ensures |r| == 2 * Min(|ids|, |labels|)
  {
    if ids == [] || labels == [] then []
    else [ids[0], labels[0]] + Interleave(ids[1..], labels[1..])
  }

  /** Position 2i holds the i-th ID column and 2i+1 the i-th label column. */
  lemma {:induction false} InterleaveAt(ids: seq<string>, labels: seq<string>, i: nat)
    requires i < Min(|ids|, |labels|)
    ensures Interleave(ids, labels)[2 * i] == ids[i]
    ensures Interleave(ids, labels)[2 * i + 1] == labels[i]
    decreases i
  {
    if i > 0 {
      var r' := Interleave(ids[1..], labels[1..]);
      assert Interleave(ids, labels) == [ids[0], labels[0]] + r';
      InterleaveAt(ids[1..], labels[1..], i - 1);
      assert r'[2 * (i - 1)] == ids[i];
      assert r'[2 * (i - 1) + 1] == labels[i];
    }
  }

  predicate NotLabelColumn(col: string)
  {
    !IsLabelColumn(col)
  }

  /** The level ID columns among `cols`, sorted by level. */
  function IdColumns(cols: seq<string>): seq<string>
  {
    SortBy(Filter(Filter(cols, IsHierarchyColumn), NotLabelColumn), GetLevelNum)
  }

  /** The level label columns among `cols`, sorted by level. */
  function LabelColumns(cols: seq<string>): seq<string>
  {
    SortBy(Filter(Filter(cols, IsHierarchyColumn), IsLabelColumn), GetLevelNum)
  }

  /** The written column order: the skill table's own columns, the level
      columns in pairs, and the path column last. */
  function FinalColumns(original: seq<string>, cols: seq<string>): seq<string>
  {
    original + Interleave(IdColumns(cols), LabelColumns(cols)) + [PathColumn]
  }

  /** The ID columns of levels 1 to n, in level order. */
  function LevelNames(n: nat): (r: seq<string>)
    ensures |r| == n && forall i :: 0 <= i < n ==> r[i] == LevelName(i + 1)
  {
    if n == 0 then [] else LevelNames(n - 1) + [LevelName(n)]
  }

  /** The label columns of levels 1 to n, in level order. */
  function LabelNames(n: nat): (r: seq<string>)
    ensures |r| == n && forall i :: 0 <= i < n ==> r[i] == LabelName(i + 1)
  {
    if n == 0 then [] else LabelNames(n - 1) + [LabelName(n)]
  }

  /** 1_level_up, 1_level_up_preferredlabel, 2_levels_up, ... up to level n. */
  function LevelPairs(n: nat): (r: seq<string>)
    ensures |r| == 2 * n
    ensures forall i :: 0 <= i < n ==> r[2 * i] == LevelName(i + 1) && r[2 * i + 1] == LabelName(i + 1)
  {
    if n == 0 then [] else LevelPairs(n - 1) + [LevelName(n), LabelName(n)]
  }

  lemma {:induction false} FilterAppend(a: seq<string>, b: seq<string>, keep: string -> bool)
    ensures Filter(a + b, keep) == Filter(a, keep) + Filter(b, keep)
    decreases |a|
  {
    if a == [] {
      assert a + b == b;
    } else {
      assert (a + b)[1..] == a[1..] + b;
      FilterAppend(a[1..], b, keep);
    }
  }

  lemma {:induction false} FilterKeepsAll(s: seq<string>, keep: string -> bool)
    requires forall x :: x in s ==> keep(x)
    ensures Filter(s, keep) == s
    decreases |s|
  {
    if s != [] {
      FilterKeepsAll(s[1..], keep);
      assert s == [s[0]] + s[1..];
    }
  }

  lemma {:induction false} FilterDropsAll(s: seq<string>, keep: string -> bool)
    requires forall x :: x in s ==> !keep(x)
    ensures Filter(s, keep) == []
    decreases |s|
  {
    if s != [] {
      FilterDropsAll(s[1..], keep);
    }
  }

  lemma LevelNamesKeyed(n: nat)
    ensures KeyedByPosition(LevelNames(n), GetLevelNum)
    ensures KeyedByPosition(LabelNames(n), GetLevelNum)
  {
    var ids, labels := LevelNames(n), LabelNames(n);
    forall i | 0 <= i < n ensures GetLevelNum(ids[i]) == i + 1 && GetLevelNum(labels[i]) == i + 1 {
      LevelNumRoundTrip(i + 1);
    }
  }

  /** The ID columns found, when they are those of levels 1..n, come out in level order. */
  lemma IdColumnsOfLevels(cols: seq<string>, n: nat)
    requires multiset(Filter(cols, IsHierarchyColumn)) == multiset(LevelNames(n) + LabelNames(n))
    ensures IdColumns(cols) == LevelNames(n)
  {
    var hier := Filter(cols, IsHierarchyColumn);
    var ids, labels := LevelNames(n), LabelNames(n);
    forall i | 0 <= i < n ensures NotLabelColumn(ids[i]) && !NotLabelColumn(labels[i]) {
      ColumnKinds(i + 1);
    }
    FilterAppend(ids, labels, NotLabelColumn);
    FilterKeepsAll(ids, NotLabelColumn);
    FilterDropsAll(labels, NotLabelColumn);
    assert ids + [] == ids;
    FilterSameElements(hier, ids + labels, NotLabelColumn);
    LevelNamesKeyed(n);
    SortIntoPosition(Filter(hier, NotLabelColumn), ids, GetLevelNum);
  }

  /** The label columns found, when they are those of levels 1..n, come out in level order. */
  lemma LabelColumnsOfLevels(cols: seq<string>, n: nat)
    requires multiset(Filter(cols, IsHierarchyColumn)) == multiset(LevelNames(n) + LabelNames(n))
    ensures LabelColumns(cols) == LabelNames(n)
  {
    var hier := Filter(cols, IsHierarchyColumn);
    var ids, labels := LevelNames(n), LabelNames(n);
    forall i | 0 <= i < n ensures !IsLabelColumn(ids[i]) && IsLabelColumn(labels[i]) {
      ColumnKinds(i + 1);
    }
    FilterAppend(ids, labels, IsLabelColumn);
    FilterDropsAll(ids, IsLabelColumn);
    FilterKeepsAll(labels, IsLabelColumn);
    assert [] + labels == labels;
    FilterSameElements(hier, ids + labels, IsLabelColumn);
    LevelNamesKeyed(n);
    SortIntoPosition(Filter(hier, IsLabelColumn), labels, GetLevelNum);
  }

  lemma InterleaveLevels(n: nat)
    ensures Interleave(LevelNames(n), LabelNames(n)) == LevelPairs(n)
  {
    var ids, labels := LevelNames(n), LabelNames(n);
    var zipped, pairs := Interleave(ids, labels), LevelPairs(n);
    assert Min(|ids|, |labels|) == n;
    forall j | 0 <= j < 2 * n ensures zipped[j] == pairs[j] {
      var i := j / 2;
      InterleaveAt(ids, labels, i);
      if j == 2 * i {
        assert zipped[2 * i] == ids[i] && pairs[2 * i] == LevelName(i + 1);
      } else {
        assert j == 2 * i + 1;
        assert zipped[2 * i + 1] == labels[i] && pairs[2 * i + 1] == LabelName(i + 1);
      }
    }
  }

  /** When the level columns present are the ID and label columns of levels
      1 to n, each once and in any order, the written order is the skill
      table's columns, then 1_level_up, 1_level_up_preferredlabel,
      2_levels_up, ... n_levels_up_preferredlabel, then hierarchy_path. */
  lemma FinalColumnsOfLevels(original: seq<string>, cols: seq<string>, n: nat)
    requires multiset(Filter(cols, IsHierarchyColumn)) == multiset(LevelNames(n) + LabelNames(n))
    ensures FinalColumns(original, cols) == original + LevelPairs(n) + [PathColumn]
  {
    IdColumnsOfLevels(cols, n);
    LabelColumnsOfLevels(cols, n);
    InterleaveLevels(n);
  }
}
