/** The upward paths of the ESCO skill hierarchy: the relation loader that
    keeps each child's parents as a list in file order, and the recursive
    enumeration of every path from a skill up to a root, cut where a path
    would revisit a node. */
module SkillPaths {
  import opened Taxonomy
  import SkillLevels
  import Text

  /** child id -> its parent ids, in the order the relation rows list them,
      repetitions included */
  type Hierarchy = map<string, seq<string>>

  // ---------------------------------------------------------------------------
  // Relation loader

  /** The parents that rows record for `c`, in row order. */
  function ParentList(rows: seq<Edge>, c: string): seq<string>
  {
    if rows == [] then []
    else
      var e := rows[|rows| - 1];
      ParentList(rows[..|rows| - 1], c) + (if e.child == c then [e.parent] else [])
  }

  /** What loading must produce: each child of some row, with its parent list. */
  function HierarchyOf(rows: seq<Edge>): Hierarchy
  {
    map c | c in Children(rows) :: ParentList(rows, c)
  }

  /** Appending one edge's parent to the child's list, creating it if needed. */
  function AppendEdge(m: Hierarchy, e: Edge): Hierarchy
  {
    m[e.child := (if e.child in m then m[e.child] else []) + [e.parent]]
  }

  function Elems(s: seq<string>): set<string>
  {
    set x | x in s
  }

  /** The same relation with each parent list read as a set. */
  function AsParentMap(m: Hierarchy): SkillLevels.ParentMap
  {
    map c | c in m :: Elems(m[c])
  }

  /** Rows read later contribute later parents: the list for `c` over `a + b`
      is the list over `a` followed by the list over `b`. */
  lemma {:induction false} ParentListAppend(a: seq<Edge>, b: seq<Edge>, c: string)
    ensures ParentList(a + b, c) == ParentList(a, c) + ParentList(b, c)
    decreases |b|
  {
    if b != [] {
      var e := b[|b| - 1];
      var b' := b[..|b| - 1];
      assert (a + b)[..|a + b| - 1] == a + b';
      assert (a + b)[|a + b| - 1] == e;
      var last := if e.child == c then [e.parent] else [];
      assert ParentList(a + b, c) == ParentList(a + b', c) + last;
      assert ParentList(b, c) == ParentList(b', c) + last;
      ParentListAppend(a, b', c);
    } else {
      assert a + b == a;
    }
  }

  /** The list for `c` holds exactly the parents some row records for it. */
  lemma {:induction false} ParentListElems(rows: seq<Edge>, c: string)
    ensures Elems(ParentList(rows, c)) == SkillLevels.ParentsIn(rows, c)
    decreases |rows|
  {
    if rows != [] {
      var e := rows[|rows| - 1];
      var front := rows[..|rows| - 1];
      ParentListElems(front, c);
      assert forall i :: 0 <= i < |front| ==> rows[i] == front[i];
      if e.child == c {
        assert SkillLevels.ParentsIn(rows, c) == SkillLevels.ParentsIn(front, c) + {e.parent};
      } else {
        assert SkillLevels.ParentsIn(rows, c) == SkillLevels.ParentsIn(front, c);
      }
    }
  }

  lemma {:induction false} ParentListOfNonChild(rows: seq<Edge>, c: string)
    requires c !in Children(rows)
    ensures ParentList(rows, c) == []
    decreases |rows|
  {
    if rows != [] {
      var front := rows[..|rows| - 1];
      assert forall i :: 0 <= i < |front| ==> front[i] == rows[i];
      ParentListOfNonChild(front, c);
    }
  }

  lemma HierarchyOfSnoc(rows: seq<Edge>, e: Edge)
    ensures HierarchyOf(rows + [e]) == AppendEdge(HierarchyOf(rows), e)
  {
    var rows' := rows + [e];
    assert rows'[..|rows'| - 1] == rows;
    assert Children(rows') == Children(rows) + {e.child} by {
      assert forall i :: 0 <= i < |rows| ==> rows'[i] == rows[i];
      assert rows'[|rows|] == e;
    }
    forall c | c in Children(rows')
      ensures ParentList(rows', c) == AppendEdge(HierarchyOf(rows), e)[c]
    {
      if c == e.child && c !in Children(rows) {
        ParentListOfNonChild(rows, c);
      }
    }
  }

  /** `load_hierarchy`: one pass over the rows, appending each parent to the
      child's list. */
  method LoadHierarchy(rows: seq<Edge>) returns (m: Hierarchy)
    ensures m == HierarchyOf(rows)
  {
    m := map[];
    var i := 0;
    while i < |rows|
      invariant 0 <= i <= |rows|
      invariant m == HierarchyOf(rows[..i])
    {
      var e := rows[i];
      HierarchyOfSnoc(rows[..i], e);
      assert rows[..i + 1] == rows[..i] + [e];
      m := m[e.child := (if e.child in m then m[e.child] else []) + [e.parent]];
      i := i + 1;
    }
    assert rows[..|rows|] == rows;
  }

  /** Both loaders see the same relation: the list for each child holds the
      same parents as the set the LEVEL script builds. */
  lemma LoadersAgree(rows: seq<Edge>)
    ensures AsParentMap(HierarchyOf(rows)) == SkillLevels.ParentSets(rows)
  {
    forall c | c in Children(rows)
      ensures Elems(ParentList(rows, c)) == SkillLevels.ParentsIn(rows, c)
    {
      ParentListElems(rows, c);
    }
  }

  /** An edge loaded a second time is listed twice, while the set-based loader
      is unchanged by it. */
  lemma DuplicateEdgeRepeats(rows: seq<Edge>, e: Edge)
    requires e in rows
    ensures e.child in HierarchyOf(rows) && e.child in HierarchyOf(rows + [e])
    ensures HierarchyOf(rows + [e])[e.child] == HierarchyOf(rows)[e.child] + [e.parent]
    ensures |HierarchyOf(rows + [e])[e.child]| == |HierarchyOf(rows)[e.child]| + 1
    ensures SkillLevels.ParentSets(rows + [e]) == SkillLevels.ParentSets(rows)
  {
    var i :| 0 <= i < |rows| && rows[i] == e;
    assert e.child in Children(rows);
    HierarchyOfSnoc(rows, e);
    SkillLevels.DuplicateEdgeChangesNothing(rows, e);
  }

  // ---------------------------------------------------------------------------
  // Path enumeration

  /** The script's test for a path's end: no entry, or an empty parent list. */
  predicate HasNoParents(m: Hierarchy, id: string)
  {
    id !in m || m[id] == []
  }

  /** `get_all_paths(id, m, current, visited)`: the path `current`, which ends
      at `id`, extended upward in every way; a node already in `visited` or
      without parents ends it. Each parent branch gets its own copy of
      `visited` with `id` added. */
  function AllPaths(m: Hierarchy, id: string, current: seq<string>, visited: set<string>): (paths: seq<seq<string>>)
    ensures |paths| >= 1
    ensures forall q :: q in paths ==> |current| <= |q| && q[..|current|] == current
    decreases m.Keys - visited, 0, 0
  {
    if id in visited then [current]
    else if HasNoParents(m, id) then [current]
    else PathsVia(m, m[id], current, visited + {id})
  }

  /** The loop over a parent list: each parent's paths, in list order, with
      nothing removed. */
  function PathsVia(m: Hierarchy, parents: seq<string>, current: seq<string>, visited: set<string>): (paths: seq<seq<string>>)
    ensures |paths| >= |parents|
    ensures forall q :: q in paths ==> |current| < |q| && q[..|current|] == current && q[|current|] in parents
    decreases m.Keys - visited, 1, |parents|
  {
    if parents == [] then []
    else AllPaths(m, parents[0], current + [parents[0]], visited) + PathsVia(m, parents[1..], current, visited)
  }

  /** `get_all_paths(s, m)`: the paths start as [s] with nothing visited. */
  function Paths(m: Hierarchy, s: string): (paths: seq<seq<string>>)
    ensures |paths| >= 1
    ensures forall q :: q in paths ==> |q| >= 1 && q[0] == s
    ensures HasNoParents(m, s) ==> paths == [[s]]
  {
    AllPaths(m, s, [s], {})
  }

  /** A path of PathsVia is a path of AllPaths through one of the parents. */
  lemma InPathsVia(m: Hierarchy, parents: seq<string>, current: seq<string>, visited: set<string>, q: seq<string>)
    ensures q in PathsVia(m, parents, current, visited) <==>
      exists k :: 0 <= k < |parents| && q in AllPaths(m, parents[k], current + [parents[k]], visited)
  {
    if q in PathsVia(m, parents, current, visited) {
      var k := ParentOfPath(m, parents, current, visited, q);
    }
    forall k | 0 <= k < |parents| && q in AllPaths(m, parents[k], current + [parents[k]], visited)
      ensures q in PathsVia(m, parents, current, visited)
    {
      PathViaParent(m, parents, current, visited, k, q);
    }
  }

  /** A path of the loop over a parent list comes from one listed parent ... */
  lemma {:induction false} ParentOfPath(m: Hierarchy, parents: seq<string>, current: seq<string>, visited: set<string>, q: seq<string>)
    returns (k: nat)
    requires q in PathsVia(m, parents, current, visited)
    ensures k < |parents| && q in AllPaths(m, parents[k], current + [parents[k]], visited)
    decreases |parents|
  {
    var rest := parents[1..];
    if q in AllPaths(m, parents[0], current + [parents[0]], visited) {
      k := 0;
    } else {
      var j := ParentOfPath(m, rest, current, visited, q);
      assert rest[j] == parents[j + 1];
      k := j + 1;
    }
  }

  /** ... and every path of every listed parent is kept. */
  lemma {:induction false} PathViaParent(m: Hierarchy, parents: seq<string>, current: seq<string>, visited: set<string>, k: nat, q: seq<string>)
    requires k < |parents| && q in AllPaths(m, parents[k], current + [parents[k]], visited)
    ensures q in PathsVia(m, parents, current, visited)
    decreases k
  {
    if k > 0 {
      var rest := parents[1..];
      assert rest[k - 1] == parents[k];
      PathViaParent(m, rest, current, visited, k - 1, q);
    }
  }

  // ---------------------------------------------------------------------------
  // The shape of every path

  /** Each next node of `q` is in the parent list of the node before. */
  predicate IsChain(m: Hierarchy, q: seq<string>)
  {
    forall i :: 0 <= i < |q| - 1 ==> q[i] in m && q[i + 1] in m[q[i]]
  }

  predicate Distinct(q: seq<string>)
  {
    forall i, j :: 0 <= i < j < |q| ==> q[i] != q[j]
  }

  /** How a path ends: no node repeats except possibly the last, and the last
      node has no parents or was met earlier on the path (a cycle cut). */
  predicate WellCut(m: Hierarchy, q: seq<string>)
  {
    |q| >= 1 &&
    Distinct(q[..|q| - 1]) &&
    (HasNoParents(m, q[|q| - 1]) || q[|q| - 1] in q[..|q| - 1])
  }

  lemma DistinctSnoc(front: seq<string>, x: string)
    requires Distinct(front) && x !in front
    ensures Distinct(front + [x])
  {
    var s := front + [x];
    forall i, j | 0 <= i < j < |s| ensures s[i] != s[j] {
      assert s[i] == front[i];
      if j < |front| {
        assert s[j] == front[j];
      }
    }
  }

  /** A chain stays a chain when it climbs to a listed parent of its last node. */
  lemma ChainSnoc(m: Hierarchy, current: seq<string>, p: string)
    requires |current| >= 1 && IsChain(m, current)
    requires current[|current| - 1] in m && p in m[current[|current| - 1]]
    ensures IsChain(m, current + [p])
  {
    var next := current + [p];
    forall i | 0 <= i < |next| - 1 ensures next[i] in m && next[i + 1] in m[next[i]] {
      if i < |current| - 1 {
        assert next[i] == current[i] && next[i + 1] == current[i + 1];
      }
    }
  }

  lemma {:induction false} AllPathsShape(m: Hierarchy, id: string, front: seq<string>, visited: set<string>, q: seq<string>)
    requires IsChain(m, front + [id]) && Distinct(front) && visited == Elems(front)
    requires q in AllPaths(m, id, front + [id], visited)
    ensures IsChain(m, q) && WellCut(m, q)
    decreases m.Keys - visited
  {
    if id !in visited && !HasNoParents(m, id) {
      var p := ClimbOne(m, id, front, visited, q);
      AllPathsShape(m, p, front + [id], visited + {id}, q);
    } else {
      CurrentIsCut(m, id, front, visited);
    }
  }

  /** One step up: a path through an unvisited node with parents goes on
      through one of its listed parents, with a chain of distinct nodes so
      far and that node now visited. */
  lemma ClimbOne(m: Hierarchy, id: string, front: seq<string>, visited: set<string>, q: seq<string>) returns (p: string)
    requires IsChain(m, front + [id]) && Distinct(front) && visited == Elems(front)
    requires q in AllPaths(m, id, front + [id], visited)
    requires id !in visited && !HasNoParents(m, id)
    ensures id in m && p in m[id] && m.Keys - (visited + {id}) < m.Keys - visited
    ensures q in AllPaths(m, p, front + [id] + [p], visited + {id})
    ensures IsChain(m, front + [id] + [p]) && Distinct(front + [id]) && visited + {id} == Elems(front + [id])
  {
    var current := front + [id];
    Visit(id, front, visited);
    var below := visited + {id};
    assert id in m.Keys - visited && id !in m.Keys - below;
    var k := ParentOfPath(m, m[id], current, below, q);
    p := m[id][k];
    ChainSnoc(m, current, p);
  }

  /** Visiting a node not yet on a path of distinct nodes keeps them
      distinct and adds it to the visited set. */
  lemma Visit(id: string, front: seq<string>, visited: set<string>)
    requires Distinct(front) && visited == Elems(front) && id !in visited
    ensures Distinct(front + [id]) && Elems(front + [id]) == visited + {id}
  {
    DistinctSnoc(front, id);
  }

  /** A path that stops where it is ends at a node without parents or at a
      node already on it. */
  lemma CurrentIsCut(m: Hierarchy, id: string, front: seq<string>, visited: set<string>)
    requires Distinct(front) && visited == Elems(front)
    requires id in visited || HasNoParents(m, id)
    ensures WellCut(m, front + [id])
  {
    var current := front + [id];
    assert current[..|current| - 1] == front;
  }

  /** Every path starts at `s`, climbs from a node to one of its listed
      parents, and ends at a node without parents or at the first node that
      repeats. */
  lemma PathsShape(m: Hierarchy, s: string)
    ensures forall q :: q in Paths(m, s) ==> q[0] == s && IsChain(m, q) && WellCut(m, q)
  {
    var none: seq<string> := [];
    assert Elems(none) == {} && none + [s] == [s];
    forall q | q in Paths(m, s) ensures IsChain(m, q) && WellCut(m, q) {
      AllPathsShape(m, s, none, {}, q);
    }
  }

  // ---------------------------------------------------------------------------
  // The recursion on a graph without cycles

  /** Every path of `qs` with `a` put in front. */
  function PrependAll(a: seq<string>, qs: seq<seq<string>>): (r: seq<seq<string>>)
    ensures |r| == |qs| && forall i :: 0 <= i < |qs| ==> r[i] == a + qs[i]
  {
    if qs == [] then [] else [a + qs[0]] + PrependAll(a, qs[1..])
  }

  lemma PrependAllAppend(a: seq<string>, x: seq<seq<string>>, y: seq<seq<string>>)
    ensures PrependAll(a, x + y) == PrependAll(a, x) + PrependAll(a, y)
  {
  }

  /** What the recursion adds does not depend on the path walked so far. */
  lemma {:induction false} AllPathsPrefix(m: Hierarchy, id: string, a: seq<string>, b: seq<string>, visited: set<string>)
    ensures AllPaths(m, id, a + b, visited) == PrependAll(a, AllPaths(m, id, b, visited))
    decreases m.Keys - visited, 0, 0
  {
    if id !in visited && !HasNoParents(m, id) {
      PathsViaPrefix(m, m[id], a, b, visited + {id});
    }
  }

  lemma {:induction false} PathsViaPrefix(m: Hierarchy, parents: seq<string>, a: seq<string>, b: seq<string>, visited: set<string>)
    ensures PathsVia(m, parents, a + b, visited) == PrependAll(a, PathsVia(m, parents, b, visited))
    decreases m.Keys - visited, 1, |parents|
  {
    if parents != [] {
      var p := parents[0];
      assert (a + b) + [p] == a + (b + [p]);
      AllPathsPrefix(m, p, a, b + [p], visited);
      PathsViaPrefix(m, parents[1..], a, b, visited);
      PrependAllAppend(a, AllPaths(m, p, b + [p], visited), PathsVia(m, parents[1..], b, visited));
    }
  }

  /** Where no walk meets the visited nodes, which nodes were visited does
      not matter. */
  lemma {:induction false} AllPathsIgnoresVisited(m: Hierarchy, id: string, current: seq<string>, v: set<string>, w: set<string>)
    requires SkillLevels.CycleFree(AsParentMap(m), id, v) && w <= v
    ensures AllPaths(m, id, current, v) == AllPaths(m, id, current, w)
    decreases m.Keys - v, 0, 0
  {
    if !HasNoParents(m, id) {
      PathsViaIgnoresVisited(m, m[id], current, v + {id}, w + {id});
    }
  }

  lemma {:induction false} PathsViaIgnoresVisited(m: Hierarchy, parents: seq<string>, current: seq<string>, v: set<string>, w: set<string>)
    requires forall p :: p in parents ==> SkillLevels.CycleFree(AsParentMap(m), p, v)
    requires w <= v
    ensures PathsVia(m, parents, current, v) == PathsVia(m, parents, current, w)
    decreases m.Keys - v, 1, |parents|
  {
    if parents != [] {
      AllPathsIgnoresVisited(m, parents[0], current + [parents[0]], v, w);
      PathsViaIgnoresVisited(m, parents[1..], current, v, w);
    }
  }

  /** The paths through each parent of `parents` in turn, with `s` in front. */
  function ViaParents(m: Hierarchy, s: string, parents: seq<string>): seq<seq<string>>
  {
    if parents == [] then [] else PrependAll([s], Paths(m, parents[0])) + ViaParents(m, s, parents[1..])
  }

  /** The sum of the path counts of the listed parents. */
  function PathCountSum(m: Hierarchy, parents: seq<string>): nat
  {
    if parents == [] then 0 else |Paths(m, parents[0])| + PathCountSum(m, parents[1..])
  }

  lemma {:induction false} ViaParentsCount(m: Hierarchy, s: string, parents: seq<string>)
    ensures |ViaParents(m, s, parents)| == PathCountSum(m, parents)
    decreases |parents|
  {
    if parents != [] {
      ViaParentsCount(m, s, parents[1..]);
    }
  }

  lemma {:induction false} PathsViaFromTop(m: Hierarchy, s: string, parents: seq<string>)
    requires forall p :: p in parents ==> SkillLevels.CycleFree(AsParentMap(m), p, {s})
    ensures PathsVia(m, parents, [s], {s}) == ViaParents(m, s, parents)
    decreases |parents|
  {
    if parents != [] {
      var p := parents[0];
      AllPathsPrefix(m, p, [s], [p], {s});
      AllPathsIgnoresVisited(m, p, [p], {s}, {});
      PathsViaFromTop(m, s, parents[1..]);
    }
  }

  /** Without cycles above `s`, its paths are the paths of each listed parent
      in list order, each with `s` in front; a parent listed twice
      contributes its paths twice, so the count is the sum over the list. */
  lemma PathsRecurrence(m: Hierarchy, s: string)
    requires SkillLevels.CycleFree(AsParentMap(m), s, {}) && !HasNoParents(m, s)
    ensures Paths(m, s) == ViaParents(m, s, m[s])
    ensures |Paths(m, s)| == PathCountSum(m, m[s])
  {
    var none: set<string> := {};
    assert none + {s} == {s};
    assert forall p :: p in m[s] ==> p in AsParentMap(m)[s];
    PathsViaFromTop(m, s, m[s]);
    ViaParentsCount(m, s, m[s]);
  }

  /** A cycle-free node's listed parents are cycle-free with it visited. */
  lemma CycleFreeStep(m: Hierarchy, id: string, visited: set<string>, p: string)
    requires SkillLevels.CycleFree(AsParentMap(m), id, visited)
    requires id in m && p in m[id]
    ensures SkillLevels.CycleFree(AsParentMap(m), p, visited + {id})
  {
    assert p in AsParentMap(m)[id];
  }

  /** A chain over lists is an upward chain over the sets, and a node without
      listed parents is a root there. */
  lemma ChainsCorrespond(m: Hierarchy, q: seq<string>)
    requires |q| >= 1
    ensures IsChain(m, q) <==> SkillLevels.IsUpwardChain(AsParentMap(m), q)
    ensures HasNoParents(m, q[|q| - 1]) <==> SkillLevels.IsRoot(AsParentMap(m), q[|q| - 1])
  {
    var pm := AsParentMap(m);
    forall i | 0 <= i < |q| - 1 && q[i] in m
      ensures q[i + 1] in m[q[i]] <==> q[i + 1] in pm[q[i]]
    {
      assert pm[q[i]] == Elems(m[q[i]]);
    }
    var last := q[|q| - 1];
    if last in m && m[last] != [] {
      assert m[last][0] in pm[last];
    }
  }

  /** Without cycles, no path is cut short: every path ends at a node without
      parents. */
  lemma {:induction false} PathsEndAtRoots(m: Hierarchy, id: string, current: seq<string>, visited: set<string>)
    requires SkillLevels.CycleFree(AsParentMap(m), id, visited)
    requires |current| >= 1 && current[|current| - 1] == id
    ensures forall q :: q in AllPaths(m, id, current, visited) ==> HasNoParents(m, q[|q| - 1])
    decreases m.Keys - visited
  {
    if !HasNoParents(m, id) {
      forall q | q in AllPaths(m, id, current, visited) ensures HasNoParents(m, q[|q| - 1]) {
        var k := ParentOfPath(m, m[id], current, visited + {id}, q);
        var p := m[id][k];
        CycleFreeStep(m, id, visited, p);
        PathsEndAtRoots(m, p, current + [p], visited + {id});
      }
    }
  }

  /** Without cycles, every chain of parents from `id` up to a node without
      parents is enumerated. */
  lemma {:induction false} RootChainsAreEnumerated(m: Hierarchy, id: string, current: seq<string>, visited: set<string>, c: seq<string>)
    requires SkillLevels.CycleFree(AsParentMap(m), id, visited)
    requires |current| >= 1 && current[|current| - 1] == id
    requires |c| >= 1 && c[0] == id && IsChain(m, c) && HasNoParents(m, c[|c| - 1])
    ensures current + c[1..] in AllPaths(m, id, current, visited)
    decreases |c|
  {
    if |c| == 1 {
      assert current + c[1..] == current;
    } else {
      var p := c[1];
      var k :| 0 <= k < |m[id]| && m[id][k] == p;
      CycleFreeStep(m, id, visited, p);
      var tail := c[1..];
      assert IsChain(m, tail) by {
        assert forall i :: 0 <= i < |tail| ==> tail[i] == c[i + 1];
      }
      RootChainsAreEnumerated(m, p, current + [p], visited + {id}, tail);
      var q := current + c[1..];
      assert tail[1..] == c[2..] && c[1..] == [p] + c[2..];
      Text.Associative(current, [p], c[2..]);
      assert q in AllPaths(m, m[id][k], current + [m[id][k]], visited + {id});
      PathViaParent(m, m[id], current, visited + {id}, k, q);
      assert AllPaths(m, id, current, visited) == PathsVia(m, m[id], current, visited + {id});
    }
  }

  /** The LEVEL script's depth and this script's paths agree: on the same
      relation rows, without cycles above `s`, the longest path of `s` has
      exactly as many nodes as the depth of `s`. */
  lemma LevelIsLongestPath(rows: seq<Edge>, s: string)
    requires SkillLevels.CycleFree(SkillLevels.ParentSets(rows), s, {})
    ensures forall q :: q in Paths(HierarchyOf(rows), s) ==> |q| <= SkillLevels.Height(SkillLevels.ParentSets(rows), s)
    ensures exists q :: q in Paths(HierarchyOf(rows), s) && |q| == SkillLevels.Height(SkillLevels.ParentSets(rows), s)
  {
    var m := HierarchyOf(rows);
    var pm := SkillLevels.ParentSets(rows);
    LoadersAgree(rows);
    SkillLevels.HeightIsLongestChain(pm, s);
    PathsShape(m, s);
    forall q | q in Paths(m, s) ensures |q| <= SkillLevels.Height(pm, s) {
      ChainsCorrespond(m, q);
    }
    var c :| SkillLevels.IsUpwardChain(pm, c) && c[0] == s && SkillLevels.IsRoot(pm, c[|c| - 1]) &&
             |c| == SkillLevels.Height(pm, s);
    ChainsCorrespond(m, c);
    RootChainsAreEnumerated(m, s, [s], {}, c);
    assert [s] + c[1..] == c;
  }
}
