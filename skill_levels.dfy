/** The LEVEL column of the ESCO skills table: the relation loader that turns
    (PARENTID, CHILDID) rows into child -> set of parents, the memoised,
    cycle-guarded depth recursion, and the per-row loop that appends LEVEL. */
module SkillLevels {
  import opened Taxonomy
  import Text

  /** child id -> the set of its parent ids */
  type ParentMap = map<string, set<string>>

  /** The name of the column the loop appends. */
  const LevelColumn: string := "LEVEL"

  // ---------------------------------------------------------------------------
  // Relation loader

  /** The parents that rows record for `c`. */
  function ParentsIn(rows: seq<Edge>, c: string): set<string>
  {
    set i | 0 <= i < |rows| && rows[i].child == c :: rows[i].parent
  }

  /** What loading must produce: each child of some row, with all its parents. */
  function ParentSets(rows: seq<Edge>): ParentMap
  {
    map c | c in Children(rows) :: ParentsIn(rows, c)
  }

  /** Adding one edge to a parent map, creating the child's entry if needed. */
  function AddEdge(pm: ParentMap, e: Edge): ParentMap
  {
    pm[e.child := (if e.child in pm then pm[e.child] else {}) + {e.parent}]
  }

  lemma ParentSetsSnoc(rows: seq<Edge>, e: Edge)
    ensures ParentSets(rows + [e]) == AddEdge(ParentSets(rows), e)
  {
    var rows' := rows + [e];
    assert Children(rows') == Children(rows) + {e.child} by {
      assert forall i :: 0 <= i < |rows| ==> rows'[i] == rows[i];
      assert rows'[|rows|] == e;
    }
    forall c | c in Children(rows')
      ensures ParentsIn(rows', c) == AddEdge(ParentSets(rows), e)[c]
    {
      assert forall i :: 0 <= i < |rows| ==> rows'[i] == rows[i];
      assert rows'[|rows|] == e;
      if c == e.child {
        assert ParentsIn(rows', c) == ParentsIn(rows, c) + {e.parent};
        if c !in Children(rows) {
          assert ParentsIn(rows, c) == {};
        }
      } else {
        assert ParentsIn(rows', c) == ParentsIn(rows, c);
      }
    }
  }

  /** `build_parent_map`: one pass over the rows, adding each parent to the
      child's set. */
  method BuildParentMap(rows: seq<Edge>) returns (pm: ParentMap)
    ensures pm == ParentSets(rows)
  {
    pm := map[];
    var i := 0;
    while i < |rows|
      invariant 0 <= i <= |rows|
      invariant pm == ParentSets(rows[..i])
    {
      var e := rows[i];
      ParentSetsSnoc(rows[..i], e);
      assert rows[..i + 1] == rows[..i] + [e];
      pm := pm[e.child := (if e.child in pm then pm[e.child] else {}) + {e.parent}];
      i := i + 1;
    }
    assert rows[..|rows|] == rows;
  }

  /** Loading an edge that is already present changes nothing. */
  lemma DuplicateEdgeChangesNothing(rows: seq<Edge>, e: Edge)
    requires e in rows
    ensures ParentSets(rows + [e]) == ParentSets(rows)
  {
    ParentSetsSnoc(rows, e);
    var i :| 0 <= i < |rows| && rows[i] == e;
    assert e.child in Children(rows);
    assert e.parent in ParentsIn(rows, e.child);
    assert ParentSets(rows)[e.child] + {e.parent} == ParentSets(rows)[e.child];
  }

  /** The parent map depends only on which edges occur, not on their order or
      repetition. */
  lemma ParentSetsOfSameEdges(rows1: seq<Edge>, rows2: seq<Edge>)
    requires forall e :: e in rows1 <==> e in rows2
    ensures ParentSets(rows1) == ParentSets(rows2)
  {
    assert Children(rows1) == Children(rows2) by {
      forall c | c in Children(rows1) ensures c in Children(rows2) {
        var i :| 0 <= i < |rows1| && rows1[i].child == c;
        assert rows1[i] in rows2;
      }
      forall c | c in Children(rows2) ensures c in Children(rows1) {
        var i :| 0 <= i < |rows2| && rows2[i].child == c;
        assert rows2[i] in rows1;
      }
    }
    forall c | c in Children(rows1) ensures ParentsIn(rows1, c) == ParentsIn(rows2, c) {
      forall p | p in ParentsIn(rows1, c) ensures p in ParentsIn(rows2, c) {
        var i :| 0 <= i < |rows1| && rows1[i].child == c && rows1[i].parent == p;
        assert rows1[i] in rows2;
      }
      forall p | p in ParentsIn(rows2, c) ensures p in ParentsIn(rows1, c) {
        var i :| 0 <= i < |rows2| && rows2[i].child == c && rows2[i].parent == p;
        assert rows2[i] in rows1;
      }
    }
  }

  // ---------------------------------------------------------------------------
  // Reference depth: the same recursion without a cache

  predicate IsRoot(pm: ParentMap, id: string)
  {
    id !in pm || pm[id] == {}
  }

  function Max(a: int, b: int): int
  {
    if a >= b then a else b
  }

  /** The depth the recursion defines when nothing is cached: 1 for a root or
      for a node already on the current path, otherwise one more than the
      deepest parent. */
  ghost function DepthSpec(pm: ParentMap, id: string, visited: set<string>): (d: int)
    ensures d >= 1
    decreases pm.Keys - visited, 0, 0
  {
    if id in visited then 1
    else if IsRoot(pm, id) then 1
    else 1 + MaxDepthSpec(pm, pm[id], visited + {id})
  }

  /** The largest DepthSpec over `parents` (0 for none). */
  ghost function MaxDepthSpec(pm: ParentMap, parents: set<string>, visited: set<string>): (d: int)
    ensures d >= 0
    decreases pm.Keys - visited, 1, |parents|
  {
    if parents == {} then 0
    else
      var p :| p in parents;
      Max(DepthSpec(pm, p, visited), MaxDepthSpec(pm, parents - {p}, visited))
  }

  /** The depth of a node in the graph: the recursion started with an empty path. */
  ghost function Height(pm: ParentMap, id: string): int
  {
    DepthSpec(pm, id, {})
  }

  /** The parent MaxDepthSpec picks first, and the step it takes. */
  lemma MaxDepthSpecStep(pm: ParentMap, parents: set<string>, visited: set<string>) returns (p: string)
    requires parents != {}
    ensures p in parents
    ensures MaxDepthSpec(pm, parents, visited) == Max(DepthSpec(pm, p, visited), MaxDepthSpec(pm, parents - {p}, visited))
  {
    assert exists p :: (p in parents &&
      MaxDepthSpec(pm, parents, visited) == Max(DepthSpec(pm, p, visited), MaxDepthSpec(pm, parents - {p}, visited)));
    p :| p in parents &&
      MaxDepthSpec(pm, parents, visited) == Max(DepthSpec(pm, p, visited), MaxDepthSpec(pm, parents - {p}, visited));
  }

  lemma {:induction false} MaxDepthSpecIsMax(pm: ParentMap, parents: set<string>, visited: set<string>)
    ensures forall p :: p in parents ==> DepthSpec(pm, p, visited) <= MaxDepthSpec(pm, parents, visited)
    ensures parents != {} ==>
      exists p :: p in parents && DepthSpec(pm, p, visited) == MaxDepthSpec(pm, parents, visited)
    ensures parents == {} ==> MaxDepthSpec(pm, parents, visited) == 0
    decreases parents
  {
    if parents != {} {
      var p := MaxDepthSpecStep(pm, parents, visited);
      MaxDepthSpecIsMax(pm, parents - {p}, visited);
    }
  }

  /** No upward walk from `id` reaches a node of `visited` or revisits a node
      of its own; with `visited` empty: no cycle lies above `id`. */
  ghost predicate CycleFree(pm: ParentMap, id: string, visited: set<string>)
    decreases pm.Keys - visited
  {
    id !in visited &&
    (id in pm ==> forall p :: p in pm[id] ==> CycleFree(pm, p, visited + {id}))
  }

  ghost predicate Acyclic(pm: ParentMap)
  {
    forall id :: CycleFree(pm, id, {})
  }

  /** Where no walk meets the path, the path does not matter. */
  lemma {:induction false} DepthSpecIgnoresVisited(pm: ParentMap, id: string, v: set<string>, w: set<string>)
    requires CycleFree(pm, id, v) && w <= v
    ensures DepthSpec(pm, id, v) == DepthSpec(pm, id, w)
    decreases pm.Keys - v
  {
    if !IsRoot(pm, id) {
      forall p | p in pm[id] ensures DepthSpec(pm, p, v + {id}) == DepthSpec(pm, p, w + {id}) {
        DepthSpecIgnoresVisited(pm, p, v + {id}, w + {id});
      }
      MaxDepthSpecIsMax(pm, pm[id], v + {id});
      MaxDepthSpecIsMax(pm, pm[id], w + {id});
    }
  }

  /** An upward chain: each next node is a parent of the one before. */
  ghost predicate IsUpwardChain(pm: ParentMap, c: seq<string>)
  {
    |c| >= 1 && forall i :: 0 <= i < |c| - 1 ==> c[i] in pm && c[i + 1] in pm[c[i]]
  }

  lemma {:induction false} ChainAtMostDepth(pm: ParentMap, c: seq<string>, visited: set<string>)
    requires IsUpwardChain(pm, c) && CycleFree(pm, c[0], visited)
    ensures |c| <= DepthSpec(pm, c[0], visited)
    decreases |c|
  {
    if |c| > 1 {
      var id, p := c[0], c[1];
      assert IsUpwardChain(pm, c[1..]);
      ChainAtMostDepth(pm, c[1..], visited + {id});
      MaxDepthSpecIsMax(pm, pm[id], visited + {id});
    }
  }

  lemma {:induction false} LongestChainFrom(pm: ParentMap, id: string, visited: set<string>)
    requires CycleFree(pm, id, visited)
    ensures exists c :: IsUpwardChain(pm, c) && c[0] == id && IsRoot(pm, c[|c| - 1]) &&
                        |c| == DepthSpec(pm, id, visited)
    decreases pm.Keys - visited
  {
    if IsRoot(pm, id) {
      assert IsUpwardChain(pm, [id]);
    } else {
      MaxDepthSpecIsMax(pm, pm[id], visited + {id});
      var p :| p in pm[id] && DepthSpec(pm, p, visited + {id}) == MaxDepthSpec(pm, pm[id], visited + {id});
      LongestChainFrom(pm, p, visited + {id});
      var c' :| IsUpwardChain(pm, c') && c'[0] == p && IsRoot(pm, c'[|c'| - 1]) &&
                |c'| == DepthSpec(pm, p, visited + {id});
      var c := [id] + c';
      assert forall i :: 1 <= i < |c| ==> c[i] == c'[i - 1];
      assert IsUpwardChain(pm, c);
    }
  }

  /** On a graph without cycles above `id`, its depth is the number of nodes
      on its longest chain of parents up to a root. */
  lemma HeightIsLongestChain(pm: ParentMap, id: string)
    requires CycleFree(pm, id, {})
    ensures forall c :: IsUpwardChain(pm, c) && c[0] == id ==> |c| <= Height(pm, id)
    ensures exists c :: IsUpwardChain(pm, c) && c[0] == id && IsRoot(pm, c[|c| - 1]) && |c| == Height(pm, id)
  {
    forall c | IsUpwardChain(pm, c) && c[0] == id ensures |c| <= Height(pm, id) {
      ChainAtMostDepth(pm, c, {});
    }
    LongestChainFrom(pm, id, {});
  }

  // ---------------------------------------------------------------------------
  // The memoised, cycle-guarded depth recursion

  /** What a lookup yields for `p`: its cached depth, or 1 when none is cached. */
  function CachedOr1(memo: map<string, int>, p: string): int
  {
    if p in memo then memo[p] else 1
  }

  ghost predicate AllPositive(memo: map<string, int>)
  {
    forall k :: k in memo ==> memo[k] >= 1
  }

  /** `memo'` keeps every entry of `memo` unchanged. */
  ghost predicate Extends(memo': map<string, int>, memo: map<string, int>)
  {
    forall k :: k in memo ==> k in memo' && memo'[k] == memo[k]
  }

  /** `depth` is one more than the largest cached depth of `parents`. */
  ghost predicate OneMoreThanMax(depth: int, parents: set<string>, cache: map<string, int>)
  {
    (forall p :: p in parents ==> CachedOr1(cache, p) < depth) &&
    (exists p :: p in parents && CachedOr1(cache, p) == depth - 1)
  }

  /** Every cached depth is the node's depth in the graph. */
  ghost predicate MemoExact(pm: ParentMap, memo: map<string, int>)
  {
    forall k :: k in memo ==> memo[k] == Height(pm, k)
  }

  lemma HeightStep(pm: ParentMap, id: string, visited: set<string>, cache: map<string, int>, best: int)
    requires CycleFree(pm, id, visited) && !IsRoot(pm, id)
    requires forall p :: p in pm[id] ==> CachedOr1(cache, p) == Height(pm, p)
    requires OneMoreThanMax(best + 1, pm[id], cache)
    ensures best + 1 == Height(pm, id)
  {
    assert id in pm;
    var top := MaxDepthSpec(pm, pm[id], {id});
    assert Height(pm, id) == DepthSpec(pm, id, {});
    var none: set<string> := {};
    assert none + {id} == {id};
    assert Height(pm, id) == 1 + top;
    forall p | p in pm[id] ensures DepthSpec(pm, p, {id}) == Height(pm, p) {
      assert CycleFree(pm, p, visited + {id});
      DepthSpecIgnoresVisited(pm, p, visited + {id}, {id});
      DepthSpecIgnoresVisited(pm, p, visited + {id}, {});
    }
    MaxDepthSpecIsMax(pm, pm[id], {id});
    var q :| q in pm[id] && DepthSpec(pm, q, {id}) == top;
    assert top <= best by {
      assert CachedOr1(cache, q) < best + 1;
    }
    var r :| r in pm[id] && CachedOr1(cache, r) == best;
    assert best <= top by {
      assert DepthSpec(pm, r, {id}) <= top;
    }
  }

  /** `calculate_depth(id, parent_map, memo, visited)`. The cache `memo` and
      the set `visited` of nodes on the current recursion path are shared
      mutable state in the script; here they go in and come back out. The
      parent set is walked in an unspecified order, as a Python set is. */
  method CalculateDepth(id: string, pm: ParentMap, memo: map<string, int>, visited: set<string>)
    returns (depth: int, memo': map<string, int>, visited': set<string>)
    requires AllPositive(memo)
    // the path is restored, and the result is what a later lookup finds
    ensures visited' == visited
    ensures depth >= 1 && depth == CachedOr1(memo', id)
    // the cache only grows, never gets a node of the path, and stays positive
    ensures Extends(memo', memo) && AllPositive(memo')
    ensures forall k :: k in memo' && k !in memo ==> k !in visited
    ensures forall k :: k in memo' && k !in memo ==> (memo'[k] == 1 <==> IsRoot(pm, k))
    // a cache hit
    ensures id in memo ==> depth == memo[id] && memo' == memo
    // a node met again on its own path: 1, and not cached
    ensures id !in memo && id in visited ==> depth == 1 && memo' == memo
    // a root
    ensures id !in memo && id !in visited && IsRoot(pm, id) ==> depth == 1 && memo' == memo[id := 1]
    // otherwise one more than the deepest parent, cached
    ensures id !in memo && id !in visited && !IsRoot(pm, id) ==>
      depth >= 2 && id in memo' && memo'[id] == depth &&
      OneMoreThanMax(depth, pm[id], memo' - {id}) &&
      forall p :: p in pm[id] && p !in visited && p != id ==> p in memo'
    // without cycles the cache holds true depths
    ensures CycleFree(pm, id, visited) && MemoExact(pm, memo) ==>
      depth == Height(pm, id) && MemoExact(pm, memo')
    decreases pm.Keys - visited, 0
  {
    if id in memo {
      return memo[id], memo, visited;
    }
    if id in visited {
      // the script prints a cycle warning here
      return 1, memo, visited;
    }
    if id !in pm || pm[id] == {} {
      return 1, memo[id := 1], visited;
    }

    ghost var exact := CycleFree(pm, id, visited) && MemoExact(pm, memo);
    var path := visited + {id};
    var maxParentDepth, m := DeepestParent(pm, pm[id], memo, path);
    path := path - {id};

    depth := maxParentDepth + 1;
    memo' := m[id := depth];
    visited' := path;
    assert memo' - {id} == m;
    if exact {
      forall p | p in pm[id] ensures CachedOr1(m, p) == Height(pm, p) {
        assert CycleFree(pm, p, visited + {id});
      }
      HeightStep(pm, id, visited, m, maxParentDepth);
    }
  }

  /** Entries added to `memo` on the way to `m` are off the path, and are 1
      exactly for roots. */
  ghost predicate NewEntriesSound(pm: ParentMap, m: map<string, int>, memo: map<string, int>, path: set<string>)
  {
    forall k :: k in m && k !in memo ==> k !in path && (m[k] == 1 <==> IsRoot(pm, k))
  }

  /** What the loop of `DeepestParent` knows once the parents in `done` have
      been queried: the cache `m` grew soundly from `memo`, and `best` is the
      largest depth the queried parents yielded. */
  ghost predicate Scanned(pm: ParentMap, memo: map<string, int>, path: set<string>,
                          m: map<string, int>, done: set<string>, best: int)
  {
    AllPositive(m) && Extends(m, memo) && NewEntriesSound(pm, m, memo, path) &&
    (forall p :: p in done ==> p in m || p in path) &&
    (forall p :: p in done ==> CachedOr1(m, p) <= best) &&
    (done == {} ==> best == 0) &&
    (done != {} ==> exists p :: p in done && CachedOr1(m, p) == best)
  }

  /** Querying one more parent `p`, which yields `d` and leaves the cache
      `m2`, keeps `Scanned` with the larger of the two maxima. */
  lemma ScanStep(pm: ParentMap, memo: map<string, int>, path: set<string>,
                 m: map<string, int>, done: set<string>, best: int,
                 p: string, d: int, m2: map<string, int>)
    requires Scanned(pm, memo, path, m, done, best)
    requires d == CachedOr1(m2, p) && (p in m2 || p in path)
    requires Extends(m2, m) && AllPositive(m2) && NewEntriesSound(pm, m2, m, path)
    ensures Scanned(pm, memo, path, m2, done + {p}, Max(best, d))
  {
    assert forall q :: q in done ==> CachedOr1(m2, q) == CachedOr1(m, q);
    if done != {} {
      var w :| w in done && CachedOr1(m, w) == best;
      assert w in done + {p} && CachedOr1(m2, w) == best;
    }
    assert p in done + {p};
  }

  /** The loop of `calculate_depth` over one node's parents, with that node
      already on `path`: the largest depth a parent yields (0 for none),
      and the cache after all the parents' queries. */
  method DeepestParent(pm: ParentMap, parents: set<string>, memo: map<string, int>, path: set<string>)
    returns (maxParentDepth: int, memo': map<string, int>)
    requires AllPositive(memo)
    ensures AllPositive(memo') && Extends(memo', memo)
    ensures forall k :: k in memo' && k !in memo ==> k !in path
    ensures forall k :: k in memo' && k !in memo ==> (memo'[k] == 1 <==> IsRoot(pm, k))
    ensures forall p :: p in parents ==> p in memo' || p in path
    ensures forall p :: p in parents ==> CachedOr1(memo', p) <= maxParentDepth
    ensures parents == {} ==> maxParentDepth == 0
    ensures parents != {} ==> exists p :: p in parents && CachedOr1(memo', p) == maxParentDepth
    ensures (forall p :: p in parents ==> CycleFree(pm, p, path)) && MemoExact(pm, memo) ==>
      MemoExact(pm, memo')
    decreases pm.Keys - path, 1
  {
    ghost var exact := (forall p :: p in parents ==> CycleFree(pm, p, path)) && MemoExact(pm, memo);
    var m := memo;
    maxParentDepth := 0;
    var todo := parents;
    ghost var done: set<string> := {};
    while todo != {}
      invariant todo + done == parents && todo !! done
      invariant Scanned(pm, memo, path, m, done, maxParentDepth)
      invariant exact ==> MemoExact(pm, m)
      decreases todo
    {
      var p :| p in todo;
      var parentDepth, m2, _ := CalculateDepth(p, pm, m, path);
      ScanStep(pm, memo, path, m, done, maxParentDepth, p, parentDepth, m2);
      maxParentDepth := Max(maxParentDepth, parentDepth);
      m := m2;
      todo, done := todo - {p}, done + {p};
    }
    memo' := m;
  }

  /** A skill row with its LEVEL column set to `level`. */
  function WithLevel(row: Record, level: nat): Record
  {
    row[LevelColumn := Text.NatToDecimal(level)]
  }

  /** `levelled` is `row` with some level of at least 1. */
  ghost predicate HasSomeLevel(levelled: Record, row: Record)
  {
    exists d: nat :: d >= 1 && levelled == WithLevel(row, d)
  }

  /** `add_level_column`: every skill row, in order, gets a LEVEL column with
      its depth; all rows share one cache, and each query starts with an
      empty path. A row without an ID column stops the run. */
  method AddLevelColumn(skills: seq<Record>, rows: seq<Edge>) returns (out: Outcome<seq<Record>>)
    ensures out.Done? <==> forall i :: 0 <= i < |skills| ==> IdColumn in skills[i]
    ensures out.MissingColumn? ==>
      out.column == IdColumn && out.row < |skills| && IdColumn !in skills[out.row] &&
      forall i :: 0 <= i < out.row ==> IdColumn in skills[i]
    ensures out.Done? ==> (|out.value| == |skills| &&
      forall i :: 0 <= i < |skills| ==> HasSomeLevel(out.value[i], skills[i]))
    ensures out.Done? && Acyclic(ParentSets(rows)) ==>
      forall i :: 0 <= i < |skills| ==> out.value[i] == WithLevel(skills[i], Height(ParentSets(rows), skills[i][IdColumn]))
  {
    var pm := BuildParentMap(rows);
    ghost var acyclic := Acyclic(pm);
    var memo: map<string, int> := map[];
    var levelled: seq<Record> := [];
    ghost var levels: seq<nat> := [];
    var processed := 0;
    while processed < |skills|
      invariant Levelled(skills, pm, acyclic, processed, memo, levelled, levels)
      decreases |skills| - processed
    {
      var row := skills[processed];
      if IdColumn !in row {
        return MissingColumn(processed, IdColumn);
      }
      var id := row[IdColumn];
      assert acyclic ==> CycleFree(pm, id, {});
      var depth, memo2, _ := CalculateDepth(id, pm, memo, {});
      LevelledStep(skills, pm, acyclic, processed, memo, levelled, levels, memo2, depth);
      levelled := levelled + [WithLevel(row, depth)];
      levels := levels + [depth];
      memo := memo2;
      processed := processed + 1;
    }
    out := Done(levelled);
    forall i | 0 <= i < |skills| ensures HasSomeLevel(out.value[i], skills[i]) {
      var d: nat := levels[i];
      assert d >= 1 && out.value[i] == WithLevel(skills[i], d);
    }
  }

  /** The first `processed` rows have IDs and have been given their levels;
      without cycles, the cache and the levels are the true depths. */
  ghost predicate Levelled(skills: seq<Record>, pm: ParentMap, acyclic: bool, processed: nat,
                           memo: map<string, int>, levelled: seq<Record>, levels: seq<nat>)
  {
    processed <= |skills| && |levelled| == processed && |levels| == processed &&
    (forall i :: 0 <= i < processed ==> IdColumn in skills[i]) &&
    AllPositive(memo) &&
    (forall i :: 0 <= i < processed ==> levels[i] >= 1 && levelled[i] == WithLevel(skills[i], levels[i])) &&
    (acyclic ==> MemoExact(pm, memo)) &&
    (acyclic ==> forall i :: 0 <= i < processed ==> levels[i] == Height(pm, skills[i][IdColumn]))
  }

  lemma LevelledStep(skills: seq<Record>, pm: ParentMap, acyclic: bool, processed: nat,
                     memo: map<string, int>, levelled: seq<Record>, levels: seq<nat>,
                     memo': map<string, int>, depth: int)
    requires Levelled(skills, pm, acyclic, processed, memo, levelled, levels)
    requires processed < |skills| && IdColumn in skills[processed]
    requires depth >= 1 && AllPositive(memo')
    requires acyclic ==> MemoExact(pm, memo') && depth == Height(pm, skills[processed][IdColumn])
    ensures Levelled(skills, pm, acyclic, processed + 1, memo',
                     levelled + [WithLevel(skills[processed], depth)], levels + [depth])
  {
    var levels' := levels + [depth];
    var levelled' := levelled + [WithLevel(skills[processed], depth)];
    assert forall i :: 0 <= i < processed ==> levels'[i] == levels[i] && levelled'[i] == levelled[i];
  }

  /** Two skills that are each other's parent, X queried first and then Y
      with the shared cache: Y's query inside X's meets X on the path and
      takes 1 for it, so Y gets at least 2 and is cached, and X at least 3;
      the later query of Y is a cache hit. Neither depth is bounded by 2. */
  method QueryTwoCycle() returns (depthX: int, depthY: int)
    ensures depthX >= 3 && depthY == depthX - 1
  {
    var pm: ParentMap := map["X" := {"Y"}, "Y" := {"X"}];
    assert !IsRoot(pm, "X") && !IsRoot(pm, "Y");
    var memo: map<string, int> := map[];
    var memo2, memo3, path;
    depthX, memo2, path := CalculateDepth("X", pm, memo, {});
    assert "Y" in memo2 && memo2["Y"] != 1;
    assert CachedOr1(memo2 - {"X"}, "Y") == depthX - 1;
    depthY, memo3, path := CalculateDepth("Y", pm, memo2, {});
  }
}
