/**
 * `gdwg::graph<N, E>` with `N = E = int`: a general directed weighted graph
 * whose nodes live in an ordered set and whose edges live in an ordered map
 * from source node to the ordered set of that source's outgoing edges.
 */
module Gdwg {
  import opened Wrappers
  import opened Ordered
  import opened GraphRep
  import opened NodeOps

  /** The messages of the `std::runtime_error`s the graph throws. */
  const InsertEdgeMissing: string := "Cannot call gdwg::graph<N, E>::insert_edge when either src or dst node does not exist"
  const EraseEdgeMissing: string := "Cannot call gdwg::graph<N, E>::erase_edge on src or dst if they don't exist in the graph"
  const MergeMissing: string := "Cannot call gdwg::graph<N, E>::merge_replace_node on old or new data if they don't exist in the graph"
  const ReplaceMissing: string := "Cannot call gdwg::graph<N, E>::replace_node on a node that doesn't exist"
  const IsConnectedMissing: string := "Cannot call gdwg::graph<N, E>::is_connected if src or dst node don't exist in the graph"
  const WeightsMissing: string := "Cannot call gdwg::graph<N, E>::weights if src or dst node don't exist in the graph"
  const ConnectionsMissing: string := "Cannot call gdwg::graph<N, E>::connections if src doesn't exist in the graph"

  class Graph {
    /** `nodes_`, in ascending order. */
    var nodes: seq<int>
    /** `edges_`: one bucket per source that has outgoing edges, ascending by source. */
    var edges: seq<Bucket>

    ghost predicate Valid()
      reads this
    {
      WellFormed(nodes, edges) && NoEmptyBucket(edges)
    }

    /** The nodes, as a set. */
    ghost function NodeSet(): set<int>
      reads this
    {
      NodesOf(nodes)
    }

    /** The edges, as a set of (source, destination, weight) triples. */
    ghost function EdgeSet(): set<Triple>
      reads this
    {
      EdgesOf(edges)
    }

    /** `graph()`: no nodes and no edges. */
    constructor ()
      ensures Valid() && NodeSet() == {} && EdgeSet() == {}
    {
      nodes := [];
      edges := [];
    }

    /** `graph(first, last)` and `graph(initializer_list)`: the given values
        as nodes, duplicates collapsed, and no edges. */
    constructor FromNodes(values: seq<int>)
      ensures Valid()
      ensures NodeSet() == set v | v in values
      ensures EdgeSet() == {}
    {
      nodes := [];
      edges := [];
      new;
      var k := 0;
      while k < |values|
        invariant 0 <= k <= |values|
        invariant edges == [] && Ascending(IntLess, nodes)
        invariant NodesOf(nodes) == set v | v in values[..k]
      {
        nodes := AddNode(nodes, values[k]);
        assert values[..k + 1] == values[..k] + [values[k]];
        k := k + 1;
      }
      assert values[..k] == values;
    }

    /** The copy constructor: inserts every node of `other`, then every edge
        of `other`, bucket by bucket; `other` is left as it was. */
    constructor Copy(other: Graph)
      requires other.Valid()
      ensures Valid() && NodeSet() == other.NodeSet() && EdgeSet() == other.EdgeSet()
    {
      nodes := [];
      edges := [];
      new;
      var k := 0;
      while k < |other.nodes|
        invariant 0 <= k <= |other.nodes|
        invariant Valid() && edges == [] && NodeSet() == NodesOf(other.nodes[..k])
      {
        NodesOfSnoc(other.nodes[..k], other.nodes[k]);
        assert other.nodes[..k + 1] == other.nodes[..k] + [other.nodes[k]];
        var _ := InsertNode(other.nodes[k]);
        k := k + 1;
      }
      assert other.nodes[..k] == other.nodes;
      var i := 0;
      while i < |other.edges|
        invariant 0 <= i <= |other.edges|
        invariant Valid() && NodeSet() == other.NodeSet()
        invariant EdgeSet() == EdgesOf(other.edges[..i])
      {
        var b := other.edges[i];
        forall e | e in b.value ensures e.to in NodeSet() {
        }
        InsertBucket(b.key, b.value);
        EdgesOfSnoc(other.edges[..i], b);
        assert other.edges[..i + 1] == other.edges[..i] + [b];
        i := i + 1;
      }
      assert other.edges[..i] == other.edges;
    }

    /** The inner loop of the copy constructor: `insert_edge` for every edge
        of one source's bucket of the graph being copied. */
    method InsertBucket(src: int, b: seq<Edge>)
      requires Valid() && src in NodeSet() && forall e :: e in b ==> e.to in NodeSet()
      modifies this
      ensures Valid() && nodes == old(nodes)
      ensures EdgeSet() == old(EdgeSet()) + BucketTriples(src, b)
    {
      var j := 0;
      while j < |b|
        invariant 0 <= j <= |b|
        invariant Valid() && nodes == old(nodes)
        invariant EdgeSet() == old(EdgeSet()) + BucketTriples(src, b[..j])
      {
        assert b[j] in b;
        BucketTriplesSnoc(src, b[..j], b[j]);
        assert b[..j + 1] == b[..j] + [b[j]];
        var _ := InsertEdge(src, b[j].to, b[j].weight);
        j := j + 1;
      }
      assert b[..j] == b;
    }

    /** `is_node`. */
    function IsNode(value: int): (r: bool)
      reads this
      ensures r <==> value in NodeSet()
    {
      value in nodes
    }

    /** `empty`: no nodes. */
    function Empty(): (r: bool)
      reads this
      ensures r <==> NodeSet() == {}
    {
      assert nodes != [] ==> nodes[0] in NodeSet();
      |nodes| == 0
    }

    /** `insert_node`: adds `value` unless it is already a node; the edges are
        untouched. */
    method InsertNode(value: int) returns (added: bool)
      requires Valid()
      modifies this
      ensures Valid()
      ensures added <==> value !in old(NodeSet())
      ensures NodeSet() == old(NodeSet()) + {value}
      ensures edges == old(edges)
    {
      if !IsNode(value) {
        nodes := AddNode(nodes, value);
        return true;
      }
      return false;
    }

    /** `insert_edge`: throws unless both endpoints are nodes; otherwise adds
        the triple and reports whether it was new. */
    method InsertEdge(src: int, dst: int, weight: int) returns (r: Result<bool>)
      requires Valid()
      modifies this
      ensures Valid() && nodes == old(nodes)
      ensures src !in NodeSet() || dst !in NodeSet() ==> r.Err? && edges == old(edges)
      ensures src in NodeSet() && dst in NodeSet() ==>
        && r == Ok(Triple(src, dst, weight) !in old(EdgeSet()))
        && EdgeSet() == old(EdgeSet()) + {Triple(src, dst, weight)}
    {
      if !IsNode(src) || !IsNode(dst) {
        return Err(InsertEdgeMissing);
      }
      var e := Edge(dst, weight);
      Stored(edges, src, e);
      BucketsByOut(nodes, edges);
      var i := FindBucket(edges, src);
      if i < |edges| && FindEdge(edges[i].value, e) < |edges[i].value| {
        return Ok(false);
      }
      ghost var m := edges;
      edges := InsertIn(edges, src, e);
      InsertInEdges(nodes, m, src, e);
      return Ok(true);
    }

    /** `erase_edge(src, dst, weight)`: throws unless both endpoints are
        nodes; otherwise removes the triple, pruning the source's bucket when
        it becomes empty, and reports whether the triple was there. */
    method EraseEdge(src: int, dst: int, weight: int) returns (r: Result<bool>)
      requires Valid()
      modifies this
      ensures Valid() && nodes == old(nodes)
      ensures src !in NodeSet() || dst !in NodeSet() ==> r.Err? && edges == old(edges)
      ensures src in NodeSet() && dst in NodeSet() ==>
        && r == Ok(Triple(src, dst, weight) in old(EdgeSet()))
        && EdgeSet() == old(EdgeSet()) - {Triple(src, dst, weight)}
    {
      if !IsNode(src) || !IsNode(dst) {
        return Err(EraseEdgeMissing);
      }
      var e := Edge(dst, weight);
      Stored(edges, src, e);
      var i := FindBucket(edges, src);
      if i == |edges| {
        return Ok(false);
      }
      var b := edges[i].value;
      var j := FindEdge(b, e);
      if j == |b| {
        return Ok(false);
      }
      ghost var m := edges;
      edges := EraseIn(edges, i, j);
      EraseInEdges(nodes, m, i, j);
      return Ok(true);
    }

    /** No triple from a source before the bucket at `i` (from any source,
        once `i` is past the last bucket) mentions `v`: what a loop over
        `edges_` that clears `v` has achieved when it reaches `i`. */
    ghost predicate Cleared(v: int, i: nat)
      reads this
    {
      i <= |edges| && forall t :: t in EdgeSet() && (i == |edges| || t.from < edges[i].key) ==> !Touches(t, v)
    }

    /** `erase_node`: removes `v` from the nodes, then walks every bucket,
        erasing each edge that leaves or enters `v` and each bucket left
        empty. Reports whether `v` was a node. */
    method EraseNode(v: int) returns (r: bool)
      requires Valid()
      modifies this
      ensures Valid()
      ensures r <==> v in old(NodeSet())
      ensures NodeSet() == old(NodeSet()) - {v}
      ensures EdgeSet() == old(EdgeSet()) - Touching(old(EdgeSet()), v)
    {
      if !IsNode(v) {
        return false;
      }
      ghost var ns := nodes;
      ghost var keep := EdgeSet() - Touching(EdgeSet(), v);
      nodes := RemoveNode(nodes, v);
      var i: nat := 0;
      while i < |edges|
        invariant WellFormed(ns, edges) && NoEmptyBucket(edges) && nodes == RemoveNode(ns, v)
        invariant EdgeSet() == keep + Touching(EdgeSet(), v)
        invariant Cleared(v, i)
        decreases |edges| - i
      {
        i := PurgeStep(v, i, ns, keep);
      }
      NodeGone(ns, edges, v);
      return true;
    }

    /** One turn of the outer loop of `erase_node`: clears the bucket at
        `i` of `v` and erases it if that left it empty. */
    method PurgeStep(v: int, i: nat, ghost ns: seq<int>, ghost keep: set<Triple>) returns (i': nat)
      requires WellFormed(ns, edges) && NoEmptyBucket(edges) && i < |edges|
      requires (forall t :: t in keep ==> !Touches(t, v)) && EdgeSet() == keep + Touching(EdgeSet(), v)
      requires Cleared(v, i)
      modifies this
      ensures nodes == old(nodes) && WellFormed(ns, edges) && NoEmptyBucket(edges)
      ensures EdgeSet() == keep + Touching(EdgeSet(), v) && Cleared(v, i')
      ensures |edges| - i' < old(|edges|) - i
    {
      PurgeBucket(v, i, ns, keep);
      i' := NextBucket(v, i, ns);
    }

    /** The end of a turn of the outer loops of `erase_node` and
        `merge_replace_node`, once no triple from a source up to the key at
        `i` mentions `v`: erases the bucket at `i` if it is empty (the next
        bucket then moves to `i`), or moves on to the next one. */
    method NextBucket(v: int, i: nat, ghost ns: seq<int>) returns (i': nat)
      requires WellFormed(ns, edges) && i < |edges| && NoEmptyExcept(edges, edges[i].key)
      requires forall t :: t in EdgeSet() && t.from <= edges[i].key ==> !Touches(t, v)
      modifies this
      ensures nodes == old(nodes) && WellFormed(ns, edges) && NoEmptyBucket(edges) && EdgeSet() == old(EdgeSet())
      ensures Cleared(v, i') && |edges| - i' < old(|edges|) - i
      ensures old(edges[i].value) != [] ==> edges == old(edges) && i' == i + 1
    {
      ClearedNext(edges, i, v);
      if edges[i].value == [] {
        DropEmpty(ns, edges, i);
        edges := DropBucket(edges, i);
        i' := i;
      } else {
        OutAt(edges, i);
        NoEmptyWith(edges, edges[i].key);
        i' := i + 1;
      }
    }

    /** The inner loop of `erase_node` over the bucket at `i`: erases every
        edge of it that leaves or enters `v`, and keeps the bucket even when
        it ends up empty. */
    method PurgeBucket(v: int, i: nat, ghost ns: seq<int>, ghost keep: set<Triple>)
      requires WellFormed(ns, edges) && NoEmptyBucket(edges) && i < |edges|
      requires (forall t :: t in keep ==> !Touches(t, v)) && EdgeSet() == keep + Touching(EdgeSet(), v)
      requires Cleared(v, i)
      modifies this
      ensures nodes == old(nodes) && |edges| == old(|edges|) && edges[i].key == old(edges[i].key)
      ensures WellFormed(ns, edges) && NoEmptyExcept(edges, edges[i].key)
      ensures EdgeSet() == keep + Touching(EdgeSet(), v)
      ensures forall t :: t in EdgeSet() && t.from <= edges[i].key ==> !Touches(t, v)
    {
      ghost var k := edges[i].key;
      var j := 0;
      while j < |edges[i].value|
        invariant nodes == old(nodes) && |edges| == old(|edges|) && edges[i].key == k
        invariant WellFormed(ns, edges) && NoEmptyExcept(edges, k) && Clean(edges[i].value, k, j, v)
        invariant EdgeSet() == keep + Touching(EdgeSet(), v)
        invariant forall t :: t in EdgeSet() && t.from < k ==> !Touches(t, v)
        decreases |edges[i].value| - j
      {
        if edges[i].key == v || edges[i].value[j].to == v {
          EraseKeepEdges(ns, edges, i, j);
          edges := EraseKeep(edges, i, j);
        } else {
          j := j + 1;
        }
      }
      BucketClean(edges, i, v);
    }

    /** `merge_replace_node`: throws unless both nodes exist; otherwise walks
        every bucket and replaces each edge that leaves or enters `o` by its
        copy with `o` renamed to `n` (through `insert_edge`, so copies that
        already exist collapse), erasing emptied buckets, and finally removes
        `o` from the nodes. */
    method MergeReplaceNode(o: int, n: int) returns (r: Result<()>)
      requires Valid()
      modifies this
      ensures o !in old(NodeSet()) || n !in old(NodeSet()) ==> r.Err? && nodes == old(nodes) && edges == old(edges)
      ensures o in old(NodeSet()) && n in old(NodeSet()) ==>
        && r.Ok? && Valid()
        && NodeSet() == old(NodeSet()) - {o}
        && EdgeSet() == Merged(old(EdgeSet()), o, n)
    {
      if !IsNode(o) || !IsNode(n) {
        return Err(MergeMissing);
      }
      MergeEdges(o, n);
      NodeGone(nodes, edges, o);
      nodes := RemoveNode(nodes, o);
      return Ok(());
    }

    /** The loops of `merge_replace_node(o, n)`, over the buckets and over
        the edges of each: afterwards the triples are the merged ones, and
        none mentions `o`. */
    method MergeEdges(o: int, n: int)
      requires Valid() && o in nodes && n in nodes
      modifies this
      ensures Valid() && nodes == old(nodes)
      ensures EdgeSet() == Merged(old(EdgeSet()), o, n)
      ensures forall t :: t in EdgeSet() ==> !Touches(t, o)
    {
      ghost var t0 := Touching(EdgeSet(), o);
      ghost var keep := EdgeSet() - t0;
      ghost var todo := t0;
      var i: nat := 0;
      while i < |edges|
        invariant Valid() && nodes == old(nodes)
        invariant MergeSplit(EdgeSet(), o, n, keep, t0, todo)
        invariant Cleared(o, i)
        decreases todo, |edges| - i
      {
        i, todo := MergeStep(o, n, i, keep, t0, todo);
      }
      MergeDone(old(EdgeSet()), EdgeSet(), o, n, todo);
    }

    /** One turn of the outer loop of `merge_replace_node(o, n)`: processes
        the bucket at `i`, erases it if that left it empty, and moves on. */
    method MergeStep(o: int, n: int, i: nat, ghost keep: set<Triple>, ghost t0: set<Triple>, ghost todo: set<Triple>)
      returns (i': nat, ghost todo': set<Triple>)
      requires Valid() && o in nodes && n in nodes && i < |edges|
      requires MergeSplit(EdgeSet(), o, n, keep, t0, todo) && Cleared(o, i)
      modifies this
      ensures Valid() && nodes == old(nodes)
      ensures MergeSplit(EdgeSet(), o, n, keep, t0, todo') && Cleared(o, i')
      ensures todo' < todo || (todo' == todo && |edges| - i' < old(|edges|) - i)
    {
      var k := edges[i].key;
      assert Keys(edges)[i] == k;
      var ix;
      ix, todo' := MergeBucket(o, n, k, i, keep, t0, todo);
      i' := NextBucket(o, ix, nodes);
    }

    /** What the loop of `merge_replace_node(o, n)` keeps while it is in the
        bucket of `k`: the invariant, apart from that bucket being possibly
        empty, and no triple from a source before `k` mentions `o`. */
    ghost predicate Merging(o: int, n: int, k: int, keep: set<Triple>, t0: set<Triple>, todo: set<Triple>)
      reads this
    {
      && WellFormed(nodes, edges) && NoEmptyExcept(edges, k) && o in nodes && n in nodes
      && MergeSplit(EdgeSet(), o, n, keep, t0, todo)
      && forall t :: t in EdgeSet() && t.from < k ==> !Touches(t, o)
    }

    /** The inner loop of `merge_replace_node(o, n)` over the bucket of `k`,
        at `i`. It changes nothing unless it processes some triple. */
    method MergeBucket(o: int, n: int, k: int, i: nat, ghost keep: set<Triple>, ghost t0: set<Triple>, ghost todo: set<Triple>)
      returns (ix: nat, ghost todo': set<Triple>)
      requires NoEmptyBucket(edges) && Merging(o, n, k, keep, t0, todo)
      requires i < |edges| && edges[i].key == k
      modifies this
      ensures nodes == old(nodes) && Merging(o, n, k, keep, t0, todo')
      ensures ix < |edges| && edges[ix].key == k
      ensures todo' < todo || (todo' == todo && edges == old(edges) && ix == i)
      ensures forall t :: t in EdgeSet() && t.from <= k ==> !Touches(t, o)
    {
      todo' := todo;
      ix := i;
      var j: nat := 0;
      while j < |edges[ix].value|
        invariant nodes == old(nodes) && Merging(o, n, k, keep, t0, todo')
        invariant ix < |edges| && edges[ix].key == k && Clean(edges[ix].value, k, j, o)
        invariant todo' < todo || (todo' == todo && edges == old(edges) && ix == i)
        decreases todo', |edges[ix].value| - j
      {
        ix, j, todo' := MergeEdge(o, n, k, ix, j, keep, t0, todo');
      }
      BucketClean(edges, ix, o);
    }

    /** One turn of the inner loop of `merge_replace_node(o, n)`, at place
        `j` of the bucket of `k`: an edge that leaves or enters `o` is
        replaced by its renamed copy (one of three cases: both ends, the
        source, the destination); any other edge is stepped over. */
    method MergeEdge(o: int, n: int, k: int, ix: nat, j: nat, ghost keep: set<Triple>, ghost t0: set<Triple>, ghost todo: set<Triple>)
      returns (ix': nat, j': nat, ghost todo': set<Triple>)
      requires Merging(o, n, k, keep, t0, todo)
      requires ix < |edges| && edges[ix].key == k && j < |edges[ix].value| && Clean(edges[ix].value, k, j, o)
      modifies this
      ensures nodes == old(nodes) && Merging(o, n, k, keep, t0, todo')
      ensures ix' < |edges| && edges[ix'].key == k && Clean(edges[ix'].value, k, j', o)
      ensures todo' < todo || (todo' == todo && edges == old(edges) && ix' == ix && j' == j + 1)
    {
      var e := edges[ix].value[j];
      if k == o || e.to == o {
        var src, dst := k, e.to;
        if k == o && e.to == o {
          src, dst := n, n;
        } else if k == o {
          src := n;
        } else {
          dst := n;
        }
        ghost var es := EdgeSet();
        ghost var t := Triple(k, e.to, e.weight);
        OutAt(edges, ix);
        Stored(edges, k, e);
        MergeStepSets(es, o, n, keep, t0, todo, t);
        ix', j' := MoveEdge(o, ix, j, src, dst);
        todo' := todo - {t};
      } else {
        ix', j', todo' := ix, j + 1, todo;
      }
    }

    /** One replacement of `merge_replace_node(o, n)`: `insert_edge(src,
        dst, w)` for the renamed copy of the edge at place `j` of the bucket
        at `ix`, then the erase of that edge, found again by value since the
        insertion may have moved it. */
    method MoveEdge(o: int, ix: nat, j: nat, src: int, dst: int) returns (ix': nat, j': nat)
      requires ix < |edges| && j < |edges[ix].value|
      requires WellFormed(nodes, edges) && NoEmptyExcept(edges, edges[ix].key) && src in nodes && dst in nodes
      requires Clean(edges[ix].value, edges[ix].key, j, o)
      requires var e := edges[ix].value[j];
        !Touches(Triple(src, dst, e.weight), o) || Triple(src, dst, e.weight) == Triple(edges[ix].key, e.to, e.weight)
      modifies this
      ensures nodes == old(nodes) && WellFormed(nodes, edges) && NoEmptyExcept(edges, old(edges[ix].key))
      ensures var e := old(edges[ix].value[j]);
        EdgeSet() == (old(EdgeSet()) + {Triple(src, dst, e.weight)}) - {Triple(old(edges[ix].key), e.to, e.weight)}
      ensures ix' < |edges| && edges[ix'].key == old(edges[ix].key) && Clean(edges[ix'].value, edges[ix'].key, j', o)
    {
      var k := edges[ix].key;
      var e := edges[ix].value[j];
      ix', j' := ReinsertEdge(o, ix, j, src, dst);
      CleanAfterErase(edges[ix'].value, k, j', o);
      EraseKeepEdges(nodes, edges, ix', j');
      edges := EraseKeep(edges, ix', j');
    }

    /** The `insert_edge(src, dst, w)` of `MoveEdge`, and the search for the
        edge being replaced afterwards. The edges before it are still clean:
        they are old edges that came before it, or the inserted one. */
    method ReinsertEdge(o: int, ix: nat, j: nat, src: int, dst: int) returns (ix': nat, j': nat)
      requires ix < |edges| && j < |edges[ix].value|
      requires WellFormed(nodes, edges) && NoEmptyExcept(edges, edges[ix].key) && src in nodes && dst in nodes
      requires Clean(edges[ix].value, edges[ix].key, j, o)
      requires var e := edges[ix].value[j];
        !Touches(Triple(src, dst, e.weight), o) || Triple(src, dst, e.weight) == Triple(edges[ix].key, e.to, e.weight)
      modifies this
      ensures nodes == old(nodes) && Valid()
      ensures EdgeSet() == old(EdgeSet()) + {Triple(src, dst, old(edges[ix].value[j]).weight)}
      ensures ix' < |edges| && edges[ix'].key == old(edges[ix].key)
      ensures j' < |edges[ix'].value| && edges[ix'].value[j'] == old(edges[ix].value[j])
      ensures Clean(edges[ix'].value, edges[ix'].key, j', o)
    {
      ghost var m := edges;
      var k := edges[ix].key;
      var e := edges[ix].value[j];
      OutAt(edges, ix);
      NoEmptyWith(edges, k);
      Stored(edges, k, e);
      assert Keys(edges)[ix] == k;
      var _ := InsertEdge(src, dst, e.weight);
      Stored(edges, k, e);
      BucketsByOut(nodes, edges);
      ix' := FindBucket(edges, k);
      j' := FindEdge(edges[ix'].value, e);
      forall f | f in edges[ix'].value ensures f in m[ix].value || Triple(k, f.to, f.weight) == Triple(src, dst, e.weight) {
        Stored(edges, k, f);
        Stored(m, k, f);
      }
      CleanAfterInsert(m[ix].value, edges[ix'].value, k, j, j', Triple(src, dst, e.weight), o);
    }

    /** `replace_node`: throws unless `o` is a node; does nothing and reports
        false when `n` already is one; otherwise adds `n`, merges `o` into it
        and reports true. */
    method ReplaceNode(o: int, n: int) returns (r: Result<bool>)
      requires Valid()
      modifies this
      ensures o !in old(NodeSet()) ==> r.Err? && nodes == old(nodes) && edges == old(edges)
      ensures o in old(NodeSet()) && n in old(NodeSet()) ==> r == Ok(false) && nodes == old(nodes) && edges == old(edges)
      ensures o in old(NodeSet()) && n !in old(NodeSet()) ==>
        && r == Ok(true) && Valid()
        && NodeSet() == old(NodeSet()) - {o} + {n}
        && EdgeSet() == Merged(old(EdgeSet()), o, n)
    {
      if !IsNode(o) {
        return Err(ReplaceMissing);
      }
      if IsNode(n) {
        return Ok(false);
      }
      var _ := InsertNode(n);
      var _ := MergeReplaceNode(o, n);
      return Ok(true);
    }

    /** `is_connected`: throws unless both endpoints are nodes; otherwise
        whether some edge, of any weight, goes from `src` to `dst`. */
    function IsConnected(src: int, dst: int): (r: Result<bool>)
      reads this
      requires Valid()
      ensures src !in NodeSet() || dst !in NodeSet() ==> r.Err?
      ensures src in NodeSet() && dst in NodeSet() ==>
        r.Ok? && (r.value <==> exists w :: Triple(src, dst, w) in EdgeSet())
    {
      if !IsNode(src) || !IsNode(dst) then
        Err(IsConnectedMissing)
      else
        ConnectedByBucket(edges, src, dst);
        var i := FindBucket(edges, src);
        if i == |edges| || edges[i].value == [] then
          Ok(false)
        else
          Ok(HasDestination(edges[i].value, dst))
    }

    /** `nodes()`: every node once, in ascending order. */
    method Nodes() returns (r: seq<int>)
      requires Valid()
      ensures Ascending(IntLess, r) && NodesOf(r) == NodeSet()
    {
      r := [];
      var k := 0;
      while k < |nodes|
        invariant 0 <= k <= |nodes| && r == nodes[..k]
      {
        r := r + [nodes[k]];
        k := k + 1;
      }
      assert nodes[..k] == nodes;
    }

    /** `weights(src, dst)`: throws unless both endpoints are nodes; otherwise
        the weights of the edges from `src` to `dst`, each once, ascending. */
    method Weights(src: int, dst: int) returns (r: Result<seq<int>>)
      requires Valid()
      ensures src !in NodeSet() || dst !in NodeSet() ==> r.Err?
      ensures src in NodeSet() && dst in NodeSet() ==>
        && r.Ok? && Ascending(IntLess, r.value)
        && forall w :: w in r.value <==> Triple(src, dst, w) in EdgeSet()
    {
      if !IsNode(src) || !IsNode(dst) {
        return Err(WeightsMissing);
      }
      BucketsByOut(nodes, edges);
      WeightsOf(edges, src, dst);
      var ws := [];
      var i := FindBucket(edges, src);
      if i == |edges| {
        return Ok(ws);
      }
      var b := edges[i].value;
      if b == [] {
        return Ok(ws);
      }
      ws := CollectWeights(b, dst);
      return Ok(ws);
    }

    /** `connections(src)`: throws unless `src` is a node; otherwise the
        destinations of the edges leaving `src`, each once, ascending. */
    method Connections(src: int) returns (r: Result<seq<int>>)
      requires Valid()
      ensures src !in NodeSet() ==> r.Err?
      ensures src in NodeSet() ==>
        && r.Ok? && Ascending(IntLess, r.value)
        && forall n :: n in r.value <==> exists w :: Triple(src, n, w) in EdgeSet()
    {
      if !IsNode(src) {
        return Err(ConnectionsMissing);
      }
      BucketsByOut(nodes, edges);
      DestinationsOf(edges, src);
      var ds := [];
      var i := FindBucket(edges, src);
      if i == |edges| {
        return Ok(ds);
      }
      var b := edges[i].value;
      if b == [] {
        return Ok(ds);
      }
      ds := CollectDestinations(b);
      return Ok(ds);
    }

    /** `operator==`: the node containers agree element by element, and so do
        the edge maps, bucket by bucket and edge by edge. That is the case
        exactly when the two graphs have the same nodes and the same triples. */
    function Equals(other: Graph): (r: bool)
      requires Valid() && other.Valid()
      reads this, other
      ensures r <==> NodeSet() == other.NodeSet() && EdgeSet() == other.EdgeSet()
    {
      SameSetsSameState(nodes, edges, other.nodes, other.edges);
      nodes == other.nodes && edges == other.edges
    }

    /** The iteration sequence: every triple, in the order the iterator
        visits them. */
    ghost function Triples(): seq<Triple>
      reads this
    {
      Flatten(edges)
    }

    /** A place an iterator of this graph can be at: an edge, or `end()`. */
    ghost predicate IsIter(it: Iterator)
      reads this
    {
      IsPosition(edges, it)
    }

    /** Where `it` is in the iteration sequence; `end()` is one past the last triple. */
    ghost function Pos(it: Iterator): nat
      reads this
      requires IsIter(it)
    {
      Place(edges, it.outer, it.inner)
    }

    /** `begin()`: the first triple, or `end()` when there are no edges. */
    function Begin(): (it: Iterator)
      reads this
      requires Valid()
      ensures IsIter(it) && Pos(it) == 0
    {
      Iterator(0, 0)
    }

    /** `end()`. */
    function End(): (it: Iterator)
      reads this
      ensures IsIter(it) && Pos(it) == |Triples()|
    {
      Iterator(|edges|, 0)
    }

    /** `iterator::operator*`: the triple the iterator is at. */
    function Deref(it: Iterator): (t: Triple)
      reads this
      requires IsIter(it) && it.outer < |edges|
      ensures Pos(it) < |Triples()| && t == Triples()[Pos(it)]
      ensures t in EdgeSet()
    {
      FlattenAt(edges, it.outer, it.inner);
      var b := edges[it.outer];
      assert b.value[it.inner] in b.value;
      Triple(b.key, b.value[it.inner].to, b.value[it.inner].weight)
    }

    /** `iterator::operator==`: the same bucket, and either both at the end or
        at the same edge. That is the case exactly when both are at the same
        place of the iteration sequence. */
    function IterEq(a: Iterator, b: Iterator): (r: bool)
      reads this
      requires Valid() && IsIter(a) && IsIter(b)
      ensures r <==> Pos(a) == Pos(b)
    {
      SamePlace(edges, a.outer, a.inner, b.outer, b.inner);
      a.outer == b.outer && (a.outer == |edges| || a.inner == b.inner)
    }

    /** Walking from `begin()` to `end()` visits every triple of the graph
        exactly once, in ascending (source, destination, weight) order, and
        `begin() == end()` exactly when the graph has no edges. */
    lemma Iteration()
      requires Valid()
      ensures Ascending(TripleLess, Triples())
      ensures forall t :: t in Triples() <==> t in EdgeSet()
      ensures IterEq(Begin(), End()) <==> EdgeSet() == {}
    {
      FlattenAscending(nodes, edges);
      FlattenElements(edges);
      if Triples() != [] {
        assert Triples()[0] in EdgeSet();
      }
    }

    /** `iterator::operator++`: the next edge of the bucket, or else the first
        edge of the next non-empty bucket, or else the end. */
    method Increment(it: Iterator) returns (next: Iterator)
      requires Valid() && IsIter(it) && it.outer < |edges|
      ensures IsIter(next) && Pos(next) == Pos(it) + 1
    {
      FlattenLength(edges);
      var outer: nat, inner: nat := it.outer, it.inner + 1;
      while outer != |edges| && inner == |edges[outer].value|
        invariant outer <= |edges|
        invariant outer < |edges| ==> inner <= |edges[outer].value|
        invariant Offset(edges, outer) + (if outer == |edges| then 0 else inner) == Pos(it) + 1
        decreases |edges| - outer
      {
        outer := outer + 1;
        if outer != |edges| {
          inner := 0;
        }
      }
      next := Iterator(outer, inner);
    }

    /** `iterator::operator--`: the previous edge, stepping back over bucket
        boundaries and from the end. Not defined at `begin()`. */
    method Decrement(it: Iterator) returns (prev: Iterator)
      requires Valid() && IsIter(it) && Pos(it) > 0
      ensures IsIter(prev) && prev.outer < |edges| && Pos(prev) == Pos(it) - 1
    {
      FlattenLength(edges);
      var outer: nat, inner: nat := it.outer, it.inner;
      while outer == |edges| || inner == 0
        invariant outer <= |edges|
        invariant outer < |edges| ==> inner <= |edges[outer].value|
        invariant Offset(edges, outer) + (if outer == |edges| then 0 else inner) == Pos(it)
        decreases outer
      {
        outer := outer - 1;
        inner := |edges[outer].value|;
      }
      prev := Iterator(outer, inner - 1);
    }

    /** `find(src, dst, weight)`: an iterator at that triple, or `end()` when
        it is not stored. */
    function Find(src: int, dst: int, weight: int): (it: Iterator)
      reads this
      requires Valid()
      ensures IsIter(it)
      ensures Triple(src, dst, weight) in EdgeSet() ==> it.outer < |edges| && Deref(it) == Triple(src, dst, weight)
      ensures Triple(src, dst, weight) !in EdgeSet() ==> it == End()
    {
      EdgesOfByBucket(edges);
      BucketsByOut(nodes, edges);
      var i := FindBucket(edges, src);
      if i == |edges| then
        End()
      else
        var j := FindEdge(edges[i].value, Edge(dst, weight));
        if j == |edges[i].value| then End() else Iterator(i, j)
    }

    /** `erase_edge(iterator)`: removes the triple at `it`, pruning its bucket
        when it becomes empty, and returns an iterator at the triple that
        followed it: the one `it++` produced, which the erase leaves valid.
        What `EraseIn` does to the triples is stated by `EraseInEdges` and
        `EraseInOrder`. */
    method EraseAt(it: Iterator) returns (next: Iterator)
      requires Valid() && IsIter(it) && it.outer < |edges|
      modifies this
      ensures Valid() && nodes == old(nodes)
      ensures edges == EraseIn(old(edges), it.outer, it.inner)
      ensures EdgeSet() == old(EdgeSet()) - {old(Deref(it))}
      ensures IsIter(next) && Pos(next) == old(Pos(it))
    {
      ghost var m := edges;
      ghost var t := Deref(it);
      var copy := it;
      var after := Increment(it);
      next := Moved(edges, copy.outer, after);
      edges := EraseIn(edges, copy.outer, copy.inner);
      EraseInEdges(nodes, m, copy.outer, copy.inner);
      MovedPlace(m, copy.outer, copy.inner, after);
    }

    /** `erase_edge(i, s)`: erases triple after triple from `i` until it
        meets `s`, and returns the iterator that met `s`. The triples from
        `i` up to, not including, `s` are gone and the others keep their
        order. `s` stays valid through each erase; here its indices are moved
        along as `Moved` describes. */
    method EraseRange(i: Iterator, s: Iterator) returns (r: Iterator)
      requires Valid() && IsIter(i) && IsIter(s) && Pos(i) <= Pos(s) <= |Triples()|
      modifies this
      ensures Valid() && nodes == old(nodes)
      ensures Triples() == old(Without(Triples(), Pos(i), Pos(s)))
      ensures forall t :: t in EdgeSet() <==> t in old(Triples()[..Pos(i)]) || t in old(Triples()[Pos(s)..])
      ensures IsIter(r) && Pos(r) == old(Pos(i))
    {
      ghost var ts := Triples();
      ghost var a, b := Pos(i), Pos(s);
      ghost var e := a;
      assert ts[..a] + ts[a..] == ts;
      var toErase := i;
      var stop := s;
      while !IterEq(toErase, stop)
        invariant Valid() && nodes == old(nodes)
        invariant IsIter(toErase) && IsIter(stop) && Pos(toErase) == a && a <= Pos(stop)
        invariant a <= e <= |ts| && Pos(stop) + e == b + a && Triples() == Without(ts, a, e)
        decreases Pos(stop) - a
      {
        toErase, stop, e := EraseBefore(toErase, stop, ts, a, e);
      }
      FlattenElements(edges);
      r := toErase;
    }

    /** One step of `erase_edge(i, s)`: erases the triple at `toErase` and
        moves `stop` along; `e` is the end of the places erased so far. */
    method EraseBefore(toErase: Iterator, stop: Iterator, ghost ts: seq<Triple>, ghost a: nat, ghost e: nat)
      returns (next: Iterator, stop': Iterator, ghost e': nat)
      requires Valid() && IsIter(toErase) && IsIter(stop) && Pos(toErase) == a < Pos(stop)
      requires a <= e <= |ts| && Triples() == Without(ts, a, e)
      modifies this
      ensures Valid() && nodes == old(nodes)
      ensures IsIter(next) && IsIter(stop') && Pos(next) == a && Pos(stop') + 1 == old(Pos(stop))
      ensures e' == e + 1 && e' <= |ts| && Triples() == Without(ts, a, e')
    {
      ghost var m := edges;
      var o, n := toErase.outer, toErase.inner;
      RangeStep(nodes, m, o, n, stop, ts, a, e);
      stop' := Moved(edges, o, stop);
      next := EraseAt(toErase);
      assert edges == EraseIn(m, o, n);
      e' := e + 1;
    }

    /** `clear`: no nodes and no edges. */
    method Clear()
      modifies this
      ensures Valid() && NodeSet() == {} && EdgeSet() == {}
    {
      nodes := [];
      edges := [];
    }
  }

  /** The loop of `weights`: the weights of the edges to `dst`, in the
      bucket's order. */
  method CollectWeights(b: seq<Edge>, dst: int) returns (ws: seq<int>)
    ensures ws == WeightsTo(b, dst)
  {
    ws := [];
    var j := 0;
    while j < |b|
      invariant 0 <= j <= |b| && ws == WeightsTo(b[..j], dst)
    {
      if b[j].to == dst {
        ws := ws + [b[j].weight];
      }
      assert b[..j + 1][..j] == b[..j];
      j := j + 1;
    }
    assert b[..j] == b;
  }

  /** The loop of `connections`: each destination once, in the order of
      first appearance, found by a linear search of what is collected. */
  method CollectDestinations(b: seq<Edge>) returns (ds: seq<int>)
    ensures ds == Destinations(b)
  {
    ds := [];
    var j := 0;
    while j < |b|
      invariant 0 <= j <= |b| && ds == Destinations(b[..j])
    {
      if b[j].to !in ds {
        ds := ds + [b[j].to];
      }
      assert b[..j + 1][..j] == b[..j];
      j := j + 1;
    }
    assert b[..j] == b;
  }
}
