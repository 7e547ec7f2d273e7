/**
 * What the node-level mutators of `gdwg::graph` do to the set of triples:
 * `erase_node` drops every triple that mentions the node, and
 * `merge_replace_node` moves every such triple over to the new node.
 */
module NodeOps {
  import opened Ordered
  import opened GraphRep

  /** Whether `v` is the source or the destination of `t`. */
  predicate Touches(t: Triple, v: int) {
    t.from == v || t.to == v
  }

  /** The triples of `es` that mention `v`. */
  ghost function Touching(es: set<Triple>, v: int): (r: set<Triple>)
    ensures r <= es
    ensures forall t :: t in es && Touches(t, v) ==> t in r
  {
    set t | t in es && Touches(t, v)
  }

  /** `t` with `o` replaced by `n` at whichever ends it appears. */
  function Rename(t: Triple, o: int, n: int): (r: Triple)
    ensures o != n ==> !Touches(r, o)
    ensures Touches(t, o) ==> Touches(r, n)
    ensures !Touches(t, o) ==> r == t
    ensures r.weight == t.weight
  {
    Triple(if t.from == o then n else t.from, if t.to == o then n else t.to, t.weight)
  }

  /** What the loop of `merge_replace_node` leaves in place of the processed
      triples `ts`: their renamed copies. When `o == n` each `insert_edge`
      finds its triple already there and the erase that follows removes it,
      so nothing is left. */
  ghost function Reinserted(ts: set<Triple>, o: int, n: int): set<Triple> {
    if o == n then {} else set t | t in ts :: Rename(t, o, n)
  }

  /** The triples after `merge_replace_node(o, n)`. */
  ghost function Merged(es: set<Triple>, o: int, n: int): set<Triple> {
    (es - Touching(es, o)) + Reinserted(Touching(es, o), o, n)
  }

  /** For two distinct nodes, merging is renaming: the triples afterwards are
      exactly the renamed triples of before, so triples that become equal
      collapse into one and no triple mentions `o` any more. */
  lemma MergedIsRenaming(es: set<Triple>, o: int, n: int)
    requires o != n
    ensures Merged(es, o, n) == set t | t in es :: Rename(t, o, n)
    ensures forall t :: t in Merged(es, o, n) ==> !Touches(t, o)
  {
    var image := set t | t in es :: Rename(t, o, n);
    forall u | u in Merged(es, o, n) ensures u in image {
      if u in es - Touching(es, o) {
        assert Rename(u, o, n) == u;
      } else {
        var t :| t in Touching(es, o) && Rename(t, o, n) == u;
      }
    }
    forall u | u in image ensures u in Merged(es, o, n) {
      var t :| t in es && Rename(t, o, n) == u;
      if !Touches(t, o) {
        assert t in es - Touching(es, o);
      }
    }
  }

  /** Merging a node into itself, as written, removes every triple that
      mentions it: the same triples `erase_node` removes. */
  lemma MergedSelf(es: set<Triple>, n: int)
    ensures Merged(es, n, n) == es - Touching(es, n)
    ensures forall t :: t in Merged(es, n, n) <==> t in es && !Touches(t, n)
  {
  }

  /** `replace_node(o, n)` then `replace_node(n, o)` gives the triples back:
      when no triple mentions `n`, renaming `o` to `n` loses nothing. */
  lemma {:induction false} RenameBack(es: set<Triple>, o: int, n: int)
    requires o != n && forall t :: t in es ==> !Touches(t, n)
    ensures Merged(Merged(es, o, n), n, o) == es
  {
    MergedIsRenaming(es, o, n);
    var m := Merged(es, o, n);
    MergedIsRenaming(m, n, o);
    forall t | t in es ensures Rename(Rename(t, o, n), n, o) == t {
    }
    forall u | u in Merged(m, n, o) ensures u in es {
      var v :| v in m && Rename(v, n, o) == u;
      var t :| t in es && Rename(t, o, n) == v;
    }
    forall t | t in es ensures t in Merged(m, n, o) {
      assert Rename(t, o, n) in m;
    }
  }

  /** The example of a merge that collapses duplicates: with edges
      `a -> c` and `b -> c`, both of weight 5, merging `a` into `b` leaves the
      single edge `b -> c`. */
  lemma MergeCollapsesDuplicates(a: int, b: int, c: int)
    requires a != b && a != c && b != c
    ensures Merged({Triple(a, c, 5), Triple(b, c, 5)}, a, b) == {Triple(b, c, 5)}
  {
    var es := {Triple(a, c, 5), Triple(b, c, 5)};
    MergedIsRenaming(es, a, b);
    assert Rename(Triple(a, c, 5), a, b) == Triple(b, c, 5);
    assert Rename(Triple(b, c, 5), a, b) == Triple(b, c, 5);
  }

  /** No edge before place `j` of the bucket `b` of source `k` mentions `v`. */
  ghost predicate Clean(b: seq<Edge>, k: int, j: nat, v: int) {
    j <= |b| && forall x :: 0 <= x < j ==> !Touches(Triple(k, b[x].to, b[x].weight), v)
  }

  /** When no edge of the bucket at `ix` mentions `v`, no triple from its
      source does. */
  lemma BucketClean(m: seq<Bucket>, ix: nat, v: int)
    requires Ascending(IntLess, Keys(m)) && ix < |m|
    requires Clean(m[ix].value, m[ix].key, |m[ix].value|, v)
    ensures forall t :: t in EdgesOf(m) && t.from == m[ix].key ==> !Touches(t, v)
  {
    IntOrder();
    forall t | t in EdgesOf(m) && t.from == m[ix].key ensures !Touches(t, v) {
      var y, x := BucketOf(m, t);
      assert Keys(m)[y] == m[y].key && Keys(m)[ix] == m[ix].key;
    }
  }

  /** A loop over the buckets that has cleared every triple from sources up
      to the key at `i` has cleared every triple before the next bucket. */
  lemma ClearedNext(m: seq<Bucket>, i: nat, v: int)
    requires Ascending(IntLess, Keys(m)) && i < |m|
    requires forall t :: t in EdgesOf(m) && t.from <= m[i].key ==> !Touches(t, v)
    ensures forall t :: t in EdgesOf(m) && (i + 1 == |m| || t.from < m[i + 1].key) ==> !Touches(t, v)
  {
    IntOrder();
    forall t | t in EdgesOf(m) && (i + 1 == |m| || t.from < m[i + 1].key) ensures !Touches(t, v) {
      var y, x := BucketOf(m, t);
      assert Keys(m)[y] == m[y].key && Keys(m)[i] == m[i].key;
      if i + 1 < |m| {
        assert Keys(m)[i + 1] == m[i + 1].key;
      }
    }
  }

  /** Renaming one more processed triple adds its renamed copy. */
  lemma ReinsertedStep(ts: set<Triple>, t: Triple, o: int, n: int)
    ensures Reinserted(ts + {t}, o, n) == Reinserted(ts, o, n) + (if o == n then {} else {Rename(t, o, n)})
  {
  }

  /** How the triples of a merge in progress are made up: `keep`, the
      triples of the start that do not mention `o`; the renamed copies of
      the processed triples of `t0` (those that do); and `todo`, the ones of
      `t0` still to process. */
  ghost predicate MergeSplit(es: set<Triple>, o: int, n: int, keep: set<Triple>, t0: set<Triple>, todo: set<Triple>) {
    && (forall t :: t in keep ==> !Touches(t, o))
    && (forall t :: t in t0 ==> Touches(t, o))
    && todo <= t0 && es == keep + Reinserted(t0 - todo, o, n) + todo
  }

  /** One step of `merge_replace_node`: a triple `t` that mentions `o` is
      still to be processed, and inserting its renamed copy then erasing it
      moves it from `todo` to the processed ones. The only triple it can add
      that mentions `o` is `t` itself, which it removes. */
  lemma MergeStepSets(es: set<Triple>, o: int, n: int, keep: set<Triple>, t0: set<Triple>, todo: set<Triple>, t: Triple)
    requires MergeSplit(es, o, n, keep, t0, todo) && t in es && Touches(t, o)
    ensures t in todo
    ensures MergeSplit((es + {Rename(t, o, n)}) - {t}, o, n, keep, t0, todo - {t})
    ensures forall u :: u in (es + {Rename(t, o, n)}) - {t} ==> u in es || !Touches(u, o)
  {
    var r := Reinserted(t0 - todo, o, n);
    assert t !in keep;
    assert t !in r;
    assert t0 - (todo - {t}) == (t0 - todo) + {t};
    ReinsertedStep(t0 - todo, t, o, n);
  }

  /** At the end of the merge no triple mentions `o`, so none is left to
      process and the triples are those of `Merged`. */
  lemma MergeDone(es0: set<Triple>, es: set<Triple>, o: int, n: int, todo: set<Triple>)
    requires MergeSplit(es, o, n, es0 - Touching(es0, o), Touching(es0, o), todo)
    requires forall t :: t in es ==> !Touches(t, o)
    ensures es == Merged(es0, o, n)
  {
    assert forall t :: t in todo ==> t in es && Touches(t, o);
    assert todo == {};
  }

  /** After an edge is inserted into bucket `b` of source `k` (giving
      `b2`), the edges before the place of an old edge `b[j]` are old edges
      that came before it, or the inserted one; so if neither mentions `v`,
      none does. */
  lemma CleanAfterInsert(b: seq<Edge>, b2: seq<Edge>, k: int, j: nat, j2: nat, g: Triple, v: int)
    requires Ascending(EdgeLess, b) && Ascending(EdgeLess, b2)
    requires forall f :: f in b2 ==> f in b || Triple(k, f.to, f.weight) == g
    requires j < |b| && j2 < |b2| && b[j] == b2[j2] && Clean(b, k, j, v)
    requires !Touches(g, v) || g == Triple(k, b[j].to, b[j].weight)
    ensures Clean(b2, k, j2, v)
  {
    EdgeOrder();
    forall x | 0 <= x < j2 ensures !Touches(Triple(k, b2[x].to, b2[x].weight), v) {
      var f := b2[x];
      assert EdgeLess(f, b2[j2]);
      if f in b {
        var y := EarlierIndex(b, j, f);
      }
    }
  }

  /** Erasing the edge at place `j` leaves the edges before it in place. */
  lemma CleanAfterErase(b: seq<Edge>, k: int, j: nat, v: int)
    requires j < |b| && Clean(b, k, j, v)
    ensures Clean(b[..j] + b[j + 1..], k, j, v)
  {
    assert forall x :: 0 <= x < j ==> (b[..j] + b[j + 1..])[x] == b[x];
  }
}
