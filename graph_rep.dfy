/**
 * The representation of `gdwg::graph<N, E>` with `N = E = int`: the values,
 * the comparators, the representation invariant, and the abstract view of the
 * state as a node set plus a set of (source, destination, weight) triples.
 * Node and weight values are stored by value: the `shared_ptr` ownership of
 * the C++ code is not observable through the graph's interface.
 */
module GraphRep {
  import opened Wrappers
  import opened Ordered

  /** An element of a source's bucket (`graph::edge`): destination and weight. */
  datatype Edge = Edge(to: int, weight: int)

  /** `graph::value_type`: an edge as the iterator and the queries show it. */
  datatype Triple = Triple(from: int, to: int, weight: int)

  /** `graph::iterator`: the index of the current source bucket and the index
      of the current edge inside it. The bucket index `|edges|` is `end()`;
      there the edge index is not looked at, as in the source's `==`. */
  datatype Iterator = Iterator(outer: nat, inner: nat)

  /** One entry of `edges_`: a source node and its ordered set of edges. */
  type Bucket = Entry<int, seq<Edge>>

  /** `<` on values: what `node_cmp`, `edge_map_cmp` and `weight_cmp` compare,
      and the order of the vectors `nodes()`, `weights()` and `connections()`. */
  predicate IntLess(a: int, b: int) {
    a < b
  }

  /** `edge_cmp`: by destination, then by weight. */
  predicate EdgeLess(a: Edge, b: Edge) {
    a.to < b.to || (a.to == b.to && a.weight < b.weight)
  }

  /** The order in which the iterator visits edges: source, destination, weight. */
  predicate TripleLess(a: Triple, b: Triple) {
    a.from < b.from || (a.from == b.from && EdgeLess(EdgeOf(a), EdgeOf(b)))
  }

  function EdgeOf(t: Triple): Edge {
    Edge(t.to, t.weight)
  }

  lemma IntOrder()
    ensures StrictTotalOrder(IntLess)
  {
  }

  lemma EdgeOrder()
    ensures StrictTotalOrder(EdgeLess)
  {
  }

  lemma TripleOrder()
    ensures StrictTotalOrder(TripleLess)
  {
  }

  /** The representation invariant, apart from the pruning of empty buckets:
      both containers are ordered, and every bucket key and every destination
      is a node. */
  ghost predicate WellFormed(nodes: seq<int>, edges: seq<Bucket>) {
    && Ascending(IntLess, nodes)
    && Ascending(IntLess, Keys(edges))
    && (forall i :: 0 <= i < |edges| ==> edges[i].key in nodes && BucketOk(nodes, edges[i].value))
  }

  /** A bucket is an ordered set of edges whose destinations are nodes. */
  ghost predicate BucketOk(nodes: seq<int>, b: seq<Edge>) {
    Ascending(EdgeLess, b) && forall e :: e in b ==> e.to in nodes
  }

  /** `edges_` never keeps a source whose bucket is empty. */
  ghost predicate NoEmptyBucket(edges: seq<Bucket>) {
    forall i :: 0 <= i < |edges| ==> edges[i].value != []
  }

  /** The set of nodes a node container holds. */
  ghost function NodesOf(nodes: seq<int>): set<int> {
    set n | n in nodes
  }

  /** `nodes_.emplace`: the node container with `v` added. */
  function AddNode(nodes: seq<int>, v: int): (r: seq<int>)
    requires Ascending(IntLess, nodes)
    ensures Ascending(IntLess, r)
    ensures NodesOf(r) == NodesOf(nodes) + {v}
  {
    IntOrder();
    var r := Insert(IntLess, nodes, v);
    assert forall n :: n in NodesOf(r) <==> n in r;
    r
  }

  /** `nodes_.erase`: the node container without `v`. */
  function RemoveNode(nodes: seq<int>, v: int): (r: seq<int>)
    requires Ascending(IntLess, nodes)
    ensures Ascending(IntLess, r)
    ensures NodesOf(r) == NodesOf(nodes) - {v}
  {
    IntOrder();
    var r := Remove(IntLess, nodes, v);
    assert forall n :: n in NodesOf(r) <==> n in r;
    r
  }

  /** The set of edge triples the buckets hold. */
  ghost function EdgesOf(edges: seq<Bucket>): set<Triple> {
    set i, e | 0 <= i < |edges| && e in edges[i].value :: Triple(edges[i].key, e.to, e.weight)
  }

  /** The bucket of `k`, empty when `k` has none. */
  function Out(edges: seq<Bucket>, k: int): seq<Edge>
    requires Ascending(IntLess, Keys(edges))
  {
    IntOrder();
    match Lookup(IntLess, edges, k)
    case Some(v) => v
    case None => []
  }

  /** A triple is stored exactly when its edge is in its source's bucket. */
  lemma EdgesOfByBucket(edges: seq<Bucket>)
    requires Ascending(IntLess, Keys(edges))
    ensures forall t :: t in EdgesOf(edges) <==> EdgeOf(t) in Out(edges, t.from)
  {
    IntOrder();
    forall t ensures t in EdgesOf(edges) <==> EdgeOf(t) in Out(edges, t.from) {
      if t in EdgesOf(edges) {
        var i, e :| 0 <= i < |edges| && e in edges[i].value && t == Triple(edges[i].key, e.to, e.weight);
        assert Lookup(IntLess, edges, t.from) == Some(edges[i].value);
      }
      if EdgeOf(t) in Out(edges, t.from) {
        var i :| 0 <= i < |edges| && edges[i] == Entry(t.from, Out(edges, t.from));
        assert EdgeOf(t) in edges[i].value;
        assert Triple(edges[i].key, EdgeOf(t).to, EdgeOf(t).weight) == t;
      }
    }
  }

  /** One instance of `EdgesOfByBucket`: the triple `(k, e)` is an edge
      exactly when `e` is in the bucket of `k`. */
  lemma Stored(edges: seq<Bucket>, k: int, e: Edge)
    requires Ascending(IntLess, Keys(edges))
    ensures Triple(k, e.to, e.weight) in EdgesOf(edges) <==> e in Out(edges, k)
  {
    EdgesOfByBucket(edges);
    assert EdgeOf(Triple(k, e.to, e.weight)) == e;
  }

  /** `edges_.find(k)`: the index of `k`'s bucket, or `|edges|` (the end)
      when `k` has none. */
  function FindBucket(edges: seq<Bucket>, k: int): (i: nat)
    requires Ascending(IntLess, Keys(edges))
    ensures i <= |edges|
    ensures i < |edges| <==> k in Keys(edges)
    ensures i < |edges| ==> edges[i].key == k && edges[i].value == Out(edges, k)
    ensures i == |edges| ==> Out(edges, k) == []
  {
    IntOrder();
    var i := Position(IntLess, Keys(edges), k);
    if i < |edges| && edges[i].key == k then
      OutAt(edges, i);
      i
    else
      |edges|
  }

  /** `std::set<edge>::find(e)`: the index of `e`, or `|b|` (the end). */
  function FindEdge(b: seq<Edge>, e: Edge): (j: nat)
    requires Ascending(EdgeLess, b)
    ensures j <= |b|
    ensures j < |b| <==> e in b
    ensures j < |b| ==> b[j] == e
  {
    EdgeOrder();
    var j := Position(EdgeLess, b, e);
    if j < |b| && b[j] == e then j else |b|
  }

  /** `std::set<edge>::emplace(e)`. */
  function AddEdge(b: seq<Edge>, e: Edge): (r: seq<Edge>)
    requires Ascending(EdgeLess, b)
    ensures Ascending(EdgeLess, r)
    ensures forall x :: x in r <==> x in b || x == e
  {
    EdgeOrder();
    Insert(EdgeLess, b, e)
  }

  /** `std::set<edge>::erase` at index `j`: the edge there is gone, the ones
      before keep their indices and the ones after move down by one. */
  function EraseEdgeAt(b: seq<Edge>, j: nat): (r: seq<Edge>)
    requires Ascending(EdgeLess, b) && j < |b|
    ensures Ascending(EdgeLess, r)
    ensures forall x :: x in r <==> x in b && x != b[j]
    ensures |r| == |b| - 1 && r[..j] == b[..j] && r[j..] == b[j + 1..]
  {
    EdgeOrder();
    EraseAtSet(EdgeLess, b, j);
    b[..j] + b[j + 1..]
  }

  /** `edges_.emplace(k, v)` for a source `k` without a bucket. */
  function PutBucket(m: seq<Bucket>, k: int, v: seq<Edge>): (r: seq<Bucket>)
    requires Ascending(IntLess, Keys(m))
    ensures Ascending(IntLess, Keys(r))
    ensures k in Keys(r) && Out(r, k) == v
    ensures forall k' :: k' != k ==> Out(r, k') == Out(m, k') && (k' in Keys(r) <==> k' in Keys(m))
  {
    IntOrder();
    Put(IntLess, m, k, v)
  }

  /** Replacing the edge set of the bucket at index `i`, in place. */
  function SetBucket(m: seq<Bucket>, i: nat, v: seq<Edge>): (r: seq<Bucket>)
    requires Ascending(IntLess, Keys(m)) && i < |m|
    ensures Keys(r) == Keys(m) && |r| == |m|
    ensures r[i] == Entry(m[i].key, v) && Out(r, m[i].key) == v
    ensures forall i' :: 0 <= i' < |m| && i' != i ==> r[i'] == m[i']
    ensures forall k' :: k' != m[i].key ==> Out(r, k') == Out(m, k') && (k' in Keys(r) <==> k' in Keys(m))
  {
    IntOrder();
    UpdateAtKeys(IntLess, m, i, v);
    m[i := Entry(m[i].key, v)]
  }

  /** `edges_.erase` at index `i`. */
  function DropBucket(m: seq<Bucket>, i: nat): (r: seq<Bucket>)
    requires Ascending(IntLess, Keys(m)) && i < |m|
    ensures Ascending(IntLess, Keys(r)) && |r| == |m| - 1
    ensures m[i].key !in Keys(r) && Out(r, m[i].key) == []
    ensures forall i' :: 0 <= i' < |r| ==> r[i'] == m[if i' < i then i' else i' + 1]
    ensures forall k' :: k' != m[i].key ==> Out(r, k') == Out(m, k') && (k' in Keys(r) <==> k' in Keys(m))
  {
    IntOrder();
    EraseAtKeys(IntLess, m, i);
    m[..i] + m[i + 1..]
  }

  /** The weights of the edges to `dst` in bucket `b`, in bucket order. */
  function WeightsTo(b: seq<Edge>, dst: int): seq<int> {
    if b == [] then []
    else WeightsTo(b[..|b| - 1], dst) + (if b[|b| - 1].to == dst then [b[|b| - 1].weight] else [])
  }

  /** Collecting the weights to `dst` of an ordered bucket gives exactly the
      weights of its edges to `dst`, in ascending order, each once. */
  lemma {:induction false} WeightsToSpec(b: seq<Edge>, dst: int)
    requires Ascending(EdgeLess, b)
    ensures Ascending(IntLess, WeightsTo(b, dst))
    ensures forall w :: w in WeightsTo(b, dst) <==> Edge(dst, w) in b
    ensures forall w :: w in WeightsTo(b, dst) ==> Edge(dst, w) == b[|b| - 1] || EdgeLess(Edge(dst, w), b[|b| - 1])
  {
    if b != [] {
      var s := b[..|b| - 1];
      var x := b[|b| - 1];
      assert b == s + [x];
      assert b[..|b| - 1] == s;
      WeightsToSpec(s, dst);
      var ws := WeightsTo(s, dst);
      forall w | w in ws ensures EdgeLess(Edge(dst, w), x) {
        var k :| 0 <= k < |s| && s[k] == Edge(dst, w);
        assert b[k] == Edge(dst, w);
      }
      if x.to == dst {
        assert WeightsTo(b, dst) == ws + [x.weight];
        forall p, q | 0 <= p < q < |ws + [x.weight]| ensures IntLess((ws + [x.weight])[p], (ws + [x.weight])[q]) {
          if q == |ws| {
            assert ws[p] in ws;
          }
        }
      } else {
        assert WeightsTo(b, dst) == ws;
      }
    }
  }

  /** The distinct destinations of bucket `b`, in bucket order. */
  function Destinations(b: seq<Edge>): seq<int> {
    if b == [] then []
    else
      var d := Destinations(b[..|b| - 1]);
      if b[|b| - 1].to in d then d else d + [b[|b| - 1].to]
  }

  /** Collecting the destinations of an ordered bucket gives each destination
      once, in ascending order. */
  lemma {:induction false} DestinationsSpec(b: seq<Edge>)
    requires Ascending(EdgeLess, b)
    ensures Ascending(IntLess, Destinations(b))
    ensures forall n :: n in Destinations(b) <==> exists e :: e in b && e.to == n
    ensures forall n :: n in Destinations(b) ==> n <= b[|b| - 1].to
  {
    if b != [] {
      var s := b[..|b| - 1];
      var x := b[|b| - 1];
      assert b == s + [x];
      assert b[..|b| - 1] == s;
      DestinationsSpec(s);
      var d := Destinations(s);
      forall n | n in d ensures n <= x.to {
        var e :| e in s && e.to == n;
        var k :| 0 <= k < |s| && s[k] == e;
        assert b[k] == e;
      }
      if x.to !in d {
        assert Destinations(b) == d + [x.to];
        forall p, q | 0 <= p < q < |d + [x.to]| ensures IntLess((d + [x.to])[p], (d + [x.to])[q]) {
          if q == |d| {
            assert d[p] in d;
          }
        }
      }
      forall n ensures n in Destinations(b) <==> exists e :: e in b && e.to == n {
        if n == x.to {
          assert x in b;
        }
        if exists e :: e in b && e.to == n {
          var e :| e in b && e.to == n;
          assert e in s || e == x;
        }
      }
    }
  }

  /** When only the bucket of `k` may differ, so may only the triples leaving `k`. */
  lemma EdgesOfOneBucket(e1: seq<Bucket>, e2: seq<Bucket>, k: int)
    requires Ascending(IntLess, Keys(e1)) && Ascending(IntLess, Keys(e2))
    requires forall k' :: k' != k ==> Out(e2, k') == Out(e1, k')
    ensures forall t :: t in EdgesOf(e2) <==> if t.from == k then EdgeOf(t) in Out(e2, k) else t in EdgesOf(e1)
  {
    EdgesOfByBucket(e1);
    EdgesOfByBucket(e2);
  }

  /** The bucket at index `i` is the bucket of its key. */
  lemma OutAt(edges: seq<Bucket>, i: nat)
    requires Ascending(IntLess, Keys(edges)) && i < |edges|
    ensures Out(edges, edges[i].key) == edges[i].value
  {
    IntOrder();
    assert Keys(edges)[i] == edges[i].key;
  }

  /** Every bucket of a well-formed state, looked up by key, is well formed. */
  lemma BucketsByOut(nodes: seq<int>, edges: seq<Bucket>)
    requires WellFormed(nodes, edges)
    ensures forall k :: BucketOk(nodes, Out(edges, k))
    ensures forall k :: k in Keys(edges) ==> k in nodes
  {
    forall k ensures BucketOk(nodes, Out(edges, k)) {
      if k in Keys(edges) {
        var i :| 0 <= i < |edges| && Keys(edges)[i] == k;
        OutAt(edges, i);
      } else {
        IntOrder();
      }
    }
  }

  /** The frame of every update of `edges_`: when the buckets of all sources
      but `k` are unchanged, the state stays well formed as long as the
      bucket of `k` is, and only triples leaving `k` may change. */
  lemma OneBucketChange(nodes: seq<int>, m: seq<Bucket>, r: seq<Bucket>, k: int)
    requires WellFormed(nodes, m) && Ascending(IntLess, Keys(r))
    requires forall k' :: k' != k ==> Out(r, k') == Out(m, k') && (k' in Keys(r) <==> k' in Keys(m))
    requires k in Keys(r) ==> k in nodes && BucketOk(nodes, Out(r, k))
    ensures WellFormed(nodes, r)
    ensures NoEmptyBucket(m) && (k in Keys(r) ==> Out(r, k) != []) ==> NoEmptyBucket(r)
    ensures forall t :: t in EdgesOf(r) <==> if t.from == k then EdgeOf(t) in Out(r, k) else t in EdgesOf(m)
  {
    BucketsByOut(nodes, m);
    forall i | 0 <= i < |r| ensures r[i].key in nodes && BucketOk(nodes, r[i].value) {
      OutAt(r, i);
      assert r[i].key in Keys(r) by { assert Keys(r)[i] == r[i].key; }
    }
    if NoEmptyBucket(m) && (k in Keys(r) ==> Out(r, k) != []) {
      KeysByOut(m);
      forall i | 0 <= i < |r| ensures r[i].value != [] {
        OutAt(r, i);
        assert r[i].key in Keys(r) by { assert Keys(r)[i] == r[i].key; }
      }
    }
    EdgesOfOneBucket(m, r, k);
  }

  /** Every node with a bucket is a key, and conversely. */
  lemma KeysByOut(edges: seq<Bucket>)
    requires Ascending(IntLess, Keys(edges)) && NoEmptyBucket(edges)
    ensures forall k :: k in Keys(edges) <==> Out(edges, k) != []
  {
    IntOrder();
    forall k ensures k in Keys(edges) <==> Out(edges, k) != [] {
      if k in Keys(edges) {
        var i :| 0 <= i < |edges| && Keys(edges)[i] == k;
        OutAt(edges, i);
      }
    }
  }

  /** The iteration sequence: every bucket's edges, bucket after bucket. */
  function Flatten(edges: seq<Bucket>): seq<Triple> {
    if edges == [] then [] else Expand(edges[0]) + Flatten(edges[1..])
  }

  /** The triples of one bucket, in its order. */
  function Expand(b: Bucket): (ts: seq<Triple>)
    ensures |ts| == |b.value|
    ensures forall j :: 0 <= j < |b.value| ==> ts[j] == Triple(b.key, b.value[j].to, b.value[j].weight)
  {
    seq(|b.value|, j requires 0 <= j < |b.value| => Triple(b.key, b.value[j].to, b.value[j].weight))
  }

  /** The number of triples in the first `k` buckets: where bucket `k` starts
      in the iteration sequence. */
  function Offset(edges: seq<Bucket>, k: nat): nat
    requires k <= |edges|
  {
    if k == 0 then 0 else Offset(edges, k - 1) + |edges[k - 1].value|
  }

  /** The iteration sequence lists bucket `k`'s edges from `Offset(k)` on. */
  lemma {:induction false} FlattenAt(edges: seq<Bucket>, k: nat, j: nat)
    requires k < |edges| && j < |edges[k].value|
    ensures Offset(edges, k) + j < |Flatten(edges)|
    ensures Flatten(edges)[Offset(edges, k) + j] == Triple(edges[k].key, edges[k].value[j].to, edges[k].value[j].weight)
  {
    OffsetTail(edges, k);
    FlattenLength(edges[1..]);
    if k > 0 {
      FlattenAt(edges[1..], k - 1, j);
    }
  }

  /** `Offset` seen from the second bucket on. */
  lemma {:induction false} OffsetTail(edges: seq<Bucket>, k: nat)
    requires 0 < |edges| && k <= |edges|
    ensures k > 0 ==> Offset(edges, k) == |edges[0].value| + Offset(edges[1..], k - 1)
  {
    if k > 1 {
      OffsetTail(edges, k - 1);
    }
  }

  lemma {:induction false} FlattenLength(edges: seq<Bucket>)
    ensures |Flatten(edges)| == Offset(edges, |edges|)
  {
    if edges != [] {
      FlattenLength(edges[1..]);
      OffsetTail(edges, |edges|);
    }
  }

  /** Every position of the iteration sequence lies in some bucket. */
  lemma {:induction false} FlattenCovers(edges: seq<Bucket>, p: nat) returns (k: nat, j: nat)
    requires p < |Flatten(edges)|
    ensures k < |edges| && j < |edges[k].value| && p == Offset(edges, k) + j
  {
    OffsetTail(edges, |edges|);
    if p < |edges[0].value| {
      k, j := 0, p;
    } else {
      var k', j' := FlattenCovers(edges[1..], p - |edges[0].value|);
      OffsetTail(edges, k' + 1);
      k, j := k' + 1, j';
    }
  }

  /** The iteration sequence holds exactly the stored triples. */
  lemma FlattenElements(edges: seq<Bucket>)
    ensures forall t :: t in Flatten(edges) <==> t in EdgesOf(edges)
  {
    forall t ensures t in Flatten(edges) <==> t in EdgesOf(edges) {
      if t in Flatten(edges) {
        var p :| 0 <= p < |Flatten(edges)| && Flatten(edges)[p] == t;
        var k, j := FlattenCovers(edges, p);
        FlattenAt(edges, k, j);
        assert edges[k].value[j] in edges[k].value;
      }
      if t in EdgesOf(edges) {
        var k, e :| 0 <= k < |edges| && e in edges[k].value && t == Triple(edges[k].key, e.to, e.weight);
        var j :| 0 <= j < |edges[k].value| && edges[k].value[j] == e;
        FlattenAt(edges, k, j);
      }
    }
  }

  /** Offsets grow with the bucket index, by at least one per non-empty bucket. */
  lemma {:induction false} OffsetMonotone(edges: seq<Bucket>, a: nat, b: nat)
    requires a <= b <= |edges|
    ensures Offset(edges, a) <= Offset(edges, b)
    ensures a < b ==> Offset(edges, a) + |edges[a].value| <= Offset(edges, b)
  {
    if a < b {
      OffsetMonotone(edges, a, b - 1);
    }
  }

  /** The iteration sequence is strictly ascending in (source, destination, weight). */
  lemma FlattenAscending(nodes: seq<int>, edges: seq<Bucket>)
    requires WellFormed(nodes, edges)
    ensures Ascending(TripleLess, Flatten(edges))
  {
    forall p, q | 0 <= p < q < |Flatten(edges)| {
      FlattenPair(nodes, edges, p, q);
    }
  }

  lemma FlattenPair(nodes: seq<int>, edges: seq<Bucket>, p: nat, q: nat)
    requires WellFormed(nodes, edges)
    requires p < q < |Flatten(edges)|
    ensures TripleLess(Flatten(edges)[p], Flatten(edges)[q])
  {
    var k1, j1 := FlattenCovers(edges, p);
    var k2, j2 := FlattenCovers(edges, q);
    assert p == Offset(edges, k1) + j1 && q == Offset(edges, k2) + j2;
    FlattenPairOrdered(nodes, edges, k1, j1, k2, j2);
  }

  lemma FlattenPairOrdered(nodes: seq<int>, edges: seq<Bucket>, k1: nat, j1: nat, k2: nat, j2: nat)
    requires WellFormed(nodes, edges)
    requires k1 < |edges| && j1 < |edges[k1].value| && k2 < |edges| && j2 < |edges[k2].value|
    requires Offset(edges, k1) + j1 < Offset(edges, k2) + j2
    ensures Offset(edges, k2) + j2 < |Flatten(edges)|
    ensures TripleLess(Flatten(edges)[Offset(edges, k1) + j1], Flatten(edges)[Offset(edges, k2) + j2])
  {
    FlattenAt(edges, k1, j1);
    FlattenAt(edges, k2, j2);
    if k2 < k1 {
      OffsetMonotone(edges, k2, k1);
    } else if k1 < k2 {
      OffsetMonotone(edges, k1, k2);
      assert Keys(edges)[k1] == edges[k1].key && Keys(edges)[k2] == edges[k2].key;
    }
  }

  /** The representation is canonical: a well-formed state is determined by
      its node set and its triple set. */
  lemma Canonical(n1: seq<int>, e1: seq<Bucket>, n2: seq<int>, e2: seq<Bucket>)
    requires WellFormed(n1, e1) && NoEmptyBucket(e1)
    requires WellFormed(n2, e2) && NoEmptyBucket(e2)
    requires NodesOf(n1) == NodesOf(n2)
    requires EdgesOf(e1) == EdgesOf(e2)
    ensures n1 == n2 && e1 == e2
  {
    IntOrder();
    EdgeOrder();
    forall n ensures n in n1 <==> n in n2 {
      assert n in n1 <==> n in NodesOf(n1);
      assert n in n2 <==> n in NodesOf(n2);
    }
    AscendingUnique(IntLess, n1, n2);
    EdgesOfByBucket(e1);
    EdgesOfByBucket(e2);
    KeysByOut(e1);
    KeysByOut(e2);
    forall k ensures Out(e1, k) == Out(e2, k) {
      forall e ensures e in Out(e1, k) <==> e in Out(e2, k) {
        assert EdgeOf(Triple(k, e.to, e.weight)) == e;
      }
      BucketsByOut(n1, e1);
      BucketsByOut(n2, e2);
      AscendingUnique(EdgeLess, Out(e1, k), Out(e2, k));
    }
    AscendingUnique(IntLess, Keys(e1), Keys(e2));
    forall i | 0 <= i < |e1| ensures e1[i] == e2[i] {
      assert Keys(e1)[i] == e1[i].key && Keys(e2)[i] == e2[i].key;
      OutAt(e1, i);
      OutAt(e2, i);
    }
  }

  /** Two well-formed states are equal exactly when their node sets and
      their triple sets are. */
  lemma SameSetsSameState(n1: seq<int>, e1: seq<Bucket>, n2: seq<int>, e2: seq<Bucket>)
    requires WellFormed(n1, e1) && NoEmptyBucket(e1)
    requires WellFormed(n2, e2) && NoEmptyBucket(e2)
    ensures n1 == n2 && e1 == e2 <==> NodesOf(n1) == NodesOf(n2) && EdgesOf(e1) == EdgesOf(e2)
  {
    if NodesOf(n1) == NodesOf(n2) && EdgesOf(e1) == EdgesOf(e2) {
      Canonical(n1, e1, n2, e2);
    }
  }

  /** `std::set<edge>::find(dst)` with the comparator that looks only at the
      destination: whether some edge of `b` goes to `dst`. */
  predicate HasDestination(b: seq<Edge>, dst: int) {
    exists j :: 0 <= j < |b| && b[j].to == dst
  }

  /** The weights collected from the bucket of `src` are those of the
      edges from `src` to `dst`, ascending. */
  lemma WeightsOf(edges: seq<Bucket>, src: int, dst: int)
    requires Ascending(IntLess, Keys(edges)) && Ascending(EdgeLess, Out(edges, src))
    ensures Ascending(IntLess, WeightsTo(Out(edges, src), dst))
    ensures forall w :: w in WeightsTo(Out(edges, src), dst) <==> Triple(src, dst, w) in EdgesOf(edges)
  {
    WeightsToSpec(Out(edges, src), dst);
    forall w ensures w in WeightsTo(Out(edges, src), dst) <==> Triple(src, dst, w) in EdgesOf(edges) {
      Stored(edges, src, Edge(dst, w));
    }
  }

  /** The destinations collected from the bucket of `src` are the nodes
      `src` has an edge to, ascending. */
  lemma DestinationsOf(edges: seq<Bucket>, src: int)
    requires Ascending(IntLess, Keys(edges)) && Ascending(EdgeLess, Out(edges, src))
    ensures Ascending(IntLess, Destinations(Out(edges, src)))
    ensures forall n :: n in Destinations(Out(edges, src)) <==> exists w :: Triple(src, n, w) in EdgesOf(edges)
  {
    var b := Out(edges, src);
    DestinationsSpec(b);
    forall n ensures n in Destinations(b) <==> exists w :: Triple(src, n, w) in EdgesOf(edges) {
      if n in Destinations(b) {
        var e :| e in b && e.to == n;
        Stored(edges, src, e);
      }
      if exists w :: Triple(src, n, w) in EdgesOf(edges) {
        var w :| Triple(src, n, w) in EdgesOf(edges);
        Stored(edges, src, Edge(n, w));
      }
    }
  }

  /** Some edge of the bucket of `src` goes to `dst` exactly when some
      triple from `src` to `dst` is stored. */
  lemma ConnectedByBucket(edges: seq<Bucket>, src: int, dst: int)
    requires Ascending(IntLess, Keys(edges))
    ensures HasDestination(Out(edges, src), dst) <==> exists w :: Triple(src, dst, w) in EdgesOf(edges)
  {
    EdgesOfByBucket(edges);
    if exists w :: Triple(src, dst, w) in EdgesOf(edges) {
      var w :| Triple(src, dst, w) in EdgesOf(edges);
      assert EdgeOf(Triple(src, dst, w)) in Out(edges, src);
    }
    if exists j :: 0 <= j < |Out(edges, src)| && Out(edges, src)[j].to == dst {
      var j :| 0 <= j < |Out(edges, src)| && Out(edges, src)[j].to == dst;
      var e := Out(edges, src)[j];
      assert EdgeOf(Triple(src, dst, e.weight)) == e;
    }
  }

  /** The triples of the edges `b` leaving `k`. */
  ghost function BucketTriples(k: int, b: seq<Edge>): set<Triple> {
    set e | e in b :: Triple(k, e.to, e.weight)
  }

  lemma NodesOfSnoc(s: seq<int>, x: int)
    ensures NodesOf(s + [x]) == NodesOf(s) + {x}
  {
    assert forall n :: n in s + [x] <==> n in s || n == x;
  }

  lemma BucketTriplesSnoc(k: int, b: seq<Edge>, e: Edge)
    ensures BucketTriples(k, b + [e]) == BucketTriples(k, b) + {Triple(k, e.to, e.weight)}
  {
    assert forall x :: x in b + [e] <==> x in b || x == e;
  }

  /** The triples of a prefix of the buckets grow bucket by bucket. */
  lemma EdgesOfSnoc(edges: seq<Bucket>, b: Bucket)
    ensures EdgesOf(edges + [b]) == EdgesOf(edges) + BucketTriples(b.key, b.value)
  {
    var r := edges + [b];
    forall t | t in EdgesOf(r) ensures t in EdgesOf(edges) + BucketTriples(b.key, b.value) {
      var i, e :| 0 <= i < |r| && e in r[i].value && t == Triple(r[i].key, e.to, e.weight);
      if i < |edges| {
        assert e in edges[i].value;
      }
    }
    forall t | t in EdgesOf(edges) ensures t in EdgesOf(r) {
      var i, e :| 0 <= i < |edges| && e in edges[i].value && t == Triple(edges[i].key, e.to, e.weight);
      assert r[i] == edges[i];
    }
    forall t | t in BucketTriples(b.key, b.value) ensures t in EdgesOf(r) {
      var e :| e in b.value && t == Triple(b.key, e.to, e.weight);
      assert r[|edges|] == b;
    }
  }

  /** Distinct positions of a state without empty buckets are distinct
      places in the iteration sequence. */
  lemma OffsetDistinct(edges: seq<Bucket>, k1: nat, j1: nat, k2: nat, j2: nat)
    requires k1 < |edges| && j1 < |edges[k1].value| && k2 < |edges| && j2 < |edges[k2].value|
    requires Offset(edges, k1) + j1 == Offset(edges, k2) + j2
    ensures k1 == k2 && j1 == j2
  {
    if k1 < k2 {
      OffsetMonotone(edges, k1, k2);
    } else if k2 < k1 {
      OffsetMonotone(edges, k2, k1);
    }
  }

  /** Removing one edge from bucket `i` moves every later bucket one place
      earlier in the iteration sequence. */
  lemma {:induction false} OffsetShrink(m: seq<Bucket>, r: seq<Bucket>, i: nat, k: nat)
    requires |r| == |m| && i < |m| && k <= |m|
    requires forall i' :: 0 <= i' < |m| && i' != i ==> r[i'] == m[i']
    requires |r[i].value| + 1 == |m[i].value|
    ensures Offset(r, k) == if k <= i then Offset(m, k) else Offset(m, k) - 1
  {
    if k > 0 {
      OffsetShrink(m, r, i, k - 1);
    }
  }

  /** Dropping an empty bucket leaves every position of the iteration
      sequence where it was. */
  lemma {:induction false} OffsetDrop(m: seq<Bucket>, r: seq<Bucket>, i: nat, k: nat)
    requires i < |m| && m[i].value == [] && |r| == |m| - 1 && k <= |r|
    requires forall i' :: 0 <= i' < |r| ==> r[i'] == m[if i' < i then i' else i' + 1]
    ensures Offset(r, k) == Offset(m, if k <= i then k else k + 1)
  {
    if k > 0 {
      OffsetDrop(m, r, i, k - 1);
    }
  }

  /** `it` designates an edge of `edges`, or the end. */
  predicate IsPosition(edges: seq<Bucket>, it: Iterator) {
    (it.outer < |edges| && it.inner < |edges[it.outer].value|) || it.outer == |edges|
  }

  /** The place in the iteration sequence of bucket `k`'s edge `j`; bucket
      `|edges|` is the end, one past the last triple. */
  function Place(edges: seq<Bucket>, k: nat, j: nat): nat
    requires k <= |edges|
  {
    if k == |edges| then |Flatten(edges)| else Offset(edges, k) + j
  }

  /** Every position is a place of the iteration sequence or its end. */
  lemma PlaceBound(edges: seq<Bucket>, it: Iterator)
    requires IsPosition(edges, it)
    ensures Place(edges, it.outer, it.inner) <= |Flatten(edges)|
    ensures it.outer < |edges| <==> Place(edges, it.outer, it.inner) < |Flatten(edges)|
  {
    FlattenLength(edges);
    if it.outer < |edges| {
      FlattenAt(edges, it.outer, it.inner);
    }
  }

  /** Two (bucket, edge) positions are the same place exactly when they are
      the same edge, or both the end. */
  lemma SamePlace(edges: seq<Bucket>, k1: nat, j1: nat, k2: nat, j2: nat)
    requires (k1 < |edges| && j1 < |edges[k1].value|) || k1 == |edges|
    requires (k2 < |edges| && j2 < |edges[k2].value|) || k2 == |edges|
    ensures (k1 == k2 && (k1 == |edges| || j1 == j2)) <==> Place(edges, k1, j1) == Place(edges, k2, j2)
  {
    FlattenLength(edges);
    if k1 < |edges| {
      FlattenAt(edges, k1, j1);
    }
    if k2 < |edges| {
      FlattenAt(edges, k2, j2);
    }
    if k1 < |edges| && k2 < |edges| && Place(edges, k1, j1) == Place(edges, k2, j2) {
      OffsetDistinct(edges, k1, j1, k2, j2);
    }
  }

  /** After erasing the triple at place `p`, the iteration sequence is the
      old one without that place. */
  lemma FlattenAfterErase(nodes: seq<int>, m: seq<Bucket>, r: seq<Bucket>, p: nat)
    requires WellFormed(nodes, m) && WellFormed(nodes, r) && p < |Flatten(m)|
    requires EdgesOf(r) == EdgesOf(m) - {Flatten(m)[p]}
    ensures Flatten(r) == Flatten(m)[..p] + Flatten(m)[p + 1..]
  {
    TripleOrder();
    FlattenAscending(nodes, m);
    FlattenAscending(nodes, r);
    FlattenElements(m);
    FlattenElements(r);
    EraseAtSet(TripleLess, Flatten(m), p);
    AscendingUnique(TripleLess, Flatten(r), Flatten(m)[..p] + Flatten(m)[p + 1..]);
  }

  /** Where a position past `(o, n)` is once bucket `o` has lost its edge
      `n`: in a later bucket it keeps its indices, in the same bucket its edge
      index is one lower, and either way it is one place earlier. */
  lemma ShrinkPlace(m: seq<Bucket>, r: seq<Bucket>, o: nat, n: nat, k: nat, j: nat)
    requires |r| == |m| && o < |m| && n < |m[o].value|
    requires forall i' :: 0 <= i' < |m| && i' != o ==> r[i'] == m[i']
    requires |r[o].value| + 1 == |m[o].value|
    requires (k < |m| && j < |m[k].value|) || k == |m|
    requires Place(m, k, j) > Place(m, o, n)
    ensures k > o || (k == o && j > n)
    ensures (k < |r| && (if k == o then j - 1 else j) < |r[k].value|) || k == |r|
    ensures Place(r, k, if k == o then j - 1 else j) == Place(m, k, j) - 1
  {
    FlattenLength(m);
    FlattenLength(r);
    OffsetShrink(m, r, o, |m|);
    OffsetShrink(m, r, o, o);
    if k < |m| {
      OffsetShrink(m, r, o, k);
      if k < o {
        OffsetMonotone(m, k, o);
      }
    } else {
      OffsetMonotone(m, o, |m|);
    }
  }

  /** Dropping the empty bucket `o` moves every later position one bucket
      index down and keeps its place. */
  lemma DropPlace(m: seq<Bucket>, r: seq<Bucket>, o: nat, k: nat, j: nat)
    requires o < |m| && m[o].value == [] && |r| == |m| - 1
    requires forall i' :: 0 <= i' < |r| ==> r[i'] == m[if i' < o then i' else i' + 1]
    requires k > o && ((k < |m| && j < |m[k].value|) || k == |m|)
    ensures (k - 1 < |r| && j < |r[k - 1].value|) || k - 1 == |r|
    ensures Place(r, k - 1, j) == Place(m, k, j)
  {
    FlattenLength(m);
    FlattenLength(r);
    OffsetDrop(m, r, o, k - 1);
    OffsetDrop(m, r, o, |r|);
  }

  /** The buckets after `erase_edge(iterator)` at bucket `o`, edge `n`: that
      edge is gone, and so is its bucket once it has no edge left. */
  function EraseIn(m: seq<Bucket>, o: nat, n: nat): (r: seq<Bucket>)
    requires o < |m| && n < |m[o].value|
  {
    var b := m[o].value[..n] + m[o].value[n + 1..];
    if b == [] then m[..o] + m[o + 1..] else m[o := Entry(m[o].key, b)]
  }

  /** `EraseIn` is the bucket update `SetBucket` followed, when the bucket is
      left empty, by `DropBucket`. */
  lemma EraseInSteps(m: seq<Bucket>, o: nat, n: nat)
    requires Ascending(IntLess, Keys(m)) && o < |m| && n < |m[o].value|
    requires Ascending(EdgeLess, m[o].value)
    ensures var s := SetBucket(m, o, EraseEdgeAt(m[o].value, n));
      EraseIn(m, o, n) == if s[o].value == [] then DropBucket(s, o) else s
  {
  }

  /** `edges_[src].emplace(e)`: the bucket of `k`, created when missing,
      with `e` added. */
  function InsertIn(m: seq<Bucket>, k: int, e: Edge): (r: seq<Bucket>)
    requires Ascending(IntLess, Keys(m)) && Ascending(EdgeLess, Out(m, k))
    ensures Ascending(IntLess, Keys(r))
  {
    var i := FindBucket(m, k);
    if i == |m| then PutBucket(m, k, [e]) else SetBucket(m, i, AddEdge(Out(m, k), e))
  }

  /** Adding an edge between two nodes keeps the representation invariant
      and adds exactly that triple. */
  lemma InsertInEdges(nodes: seq<int>, m: seq<Bucket>, k: int, e: Edge)
    requires WellFormed(nodes, m) && NoEmptyBucket(m) && k in nodes && e.to in nodes
    requires Ascending(EdgeLess, Out(m, k))
    ensures WellFormed(nodes, InsertIn(m, k, e)) && NoEmptyBucket(InsertIn(m, k, e))
    ensures EdgesOf(InsertIn(m, k, e)) == EdgesOf(m) + {Triple(k, e.to, e.weight)}
  {
    var r := InsertIn(m, k, e);
    var t := Triple(k, e.to, e.weight);
    EdgesOfByBucket(m);
    BucketsByOut(nodes, m);
    assert Out(r, k) == AddEdge(Out(m, k), e);
    assert e in Out(r, k);
    OneBucketChange(nodes, m, r, k);
    forall u ensures u in EdgesOf(r) <==> u in EdgesOf(m) || u == t {
      if u.from == k {
        assert EdgeOf(u) == e <==> u == t;
      }
    }
  }

  /** Where an iterator at `it`, somewhere past the erased edge `(o, n)`, is
      in `EraseIn(m, o, n)`. Erasing from a `std::set` or a `std::map` leaves
      iterators to the other elements valid, so the iterator still designates
      the same triple; only its indices change. */
  function Moved(m: seq<Bucket>, o: nat, it: Iterator): Iterator
    requires o < |m|
  {
    if it.outer == o && it.inner > 0 then Iterator(o, it.inner - 1)
    else if it.outer > o && |m[o].value| == 1 then Iterator(it.outer - 1, it.inner)
    else it
  }

  /** A moved iterator is a valid position of the new buckets, one place
      earlier than before. */
  lemma MovedPlace(m: seq<Bucket>, o: nat, n: nat, it: Iterator)
    requires o < |m| && n < |m[o].value|
    requires (it.outer < |m| && it.inner < |m[it.outer].value|) || it.outer == |m|
    requires Place(m, it.outer, it.inner) > Place(m, o, n)
    ensures IsPosition(EraseIn(m, o, n), Moved(m, o, it))
    ensures Place(EraseIn(m, o, n), Moved(m, o, it).outer, Moved(m, o, it).inner) == Place(m, it.outer, it.inner) - 1
  {
    var b := m[o].value[..n] + m[o].value[n + 1..];
    var s := m[o := Entry(m[o].key, b)];
    var r := EraseIn(m, o, n);
    var k, j := it.outer, it.inner;
    ShrinkPlace(m, s, o, n, k, j);
    if b == [] {
      DropPlace(s, r, o, k, j);
    }
  }

  /** Erasing the edge at `(o, n)` keeps the representation invariant and
      removes exactly the triple at that position. */
  lemma EraseInEdges(nodes: seq<int>, m: seq<Bucket>, o: nat, n: nat)
    requires WellFormed(nodes, m) && NoEmptyBucket(m) && o < |m| && n < |m[o].value|
    ensures WellFormed(nodes, EraseIn(m, o, n)) && NoEmptyBucket(EraseIn(m, o, n))
    ensures EdgesOf(EraseIn(m, o, n)) == EdgesOf(m) - {Triple(m[o].key, m[o].value[n].to, m[o].value[n].weight)}
  {
    var r := EraseIn(m, o, n);
    var key := m[o].key;
    var t := Triple(key, m[o].value[n].to, m[o].value[n].weight);
    EdgesOfByBucket(m);
    OutAt(m, o);
    BucketsByOut(nodes, m);
    EraseInSteps(m, o, n);
    OneBucketChange(nodes, m, r, key);
    forall u ensures u in EdgesOf(r) <==> u in EdgesOf(m) && u != t {
      if u.from == key {
        assert EdgeOf(u) == m[o].value[n] <==> u == t;
      }
    }
  }

  /** Erasing the edge at `(o, n)` removes its place from the iteration
      sequence and leaves the other triples in order. */
  lemma EraseInOrder(nodes: seq<int>, m: seq<Bucket>, o: nat, n: nat)
    requires WellFormed(nodes, m) && NoEmptyBucket(m) && o < |m| && n < |m[o].value|
    ensures Place(m, o, n) < |Flatten(m)|
    ensures Flatten(m)[Place(m, o, n)] == Triple(m[o].key, m[o].value[n].to, m[o].value[n].weight)
    ensures Flatten(EraseIn(m, o, n)) == Without(Flatten(m), Place(m, o, n), Place(m, o, n) + 1)
  {
    FlattenAt(m, o, n);
    var r := EraseIn(m, o, n);
    var p := Place(m, o, n);
    EraseInEdges(nodes, m, o, n);
    assert p == Offset(m, o) + n;
    assert Flatten(m)[p] == Triple(m[o].key, m[o].value[n].to, m[o].value[n].weight);
    FlattenAfterErase(nodes, m, r, p);
  }

  /** The sequence `ts` without its places `a` up to, not including, `b`. */
  function Without(ts: seq<Triple>, a: nat, b: nat): (r: seq<Triple>)
    requires a <= b <= |ts|
    ensures |r| == |ts| - (b - a)
  {
    ts[..a] + ts[b..]
  }

  /** One step of `erase_edge(i, s)`: with the places `a` up to `e`
      already gone, erasing the edge at place `a` (position `(o, n)`) removes
      one more, and `s`, moved, is one place earlier. */
  lemma RangeStep(nodes: seq<int>, m: seq<Bucket>, o: nat, n: nat, s: Iterator, ts: seq<Triple>, a: nat, e: nat)
    requires WellFormed(nodes, m) && NoEmptyBucket(m)
    requires IsPosition(m, Iterator(o, n)) && IsPosition(m, s)
    requires Place(m, o, n) == a < Place(m, s.outer, s.inner)
    requires a <= e <= |ts| && Flatten(m) == Without(ts, a, e)
    ensures o < |m| && n < |m[o].value| && e < |ts|
    ensures IsPosition(EraseIn(m, o, n), Moved(m, o, s))
    ensures Place(EraseIn(m, o, n), Moved(m, o, s).outer, Moved(m, o, s).inner) == Place(m, s.outer, s.inner) - 1
    ensures Flatten(EraseIn(m, o, n)) == Without(ts, a, e + 1)
  {
    PlaceBound(m, s);
    PlaceBound(m, Iterator(o, n));
    MovedPlace(m, o, n, s);
    EraseInOrder(nodes, m, o, n);
    var x := Flatten(m);
    assert x[..a] == ts[..a];
    assert x[a + 1..] == ts[e + 1..];
  }

  /** `edges_` while a node loop is inside the bucket of `k`: that bucket may
      have been emptied, no other may. */
  ghost predicate NoEmptyExcept(edges: seq<Bucket>, k: int) {
    forall i :: 0 <= i < |edges| && edges[i].key != k ==> edges[i].value != []
  }

  /** Once the bucket of `k` has an edge again, no bucket is empty. */
  lemma NoEmptyWith(edges: seq<Bucket>, k: int)
    requires Ascending(IntLess, Keys(edges)) && NoEmptyExcept(edges, k) && Out(edges, k) != []
    ensures NoEmptyBucket(edges)
  {
    forall i | 0 <= i < |edges| && edges[i].key == k ensures edges[i].value != [] {
      OutAt(edges, i);
    }
  }

  /** `map_iter->second.erase(old_edge)` inside a node loop: the edge at
      `(o, n)` leaves its bucket, and the bucket stays even when emptied. */
  function EraseKeep(m: seq<Bucket>, o: nat, n: nat): (r: seq<Bucket>)
    requires o < |m| && n < |m[o].value|
  {
    m[o := Entry(m[o].key, m[o].value[..n] + m[o].value[n + 1..])]
  }

  /** Erasing in place keeps the representation invariant, except that the
      bucket may now be empty, and removes exactly the triple erased. */
  lemma EraseKeepEdges(nodes: seq<int>, m: seq<Bucket>, o: nat, n: nat)
    requires WellFormed(nodes, m) && o < |m| && n < |m[o].value|
    ensures WellFormed(nodes, EraseKeep(m, o, n)) && Keys(EraseKeep(m, o, n)) == Keys(m)
    ensures |EraseKeep(m, o, n)| == |m| && EraseKeep(m, o, n)[o].key == m[o].key
    ensures NoEmptyExcept(m, m[o].key) ==> NoEmptyExcept(EraseKeep(m, o, n), m[o].key)
    ensures EdgesOf(EraseKeep(m, o, n)) == EdgesOf(m) - {Triple(m[o].key, m[o].value[n].to, m[o].value[n].weight)}
  {
    var r := EraseKeep(m, o, n);
    var key := m[o].key;
    var t := Triple(key, m[o].value[n].to, m[o].value[n].weight);
    BucketsByOut(nodes, m);
    OutAt(m, o);
    assert r == SetBucket(m, o, EraseEdgeAt(m[o].value, n));
    EdgesOfByBucket(m);
    OneBucketChange(nodes, m, r, key);
    forall u ensures u in EdgesOf(r) <==> u in EdgesOf(m) && u != t {
      if u.from == key {
        assert EdgeOf(u) == m[o].value[n] <==> u == t;
      }
    }
  }

  /** `map_iter = edges_.erase(map_iter)` on an emptied bucket: the
      invariant is whole again and the triples are unchanged. */
  lemma DropEmpty(nodes: seq<int>, m: seq<Bucket>, i: nat)
    requires WellFormed(nodes, m) && i < |m| && m[i].value == [] && NoEmptyExcept(m, m[i].key)
    ensures WellFormed(nodes, DropBucket(m, i)) && NoEmptyBucket(DropBucket(m, i))
    ensures EdgesOf(DropBucket(m, i)) == EdgesOf(m)
  {
    var r := DropBucket(m, i);
    var key := m[i].key;
    IntOrder();
    OutAt(m, i);
    EdgesOfByBucket(m);
    OneBucketChange(nodes, m, r, key);
    forall x | 0 <= x < |r| ensures r[x].value != [] {
      var y := if x < i then x else x + 1;
      assert Keys(m)[y] == m[y].key && Keys(m)[i] == key;
    }
  }

  /** Once no triple mentions `v`, `v` can leave the node container. */
  lemma NodeGone(nodes: seq<int>, m: seq<Bucket>, v: int)
    requires WellFormed(nodes, m) && NoEmptyBucket(m)
    requires forall t :: t in EdgesOf(m) ==> t.from != v && t.to != v
    ensures WellFormed(RemoveNode(nodes, v), m)
  {
    var ns := RemoveNode(nodes, v);
    forall i | 0 <= i < |m| ensures m[i].key in ns && BucketOk(ns, m[i].value) {
      var e := m[i].value[0];
      assert Triple(m[i].key, e.to, e.weight) in EdgesOf(m);
      assert m[i].key in NodesOf(nodes);
      forall f | f in m[i].value ensures f.to in ns {
        assert Triple(m[i].key, f.to, f.weight) in EdgesOf(m);
        assert f.to in NodesOf(nodes);
      }
    }
  }

  /** Where a triple of `edges_` is stored: a bucket and a place in it. */
  lemma BucketOf(m: seq<Bucket>, t: Triple) returns (y: nat, x: nat)
    requires t in EdgesOf(m)
    ensures y < |m| && x < |m[y].value|
    ensures t == Triple(m[y].key, m[y].value[x].to, m[y].value[x].weight)
  {
    var i, e :| 0 <= i < |m| && e in m[i].value && t == Triple(m[i].key, e.to, e.weight);
    y := i;
    x :| 0 <= x < |m[i].value| && m[i].value[x] == e;
  }

  /** In an ordered bucket, an edge less than the one at `j` is before `j`. */
  lemma EarlierIndex(b: seq<Edge>, j: nat, f: Edge) returns (y: nat)
    requires Ascending(EdgeLess, b) && j < |b| && f in b && EdgeLess(f, b[j])
    ensures y < j && b[y] == f
  {
    EdgeOrder();
    y :| 0 <= y < |b| && b[y] == f;
  }
}
