/**
 * `word_ladder::generate`: every shortest ladder between two words of a
 * lexicon, found by a breadth-first search over word classes that records,
 * for each word, all the words one step nearer to the start.
 */
module WordLadder {
  import opened LadderGraph
  import opened Ordered

  /** Word classes to the lexicon words of the searched length in them. */
  type Bags = map<string, set<string>>

  /** `bags` files each of `words` under exactly its classes, and holds no
      class without a word. */
  ghost predicate Bucketed(bags: Bags, words: set<string>) {
    && (forall c, w :: c in bags && w in bags[c] <==> w in words && InClass(w, c))
    && (forall c :: c in bags ==> bags[c] != {})
  }

  /** Files `word` under each of its classes. */
  method BucketWord(bags: Bags, word: string, ghost words: set<string>) returns (bags': Bags)
    requires Bucketed(bags, words) && word !in words
    ensures Bucketed(bags', words + {word})
  {
    bags' := bags;
    for i := 0 to |word|
      invariant forall c, w :: c in bags' && w in bags'[c] <==>
        (w in words && InClass(w, c)) || (w == word && exists j :: 0 <= j < i && Wildcard(word, j) == c)
      invariant forall c :: c in bags' ==> bags'[c] != {}
    {
      var c := Wildcard(word, i);
      if c in bags' {
        bags' := bags'[c := bags'[c] + {word}];
      } else {
        bags' := bags'[c := {word}];
      }
    }
  }

  /** `get_lexicon_word_bags`: the classes of the lexicon words of length
      `len`, each with the words in it. */
  method LexiconWordBags(len: nat, lexicon: set<string>) returns (bags: Bags)
    ensures Bucketed(bags, Words(lexicon, len))
  {
    bags := map[];
    var rest := lexicon;
    ghost var filed: set<string> := {};
    while rest != {}
      invariant rest <= lexicon
      invariant filed == Words(lexicon - rest, len)
      invariant Bucketed(bags, filed)
      decreases rest
    {
      var word :| word in rest;
      rest := rest - {word};
      if |word| == len {
        bags := BucketWord(bags, word, filed);
        filed := filed + {word};
      }
    }
    assert lexicon - rest == lexicon;
  }

  /** `get_neighbours`: the words that share a class with `target`. A class
      of `target` with no bag is skipped. */
  method Neighbours(target: string, bags: Bags, ghost words: set<string>) returns (ns: set<string>)
    requires Bucketed(bags, words)
    ensures forall w :: w in ns <==> w in words && Adjacent(target, w)
  {
    ns := {};
    for i := 0 to |target|
      invariant forall w :: w in ns <==> w in words && exists k :: 0 <= k < i && InClass(w, Wildcard(target, k))
    {
      var c := Wildcard(target, i);
      if c in bags {
        ns := ns + bags[c];
      }
    }
  }

  /** The words found so far: those settled and those queued, with their
      distances and predecessor lists; the start has distance 0 and the
      predecessor list `[""]`. */
  ghost predicate Discovered(words: set<string>, src: string, done: set<string>, queue: seq<string>,
                             dist: map<string, nat>, pred: map<string, seq<string>>) {
    && dist.Keys <= words
    && (forall w :: w in dist <==> w in done || w in queue)
    && (forall i :: 0 <= i < |queue| ==> queue[i] !in done)
    && (forall i, j :: 0 <= i < j < |queue| ==> queue[i] != queue[j])
    && pred.Keys == dist.Keys
    && src in dist && dist[src] == 0 && pred[src] == [""]
  }

  /** Every word found, except the start, has a predecessor. */
  ghost predicate Reached(src: string, pred: map<string, seq<string>>) {
    forall w :: w in pred && w != src ==> pred[w] != []
  }

  /** No predecessor list names a word twice. */
  ghost predicate Unrepeated(pred: map<string, seq<string>>) {
    forall w :: w in pred ==> Distinct(pred[w])
  }

  /** The queue holds distances in ascending order, between `lo` and `lo + 1`. */
  ghost predicate Layered(queue: seq<string>, dist: map<string, nat>, lo: nat) {
    forall i, j :: 0 <= i <= j < |queue| ==>
      queue[i] in dist && queue[j] in dist && lo <= dist[queue[i]] <= dist[queue[j]] <= lo + 1
  }

  /** The words in `done` are no further than `lo`. */
  ghost predicate Below(done: set<string>, dist: map<string, nat>, lo: nat) {
    forall p :: p in done ==> p in dist && dist[p] <= lo
  }

  /** Every word adjacent to a settled word is found, at most one further. */
  ghost predicate Closed(words: set<string>, done: set<string>, dist: map<string, nat>) {
    forall p, w :: p in done && w in words && Adjacent(p, w) ==> p in dist && w in dist && dist[w] <= dist[p] + 1
  }

  /** The predecessor list of each found word, except the start, holds the
      settled words one nearer and adjacent to it, and `u` when `u` is being
      settled and the word is among its neighbours visited so far. */
  ghost predicate Preds(src: string, done: set<string>, u: string, seen: set<string>,
                        dist: map<string, nat>, pred: map<string, seq<string>>) {
    forall w, v :: w in dist && w in pred && w != src ==>
      (v in pred[w] <==>
        (v in done && v in dist && Adjacent(v, w) && dist[v] + 1 == dist[w]) ||
        (u in dist && dist[w] == dist[u] + 1 && v == u && w in seen))
  }

  /** The state at the head of the search loop. */
  ghost predicate Outer(words: set<string>, src: string, done: set<string>, queue: seq<string>,
                        dist: map<string, nat>, pred: map<string, seq<string>>) {
    && done <= words
    && Discovered(words, src, done, queue, dist, pred)
    && Reached(src, pred)
    && (queue != [] ==> queue[0] in dist && Layered(queue, dist, dist[queue[0]]) && Below(done, dist, dist[queue[0]]))
    && Closed(words, done, dist)
    && Preds(src, done, src, {}, dist, pred)
  }

  /** The state while the neighbours of `u` are visited, `seen` those visited. */
  ghost predicate Inner(words: set<string>, src: string, done: set<string>, u: string, seen: set<string>,
                        queue: seq<string>, dist: map<string, nat>, pred: map<string, seq<string>>) {
    && done <= words && u !in done
    && Discovered(words, src, done + {u}, queue, dist, pred)
    && u !in queue
    && Reached(src, pred)
    && u in dist && Layered(queue, dist, dist[u]) && Below(done, dist, dist[u])
    && Closed(words, done, dist)
    && (forall w :: w in seen ==> w in dist && dist[w] <= dist[u] + 1)
    && Preds(src, done, u, seen, dist, pred)
  }

  /** Taking the head of the queue to settle it. */
  lemma Pop(words: set<string>, src: string, done: set<string>, queue: seq<string>,
            dist: map<string, nat>, pred: map<string, seq<string>>)
    requires Outer(words, src, done, queue, dist, pred) && queue != []
    ensures Inner(words, src, done, queue[0], {}, queue[1..], dist, pred)
  {
    var u := queue[0];
    forall i, j | 0 <= i <= j < |queue[1..]|
      ensures queue[1..][i] in dist && queue[1..][j] in dist && dist[u] <= dist[queue[1..][i]] <= dist[queue[1..][j]] <= dist[u] + 1
    {
      assert queue[1..][i] == queue[i + 1] && queue[1..][j] == queue[j + 1];
    }
    forall i | 0 <= i < |queue[1..]|
      ensures queue[1..][i] != u
    {
      assert queue[1..][i] == queue[i + 1];
    }
    forall w
      ensures w in dist <==> w in done + {u} || w in queue[1..]
    {
      if w in queue {
        var i :| 0 <= i < |queue| && queue[i] == w;
        if i > 0 {
          assert queue[1..][i - 1] == w;
        }
      }
    }
    PredsStart(src, done, u, dist, pred);
  }

  /** Before any neighbour of `u` is visited, the lists name settled words only. */
  lemma PredsStart(src: string, done: set<string>, u: string, dist: map<string, nat>, pred: map<string, seq<string>>)
    requires Preds(src, done, src, {}, dist, pred)
    ensures Preds(src, done, u, {}, dist, pred)
  {
  }

  /** The neighbour `n` of `u` is not further than one more than `u`: the
      branch of the search that would shorten a distance is never taken. */
  lemma NoShorter(words: set<string>, src: string, done: set<string>, u: string, seen: set<string>,
                  queue: seq<string>, dist: map<string, nat>, pred: map<string, seq<string>>, n: string)
    requires Inner(words, src, done, u, seen, queue, dist, pred) && n in dist
    ensures dist[n] <= dist[u] + 1
  {
    if n in queue {
      var i :| 0 <= i < |queue| && queue[i] == n;
    }
  }

  /** Visiting the neighbour `n` of `u` (the body of the inner loop of `BFS`). */
  method Visit(u: string, n: string, dist: map<string, nat>, pred: map<string, seq<string>>, queue: seq<string>,
               ghost words: set<string>, ghost src: string, ghost done: set<string>, ghost seen: set<string>)
    returns (dist': map<string, nat>, pred': map<string, seq<string>>, queue': seq<string>)
    requires Inner(words, src, done, u, seen, queue, dist, pred)
    requires n in words && Adjacent(u, n) && n !in seen && Unrepeated(pred)
    ensures Inner(words, src, done, u, seen + {n}, queue', dist', pred')
    ensures Unrepeated(pred') && dist'[u] == dist[u]
  {
    dist', pred', queue' := dist, pred, queue;
    if n in dist {
      NoShorter(words, src, done, u, seen, queue, dist, pred, n);
      if dist[n] > dist[u] + 1 {
        assert false;
      } else if dist[n] == dist[u] + 1 {
        pred' := pred[n := pred[n] + [u]];
        VisitLevel(words, src, done, u, seen, queue, dist, pred, n);
        LevelUnrepeated(src, done, u, seen, dist, pred, n);
      } else {
        VisitNearer(words, src, done, u, seen, queue, dist, pred, n);
      }
    } else {
      dist' := dist[n := dist[u] + 1];
      queue' := queue + [n];
      pred' := pred[n := [u]];
      VisitNew(words, src, done, u, seen, queue, dist, pred, n);
    }
  }

  /** A word found for the first time joins the queue one further than `u`,
      with `u` as its only predecessor. */
  lemma VisitNew(words: set<string>, src: string, done: set<string>, u: string, seen: set<string>,
                 queue: seq<string>, dist: map<string, nat>, pred: map<string, seq<string>>, n: string)
    requires Inner(words, src, done, u, seen, queue, dist, pred)
    requires n in words && Adjacent(u, n) && n !in seen && n !in dist
    ensures Inner(words, src, done, u, seen + {n}, queue + [n], dist[n := dist[u] + 1], pred[n := [u]])
  {
    DiscoveredNew(words, src, done + {u}, queue, dist, pred, n, dist[u] + 1, u);
    LayeredNew(queue, dist, u, n);
    PredsNew(words, src, done, u, seen, dist, pred, n);
    GrowNew(words, done, u, seen, dist, n);
  }

  /** A word already found at one further than `u` gets `u` as one more predecessor. */
  lemma VisitLevel(words: set<string>, src: string, done: set<string>, u: string, seen: set<string>,
                   queue: seq<string>, dist: map<string, nat>, pred: map<string, seq<string>>, n: string)
    requires Inner(words, src, done, u, seen, queue, dist, pred)
    requires n in words && Adjacent(u, n) && n in dist && dist[n] == dist[u] + 1
    ensures Inner(words, src, done, u, seen + {n}, queue, dist, pred[n := pred[n] + [u]])
  {
    PredsLevel(src, done, u, seen, dist, pred, n);
  }

  /** `u` is not yet among the predecessors of a neighbour it has not visited,
      so appending it repeats no word. */
  lemma LevelUnrepeated(src: string, done: set<string>, u: string, seen: set<string>,
                        dist: map<string, nat>, pred: map<string, seq<string>>, n: string)
    requires Preds(src, done, u, seen, dist, pred) && pred.Keys == dist.Keys && Unrepeated(pred)
    requires u !in done && n !in seen && n in dist && n != src
    ensures Unrepeated(pred[n := pred[n] + [u]])
  {
    assert u !in pred[n];
    DistinctAppend(pred[n], [u]);
  }

  /** A word already found no further than `u` is left as it is. */
  lemma VisitNearer(words: set<string>, src: string, done: set<string>, u: string, seen: set<string>,
                    queue: seq<string>, dist: map<string, nat>, pred: map<string, seq<string>>, n: string)
    requires Inner(words, src, done, u, seen, queue, dist, pred)
    requires n in words && Adjacent(u, n) && n in dist && dist[n] <= dist[u]
    ensures Inner(words, src, done, u, seen + {n}, queue, dist, pred)
  {
    PredsNearer(src, done, u, seen, dist, pred, n);
  }

  lemma PredsLevel(src: string, done: set<string>, u: string, seen: set<string>,
                   dist: map<string, nat>, pred: map<string, seq<string>>, n: string)
    requires Preds(src, done, u, seen, dist, pred) && pred.Keys == dist.Keys
    requires u in dist && n in dist && dist[n] == dist[u] + 1 && n != src
    ensures Preds(src, done, u, seen + {n}, dist, pred[n := pred[n] + [u]])
  {
    var pred' := pred[n := pred[n] + [u]];
    forall w, v | w in dist && w in pred' && w != src
      ensures v in pred'[w] <==>
        (v in done && v in dist && Adjacent(v, w) && dist[v] + 1 == dist[w]) ||
        (u in dist && dist[w] == dist[u] + 1 && v == u && w in seen + {n})
    {
      assert v in pred[w] <==>
        (v in done && v in dist && Adjacent(v, w) && dist[v] + 1 == dist[w]) ||
        (u in dist && dist[w] == dist[u] + 1 && v == u && w in seen);
      if w == n {
        assert v in pred'[w] <==> v in pred[w] || v == u;
      }
    }
  }

  lemma PredsNearer(src: string, done: set<string>, u: string, seen: set<string>,
                    dist: map<string, nat>, pred: map<string, seq<string>>, n: string)
    requires Preds(src, done, u, seen, dist, pred)
    requires u in dist && n in dist && dist[n] <= dist[u]
    ensures Preds(src, done, u, seen + {n}, dist, pred)
  {
    forall w, v | w in dist && w in pred && w != src
      ensures v in pred[w] <==>
        (v in done && v in dist && Adjacent(v, w) && dist[v] + 1 == dist[w]) ||
        (u in dist && dist[w] == dist[u] + 1 && v == u && w in seen + {n})
    {
      assert v in pred[w] <==>
        (v in done && v in dist && Adjacent(v, w) && dist[v] + 1 == dist[w]) ||
        (u in dist && dist[w] == dist[u] + 1 && v == u && w in seen);
    }
  }

  /** Adding a word to the distances keeps what held of the others. */
  lemma GrowNew(words: set<string>, done: set<string>, u: string, seen: set<string>, dist: map<string, nat>, n: string)
    requires u in dist && n !in dist && Below(done, dist, dist[u]) && Closed(words, done, dist)
    requires forall w :: w in seen ==> w in dist && dist[w] <= dist[u] + 1
    ensures Below(done, dist[n := dist[u] + 1], dist[u]) && Closed(words, done, dist[n := dist[u] + 1])
    ensures forall w :: w in seen + {n} ==> w in dist[n := dist[u] + 1] && dist[n := dist[u] + 1][w] <= dist[u] + 1
  {
  }

  lemma DiscoveredNew(words: set<string>, src: string, done: set<string>, queue: seq<string>,
                      dist: map<string, nat>, pred: map<string, seq<string>>, n: string, d: nat, u: string)
    requires Discovered(words, src, done, queue, dist, pred) && n in words && n !in dist
    ensures Discovered(words, src, done, queue + [n], dist[n := d], pred[n := [u]])
  {
    forall w ensures w in dist[n := d] <==> w in done || w in queue + [n] {
      assert w in queue + [n] <==> w in queue || w == n;
    }
  }

  lemma LayeredNew(queue: seq<string>, dist: map<string, nat>, u: string, n: string)
    requires u in dist && Layered(queue, dist, dist[u]) && n !in dist
    ensures Layered(queue + [n], dist[n := dist[u] + 1], dist[u])
  {
    var dist', queue' := dist[n := dist[u] + 1], queue + [n];
    forall i, j | 0 <= i <= j < |queue'|
      ensures queue'[i] in dist' && queue'[j] in dist' && dist[u] <= dist'[queue'[i]] <= dist'[queue'[j]] <= dist[u] + 1
    {
      if j < |queue| {
        assert queue'[i] == queue[i] && queue'[j] == queue[j];
      } else if i < |queue| {
        assert queue'[i] == queue[i];
      }
    }
  }

  lemma PredsNew(words: set<string>, src: string, done: set<string>, u: string, seen: set<string>,
                 dist: map<string, nat>, pred: map<string, seq<string>>, n: string)
    requires Preds(src, done, u, seen, dist, pred) && Closed(words, done, dist)
    requires u in dist && n in words && n !in dist && src in dist
    ensures Preds(src, done, u, seen + {n}, dist[n := dist[u] + 1], pred[n := [u]])
  {
    var dist', pred' := dist[n := dist[u] + 1], pred[n := [u]];
    forall w, v | w in dist' && w in pred' && w != src
      ensures v in pred'[w] <==>
        (v in done && v in dist' && Adjacent(v, w) && dist'[v] + 1 == dist'[w]) ||
        (u in dist' && dist'[w] == dist'[u] + 1 && v == u && w in seen + {n})
    {
      if w == n {
        assert !(v in done && Adjacent(v, w));
      } else {
        assert v in pred[w] <==>
          (v in done && v in dist && Adjacent(v, w) && dist[v] + 1 == dist[w]) ||
          (u in dist && dist[w] == dist[u] + 1 && v == u && w in seen);
      }
    }
  }

  /** Once every neighbour of `u` is visited, `u` is settled. */
  lemma Settle(words: set<string>, src: string, done: set<string>, u: string, ns: set<string>,
               queue: seq<string>, dist: map<string, nat>, pred: map<string, seq<string>>)
    requires Inner(words, src, done, u, ns, queue, dist, pred)
    requires forall w :: w in ns <==> w in words && Adjacent(u, w)
    ensures Outer(words, src, done + {u}, queue, dist, pred)
  {
    if queue != [] {
      LayerNext(done, u, queue, dist);
    }
    PredsSettle(words, src, done, u, ns, dist, pred);
  }

  lemma LayerNext(done: set<string>, u: string, queue: seq<string>, dist: map<string, nat>)
    requires u in dist && Layered(queue, dist, dist[u]) && Below(done, dist, dist[u]) && queue != []
    ensures queue[0] in dist && Layered(queue, dist, dist[queue[0]]) && Below(done + {u}, dist, dist[queue[0]])
  {
  }

  lemma PredsSettle(words: set<string>, src: string, done: set<string>, u: string, ns: set<string>,
                    dist: map<string, nat>, pred: map<string, seq<string>>)
    requires Preds(src, done, u, ns, dist, pred) && dist.Keys <= words && u in dist
    requires forall w :: w in ns <==> w in words && Adjacent(u, w)
    ensures Preds(src, done + {u}, src, {}, dist, pred)
  {
    forall w, v | w in dist && w in pred && w != src
      ensures v in pred[w] <==>
        (v in done + {u} && v in dist && Adjacent(v, w) && dist[v] + 1 == dist[w]) ||
        (src in dist && dist[w] == dist[src] + 1 && v == src && w in {})
    {
      assert v in pred[w] <==>
        (v in done && v in dist && Adjacent(v, w) && dist[v] + 1 == dist[w]) ||
        (u in dist && dist[w] == dist[u] + 1 && v == u && w in ns);
    }
  }

  /** The predecessor lists the search leaves: for each reached word but the
      start, the reached words adjacent to it and one nearer. */
  ghost predicate Chained(words: set<string>, src: string, dist: map<string, nat>, pred: map<string, seq<string>>) {
    && dist.Keys <= words
    && src in dist && dist[src] == 0
    && pred.Keys == dist.Keys && pred[src] == [""]
    && (forall w, v :: w in dist && w != src ==>
          (v in pred[w] <==> v in dist && Adjacent(v, w) && dist[v] + 1 == dist[w]))
  }

  /** What the search leaves: the predecessor lists, none empty, and every
      word adjacent to a reached word reached. */
  ghost predicate Searched(words: set<string>, src: string, dist: map<string, nat>, pred: map<string, seq<string>>) {
    && Chained(words, src, dist, pred)
    && Reached(src, pred)
    && Closed(words, dist.Keys, dist)
  }

  /** With the queue empty, every found word is settled. */
  lemma Finish(words: set<string>, src: string, dest: string, done: set<string>,
               dist: map<string, nat>, pred: map<string, seq<string>>, found: bool)
    requires Outer(words, src, done, [], dist, pred)
    requires found <==> dest in words && exists p :: p in done && Adjacent(p, dest)
    ensures Searched(words, src, dist, pred)
    ensures src != dest ==> (found <==> dest in dist)
  {
    assert done == dist.Keys;
    forall w, v | w in dist && w != src
      ensures v in pred[w] <==> v in dist && Adjacent(v, w) && dist[v] + 1 == dist[w]
    {
      assert v in pred[w] <==> v in done && v in dist && Adjacent(v, w) && dist[v] + 1 == dist[w];
    }
    if src != dest && dest in dist {
      var v := pred[dest][0];
      assert v in pred[dest];
      assert v in done && Adjacent(v, dest) && dest in words;
    }
    if found {
      var p :| p in done && Adjacent(p, dest);
      assert dest in dist;
    }
  }

  /** The loop of `BFS` over the neighbours `ns` of `u`, in an unspecified
      order, raising `found` when `dest` is among them. */
  method VisitAll(u: string, ns: set<string>, dest: string, found: bool,
                  dist: map<string, nat>, pred: map<string, seq<string>>, queue: seq<string>,
                  ghost words: set<string>, ghost src: string, ghost done: set<string>)
    returns (found': bool, dist': map<string, nat>, pred': map<string, seq<string>>, queue': seq<string>)
    requires Inner(words, src, done, u, {}, queue, dist, pred)
    requires forall w :: w in ns ==> w in words && Adjacent(u, w)
    requires Unrepeated(pred)
    ensures Inner(words, src, done, u, ns, queue', dist', pred') && Unrepeated(pred')
    ensures found' <==> found || dest in ns
  {
    found', dist', pred', queue' := found, dist, pred, queue;
    var rest := ns;
    ghost var seen: set<string> := {};
    while rest != {}
      invariant Inner(words, src, done, u, seen, queue', dist', pred') && Unrepeated(pred')
      invariant seen !! rest && seen + rest == ns
      invariant found' <==> found || dest in seen
      decreases rest
    {
      var n :| n in rest;
      rest := rest - {n};
      dist', pred', queue' := Visit(u, n, dist', pred', queue', words, src, done, seen);
      if n == dest {
        found' := true;
      }
      seen := seen + {n};
    }
  }

  /** `BFS`: a breadth-first search from `src` over the words in `bags`,
      answering whether `dest` was met as a neighbour. The distances and
      predecessor lists the modelled code fills through its reference
      parameters are returned. */
  method Bfs(src: string, dest: string, bags: Bags, ghost words: set<string>)
    returns (found: bool, pred: map<string, seq<string>>, dist: map<string, nat>)
    requires Bucketed(bags, words) && src in words
    ensures Searched(words, src, dist, pred) && Unrepeated(pred)
    ensures src != dest ==> (found <==> dest in dist)
  {
    found := false;
    dist := map[src := 0];
    pred := map[src := [""]];
    var queue := [src];
    ghost var done: set<string> := {};
    while queue != []
      invariant Outer(words, src, done, queue, dist, pred) && Unrepeated(pred)
      invariant found <==> dest in words && exists p :: p in done && Adjacent(p, dest)
      decreases words - done
    {
      Pop(words, src, done, queue, dist, pred);
      var u := queue[0];
      queue := queue[1..];
      var ns := Neighbours(u, bags, words);
      found, dist, pred, queue := VisitAll(u, ns, dest, found, dist, pred, queue, words, src, done);
      Settle(words, src, done, u, ns, queue, dist, pred);
      done := done + {u};
    }
    Finish(words, src, dest, done, dist, pred, found);
  }

  /** A ladder to a word is never shorter than its distance plus one, and
      only reaches words the search found. */
  lemma {:induction false} LadderBound(words: set<string>, src: string, dist: map<string, nat>,
                                       pred: map<string, seq<string>>, w: string, p: seq<string>)
    requires Searched(words, src, dist, pred) && Ladder(words, src, w, p)
    ensures w in dist && dist[w] + 1 <= |p|
    decreases |p|
  {
    if |p| > 1 {
      LadderPrefix(words, src, w, p);
      LadderBound(words, src, dist, pred, p[|p| - 2], p[..|p| - 1]);
      assert p[|p| - 1] in words;
    }
  }

  /** Every word the search found has a ladder of its distance plus one words. */
  lemma {:induction false} LadderTo(words: set<string>, src: string, dist: map<string, nat>,
                                    pred: map<string, seq<string>>, w: string)
    requires Searched(words, src, dist, pred) && w in dist
    ensures exists p :: Ladder(words, src, w, p) && |p| == dist[w] + 1
    decreases dist[w]
  {
    if w == src {
      assert Ladder(words, src, src, [src]);
    } else {
      var v := pred[w][0];
      assert v in pred[w];
      LadderTo(words, src, dist, pred, v);
      var p :| Ladder(words, src, v, p) && |p| == dist[v] + 1;
      LadderExtend(words, src, v, p, w);
    }
  }

  /** The search finds exactly the words some ladder from `src` reaches. */
  lemma SearchedReach(words: set<string>, src: string, dist: map<string, nat>,
                      pred: map<string, seq<string>>, w: string)
    requires Searched(words, src, dist, pred)
    ensures w in dist <==> exists p :: Ladder(words, src, w, p)
  {
    if w in dist {
      LadderTo(words, src, dist, pred, w);
    }
    if p :| Ladder(words, src, w, p) {
      LadderBound(words, src, dist, pred, w, p);
    }
  }

  /** A ladder is a shortest one exactly when it has the distance of its
      last word plus one words. */
  lemma SearchedShortest(words: set<string>, src: string, dist: map<string, nat>,
                         pred: map<string, seq<string>>, w: string, p: seq<string>)
    requires Searched(words, src, dist, pred) && Ladder(words, src, w, p)
    ensures w in dist && (Shortest(words, src, w, p) <==> |p| == dist[w] + 1)
  {
    LadderBound(words, src, dist, pred, w, p);
    LadderTo(words, src, dist, pred, w);
    if |p| == dist[w] + 1 {
      forall q | Ladder(words, src, w, q)
        ensures |p| <= |q|
      {
        LadderBound(words, src, dist, pred, w, q);
      }
    }
  }

  /** `std::reverse`. */
  function Reverse<T>(s: seq<T>): (r: seq<T>)
    ensures |r| == |s| && forall i :: 0 <= i < |s| ==> r[i] == s[|s| - 1 - i]
  {
    if s == [] then [] else Reverse(s[1..]) + [s[0]]
  }

  lemma ReverseTwice<T>(s: seq<T>)
    ensures Reverse(Reverse(s)) == s
  {
  }

  lemma ReverseSnoc<T>(s: seq<T>, x: T)
    ensures Reverse(s + [x]) == [x] + Reverse(s)
  {
  }

  /** Predecessor lists lead to words strictly nearer, or to the empty
      string, which is not a word. */
  ghost predicate Ranked(pred: map<string, seq<string>>, dist: map<string, nat>) {
    && "" !in dist
    && pred.Keys <= dist.Keys
    && forall w, v :: w in pred && w in dist && v in pred[w] ==> v == "" || (v in dist && dist[v] < dist[w])
  }

  ghost function Rank(dist: map<string, nat>, u: string): nat {
    if u in dist then dist[u] + 1 else 0
  }

  lemma SearchedRanked(words: set<string>, src: string, dist: map<string, nat>, pred: map<string, seq<string>>)
    requires Searched(words, src, dist, pred) && "" !in words
    ensures Ranked(pred, dist)
  {
  }

  /** The paths `collect_paths` appends: for the empty string the path so
      far, for another word the paths through each of its predecessors in
      list order, each with the word pushed. */
  ghost function Collected(pred: map<string, seq<string>>, dist: map<string, nat>, u: string, path: seq<string>): seq<seq<string>>
    requires Ranked(pred, dist)
    decreases Rank(dist, u), 1, 0
  {
    if u == "" then [path]
    else if u in pred then CollectedFrom(pred, dist, u, 0, path)
    else []
  }

  /** The paths through the predecessors of `u` from the `k`-th on. */
  ghost function CollectedFrom(pred: map<string, seq<string>>, dist: map<string, nat>, u: string, k: nat, path: seq<string>): seq<seq<string>>
    requires Ranked(pred, dist) && u in pred && k <= |pred[u]|
    decreases Rank(dist, u), 0, |pred[u]| - k
  {
    if k == |pred[u]| then []
    else
      assert pred[u][k] in pred[u];
      Collected(pred, dist, pred[u][k], path + [u]) + CollectedFrom(pred, dist, u, k + 1, path)
  }

  /** `collect_paths`: appends to `paths` every path from `u` back along the
      predecessor lists to the empty string, each prefixed by `path`. The
      modelled code pushes `u` on a shared `path` before each recursive call
      and pops it after; here the callee gets `path + [u]`. */
  method CollectPaths(paths: seq<seq<string>>, path: seq<string>, parent: map<string, seq<string>>, u: string,
                      ghost dist: map<string, nat>)
    returns (paths': seq<seq<string>>)
    requires Ranked(parent, dist)
    ensures paths' == paths + Collected(parent, dist, u, path)
    decreases Rank(dist, u), 1
  {
    if u == "" {
      paths' := paths + [path];
      return;
    }
    paths' := paths;
    if u in parent {
      var value := parent[u];
      for k := 0 to |value|
        invariant paths' + CollectedFrom(parent, dist, u, k, path) == paths + CollectedFrom(parent, dist, u, 0, path)
      {
        assert value[k] in parent[u];
        ghost var before := paths';
        paths' := CollectPaths(paths', path + [u], parent, value[k], dist);
        assert before + CollectedFrom(parent, dist, u, k, path)
            == before + (Collected(parent, dist, value[k], path + [u]) + CollectedFrom(parent, dist, u, k + 1, path));
      }
    }
  }

  /** A path collected through the `k`-th predecessor or a later one. */
  lemma {:induction false} CollectedFromMember(pred: map<string, seq<string>>, dist: map<string, nat>, u: string,
                                               k: nat, path: seq<string>, c: seq<string>)
    requires Ranked(pred, dist) && u in pred && k <= |pred[u]| && c in CollectedFrom(pred, dist, u, k, path)
    ensures exists i :: k <= i < |pred[u]| && c in Collected(pred, dist, pred[u][i], path + [u])
    decreases |pred[u]| - k
  {
    if c !in Collected(pred, dist, pred[u][k], path + [u]) {
      CollectedFromMember(pred, dist, u, k + 1, path, c);
    }
  }

  /** Every path collected through the `i`-th predecessor is among those
      collected from the `k`-th on, for `k <= i`. */
  lemma {:induction false} CollectedFromHas(pred: map<string, seq<string>>, dist: map<string, nat>, u: string,
                                            k: nat, i: nat, path: seq<string>, c: seq<string>)
    requires Ranked(pred, dist) && u in pred && k <= i < |pred[u]|
    requires c in Collected(pred, dist, pred[u][i], path + [u])
    ensures c in CollectedFrom(pred, dist, u, k, path)
    decreases i - k
  {
    if k < i {
      CollectedFromHas(pred, dist, u, k + 1, i, path, c);
    }
  }

  /** A path collected from `v` after `q` begins with `q`; it is `q` itself
      when `v` is the empty string, and continues with `v` otherwise. */
  lemma {:induction false} CollectedPrefix(pred: map<string, seq<string>>, dist: map<string, nat>, v: string,
                                           q: seq<string>, c: seq<string>)
    requires Ranked(pred, dist) && c in Collected(pred, dist, v, q)
    ensures |c| >= |q| && c[..|q|] == q
    ensures v == "" ==> c == q
    ensures v != "" ==> |c| > |q| && c[|q|] == v
    decreases Rank(dist, v)
  {
    if v != "" {
      CollectedFromMember(pred, dist, v, 0, q, c);
      var i :| 0 <= i < |pred[v]| && c in Collected(pred, dist, pred[v][i], q + [v]);
      assert pred[v][i] in pred[v];
      CollectedPrefix(pred, dist, pred[v][i], q + [v], c);
      assert c[..|q| + 1][..|q|] == c[..|q|];
    }
  }

  /** With no predecessor list naming a word twice, `collect_paths` never
      collects a path twice. */
  lemma {:induction false} CollectedDistinct(pred: map<string, seq<string>>, dist: map<string, nat>, u: string,
                                             path: seq<string>)
    requires Ranked(pred, dist) && Unrepeated(pred)
    ensures Distinct(Collected(pred, dist, u, path))
    decreases Rank(dist, u), 1, 0
  {
    if u != "" && u in pred {
      CollectedFromDistinct(pred, dist, u, 0, path);
    }
  }

  /** The paths through the `k`-th predecessor of `u` and the later ones
      are all different: those through different predecessors differ just
      after `path + [u]`. */
  lemma {:induction false} CollectedFromDistinct(pred: map<string, seq<string>>, dist: map<string, nat>, u: string,
                                                 k: nat, path: seq<string>)
    requires Ranked(pred, dist) && Unrepeated(pred) && u in pred && k <= |pred[u]|
    ensures Distinct(CollectedFrom(pred, dist, u, k, path))
    decreases Rank(dist, u), 0, |pred[u]| - k
  {
    if k < |pred[u]| {
      var v := pred[u][k];
      assert v in pred[u];
      var a := Collected(pred, dist, v, path + [u]);
      var b := CollectedFrom(pred, dist, u, k + 1, path);
      CollectedDistinct(pred, dist, v, path + [u]);
      CollectedFromDistinct(pred, dist, u, k + 1, path);
      forall c | c in a
        ensures c !in b
      {
        if c in b {
          CollectedFromMember(pred, dist, u, k + 1, path, c);
          var i :| k + 1 <= i < |pred[u]| && c in Collected(pred, dist, pred[u][i], path + [u]);
          assert pred[u][i] != v;
          CollectedPrefix(pred, dist, v, path + [u], c);
          CollectedPrefix(pred, dist, pred[u][i], path + [u], c);
        }
      }
      DistinctAppend(a, b);
    }
  }

  lemma SplitAt<T>(s: seq<T>, n: nat)
    requires n < |s|
    ensures s[n..] == [s[n]] + s[n + 1..]
  {
  }

  /** Read backwards, every path collected from a found word `u` is a
      ladder from the start to `u` of `u`'s distance plus one words. */
  lemma {:induction false} CollectedSound(words: set<string>, src: string, dist: map<string, nat>,
                                          pred: map<string, seq<string>>, u: string, path: seq<string>, c: seq<string>)
    requires Chained(words, src, dist, pred) && "" !in words && u in dist
    requires Ranked(pred, dist) && c in Collected(pred, dist, u, path)
    ensures |c| == |path| + dist[u] + 1 && c[..|path|] == path
    ensures Ladder(words, src, u, Reverse(c[|path|..]))
    decreases dist[u]
  {
    CollectedFromMember(pred, dist, u, 0, path, c);
    var i :| 0 <= i < |pred[u]| && c in Collected(pred, dist, pred[u][i], path + [u]);
    var v := pred[u][i];
    assert v in pred[u];
    if u == src {
      assert c == path + [src];
      LadderStart(words, src, path);
    } else {
      CollectedSound(words, src, dist, pred, v, path + [u], c);
      LadderBack(words, src, v, u, path, c);
    }
  }

  /** After `path`, the path `path + [src]` is the one-word ladder. */
  lemma LadderStart(words: set<string>, src: string, path: seq<string>)
    requires src in words
    ensures (path + [src])[..|path|] == path && Ladder(words, src, src, Reverse((path + [src])[|path|..]))
  {
    assert (path + [src])[|path|..] == [src];
    assert Reverse([src]) == [src];
  }

  /** A path that begins with `path + [u]` and continues with a reversed
      ladder to `v`, adjacent to `u`, continues after `path` with a reversed
      ladder to `u`. */
  lemma LadderBack(words: set<string>, src: string, v: string, u: string, path: seq<string>, c: seq<string>)
    requires |c| > |path| && c[..|path| + 1] == path + [u]
    requires Ladder(words, src, v, Reverse(c[|path| + 1..])) && u in words && Adjacent(v, u)
    ensures c[..|path|] == path && Ladder(words, src, u, Reverse(c[|path|..]))
  {
    var n := |path|;
    var r' := c[n + 1..];
    assert c[..n + 1][n] == u && c[..n + 1][..n] == path;
    assert c[..n] == c[..n + 1][..n];
    SplitAt(c, n);
    assert Reverse([u] + r') == Reverse(r') + [u] by {
      assert ([u] + r')[1..] == r';
    }
    LadderExtend(words, src, v, Reverse(r'), u);
  }

  /** Read backwards, every shortest ladder to a found word `u` is among the
      paths collected from `u`. */
  lemma {:induction false} CollectedComplete(words: set<string>, src: string, dist: map<string, nat>,
                                             pred: map<string, seq<string>>, u: string, path: seq<string>, p: seq<string>)
    requires Searched(words, src, dist, pred) && "" !in words && Ranked(pred, dist)
    requires Ladder(words, src, u, p) && u in dist && |p| == dist[u] + 1
    ensures path + Reverse(p) in Collected(pred, dist, u, path)
    decreases |p|
  {
    if |p| == 1 {
      assert u == src && p == [src];
      assert Reverse(p) == [src];
      assert pred[src][0] == "";
      CollectedFromHas(pred, dist, src, 0, 0, path, path + [src]);
    } else {
      var v := p[|p| - 2];
      var q := p[..|p| - 1];
      LadderPrefix(words, src, u, p);
      LadderBound(words, src, dist, pred, v, q);
      assert dist[v] + 1 == dist[u];
      assert v in pred[u];
      var i :| 0 <= i < |pred[u]| && pred[u][i] == v;
      CollectedComplete(words, src, dist, pred, v, path + [u], q);
      assert p == q + [u];
      ReverseSnoc(q, u);
      assert path + Reverse(p) == (path + [u]) + Reverse(q);
      CollectedFromHas(pred, dist, u, 0, i, path, path + Reverse(p));
    }
  }

  /** `<` on `std::vector<std::string>`: lexicographic over `<` on strings. */
  predicate LadderLess(a: seq<string>, b: seq<string>) {
    LexLess(StringLess, a, b)
  }

  lemma LadderOrder()
    ensures StrictTotalOrder(LadderLess)
  {
    StringOrder();
    forall a: seq<string> ensures !LadderLess(a, a) {
      LexIrreflexive(StringLess, a);
    }
    forall a: seq<string>, b: seq<string>, c: seq<string> | LadderLess(a, b) && LadderLess(b, c)
      ensures LadderLess(a, c)
    {
      LexTransitive(StringLess, a, b, c);
    }
    forall a: seq<string>, b: seq<string> ensures a == b || LadderLess(a, b) || LadderLess(b, a) {
      LexTotal(StringLess, a, b);
    }
  }

  /** The ladders `generate` returns for a search that reached `dest`: the
      collected paths, each reversed; each shortest ladder is among them
      exactly once. */
  lemma CollectedLadders(words: set<string>, src: string, dist: map<string, nat>,
                         pred: map<string, seq<string>>, dest: string, rs: seq<seq<string>>)
    requires Searched(words, src, dist, pred) && Unrepeated(pred) && "" !in words && dest in dist
    requires |rs| == |Collected(pred, dist, dest, [])|
    requires forall i :: 0 <= i < |rs| ==> rs[i] == Reverse(Collected(pred, dist, dest, [])[i])
    ensures forall p :: p in rs <==> Shortest(words, src, dest, p)
    ensures Distinct(rs)
  {
    SearchedRanked(words, src, dist, pred);
    var cs := Collected(pred, dist, dest, []);
    CollectedDistinct(pred, dist, dest, []);
    forall i, j | 0 <= i < j < |rs|
      ensures rs[i] != rs[j]
    {
      ReverseTwice(cs[i]);
      ReverseTwice(cs[j]);
    }
    forall p
      ensures p in rs <==> Shortest(words, src, dest, p)
    {
      if p in rs {
        var i :| 0 <= i < |rs| && rs[i] == p;
        assert cs[i] in cs;
        CollectedSound(words, src, dist, pred, dest, [], cs[i]);
        assert cs[i][0..] == cs[i];
        SearchedShortest(words, src, dist, pred, dest, p);
      }
      if Shortest(words, src, dest, p) {
        SearchedShortest(words, src, dist, pred, dest, p);
        CollectedComplete(words, src, dist, pred, dest, [], p);
        assert [] + Reverse(p) == Reverse(p);
        var i :| 0 <= i < |cs| && cs[i] == Reverse(p);
        ReverseTwice(p);
        assert rs[i] == p;
      }
    }
  }

  /** `word_ladder::generate`: every shortest ladder from `from` to `to`
      through the lexicon words of their length, each once, in ascending order; none
      when the two differ in length, either is missing from the lexicon, or
      they are the same word. */
  method Generate(from: string, to: string, lexicon: set<string>) returns (paths: seq<seq<string>>)
    ensures |from| != |to| || from !in lexicon || to !in lexicon || from == to ==> paths == []
    ensures forall p :: p in paths <==>
      |from| == |to| && from in lexicon && to in lexicon && from != to && Shortest(Words(lexicon, |from|), from, to, p)
    ensures Ascending(LadderLess, paths)
  {
    paths := [];
    if |from| != |to| {
      return;
    }
    if from !in lexicon || to !in lexicon {
      return;
    }
    if from == to {
      return;
    }
    var srcWordLen := |from|;
    var lenLookup := LexiconWordBags(srcWordLen, lexicon);
    ghost var words := Words(lexicon, srcWordLen);
    assert from in words;
    var found, predecessor, distance := Bfs(from, to, lenLookup, words);
    if found {
      assert "" !in words;
      SearchedRanked(words, from, distance, predecessor);
      paths := CollectPaths(paths, [], predecessor, to, distance);
      ghost var collected := paths;
      for i := 0 to |paths|
        invariant |paths| == |collected|
        invariant forall k :: 0 <= k < i ==> paths[k] == Reverse(collected[k])
        invariant forall k :: i <= k < |paths| ==> paths[k] == collected[k]
      {
        paths := paths[i := Reverse(paths[i])];
      }
      CollectedLadders(words, from, distance, predecessor, to, paths);
      LadderOrder();
      ghost var reversed := paths;
      paths := Sort(LadderLess, paths);
      SortDistinct(LadderLess, reversed);
      forall p
        ensures p in paths <==> p in reversed
      {
        assert p in paths <==> p in multiset(paths);
        assert p in reversed <==> p in multiset(reversed);
      }
    } else {
      forall p | Shortest(words, from, to, p)
        ensures false
      {
        LadderBound(words, from, distance, predecessor, to, p);
      }
    }
  }
}

