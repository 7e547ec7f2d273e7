/**
 * Ordered containers as the C++ standard library provides them: a `std::set`
 * is a strictly ascending sequence under its comparator, a `std::map` a
 * sequence of entries whose keys are strictly ascending. The lookups,
 * insertions and erasures of those containers are library calls in the
 * modelled code, so they are functions here; the loops of the modelled code
 * are methods in the other modules.
 */
module Ordered {
  import opened Wrappers

  /** What a comparator of an ordered container must be, when its
      equivalence is equality: irreflexive, transitive and total. */
  ghost predicate StrictTotalOrder<T(!new)>(lt: (T, T) -> bool) {
    && (forall a :: !lt(a, a))
    && (forall a, b, c :: lt(a, b) && lt(b, c) ==> lt(a, c))
    && (forall a, b :: a == b || lt(a, b) || lt(b, a))
  }

  /** `s` is strictly ascending under `lt`: the iteration order of a `std::set`. */
  predicate Ascending<T>(lt: (T, T) -> bool, s: seq<T>) {
    forall i, j :: 0 <= i < j < |s| ==> lt(s[i], s[j])
  }

  /** The number of elements below `x`: where `lower_bound(x)` points. */
  function Position<T(!new)>(lt: (T, T) -> bool, s: seq<T>, x: T): (i: nat)
    requires StrictTotalOrder(lt) && Ascending(lt, s)
    ensures i <= |s|
    ensures forall k :: 0 <= k < i ==> lt(s[k], x)
    ensures forall k :: i <= k < |s| ==> !lt(s[k], x)
    ensures x in s <==> i < |s| && s[i] == x
  {
    if |s| == 0 || !lt(s[0], x) then 0 else 1 + Position(lt, s[1..], x)
  }

  /** `std::set::insert`: adds `x` unless an equal element is present. */
  function Insert<T(==,!new)>(lt: (T, T) -> bool, s: seq<T>, x: T): (r: seq<T>)
    requires StrictTotalOrder(lt) && Ascending(lt, s)
    ensures Ascending(lt, r)
    ensures forall y :: y in r <==> y in s || y == x
    ensures |r| == if x in s then |s| else |s| + 1
  {
    var i := Position(lt, s, x);
    if i < |s| && s[i] == x then s else s[..i] + [x] + s[i..]
  }

  /** `std::set::erase` by value: removes `x` if present. */
  function Remove<T(==,!new)>(lt: (T, T) -> bool, s: seq<T>, x: T): (r: seq<T>)
    requires StrictTotalOrder(lt) && Ascending(lt, s)
    ensures Ascending(lt, r)
    ensures forall y :: y in r <==> y in s && y != x
    ensures |r| == if x in s then |s| - 1 else |s|
  {
    var i := Position(lt, s, x);
    if i < |s| && s[i] == x then s[..i] + s[i + 1..] else s
  }

  /** An ascending sequence is determined by its elements: two ordered
      containers holding the same elements iterate identically. */
  lemma {:induction false} AscendingUnique<T(!new)>(lt: (T, T) -> bool, s: seq<T>, t: seq<T>)
    requires StrictTotalOrder(lt) && Ascending(lt, s) && Ascending(lt, t)
    requires forall y :: y in s <==> y in t
    ensures s == t
  {
    if s == [] || t == [] {
      HasHead(s);
      HasHead(t);
    } else {
      HeadIsLeast(lt, t, s[0]);
      HeadIsLeast(lt, s, t[0]);
      assert s == [s[0]] + s[1..] && t == [t[0]] + t[1..];
      forall y ensures y in s[1..] <==> y in t[1..] {
        if y in s[1..] {
          var j :| 1 <= j < |s| && s[j] == y;
          assert lt(s[0], y) && y in s;
        }
        if y in t[1..] {
          var j :| 1 <= j < |t| && t[j] == y;
          assert lt(t[0], y) && y in t;
        }
      }
      AscendingUnique(lt, s[1..], t[1..]);
      assert s == [s[0]] + s[1..] && t == [t[0]] + t[1..];
    }
  }

  lemma HasHead<T>(s: seq<T>)
    ensures s != [] ==> s[0] in s
  {
  }

  /** The first element of an ascending sequence is its least. */
  lemma HeadIsLeast<T(!new)>(lt: (T, T) -> bool, s: seq<T>, x: T)
    requires StrictTotalOrder(lt) && Ascending(lt, s) && x in s
    ensures s[0] == x || lt(s[0], x)
  {
    var k :| 0 <= k < |s| && s[k] == x;
    if k != 0 {
      assert lt(s[0], s[k]);
    }
  }

  /** An entry of a `std::map`. */
  datatype Entry<K, V> = Entry(key: K, value: V)

  /** The keys of a map, in iteration order. */
  function Keys<K, V>(m: seq<Entry<K, V>>): (ks: seq<K>)
    ensures |ks| == |m|
    ensures forall i :: 0 <= i < |m| ==> ks[i] == m[i].key
  {
    seq(|m|, i requires 0 <= i < |m| => m[i].key)
  }

  /** `std::map::find`: the value stored under `k`, if any. */
  function Lookup<K(==,!new), V>(lt: (K, K) -> bool, m: seq<Entry<K, V>>, k: K): (r: Option<V>)
    requires StrictTotalOrder(lt) && Ascending(lt, Keys(m))
    ensures r.Some? <==> k in Keys(m)
    ensures r.Some? ==> exists i :: 0 <= i < |m| && m[i] == Entry(k, r.value)
    ensures forall i :: 0 <= i < |m| && m[i].key == k ==> r == Some(m[i].value)
  {
    var i := Position(lt, Keys(m), k);
    if i < |m| && m[i].key == k then Some(m[i].value) else None
  }

  /** `m[k] = v`: overwrites the value under `k`, or inserts the entry. */
  function Put<K(==,!new), V>(lt: (K, K) -> bool, m: seq<Entry<K, V>>, k: K, v: V): (r: seq<Entry<K, V>>)
    requires StrictTotalOrder(lt) && Ascending(lt, Keys(m))
    ensures Ascending(lt, Keys(r))
    ensures Lookup(lt, r, k) == Some(v)
    ensures forall k' :: k' != k ==> Lookup(lt, r, k') == Lookup(lt, m, k')
    ensures forall k' :: k' in Keys(r) <==> k' == k || k' in Keys(m)
    ensures |r| == if k in Keys(m) then |m| else |m| + 1
  {
    var i := Position(lt, Keys(m), k);
    if i < |m| && m[i].key == k then
      UpdateAtKeys(lt, m, i, v);
      m[i := Entry(k, v)]
    else
      InsertAtKeys(lt, m, i, k, v);
      m[..i] + [Entry(k, v)] + m[i..]
  }

  /** Where the elements of `s` sit once `x` is inserted at index `i`. */
  lemma Shifted<T>(s: seq<T>, i: nat, x: T)
    requires i <= |s|
    ensures forall j :: 0 <= j < |s| ==> (s[..i] + [x] + s[i..])[if j < i then j else j + 1] == s[j]
  {
  }

  /** The keys after a new entry is inserted where `Position` puts its key. */
  lemma InsertedKeys<K(!new), V>(lt: (K, K) -> bool, m: seq<Entry<K, V>>, i: nat, k: K, v: V)
    requires StrictTotalOrder(lt) && Ascending(lt, Keys(m))
    requires i == Position(lt, Keys(m), k) && k !in Keys(m)
    ensures Keys(m[..i] + [Entry(k, v)] + m[i..]) == Insert(lt, Keys(m), k)
  {
    assert Keys(m[..i] + [Entry(k, v)] + m[i..]) == Keys(m)[..i] + [k] + Keys(m)[i..];
    assert i < |m| ==> Keys(m)[i] != k;
  }

  /** Inserting a new entry where `Position` puts its key keeps the keys
      ascending and every other entry. */
  lemma InsertAtKeys<K(!new), V>(lt: (K, K) -> bool, m: seq<Entry<K, V>>, i: nat, k: K, v: V)
    requires StrictTotalOrder(lt) && Ascending(lt, Keys(m))
    requires i == Position(lt, Keys(m), k) && k !in Keys(m)
    ensures Keys(m[..i] + [Entry(k, v)] + m[i..]) == Insert(lt, Keys(m), k)
    ensures Lookup(lt, m[..i] + [Entry(k, v)] + m[i..], k) == Some(v)
    ensures forall k' :: k' != k ==> Lookup(lt, m[..i] + [Entry(k, v)] + m[i..], k') == Lookup(lt, m, k')
  {
    var r := m[..i] + [Entry(k, v)] + m[i..];
    InsertedKeys(lt, m, i, k, v);
    assert r[i] == Entry(k, v);
    Shifted(m, i, Entry(k, v));
    forall k' | k' != k ensures Lookup(lt, r, k') == Lookup(lt, m, k') {
      if k' in Keys(m) {
        var j :| 0 <= j < |m| && Keys(m)[j] == k';
        assert r[if j < i then j else j + 1] == m[j];
      } else {
        assert k' !in Keys(r);
      }
    }
  }

  /** `std::map::erase` by key: removes the entry under `k`, if any. */
  function EraseKey<K(==,!new), V>(lt: (K, K) -> bool, m: seq<Entry<K, V>>, k: K): (r: seq<Entry<K, V>>)
    requires StrictTotalOrder(lt) && Ascending(lt, Keys(m))
    ensures Ascending(lt, Keys(r))
    ensures Lookup(lt, r, k) == None
    ensures forall k' :: k' != k ==> Lookup(lt, r, k') == Lookup(lt, m, k')
    ensures |r| == if k in Keys(m) then |m| - 1 else |m|
  {
    var i := Position(lt, Keys(m), k);
    if i < |m| && m[i].key == k then
      EraseAtKeys(lt, m, i);
      m[..i] + m[i + 1..]
    else m
  }

  /** Erasing the entry at index `i` keeps the keys ascending and every other entry. */
  lemma EraseAtKeys<K(!new), V>(lt: (K, K) -> bool, m: seq<Entry<K, V>>, i: nat)
    requires StrictTotalOrder(lt) && Ascending(lt, Keys(m)) && i < |m|
    ensures Ascending(lt, Keys(m[..i] + m[i + 1..]))
    ensures Lookup(lt, m[..i] + m[i + 1..], m[i].key) == None
    ensures forall k' :: k' != m[i].key ==> Lookup(lt, m[..i] + m[i + 1..], k') == Lookup(lt, m, k')
  {
    var r := m[..i] + m[i + 1..];
    assert forall j :: 0 <= j < |r| ==> r[j] == m[if j < i then j else j + 1];
    assert Ascending(lt, Keys(r)) by {
      forall a, b | 0 <= a < b < |r| ensures lt(Keys(r)[a], Keys(r)[b]) {
        assert Keys(m)[if a < i then a else a + 1] == r[a].key;
        assert Keys(m)[if b < i then b else b + 1] == r[b].key;
      }
    }
    assert forall j :: 0 <= j < |m| && j != i ==> m[j].key != m[i].key by {
      forall j | 0 <= j < |m| && j != i ensures m[j].key != m[i].key {
        assert Keys(m)[j] == m[j].key && Keys(m)[i] == m[i].key;
        assert if j < i then lt(Keys(m)[j], Keys(m)[i]) else lt(Keys(m)[i], Keys(m)[j]);
      }
    }
    forall k' | k' != m[i].key ensures Lookup(lt, r, k') == Lookup(lt, m, k') {
      if k' in Keys(m) {
        var j :| 0 <= j < |m| && Keys(m)[j] == k';
        assert r[if j < i then j else j - 1] == m[j];
      }
    }
  }

  /** Overwriting the value of the entry at index `i` keeps every key. */
  lemma UpdateAtKeys<K(!new), V>(lt: (K, K) -> bool, m: seq<Entry<K, V>>, i: nat, v: V)
    requires StrictTotalOrder(lt) && Ascending(lt, Keys(m)) && i < |m|
    ensures Keys(m[i := Entry(m[i].key, v)]) == Keys(m)
    ensures Lookup(lt, m[i := Entry(m[i].key, v)], m[i].key) == Some(v)
    ensures forall k' :: k' != m[i].key ==> Lookup(lt, m[i := Entry(m[i].key, v)], k') == Lookup(lt, m, k')
  {
    var r := m[i := Entry(m[i].key, v)];
    assert Keys(r) == Keys(m);
    assert Keys(m)[i] == m[i].key;
    forall k' | k' != m[i].key ensures Lookup(lt, r, k') == Lookup(lt, m, k') {
      if k' in Keys(m) {
        var j :| 0 <= j < |m| && Keys(m)[j] == k';
        assert r[j] == m[j];
      }
    }
  }

  /** `std::set::erase` at a position: the rest stays ordered, and exactly
      the element at that position is gone. */
  lemma EraseAtSet<T(!new)>(lt: (T, T) -> bool, s: seq<T>, j: nat)
    requires StrictTotalOrder(lt) && Ascending(lt, s) && j < |s|
    ensures Ascending(lt, s[..j] + s[j + 1..])
    ensures forall y :: y in s[..j] + s[j + 1..] <==> y in s && y != s[j]
  {
    var r := s[..j] + s[j + 1..];
    assert forall k :: 0 <= k < |r| ==> r[k] == s[if k < j then k else k + 1];
    forall y | y in s && y != s[j] ensures y in r {
      var k :| 0 <= k < |s| && s[k] == y;
      assert r[if k < j then k else k - 1] == y;
    }
  }

  /** Lexicographic order on sequences, as `std::string` and `std::vector`
      compare with `<`: the first differing element decides, and a proper
      prefix comes first. */
  predicate LexLess<T(==)>(lt: (T, T) -> bool, a: seq<T>, b: seq<T>) {
    |b| > 0 && (|a| == 0 || lt(a[0], b[0]) || (a[0] == b[0] && LexLess(lt, a[1..], b[1..])))
  }

  lemma {:induction false} LexIrreflexive<T(!new)>(lt: (T, T) -> bool, a: seq<T>)
    requires StrictTotalOrder(lt)
    ensures !LexLess(lt, a, a)
  {
    if |a| > 0 {
      LexIrreflexive(lt, a[1..]);
    }
  }

  lemma {:induction false} LexTransitive<T(!new)>(lt: (T, T) -> bool, a: seq<T>, b: seq<T>, c: seq<T>)
    requires StrictTotalOrder(lt) && LexLess(lt, a, b) && LexLess(lt, b, c)
    ensures LexLess(lt, a, c)
  {
    if |a| > 0 && a[0] == b[0] && b[0] == c[0] {
      LexTransitive(lt, a[1..], b[1..], c[1..]);
    }
  }

  lemma {:induction false} LexTotal<T(!new)>(lt: (T, T) -> bool, a: seq<T>, b: seq<T>)
    requires StrictTotalOrder(lt)
    ensures a == b || LexLess(lt, a, b) || LexLess(lt, b, a)
  {
    if |a| > 0 && |b| > 0 && a[0] == b[0] {
      LexTotal(lt, a[1..], b[1..]);
      assert a == [a[0]] + a[1..] && b == [b[0]] + b[1..];
    }
  }

  /** The lexicographic extension of a strict total order is one. */
  lemma LexOrder<T(!new)>(lt: (T, T) -> bool)
    requires StrictTotalOrder(lt)
    ensures StrictTotalOrder((a: seq<T>, b: seq<T>) => LexLess(lt, a, b))
  {
    forall a: seq<T> ensures !LexLess(lt, a, a) {
      LexIrreflexive(lt, a);
    }
    forall a: seq<T>, b: seq<T>, c: seq<T> | LexLess(lt, a, b) && LexLess(lt, b, c)
      ensures LexLess(lt, a, c)
    {
      LexTransitive(lt, a, b, c);
    }
    forall a: seq<T>, b: seq<T> ensures a == b || LexLess(lt, a, b) || LexLess(lt, b, a) {
      LexTotal(lt, a, b);
    }
  }

  /** `char` as `std::char_traits<char>` compares it. */
  predicate CharLess(a: char, b: char) {
    a < b
  }

  /** `<` on `std::string`: lexicographic. */
  predicate StringLess(a: string, b: string) {
    LexLess(CharLess, a, b)
  }

  lemma StringOrder()
    ensures StrictTotalOrder(StringLess)
  {
    forall a: string ensures !StringLess(a, a) {
      LexIrreflexive(CharLess, a);
    }
    forall a: string, b: string, c: string | StringLess(a, b) && StringLess(b, c)
      ensures StringLess(a, c)
    {
      LexTransitive(CharLess, a, b, c);
    }
    forall a: string, b: string ensures a == b || StringLess(a, b) || StringLess(b, a) {
      LexTotal(CharLess, a, b);
    }
  }

  /** `s` is in ascending order under `lt`, equal elements side by side:
      what `std::sort` leaves. */
  predicate Sorted<T>(lt: (T, T) -> bool, s: seq<T>) {
    forall i, j :: 0 <= i < j < |s| ==> !lt(s[j], s[i])
  }

  /** `x` placed before the first element of the sorted `s` not below it. */
  function InsertSorted<T(!new)>(lt: (T, T) -> bool, s: seq<T>, x: T): (r: seq<T>)
    requires StrictTotalOrder(lt) && Sorted(lt, s)
    ensures Sorted(lt, r) && multiset(r) == multiset(s) + multiset{x}
  {
    if s == [] then [x]
    else if lt(s[0], x) then
      var r' := InsertSorted(lt, s[1..], x);
      InsertAfter(lt, s, x, r');
      [s[0]] + r'
    else
      InsertBefore(lt, s, x);
      [x] + s
  }

  /** A sorted sequence stays sorted under a new head no element is below. */
  lemma SortedCons<T(!new)>(lt: (T, T) -> bool, h: T, t: seq<T>)
    requires Sorted(lt, t) && forall e :: e in multiset(t) ==> !lt(e, h)
    ensures Sorted(lt, [h] + t)
  {
    forall i, j | 0 <= i < j < |[h] + t|
      ensures !lt(([h] + t)[j], ([h] + t)[i])
    {
      if i == 0 {
        assert ([h] + t)[j] == t[j - 1] && t[j - 1] in multiset(t);
      } else {
        assert ([h] + t)[j] == t[j - 1] && ([h] + t)[i] == t[i - 1];
      }
    }
  }

  lemma InsertAfter<T(!new)>(lt: (T, T) -> bool, s: seq<T>, x: T, r': seq<T>)
    requires StrictTotalOrder(lt) && Sorted(lt, s) && s != [] && lt(s[0], x)
    requires Sorted(lt, r') && multiset(r') == multiset(s[1..]) + multiset{x}
    ensures Sorted(lt, [s[0]] + r') && multiset([s[0]] + r') == multiset(s) + multiset{x}
  {
    assert s == [s[0]] + s[1..];
    forall e | e in multiset(r')
      ensures !lt(e, s[0])
    {
      if e != x {
        assert e in multiset(s[1..]);
        var k :| 0 <= k < |s[1..]| && s[1..][k] == e;
        assert s[k + 1] == e;
      }
    }
    SortedCons(lt, s[0], r');
  }

  lemma InsertBefore<T(!new)>(lt: (T, T) -> bool, s: seq<T>, x: T)
    requires StrictTotalOrder(lt) && Sorted(lt, s) && s != [] && !lt(s[0], x)
    ensures Sorted(lt, [x] + s)
  {
    forall e | e in multiset(s)
      ensures !lt(e, x)
    {
      var k :| 0 <= k < |s| && s[k] == e;
      assert k == 0 || !lt(s[k], s[0]);
    }
    SortedCons(lt, x, s);
  }

  /** `std::sort` on a whole sequence, as a sort by insertion. */
  function Sort<T(!new)>(lt: (T, T) -> bool, s: seq<T>): (r: seq<T>)
    requires StrictTotalOrder(lt)
    ensures Sorted(lt, r) && multiset(r) == multiset(s)
  {
    if s == [] then []
    else
      assert s == s[..|s| - 1] + [s[|s| - 1]];
      InsertSorted(lt, Sort(lt, s[..|s| - 1]), s[|s| - 1])
  }

  lemma SortedTail<T>(lt: (T, T) -> bool, s: seq<T>)
    requires Sorted(lt, s) && s != []
    ensures Sorted(lt, s[1..]) && multiset(s[1..]) == multiset(s) - multiset{s[0]}
  {
    assert s == [s[0]] + s[1..];
    forall i, j | 0 <= i < j < |s[1..]| ensures !lt(s[1..][j], s[1..][i]) {
      assert s[1..][j] == s[j + 1] && s[1..][i] == s[i + 1];
    }
  }

  /** Under a strict total order there is one sorted arrangement of a
      multiset, so any sorting algorithm gives the result of `Sort`. */
  lemma {:induction false} SortedUnique<T(!new)>(lt: (T, T) -> bool, a: seq<T>, b: seq<T>)
    requires StrictTotalOrder(lt) && Sorted(lt, a) && Sorted(lt, b) && multiset(a) == multiset(b)
    ensures a == b
  {
    if a != [] {
      assert |b| == |a| by {
        assert |multiset(a)| == |a| && |multiset(b)| == |b|;
      }
      assert a[0] in multiset(b) && b[0] in multiset(a);
      var j :| 0 <= j < |b| && b[j] == a[0];
      var i :| 0 <= i < |a| && a[i] == b[0];
      assert a[0] == b[0] by {
        assert !lt(b[j], b[0]) || j == 0;
        assert !lt(a[i], a[0]) || i == 0;
      }
      SortedTail(lt, a);
      SortedTail(lt, b);
      SortedUnique(lt, a[1..], b[1..]);
    }
  }

  /** No element occurs twice in `s`. */
  predicate Distinct<T(==)>(s: seq<T>) {
    forall i, j :: 0 <= i < j < |s| ==> s[i] != s[j]
  }

  /** Two sequences without repeats and without common elements concatenate
      to one without repeats. */
  lemma DistinctAppend<T>(a: seq<T>, b: seq<T>)
    requires Distinct(a) && Distinct(b) && forall x :: x in a ==> x !in b
    ensures Distinct(a + b)
  {
    forall i, j | 0 <= i < j < |a + b|
      ensures (a + b)[i] != (a + b)[j]
    {
      if j >= |a| && i < |a| {
        assert (a + b)[i] in a && (a + b)[j] == b[j - |a|];
      }
    }
  }

  /** A sequence is without repeats iff its multiset counts every element at most once. */
  lemma {:induction false} DistinctCounts<T>(s: seq<T>)
    ensures Distinct(s) <==> forall x :: multiset(s)[x] <= 1
  {
    if s != [] {
      var t := s[1..];
      assert s == [s[0]] + t;
      DistinctCounts(t);
      assert Distinct(s) <==> s[0] !in t && Distinct(t) by {
        if Distinct(s) {
          forall i, j | 0 <= i < j < |t|
            ensures t[i] != t[j]
          {
            assert t[i] == s[i + 1] && t[j] == s[j + 1];
          }
          forall i | 0 <= i < |t|
            ensures t[i] != s[0]
          {
            assert t[i] == s[i + 1];
          }
        }
        if s[0] !in t && Distinct(t) {
          forall i, j | 0 <= i < j < |s|
            ensures s[i] != s[j]
          {
            assert s[j] == t[j - 1];
            if i > 0 {
              assert s[i] == t[i - 1];
            }
          }
        }
      }
      assert multiset(s) == multiset{s[0]} + multiset(t);
      if forall x :: multiset(s)[x] <= 1 {
        assert multiset(s)[s[0]] == 1 + multiset(t)[s[0]];
        forall x
          ensures multiset(t)[x] <= 1
        {
          assert multiset(t)[x] <= multiset(s)[x];
        }
      }
    }
  }

  /** A sorted sequence without repeats is strictly ascending. */
  lemma SortedDistinct<T(!new)>(lt: (T, T) -> bool, s: seq<T>)
    requires StrictTotalOrder(lt) && Sorted(lt, s) && Distinct(s)
    ensures Ascending(lt, s)
  {
  }

  /** Sorting a sequence without repeats gives a strictly ascending one. */
  lemma SortDistinct<T(!new)>(lt: (T, T) -> bool, s: seq<T>)
    requires StrictTotalOrder(lt) && Distinct(s)
    ensures Ascending(lt, Sort(lt, s))
  {
    DistinctCounts(s);
    DistinctCounts(Sort(lt, s));
    SortedDistinct(lt, Sort(lt, s));
  }
}
