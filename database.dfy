/**
 * `q2::database`: a vector of records, appended to, filtered in place by a
 * query, and selected from into a new database.
 */
module Databases {
  import opened Records
  import opened Queries

  /** The records of `rs` that `q` matches, in their order. */
  function Filter(q: Query, rs: seq<RecordValue>): (f: seq<RecordValue>)
    ensures |f| <= |rs|
  {
    if rs == [] then []
    else (if Matches(q, rs[0]) then [rs[0]] else []) + Filter(q, rs[1..])
  }

  /** A record is kept by the filter iff it is one of the records and `q`
      matches it. */
  lemma {:induction false} FilterMembers(q: Query, rs: seq<RecordValue>, x: Attrs)
    ensures x in Filter(q, rs) <==> x in rs && Matches(q, x)
  {
    if rs != [] {
      FilterMembers(q, rs[1..], x);
      assert x in rs <==> x == rs[0] || x in rs[1..];
    }
  }

  /** One more record at the end: filtering it appends it when `q` matches. */
  lemma FilterSnoc(q: Query, rs: seq<RecordValue>, i: nat)
    requires i < |rs|
    ensures Filter(q, rs[..i + 1]) == Filter(q, rs[..i]) + if Matches(q, rs[i]) then [rs[i]] else []
  {
    assert rs[..i + 1] == rs[..i] + [rs[i]];
    FilterAppend(q, rs[..i], [rs[i]]);
    assert [rs[i]][1..] == [];
  }

  /** Filtering a concatenation filters each part. */
  lemma {:induction false} FilterAppend(q: Query, a: seq<RecordValue>, b: seq<RecordValue>)
    ensures Filter(q, a + b) == Filter(q, a) + Filter(q, b)
  {
    if a != [] {
      assert (a + b)[0] == a[0] && (a + b)[1..] == a[1..] + b;
      FilterAppend(q, a[1..], b);
      var h := if Matches(q, a[0]) then [a[0]] else [];
      assert Filter(q, a + b) == h + Filter(q, a[1..] + b);
      assert h + (Filter(q, a[1..]) + Filter(q, b)) == (h + Filter(q, a[1..])) + Filter(q, b);
    } else {
      assert a + b == b;
    }
  }

  /** Every record is either selected by `q` or kept by deleting what `q`
      matches: the two filters split the records between them. */
  lemma {:induction false} FilterSplit(q: Query, rs: seq<RecordValue>)
    ensures |Filter(q, rs)| + |Filter(Not(q), rs)| == |rs|
  {
    if rs != [] {
      FilterSplit(q, rs[1..]);
      var r := rs[0];
      assert Matches(Not(q), r) == !Matches(q, r);
      assert |Filter(q, rs)| == (if Matches(q, r) then 1 else 0) + |Filter(q, rs[1..])|;
      assert |Filter(Not(q), rs)| == (if Matches(q, r) then 0 else 1) + |Filter(Not(q), rs[1..])|;
    }
  }

  /** The text `operator<<` writes for a database: each record's text, in
      storage order. */
  function Printed(rs: seq<RecordValue>): string {
    if rs == [] then [] else Serialised(rs[0]) + Printed(rs[1..])
  }

  /** The printed form of a concatenation is the concatenation of the
      printed forms, so `insert` appends one record's text to it. */
  lemma {:induction false} PrintedAppend(a: seq<RecordValue>, b: seq<RecordValue>)
    ensures Printed(a + b) == Printed(a) + Printed(b)
  {
    if a != [] {
      assert (a + b)[0] == a[0] && (a + b)[1..] == a[1..] + b;
      PrintedAppend(a[1..], b);
    } else {
      assert a + b == b;
    }
  }

  class Database {
    var records: seq<RecordValue>

    /** `database()`: no records. */
    constructor ()
      ensures records == []
    {
      records := [];
    }

    /** `insert`: `push_back`. */
    method Insert(r: RecordValue)
      modifies this
      ensures records == old(records) + [r]
      ensures Count() == old(Count()) + 1
    {
      records := records + [r];
    }

    /** `count`: the number of records, which every query splits into the
        records `select` copies and those `delete_matching` keeps. */
    function Count(): (c: nat)
      reads this
      ensures forall q :: c == |Filter(q, records)| + |Filter(Not(q), records)|
    {
      assert forall q :: |Filter(q, records)| + |Filter(Not(q), records)| == |records| by {
        forall q
          ensures |Filter(q, records)| + |Filter(Not(q), records)| == |records|
        {
          FilterSplit(q, records);
        }
      }
      |records|
    }

    /** `delete_matching`: `std::erase_if` with `q.matches`. The records `q`
        rejects stay, in their order, and the result is how many went. */
    method DeleteMatching(q: Query) returns (n: nat)
      modifies this
      ensures records == Filter(Not(q), old(records))
      ensures n == |Filter(q, old(records))|
      ensures Count() == old(Count()) - n
    {
      var kept: seq<RecordValue> := [];
      var i: nat := 0;
      n := 0;
      while i < |records|
        invariant i <= |records|
        invariant records == old(records)
        invariant kept == Filter(Not(q), records[..i])
        invariant n == |Filter(q, records[..i])|
      {
        FilterSnoc(Not(q), records, i);
        FilterSnoc(q, records, i);
        if Matches(q, records[i]) {
          n := n + 1;
        } else {
          kept := kept + [records[i]];
        }
        i := i + 1;
      }
      assert records[..i] == records;
      FilterSplit(q, records);
      records := kept;
    }

    /** `select`: a new database of the records `q` matches, in order; this
        one is left as it is. */
    method Select(q: Query) returns (d: Database)
      ensures fresh(d) && d.records == Filter(q, records)
    {
      d := new Database();
      var i: nat := 0;
      while i < |records|
        invariant i <= |records|
        invariant d.records == Filter(q, records[..i])
      {
        FilterSnoc(q, records, i);
        if Matches(q, records[i]) {
          d.Insert(records[i]);
        }
        i := i + 1;
      }
      assert records[..i] == records;
    }

    /** `operator<<`: every record's text, in storage order. */
    method Print() returns (out: string)
      ensures out == Printed(records)
    {
      out := [];
      var i := 0;
      while i < |records|
        invariant i <= |records| && out == Printed(records[..i])
      {
        assert records[..i + 1] == records[..i] + [records[i]];
        PrintedAppend(records[..i], [records[i]]);
        var text := Serialise(records[i]);
        out := out + text;
        i := i + 1;
      }
      assert records[..i] == records;
    }
  }
}
