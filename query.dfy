/**
 * `q2::query` and its subclasses: predicates over records. The class
 * hierarchy is a datatype here, and the virtual `matches` one function over
 * it.
 */
module Queries {
  import opened Ordered
  import opened Records

  datatype Query =
    | All                                    // the base `query`
    | Equals(attr: string, value: string)
    | LessThan(attr: string, value: string)
    | GreaterThan(attr: string, value: string)
    | StartsWith(attr: string, value: string)
    | And(left: Query, right: Query)
    | Or(left: Query, right: Query)
    | Not(operand: Query)

  /** The `matches` methods. A query on an attribute never matches a record
      without that attribute. */
  function Matches(q: Query, r: Attrs): (m: bool)
    requires WellKeyed(r)
    ensures (q.Equals? || q.LessThan? || q.GreaterThan? || q.StartsWith?) && !HasAttribute(r, q.attr) ==> !m
  {
    match q
    case All => true
    case Equals(a, v) => HasAttribute(r, a) && GetValue(r, a) == v
    case LessThan(a, v) => HasAttribute(r, a) && StringLess(GetValue(r, a), v)
    case GreaterThan(a, v) => HasAttribute(r, a) && StringLess(v, GetValue(r, a))
    case StartsWith(a, v) => HasAttribute(r, a) && v <= GetValue(r, a)
    case And(p, p') => Matches(p, r) && Matches(p', r)
    case Or(p, p') => Matches(p, r) || Matches(p', r)
    case Not(p) => !Matches(p, r)
  }

  /** The `clone` methods: a copy of the query tree, node by node, which
      matches exactly the records the original matches. */
  function Clone(q: Query): (c: Query)
    ensures forall r :: WellKeyed(r) ==> Matches(c, r) == Matches(q, r)
  {
    match q
    case All => All
    case Equals(a, v) => Equals(a, v)
    case LessThan(a, v) => LessThan(a, v)
    case GreaterThan(a, v) => GreaterThan(a, v)
    case StartsWith(a, v) => StartsWith(a, v)
    case And(p, p') => And(Clone(p), Clone(p'))
    case Or(p, p') => Or(Clone(p), Clone(p'))
    case Not(p) => Not(Clone(p))
  }

  /** The base query matches every record. */
  lemma AllMatches(r: Attrs)
    requires WellKeyed(r)
    ensures Matches(All, r)
  {
  }

  /** `query_equals(a, v)` matches exactly the records that hold `v` under
      `a`; a record without `a` never matches. */
  lemma EqualsMatches(a: string, v: string, r: Attrs)
    requires WellKeyed(r)
    ensures Matches(Equals(a, v), r) <==> Entry(a, v) in r
    ensures !HasAttribute(r, a) ==> !Matches(Equals(a, v), r)
  {
    StoredEntry(r, a, v);
  }

  /** `query_less_than(a, v)` matches exactly the records that hold under
      `a` a value lexicographically before `v`. */
  lemma LessThanMatches(a: string, v: string, r: Attrs)
    requires WellKeyed(r)
    ensures Matches(LessThan(a, v), r) <==> exists w :: Entry(a, w) in r && StringLess(w, v)
    ensures !HasAttribute(r, a) ==> !Matches(LessThan(a, v), r)
  {
    StoredEntry(r, a, GetValue(r, a));
    forall w | Entry(a, w) in r ensures w == GetValue(r, a) {
      StoredEntry(r, a, w);
    }
  }

  /** `query_greater_than(a, v)` matches exactly the records that hold under
      `a` a value lexicographically after `v`. */
  lemma GreaterThanMatches(a: string, v: string, r: Attrs)
    requires WellKeyed(r)
    ensures Matches(GreaterThan(a, v), r) <==> exists w :: Entry(a, w) in r && StringLess(v, w)
    ensures !HasAttribute(r, a) ==> !Matches(GreaterThan(a, v), r)
  {
    StoredEntry(r, a, GetValue(r, a));
    forall w | Entry(a, w) in r ensures w == GetValue(r, a) {
      StoredEntry(r, a, w);
    }
  }

  /** `query_starts_with(a, v)` matches exactly the records that hold under
      `a` a value beginning with `v`. */
  lemma StartsWithMatches(a: string, v: string, r: Attrs)
    requires WellKeyed(r)
    ensures Matches(StartsWith(a, v), r) <==> exists w :: Entry(a, w) in r && v <= w
    ensures !HasAttribute(r, a) ==> !Matches(StartsWith(a, v), r)
  {
    StoredEntry(r, a, GetValue(r, a));
    forall w | Entry(a, w) in r ensures w == GetValue(r, a) {
      StoredEntry(r, a, w);
    }
  }

  /** `query_and`, `query_or` and `query_not` combine the results of the
      queries they hold by conjunction, disjunction and negation. */
  lemma CombinedMatches(p: Query, p': Query, r: Attrs)
    requires WellKeyed(r)
    ensures Matches(And(p, p'), r) <==> Matches(p, r) && Matches(p', r)
    ensures Matches(Or(p, p'), r) <==> Matches(p, r) || Matches(p', r)
    ensures Matches(Not(p), r) <==> !Matches(p, r)
  {
  }

  /** Less-than and greater-than split the records holding `a` with a value
      other than `v`: no record matches both, and one of the three matches. */
  lemma CompareTrichotomy(a: string, v: string, r: Attrs)
    requires WellKeyed(r) && HasAttribute(r, a)
    ensures Matches(Equals(a, v), r) || Matches(LessThan(a, v), r) || Matches(GreaterThan(a, v), r)
    ensures !(Matches(LessThan(a, v), r) && Matches(GreaterThan(a, v), r))
    ensures !(Matches(Equals(a, v), r) && Matches(LessThan(a, v), r))
  {
    StringOrder();
  }
}
