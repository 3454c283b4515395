/** Filtering and ordering of result sets: the `WHERE` and `ORDER BY` parts of the
    catalog's listing queries (src/models/countryModel.ts). */
module Listing {
  import opened Types
  import opened Names

  /** The rows of `s` that satisfy `p`, in their original order. */
  function Keep<T(==,!new)>(s: seq<T>, p: T -> bool): (r: seq<T>)
    ensures |r| <= |s|
    ensures |r| == |s| <==> forall i :: 0 <= i < |s| ==> p(s[i])
    ensures forall x :: multiset(r)[x] == if p(x) then multiset(s)[x] else 0
    ensures forall x :: x in r <==> x in s && p(x)
  {
    if s == [] then []
    else
      assert s == [s[0]] + s[1..];
      (if p(s[0]) then [s[0]] else []) + Keep(s[1..], p)
  }

  /** The four orders the listing endpoint recognises. */
  datatype SortOrder = GdpDesc | GdpAsc | NameAsc | NameDesc

  /** The `sort` query parameter; any other value (or none) means no `ORDER BY`. */
  function ParseSort(s: Option<string>): (o: Option<SortOrder>)
    ensures o.Some? <==> s.Some? && s.value in {"gdp_desc", "gdp_asc", "name_asc", "name_desc"}
    ensures s == Some("gdp_desc") ==> o == Some(GdpDesc)
    ensures s == Some("gdp_asc") ==> o == Some(GdpAsc)
    ensures s == Some("name_asc") ==> o == Some(NameAsc)
    ensures s == Some("name_desc") ==> o == Some(NameDesc)
  {
    if s == Some("gdp_desc") then Some(GdpDesc)
    else if s == Some("gdp_asc") then Some(GdpAsc)
    else if s == Some("name_asc") then Some(NameAsc)
    else if s == Some("name_desc") then Some(NameDesc)
    else None
  }

  /** Ascending order of a nullable GDP; NULL sorts below every value, as in MySQL. */
  predicate GdpAtMost(x: Option<real>, y: Option<real>)
  {
    x.None? || (y.Some? && x.value <= y.value)
  }

  /** NULL is below every GDP, and no GDP is below NULL. */
  lemma GdpNullLowest(x: Option<real>)
    ensures GdpAtMost(None, x)
    ensures x.Some? ==> !GdpAtMost(x, None)
  {
  }

  /** `a` may be listed before `b` under order `o`. */
  predicate Precedes(o: SortOrder, a: Row, b: Row)
  {
    match o
    case GdpDesc => GdpAtMost(b.country.estimatedGdp, a.country.estimatedGdp)
    case GdpAsc => GdpAtMost(a.country.estimatedGdp, b.country.estimatedGdp)
    case NameAsc => NameAtMost(a.country.name, b.country.name)
    case NameDesc => NameAtMost(b.country.name, a.country.name)
  }

  lemma PrecedesTotal(o: SortOrder, a: Row, b: Row)
    ensures Precedes(o, a, b) || Precedes(o, b, a)
  {
    match o
    case NameAsc => NameAtMostTotal(a.country.name, b.country.name);
    case NameDesc => NameAtMostTotal(a.country.name, b.country.name);
    case _ =>
  }

  lemma PrecedesTransitive(o: SortOrder, a: Row, b: Row, c: Row)
    requires Precedes(o, a, b) && Precedes(o, b, c)
    ensures Precedes(o, a, c)
  {
    match o
    case NameAsc => NameAtMostTransitive(a.country.name, b.country.name, c.country.name);
    case NameDesc => NameAtMostTransitive(c.country.name, b.country.name, a.country.name);
    case _ =>
  }

  ghost predicate Sorted(o: SortOrder, s: seq<Row>)
  {
    forall i, j :: 0 <= i < j < |s| ==> Precedes(o, s[i], s[j])
  }

  /** A row that may precede the head of a sorted list may precede all of it. */
  lemma PrecedesSortedList(o: SortOrder, x: Row, s: seq<Row>)
    requires Sorted(o, s) && s != [] && Precedes(o, x, s[0])
    ensures forall k :: 0 <= k < |s| ==> Precedes(o, x, s[k])
  {
    forall k | 0 < k < |s|
      ensures Precedes(o, x, s[k])
    {
      PrecedesTransitive(o, x, s[0], s[k]);
    }
  }

  /** A row that may precede `x` and every row of `rest` may precede every row of a
      rearrangement of `rest` plus `x`. */
  lemma PrecedesRearranged(o: SortOrder, h: Row, x: Row, rest: seq<Row>, t: seq<Row>)
    requires Precedes(o, h, x)
    requires forall k :: 0 <= k < |rest| ==> Precedes(o, h, rest[k])
    requires multiset(t) == multiset(rest) + multiset{x}
    ensures forall k :: 0 <= k < |t| ==> Precedes(o, h, t[k])
  {
    forall k | 0 <= k < |t|
      ensures Precedes(o, h, t[k])
    {
      assert t[k] in multiset(t);
      if t[k] != x {
        assert t[k] in multiset(rest);
        var i :| 0 <= i < |rest| && rest[i] == t[k];
      }
    }
  }

  /** Insertion of one row into a sorted list. */
  function Insert(o: SortOrder, x: Row, s: seq<Row>): (r: seq<Row>)
    requires Sorted(o, s)
    ensures Sorted(o, r)
    ensures multiset(r) == multiset(s) + multiset{x}
  {
    if s == [] then [x]
    else if Precedes(o, x, s[0]) then
      PrecedesSortedList(o, x, s);
      [x] + s
    else
      PrecedesTotal(o, x, s[0]);
      var t := Insert(o, x, s[1..]);
      assert s == [s[0]] + s[1..];
      PrecedesRearranged(o, s[0], x, s[1..], t);
      [s[0]] + t
  }

  /** `ORDER BY` under order `o`: a sorted permutation of `s`. Ties keep no promised order. */
  function SortRows(o: SortOrder, s: seq<Row>): (r: seq<Row>)
    ensures Sorted(o, r)
    ensures multiset(r) == multiset(s)
  {
    if s == [] then []
    else
      assert s == [s[0]] + s[1..];
      Insert(o, s[0], SortRows(o, s[1..]))
  }
}
