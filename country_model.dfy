/** The catalog (src/models/countryModel.ts) as an in-memory table: the `countries` rows,
    the AUTO_INCREMENT counter and the single `app_metadata` row (setup-tables.js). Each
    SQL statement becomes a function over the rows (queries) or a method of CountryStore
    (writes). */
module CountryModel {
  import opened Types
  import opened Names
  import opened Listing

  /** The `countries` table: its rows in store order and the next AUTO_INCREMENT id. */
  datatype Table = Table(rows: seq<Row>, nextId: nat)

  /** A row of `SELECT name, estimated_gdp ... WHERE estimated_gdp IS NOT NULL`. */
  datatype TopEntry = TopEntry(name: string, estimatedGdp: real)

  /** The error the UNIQUE index on `name` raises for an INSERT. */
  datatype StoreError = DuplicateName(name: string)

  /** What `create` resolves to: the new row's id, or the rejected INSERT. */
  datatype CreateResult = Created(id: nat) | Rejected(error: StoreError)

  /** `LOWER(name) = LOWER(?)`. */
  predicate Matches(r: Row, name: string)
  {
    SameName(r.country.name, name)
  }

  /** No two rows share a case-insensitively equal name (the UNIQUE index on `name`). */
  ghost predicate NamesUnique(rows: seq<Row>)
  {
    forall i, j :: 0 <= i < j < |rows| ==> !SameName(rows[i].country.name, rows[j].country.name)
  }

  /** Every id was issued by the counter, and no id is used twice. */
  ghost predicate IdsIssued(t: Table)
  {
    && (forall i :: 0 <= i < |t.rows| ==> t.rows[i].id < t.nextId)
    && (forall i, j :: 0 <= i < j < |t.rows| ==> t.rows[i].id != t.rows[j].id)
  }

  ghost predicate WellFormed(t: Table)
  {
    NamesUnique(t.rows) && IdsIssued(t)
  }

  /** The position of the first row matching `name`, or `|rows|` when none does. */
  function FirstMatchIndex(rows: seq<Row>, name: string): (k: nat)
    ensures k <= |rows|
    ensures forall j :: 0 <= j < k ==> !Matches(rows[j], name)
    ensures k < |rows| ==> Matches(rows[k], name)
  {
    if rows == [] then 0
    else if Matches(rows[0], name) then 0
    else 1 + FirstMatchIndex(rows[1..], name)
  }

  /** The row `SELECT * ... WHERE LOWER(name) = LOWER(?)` yields first, if any. */
  function FirstMatch(rows: seq<Row>, name: string): (r: Option<Row>)
    ensures r.Some? ==> r.value in rows && Matches(r.value, name)
    ensures r.None? <==> forall i :: 0 <= i < |rows| ==> !Matches(rows[i], name)
  {
    var k := FirstMatchIndex(rows, name);
    if k < |rows| then Some(rows[k]) else None
  }

  /** In a table with unique names, the lookup finds the one matching row. */
  lemma UniqueMatch(rows: seq<Row>, i: nat, name: string)
    requires NamesUnique(rows)
    requires i < |rows| && Matches(rows[i], name)
    ensures FirstMatch(rows, name) == Some(rows[i])
  {
    var k := FirstMatchIndex(rows, name);
    if k != i {
      assert k < i;
      assert SameName(rows[k].country.name, rows[i].country.name);
    }
  }

  /** Appending a row leaves an existing match where it was, and otherwise makes the new
      row the match exactly when its name matches. */
  lemma FirstMatchAppend(rows: seq<Row>, x: Row, name: string)
    ensures FirstMatch(rows + [x], name) ==
            if FirstMatch(rows, name).Some? then FirstMatch(rows, name)
            else if Matches(x, name) then Some(x)
            else None
  {
    var k := FirstMatchIndex(rows, name);
    var k' := FirstMatchIndex(rows + [x], name);
    assert forall j :: 0 <= j < |rows| ==> (rows + [x])[j] == rows[j];
    if k < |rows| {
      assert k' == k;
    } else if Matches(x, name) {
      assert (rows + [x])[|rows|] == x;
      assert k' == |rows|;
    } else {
      assert (rows + [x])[|rows|] == x;
    }
  }

  /** The lookup depends only on the lowered name. */
  lemma FirstMatchSameName(rows: seq<Row>, a: string, b: string)
    requires SameName(a, b)
    ensures FirstMatch(rows, a) == FirstMatch(rows, b)
  {
    var ka := FirstMatchIndex(rows, a);
    var kb := FirstMatchIndex(rows, b);
    assert forall j :: 0 <= j < |rows| ==> (Matches(rows[j], a) <==> Matches(rows[j], b));
    assert ka == kb;
  }

  /** A row after `UPDATE ... SET` with the fields of `c`: everything but the name is
      overwritten and `last_refreshed_at` is stamped. */
  function Overwrite(r: Row, c: Country, now: Time): (o: Row)
    ensures o.id == r.id && o.country.name == r.country.name && o.lastRefreshedAt == now
    ensures o.country.(name := c.name) == c
  {
    Row(r.id, c.(name := r.country.name), now)
  }

  /** The rows after `UPDATE ... WHERE LOWER(name) = LOWER(?)`. */
  function Overwritten(rows: seq<Row>, name: string, c: Country, now: Time): (r: seq<Row>)
    ensures |r| == |rows|
  {
    seq(|rows|, i requires 0 <= i < |rows| => if Matches(rows[i], name) then Overwrite(rows[i], c, now) else rows[i])
  }

  /** An update keeps every name and id, so it keeps the table well formed. */
  lemma OverwrittenWellFormed(t: Table, name: string, c: Country, now: Time)
    requires WellFormed(t)
    ensures WellFormed(Table(Overwritten(t.rows, name, c, now), t.nextId))
  {
    var r := Overwritten(t.rows, name, c, now);
    assert forall i :: 0 <= i < |r| ==> r[i].country.name == t.rows[i].country.name && r[i].id == t.rows[i].id;
  }

  /** After an update, the lookup by the same name finds the overwritten form of the row it
      found before, and finds nothing if it found nothing. */
  lemma OverwrittenFind(rows: seq<Row>, name: string, c: Country, now: Time)
    ensures FirstMatch(Overwritten(rows, name, c, now), name) ==
            match FirstMatch(rows, name)
            case None => None
            case Some(x) => Some(Overwrite(x, c, now))
  {
    var r := Overwritten(rows, name, c, now);
    assert forall i :: 0 <= i < |r| ==> (Matches(r[i], name) <==> Matches(rows[i], name));
    assert FirstMatchIndex(r, name) == FirstMatchIndex(rows, name);
  }

  /** An update by one name leaves the lookup by a different name as it was. */
  lemma OverwrittenFindOther(rows: seq<Row>, name: string, other: string, c: Country, now: Time)
    requires !SameName(name, other)
    ensures FirstMatch(Overwritten(rows, name, c, now), other) == FirstMatch(rows, other)
  {
    var r := Overwritten(rows, name, c, now);
    assert forall i :: 0 <= i < |r| ==> (Matches(r[i], other) <==> Matches(rows[i], other));
    assert forall i :: 0 <= i < |r| ==> Matches(rows[i], other) ==> r[i] == rows[i];
    assert FirstMatchIndex(r, other) == FirstMatchIndex(rows, other);
  }

  /** The rows `DELETE ... WHERE LOWER(name) = LOWER(?)` leaves, in store order. */
  function Without(rows: seq<Row>, name: string): (r: seq<Row>)
    ensures forall x :: x in r <==> x in rows && !Matches(x, name)
    ensures |r| < |rows| <==> exists i :: 0 <= i < |rows| && Matches(rows[i], name)
  {
    Keep(rows, (x: Row) => !Matches(x, name))
  }

  /** A row that differs in name and id from every row of a well-formed table can head it. */
  lemma ConsWellFormed(h: Row, rest: seq<Row>, nextId: nat)
    requires WellFormed(Table(rest, nextId)) && h.id < nextId
    requires forall j :: 0 <= j < |rest| ==> !SameName(h.country.name, rest[j].country.name) && h.id != rest[j].id
    ensures WellFormed(Table([h] + rest, nextId))
  {
    var s := [h] + rest;
    assert forall j :: 0 < j < |s| ==> s[j] == rest[j - 1];
  }

  lemma TailWellFormed(t: Table)
    requires WellFormed(t) && t.rows != []
    ensures WellFormed(Table(t.rows[1..], t.nextId))
  {
    assert forall j :: 0 <= j < |t.rows| - 1 ==> t.rows[1..][j] == t.rows[j + 1];
  }

  /** The head of a well-formed table differs in name and id from every row kept from its tail. */
  lemma HeadDiffersFromKeptTail(t: Table, p: Row -> bool)
    requires WellFormed(t) && t.rows != []
    ensures forall j :: 0 <= j < |Keep(t.rows[1..], p)| ==>
              !SameName(t.rows[0].country.name, Keep(t.rows[1..], p)[j].country.name)
              && t.rows[0].id != Keep(t.rows[1..], p)[j].id
  {
    var rest := Keep(t.rows[1..], p);
    forall j | 0 <= j < |rest|
      ensures !SameName(t.rows[0].country.name, rest[j].country.name) && t.rows[0].id != rest[j].id
    {
      assert rest[j] in t.rows[1..];
      var i :| 0 <= i < |t.rows| - 1 && t.rows[1..][i] == rest[j];
      assert t.rows[i + 1] == rest[j];
    }
  }

  /** Removing rows keeps the table well formed. */
  lemma {:induction false} KeepWellFormed(t: Table, p: Row -> bool)
    requires WellFormed(t)
    ensures WellFormed(Table(Keep(t.rows, p), t.nextId))
    decreases |t.rows|
  {
    if t.rows != [] {
      var h := t.rows[0];
      TailWellFormed(t);
      KeepWellFormed(Table(t.rows[1..], t.nextId), p);
      var rest := Keep(t.rows[1..], p);
      assert Keep(t.rows, p) == (if p(h) then [h] else []) + rest;
      if p(h) {
        HeadDiffersFromKeptTail(t, p);
        ConsWellFormed(h, rest, t.nextId);
      } else {
        assert Keep(t.rows, p) == rest;
      }
    }
  }

  /** The `WHERE` of the listing query: a non-empty `region` or `currency` filter keeps the
      rows whose column equals it. */
  predicate Selected(q: CountryQuery, r: Row)
  {
    && (q.region.Some? && q.region.value != "" ==> r.country.region == q.region)
    && (q.currency.Some? && q.currency.value != "" ==> r.country.currencyCode == q.currency)
  }

  /** The rows the listing query selects, in store order. */
  function Matching(rows: seq<Row>, q: CountryQuery): (r: seq<Row>)
    ensures forall x :: x in r <==> x in rows && Selected(q, x)
    ensures forall x :: multiset(r)[x] == if Selected(q, x) then multiset(rows)[x] else 0
  {
    Keep(rows, (x: Row) => Selected(q, x))
  }

  /** The rows `WHERE estimated_gdp IS NOT NULL`, in store order. */
  function WithGdp(rows: seq<Row>): (r: seq<Row>)
    ensures forall x :: x in r <==> x in rows && x.country.estimatedGdp.Some?
    ensures forall x :: multiset(r)[x] == if x.country.estimatedGdp.Some? then multiset(rows)[x] else 0
  {
    Keep(rows, (x: Row) => x.country.estimatedGdp.Some?)
  }

  /** The rows with a GDP, each as often as in the table, highest first. */
  function Ranked(rows: seq<Row>): (r: seq<Row>)
    ensures Sorted(GdpDesc, r)
    ensures multiset(r) == multiset(WithGdp(rows))
    ensures forall i :: 0 <= i < |r| ==> r[i] in rows && r[i].country.estimatedGdp.Some?
    ensures forall x :: x in rows && x.country.estimatedGdp.Some? ==> x in r
  {
    var withGdp := WithGdp(rows);
    var r := SortRows(GdpDesc, withGdp);
    SameElements(r, withGdp);
    r
  }

  /** Two sequences with equal multisets hold the same elements. */
  lemma SameElements(a: seq<Row>, b: seq<Row>)
    requires multiset(a) == multiset(b)
    ensures forall x :: x in a <==> x in b
  {
    forall x
      ensures x in a <==> x in b
    {
      assert x in a <==> x in multiset(a);
      assert x in b <==> x in multiset(b);
    }
  }

  function Entry(r: Row): TopEntry
    requires r.country.estimatedGdp.Some?
  {
    TopEntry(r.country.name, r.country.estimatedGdp.value)
  }

  /** `SELECT name, estimated_gdp ... WHERE estimated_gdp IS NOT NULL ORDER BY
      estimated_gdp DESC LIMIT ?`. */
  function TopByGdp(rows: seq<Row>, limit: nat): (r: seq<TopEntry>)
    ensures |r| <= limit
  {
    var ranked := Ranked(rows);
    var k := if limit < |ranked| then limit else |ranked|;
    seq(k, i requires 0 <= i < k => Entry(ranked[i]))
  }

  /** The i-th entry is the i-th row of the ranking. */
  lemma TopByGdpAt(rows: seq<Row>, limit: nat, i: nat)
    requires i < |TopByGdp(rows, limit)|
    ensures i < |Ranked(rows)| && TopByGdp(rows, limit)[i] == Entry(Ranked(rows)[i])
  {
  }

  /** The entries come in non-increasing order of GDP. */
  lemma TopByGdpOrdered(rows: seq<Row>, limit: nat)
    ensures var r := TopByGdp(rows, limit);
            forall i, j :: 0 <= i < j < |r| ==> r[i].estimatedGdp >= r[j].estimatedGdp
  {
    var r := TopByGdp(rows, limit);
    forall i, j | 0 <= i < j < |r|
      ensures r[i].estimatedGdp >= r[j].estimatedGdp
    {
      TopByGdpAt(rows, limit, i);
      TopByGdpAt(rows, limit, j);
      RankedDescending(rows, i, j);
    }
  }

  /** Every entry is the name and (non-NULL) GDP of a row of the table. */
  lemma TopByGdpFromTable(rows: seq<Row>, limit: nat)
    ensures var r := TopByGdp(rows, limit);
            forall i :: 0 <= i < |r| ==>
              exists x :: x in rows && x.country.estimatedGdp == Some(r[i].estimatedGdp) && x.country.name == r[i].name
  {
    var r := TopByGdp(rows, limit);
    forall i | 0 <= i < |r|
      ensures exists x :: x in rows && x.country.estimatedGdp == Some(r[i].estimatedGdp) && x.country.name == r[i].name
    {
      TopByGdpAt(rows, limit, i);
      var x := Ranked(rows)[i];
      assert x in rows && x.country.estimatedGdp == Some(r[i].estimatedGdp) && x.country.name == r[i].name;
    }
  }

  /** Where a row with a GDP stands in the ranking. */
  lemma RankOf(rows: seq<Row>, x: Row) returns (j: nat)
    requires x in rows && x.country.estimatedGdp.Some?
    ensures j < |Ranked(rows)| && Ranked(rows)[j] == x
  {
    var ranked := Ranked(rows);
    j :| 0 <= j < |ranked| && ranked[j] == x;
  }

  /** A later row of the ranking has no larger GDP. */
  lemma RankedDescending(rows: seq<Row>, i: nat, j: nat)
    requires i < j < |Ranked(rows)|
    ensures Ranked(rows)[j].country.estimatedGdp.value <= Ranked(rows)[i].country.estimatedGdp.value
  {
    assert Precedes(GdpDesc, Ranked(rows)[i], Ranked(rows)[j]);
  }

  /** The top list misses nothing above its cut: a row whose GDP exceeds that of the i-th
      entry is listed before it. */
  lemma TopByGdpComplete(rows: seq<Row>, limit: nat, x: Row, i: nat)
    requires x in rows && x.country.estimatedGdp.Some?
    requires i < |TopByGdp(rows, limit)| && x.country.estimatedGdp.value > TopByGdp(rows, limit)[i].estimatedGdp
    ensures Entry(x) in TopByGdp(rows, limit)[..i]
  {
    var ranked := Ranked(rows);
    var r := TopByGdp(rows, limit);
    TopByGdpAt(rows, limit, i);
    var j := RankOf(rows, x);
    if i < j {
      RankedDescending(rows, i, j);
    }
    assert j < i;
    TopByGdpAt(rows, limit, j);
    assert r[..i][j] == Entry(x);
  }

  /** When fewer than `limit` entries come back, every row with a GDP is among them. */
  lemma TopByGdpShortIsAll(rows: seq<Row>, limit: nat, x: Row)
    requires x in rows && x.country.estimatedGdp.Some?
    requires |TopByGdp(rows, limit)| < limit
    ensures Entry(x) in TopByGdp(rows, limit)
  {
    var r := TopByGdp(rows, limit);
    var j := RankOf(rows, x);
    assert |r| == |Ranked(rows)|;
    TopByGdpAt(rows, limit, j);
  }

  /** The catalog: the `countries` rows, the AUTO_INCREMENT counter and the single
      `app_metadata` row. */
  class CountryStore {
    var rows: seq<Row>
    var nextId: nat
    var metadata: Metadata

    ghost predicate Valid()
      reads this
    {
      WellFormed(Table(rows, nextId))
    }

    /** The state the setup script leaves: no countries and `total_countries = 0`. */
    constructor ()
      ensures Valid()
      ensures rows == [] && nextId == 1 && metadata == Metadata(0, None)
    {
      rows := [];
      nextId := 1;
      metadata := Metadata(0, None);
    }

    function FindByName(name: string): (r: Option<Row>)
      reads this
      ensures r.Some? ==> r.value in rows && Matches(r.value, name)
      ensures r.None? <==> forall i :: 0 <= i < |rows| ==> !Matches(rows[i], name)
    {
      FirstMatch(rows, name)
    }

    /** The listing query: filter, then `ORDER BY` for a recognised `sort` value. */
    function FindAll(q: CountryQuery): (r: seq<Row>)
      reads this
      ensures forall x :: multiset(r)[x] == if Selected(q, x) then multiset(rows)[x] else 0
      ensures forall x :: x in r <==> x in rows && Selected(q, x)
      ensures ParseSort(q.sort).Some? ==> Sorted(ParseSort(q.sort).value, r)
      ensures ParseSort(q.sort).None? ==> r == Matching(rows, q)
    {
      var matching := Matching(rows, q);
      match ParseSort(q.sort)
      case None => matching
      case Some(o) => SortRows(o, matching)
    }

    /** At most `limit` entries, highest GDP first. */
    function GetTopByGdp(limit: nat): (r: seq<TopEntry>)
      reads this
      ensures |r| <= limit
      ensures forall i, j :: 0 <= i < j < |r| ==> r[i].estimatedGdp >= r[j].estimatedGdp
    {
      TopByGdpOrdered(rows, limit);
      TopByGdp(rows, limit)
    }

    function GetMetadata(): Metadata
      reads this
    {
      metadata
    }

    /** `INSERT` of a new row; the UNIQUE index rejects a name some row already has. */
    method Create(c: Country, now: Time) returns (result: CreateResult)
      requires Valid()
      modifies this
      ensures Valid()
      ensures result.Rejected? <==> old(FindByName(c.name)).Some?
      ensures result.Rejected? ==> rows == old(rows) && nextId == old(nextId)
      ensures result.Created? ==>
                && result.id == old(nextId)
                && rows == old(rows) + [Row(result.id, c, now)]
                && nextId == old(nextId) + 1
                && FindByName(c.name) == Some(Row(result.id, c, now))
      ensures metadata == old(metadata)
    {
      if FirstMatch(rows, c.name).Some? {
        result := Rejected(DuplicateName(c.name));
      } else {
        FirstMatchAppend(rows, Row(nextId, c, now), c.name);
        result := Created(nextId);
        rows := rows + [Row(nextId, c, now)];
        nextId := nextId + 1;
      }
    }

    /** `UPDATE ... WHERE LOWER(name) = LOWER(?)`: every matching row takes all fields of
        `c` but the name, and is stamped; the other rows stay as they were. */
    method Update(name: string, c: Country, now: Time)
      requires Valid()
      modifies this
      ensures Valid()
      ensures |rows| == |old(rows)|
      ensures forall i :: 0 <= i < |rows| ==>
                rows[i] == if Matches(old(rows)[i], name) then Overwrite(old(rows)[i], c, now) else old(rows)[i]
      ensures rows == Overwritten(old(rows), name, c, now)
      ensures nextId == old(nextId) && metadata == old(metadata)
    {
      OverwrittenWellFormed(Table(rows, nextId), name, c, now);
      rows := Overwritten(rows, name, c, now);
    }

    /** `DELETE ... WHERE LOWER(name) = LOWER(?)`, answering whether any row went. */
    method Delete(name: string) returns (deleted: bool)
      requires Valid()
      modifies this
      ensures Valid()
      ensures deleted <==> exists i :: 0 <= i < |old(rows)| && Matches(old(rows)[i], name)
      ensures rows == Without(old(rows), name)
      ensures forall x :: x in rows <==> x in old(rows) && !Matches(x, name)
      ensures FindByName(name).None?
      ensures nextId == old(nextId) && metadata == old(metadata)
    {
      KeepWellFormed(Table(rows, nextId), (x: Row) => !Matches(x, name));
      var kept := Without(rows, name);
      deleted := |kept| < |rows|;
      rows := kept;
    }

    /** `UPDATE app_metadata SET last_refreshed_at = NOW(), total_countries = ?`. */
    method UpdateMetadata(totalCountries: int, now: Time)
      requires Valid()
      modifies this
      ensures Valid()
      ensures GetMetadata() == Metadata(totalCountries, Some(now))
      ensures rows == old(rows) && nextId == old(nextId)
    {
      metadata := Metadata(totalCountries, Some(now));
    }
  }
}
