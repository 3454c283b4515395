/** What the refresh pass promises, proved about its specification (CountryController.Refresh)
    and the derivation and upsert functions it is built from. */
module RefreshProperties {
  import opened Types
  import opened Names
  import opened CountryModel
  import opened CountryController

  // ---------------------------------------------------------------------------------------
  // Per-country derivation

  /** The currency code is the first descriptor's non-empty code, and the rate is the mapped
      rate of that code when it is non-zero. */
  lemma DerivedCurrencyAndRate(e: ExternalCountry, rates: ExchangeRates, m: real)
    ensures var c := Derive(e, rates, m);
            && (c.currencyCode.Some? <==> e.currencies.Some? && |e.currencies.value| > 0 && e.currencies.value[0].code != "")
            && (c.currencyCode.Some? ==> c.currencyCode.value == e.currencies.value[0].code)
            && (c.exchangeRate.Some? <==>
                  c.currencyCode.Some? && c.currencyCode.value in rates.rates && rates.rates[c.currencyCode.value] != 0.0)
            && (c.exchangeRate.Some? ==> c.exchangeRate.value == rates.rates[c.currencyCode.value])
  {
  }

  /** The three GDP cases: NULL exactly when a code has no usable rate, exactly 0 when there is
      no code, and `population * m / rate` when both exist. */
  lemma DerivedGdpCases(e: ExternalCountry, rates: ExchangeRates, m: real)
    ensures var c := Derive(e, rates, m);
            && (c.estimatedGdp.None? <==> c.currencyCode.Some? && c.exchangeRate.None?)
            && (c.currencyCode.None? ==> c.estimatedGdp == Some(0.0) && c.exchangeRate.None?)
            && (c.exchangeRate.Some? ==> c.estimatedGdp == Some(e.population as real * m / c.exchangeRate.value))
  {
    var code := CurrencyCode(e);
    var rate := ExchangeRate(code, rates);
    var c := Derive(e, rates, m);
    assert c.exchangeRate == rate && c.currencyCode == code;
    assert c.estimatedGdp == EstimatedGdp(e.population, code, rate, m);
    if rate.Some? {
      assert code.Some?;
      var g := EstimatedGdp(e.population, code, rate, m);
      assert g.Some?;
      assert g.value == e.population as real * m / rate.value;
    }
  }

  /** For a positive population and rate the estimate lies in
      [population * 1000 / rate, population * 2000 / rate). */
  lemma GdpWithinMultiplierRange(e: ExternalCountry, rates: ExchangeRates, m: real)
    requires 1000.0 <= m < 2000.0
    requires e.population > 0
    requires Derive(e, rates, m).exchangeRate.Some? && Derive(e, rates, m).exchangeRate.value > 0.0
    ensures var c := Derive(e, rates, m);
            var p, rate := e.population as real, c.exchangeRate.value;
            && c.estimatedGdp.Some?
            && p * 1000.0 / rate <= c.estimatedGdp.value < p * 2000.0 / rate
  {
    var c := Derive(e, rates, m);
    var p, rate := e.population as real, c.exchangeRate.value;
    DerivedGdpCases(e, rates, m);
    ScaledBounds(p, m, rate);
  }

  /** p * 1000 / d <= p * m / d < p * 2000 / d for positive p and d. */
  lemma ScaledBounds(p: real, m: real, d: real)
    requires p > 0.0 && d > 0.0 && 1000.0 <= m < 2000.0
    ensures p * 1000.0 / d <= p * m / d < p * 2000.0 / d
  {
    ScaleStrictly(p, m, 2000.0);
    if m > 1000.0 {
      ScaleStrictly(p, 1000.0, m);
    }
    DivideStrictly(p * m, p * 2000.0, d);
    if m > 1000.0 {
      DivideStrictly(p * 1000.0, p * m, d);
    }
  }

  lemma ScaleStrictly(p: real, a: real, b: real)
    requires p > 0.0 && a < b
    ensures p * a < p * b
  {
    assert p * b - p * a == p * (b - a);
  }

  lemma DivideStrictly(a: real, b: real, d: real)
    requires a < b && d > 0.0
    ensures a / d < b / d
  {
    assert b / d - a / d == (b - a) / d;
  }

  /** With positive rates and population, zero GDP means "no currency" and nothing else: the
      NULL, zero and priced states stay apart. */
  lemma ZeroGdpMeansNoCurrency(e: ExternalCountry, rates: ExchangeRates, m: real)
    requires 1000.0 <= m && e.population > 0
    requires forall k :: k in rates.rates ==> rates.rates[k] > 0.0
    ensures var c := Derive(e, rates, m);
            (c.estimatedGdp == Some(0.0) <==> c.currencyCode.None?)
  {
    var c := Derive(e, rates, m);
    if c.exchangeRate.Some? {
      var p, rate := e.population as real, c.exchangeRate.value;
      assert rate > 0.0;
      assert p * m > 0.0;
      assert p * m / rate > 0.0;
    }
  }

  /** Only the GDP value depends on the multiplier: every other field, and whether the GDP is
      NULL, are the same for any two draws. */
  lemma DerivedStructureIgnoresMultiplier(e: ExternalCountry, rates: ExchangeRates, m1: real, m2: real)
    ensures var c1, c2 := Derive(e, rates, m1), Derive(e, rates, m2);
            && c1.(estimatedGdp := None) == c2.(estimatedGdp := None)
            && (c1.estimatedGdp.Some? <==> c2.estimatedGdp.Some?)
  {
  }

  /** A country with code "USD", rate 1.0 and population 1,000,000 gets a GDP in
      [1,000,000,000, 2,000,000,000). */
  lemma UsdExample(m: real)
    requires 1000.0 <= m < 2000.0
    ensures var e := ExternalCountry("Testland", None, None, 1000000, None, Some([Currency("USD", "US dollar", "$")]));
            var c := Derive(e, ExchangeRates(map["USD" := 1.0]), m);
            c.estimatedGdp.Some? && 1000000000.0 <= c.estimatedGdp.value < 2000000000.0
  {
    var e := ExternalCountry("Testland", None, None, 1000000, None, Some([Currency("USD", "US dollar", "$")]));
    GdpWithinMultiplierRange(e, ExchangeRates(map["USD" := 1.0]), m);
  }

  // ---------------------------------------------------------------------------------------
  // One upsert

  /** An upsert keeps names unique and ids issued: it only adds a row for a name no row has. */
  lemma UpsertWellFormed(t: Table, c: Country, now: Time)
    requires WellFormed(t)
    ensures WellFormed(Upsert(t, c, now))
  {
    if FirstMatch(t.rows, c.name).Some? {
      OverwrittenWellFormed(t, c.name, c, now);
    } else {
      var rows := t.rows + [Row(t.nextId, c, now)];
      assert forall i :: 0 <= i < |t.rows| ==> rows[i] == t.rows[i] && !Matches(t.rows[i], c.name);
      assert rows[|t.rows|] == Row(t.nextId, c, now);
    }
  }

  /** After an upsert the lookup by its name finds the written record: the existing row
      overwritten in place, keeping its stored name, with no row added; or a new row with the
      next id. */
  lemma UpsertFinds(t: Table, c: Country, now: Time)
    ensures var u := Upsert(t, c, now);
            match FirstMatch(t.rows, c.name)
            case Some(existing) =>
              && FirstMatch(u.rows, c.name) == Some(Overwrite(existing, c, now))
              && |u.rows| == |t.rows| && u.nextId == t.nextId
            case None =>
              && FirstMatch(u.rows, c.name) == Some(Row(t.nextId, c, now))
              && |u.rows| == |t.rows| + 1 && u.nextId == t.nextId + 1
  {
    if FirstMatch(t.rows, c.name).Some? {
      OverwrittenFind(t.rows, c.name, c, now);
    } else {
      FirstMatchAppend(t.rows, Row(t.nextId, c, now), c.name);
    }
  }

  /** An upsert leaves the lookup by any other name as it was. */
  lemma UpsertOtherName(t: Table, c: Country, now: Time, name: string)
    requires !SameName(c.name, name)
    ensures FirstMatch(Upsert(t, c, now).rows, name) == FirstMatch(t.rows, name)
  {
    if FirstMatch(t.rows, c.name).Some? {
      OverwrittenFindOther(t.rows, c.name, name, c, now);
    } else {
      FirstMatchAppend(t.rows, Row(t.nextId, c, now), name);
    }
  }

  /** A row the lookup finds keeps its id and its stored name through an upsert: an update
      never sets `name`, and an insert only adds a row. */
  lemma UpsertKeepsFound(t: Table, c: Country, now: Time, name: string)
    requires FirstMatch(t.rows, name).Some?
    ensures var before, after := FirstMatch(t.rows, name), FirstMatch(Upsert(t, c, now).rows, name);
            && after.Some?
            && after.value.id == before.value.id
            && after.value.country.name == before.value.country.name
  {
    if SameName(c.name, name) {
      FirstMatchSameName(t.rows, c.name, name);
      FirstMatchSameName(Upsert(t, c, now).rows, c.name, name);
      UpsertFinds(t, c, now);
    } else {
      UpsertOtherName(t, c, now, name);
    }
  }

  // ---------------------------------------------------------------------------------------
  // The loop of upserts

  /** A stored row keeps its id and its stored name through any run of upserts. */
  lemma {:induction false} UpsertAllKeepsFound(t: Table, cs: seq<Country>, now: Time, name: string)
    requires FirstMatch(t.rows, name).Some?
    ensures var before, after := FirstMatch(t.rows, name), FirstMatch(UpsertAll(t, cs, now).rows, name);
            && after.Some?
            && after.value.id == before.value.id
            && after.value.country.name == before.value.country.name
    decreases |cs|
  {
    if cs != [] {
      var prefix := cs[..|cs| - 1];
      UpsertAllKeepsFound(t, prefix, now, name);
      UpsertKeepsFound(UpsertAll(t, prefix, now), cs[|cs| - 1], now, name);
    }
  }

  lemma {:induction false} UpsertAllWellFormed(t: Table, cs: seq<Country>, now: Time)
    requires WellFormed(t)
    ensures WellFormed(UpsertAll(t, cs, now))
    decreases |cs|
  {
    if cs != [] {
      UpsertAllWellFormed(t, cs[..|cs| - 1], now);
      UpsertWellFormed(UpsertAll(t, cs[..|cs| - 1], now), cs[|cs| - 1], now);
    }
  }

  /** A name no processed country carries keeps the row it had: the pass never deletes or
      alters other countries. */
  lemma {:induction false} UpsertAllUntouched(t: Table, cs: seq<Country>, now: Time, name: string)
    requires forall k :: 0 <= k < |cs| ==> !SameName(cs[k].name, name)
    ensures FirstMatch(UpsertAll(t, cs, now).rows, name) == FirstMatch(t.rows, name)
    decreases |cs|
  {
    if cs != [] {
      var prefix := cs[..|cs| - 1];
      UpsertAllUntouched(t, prefix, now, name);
      UpsertOtherName(UpsertAll(t, prefix, now), cs[|cs| - 1], now, name);
    }
  }

  /** The last write wins: after the upserts, the row found by a processed name carries the
      fields of the last processed country with that name (a duplicate inside one fetch
      overwrites the earlier one), stamped with the pass's time. */
  lemma {:induction false} UpsertAllLastWriteWins(t: Table, cs: seq<Country>, now: Time, j: nat)
    requires j < |cs|
    requires forall k :: j < k < |cs| ==> !SameName(cs[k].name, cs[j].name)
    ensures var found := FirstMatch(UpsertAll(t, cs, now).rows, cs[j].name);
            && found.Some?
            && found.value.country == cs[j].(name := found.value.country.name)
            && SameName(found.value.country.name, cs[j].name)
            && found.value.lastRefreshedAt == now
    decreases |cs|
  {
    var prefix, last := cs[..|cs| - 1], cs[|cs| - 1];
    var before := UpsertAll(t, prefix, now);
    if j == |cs| - 1 {
      UpsertFinds(before, last, now);
    } else {
      assert forall k :: j < k < |prefix| ==> prefix[k] == cs[k];
      UpsertAllLastWriteWins(t, prefix, now, j);
      assert prefix[j] == cs[j];
      UpsertOtherName(before, last, now, cs[j].name);
    }
  }

  /** Every processed index has a last index carrying the same name. */
  lemma {:induction false} LastOccurrence(cs: seq<Country>, i: nat) returns (j: nat)
    requires i < |cs|
    ensures i <= j < |cs| && SameName(cs[j].name, cs[i].name)
    ensures forall k :: j < k < |cs| ==> !SameName(cs[k].name, cs[i].name)
    decreases |cs|
  {
    if i == |cs| - 1 || SameName(cs[|cs| - 1].name, cs[i].name) {
      j := |cs| - 1;
    } else {
      var prefix := cs[..|cs| - 1];
      j := LastOccurrence(prefix, i);
      assert forall k :: j < k < |prefix| ==> prefix[k] == cs[k];
    }
  }

  /** After the upserts every processed name can be looked up. */
  lemma UpsertAllStoresEveryName(t: Table, cs: seq<Country>, now: Time)
    ensures forall i :: 0 <= i < |cs| ==> FirstMatch(UpsertAll(t, cs, now).rows, cs[i].name).Some?
  {
    forall i | 0 <= i < |cs|
      ensures FirstMatch(UpsertAll(t, cs, now).rows, cs[i].name).Some?
    {
      var j := LastOccurrence(cs, i);
      UpsertAllLastWriteWins(t, cs, now, j);
      FirstMatchSameName(UpsertAll(t, cs, now).rows, cs[j].name, cs[i].name);
    }
  }

  // ---------------------------------------------------------------------------------------
  // The whole pass

  /** A failed fetch writes nothing: catalog and metadata are as before, and the answer is the
      503 with the failing source's message. */
  lemma FetchFailureWritesNothing(s: State, countries: Fetch<seq<ExternalCountry>>, rates: Fetch<ExchangeRates>,
                                  ms: seq<real>, now: Time, fault: Option<Fault>)
    requires countries.Fetched? ==> Multipliers(ms, |countries.data|)
    requires countries.FetchFailed? || rates.FetchFailed?
    ensures var r := Refresh(s, countries, rates, ms, now, fault);
            && r.state == s
            && r.outcome == Unavailable(UnavailableError,
                                        if countries.FetchFailed? then CountriesSourceError else RatesSourceError)
  {
  }

  /** The pass keeps case-insensitive names unique and ids issued, whatever it fetched and
      wherever it stopped, so any sequence of passes does. */
  lemma RefreshKeepsWellFormed(s: State, countries: Fetch<seq<ExternalCountry>>, rates: Fetch<ExchangeRates>,
                               ms: seq<real>, now: Time, fault: Option<Fault>)
    requires countries.Fetched? ==> Multipliers(ms, |countries.data|)
    requires WellFormed(s.table)
    ensures WellFormed(Refresh(s, countries, rates, ms, now, fault).state.table)
  {
    if countries.Fetched? && rates.Fetched? {
      var derived := DeriveAll(countries.data, rates.data, ms);
      if fault.Some? && fault.value.step < |derived| {
        UpsertAllWellFormed(s.table, derived[..fault.value.step], now);
      } else {
        UpsertAllWellFormed(s.table, derived, now);
      }
    }
  }

  /** A completed pass stores the number of processed countries, not the catalog size, in the
      metadata, answers with it, and hands the summary that count, the top five GDPs of the
      new catalog and the pass's time. */
  lemma RefreshRecordsProcessedCount(s: State, data: seq<ExternalCountry>, rates: ExchangeRates,
                                     ms: seq<real>, now: Time)
    requires Multipliers(ms, |data|)
    ensures var r := Refresh(s, Fetched(data), Fetched(rates), ms, now, None);
            && r.state.metadata == Metadata(|data|, Some(now))
            && r.outcome.Refreshed?
            && r.outcome.totalProcessed == |data|
            && r.outcome.summary == Summary(|data|, TopByGdp(r.state.table.rows, 5), now)
            && |r.outcome.summary.topCountries| <= 5
            && |s.table.rows| <= |r.state.table.rows| <= |s.table.rows| + |data|
  {
  }

  /** A completed pass is the upserts of the derived records, the new metadata row and the
      summary of the new catalog. */
  lemma RefreshCompleted(s: State, data: seq<ExternalCountry>, rates: ExchangeRates, ms: seq<real>, now: Time)
    requires Multipliers(ms, |data|)
    ensures var t := UpsertAll(s.table, DeriveAll(data, rates, ms), now);
            Refresh(s, Fetched(data), Fetched(rates), ms, now, None) ==
              RefreshResult(State(t, Metadata(|data|, Some(now))),
                            Refreshed(|data|, Summary(|data|, TopByGdp(t.rows, TopCount), now)))
  {
  }

  lemma FranceIsFRANCE()
    ensures SameName("France", "FRANCE")
  {
    var a, b := Lower("France"), Lower("FRANCE");
    assert |a| == |b| == 6;
    forall i | 0 <= i < 6
      ensures a[i] == b[i]
    {
      assert a[i] == LowerChar("France"[i]) && b[i] == LowerChar("FRANCE"[i]);
    }
  }

  /** The stored count and the catalog size can differ: two spellings of one name in a fetch
      make one row but count twice. */
  lemma ProcessedCountIsNotCatalogSize(now: Time)
    ensures var fetched := [ExternalCountry("France", None, None, 1, None, None),
                            ExternalCountry("FRANCE", None, None, 2, None, None)];
            var r := Refresh(State(Table([], 1), Metadata(0, None)), Fetched(fetched),
                             Fetched(ExchangeRates(map[])), [1000.0, 1000.0], now, None);
            r.state.metadata.totalCountries == 2 && |r.state.table.rows| == 1
  {
    var fetched := [ExternalCountry("France", None, None, 1, None, None),
                    ExternalCountry("FRANCE", None, None, 2, None, None)];
    RefreshCompleted(State(Table([], 1), Metadata(0, None)), fetched, ExchangeRates(map[]), [1000.0, 1000.0], now);
    TwoSpellingsOneRow(DeriveAll(fetched, ExchangeRates(map[]), [1000.0, 1000.0]), now);
  }

  /** Upserting two records whose names differ only in case into an empty table makes one row. */
  lemma TwoSpellingsOneRow(derived: seq<Country>, now: Time)
    requires |derived| == 2 && derived[0].name == "France" && derived[1].name == "FRANCE"
    ensures |UpsertAll(Table([], 1), derived, now).rows| == 1
  {
    var t0 := Table([], 1);
    UpsertAllSnoc(t0, derived, 0, now);
    UpsertAllSnoc(t0, derived, 1, now);
    assert derived[..0] == [] && derived[..2] == derived;
    var t1 := UpsertAll(t0, derived[..1], now);
    assert t1 == Table([Row(1, derived[0], now)], 2);
    FranceIsFRANCE();
    UpsertFinds(t1, derived[1], now);
  }

  /** A completed pass leaves every fetched country findable by its name. */
  lemma RefreshStoresEveryCountry(s: State, data: seq<ExternalCountry>, rates: ExchangeRates,
                                  ms: seq<real>, now: Time)
    requires Multipliers(ms, |data|)
    ensures var rows := Refresh(s, Fetched(data), Fetched(rates), ms, now, None).state.table.rows;
            forall i :: 0 <= i < |data| ==> FirstMatch(rows, data[i].name).Some?
  {
    var derived := DeriveAll(data, rates, ms);
    UpsertAllStoresEveryName(s.table, derived, now);
    assert forall i :: 0 <= i < |data| ==> derived[i].name == data[i].name;
  }

  /** A pass stopped by a storage fault at or before the metadata write is the upserts of
      the records before the fault, with the metadata untouched and the 503 as its answer. */
  lemma RefreshFaulted(s: State, data: seq<ExternalCountry>, rates: ExchangeRates, ms: seq<real>,
                       now: Time, fault: Fault)
    requires Multipliers(ms, |data|)
    requires fault.step <= |data|
    ensures Refresh(s, Fetched(data), Fetched(rates), ms, now, Some(fault)) ==
              RefreshResult(State(UpsertAll(s.table, DeriveAll(data, rates, ms)[..fault.step], now), s.metadata),
                            Unavailable(UnavailableError, fault.message))
  {
    assert fault.step == |data| ==> DeriveAll(data, rates, ms)[..fault.step] == DeriveAll(data, rates, ms);
  }

  /** A fault in the top-GDP query or the image write comes after every upsert and the
      metadata write: all of them stay, yet the answer is the same 503. */
  lemma FaultAfterMetadata(s: State, data: seq<ExternalCountry>, rates: ExchangeRates, ms: seq<real>,
                           now: Time, fault: Fault)
    requires Multipliers(ms, |data|)
    requires fault.step > |data|
    ensures Refresh(s, Fetched(data), Fetched(rates), ms, now, Some(fault)) ==
              RefreshResult(State(UpsertAll(s.table, DeriveAll(data, rates, ms), now), Metadata(|data|, Some(now))),
                            Unavailable(UnavailableError, fault.message))
  {
  }

  /** The upserts of a prefix of the derived records: each name in it is stored, and the last
      record under each name is the one kept, stamped with the pass's time. */
  lemma PrefixUpserts(t: Table, data: seq<ExternalCountry>, rates: ExchangeRates, ms: seq<real>,
                      now: Time, n: nat)
    requires Multipliers(ms, |data|)
    requires n <= |data|
    ensures var rows := UpsertAll(t, DeriveAll(data, rates, ms)[..n], now).rows;
            && (forall i :: 0 <= i < n ==> FirstMatch(rows, data[i].name).Some?)
            && forall j :: 0 <= j < n && (forall k :: j < k < n ==> !SameName(data[k].name, data[j].name)) ==>
                 var found := FirstMatch(rows, data[j].name);
                 && found.Some?
                 && found.value.country == Derive(data[j], rates, ms[j]).(name := found.value.country.name)
                 && found.value.lastRefreshedAt == now
  {
    var done := DeriveAll(data, rates, ms)[..n];
    UpsertAllStoresEveryName(t, done, now);
    assert forall i :: 0 <= i < n ==> done[i] == Derive(data[i], rates, ms[i]) && done[i].name == data[i].name;
    forall j | 0 <= j < n && (forall k :: j < k < n ==> !SameName(data[k].name, data[j].name))
      ensures var found := FirstMatch(UpsertAll(t, done, now).rows, data[j].name);
              && found.Some?
              && found.value.country == Derive(data[j], rates, ms[j]).(name := found.value.country.name)
              && found.value.lastRefreshedAt == now
    {
      UpsertAllLastWriteWins(t, done, now, j);
    }
  }

  /** A storage fault part-way through rolls nothing back: every country processed before it
      keeps the record the pass wrote for it (the last one written under its name), stamped
      with the pass's time; the metadata is untouched, and the answer is the same 503. */
  lemma FaultKeepsEarlierUpserts(s: State, data: seq<ExternalCountry>, rates: ExchangeRates,
                                 ms: seq<real>, now: Time, fault: Fault)
    requires Multipliers(ms, |data|)
    requires fault.step <= |data|
    ensures var r := Refresh(s, Fetched(data), Fetched(rates), ms, now, Some(fault));
            && r.outcome == Unavailable(UnavailableError, fault.message)
            && r.state.metadata == s.metadata
            && (forall i :: 0 <= i < fault.step ==> FirstMatch(r.state.table.rows, data[i].name).Some?)
            && forall j :: 0 <= j < fault.step && (forall k :: j < k < fault.step ==> !SameName(data[k].name, data[j].name)) ==>
                 var found := FirstMatch(r.state.table.rows, data[j].name);
                 && found.Some?
                 && found.value.country == Derive(data[j], rates, ms[j]).(name := found.value.country.name)
                 && found.value.lastRefreshedAt == now
  {
    RefreshFaulted(s, data, rates, ms, now, fault);
    PrefixUpserts(s.table, data, rates, ms, now, fault.step);
  }

  /** After a completed pass, the row found by the name of the last fetched country with
      that name carries that country's derived record. */
  lemma RefreshWritesLastOccurrence(s: State, data: seq<ExternalCountry>, rates: ExchangeRates,
                                    ms: seq<real>, now: Time, j: nat)
    requires Multipliers(ms, |data|)
    requires j < |data|
    requires forall k :: j < k < |data| ==> !SameName(data[k].name, data[j].name)
    ensures var found := FirstMatch(Refresh(s, Fetched(data), Fetched(rates), ms, now, None).state.table.rows, data[j].name);
            && found.Some?
            && found.value.country == Derive(data[j], rates, ms[j]).(name := found.value.country.name)
            && found.value.lastRefreshedAt == now
  {
    var derived := DeriveAll(data, rates, ms);
    assert forall k :: 0 <= k < |data| ==> derived[k].name == data[k].name;
    UpsertAllLastWriteWins(s.table, derived, now, j);
  }

  /** Refreshing twice from the same data leaves every structural field of each country as
      the first pass wrote it: only the GDP value (not whether it is NULL) and the timestamp
      may differ. `j` is the last fetched country with its name. */
  lemma RefreshTwiceKeepsStructure(s: State, data: seq<ExternalCountry>, rates: ExchangeRates,
                                   ms1: seq<real>, ms2: seq<real>, now1: Time, now2: Time, j: nat)
    requires Multipliers(ms1, |data|) && Multipliers(ms2, |data|)
    requires j < |data|
    requires forall k :: j < k < |data| ==> !SameName(data[k].name, data[j].name)
    ensures var s1 := Refresh(s, Fetched(data), Fetched(rates), ms1, now1, None).state;
            var s2 := Refresh(s1, Fetched(data), Fetched(rates), ms2, now2, None).state;
            var r1, r2 := FirstMatch(s1.table.rows, data[j].name), FirstMatch(s2.table.rows, data[j].name);
            && r1.Some? && r2.Some?
            && r1.value.id == r2.value.id
            && r1.value.country.name == r2.value.country.name
            && r1.value.country.(estimatedGdp := None) == r2.value.country.(estimatedGdp := None)
            && (r1.value.country.estimatedGdp.Some? <==> r2.value.country.estimatedGdp.Some?)
  {
    var s1 := Refresh(s, Fetched(data), Fetched(rates), ms1, now1, None).state;
    RefreshWritesLastOccurrence(s, data, rates, ms1, now1, j);
    UpsertAllKeepsFound(s1.table, DeriveAll(data, rates, ms2), now2, data[j].name);
    RefreshWritesLastOccurrence(s1, data, rates, ms2, now2, j);
    DerivedStructureIgnoresMultiplier(data[j], rates, ms1[j], ms2[j]);
  }

  /** A fetched country whose currency has no rate is stored with a NULL GDP, counted, and
      kept out of the top list. */
  lemma MissingRateScenario(now: Time, m: real)
    requires 1000.0 <= m < 2000.0
    ensures var testland := ExternalCountry("Testland", None, None, 1000, None, Some([Currency("ABC", "", "")]));
            var r := Refresh(State(Table([], 1), Metadata(0, None)), Fetched([testland]),
                             Fetched(ExchangeRates(map[])), [m], now, None);
            && |r.state.table.rows| == 1
            && r.state.table.rows[0].country.name == "Testland"
            && r.state.table.rows[0].country.estimatedGdp.None?
            && r.state.metadata.totalCountries == 1
            && r.outcome.Refreshed? && r.outcome.summary.topCountries == []
  {
    var testland := ExternalCountry("Testland", None, None, 1000, None, Some([Currency("ABC", "", "")]));
    RefreshCompleted(State(Table([], 1), Metadata(0, None)), [testland], ExchangeRates(map[]), [m], now);
    var derived := DeriveAll([testland], ExchangeRates(map[]), [m]);
    UpsertAllSnoc(Table([], 1), derived, 0, now);
    assert derived[..0] == [] && derived[..1] == derived;
    var t := UpsertAll(Table([], 1), derived, now);
    assert t.rows == [Row(1, derived[0], now)];
    assert WithGdp(t.rows) == [];
  }
}
