/** The refresh pass of src/controllers/countryController.ts: fetch both sources, derive
    each country's currency code, exchange rate and estimated GDP, upsert it into the
    catalog by case-insensitive name, record the processed count in the metadata row and
    hand a summary to the image sink. */
module CountryController {
  import opened Types
  import opened CountryModel

  /** The outcome of one request to an external source: its parsed body, or a failure
      (network error, timeout or error status). */
  datatype Fetch<T> = Fetched(data: T) | FetchFailed

  const CountriesSourceError := "Could not fetch data from REST Countries API"
  const RatesSourceError := "Could not fetch data from Exchange Rate API"

  /** The `error` field of every failed refresh (HTTP 503), whatever went wrong. */
  const UnavailableError := "External data source unavailable"

  /** How many countries the summary lists. */
  const TopCount: nat := 5

  /** A storage or image-sink fault met during the pass, carrying the error's message.
      `step < n`: the statement for the country at that index fails; `step == n`: the
      metadata write fails; `step > n`: the top-GDP query or the image write fails, after
      the metadata write. */
  datatype Fault = Fault(step: nat, message: string)

  /** The record handed to the image sink. */
  datatype Summary = Summary(totalCountries: nat, topCountries: seq<TopEntry>, timestamp: Time)

  /** The response of the refresh endpoint: the processed count (and the summary that was
      rendered), or a 503 with an error and its details. */
  datatype RefreshOutcome =
    | Refreshed(totalProcessed: nat, summary: Summary)
    | Unavailable(error: string, details: string)

  /** The state the pass reads and writes: the countries table and the metadata row. */
  datatype State = State(table: Table, metadata: Metadata)

  datatype RefreshResult = RefreshResult(state: State, outcome: RefreshOutcome)

  /** One draw of `Math.random() * (2000 - 1000) + 1000` per fetched country. */
  ghost predicate Multipliers(ms: seq<real>, n: nat)
  {
    |ms| == n && forall i :: 0 <= i < n ==> 1000.0 <= ms[i] < 2000.0
  }

  /** `extCountry.currencies?.[0]?.code || null`: the first descriptor's code; an absent or
      empty list, or an empty code, gives NULL. */
  function CurrencyCode(e: ExternalCountry): (r: Option<string>)
    ensures r.Some? ==> r.value != "" && e.currencies.Some? && |e.currencies.value| > 0
                        && r.value == e.currencies.value[0].code
    ensures r.None? ==> e.currencies.None? || |e.currencies.value| == 0 || e.currencies.value[0].code == ""
  {
    match e.currencies
    case None => None
    case Some(cs) => if |cs| > 0 && cs[0].code != "" then Some(cs[0].code) else None
  }

  /** `currencyCode ? rates[currencyCode] || null : null`: a missing rate and a rate of 0
      both give NULL. */
  function ExchangeRate(code: Option<string>, rates: ExchangeRates): (r: Option<real>)
    ensures r.Some? ==> code.Some? && r.value != 0.0
  {
    match code
    case None => None
    case Some(k) => if k in rates.rates && rates.rates[k] != 0.0 then Some(rates.rates[k]) else None
  }

  /** The GDP estimate: `population * multiplier / rate` with both a code and a rate,
      exactly 0 without a code, and NULL with a code but no rate. */
  function EstimatedGdp(population: int, code: Option<string>, rate: Option<real>, multiplier: real): (g: Option<real>)
    requires rate.Some? ==> rate.value != 0.0
    ensures g.None? <==> code.Some? && rate.None?
    ensures code.None? ==> g == Some(0.0)
  {
    if rate.Some? && code.Some? then Some(population as real * multiplier / rate.value)
    else if code.None? then Some(0.0)
    else None
  }

  /** The record the pass writes for one fetched country. */
  function Derive(e: ExternalCountry, rates: ExchangeRates, multiplier: real): (c: Country)
    ensures c.name == e.name && c.capital == e.capital && c.region == e.region
    ensures c.population == e.population && c.flagUrl == e.flag
    ensures c.exchangeRate.Some? ==> c.currencyCode.Some?
  {
    var code := CurrencyCode(e);
    var rate := ExchangeRate(code, rates);
    Country(e.name, e.capital, e.region, e.population, code, rate,
            EstimatedGdp(e.population, code, rate, multiplier), e.flag)
  }

  function DeriveAll(es: seq<ExternalCountry>, rates: ExchangeRates, ms: seq<real>): (cs: seq<Country>)
    requires |ms| == |es|
    ensures |cs| == |es|
  {
    seq(|es|, i requires 0 <= i < |es| => Derive(es[i], rates, ms[i]))
  }

  /** `findByName`, then `update` when it finds a row and `create` otherwise. */
  function Upsert(t: Table, c: Country, now: Time): (u: Table)
    ensures |t.rows| <= |u.rows| <= |t.rows| + 1
    ensures |u.rows| == |t.rows| + 1 <==> FirstMatch(t.rows, c.name).None?
    ensures u.nextId - t.nextId == |u.rows| - |t.rows|
  {
    if FirstMatch(t.rows, c.name).Some? then Table(Overwritten(t.rows, c.name, c, now), t.nextId)
    else Table(t.rows + [Row(t.nextId, c, now)], t.nextId + 1)
  }

  /** The upserts of `cs`, one after another in fetch order. */
  function UpsertAll(t: Table, cs: seq<Country>, now: Time): (r: Table)
    ensures |t.rows| <= |r.rows| <= |t.rows| + |cs|
    ensures r.nextId - t.nextId == |r.rows| - |t.rows|
    decreases |cs|
  {
    if cs == [] then t else Upsert(UpsertAll(t, cs[..|cs| - 1], now), cs[|cs| - 1], now)
  }

  /** What one refresh does to the catalog and what it answers. Both fetches are awaited
      together, so a failure of either comes before any write. */
  function Refresh(s: State, countries: Fetch<seq<ExternalCountry>>, rates: Fetch<ExchangeRates>,
                   ms: seq<real>, now: Time, fault: Option<Fault>): (r: RefreshResult)
    requires countries.Fetched? ==> Multipliers(ms, |countries.data|)
    ensures r.outcome.Refreshed? <==> countries.Fetched? && rates.Fetched? && fault.None?
    ensures r.outcome.Unavailable? ==> r.outcome.error == UnavailableError
    ensures r.outcome.Refreshed? ==>
              && r.outcome.totalProcessed == |countries.data|
              && r.state.metadata == Metadata(|countries.data|, Some(now))
  {
    if countries.FetchFailed? then RefreshResult(s, Unavailable(UnavailableError, CountriesSourceError))
    else if rates.FetchFailed? then RefreshResult(s, Unavailable(UnavailableError, RatesSourceError))
    else
      var n := |countries.data|;
      var derived := DeriveAll(countries.data, rates.data, ms);
      if fault.Some? && fault.value.step < n then
        RefreshResult(State(UpsertAll(s.table, derived[..fault.value.step], now), s.metadata),
                      Unavailable(UnavailableError, fault.value.message))
      else
        var t := UpsertAll(s.table, derived, now);
        if fault.Some? && fault.value.step == n then
          RefreshResult(State(t, s.metadata), Unavailable(UnavailableError, fault.value.message))
        else
          var m := Metadata(n, Some(now));
          if fault.Some? then RefreshResult(State(t, m), Unavailable(UnavailableError, fault.value.message))
          else RefreshResult(State(t, m), Refreshed(n, Summary(n, TopByGdp(t.rows, TopCount), now)))
  }

  function StateOf(store: CountryStore): State
    reads store
  {
    State(Table(store.rows, store.nextId), store.metadata)
  }

  lemma UpsertAllSnoc(t: Table, cs: seq<Country>, i: nat, now: Time)
    requires i < |cs|
    ensures UpsertAll(t, cs[..i + 1], now) == Upsert(UpsertAll(t, cs[..i], now), cs[i], now)
  {
    assert cs[..i + 1][..i] == cs[..i];
  }

  /** The refresh handler: fetch, upsert every country in order, write the metadata, then
      build the summary from the top five GDPs. */
  method RefreshCountries(store: CountryStore, countries: Fetch<seq<ExternalCountry>>, rates: Fetch<ExchangeRates>,
                          multipliers: seq<real>, now: Time, fault: Option<Fault>)
    returns (outcome: RefreshOutcome)
    requires store.Valid()
    requires countries.Fetched? ==> Multipliers(multipliers, |countries.data|)
    modifies store
    ensures store.Valid()
    ensures var r := Refresh(old(StateOf(store)), countries, rates, multipliers, now, fault);
            StateOf(store) == r.state && outcome == r.outcome
  {
    if countries.FetchFailed? {
      return Unavailable(UnavailableError, CountriesSourceError);
    }
    if rates.FetchFailed? {
      return Unavailable(UnavailableError, RatesSourceError);
    }
    var data := countries.data;
    ghost var derived := DeriveAll(data, rates.data, multipliers);
    ghost var start := Table(store.rows, store.nextId);
    var processedCount := 0;
    for i := 0 to |data|
      invariant processedCount == i
      invariant store.Valid()
      invariant Table(store.rows, store.nextId) == UpsertAll(start, derived[..i], now)
      invariant store.metadata == old(store.metadata)
      invariant fault.Some? ==> fault.value.step >= i
    {
      if fault.Some? && fault.value.step == i {
        return Unavailable(UnavailableError, fault.value.message);
      }
      var country := Derive(data[i], rates.data, multipliers[i]);
      var existing := store.FindByName(country.name);
      if existing.Some? {
        store.Update(country.name, country, now);
      } else {
        var created := store.Create(country, now);
        if created.Rejected? {
          // findByName has just found no row with this name, so the index cannot object.
          assert false;
        }
      }
      processedCount := processedCount + 1;
      UpsertAllSnoc(start, derived, i, now);
    }
    assert derived[..|data|] == derived;
    if fault.Some? && fault.value.step == |data| {
      return Unavailable(UnavailableError, fault.value.message);
    }
    store.UpdateMetadata(processedCount, now);
    var topCountries := store.GetTopByGdp(TopCount);
    if fault.Some? {
      return Unavailable(UnavailableError, fault.value.message);
    }
    outcome := Refreshed(processedCount, Summary(processedCount, topCountries, now));
  }
}
