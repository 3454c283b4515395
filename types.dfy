/** The records that flow between the two external sources, the refresh pass and the
    catalog (src/types/index.ts), and the shape of a stored row (setup-tables.js). */
module Types {

  datatype Option<+T> = None | Some(value: T)

  /** A server timestamp. The model only stores timestamps and compares them for equality. */
  type Time = nat

  /** One currency descriptor of a country from the countries source. */
  datatype Currency = Currency(code: string, name: string, symbol: string)

  /** A raw record of the countries source. `currencies` is absent for some countries. */
  datatype ExternalCountry = ExternalCountry(
    name: string,
    capital: Option<string>,
    region: Option<string>,
    population: int,
    flag: Option<string>,
    currencies: Option<seq<Currency>>)

  /** The body of the exchange-rate source: currency code to rate. */
  datatype ExchangeRates = ExchangeRates(rates: map<string, real>)

  /** The fields the refresh pass builds for one country and hands to the catalog.
      `None` is SQL NULL (or an absent property). */
  datatype Country = Country(
    name: string,
    capital: Option<string>,
    region: Option<string>,
    population: int,
    currencyCode: Option<string>,
    exchangeRate: Option<real>,
    estimatedGdp: Option<real>,
    flagUrl: Option<string>)

  /** A row of the `countries` table: the AUTO_INCREMENT id, the written fields and the
      `last_refreshed_at` column the server stamps on every insert and update. */
  datatype Row = Row(id: nat, country: Country, lastRefreshedAt: Time)

  /** The query string of the listing endpoint. */
  datatype CountryQuery = CountryQuery(region: Option<string>, currency: Option<string>, sort: Option<string>)

  /** The single `app_metadata` row. */
  datatype Metadata = Metadata(totalCountries: int, lastRefreshedAt: Option<Time>)
}
