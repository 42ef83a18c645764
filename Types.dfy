/** The records of functions/src/scheduled/types.ts. */
module Types {
  import opened Wrappers

  /** A sport as the Odds API reports it. The sanitiser defends against
      missing fields, so every field it defaults is optional here. */
  datatype Sport = Sport(
    key: string,
    active: Option<bool>,
    group: Option<string>,
    description: Option<string>,
    title: Option<string>,
    has_outrights: Option<bool>,
    outrights: seq<string>)

  /** A sport as it is stored under the "sports" path. */
  datatype ProcessedSport = ProcessedSport(
    group: string,
    title: string,
    description: string,
    active: bool,
    has_outrights: bool,
    lastUpdated: nat)

  /** The market kinds the Odds API reports. */
  datatype MarketKey = H2h | Spreads | Totals | Outrights

  /** Prices are floating point numbers in the source; `real` stands in for them. */
  datatype Outcome = Outcome(
    name: string,
    price: real,
    point: Option<real>,
    description: Option<string>,
    link: Option<string>,
    sid: Option<string>,
    bet_limit: Option<real>)

  datatype Market = Market(
    key: MarketKey,
    last_update: string,
    outcomes: seq<Outcome>,
    link: Option<string>,
    sid: Option<string>)

  datatype Bookmaker = Bookmaker(
    key: string,
    title: string,
    last_update: string,
    markets: seq<Market>,
    link: Option<string>,
    sid: Option<string>)

  /** One sporting event with its bookmakers' odds. Nothing in the model looks inside it. */
  datatype Event = Event(
    id: string,
    sport_key: string,
    sport_title: string,
    commence_time: string,
    home_team: Option<string>,
    away_team: Option<string>,
    bookmakers: seq<Bookmaker>)

  /** The fetched odds, keyed by sport key. */
  type CombinedOddsData = map<string, seq<Event>>

  /** A thrown JavaScript error, identified by its message. */
  datatype Error = Error(message: string)
}
