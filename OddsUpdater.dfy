/** functions/src/scheduled/oddsUpdater.ts: the scheduled handler that reads the
    active sport keys, fetches their odds and writes the odds snapshot. Each
    awaited call is one step; the collaborators' outcomes are parameters. */
module OddsUpdater {
  import opened Wrappers
  import opened Types
  import opened Database
  import opened FirestoreAccessors

  /** The batch size and inter-batch delay (ms) passed to the fetch. */
  const BatchSize: nat := 5
  const BatchDelayMs: nat := 1000

  const MissingParameters: Error := Error("Missing required parameters: apiKey or oddsApiUrl")

  /** The outside-world calls the handler makes, in order. */
  datatype Effect =
    | ReadActiveTags
    | FetchOdds(apiKey: string, apiUrl: string, sportKeys: seq<string>, batchSize: nat, delayMs: nat)
    | WriteOdds(snapshot: Snapshot<seq<Event>>)

  /** How the handler ends: it returns, or it throws `error`. */
  datatype Status = Completed | Failed(error: Error)

  datatype Run = Run(effects: seq<Effect>, status: Status, store: Store)

  /** `!apiKey`: the secret is unset or empty. */
  predicate MissingKey(apiKey: Option<string>) {
    apiKey.None? || apiKey.value == ""
  }

  function FetchCount(effects: seq<Effect>): nat {
    if effects == [] then 0 else (if effects[0].FetchOdds? then 1 else 0) + FetchCount(effects[1..])
  }

  function WriteCount(effects: seq<Effect>): nat {
    if effects == [] then 0 else (if effects[0].WriteOdds? then 1 else 0) + WriteCount(effects[1..])
  }

  /** The tags the read yields when it does not fail. */
  function ActiveTags(store: Store, entries: seq<string>): seq<string>
    requires EntriesOf(store, entries)
  {
    GetActiveSportTags(store, entries, None).value
  }

  /** The handler gets past the key check, the read and the empty-list check. */
  predicate ReachesFetch(apiKey: Option<string>, store: Store, entries: seq<string>, readFault: Option<Error>)
    requires EntriesOf(store, entries)
  {
    !MissingKey(apiKey) && readFault.None? && ActiveTags(store, entries) != []
  }

  /** One run of the handler. `apiKey` is `process.env.ODDS_API_KEY`, `apiUrl`
      the configured base URL, `entries` the database client's enumeration of
      the stored catalogue, `readFault` the error the catalogue read raises (if
      any), `fetched` what the batched fetch returns or throws, `now` the clock
      reading for the odds metadata and `writeFault` the error the write raises. */
  function OddsRun(
    apiKey: Option<string>, apiUrl: string, store: Store, entries: seq<string>,
    readFault: Option<Error>, fetched: Result<CombinedOddsData, Error>, now: nat, writeFault: Option<Error>): (run: Run)
    requires EntriesOf(store, entries)
    // A missing key throws before anything else happens.
    ensures MissingKey(apiKey) ==> run == Run([], Failed(MissingParameters), store)
    // A failing read is rethrown unchanged, with nothing fetched or written.
    ensures !MissingKey(apiKey) && readFault.Some? ==> run == Run([ReadActiveTags], Failed(readFault.value), store)
    // No active sport: the run returns normally without fetching or writing.
    ensures !MissingKey(apiKey) && readFault.None? && ActiveTags(store, entries) == [] ==>
      run == Run([ReadActiveTags], Completed, store)
    // Otherwise the fetch is the next step, made once, with the tags in order.
    ensures ReachesFetch(apiKey, store, entries, readFault) ==>
      && |run.effects| >= 2
      && run.effects[..2] == [ReadActiveTags, FetchOdds(apiKey.value, apiUrl, ActiveTags(store, entries), 5, 1000)]
      && FetchCount(run.effects) == 1
    // The odds snapshot is written once exactly when the fetch returns at least one key.
    ensures WriteCount(run.effects) ==
      if ReachesFetch(apiKey, store, entries, readFault) && fetched.Success? && |fetched.value| > 0 then 1 else 0
    // A failing fetch is rethrown unchanged, with nothing written.
    ensures ReachesFetch(apiKey, store, entries, readFault) && fetched.Failure? ==>
      run.status == Failed(fetched.error) && run.store == store
    // An empty fetch result ends the run normally and leaves the store as it was.
    ensures ReachesFetch(apiKey, store, entries, readFault) && fetched.Success? && |fetched.value| == 0 ==>
      run.status == Completed && run.store == store
    // A non-empty result is written; a failing write is rethrown unchanged and changes nothing.
    ensures ReachesFetch(apiKey, store, entries, readFault) && fetched.Success? && |fetched.value| > 0 ==>
      && run.effects == [ReadActiveTags, FetchOdds(apiKey.value, apiUrl, ActiveTags(store, entries), 5, 1000),
                         WriteOdds(Snapshot(fetched.value, Metadata(now, |fetched.value|)))]
      && (writeFault.Some? ==> run.status == Failed(writeFault.value) && run.store == store)
      && (writeFault.None? ==> run.status == Completed
                               && run.store == WriteOddsToFirebase(store, fetched.value, now, None).value)
  {
    if MissingKey(apiKey) then Run([], Failed(MissingParameters), store)
    else
      match GetActiveSportTags(store, entries, readFault)
      case Failure(e) => Run([ReadActiveTags], Failed(e), store)
      case Success(activeSportTags) =>
        if |activeSportTags| == 0 then Run([ReadActiveTags], Completed, store)
        else
          var fetch := FetchOdds(apiKey.value, apiUrl, activeSportTags, BatchSize, BatchDelayMs);
          assert [ReadActiveTags, fetch][1..] == [fetch] && [fetch][1..] == [];
          assert FetchCount([fetch]) == 1 && WriteCount([fetch]) == 0;
          match fetched
          case Failure(e) => Run([ReadActiveTags, fetch], Failed(e), store)
          case Success(combinedOddsData) =>
            if |combinedOddsData| == 0 then Run([ReadActiveTags, fetch], Completed, store)
            else
              var write := WriteOdds(MakeSnapshot(combinedOddsData, now));
              var effects := [ReadActiveTags, fetch, write];
              assert effects[1..] == [fetch, write] && effects[1..][1..] == [write] && [write][1..] == [];
              assert FetchCount([write]) == 0 && WriteCount([write]) == 1;
              assert FetchCount([fetch, write]) == 1 && WriteCount([fetch, write]) == 1;
              match WriteOddsToFirebase(store, combinedOddsData, now, writeFault)
              case Failure(e) => Run(effects, Failed(e), store)
              case Success(store') => Run(effects, Completed, store')
  }

  /** Whatever its collaborators do, a run keeps every stored count equal to
      the number of keys of its data. */
  lemma OddsRunKeepsCounts(
    apiKey: Option<string>, apiUrl: string, store: Store, entries: seq<string>,
    readFault: Option<Error>, fetched: Result<CombinedOddsData, Error>, now: nat, writeFault: Option<Error>)
    requires EntriesOf(store, entries)
    requires StoreCounted(store)
    ensures StoreCounted(OddsRun(apiKey, apiUrl, store, entries, readFault, fetched, now, writeFault).store)
  {
    if fetched.Success? {
      WritesKeepCounts(store, [], [], fetched.value, now);
    }
  }
}
