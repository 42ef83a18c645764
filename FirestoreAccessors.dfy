/** functions/src/scheduled/utils/firestoreAccessors.ts: the sports catalogue
    sanitiser and writer, the active-key filter, and the odds writer. */
module FirestoreAccessors {
  import opened Wrappers
  import opened Types
  import opened Database

  // ---------------------------------------------------------------------------
  // Sanitising the sports catalogue
  // ---------------------------------------------------------------------------

  /** `s || ""`: a missing string becomes the empty string. */
  function OrEmpty(s: Option<string>): string {
    if s.Some? then s.value else ""
  }

  /** `Boolean(b)`: a missing flag is false. */
  function ToBoolean(b: Option<bool>): bool {
    b.Some? && b.value
  }

  /** The cleaned record built for one sport, stamped with the clock reading `stamp`. */
  function Clean(sport: Sport, stamp: nat): (p: ProcessedSport)
    ensures (p.group != "" && p.title != "") <==> Admitted(sport)
    ensures p.active == ToBoolean(sport.active) && p.has_outrights == ToBoolean(sport.has_outrights)
    ensures p.lastUpdated == stamp
  {
    ProcessedSport(
      OrEmpty(sport.group), OrEmpty(sport.title), OrEmpty(sport.description),
      ToBoolean(sport.active), ToBoolean(sport.has_outrights), stamp)
  }

  /** A sport is kept when its defaulted group and title are both non-empty. */
  predicate Admitted(sport: Sport) {
    OrEmpty(sport.group) != "" && OrEmpty(sport.title) != ""
  }

  /** The admitted sport at index `i` is the last admitted one with key `k`. */
  ghost predicate LastAdmitted(sports: seq<Sport>, i: int, k: string) {
    && 0 <= i < |sports|
    && sports[i].key == k
    && Admitted(sports[i])
    && forall j :: i < j < |sports| && sports[j].key == k ==> !Admitted(sports[j])
  }

  /** The catalogue that the loop leaves in `processedSports` after visiting
      `sports` in order; `stamps[i]` is the clock reading taken for `sports[i]`. */
  function Catalogue(sports: seq<Sport>, stamps: seq<nat>): (r: map<string, ProcessedSport>)
    requires |stamps| == |sports|
    ensures forall k :: k in r ==> r[k].group != "" && r[k].title != ""
  {
    if sports == [] then map[]
    else
      var n := |sports| - 1;
      var prev := Catalogue(sports[..n], stamps[..n]);
      var clean := Clean(sports[n], stamps[n]);
      if clean.group == "" || clean.title == "" then prev
      else prev[sports[n].key := clean]
  }

  /** A key is in the catalogue exactly when some admitted sport carries it. */
  lemma {:induction false} CatalogueKeys(sports: seq<Sport>, stamps: seq<nat>)
    requires |stamps| == |sports|
    ensures forall k :: k in Catalogue(sports, stamps) <==>
      exists i :: 0 <= i < |sports| && sports[i].key == k && Admitted(sports[i])
  {
    if sports != [] {
      var n := |sports| - 1;
      var prev := Catalogue(sports[..n], stamps[..n]);
      CatalogueKeys(sports[..n], stamps[..n]);
      forall k ensures k in Catalogue(sports, stamps) <==>
        exists i :: 0 <= i < |sports| && sports[i].key == k && Admitted(sports[i])
      {
        if k in Catalogue(sports, stamps) && !(sports[n].key == k && Admitted(sports[n])) {
          assert k in prev;
          var i :| 0 <= i < n && sports[..n][i].key == k && Admitted(sports[..n][i]);
          assert sports[i] == sports[..n][i];
        }
        if exists i :: 0 <= i < |sports| && sports[i].key == k && Admitted(sports[i]) {
          var i :| 0 <= i < |sports| && sports[i].key == k && Admitted(sports[i]);
          if i < n {
            assert sports[..n][i] == sports[i];
            assert k in prev;
          }
        }
      }
    }
  }

  /** Each catalogue entry is the cleaned record of the last admitted sport
      with that key: a later duplicate that is skipped leaves it as it was. */
  lemma {:induction false} CatalogueLastWins(sports: seq<Sport>, stamps: seq<nat>, i: int, k: string)
    requires |stamps| == |sports|
    requires LastAdmitted(sports, i, k)
    ensures k in Catalogue(sports, stamps) && Catalogue(sports, stamps)[k] == Clean(sports[i], stamps[i])
  {
    var n := |sports| - 1;
    if i < n {
      LastAdmittedInPrefix(sports, i, k);
      CatalogueLastWins(sports[..n], stamps[..n], i, k);
      assert sports[..n][i] == sports[i] && stamps[..n][i] == stamps[i];
    }
  }

  /** An index that is last admitted in `sports`, but not the final one, is
      last admitted in the prefix without the final sport, which is skipped or keyed otherwise. */
  lemma LastAdmittedInPrefix(sports: seq<Sport>, i: int, k: string)
    requires LastAdmitted(sports, i, k) && i < |sports| - 1
    ensures LastAdmitted(sports[..|sports| - 1], i, k)
    ensures !(sports[|sports| - 1].key == k && Admitted(sports[|sports| - 1]))
  {
  }

  /** writeSportsToFirebase: builds the catalogue with a loop that skips
      inadmissible sports, wraps it with metadata stamped `now`, and overwrites
      the "sports" path. `stamps[i]` is `Date.now()` as read for `sports[i]`;
      `setFault` is the error the database write raises, if any, which is
      rethrown unchanged. */
  method WriteSportsToFirebase(store: Store, sports: seq<Sport>, stamps: seq<nat>, now: nat, setFault: Option<Error>)
    returns (r: Result<Store, Error>)
    requires |stamps| == |sports|
    ensures setFault.Some? ==> r == Failure(setFault.value)
    ensures setFault.None? ==> r.Success?
    ensures r.Success? ==>
      && SportsPath in r.value
      && r.value[SportsPath] == SportsNode(Snapshot(Catalogue(sports, stamps), Metadata(now, |Catalogue(sports, stamps)|)))
      && SameElsewhere(store, r.value, SportsPath)
  {
    var processedSports: map<string, ProcessedSport> := map[];
    for i := 0 to |sports|
      invariant processedSports == Catalogue(sports[..i], stamps[..i])
    {
      assert sports[..i + 1][..i] == sports[..i] && stamps[..i + 1][..i] == stamps[..i];
      var sport := sports[i];
      var cleanSport := Clean(sport, stamps[i]);
      if cleanSport.group == "" || cleanSport.title == "" {
        continue;
      }
      processedSports := processedSports[sport.key := cleanSport];
    }
    assert sports[..|sports|] == sports && stamps[..|stamps|] == stamps;
    var updateData := Snapshot(processedSports, Metadata(now, |processedSports|));
    if setFault.Some? {
      r := Failure(setFault.value);
    } else {
      r := Success(SetPath(store, SportsPath, SportsNode(updateData)));
    }
  }

  // ---------------------------------------------------------------------------
  // Reading the active sport keys
  // ---------------------------------------------------------------------------

  /** The admission rule: in season and without outright-only markets. */
  predicate IsActive(s: ProcessedSport) {
    s.active == true && s.has_outrights == false
  }

  ghost predicate Distinct<T>(s: seq<T>) {
    forall i, j :: 0 <= i < j < |s| ==> s[i] != s[j]
  }

  /** `a` is `b` with some elements left out, the rest in the same order. */
  ghost predicate Subsequence<T>(a: seq<T>, b: seq<T>)
    decreases |b|
  {
    if a == [] then true
    else if b == [] then false
    else (a[0] == b[0] && Subsequence(a[1..], b[1..])) || Subsequence(a, b[1..])
  }

  /** `entries` lists every key of `keys` exactly once: what `Object.entries`
      enumerates, in the order the database client builds the object. */
  ghost predicate Enumerates(entries: seq<string>, keys: set<string>) {
    && Distinct(entries)
    && (forall i :: 0 <= i < |entries| ==> entries[i] in keys)
    && (forall k :: k in keys ==> k in entries)
  }

  /** The value read at "sports/data", absent when nothing holding a sports
      catalogue is stored at "sports". */
  function SportsData(store: Store): Option<map<string, ProcessedSport>> {
    if SportsPath in store && store[SportsPath].SportsNode? then Some(store[SportsPath].sports.data)
    else None
  }

  /** The `filter` and `map` chain over the entries. */
  function ActiveKeys(data: map<string, ProcessedSport>, entries: seq<string>): (r: seq<string>)
    requires forall i :: 0 <= i < |entries| ==> entries[i] in data
    ensures forall i :: 0 <= i < |r| ==> r[i] in entries && IsActive(data[r[i]])
    ensures |r| <= |entries|
  {
    if entries == [] then []
    else (if IsActive(data[entries[0]]) then [entries[0]] else []) + ActiveKeys(data, entries[1..])
  }

  /** A key is selected exactly when it is listed and its record is active. */
  lemma {:induction false} ActiveKeysExact(data: map<string, ProcessedSport>, entries: seq<string>)
    requires forall i :: 0 <= i < |entries| ==> entries[i] in data
    ensures forall k :: k in ActiveKeys(data, entries) <==> k in entries && IsActive(data[k])
  {
    if entries != [] {
      ActiveKeysExact(data, entries[1..]);
      assert forall k :: k in entries <==> k == entries[0] || k in entries[1..];
    }
  }

  /** The selected keys keep the order of the entries. */
  lemma {:induction false} ActiveKeysInOrder(data: map<string, ProcessedSport>, entries: seq<string>)
    requires forall i :: 0 <= i < |entries| ==> entries[i] in data
    ensures Subsequence(ActiveKeys(data, entries), entries)
  {
    if entries != [] {
      var rest := ActiveKeys(data, entries[1..]);
      ActiveKeysInOrder(data, entries[1..]);
      var r := ActiveKeys(data, entries);
      if IsActive(data[entries[0]]) {
        assert r[0] == entries[0] && r[1..] == rest;
        assert Subsequence(r[1..], entries[1..]);
      } else {
        assert r == rest;
        assert Subsequence(r, entries[1..]);
      }
    }
  }

  /** Each selected key appears once when the entries list each key once. */
  lemma {:induction false} ActiveKeysDistinct(data: map<string, ProcessedSport>, entries: seq<string>)
    requires forall i :: 0 <= i < |entries| ==> entries[i] in data
    requires Distinct(entries)
    ensures Distinct(ActiveKeys(data, entries))
  {
    if entries != [] {
      var rest := ActiveKeys(data, entries[1..]);
      ActiveKeysDistinct(data, entries[1..]);
      if IsActive(data[entries[0]]) {
        ActiveKeysExact(data, entries[1..]);
        assert entries[0] !in entries[1..];
        assert entries[0] !in rest;
      }
    }
  }

  /** The precondition of the read: `entries` enumerates whatever catalogue is stored. */
  ghost predicate EntriesOf(store: Store, entries: seq<string>) {
    SportsData(store).Some? ==> Enumerates(entries, SportsData(store).value.Keys)
  }

  /** getActiveSportTags: the keys of the stored catalogue whose record is active
      and has no outrights, in entry order, each once; the empty list when no
      catalogue is stored. `readFault` is the error the database read raises,
      if any, which is rethrown unchanged. */
  function GetActiveSportTags(store: Store, entries: seq<string>, readFault: Option<Error>): (r: Result<seq<string>, Error>)
    requires EntriesOf(store, entries)
    ensures readFault.Some? ==> r == Failure(readFault.value)
    ensures readFault.None? && SportsData(store).None? ==> r == Success([])
    ensures readFault.None? && SportsData(store).Some? ==>
      var data := SportsData(store).value;
      && r.Success?
      && (forall k :: k in r.value <==> k in data && IsActive(data[k]))
      && Distinct(r.value)
      && Subsequence(r.value, entries)
  {
    if readFault.Some? then Failure(readFault.value)
    else match SportsData(store)
      case None => Success([])
      case Some(data) =>
        ActiveKeysExact(data, entries);
        ActiveKeysInOrder(data, entries);
        ActiveKeysDistinct(data, entries);
        Success(ActiveKeys(data, entries))
  }

  /** Reading back a catalogue just written: a key is an active tag exactly when
      its last admitted sport is flagged active and has no outrights, and a key
      whose every sport was skipped is not a tag. */
  lemma SportsWriteThenRead(store: Store, sports: seq<Sport>, stamps: seq<nat>, now: nat, entries: seq<string>, k: string)
    requires |stamps| == |sports|
    requires Enumerates(entries, Catalogue(sports, stamps).Keys)
    ensures
      var store' := SetPath(store, SportsPath, SportsNode(MakeSnapshot(Catalogue(sports, stamps), now)));
      var tags := GetActiveSportTags(store', entries, None);
      && tags.Success?
      && (forall i :: LastAdmitted(sports, i, k) ==>
            (k in tags.value <==> ToBoolean(sports[i].active) && !ToBoolean(sports[i].has_outrights)))
      && ((forall i :: 0 <= i < |sports| && sports[i].key == k ==> !Admitted(sports[i])) ==> k !in tags.value)
  {
    forall i | LastAdmitted(sports, i, k)
      ensures k in Catalogue(sports, stamps) && Catalogue(sports, stamps)[k] == Clean(sports[i], stamps[i])
    {
      CatalogueLastWins(sports, stamps, i, k);
    }
    CatalogueKeys(sports, stamps);
  }

  // ---------------------------------------------------------------------------
  // Writing the odds
  // ---------------------------------------------------------------------------

  /** writeOddsToFirebase: overwrites the "odds" path with the input data,
      unchanged, and metadata stamped `now` that counts its keys. `setFault` is
      the error the write raises, if any, which is rethrown unchanged. */
  function WriteOddsToFirebase(store: Store, oddsData: CombinedOddsData, now: nat, setFault: Option<Error>): (r: Result<Store, Error>)
    ensures setFault.Some? ==> r == Failure(setFault.value)
    ensures setFault.None? ==> r.Success?
    ensures r.Success? ==>
      && OddsPath in r.value
      && r.value[OddsPath] == OddsNode(Snapshot(oddsData, Metadata(now, |oddsData|)))
      && SameElsewhere(store, r.value, OddsPath)
  {
    var updateData := MakeSnapshot(oddsData, now);
    if setFault.Some? then Failure(setFault.value)
    else Success(SetPath(store, OddsPath, OddsNode(updateData)))
  }

  /** A second odds write discards the first entirely: no merge with the prior snapshot. */
  lemma OddsWriteOverwrites(store: Store, first: CombinedOddsData, second: CombinedOddsData, t1: nat, t2: nat)
    ensures WriteOddsToFirebase(WriteOddsToFirebase(store, first, t1, None).value, second, t2, None)
         == WriteOddsToFirebase(store, second, t2, None)
  {
    var n1 := OddsNode(MakeSnapshot(first, t1));
    var n2 := OddsNode(MakeSnapshot(second, t2));
    assert store[OddsPath := n1][OddsPath := n2] == store[OddsPath := n2];
  }

  /** Both writers keep every stored count equal to the number of keys of its data. */
  lemma WritesKeepCounts(store: Store, sports: seq<Sport>, stamps: seq<nat>, oddsData: CombinedOddsData, now: nat)
    requires |stamps| == |sports|
    requires StoreCounted(store)
    ensures StoreCounted(SetPath(store, SportsPath, SportsNode(MakeSnapshot(Catalogue(sports, stamps), now))))
    ensures StoreCounted(WriteOddsToFirebase(store, oddsData, now, None).value)
  {
  }
}
