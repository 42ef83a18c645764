/** The Realtime Database as the core sees it: a map from a top-level path to the
    snapshot stored there. `set` on a path replaces that one entry as a whole. */
module Database {
  import opened Types

  const SportsPath: string := "sports"
  const OddsPath: string := "odds"

  datatype Metadata = Metadata(lastUpdated: nat, count: nat)

  /** The `{data, metadata}` record both writers store. */
  datatype Snapshot<V> = Snapshot(data: map<string, V>, metadata: Metadata)

  /** What can be stored at a path: the sports catalogue or the odds data. */
  datatype Node =
    | SportsNode(sports: Snapshot<ProcessedSport>)
    | OddsNode(odds: Snapshot<seq<Event>>)

  type Store = map<string, Node>

  /** The count in a snapshot's metadata is the number of keys of its data. */
  ghost predicate Counted<V>(s: Snapshot<V>) {
    s.metadata.count == |s.data|
  }

  ghost predicate NodeCounted(n: Node) {
    match n
    case SportsNode(s) => Counted(s)
    case OddsNode(s) => Counted(s)
  }

  /** Every snapshot in the store carries a correct count. */
  ghost predicate StoreCounted(store: Store) {
    forall p :: p in store ==> NodeCounted(store[p])
  }

  /** `store` and `store'` agree on every path other than `path`. */
  ghost predicate SameElsewhere(store: Store, store': Store, path: string) {
    && (forall p :: p != path ==> (p in store <==> p in store'))
    && (forall p :: p != path && p in store ==> store'[p] == store[p])
  }

  /** Wraps `data` with metadata stamped `now`, counting the keys of `data`. */
  function MakeSnapshot<V>(data: map<string, V>, now: nat): (s: Snapshot<V>)
    ensures Counted(s)
    ensures s.data == data && s.metadata.lastUpdated == now
  {
    Snapshot(data, Metadata(now, |data|))
  }

  /** `db.ref(path).set(node)`: a full overwrite of one path. */
  function SetPath(store: Store, path: string, node: Node): (store': Store)
    ensures path in store' && store'[path] == node
    ensures SameElsewhere(store, store', path)
  {
    store[path := node]
  }
}
