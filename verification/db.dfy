/** The key-value store the draft state and the cube digest are persisted in. File I/O is not
    modelled: the store is the map of keys to values `Database` keeps in memory. */
module Database {
  import opened Wrappers

  /** A seat as persisted: cards by name, the read time as epoch milliseconds or `null`. */
  datatype SerializedSeat = SerializedSeat(
    drafted: seq<string>,
    sideboard: seq<string>,
    currentPack: seq<string>,
    unopenedPacks: seq<seq<string>>,
    readTime: Option<int>)

  /** The two shapes of value the program stores: the digest string and the seat list. */
  datatype Data = Text(text: string) | SeatList(seats: seq<SerializedSeat>)

  type Store = map<string, Data>

  const DigestKey: string := "digest"
  const SeatsKey: string := "seats"

  /** `get(key)`; `None` is `undefined`. */
  function Get(store: Store, key: string): (r: Option<Data>)
    ensures r.Some? <==> key in store
    ensures r.Some? ==> r.value == store[key]
  {
    if key in store then Some(store[key]) else None
  }

  /** `set(key, value)`. */
  function Set(store: Store, key: string, value: Data): (r: Store)
    ensures Get(r, key) == Some(value)
    ensures forall k :: k != key ==> Get(r, k) == Get(store, k)
    ensures r.Keys == store.Keys + {key}
  {
    store[key := value]
  }

  /** `clear()`. */
  function Clear(): (r: Store)
    ensures forall k :: Get(r, k) == None
  {
    map[]
  }
}
