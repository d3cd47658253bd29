/**
 * `useStorageState`: a `[isLoading, value]` pair in memory mirroring one entry of
 * the device's secure key-value store. Loading the entry and setting a new value
 * are modelled as atomic transitions over the pair and the store.
 */
module StorageState {
  import opened Wrappers

  /** The secure store: at most one string per key. */
  type Store = map<string, string>

  /** The hook's in-memory state `[isLoading, value]`. */
  datatype Slot = Slot(isLoading: bool, value: Option<string>)

  /** `useAsyncState`'s default initial state: still loading, no value yet. */
  const Initial: Slot := Slot(true, None)

  /** The `useReducer` reducer: every action clears loading and becomes the value. */
  function Reduce(prev: Slot, action: Option<string>): (r: Slot)
    ensures !r.isLoading && r.value == action
  {
    Slot(false, action)
  }

  /** No entry holds `''`: the hook deletes instead of writing an empty string. */
  predicate NoEmptyEntries(store: Store) {
    forall k :: k in store ==> store[k] != ""
  }

  /** The store's answer to `getItemAsync(key)`: the entry, or `null` when there is none. */
  function GetItem(store: Store, key: string): Option<string> {
    if key in store then Some(store[key]) else None
  }

  /** What the store keeps for a written value: `null` and `''` both leave no entry. */
  function Stored(value: Option<string>): Option<string> {
    if value == Some("") then None else value
  }

  /**
   * `setStorageItemAsync(key, value)`: `null` or `''` deletes the entry, any
   * other string is stored exactly; no other key is touched.
   */
  function SetStorageItem(store: Store, key: string, value: Option<string>): (st: Store)
    ensures value.None? || value == Some("") ==> key !in st
    ensures value.Some? && value != Some("") ==> key in st && st[key] == value.value
    ensures forall k :: k != key ==> GetItem(st, k) == GetItem(store, k)
    ensures st.Keys - {key} == store.Keys - {key}
    ensures NoEmptyEntries(store) ==> NoEmptyEntries(st)
  {
    match value
    case None => store - {key}
    case Some(v) => if v == "" then store - {key} else store[key := v]
  }

  /**
   * The mount effect: `getItemAsync(key)` resolves and is dispatched, so the
   * pair stops loading and holds the entry, or `null` when the key is absent.
   */
  function Load(slot: Slot, store: Store, key: string): (s: Slot)
    ensures !s.isLoading
    ensures key in store ==> s.value == Some(store[key])
    ensures key !in store ==> s.value == None
  {
    Reduce(slot, GetItem(store, key))
  }

  /** The pair and the store after one `setValue` call. */
  datatype Written = Written(slot: Slot, store: Store)

  /**
   * `setValue(value)`: memory takes the value exactly (`''` included) while the
   * store keeps it only when it is a non-empty string; a later load gets back
   * what the store kept, and every other key reads as before.
   */
  function SetValue(slot: Slot, store: Store, key: string, value: Option<string>): (w: Written)
    ensures w.slot == Slot(false, value)
    ensures Load(Initial, w.store, key).value == Stored(value)
    ensures forall k :: k != key ==> GetItem(w.store, k) == GetItem(store, k)
    ensures NoEmptyEntries(store) ==> NoEmptyEntries(w.store)
  {
    Written(Reduce(slot, value), SetStorageItem(store, key, value))
  }

  /**
   * Once loaded, the in-memory value agrees with the store's entry up to the
   * store's normalisation of `''` to no entry.
   */
  predicate Mirrors(slot: Slot, store: Store, key: string) {
    !slot.isLoading ==> Stored(slot.value) == GetItem(store, key)
  }

  /** Every reducer action ends loading and replaces the value, whatever the previous state was. */
  lemma ReduceReplacesWholesale(a: Slot, b: Slot, action: Option<string>)
    ensures Reduce(a, action) == Reduce(b, action)
    ensures !Reduce(a, action).isLoading && Reduce(a, action).value == action
  {
  }

  /** Before the first load the hook reports loading, and loading says nothing about the store yet. */
  lemma InitialIsLoading(store: Store, key: string)
    ensures Initial.isLoading && Initial.value == None
    ensures Mirrors(Initial, store, key)
  {
  }

  /** A load brings memory in line with a store the hook has been writing. */
  lemma LoadMirrors(slot: Slot, store: Store, key: string)
    requires NoEmptyEntries(store)
    ensures Mirrors(Load(slot, store, key), store, key)
  {
  }

  /** After `setValue` memory mirrors the store again, and a mirror of any other key survives. */
  lemma SetValueMirrors(slot: Slot, other: Slot, store: Store, key: string, otherKey: string, value: Option<string>)
    requires otherKey != key
    requires Mirrors(other, store, otherKey)
    ensures Mirrors(SetValue(slot, store, key, value).slot, SetValue(slot, store, key, value).store, key)
    ensures Mirrors(other, SetValue(slot, store, key, value).store, otherKey)
  {
  }

  /** Setting a non-empty string then reloading yields that string: the write survives a restart. */
  lemma SetThenReload(slot: Slot, store: Store, key: string, v: string)
    requires v != ""
    ensures SetValue(slot, store, key, Some(v)).slot.value == Some(v)
    ensures Load(Initial, SetValue(slot, store, key, Some(v)).store, key).value == Some(v)
  {
  }

  /** Setting `''` keeps `''` in memory but deletes the entry, so a reload reads `null`. */
  lemma SetEmptyThenReload(slot: Slot, store: Store, key: string)
    ensures SetValue(slot, store, key, Some("")).slot.value == Some("")
    ensures key !in SetValue(slot, store, key, Some("")).store
    ensures Load(Initial, SetValue(slot, store, key, Some("")).store, key).value == None
  {
  }
}
