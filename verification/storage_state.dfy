/** React state mirrored into browser storage (client/src/hooks/useStorageState.ts).

    A store wraps one host storage, a map from string keys to string payloads.
    Reading a key decodes the stored payload when there is a non-empty one and
    otherwise yields the caller's default; binding a key reads it once and
    writes the serialised current value back. Two independent stores exist: one
    over `localStorage` (survives restarts) and one over `sessionStorage`.

    `JSON.stringify`/`JSON.parse` are the two halves of a `Codec`; the storages'
    persistence and quotas belong to the host and are not modelled. */
module StorageState {
  import opened Wrappers

  /** A host storage: `getItem`/`setItem` over string keys and string payloads. */
  type Storage = map<string, string>

  /** `JSON.stringify` and `JSON.parse` for values of type `T`; `decode` gives
      `None` where `JSON.parse` throws. */
  datatype Codec<!T> = Codec(encode: T -> string, decode: string -> Option<T>)

  /** What the cache relies on from JSON: a serialised value is never the empty
      string, and it parses back to the value itself. */
  ghost predicate ValidCodec<T(!new)>(codec: Codec<T>) {
    forall v :: codec.encode(v) != "" && codec.decode(codec.encode(v)) == Some(v)
  }

  /** Which read failed, and on what payload. The code lets the exception
      `JSON.parse` raises propagate; this record names the key and the payload
      that caused it. */
  datatype StorageError = CorruptPayload(key: string, payload: string)

  /** The two storage lifetimes. */
  datatype Tier = Local | Session

  /** Both host storages; each tier's store wraps its own. */
  datatype Storages = Storages(local: Storage, session: Storage)

  function StorageOf(st: Storages, tier: Tier): Storage {
    match tier
    case Local => st.local
    case Session => st.session
  }

  /** `getItem`: the payload under `key`, or `None` (the host's `null`). */
  function GetItem(storage: Storage, key: string): (r: Option<string>)
    ensures r.Some? <==> key in storage
    ensures r.Some? ==> r.value == storage[key]
  {
    if key in storage then Some(storage[key]) else None
  }

  /** `setItem` on one tier: only that tier's entry for `key` changes. */
  function SetItem(st: Storages, tier: Tier, key: string, payload: string): (r: Storages)
    ensures StorageOf(r, tier) == StorageOf(st, tier)[key := payload]
    ensures forall t :: t != tier ==> StorageOf(r, t) == StorageOf(st, t)
  {
    match tier
    case Local => st.(local := st.local[key := payload])
    case Session => st.(session := st.session[key := payload])
  }

  /** `getStorageValue`: an absent key and an empty payload (falsy in JavaScript)
      both give the default; any other payload is decoded, and one that does not
      decode is an error, never the default. */
  function GetStorageValue<T>(storage: Storage, codec: Codec<T>, key: string, default: T): (r: Result<T, StorageError>)
    ensures key !in storage ==> r == Success(default)
    ensures key in storage && storage[key] == "" ==> r == Success(default)
    ensures key in storage && storage[key] != "" ==>
              match codec.decode(storage[key])
              case Some(v) => r == Success(v)
              case None => r == Failure(CorruptPayload(key, storage[key]))
  {
    match GetItem(storage, key)
    case Some(saved) =>
      if saved != "" then
        match codec.decode(saved)
        case Some(v) => Success(v)
        case None => Failure(CorruptPayload(key, saved))
      else Success(default)
    case None => Success(default)
  }

  /** The write-back effect: `setItem(key, JSON.stringify(value))`. */
  function StoreValue<T>(st: Storages, tier: Tier, codec: Codec<T>, key: string, value: T): Storages {
    SetItem(st, tier, key, codec.encode(value))
  }

  /** A key that was never written reads as exactly the default. */
  lemma AbsentKeyGivesDefault<T>(storage: Storage, codec: Codec<T>, key: string, default: T)
    requires key !in storage
    ensures GetStorageValue(storage, codec, key, default) == Success(default)
  {
  }

  /** Round trip: a value written under a key reads back as itself, whatever
      default the reader supplies. */
  lemma ReadAfterWrite<T(!new)>(st: Storages, tier: Tier, codec: Codec<T>, key: string, value: T, default: T)
    requires ValidCodec(codec)
    ensures GetStorageValue(StorageOf(StoreValue(st, tier, codec, key, value), tier), codec, key, default) == Success(value)
  {
    assert codec.encode(value) != "";
  }

  /** A write touches only its own key in its own tier: every other key of that
      tier, and every key of the other tier, reads as before. */
  lemma WriteIsLocal<T, U>(st: Storages, tier: Tier, codec: Codec<T>, key: string, value: T,
                           readTier: Tier, reader: Codec<U>, readKey: string, default: U)
    requires readTier != tier || readKey != key
    ensures GetStorageValue(StorageOf(StoreValue(st, tier, codec, key, value), readTier), reader, readKey, default)
         == GetStorageValue(StorageOf(st, readTier), reader, readKey, default)
  {
    var after := StorageOf(StoreValue(st, tier, codec, key, value), readTier);
    var before := StorageOf(st, readTier);
    assert readKey in after <==> readKey in before;
    if readKey in before {
      assert after[readKey] == before[readKey];
    }
  }

  /** The durable tier is unaffected by a session write to the same key: write
      `v1` durably, then `v2` to the session, and the durable read gives `v1`. */
  lemma TiersAreIndependent<T(!new)>(st: Storages, codec: Codec<T>, key: string, v1: T, v2: T, default: T)
    requires ValidCodec(codec)
    ensures var after := StoreValue(StoreValue(st, Local, codec, key, v1), Session, codec, key, v2);
            && GetStorageValue(StorageOf(after, Local), codec, key, default) == Success(v1)
            && GetStorageValue(StorageOf(after, Session), codec, key, default) == Success(v2)
  {
    var mid := StoreValue(st, Local, codec, key, v1);
    ReadAfterWrite(st, Local, codec, key, v1, default);
    WriteIsLocal(mid, Session, codec, key, v2, Local, codec, key, default);
    ReadAfterWrite(mid, Session, codec, key, v2, default);
  }

  /** A bound value and the storages after its write-back effect has run. */
  datatype Binding<T> = Binding(value: T, storages: Storages)

  /** `useStorage`: one read for the initial value, then the serialised value
      written back under the key. A corrupt payload makes the initial read throw,
      so nothing is bound and nothing is written. */
  function UseStorage<T>(st: Storages, tier: Tier, codec: Codec<T>, key: string, default: T): (r: Result<Binding<T>, StorageError>)
    ensures r.Failure? <==> GetStorageValue(StorageOf(st, tier), codec, key, default).Failure?
    ensures r.Failure? ==> r.error == GetStorageValue(StorageOf(st, tier), codec, key, default).error
    ensures r.Success? ==>
              && Success(r.value.value) == GetStorageValue(StorageOf(st, tier), codec, key, default)
              && StorageOf(r.value.storages, tier) == StorageOf(st, tier)[key := codec.encode(r.value.value)]
              && forall t :: t != tier ==> StorageOf(r.value.storages, t) == StorageOf(st, t)
  {
    match GetStorageValue(StorageOf(st, tier), codec, key, default)
    case Failure(e) => Failure(e)
    case Success(v) => Success(Binding(v, StoreValue(st, tier, codec, key, v)))
  }

  /** `useLocalState`: a binding in the durable tier. It reads the durable
      storage, writes the value back there, and leaves the session storage alone. */
  function UseLocalState<T>(st: Storages, codec: Codec<T>, key: string, default: T): (r: Result<Binding<T>, StorageError>)
    ensures r.Failure? <==> GetStorageValue(st.local, codec, key, default).Failure?
    ensures r.Failure? ==> r.error == GetStorageValue(st.local, codec, key, default).error
    ensures r.Success? ==>
              && Success(r.value.value) == GetStorageValue(st.local, codec, key, default)
              && r.value.storages.local == st.local[key := codec.encode(r.value.value)]
              && r.value.storages.session == st.session
  {
    UseStorage(st, Local, codec, key, default)
  }

  /** `useSessionState`: a binding in the session tier. It reads the session
      storage, writes the value back there, and leaves the durable storage alone. */
  function UseSessionState<T>(st: Storages, codec: Codec<T>, key: string, default: T): (r: Result<Binding<T>, StorageError>)
    ensures r.Failure? <==> GetStorageValue(st.session, codec, key, default).Failure?
    ensures r.Failure? ==> r.error == GetStorageValue(st.session, codec, key, default).error
    ensures r.Success? ==>
              && Success(r.value.value) == GetStorageValue(st.session, codec, key, default)
              && r.value.storages.session == st.session[key := codec.encode(r.value.value)]
              && r.value.storages.local == st.local
  {
    UseStorage(st, Session, codec, key, default)
  }

  /** Binding a key nobody wrote yields the default and leaves its encoding stored. */
  lemma BindingAbsentKeyStoresDefault<T>(st: Storages, tier: Tier, codec: Codec<T>, key: string, default: T)
    requires key !in StorageOf(st, tier)
    ensures UseStorage(st, tier, codec, key, default) == Success(Binding(default, StoreValue(st, tier, codec, key, default)))
    ensures StorageOf(StoreValue(st, tier, codec, key, default), tier)[key] == codec.encode(default)
  {
  }

  /** Binding the same key again, after the first binding's write-back, yields
      the same value: the stored state is a fixed point of binding. */
  lemma RebindingIsStable<T(!new)>(st: Storages, tier: Tier, codec: Codec<T>, key: string, default: T, other: T)
    requires ValidCodec(codec)
    requires UseStorage(st, tier, codec, key, default).Success?
    ensures var b := UseStorage(st, tier, codec, key, default).value;
            UseStorage(b.storages, tier, codec, key, other) == Success(b)
  {
    var b := UseStorage(st, tier, codec, key, default).value;
    ReadAfterWrite(st, tier, codec, key, b.value, other);
    SetItemTwice(st, tier, key, codec.encode(b.value));
  }

  /** Writing the same payload twice is writing it once. */
  lemma SetItemTwice(st: Storages, tier: Tier, key: string, payload: string)
    ensures SetItem(SetItem(st, tier, key, payload), tier, key, payload) == SetItem(st, tier, key, payload)
  {
  }

  /** The setter returned by the hook, with its write-back effect: the bound value
      becomes `value` and its encoding is stored, so a later binding reads it. */
  function SetValue<T>(b: Binding<T>, tier: Tier, codec: Codec<T>, key: string, value: T): (r: Binding<T>)
    ensures r.value == value
    ensures StorageOf(r.storages, tier) == StorageOf(b.storages, tier)[key := codec.encode(value)]
    ensures forall t :: t != tier ==> StorageOf(r.storages, t) == StorageOf(b.storages, t)
  {
    Binding(value, StoreValue(b.storages, tier, codec, key, value))
  }

  /** After the setter runs, binding the key anew gives the value just set. */
  lemma SetThenRebind<T(!new)>(b: Binding<T>, tier: Tier, codec: Codec<T>, key: string, value: T, default: T)
    requires ValidCodec(codec)
    ensures var after := SetValue(b, tier, codec, key, value);
            UseStorage(after.storages, tier, codec, key, default).Success?
            && UseStorage(after.storages, tier, codec, key, default).value.value == value
  {
    ReadAfterWrite(b.storages, tier, codec, key, value, default);
  }

  /** The write-back effect also runs when the bound key changes, but the value
      is not read again: the value bound so far is written under the new key. */
  function ChangeKey<T>(b: Binding<T>, tier: Tier, codec: Codec<T>, newKey: string): (r: Binding<T>)
    ensures r.value == b.value
    ensures StorageOf(r.storages, tier) == StorageOf(b.storages, tier)[newKey := codec.encode(b.value)]
    ensures forall t :: t != tier ==> StorageOf(r.storages, t) == StorageOf(b.storages, t)
  {
    Binding(b.value, StoreValue(b.storages, tier, codec, newKey, b.value))
  }

  /** After a key change, whatever the new key held before is lost: a later
      binding of the new key reads the value carried over from the old one. */
  lemma KeyChangeOverwrites<T(!new)>(b: Binding<T>, tier: Tier, codec: Codec<T>, newKey: string, default: T)
    requires ValidCodec(codec)
    ensures var after := ChangeKey(b, tier, codec, newKey);
            UseStorage(after.storages, tier, codec, newKey, default).Success?
            && UseStorage(after.storages, tier, codec, newKey, default).value.value == b.value
  {
    ReadAfterWrite(b.storages, tier, codec, newKey, b.value, default);
  }

  /** A payload that does not parse makes the read fail rather than fall back. */
  lemma CorruptPayloadIsAnError<T>(storage: Storage, codec: Codec<T>, key: string, default: T)
    requires key in storage && storage[key] != "" && codec.decode(storage[key]).None?
    ensures GetStorageValue(storage, codec, key, default) == Failure(CorruptPayload(key, storage[key]))
  {
  }
}
