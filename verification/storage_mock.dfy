/**
  The in-memory `localStorage` stand-in of the unit-test setup: a
  private key-to-string map behind `getItem`, `setItem`, `removeItem`
  and `clear`. Keys are ordinary strings (no inherited object
  properties) and values are strings, on which `toString()` is the
  identity.
 */
module StorageMock {
  import opened Text

  /** The mock's private `store` object. */
  type Store = map<string, string>

  /** `getItem`: the stored string, but `null` for a missing key and,
      through the `|| null` fallback, for a stored empty string too. */
  function GetItem(store: Store, key: string): (r: Option<string>)
    ensures r.Some? ==> key in store && r.value == store[key] && r.value != ""
    ensures r.None? ==> key !in store || store[key] == ""
  {
    if key in store && store[key] != "" then Some(store[key]) else None
  }

  /** `setItem`: the key now holds the value; every other key reads as before. */
  function SetItem(store: Store, key: string, value: string): (r: Store)
    ensures key in r && r[key] == value
    ensures forall k :: k != key ==> (k in r <==> k in store)
    ensures forall k :: k != key && k in store ==> r[k] == store[k]
  {
    store[key := value]
  }

  /** `removeItem`: the key is gone; every other key is kept. */
  function RemoveItem(store: Store, key: string): (r: Store)
    ensures key !in r
    ensures forall k :: k != key ==> (k in r <==> k in store)
    ensures forall k :: k in r ==> r[k] == store[k]
  {
    store - {key}
  }

  /** `clear`: a fresh, empty store. */
  function Clear(store: Store): (r: Store)
    ensures forall k :: k !in r
  {
    map[]
  }

  /** A key never set, or removed, reads as `null`. */
  lemma GetMissingIsNull(store: Store, key: string)
    requires key !in store
    ensures GetItem(store, key) == None
  {
  }

  /** Reading back a non-empty value gives that value; reading back the
      empty string gives `null`. */
  lemma GetAfterSet(store: Store, key: string, value: string)
    ensures value != "" ==> GetItem(SetItem(store, key, value), key) == Some(value)
    ensures value == "" ==> GetItem(SetItem(store, key, value), key) == None
  {
  }

  /** `setItem` on one key never changes what another key reads. */
  lemma SetLeavesOthers(store: Store, key: string, value: string, other: string)
    requires other != key
    ensures GetItem(SetItem(store, key, value), other) == GetItem(store, other)
  {
  }

  /** A later `setItem` on the same key overwrites the earlier one. */
  lemma SetOverwrites(store: Store, key: string, v1: string, v2: string)
    ensures SetItem(SetItem(store, key, v1), key, v2) == SetItem(store, key, v2)
  {
  }

  /** `removeItem` makes its key read `null`, leaves other keys alone, and
      does nothing when the key is absent. */
  lemma RemoveOnlyThatKey(store: Store, key: string, other: string)
    ensures GetItem(RemoveItem(store, key), key) == None
    ensures other != key ==> GetItem(RemoveItem(store, key), other) == GetItem(store, other)
    ensures key !in store ==> RemoveItem(store, key) == store
  {
  }

  /** After `clear` every key reads `null`, and clearing twice is
      clearing once. */
  lemma ClearEmpties(store: Store, key: string)
    ensures GetItem(Clear(store), key) == None
    ensures Clear(Clear(store)) == Clear(store)
  {
  }

  /** One call on the mock that changes it. */
  datatype Op = Set(key: string, value: string) | Remove(key: string) | ClearAll

  function Apply(store: Store, op: Op): Store {
    match op
    case Set(k, v) => SetItem(store, k, v)
    case Remove(k) => RemoveItem(store, k)
    case ClearAll => Clear(store)
  }

  /** The store after a sequence of calls, first to last. */
  function Run(store: Store, ops: seq<Op>): Store
    decreases |ops|
  {
    if |ops| == 0 then store else Run(Apply(store, ops[0]), ops[1..])
  }

  /** What `key` holds after `ops`, read off the last call that touched
      it: the value of a `setItem`, nothing after a `removeItem` or a
      `clear`, and the initial entry when no call touched it. */
  function LastWrite(init: Store, ops: seq<Op>, key: string): Option<string>
    decreases |ops|
  {
    if |ops| == 0 then (if key in init then Some(init[key]) else None)
    else
      match ops[|ops| - 1]
      case Set(k, v) => if k == key then Some(v) else LastWrite(init, ops[..|ops| - 1], key)
      case Remove(k) => if k == key then None else LastWrite(init, ops[..|ops| - 1], key)
      case ClearAll => None
  }

  /** Running one more call is applying it to the store run so far. */
  lemma {:induction false} RunSnoc(store: Store, ops: seq<Op>, op: Op)
    ensures Run(store, ops + [op]) == Apply(Run(store, ops), op)
    decreases |ops|
  {
    if |ops| > 0 {
      assert (ops + [op])[1..] == ops[1..] + [op];
      RunSnoc(Apply(store, ops[0]), ops[1..], op);
    }
  }

  /** After any sequence of calls each key holds exactly its last write. */
  lemma {:induction false} RunIsLastWrite(init: Store, ops: seq<Op>, key: string)
    ensures key in Run(init, ops) <==> LastWrite(init, ops, key).Some?
    ensures key in Run(init, ops) ==> Run(init, ops)[key] == LastWrite(init, ops, key).value
    decreases |ops|
  {
    if |ops| > 0 {
      var prefix := ops[..|ops| - 1];
      assert ops == prefix + [ops[|ops| - 1]];
      RunSnoc(init, prefix, ops[|ops| - 1]);
      RunIsLastWrite(init, prefix, key);
    }
  }

  /** So `getItem` after any sequence of calls returns the last value
      written to the key, unless that value is empty or the last call
      removed or cleared it. */
  lemma GetAfterRun(init: Store, ops: seq<Op>, key: string)
    ensures GetItem(Run(init, ops), key) ==
      match LastWrite(init, ops, key)
      case Some(v) => if v == "" then None else Some(v)
      case None => None
  {
    RunIsLastWrite(init, ops, key);
  }

  /** The `beforeEach` hook clears the store, so a test's reads do not
      depend on what earlier tests left behind. */
  lemma BeforeEachIsolates(left1: Store, left2: Store, ops: seq<Op>)
    ensures Run(left1, [ClearAll] + ops) == Run(left2, [ClearAll] + ops)
  {
    assert ([ClearAll] + ops)[1..] == ops;
  }
}
