/**
 The synchronisation engine of `useDb` (index.ts): the process-wide cache
 `syncData`, the snapshot read, `setState` and `removeItem` with their
 optimistic and pessimistic persistence protocols, and the listener fan-out
 `triggerCallbacks`.

 Every storage call (`dbStorage.setItem`, `dbStorage.removeItem`) is split in
 two steps: the synchronous part of `setState`/`removeItem`, which returns a
 `Pending` record of what its continuation captured, and `Settle`, which runs
 the `.then` or the `.catch` continuation once the storage promise has
 resolved (`ok`) or rejected (`!ok`). Any number of steps of other hooks may
 run between the two.
 */
module UseDb {
  import opened Listeners

  datatype Option<T> = None | Some(value: T)

  /** React's `SetStateAction`: a next value, or a function of the previous one. */
  datatype SetStateAction<!V> = Literal(value: V) | Updater(f: V -> V)

  /**
   One `useDb(key, options)` hook: its key, the default value fixed when the
   hook was created, and whether it writes optimistically.
   */
  datatype Hook<V> = Hook(key: string, defaultValue: V, optimistic: bool)

  /**
   What the continuation of one storage call closes over.
   OptimisticSet and OptimisticRemove belong to a `.catch`, PessimisticSet and
   PessimisticRemove to a `.then`. `prior` is `Some(p)` exactly when the key was
   present when `removeItem` ran, `p` being its value then.
   */
  datatype Pending<V> =
    | OptimisticSet(key: string, hasPrev: bool, prev: V, next: V)
    | PessimisticSet(key: string, next: V)
    | OptimisticRemove(key: string, prior: Option<V>)
    | PessimisticRemove(key: string)
  {
    function Key(): string
    {
      match this
      case OptimisticSet(k, _, _, _) => k
      case PessimisticSet(k, _) => k
      case OptimisticRemove(k, _) => k
      case PessimisticRemove(k) => k
    }
  }

  /** `options.optimistic ?? true`: a hook is optimistic unless it asks not to be. */
  function MakeHook<V>(key: string, defaultValue: V, optimistic: Option<bool>): (h: Hook<V>)
    ensures h.key == key && h.defaultValue == defaultValue
    ensures h.optimistic <==> optimistic != Some(false)
  {
    Hook(key, defaultValue, if optimistic.Some? then optimistic.value else true)
  }

  /** The value a hook sees: the cached entry if there is one, whatever it holds, else the default. */
  function Lookup<V>(data: map<string, V>, key: string, defaultValue: V): V
  {
    if key in data then data[key] else defaultValue
  }

  /** The `instanceof Function` test of `setState`. */
  function Resolve<V>(action: SetStateAction<V>, prev: V): V
  {
    match action
    case Literal(v) => v
    case Updater(f) => f(prev)
  }

  /** The cache entry of `key`, as `removeItem` captures it. */
  function Entry<V>(data: map<string, V>, key: string): Option<V>
  {
    if key in data then Some(data[key]) else None
  }

  /**
   The rollback of a failed optimistic `setState`: put the captured previous
   value back, or delete the key if it had no entry.
   */
  function Rollback<V>(data: map<string, V>, key: string, hasPrev: bool, prev: V): (r: map<string, V>)
    ensures key in r <==> hasPrev
    ensures hasPrev ==> r[key] == prev
    ensures r - {key} == data - {key}
  {
    if hasPrev then data[key := prev] else data - {key}
  }

  /**
   The restore of a failed optimistic `removeItem`: put the captured entry
   back if there was one; otherwise leave the cache alone.
   */
  function Restore<V>(data: map<string, V>, key: string, prior: Option<V>): (r: map<string, V>)
    ensures prior.Some? ==> key in r && r[key] == prior.value
    ensures prior.None? ==> r == data
    ensures r - {key} == data - {key}
  {
    if prior.Some? then data[key := prior.value] else data
  }

  /**
   A stored value is read back as itself, even when it equals the default or
   is JavaScript's `undefined`; once the entry is gone the default shows again.
   */
  lemma ReadBack<V>(data: map<string, V>, key: string, v: V, defaultValue: V)
    ensures Lookup(data[key := v], key, defaultValue) == v
    ensures Lookup(data - {key}, key, defaultValue) == defaultValue
  {
  }

  /** Writing or deleting another key does not change what a hook on `key` reads. */
  lemma ReadIgnoresOtherKeys<V>(data: map<string, V>, key: string, other: string, v: V, defaultValue: V)
    requires other != key
    ensures Lookup(data[other := v], key, defaultValue) == Lookup(data, key, defaultValue)
    ensures Lookup(data - {other}, key, defaultValue) == Lookup(data, key, defaultValue)
  {
  }

  /**
   The rollback undoes the optimistic write it belongs to: writing `next` over
   the captured snapshot and rolling back gives the cache it started from.
   */
  lemma RollbackUndoesWrite<V>(data: map<string, V>, key: string, next: V, defaultValue: V)
    ensures Rollback(data[key := next], key, key in data, Lookup(data, key, defaultValue)) == data
  {
    var r := Rollback(data[key := next], key, key in data, Lookup(data, key, defaultValue));
    assert r.Keys == data.Keys;
  }

  /** The restore undoes the optimistic removal it belongs to. */
  lemma RestoreUndoesRemove<V>(data: map<string, V>, key: string)
    ensures Restore(data - {key}, key, Entry(data, key)) == data
  {
    var r := Restore(data - {key}, key, Entry(data, key));
    assert r.Keys == data.Keys;
  }

  /**
   The shared state of index.ts: the cache `syncData` and the listener set
   `callbacks`, with a counter handing out listener identities. `fired`
   records every `onStoreChange` call, by listener, and the ghost `notified`
   records every `triggerCallbacks(key)` call, by key.
   */
  class SyncStore<V> {
    var syncData: map<string, V>
    var callbacks: seq<Listener>
    var nextId: ListenerId
    var fired: seq<ListenerId>
    ghost var notified: seq<string>

    ghost predicate Valid()
      reads this
    {
      DistinctIds(callbacks) && IdsBelow(callbacks, nextId)
    }

    /** The module-level `new Map()` and `new Set()`. */
    constructor ()
      ensures Valid()
      ensures syncData == map[] && callbacks == [] && fired == [] && notified == []
    {
      syncData := map[];
      callbacks := [];
      nextId := 0;
      fired := [];
      notified := [];
    }

    /** `getSnapshot`: the cached value if the key has an entry, even an `undefined` one, else the default. */
    method GetSnapshot(h: Hook<V>) returns (v: V)
      ensures h.key in syncData ==> v == syncData[h.key]
      ensures h.key !in syncData ==> v == h.defaultValue
    {
      v := Lookup(syncData, h.key, h.defaultValue);
    }

    /**
     `subscribe`: adds one fresh `onChange` closure for `key` at the end of the
     set; the identity returned stands for its disposer.
     */
    method Subscribe(key: string) returns (id: ListenerId)
      requires Valid()
      modifies this
      ensures Valid()
      ensures id == old(nextId) && nextId == id + 1
      ensures callbacks == old(callbacks) + [Listener(id, key)]
      ensures syncData == old(syncData) && fired == old(fired) && notified == old(notified)
    {
      id := nextId;
      nextId := nextId + 1;
      callbacks := callbacks + [Listener(id, key)];
    }

    /** The disposer returned by `subscribe`: `callbacks.delete(onChange)`. */
    method Unsubscribe(id: ListenerId)
      requires Valid()
      modifies this
      ensures Valid()
      ensures callbacks == Without(old(callbacks), id)
      ensures nextId == old(nextId)
      ensures syncData == old(syncData) && fired == old(fired) && notified == old(notified)
    {
      WithoutKeepsDistinct(callbacks, id);
      callbacks := Without(callbacks, id);
    }

    /**
     `triggerCallbacks`: copy the set, then call every listener of the copy, in
     order, with `key`; the ones watching `key` call `onStoreChange`.
     */
    method TriggerCallbacks(key: string)
      modifies this
      ensures fired == old(fired) + Matching(old(callbacks), key)
      ensures notified == old(notified) + [key]
      ensures syncData == old(syncData) && callbacks == old(callbacks) && nextId == old(nextId)
    {
      notified := notified + [key];
      var snapshot := callbacks;
      for i := 0 to |snapshot|
        invariant fired == old(fired) + Matching(snapshot[..i], key)
        invariant syncData == old(syncData) && callbacks == old(callbacks) && nextId == old(nextId)
        invariant notified == old(notified) + [key]
      {
        MatchingAppend(snapshot[..i], [snapshot[i]], key);
        assert snapshot[..i + 1] == snapshot[..i] + [snapshot[i]];
        assert [snapshot[i]][1..] == [];
        if snapshot[i].key == key {
          fired := fired + [snapshot[i].id];
        }
      }
      assert snapshot[..|snapshot|] == snapshot;
    }

    /**
     The synchronous part of `setState`. The previous value is the cached
     entry if the key has one and the hook's default otherwise; the next value
     is the literal or the updater applied to it. An optimistic hook writes the
     cache and notifies at once; a pessimistic one touches nothing yet.
     */
    method SetState(h: Hook<V>, action: SetStateAction<V>) returns (op: Pending<V>)
      requires Valid()
      modifies this
      ensures Valid()
      ensures callbacks == old(callbacks) && nextId == old(nextId)
      ensures var hasPrev := h.key in old(syncData);
              var prev := if hasPrev then old(syncData)[h.key] else h.defaultValue;
              var next := if action.Literal? then action.value else action.f(prev);
              if h.optimistic then
                && op == OptimisticSet(h.key, hasPrev, prev, next)
                && syncData == old(syncData)[h.key := next]
                && notified == old(notified) + [h.key]
                && fired == old(fired) + Matching(callbacks, h.key)
              else
                && op == PessimisticSet(h.key, next)
                && syncData == old(syncData)
                && notified == old(notified)
                && fired == old(fired)
    {
      var hasPrev := h.key in syncData;
      var prev := Lookup(syncData, h.key, h.defaultValue);
      var next := Resolve(action, prev);
      if h.optimistic {
        syncData := syncData[h.key := next];
        TriggerCallbacks(h.key);
        op := OptimisticSet(h.key, hasPrev, prev, next);
      } else {
        op := PessimisticSet(h.key, next);
      }
    }

    /**
     The synchronous part of `removeItem`. An optimistic hook deletes the entry
     and notifies at once; a pessimistic one touches nothing yet.
     */
    method RemoveItem(h: Hook<V>) returns (op: Pending<V>)
      requires Valid()
      modifies this
      ensures Valid()
      ensures callbacks == old(callbacks) && nextId == old(nextId)
      ensures if h.optimistic then
                && op == OptimisticRemove(h.key, Entry(old(syncData), h.key))
                && syncData == old(syncData) - {h.key}
                && notified == old(notified) + [h.key]
                && fired == old(fired) + Matching(callbacks, h.key)
              else
                && op == PessimisticRemove(h.key)
                && syncData == old(syncData)
                && notified == old(notified)
                && fired == old(fired)
    {
      var prior := Entry(syncData, h.key);
      if h.optimistic {
        syncData := syncData - {h.key};
        TriggerCallbacks(h.key);
        op := OptimisticRemove(h.key, prior);
      } else {
        op := PessimisticRemove(h.key);
      }
    }

    /**
     The continuation of a storage call, run when its promise settles.
     An optimistic write has only a `.catch` (roll back, then notify); an
     optimistic removal's `.catch` restores and notifies only if there was an
     entry; a pessimistic call has only a `.then` (apply, then notify).
     A continuation that does not exist for the outcome changes nothing.
     */
    method Settle(op: Pending<V>, ok: bool)
      requires Valid()
      modifies this
      ensures Valid()
      ensures callbacks == old(callbacks) && nextId == old(nextId)
      ensures var changes := match op
                case OptimisticSet(_, _, _, _) => !ok
                case PessimisticSet(_, _) => ok
                case OptimisticRemove(_, prior) => !ok && prior.Some?
                case PessimisticRemove(_) => ok;
              && notified == old(notified) + (if changes then [op.Key()] else [])
              && fired == old(fired) + (if changes then Matching(callbacks, op.Key()) else [])
      ensures syncData == match op
                case OptimisticSet(key, hasPrev, prev, _) =>
                  if ok then old(syncData) else Rollback(old(syncData), key, hasPrev, prev)
                case PessimisticSet(key, next) =>
                  if ok then old(syncData)[key := next] else old(syncData)
                case OptimisticRemove(key, prior) =>
                  if ok then old(syncData) else Restore(old(syncData), key, prior)
                case PessimisticRemove(key) =>
                  if ok then old(syncData) - {key} else old(syncData)
    {
      match op
      case OptimisticSet(key, hasPrev, prev, _) =>
        if !ok {
          if hasPrev {
            syncData := syncData[key := prev];
          } else {
            syncData := syncData - {key};
          }
          TriggerCallbacks(key);
        }
      case PessimisticSet(key, next) =>
        if ok {
          syncData := syncData[key := next];
          TriggerCallbacks(key);
        }
      case OptimisticRemove(key, prior) =>
        if !ok && prior.Some? {
          syncData := syncData[key := prior.value];
          TriggerCallbacks(key);
        }
      case PessimisticRemove(key) =>
        if ok {
          syncData := syncData - {key};
          TriggerCallbacks(key);
        }
    }
  }
}
