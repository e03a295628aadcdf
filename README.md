# use-db: a model of the cache engine behind `useDb`

`useDb(key, options)` is a React hook that keeps a value for a key. The value
lives in an IndexedDB store and is mirrored in memory. This project models the
engine behind the hook in `index.ts`:

- the process-wide cache `syncData`, a map from keys to values;
- the process-wide set `callbacks` of change listeners;
- the snapshot read;
- `setState`, with optimistic and pessimistic persistence, and the rollback of a
  failed optimistic write;
- `removeItem`, with the same two modes and a conditional restore;
- `triggerCallbacks`, which fans a key out to a copy of the listener set.

Values are an opaque type `V`. JavaScript's `undefined` is just one more value
of `V`. A key that has an entry holding `undefined` is therefore distinct from a
key that has no entry.

Both storage calls are asynchronous. Each is modelled as two steps:

- `SetState` or `RemoveItem` runs the synchronous part. `SetState` captures
  `hasPrev`, `prev` and `next`; `RemoveItem` captures the key's entry, if any,
  as an `Option`. Each does any optimistic mutation and returns a `Pending`
  record holding what the continuation closes over.
- `Settle(op, ok)` runs the `.then` or `.catch` continuation. `ok` says whether
  the storage promise resolved or rejected.

Other steps may run between the two, so overlapping writes race as they do in
the source.

Each call of `triggerCallbacks(key)` is recorded in a ghost log, `notified`.
Each `onStoreChange` call made by a listener is recorded, by listener identity,
in `fired`.

Files:

- `listeners.dfy` (module `Listeners`): the listener set as an ordered sequence
  of `(id, key)` pairs, the dispatch filter and the delete.
- `use_db.dfy` (module `UseDb`): the hook parameters, the updater argument, the
  pending continuations, the cache functions and the class `SyncStore` that
  holds the shared state.
- `scenarios.dfy` (module `Scenarios`): clients that run whole operations step
  by step. They follow the tests in `test.ts` and the fan-out and race
  behaviour of `index.ts`.

## Model

| member | source | states |
|---|---|---|
| `Listeners.Matching` | index.ts:137-141 | the list of `onStoreChange` calls a dispatch makes is no longer than the copied set |
| `Listeners.MatchingNoRepeats` | index.ts:137-141 | with distinct closures, one dispatch calls each listener's `onStoreChange` at most once |
| `Listeners.MatchingFiresExactly` | index.ts:56-60 | a listener's `onStoreChange` fires for `key` if and only if it was subscribed for `key` (both directions) |
| `Listeners.MatchingAppend` | index.ts:138-140 | the listeners are called in set order: dispatching over `a + b` fires `a`'s matches, then `b`'s |
| `Listeners.SubscribedForOtherKey` | index.ts:56-61 | adding a listener for another key does not change what a dispatch of `key` fires |
| `Listeners.SubscribedForSameKey` | index.ts:56-61 | a listener added for `key` fires last in a dispatch of `key`, after every earlier one |
| `Listeners.Without` | index.ts:62-64 | `callbacks.delete(onChange)` keeps exactly the listeners with another identity |
| `Listeners.WithoutAbsent` | index.ts:62-64 | deleting a closure that is no longer in the set (a second call of the disposer) changes nothing |
| `Listeners.WithoutRemovesOne` | index.ts:62-64 | with distinct identities, the disposer removes exactly one listener and keeps the others in order |
| `Listeners.WithoutKeepsDistinct` | index.ts:62-64 | deleting a closure keeps every remaining closure unique |
| `Listeners.SubscribeThenDispose` | index.ts:61-64 | subscribing a fresh closure and then calling its disposer gives back the original set |
| `Listeners.DisposedNeverFires` | index.ts:56-64 | after its disposer has run, a listener fires for no key |
| `UseDb.MakeHook` | index.ts:39-44 | a hook keeps its key and default, and is optimistic unless `optimistic` is given as `false` (`?? true`) |
| `UseDb.ReadBack` | index.ts:70-72 | a stored value is read back as itself, even `undefined`; after its entry is deleted the default shows |
| `UseDb.ReadIgnoresOtherKeys` | index.ts:85-121 | writing or deleting another key never changes what a hook on `key` reads |
| `UseDb.Rollback` | index.ts:88-92 | the failed optimistic write's rollback maps the key to `prev` if `hasPrev`, deletes it otherwise, and leaves every other key alone |
| `UseDb.Restore` | index.ts:112-115 | the failed optimistic removal's restore maps the key back to its prior value if it had one, and otherwise changes nothing |
| `UseDb.RollbackUndoesWrite` | index.ts:80-94 | writing `next` and then rolling back to the captured `(hasPrev, prev)` gives exactly the original cache |
| `UseDb.RestoreUndoesRemove` | index.ts:106-116 | deleting the key and then restoring the captured entry gives exactly the original cache |
| `UseDb.SyncStore.constructor` | index.ts:8 | the cache (`new Map()` here) and the listener set (`new Set()` at index.ts:136) start empty, and so do both logs |
| `UseDb.SyncStore.GetSnapshot` | index.ts:70-72 | the read returns `syncData[key]` when the key is present, even if the value is `undefined`; the default is taken only when the key has no entry |
| `UseDb.SyncStore.Subscribe` | index.ts:55-61 | adds exactly one fresh listener for the hook's key, at the end of the set; nothing else changes |
| `UseDb.SyncStore.Unsubscribe` | index.ts:62-64 | removes the listener with that identity and nothing else |
| `UseDb.SyncStore.TriggerCallbacks` | index.ts:137-141 | logs one notification for `key`; fires, in set order, exactly the listeners watching `key` in the set as it was before the loop; changes no other state |
| `UseDb.SyncStore.SetState` | index.ts:79-100 | `prev` is the entry if present, else the default; `next` is the literal or `f(prev)`. Optimistic: the cache maps `key` to `next`, other keys are unchanged, and one notification for `key` is logged. Pessimistic: the cache and both logs are unchanged |
| `UseDb.SyncStore.RemoveItem` | index.ts:105-122 | optimistic: deletes `key`, captures the prior entry and logs one notification; pessimistic: changes nothing |
| `UseDb.SyncStore.Settle` | index.ts:87-121 | optimistic write: success changes nothing and failure rolls back, then notifies. Pessimistic write: success sets `key` to `next` and notifies once, failure changes nothing. Optimistic remove: failure restores and notifies only if there was an entry. Pessimistic remove: success deletes and notifies once, failure changes nothing |
| `Scenarios.OptimisticWriteFails` | index.ts:84-94 | an optimistic write followed by a failed settlement returns the cache to its exact original state, with two notifications |
| `Scenarios.OptimisticWriteSucceeds` | test.ts:33-48 | an optimistic write is read back before persistence settles and is unchanged by a successful settlement |
| `Scenarios.UpdaterAppliesToCurrent` | test.ts:50-66 | an updater is applied to the value the hook currently reads, and the hook then reads its result |
| `Scenarios.WriteThenRemove` | test.ts:68-93 | after a write and a removal the hook reads its default again |
| `Scenarios.OptimisticRemoveFails` | index.ts:108-116 | a failed optimistic removal restores the cache exactly and notifies a second time only if there was an entry |
| `Scenarios.PessimisticWrite` | test.ts:179-195 | before a pessimistic write settles the hook still reads the old value; afterwards it reads the new value if persistence succeeded and the old one if it failed |
| `Scenarios.PessimisticRemove` | index.ts:117-122 | a pessimistic removal leaves the entry in place until storage confirms it, and a failure changes nothing |
| `Scenarios.UndefinedIsAValidState` | test.ts:141-162 | a hook without a default reads `undefined`; writing a string and then `undefined` leaves an entry that holds `undefined` |
| `Scenarios.OverlappingWritesRace` | index.ts:80-94 | if the first of two overlapping optimistic writes fails, its rollback restores the value from before both, and the second write's success does not put its value back |
| `Scenarios.FanOut` | index.ts:56-60 | whatever is subscribed already, two new hooks on one key both re-render when one of them writes, after the earlier listeners for that key and in subscription order; a new hook on another key does not |
| `Scenarios.OtherKeyUnaffected` | index.ts:85-121 | a write and a removal by a hook on another key, in either mode and with either storage outcome, leave what this hook reads unchanged |
| `Scenarios.SubscribeDispose` | index.ts:61-64 | a subscription followed by its disposer leaves the listener set as it was |

The functions `UseDb.Lookup`, `UseDb.Resolve` and `UseDb.Entry` are the
expressions at index.ts:71 and :81, index.ts:82-83 and index.ts:106-107. They
need no contract of their own. What they promise is proved by
`SyncStore.GetSnapshot`, `ReadBack`, `ReadIgnoresOtherKeys`,
`SyncStore.SetState`, `Scenarios.UpdaterAppliesToCurrent`,
`SyncStore.RemoveItem` and `RestoreUndoesRemove`.

## Left out

- Values are treated as immutable and updaters as pure functions, as the updaters in `test.ts` are. In the source `prev` is a reference to the cached object, so an updater that mutates it in place also changes the object a rollback puts back. "Exactly the original cache" in `RollbackUndoesWrite`, `Scenarios.OptimisticWriteFails` and `Scenarios.OverlappingWritesRace` therefore holds only for updaters that do not mutate their argument.
- Updaters and listeners never throw in the model. The source has no `try`/`catch`. A throwing updater aborts `setState` before any change. A throwing listener inside the optimistic `triggerCallbacks` leaves the cache written without `setItem` ever being called, so no rollback can follow.

- React plumbing is not modelled: `useSyncExternalStore`, `useCallback`, `useMemo` and `useState`. Neither is `getServerSnapshot`. These are framework semantics. A hook is a `Hook` value; its default is fixed when the hook is made, which is how `useState` resolves a lazy `defaultValue` factory once.
- A hook with no `defaultValue` has `undefined` as its default. Since `V` is opaque, the caller supplies that value; `Scenarios.UndefinedIsAValidState` shows it with `V = Option<string>` and `None` as `undefined`.
- `removeItem` reads `prev` as `undefined` for an absent key. The model captures `Option<V>` instead, with `Some` exactly when the key was present. The source only uses `prev` when `hasPrev` holds, so nothing is lost.
- The IndexedDB backend (`DbStorage`) is not modelled; each of its calls is reduced to the `ok` outcome passed to `Settle`. What storage holds is not tracked, so the model does not show cache and storage disagreeing after a race.
- Promise scheduling is not modelled. Interleaving is shown only through explicit `SetState`/`RemoveItem` and `Settle` steps, and there is no per-key serialisation because the source has none.
- In the pessimistic mode a failed storage call becomes an unhandled rejection, because there is no `.catch`. The model gives only its effect on the engine, which is none.
- `Listeners.Matching`: its own contract only bounds the length. What it fires is stated by `MatchingFiresExactly`, `MatchingAppend`, `MatchingNoRepeats` and the `SubscribedFor…` lemmas.
- `UseDb.SyncStore.TriggerCallbacks`: `onStoreChange` is React's and only schedules a re-render, so no listener in the model subscribes or unsubscribes during a dispatch. The loop still reads only the copy taken before it starts, as the source's `[...callbacks]` does.
- There is no readiness gate and no initial load from storage, because `index.ts` has no such code.
- Deep equality and the structure of complex stored objects are not modelled; values are opaque.
