/**
 Clients of SyncStore that run one hook's operations step by step, with the
 storage outcome chosen by the caller, and state what the hook and the other
 hooks observe. Each follows a behaviour the library promises: the tests in
 test.ts, and the fan-out and race behaviour of index.ts.
 */
module Scenarios {
  import opened Listeners
  import opened UseDb

  /**
   An optimistic write whose persistence fails leaves the cache exactly as it
   was, after notifying twice: once for the write and once for the rollback.
   */
  method OptimisticWriteFails<V>(s: SyncStore<V>, h: Hook<V>, action: SetStateAction<V>)
    requires s.Valid() && h.optimistic
    modifies s
    ensures s.Valid()
    ensures s.syncData == old(s.syncData) && s.callbacks == old(s.callbacks)
    ensures s.notified == old(s.notified) + [h.key, h.key]
  {
    var op := s.SetState(h, action);
    s.Settle(op, false);
    RollbackUndoesWrite(old(s.syncData), h.key, op.next, h.defaultValue);
  }

  /**
   An optimistic write is visible before its persistence settles, and a
   successful settlement changes nothing further.
   */
  method OptimisticWriteSucceeds<V>(s: SyncStore<V>, h: Hook<V>, v: V) returns (seen: V, final: V)
    requires s.Valid() && h.optimistic
    modifies s
    ensures s.Valid()
    ensures seen == v && final == v
    ensures s.syncData == old(s.syncData)[h.key := v]
    ensures s.notified == old(s.notified) + [h.key]
  {
    var op := s.SetState(h, Literal(v));
    seen := s.GetSnapshot(h);
    s.Settle(op, true);
    final := s.GetSnapshot(h);
  }

  /**
   A pessimistic write shows nothing until it settles: the hook reads the old
   value in between, and the new one afterwards only if persistence succeeded.
   */
  method PessimisticWrite<V>(s: SyncStore<V>, h: Hook<V>, action: SetStateAction<V>, ok: bool)
    returns (before: V, pending: V, after: V)
    requires s.Valid() && !h.optimistic
    modifies s
    ensures s.Valid()
    ensures pending == before
    ensures ok ==> after == Resolve(action, before)
    ensures !ok ==> after == before && s.syncData == old(s.syncData) && s.notified == old(s.notified)
    ensures ok ==> s.notified == old(s.notified) + [h.key]
  {
    before := s.GetSnapshot(h);
    var op := s.SetState(h, action);
    pending := s.GetSnapshot(h);
    s.Settle(op, ok);
    after := s.GetSnapshot(h);
  }

  /** An updater sees what the hook reads, and its result is what the hook reads next. */
  method UpdaterAppliesToCurrent<V>(s: SyncStore<V>, h: Hook<V>, f: V -> V) returns (before: V, after: V)
    requires s.Valid() && h.optimistic
    modifies s
    ensures s.Valid()
    ensures after == f(before)
  {
    before := s.GetSnapshot(h);
    var op := s.SetState(h, Updater(f));
    after := s.GetSnapshot(h);
  }

  /** After a write and an optimistic removal the hook reads its default again. */
  method WriteThenRemove<V>(s: SyncStore<V>, h: Hook<V>, v: V) returns (written: V, removed: V)
    requires s.Valid() && h.optimistic
    modifies s
    ensures s.Valid()
    ensures written == v && removed == h.defaultValue
    ensures h.key !in s.syncData
  {
    var op := s.SetState(h, Literal(v));
    s.Settle(op, true);
    written := s.GetSnapshot(h);
    var rm := s.RemoveItem(h);
    removed := s.GetSnapshot(h);
  }

  /**
   A failed optimistic removal restores the cache exactly; it notifies a second
   time only if there was an entry to restore.
   */
  method OptimisticRemoveFails<V>(s: SyncStore<V>, h: Hook<V>)
    requires s.Valid() && h.optimistic
    modifies s
    ensures s.Valid()
    ensures s.syncData == old(s.syncData)
    ensures s.notified == old(s.notified) + [h.key] + (if h.key in old(s.syncData) then [h.key] else [])
  {
    var op := s.RemoveItem(h);
    s.Settle(op, false);
    RestoreUndoesRemove(old(s.syncData), h.key);
  }

  /** A pessimistic removal leaves the entry until storage confirms it. */
  method PessimisticRemove<V>(s: SyncStore<V>, h: Hook<V>, ok: bool) returns (pending: V, after: V)
    requires s.Valid() && !h.optimistic
    modifies s
    ensures s.Valid()
    ensures pending == Lookup(old(s.syncData), h.key, h.defaultValue)
    ensures ok ==> after == h.defaultValue && s.notified == old(s.notified) + [h.key]
    ensures !ok ==> after == pending && s.syncData == old(s.syncData) && s.notified == old(s.notified)
  {
    var op := s.RemoveItem(h);
    pending := s.GetSnapshot(h);
    s.Settle(op, ok);
    after := s.GetSnapshot(h);
  }

  /**
   `undefined` is a value like any other: a hook without a default reads
   `undefined` (None), writing a string and then `undefined` leaves an entry
   that holds `undefined`, and the hook reads it back.
   */
  method UndefinedIsAValidState(s: SyncStore<Option<string>>, key: string)
    returns (initial: Option<string>, defined: Option<string>, final: Option<string>)
    requires s.Valid()
    requires key !in s.syncData
    modifies s
    ensures s.Valid()
    ensures initial == None && defined == Some("defined") && final == None
    ensures key in s.syncData && s.syncData[key] == None
  {
    var h := MakeHook(key, None, None);
    initial := s.GetSnapshot(h);
    var op1 := s.SetState(h, Literal(Some("defined")));
    defined := s.GetSnapshot(h);
    var op2 := s.SetState(h, Literal(None));
    final := s.GetSnapshot(h);
  }

  /**
   Overlapping optimistic writes are not serialised: when the first one fails
   after the second has started, its rollback puts back the value from before
   both, and the second one's success does not write the cache again.
   */
  method OverlappingWritesRace<V>(s: SyncStore<V>, h: Hook<V>, a: V, b: V) returns (final: V)
    requires s.Valid() && h.optimistic
    modifies s
    ensures s.Valid()
    ensures s.syncData == old(s.syncData)
    ensures final == Lookup(old(s.syncData), h.key, h.defaultValue)
  {
    var op1 := s.SetState(h, Literal(a));
    var op2 := s.SetState(h, Literal(b));
    s.Settle(op1, false);
    RollbackUndoesWrite(old(s.syncData), h.key, a, h.defaultValue);
    assert old(s.syncData)[h.key := a][h.key := b] == old(s.syncData)[h.key := b];
    RollbackUndoesWrite(old(s.syncData), h.key, b, h.defaultValue);
    s.Settle(op2, true);
    final := s.GetSnapshot(h);
  }

  /**
   Fan-out: whatever is subscribed already, two new hooks on one key both
   re-render when either writes, after the earlier listeners and in the order
   they subscribed; a new hook on another key does not.
   */
  method FanOut<V>(s: SyncStore<V>, h: Hook<V>, other: string, v: V)
    returns (first: ListenerId, second: ListenerId, third: ListenerId)
    requires s.Valid() && h.optimistic && other != h.key
    modifies s
    ensures s.Valid()
    ensures s.fired == old(s.fired) + Matching(old(s.callbacks), h.key) + [first, second]
    ensures third !in s.fired[|old(s.fired)|..]
  {
    ghost var ls0 := s.callbacks;
    first := s.Subscribe(h.key);
    second := s.Subscribe(h.key);
    third := s.Subscribe(other);
    ghost var ls := s.callbacks;
    SubscribedForSameKey(ls0, ls[|ls0|]);
    SubscribedForSameKey(ls0 + [ls[|ls0|]], ls[|ls0| + 1]);
    SubscribedForOtherKey(ls0 + [ls[|ls0|], ls[|ls0| + 1]], ls[|ls0| + 2], h.key);
    assert ls0 + [ls[|ls0|]] + [ls[|ls0| + 1]] == ls0 + [ls[|ls0|], ls[|ls0| + 1]];
    assert ls0 + [ls[|ls0|], ls[|ls0| + 1]] + [ls[|ls0| + 2]] == ls;
    MatchingFiresExactly(ls0, h.key, third);
    var op := s.SetState(h, Literal(v));
    assert s.fired[|old(s.fired)|..] == Matching(ls0, h.key) + [first, second];
  }

  /**
   Another hook's operations are invisible to a hook on a different key: a
   write and a removal by `g`, in either mode and with either outcome, leave
   what `h` reads unchanged.
   */
  method OtherKeyUnaffected<V>(s: SyncStore<V>, h: Hook<V>, g: Hook<V>, action: SetStateAction<V>, ok1: bool, ok2: bool)
    returns (before: V, after: V)
    requires s.Valid() && g.key != h.key
    modifies s
    ensures s.Valid()
    ensures after == before
  {
    before := s.GetSnapshot(h);
    ghost var d0 := s.syncData;
    var op1 := s.SetState(g, action);
    ReadIgnoresOtherKeys(d0, h.key, g.key, op1.next, h.defaultValue);
    ghost var d1 := s.syncData;
    s.Settle(op1, ok1);
    ReadIgnoresOtherKeys(d1, h.key, g.key, op1.next, h.defaultValue);
    ghost var d2 := s.syncData;
    var op2 := s.RemoveItem(g);
    ReadIgnoresOtherKeys(d2, h.key, g.key, op1.next, h.defaultValue);
    s.Settle(op2, ok2);
    after := s.GetSnapshot(h);
  }

  /** The disposer undoes its subscription, whatever else is subscribed. */
  method SubscribeDispose<V>(s: SyncStore<V>, key: string)
    requires s.Valid()
    modifies s
    ensures s.Valid()
    ensures s.callbacks == old(s.callbacks)
  {
    var id := s.Subscribe(key);
    SubscribeThenDispose(old(s.callbacks), id, key);
    s.Unsubscribe(id);
  }
}
