/**
 The process-wide set of change listeners (`callbacks` in index.ts).

 A JavaScript `Set` iterates in insertion order, and every closure that
 `subscribe` adds is a fresh object, so the set is modelled as a sequence of
 listeners with distinct identities. Each listener remembers the key of the
 hook that created it: its body only calls `onStoreChange` when the key it is
 given equals that key.
 */
module Listeners {

  /** The identity of one `onChange` closure. */
  type ListenerId = nat

  /** One element of `callbacks`: the closure `onChange` made for a hook watching `key`. */
  datatype Listener = Listener(id: ListenerId, key: string)

  /** No closure occurs twice in the set. */
  ghost predicate DistinctIds(ls: seq<Listener>)
  {
    forall i, j :: 0 <= i < |ls| && 0 <= j < |ls| && ls[i].id == ls[j].id ==> i == j
  }

  /** Every identity in the set was handed out before `n`. */
  ghost predicate IdsBelow(ls: seq<Listener>, n: ListenerId)
  {
    forall i :: 0 <= i < |ls| ==> ls[i].id < n
  }

  /** Some listener in `ls` with identity `id` watches `key`. */
  ghost predicate Watches(ls: seq<Listener>, key: string, id: ListenerId)
  {
    exists i :: 0 <= i < |ls| && ls[i].id == id && ls[i].key == key
  }

  /**
   The identities of the listeners whose `onStoreChange` fires when `key` is
   dispatched over `ls`: each listener is called in order and passes the call on
   only when its own key equals `key`.
   */
  function Matching(ls: seq<Listener>, key: string): (r: seq<ListenerId>)
    ensures |r| <= |ls|
  {
    if ls == [] then []
    else (if ls[0].key == key then [ls[0].id] else []) + Matching(ls[1..], key)
  }

  /** The set after `callbacks.delete` of the closure with identity `id`. */
  function Without(ls: seq<Listener>, id: ListenerId): (r: seq<Listener>)
    ensures |r| <= |ls|
    ensures forall l :: l in r <==> l in ls && l.id != id
  {
    if ls == [] then []
    else (if ls[0].id == id then [] else [ls[0]]) + Without(ls[1..], id)
  }

  /** Dispatching over a concatenation fires the first part's listeners, then the second's. */
  lemma {:induction false} MatchingAppend(a: seq<Listener>, b: seq<Listener>, key: string)
    ensures Matching(a + b, key) == Matching(a, key) + Matching(b, key)
  {
    if a == [] {
      assert a + b == b;
    } else {
      var ab := a + b;
      assert ab[0] == a[0];
      assert ab[1..] == a[1..] + b;
      MatchingAppend(a[1..], b, key);
      calc {
        Matching(ab, key);
        (if a[0].key == key then [a[0].id] else []) + Matching(a[1..] + b, key);
        (if a[0].key == key then [a[0].id] else []) + (Matching(a[1..], key) + Matching(b, key));
      }
    }
  }

  /** A listener fires for `key` exactly when it was subscribed for `key`. */
  lemma {:induction false} MatchingFiresExactly(ls: seq<Listener>, key: string, id: ListenerId)
    ensures id in Matching(ls, key) <==> Watches(ls, key, id)
  {
    if ls != [] {
      MatchingFiresExactly(ls[1..], key, id);
      if Watches(ls[1..], key, id) {
        var i :| 0 <= i < |ls[1..]| && ls[1..][i].id == id && ls[1..][i].key == key;
        assert ls[i + 1].id == id && ls[i + 1].key == key;
      }
      if Watches(ls, key, id) {
        var i :| 0 <= i < |ls| && ls[i].id == id && ls[i].key == key;
        if i > 0 {
          assert ls[1..][i - 1] == ls[i];
        }
      }
    }
  }

  /** A listener for another key never fires, whatever it is followed or preceded by. */
  lemma SubscribedForOtherKey(ls: seq<Listener>, l: Listener, key: string)
    requires l.key != key
    ensures Matching(ls + [l], key) == Matching(ls, key)
  {
    MatchingAppend(ls, [l], key);
    assert Matching([l], key) == [] by {
      assert [l][1..] == [];
    }
  }

  /** A listener for the same key fires last, after all the earlier ones. */
  lemma SubscribedForSameKey(ls: seq<Listener>, l: Listener)
    ensures Matching(ls + [l], l.key) == Matching(ls, l.key) + [l.id]
  {
    MatchingAppend(ls, [l], l.key);
    assert [l][1..] == [];
  }

  /** Deleting an identity that is not in the set leaves the set as it was. */
  lemma {:induction false} WithoutAbsent(ls: seq<Listener>, id: ListenerId)
    requires forall i :: 0 <= i < |ls| ==> ls[i].id != id
    ensures Without(ls, id) == ls
  {
    if ls != [] {
      WithoutAbsent(ls[1..], id);
      assert [ls[0]] + ls[1..] == ls;
    }
  }

  /**
   With distinct identities, deleting the identity at position `i` removes
   exactly that one listener and keeps the order of the others.
   */
  lemma {:induction false} WithoutRemovesOne(ls: seq<Listener>, i: nat)
    requires DistinctIds(ls)
    requires i < |ls|
    ensures Without(ls, ls[i].id) == ls[..i] + ls[i + 1..]
  {
    var id := ls[i].id;
    if i == 0 {
      WithoutAbsent(ls[1..], id);
    } else {
      var tail := ls[1..];
      assert DistinctIds(tail) by {
        forall p, q | 0 <= p < |tail| && 0 <= q < |tail| && tail[p].id == tail[q].id
          ensures p == q
        {
          assert ls[p + 1].id == ls[q + 1].id;
        }
      }
      assert tail[i - 1] == ls[i];
      WithoutRemovesOne(tail, i - 1);
      assert ls[0].id != id;
      assert [ls[0]] + (tail[..i - 1] + tail[i..]) == ls[..i] + ls[i + 1..];
    }
  }

  /** Deleting a closure preserves the distinctness of the others. */
  lemma {:induction false} WithoutKeepsDistinct(ls: seq<Listener>, id: ListenerId)
    requires DistinctIds(ls)
    ensures DistinctIds(Without(ls, id))
  {
    if ls != [] {
      var tail := ls[1..];
      assert DistinctIds(tail) by {
        forall p, q | 0 <= p < |tail| && 0 <= q < |tail| && tail[p].id == tail[q].id
          ensures p == q
        {
          assert ls[p + 1].id == ls[q + 1].id;
        }
      }
      WithoutKeepsDistinct(tail, id);
      var rest := Without(tail, id);
      if ls[0].id != id {
        var r := [ls[0]] + rest;
        forall p, q | 0 <= p < |r| && 0 <= q < |r| && r[p].id == r[q].id
          ensures p == q
        {
          if p > 0 && q > 0 {
            assert rest[p - 1] == r[p] && rest[q - 1] == r[q];
          }
        }
      } else {
        assert Without(ls, id) == rest;
      }
    }
  }

  /**
   Subscribing a fresh closure and then calling its disposer gives back the set
   as it was: the disposer removes exactly the listener that was added.
   */
  lemma SubscribeThenDispose(ls: seq<Listener>, n: ListenerId, key: string)
    requires DistinctIds(ls) && IdsBelow(ls, n)
    ensures Without(ls + [Listener(n, key)], n) == ls
  {
    var added := ls + [Listener(n, key)];
    assert DistinctIds(added) by {
      forall p, q | 0 <= p < |added| && 0 <= q < |added| && added[p].id == added[q].id
        ensures p == q
      {
        if p < |ls| && q < |ls| {
          assert ls[p].id == ls[q].id;
        }
      }
    }
    WithoutRemovesOne(added, |ls|);
    assert added[..|ls|] == ls;
  }

  /** No identity occurs twice in a sequence of `onStoreChange` calls. */
  ghost predicate NoRepeats(r: seq<ListenerId>)
  {
    forall p, q :: 0 <= p < |r| && 0 <= q < |r| && r[p] == r[q] ==> p == q
  }

  /** With distinct closures, one dispatch calls each listener's `onStoreChange` at most once. */
  lemma {:induction false} MatchingNoRepeats(ls: seq<Listener>, key: string)
    requires DistinctIds(ls)
    ensures NoRepeats(Matching(ls, key))
  {
    if ls != [] {
      var tail := ls[1..];
      assert DistinctIds(tail) by {
        forall p, q | 0 <= p < |tail| && 0 <= q < |tail| && tail[p].id == tail[q].id
          ensures p == q
        {
          assert ls[p + 1].id == ls[q + 1].id;
        }
      }
      MatchingNoRepeats(tail, key);
      var rest := Matching(tail, key);
      if ls[0].key == key {
        MatchingFiresExactly(tail, key, ls[0].id);
        var r := [ls[0].id] + rest;
        forall p, q | 0 <= p < |r| && 0 <= q < |r| && r[p] == r[q]
          ensures p == q
        {
          if p > 0 && q > 0 {
            assert rest[p - 1] == r[p] && rest[q - 1] == r[q];
          }
        }
      }
    }
  }

  /** After its disposer has run, a listener fires for no key. */
  lemma DisposedNeverFires(ls: seq<Listener>, id: ListenerId, key: string)
    ensures id !in Matching(Without(ls, id), key)
  {
    MatchingFiresExactly(Without(ls, id), key, id);
  }
}
