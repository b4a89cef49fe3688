/** The event and decision half of the two state stores: a pointer document per event key
    and the decision documents, in the order the server created them. */
module EventStore {
  import opened Wrappers

  type EventKey = string
  type DecisionId = string

  datatype Decision = Decision(id: DecisionId, key: EventKey)

  // `events[k] == None` is a claim with no decision yet, `events[k] == Some(id)` a pointer.
  // `decisions` is in creation order, so the server's `create_time` order is position.
  datatype Store = Store(events: map<EventKey, Option<DecisionId>>, decisions: seq<Decision>)

  predicate Recorded(ds: seq<Decision>, id: DecisionId) {
    exists i :: 0 <= i < |ds| && ds[i].id == id
  }

  /** The newest decision carrying `key`, as the recovery query finds it. */
  function Newest(ds: seq<Decision>, key: EventKey): Option<DecisionId> {
    if ds == [] then None
    else if ds[|ds| - 1].key == key then Some(ds[|ds| - 1].id)
    else Newest(ds[..|ds| - 1], key)
  }

  /** Recovery misses nothing that carries the key, and no later row carries it. */
  lemma {:induction false} NewestIsLast(ds: seq<Decision>, key: EventKey)
    ensures Newest(ds, key).None? <==> forall i :: 0 <= i < |ds| ==> ds[i].key != key
    ensures Newest(ds, key).Some? ==>
              exists i :: 0 <= i < |ds| && ds[i] == Decision(Newest(ds, key).value, key)
                          && forall j :: i < j < |ds| ==> ds[j].key != key
  {
    if ds != [] {
      var last := |ds| - 1;
      if ds[last].key == key {
        assert ds[last] == Decision(ds[last].id, key);
      } else {
        var rest := ds[..last];
        NewestIsLast(rest, key);
        assert forall i :: 0 <= i < last ==> rest[i] == ds[i];
        if Newest(rest, key).Some? {
          var i :| 0 <= i < last && rest[i] == Decision(Newest(rest, key).value, key)
                   && forall j :: i < j < last ==> rest[j].key != key;
          assert ds[i] == Decision(Newest(ds, key).value, key);
        }
      }
    }
  }

  function Find(s: Store, key: EventKey): Option<DecisionId> {
    if key in s.events && s.events[key].Some? then
      if Recorded(s.decisions, s.events[key].value) then s.events[key] else None
    else
      Newest(s.decisions, key)
  }

  function Claim(s: Store, key: EventKey): (Store, bool) {
    if key in s.events then (s, false) else (s.(events := s.events[key := None]), true)
  }

  function Release(s: Store, key: EventKey): Store {
    s.(events := s.events - {key})
  }

  /** The batch write: the decision document and the pointer commit together. */
  function Commit(s: Store, id: DecisionId, key: EventKey): Store {
    Store(s.events[key := Some(id)], Put(s.decisions, Decision(id, key)))
  }

  /** Setting a document keeps its place if it exists, and creates the newest one if not. */
  function Put(ds: seq<Decision>, d: Decision): (r: seq<Decision>)
    ensures !Recorded(ds, d.id) ==> r == ds + [d]
  {
    if ds == [] then [d]
    else if ds[0].id == d.id then
      assert Recorded(ds, d.id);
      [d] + ds[1..]
    else
      var rest := Put(ds[1..], d);
      assert Recorded(ds[1..], d.id) ==> Recorded(ds, d.id) by {
        if Recorded(ds[1..], d.id) {
          var i :| 0 <= i < |ds| - 1 && ds[1..][i].id == d.id;
          assert ds[i + 1].id == d.id;
        }
      }
      assert [ds[0]] + (ds[1..] + [d]) == ds + [d];
      [ds[0]] + rest
  }

  /** Compare-and-delete. An absent pointer is a success: nothing is held. */
  function Evict(s: Store, key: EventKey, id: DecisionId): (Store, bool) {
    if key !in s.events then (s, true)
    else if s.events[key] != Some(id) then (s, false)
    else (s.(events := s.events - {key}), true)
  }

  class FirestoreEventStore {
    var events: map<EventKey, Option<DecisionId>>
    var decisions: seq<Decision>

    ghost function View(): Store
      reads this
    {
      Store(events, decisions)
    }

    method RecordEvent(key: EventKey) returns (claimed: bool)
      modifies this
      ensures (View(), claimed) == Claim(old(View()), key)
    {
      if key in events {
        return false;
      }
      events := events[key := None];
      return true;
    }

    method ReleaseEvent(key: EventKey)
      modifies this
      ensures View() == Release(old(View()), key)
    {
      events := events - {key};
    }

    method FindDecisionForEvent(key: EventKey) returns (r: Option<DecisionId>)
      ensures r == Find(View(), key)
    {
      if key in events && events[key].Some? {
        if exists i :: 0 <= i < |decisions| && decisions[i].id == events[key].value {
          return events[key];
        }
        return None;
      }
      // The recovery query: every row carrying the key, the latest one kept.
      r := None;
      for i := 0 to |decisions|
        invariant r == Newest(decisions[..i], key)
      {
        assert decisions[..i + 1][..i] == decisions[..i];
        if decisions[i].key == key {
          r := Some(decisions[i].id);
        }
      }
      assert decisions[..|decisions|] == decisions;
    }

    method RecordDecision(id: DecisionId, key: EventKey)
      modifies this
      ensures View() == Commit(old(View()), id, key)
    {
      decisions := Put(decisions, Decision(id, key));
      events := events[key := Some(id)];
    }

    method EvictCachedDecision(key: EventKey, id: DecisionId) returns (ok: bool)
      modifies this
      ensures (View(), ok) == Evict(old(View()), key, id)
    {
      if key !in events {
        return true;
      }
      if events[key] != Some(id) {
        return false;
      }
      events := events - {key};
      return true;
    }
  }

  /** The process-local store: no recovery query, and a decision recorded with no claim
      leaves no pointer. */
  class InMemoryEventStore {
    var events: map<EventKey, Option<DecisionId>>
    var decisions: seq<Decision>

    ghost function View(): Store
      reads this
    {
      Store(events, decisions)
    }

    method RecordEvent(key: EventKey) returns (claimed: bool)
      modifies this
      ensures (View(), claimed) == Claim(old(View()), key)
    {
      if key in events {
        return false;
      }
      events := events[key := None];
      return true;
    }

    method ReleaseEvent(key: EventKey)
      modifies this
      ensures View() == Release(old(View()), key)
    {
      events := events - {key};
    }

    method FindDecisionForEvent(key: EventKey) returns (r: Option<DecisionId>)
      ensures r == FindInMemory(View(), key)
    {
      if key !in events || events[key].None? {
        return None;
      }
      if exists i :: 0 <= i < |decisions| && decisions[i].id == events[key].value {
        return events[key];
      }
      return None;
    }

    method RecordDecision(id: DecisionId, key: EventKey)
      modifies this
      ensures View() == if key in old(events) then Commit(old(View()), id, key)
                        else old(View()).(decisions := Put(old(decisions), Decision(id, key)))
    {
      decisions := Put(decisions, Decision(id, key));
      if key in events {
        events := events[key := Some(id)];
      }
    }

    method EvictCachedDecision(key: EventKey, id: DecisionId) returns (ok: bool)
      modifies this
      ensures (View(), ok) == Evict(old(View()), key, id)
    {
      if key !in events {
        return true;
      }
      if events[key] != Some(id) {
        return false;
      }
      events := events - {key};
      return true;
    }
  }

  function FindInMemory(s: Store, key: EventKey): Option<DecisionId> {
    if key in s.events && s.events[key].Some? && Recorded(s.decisions, s.events[key].value)
    then s.events[key] else None
  }

  /** The two lookups differ on exactly the states the recovery query exists for: a key whose
      pointer names nothing while some decision still carries the key. */
  lemma LookupsAgreeExactly(s: Store, key: EventKey)
    ensures FindInMemory(s, key) == Find(s, key) <==>
              (key in s.events && s.events[key].Some?) ||
              forall i :: 0 <= i < |s.decisions| ==> s.decisions[i].key != key
  {
    NewestIsLast(s.decisions, key);
  }
}
