/** The in-memory state data store: a table from state key to the string
    form of its value, updated in place, with a log of the update
    notifications it has sent. */
module StateDataStore {
  import opened Strings
  import opened StateTable

  class InternalStateDataStore {
    /** The data store dictionary. */
    var states: map<string, string>
    /** Every update notification sent so far, oldest first. */
    ghost var notifications: seq<Notification>

    /** No stored key is empty, and the notifications are an exact history
        of the table: replaying them rebuilds it, and each one announced a
        genuine change. */
    ghost predicate Valid()
      reads this
    {
      && (forall k :: k in states ==> k != "")
      && Replay(notifications) == states
      && GenuineTransitions(notifications)
    }

    constructor ()
      ensures Valid()
      ensures states == map[] && notifications == []
    {
      states := map[];
      notifications := [];
    }

    /** Stores the string form of `value` under `key` when that changes the
        table, and then notifies; returns whether it did. */
    method UpdateState(key: Option<string>, value: Option<Value>) returns (updated: bool)
      requires Valid()
      modifies this
      ensures Valid()
      ensures var u := Step(old(states), key, value);
        updated == u.changed && states == u.after &&
        notifications == old(notifications) + u.emitted
    {
      StepKeepsHistory(notifications, key, value);
      if key.Some? && key.value != "" && value.Some? {
        if StateChanged(states, key.value, ToStr(value.value)) {
          states := states[key.value := ToStr(value.value)];
          NotifyStateUpdated(key.value, ToStr(value.value));
          return true;
        }
      }
      return false;
    }

    /** Sends one update notification. This is only the last step of
        `UpdateState`, which has already stored the value: on its own it
        appends to the log without changing the table, so it does not keep
        `Valid()` by itself. */
    method NotifyStateUpdated(key: string, value: string)
      modifies this
      ensures states == old(states)
      ensures notifications == old(notifications) + [Notification(key, value)]
    {
      notifications := notifications + [Notification(key, value)];
    }

    /** The keys of `keys`, sorted in ascending order. */
    static method SortedKeys(keys: set<string>) returns (sorted: seq<string>)
      ensures StrictlySorted(sorted)
      ensures forall k :: k in sorted <==> k in keys
    {
      sorted := [];
      var rest := keys;
      while rest != {}
        invariant rest <= keys
        invariant StrictlySorted(sorted)
        invariant forall k :: k in sorted <==> k in keys - rest
        decreases rest
      {
        var k :| k in rest;
        sorted := Insert(sorted, k);
        rest := rest - {k};
      }
    }

    /** Inserts `k` into a sorted sequence at its place in the order. */
    static method Insert(sorted: seq<string>, k: string) returns (r: seq<string>)
      requires StrictlySorted(sorted) && k !in sorted
      ensures StrictlySorted(r)
      ensures forall x :: x in r <==> x in sorted || x == k
    {
      var i := 0;
      while i < |sorted| && Less(sorted[i], k)
        invariant 0 <= i <= |sorted|
        invariant forall j :: 0 <= j < i ==> Less(sorted[j], k)
      {
        i := i + 1;
      }
      r := sorted[..i] + [k] + sorted[i..];
      assert forall j :: 0 <= j < i ==> r[j] == sorted[j];
      assert r[i] == k;
      assert forall j :: i < j < |r| ==> r[j] == sorted[j - 1];
      if i < |sorted| {
        LessTotal(sorted[i], k);
      }
      forall p, q | 0 <= p < q < |r| ensures Less(r[p], r[q]) {
        if p == i && q - 1 > i {
          LessTransitive(k, sorted[i], sorted[q - 1]);
        }
      }
      assert sorted == sorted[..i] + sorted[i..];
    }

    /** All stored states whose key passes the filter, as `{guid, value}`
        records in ascending key order. */
    method GetStates(filter: Option<string>, isMatch: (string, string) -> bool) returns (records: seq<Entry>)
      ensures IsListing(states, filter, isMatch, records)
    {
      var keys := SortedKeys(states.Keys);
      records := [];
      for i := 0 to |keys|
        invariant records == Listing(states, keys[..i], filter, isMatch)
      {
        var key := keys[i];
        assert keys[..i + 1][..i] == keys[..i];
        if Selected(key, filter, isMatch) {
          records := records + [Entry(key, states[key])];
        }
      }
      assert keys[..|keys|] == keys;
      ListingIsListing(states, keys, filter, isMatch);
    }

    /** The first stored state, in the dictionary's iteration order, whose
        key contains every one of `parts`; None when there is none. */
    method GetState(parts: seq<string>) returns (found: Option<Entry>)
      ensures found.None? <==> forall k :: k in states ==> !ContainsAllParts(k, parts)
      ensures found.Some? ==>
        found.value.key in states && states[found.value.key] == found.value.value &&
        ContainsAllParts(found.value.key, parts)
      ensures parts == [] ==> (found.None? <==> states == map[])
    {
      var rest := states.Keys;
      while rest != {}
        invariant rest <= states.Keys
        invariant forall k :: k in states && k !in rest ==> !ContainsAllParts(k, parts)
        decreases rest
      {
        var k :| k in rest;
        var all := ContainsAll(k, parts);
        if all {
          return Some(Entry(k, states[k]));
        }
        rest := rest - {k};
      }
      if parts == [] && states != map[] {
        var k :| k in states;
        assert ContainsAllParts(k, parts);
      }
      return None;
    }

    /** Whether `target` contains every one of `matches`. */
    static method ContainsAll(target: string, matches: seq<string>) returns (all: bool)
      ensures all <==> ContainsAllParts(target, matches)
    {
      for i := 0 to |matches|
        invariant forall j :: 0 <= j < i ==> Contains(target, matches[j])
      {
        if !Contains(target, matches[i]) {
          return false;
        }
      }
      return true;
    }
  }
}
