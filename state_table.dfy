/** The values, records and transition function of the in-memory state
    table: what one update does to the table and to the notification log,
    and what a listing or a lookup may return. */
module StateTable {
  import opened Strings

  datatype Option<+T> = None | Some(value: T)

  /** The kinds of value callers store. Each is kept as its string form,
      as `object.ToString()` gives it. */
  datatype Value = Text(s: string) | Flag(b: bool) | Integer(n: int)

  /** The string form a value is stored and compared as. */
  function ToStr(v: Value): (r: string)
    ensures v.Text? ==> r == v.s
    ensures v.Flag? ==> (r == "True" <==> v.b) && (r == "False" <==> !v.b)
    ensures v.Integer? ==> r != "" && (r[0] == '-' <==> v.n < 0)
  {
    match v
    case Text(s) => s
    case Flag(b) => if b then "True" else "False"
    case Integer(n) => IntToString(n)
  }

  predicate SameKind(v: Value, w: Value)
  {
    (v.Text? && w.Text?) || (v.Flag? && w.Flag?) || (v.Integer? && w.Integer?)
  }

  /** Within one kind, different values have different string forms, so
      change detection on strings loses nothing. Across kinds it does:
      `Text("60")` and `Integer(60)` have the same form. */
  lemma ToStrInjective(v: Value, w: Value)
    requires SameKind(v, w) && ToStr(v) == ToStr(w)
    ensures v == w
  {
    if v.Integer? {
      IntToStringInjective(v.n, w.n);
    }
  }

  /** A stored key with its value: a `{guid, value}` record of a listing,
      or the single `{key: value}` object of a lookup. */
  datatype Entry = Entry(key: string, value: string)

  /** The payload of one update notification. */
  datatype Notification = Notification(key: string, value: string)

  /** The key is new, or its stored string differs from `s`. */
  predicate StateChanged(states: map<string, string>, key: string, s: string): (r: bool)
    ensures r <==> states[key := s] != states
  {
    !(key in states && states[key] == s)
  }

  /** The outcome of one update: whether it took effect, the table after it,
      and the notifications it emitted. */
  datatype Update = Update(changed: bool, after: map<string, string>, emitted: seq<Notification>)

  /** One update of the table. A missing or empty key, or a missing value,
      is rejected; otherwise the string form is stored and announced unless
      it is already the stored string. */
  function Step(states: map<string, string>, key: Option<string>, value: Option<Value>): (r: Update)
    ensures r.changed ==> key.Some? && key.value != "" && value.Some?
    ensures |r.emitted| == if r.changed then 1 else 0
    ensures !r.changed ==> r.after == states
  {
    if key.None? || key.value == "" || value.None? then
      Update(false, states, [])
    else
      var s := ToStr(value.value);
      if StateChanged(states, key.value, s) then
        Update(true, states[key.value := s], [Notification(key.value, s)])
      else
        Update(false, states, [])
  }

  lemma StepRejectsInvalid(states: map<string, string>, key: Option<string>, value: Option<Value>)
    requires key.None? || key == Some("") || value.None?
    ensures Step(states, key, value) == Update(false, states, [])
  {
  }

  lemma StepSkipsUnchanged(states: map<string, string>, key: string, value: Value)
    requires key in states && states[key] == ToStr(value)
    ensures Step(states, Some(key), Some(value)) == Update(false, states, [])
  {
  }

  lemma StepWritesChange(states: map<string, string>, key: string, value: Value)
    requires key != ""
    requires key !in states || states[key] != ToStr(value)
    ensures var u := Step(states, Some(key), Some(value));
      u.changed && u.after == states[key := ToStr(value)] &&
      u.emitted == [Notification(key, ToStr(value))]
  {
  }

  /** Only the given key may change: every other key keeps its presence and
      value, and the key set grows by at most that key. */
  lemma StepChangesOnlyKey(states: map<string, string>, key: Option<string>, value: Option<Value>)
    ensures var u := Step(states, key, value);
      && states.Keys <= u.after.Keys
      && (u.after.Keys == states.Keys || (key.Some? && u.after.Keys == states.Keys + {key.value}))
      && forall k :: k in states && (key.None? || k != key.value) ==> k in u.after && u.after[k] == states[k]
  {
  }

  /** A notification is emitted exactly when the table changes, and it
      carries the key and the value now stored. */
  lemma StepNotifiesIffChanged(states: map<string, string>, key: Option<string>, value: Option<Value>)
    ensures var u := Step(states, key, value);
      && (u.changed <==> u.after != states)
      && (u.changed <==> |u.emitted| == 1)
      && (u.emitted == [] || (key.Some? && key.value in u.after &&
                              u.emitted == [Notification(key.value, u.after[key.value])]))
  {
  }

  /** Repeating an update that took effect changes nothing and emits nothing. */
  lemma StepIdempotent(states: map<string, string>, key: Option<string>, value: Option<Value>)
    ensures var u := Step(states, key, value);
      u.changed ==> Step(u.after, key, value) == Update(false, u.after, [])
  {
  }

  /** After a value is stored, a value of the same kind takes effect exactly
      when it is a different value. */
  lemma StepDetectsNewValue(states: map<string, string>, key: string, v: Value, w: Value)
    requires key != "" && SameKind(v, w)
    ensures var u := Step(Step(states, Some(key), Some(v)).after, Some(key), Some(w));
      u.changed <==> v != w
  {
    if v != w && ToStr(v) == ToStr(w) {
      ToStrInjective(v, w);
    }
  }

  /** Supplying the stored string form again, as text, is a no-op. */
  lemma StepCanonicalRepeat(states: map<string, string>, key: Option<string>, value: Value)
    ensures var after := Step(states, key, Some(value)).after;
      !Step(after, key, Some(Text(ToStr(value)))).changed
  {
  }

  /** The table an observer rebuilds by applying the notifications in order. */
  function Replay(log: seq<Notification>): map<string, string>
  {
    if log == [] then map[]
    else Replay(log[..|log| - 1])[log[|log| - 1].key := log[|log| - 1].value]
  }

  /** Every notification in the log announced a genuine transition of the
      table the earlier notifications describe. */
  predicate GenuineTransitions(log: seq<Notification>)
  {
    forall i :: 0 <= i < |log| ==> log[i].key != "" && StateChanged(Replay(log[..i]), log[i].key, log[i].value)
  }

  /** The log stays an exact, duplicate-free history of the table under each
      update. */
  lemma {:induction false} StepKeepsHistory(log: seq<Notification>, key: Option<string>, value: Option<Value>)
    requires GenuineTransitions(log)
    ensures var u := Step(Replay(log), key, value);
      Replay(log + u.emitted) == u.after && GenuineTransitions(log + u.emitted)
  {
    var u := Step(Replay(log), key, value);
    var log' := log + u.emitted;
    if u.emitted != [] {
      assert log'[..|log'| - 1] == log;
      forall i | 0 <= i < |log'|
        ensures log'[i].key != "" && StateChanged(Replay(log'[..i]), log'[i].key, log'[i].value)
      {
        if i < |log| {
          assert log'[..i] == log[..i];
        }
      }
    } else {
      assert log' == log;
    }
  }

  /** The key set of a history is the set of keys it announced. */
  lemma {:induction false} ReplayKeys(log: seq<Notification>)
    ensures forall k :: k in Replay(log) <==> exists i :: 0 <= i < |log| && log[i].key == k
  {
    if log != [] {
      var init := log[..|log| - 1];
      ReplayKeys(init);
      forall k ensures k in Replay(log) <==> exists i :: 0 <= i < |log| && log[i].key == k {
        if k in Replay(init) {
          var i :| 0 <= i < |init| && init[i].key == k;
          assert log[i].key == k;
        }
        if exists i :: 0 <= i < |log| && log[i].key == k {
          var i :| 0 <= i < |log| && log[i].key == k;
          if i < |init| {
            assert init[i].key == k;
          }
        }
      }
    }
  }

  /** A key passes the listing filter: a missing or empty filter passes every
      key; otherwise `isMatch`, the regular-expression test, is applied to the
      lower-cased key and the lower-cased pattern. */
  predicate Selected(key: string, filter: Option<string>, isMatch: (string, string) -> bool): (r: bool)
    ensures (filter.None? || filter == Some("")) ==> r
    ensures filter.Some? && filter.value != "" ==> (r <==> isMatch(Lower(key), Lower(filter.value)))
  {
    filter.None? || filter.value == "" || isMatch(Lower(key), Lower(filter.value))
  }

  /** Filtering does not depend on the case of the ASCII letters in the key
      or in the pattern. */
  lemma SelectionIgnoresCase(key: string, key': string, pattern: string, pattern': string,
                             isMatch: (string, string) -> bool)
    requires SameUpToCase(key, key') && SameUpToCase(pattern, pattern')
    ensures Selected(key, Some(pattern), isMatch) == Selected(key', Some(pattern'), isMatch)
  {
    LowerIgnoresCase(key, key');
    LowerIgnoresCase(pattern, pattern');
  }

  function KeysOf(records: seq<Entry>): seq<string>
  {
    seq(|records|, i requires 0 <= i < |records| => records[i].key)
  }

  /** `records` lists, in strictly ascending key order, exactly the stored
      entries whose key passes the filter, each with its stored value. */
  predicate IsListing(states: map<string, string>, filter: Option<string>,
                      isMatch: (string, string) -> bool, records: seq<Entry>)
  {
    && StrictlySorted(KeysOf(records))
    && (forall i :: 0 <= i < |records| ==>
          records[i].key in states && states[records[i].key] == records[i].value &&
          Selected(records[i].key, filter, isMatch))
    && (forall k :: k in states && Selected(k, filter, isMatch) ==> k in KeysOf(records))
  }

  /** The records of the stored `keys` that pass the filter, in the order of
      `keys`. */
  function Listing(states: map<string, string>, keys: seq<string>, filter: Option<string>,
                   isMatch: (string, string) -> bool): seq<Entry>
    requires forall k :: k in keys ==> k in states
  {
    if keys == [] then []
    else
      var key := keys[|keys| - 1];
      Listing(states, keys[..|keys| - 1], filter, isMatch) +
      (if Selected(key, filter, isMatch) then [Entry(key, states[key])] else [])
  }

  /** Filtering a strictly sorted list of stored keys keeps them sorted,
      keeps only stored entries that pass, and drops none that pass. */
  lemma {:induction false} ListingProperties(states: map<string, string>, keys: seq<string>,
                                              filter: Option<string>, isMatch: (string, string) -> bool)
    requires StrictlySorted(keys) && forall k :: k in keys ==> k in states
    ensures var records := Listing(states, keys, filter, isMatch);
      && StrictlySorted(KeysOf(records))
      && (forall i :: 0 <= i < |records| ==>
            records[i].key in keys && states[records[i].key] == records[i].value &&
            Selected(records[i].key, filter, isMatch))
      && (forall k :: k in keys && Selected(k, filter, isMatch) ==> k in KeysOf(records))
  {
    if keys != [] {
      var init, key := keys[..|keys| - 1], keys[|keys| - 1];
      assert keys == init + [key];
      ListingProperties(states, init, filter, isMatch);
      var before := Listing(states, init, filter, isMatch);
      var records := Listing(states, keys, filter, isMatch);
      if Selected(key, filter, isMatch) {
        assert records == before + [Entry(key, states[key])];
        assert KeysOf(records) == KeysOf(before) + [key];
        forall p, q | 0 <= p < q < |records| ensures Less(KeysOf(records)[p], KeysOf(records)[q]) {
          if q == |before| {
            var j :| 0 <= j < |init| && init[j] == before[p].key;
            assert Less(keys[j], keys[|keys| - 1]);
          } else {
            assert KeysOf(records)[p] == KeysOf(before)[p];
          }
        }
      } else {
        assert records == before;
      }
    }
  }

  /** Filtering the sorted list of all stored keys yields the listing. */
  lemma ListingIsListing(states: map<string, string>, keys: seq<string>,
                         filter: Option<string>, isMatch: (string, string) -> bool)
    requires StrictlySorted(keys) && forall k :: k in keys <==> k in states
    ensures IsListing(states, filter, isMatch, Listing(states, keys, filter, isMatch))
  {
    ListingProperties(states, keys, filter, isMatch);
  }

  /** A listing is determined by the table and the filter. */
  lemma ListingUnique(states: map<string, string>, filter: Option<string>,
                      isMatch: (string, string) -> bool, r1: seq<Entry>, r2: seq<Entry>)
    requires IsListing(states, filter, isMatch, r1) && IsListing(states, filter, isMatch, r2)
    ensures r1 == r2
  {
    var k1, k2 := KeysOf(r1), KeysOf(r2);
    forall x ensures x in k1 <==> x in k2 {
      if x in k1 {
        var i :| 0 <= i < |k1| && k1[i] == x;
        assert r1[i].key == x;
      }
      if x in k2 {
        var i :| 0 <= i < |k2| && k2[i] == x;
        assert r2[i].key == x;
      }
    }
    SortedUnique(k1, k2);
    assert |r1| == |k1| == |k2| == |r2|;
    forall i | 0 <= i < |r1| ensures r1[i] == r2[i] {
      assert r1[i].key == k1[i] == k2[i] == r2[i].key;
    }
  }

  /** With a missing or empty filter the listing holds the whole table, one
      record per key. */
  lemma FullListing(states: map<string, string>, filter: Option<string>,
                    isMatch: (string, string) -> bool, records: seq<Entry>)
    requires filter.None? || filter == Some("")
    requires IsListing(states, filter, isMatch, records)
    ensures (set r | r in records :: r.key) == states.Keys
    ensures |records| == |states|
  {
    var ks := KeysOf(records);
    assert (set x | x in ks) == states.Keys by {
      forall x | x in ks ensures x in states {
        var i :| 0 <= i < |ks| && ks[i] == x;
        assert records[i].key == x;
      }
    }
    assert (set r | r in records :: r.key) == (set x | x in ks) by {
      forall r | r in records ensures r.key in ks {
        var i :| 0 <= i < |records| && records[i] == r;
        assert ks[i] == r.key;
      }
      forall x | x in ks ensures x in (set r | r in records :: r.key) {
        var i :| 0 <= i < |ks| && ks[i] == x;
        assert records[i] in records;
      }
    }
    SortedCardinality(ks);
  }

  /** Every one of `parts` occurs literally in `key`. */
  predicate ContainsAllParts(key: string, parts: seq<string>)
  {
    forall i :: 0 <= i < |parts| ==> Contains(key, parts[i])
  }
}
