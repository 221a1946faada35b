/** The room-controller scenario: two updates, a redundant repeat, a lookup
    by two substrings and a filtered listing. The filter's regular
    expression is a plain word, so literal containment stands in for it. */
module StateDataStoreExample {
  import opened Strings
  import opened StateTable
  import opened StateDataStore

  /** The scenario's two keys contain and lack the substrings looked up. */
  lemma ScenarioKeys(level: string, mute: string)
    requires level == "RoomController:room:SourceLevel:laptop"
    requires mute == "RoomController:room:SourceMute:laptop"
    ensures level != mute
    ensures ContainsAllParts(mute, ["laptop", "Mute"])
    ensures !ContainsAllParts(level, ["laptop", "Mute"])
  {
    assert OccursAt(mute, "laptop", 31);
    assert OccursAt(mute, "Mute", 26);
    MissingChar(level, "Mute", 0);
    assert ["laptop", "Mute"][1] == "Mute";
    assert level[26] != mute[26];
  }

  /** A string lacking one of the characters of `sub` does not contain it. */
  lemma MissingChar(s: string, sub: string, j: nat)
    requires j < |sub| && sub[j] !in s
    ensures !Contains(s, sub)
  {
  }

  /** Lower-casing yields a lower-case letter only from that letter or its
      upper-case form. */
  lemma MissingLower(s: string, c: char)
    requires 'a' <= c <= 'z'
    requires c !in s && (c as int - 32) as char !in s
    ensures c !in Lower(s)
  {
  }

  const Level := "RoomController:room:SourceLevel:laptop"
  const Mute := "RoomController:room:SourceMute:laptop"

  method RoomControllerScenario()
  {
    var store := new InternalStateDataStore();
    assert IntToString(60) == "60" by {
      assert NatToDecimal(6) == "6";
    }
    var ok := store.UpdateState(Some(Level), Some(Integer(60)));
    assert ok && store.states == map[Level := "60"];
    ok := store.UpdateState(Some(Mute), Some(Flag(false)));
    assert ok && store.states == map[Level := "60", Mute := "False"];
    ok := store.UpdateState(Some(Mute), Some(Flag(false)));
    assert !ok && |store.notifications| == 2;
    LookupScenario(store, Level, Mute);
    ListingScenario(store, Level, Mute);
  }

  method LookupScenario(store: InternalStateDataStore, level: string, mute: string)
    requires level == "RoomController:room:SourceLevel:laptop"
    requires mute == "RoomController:room:SourceMute:laptop"
    requires store.states == map[level := "60", mute := "False"]
  {
    ScenarioKeys(level, mute);
    var found := store.GetState(["laptop", "Mute"]);
    OnlyMatch(store.states, level, mute, ["laptop", "Mute"], found);
    assert found == Some(Entry(mute, "False"));
  }

  /** A pattern without regular-expression metacharacters matches where it
      occurs literally. */
  predicate LiteralMatch(input: string, pattern: string)
  {
    Contains(input, pattern)
  }

  /** "sourcelevel" selects the level key, whatever the case of its letters. */
  lemma LevelSelected(level: string)
    requires level == "RoomController:room:SourceLevel:laptop"
    ensures Selected(level, Some("sourcelevel"), LiteralMatch)
  {
    assert Lower("sourcelevel") == "sourcelevel";
    assert Lower(level)[20..31] == "sourcelevel";
    assert OccursAt(Lower(level), "sourcelevel", 20);
  }

  /** "sourcelevel" does not select the mute key: it has no 'v' or 'V'. */
  lemma MuteNotSelected(mute: string)
    requires mute == "RoomController:room:SourceMute:laptop"
    ensures !Selected(mute, Some("sourcelevel"), LiteralMatch)
  {
    assert Lower("sourcelevel") == "sourcelevel";
    MissingLower(mute, 'v');
    MissingChar(Lower(mute), "sourcelevel", 8);
  }

  /** Listing with the pattern "sourcelevel" finds the level key only. */
  method ListingScenario(store: InternalStateDataStore, level: string, mute: string)
    requires level == "RoomController:room:SourceLevel:laptop"
    requires mute == "RoomController:room:SourceMute:laptop"
    requires store.states == map[level := "60", mute := "False"]
  {
    LevelSelected(level);
    MuteNotSelected(mute);
    assert level[26] != mute[26];
    var records := store.GetStates(Some("sourcelevel"), LiteralMatch);
    OnlySelected(store.states, level, mute, Some("sourcelevel"), LiteralMatch, records);
    assert records == [Entry(level, "60")];
  }

  /** When exactly one of two stored keys passes the filter, the listing is
      that one record. */
  lemma OnlySelected(states: map<string, string>, key: string, other: string, filter: Option<string>,
                     isMatch: (string, string) -> bool, records: seq<Entry>)
    requires states.Keys == {key, other} && key != other
    requires Selected(key, filter, isMatch) && !Selected(other, filter, isMatch)
    requires IsListing(states, filter, isMatch, records)
    ensures records == [Entry(key, states[key])]
  {
    var expected := [Entry(key, states[key])];
    assert KeysOf(expected) == [key];
    ListingUnique(states, filter, isMatch, records, expected);
  }

  /** When exactly one of two stored keys qualifies, a lookup can only
      return that one. */
  lemma OnlyMatch(states: map<string, string>, other: string, key: string,
                  parts: seq<string>, found: Option<Entry>)
    requires states.Keys == {other, key}
    requires ContainsAllParts(key, parts) && !ContainsAllParts(other, parts)
    requires found.None? <==> forall k :: k in states ==> !ContainsAllParts(k, parts)
    requires found.Some? ==> found.value.key in states && states[found.value.key] == found.value.value &&
                             ContainsAllParts(found.value.key, parts)
    ensures found == Some(Entry(key, states[key]))
  {
  }
}
