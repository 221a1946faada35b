# In-memory state data store, modelled in Dafny

The model covers `InternalStateDataStore`, the in-memory state table of a room-controller
toolkit. The table maps a state key, such as `RoomController:room:SourceLevel:laptop`,
to the string form of its value. It offers three operations:

- `UpdateState` writes a value with change detection. An empty or missing key is
  rejected, and so is a missing value. A value whose string form equals the stored
  string is skipped. Every write that takes effect sends exactly one update
  notification `(key, value)`.
- `GetStates` lists every entry whose lower-cased key matches the lower-cased
  regular expression. Entries come in ascending key order. A missing or empty filter
  lists the whole table.
- `GetState` returns the first entry, in dictionary iteration order, whose key
  contains every given substring. It returns nothing when no key qualifies.

Files:

- `strings.dfy` (module `Strings`): facts about strings. It defines ordinal string
  order and proves it a strict total order. It proves that a strictly sorted sequence
  is fixed by its elements. It also holds literal substring search (`Contains`), ASCII
  lower-casing, and the decimal form of integers with its round trip.
- `state_table.dfy` (module `StateTable`): the pure parts of the model.
  - `Value` is the union of the value kinds callers store. `ToStr` gives each one's
    string form.
  - `StateChanged` is the change test.
  - `Step` is the transition function of one update. The lemmas about it give the
    update's contract.
  - `Replay` rebuilds the table from the notification log.
  - `IsListing` specifies a listing. `Listing` is the loop's running result.
- `internal_state_data_store.dfy` (module `StateDataStore`): the class
  `InternalStateDataStore`.
  - Its `states: map<string, string>` field is updated in place.
  - A ghost `notifications` log stands in for the update event.
  - `Valid()` says three things: no stored key is empty, replaying the log gives the
    table, and every notification announced a genuine change.
  - `GetStates` sorts the keys and filters them in a loop. `GetState` scans the keys
    with an early return. `ContainsAll` is the loop over the substrings.
- `scenario.dfy` (module `StateDataStoreExample`): the room-controller example. It
  makes two updates and one redundant repeat, looks up `["laptop", "Mute"]` and
  lists with the filter `sourcelevel`. The results are proved from the contracts
  alone.

Modelling choices:

- A C# `null` is `None` of an `Option`: a null key, value or filter.
- `Regex.Match(key.ToLower(), regex.ToLower()).Success` becomes
  `isMatch(Lower(key), Lower(regex))`. Here `isMatch` is a function parameter that
  stands for the regular-expression engine.
- `GetState` walks the keys in an arbitrary order. Each step picks any key not yet
  visited, so its contract holds whichever qualifying key the dictionary yields first.

Edge cases, as the code handles them:

- An empty substring list given to `GetState` matches every key, because the loop in
  `ContainsAll` (StateDataStore/InternalStateDataStore.cs:118-125) runs zero times. So
  a non-empty table always yields an entry (`GetState`'s third ensures).
- Where C# throws on an invalid pattern (only when the table has a key, since with no
  keys the loop at StateDataStore/InternalStateDataStore.cs:70-81 never calls
  `Regex.Match`), the model returns the listing its `isMatch` gives. The throw is not
  modelled.
- The pattern is lower-cased as a whole (StateDataStore/InternalStateDataStore.cs:72),
  escapes included. So `\D`, `\S`, `\W` and `\B` become `\d`, `\s`, `\w` and `\b`,
  which match the opposite. The model passes `Lower(pattern)` to `isMatch` in the same
  way, so it keeps this behaviour.
- The interface documentation calls the `GetStates` filter a substring. The code uses
  it as a regular expression.

## Model

| member | source | states |
|---|---|---|
| `StateDataStore.InternalStateDataStore.UpdateState` | StateDataStore/InternalStateDataStore.cs:37-49 | The return value, the new table and the appended notifications are those of `Step` on the old table. The class invariant survives: the log replays to the table and holds only genuine changes. |
| `StateDataStore.InternalStateDataStore.NotifyStateUpdated` | StateDataStore/InternalStateDataStore.cs:151-154 | Appends exactly the notification `(key, value)` to the log and leaves the table unchanged. |
| `StateDataStore.InternalStateDataStore.constructor` | StateDataStore/InternalStateDataStore.cs:13 | The table starts empty, with no notifications, and satisfies the invariant. |
| `StateDataStore.InternalStateDataStore.GetStates` | StateDataStore/InternalStateDataStore.cs:59-85 | Returns records in strictly ascending key order. Each record holds a stored key that passes the filter, with its stored value. Every stored key that passes the filter is listed. |
| `StateDataStore.InternalStateDataStore.SortedKeys` | StateDataStore/InternalStateDataStore.cs:62-63 | Returns the table's keys in strictly ascending order, each key exactly once. |
| `StateDataStore.InternalStateDataStore.Insert` | StateDataStore/InternalStateDataStore.cs:63 | Inserting a new key into a strictly sorted list keeps it strictly sorted. The inserted key is added and nothing else changes. |
| `StateDataStore.InternalStateDataStore.GetState` | StateDataStore/InternalStateDataStore.cs:98-114 | Returns nothing exactly when no stored key contains every substring. Otherwise the entry it returns is stored, contains every substring and carries its stored value. An empty list returns nothing only when the table is empty. |
| `StateDataStore.InternalStateDataStore.ContainsAll` | StateDataStore/InternalStateDataStore.cs:116-126 | Returns true exactly when every one of the matches occurs literally in the target. |
| `StateTable.ToStr` | StateDataStore/InternalStateDataStore.cs:43 | Text is stored as itself. A flag is stored as `True` exactly when it is set and as `False` exactly when it is not. An integer's form is non-empty and starts with '-' exactly when the integer is negative. |
| `StateTable.StateChanged` | StateDataStore/InternalStateDataStore.cs:134-144 | Reports a change exactly when storing the string under the key would alter the table. |
| `StateTable.Step` | StateDataStore/InternalStateDataStore.cs:37-49 | Only an update with a non-empty key and a value can take effect. One that takes effect sends exactly one notification. One that does not sends none and leaves the table as it was. |
| `StateTable.Selected` | StateDataStore/InternalStateDataStore.cs:72 | A missing or empty filter passes every key. Otherwise a key passes exactly when its lower-cased form matches the lower-cased pattern. |
| `StateTable.StepRejectsInvalid` | StateDataStore/InternalStateDataStore.cs:39-48 | A missing or empty key, or a missing value, returns false, leaves the table as it was and sends nothing. |
| `StateTable.StepSkipsUnchanged` | StateDataStore/InternalStateDataStore.cs:136-141 | A key whose stored string equals the new string form returns false, leaves the table as it was and sends nothing. |
| `StateTable.StepWritesChange` | StateDataStore/InternalStateDataStore.cs:41-45 | A new key, or a changed string, is stored as `table[key := s]`. The update returns true and sends exactly `(key, s)`. |
| `StateTable.StepChangesOnlyKey` | StateDataStore/InternalStateDataStore.cs:43 | Every other key keeps its presence and value. The key set never shrinks and grows by at most the updated key. |
| `StateTable.StepNotifiesIffChanged` | StateDataStore/InternalStateDataStore.cs:41-45 | An update takes effect exactly when the table changes, and exactly when one notification is sent. That notification carries the key and its newly stored value. |
| `StateTable.StepIdempotent` | StateDataStore/InternalStateDataStore.cs:136-140 | Repeating an update that took effect returns false, changes nothing and sends nothing. |
| `StateTable.StepDetectsNewValue` | StateDataStore/InternalStateDataStore.cs:138 | After a value is stored under a valid key, a second value of the same kind takes effect exactly when it differs from the first. |
| `StateTable.StepCanonicalRepeat` | StateDataStore/InternalStateDataStore.cs:43 | Writing the stored string form back as text is never treated as a change. |
| `StateTable.ToStrInjective` | StateDataStore/InternalStateDataStore.cs:138 | Two values of the same kind with equal string forms are equal, so comparing string forms misses no change. |
| `StateTable.StepKeepsHistory` | StateDataStore/InternalStateDataStore.cs:41-45 | After any update, replaying the extended log gives the new table. Every notification in the log still announces a genuine change. |
| `StateTable.ReplayKeys` | StateDataStore/InternalStateDataStore.cs:43-44 | The keys of the table rebuilt from a log are exactly the keys the log announced. |
| `StateTable.SelectionIgnoresCase` | StateDataStore/InternalStateDataStore.cs:72 | Two keys, and two patterns, that differ only in the case of ASCII letters pass or fail the filter alike. |
| `StateTable.ListingProperties` | StateDataStore/InternalStateDataStore.cs:70-81 | Filtering a strictly sorted list of stored keys keeps them strictly sorted. It keeps only passing keys, pairs each with its stored value, and drops no passing key. |
| `StateTable.ListingIsListing` | StateDataStore/InternalStateDataStore.cs:62-81 | Filtering the sorted list of all keys gives a listing of the table. |
| `StateTable.ListingUnique` | StateDataStore/InternalStateDataStore.cs:62-81 | Any two listings of the same table under the same filter are equal, so the output is deterministic. |
| `StateTable.FullListing` | StateDataStore/InternalStateDataStore.cs:72 | With a missing or empty filter, a listing has one record per stored key and covers every key. |
| `Strings.Contains` | StateDataStore/InternalStateDataStore.cs:120 | True exactly when the substring occurs at some position of the string. The empty string occurs in every string. |
| `Strings.SortedUnique` | StateDataStore/InternalStateDataStore.cs:63 | Two strictly sorted sequences with the same elements are equal. |
| `Strings.SortedCardinality` | StateDataStore/InternalStateDataStore.cs:62-63 | A strictly sorted sequence has as many elements as the set it holds. |
| `Strings.LessIrreflexive` | StateDataStore/InternalStateDataStore.cs:63 | No key sorts before itself. |
| `Strings.LessTransitive` | StateDataStore/InternalStateDataStore.cs:63 | The order used for sorting is transitive. |
| `Strings.LessTotal` | StateDataStore/InternalStateDataStore.cs:63 | Of any two different keys, one sorts before the other. |
| `Strings.LessAsymmetric` | StateDataStore/InternalStateDataStore.cs:63 | Two keys never each sort before the other. |
| `Strings.Lower` | StateDataStore/InternalStateDataStore.cs:72 | Lower-casing keeps the length and leaves no upper-case ASCII letter. Each of 'A' to 'Z' becomes the matching letter of 'a' to 'z', and every other character is kept in place. |
| `Strings.LowerIgnoresCase` | StateDataStore/InternalStateDataStore.cs:72 | Two strings lower-case to the same string exactly when they differ at most in the case of ASCII letters. |
| `Strings.NatToDecimal` | StateDataStore/InternalStateDataStore.cs:43 | The decimal form of a natural number is a non-empty string of digits with no leading zero. |
| `Strings.DecimalRoundTrip` | StateDataStore/InternalStateDataStore.cs:43 | Reading back the decimal form of a natural number gives that number. |
| `Strings.IntToStringInjective` | StateDataStore/InternalStateDataStore.cs:138 | Different integers have different string forms. |

## Left out

- JSON writing is left out (`JsonTextWriter`, lines 65-84 and 104-110). It is a foreign library. A listing is a sequence of `Entry(key, value)` records, one per `{guid, value}` object. A lookup result is one optional `Entry`, for the `{key: value}` object.
- The regular-expression engine is left out. `isMatch` is a function parameter. The exception `Regex.Match` throws on an invalid pattern is not modelled.
- `ToLower` is modelled as ASCII lower-casing only. Culture-sensitive Unicode case mapping is not modelled.
- `List<string>.Sort()` uses the culture-sensitive default string comparer. The model sorts keys in ordinal character order instead. Culture collation has no definition to verify against.
- `object.ToString()` is modelled for strings, booleans (`True`/`False`) and integers (invariant-culture decimal, any width). Other value types, such as floating point, enums and custom objects, are left out.
- The order of dictionary iteration in `GetState` is left out. The method may visit the keys in any order.
- `StateDataStore.InternalStateDataStore.GetState`: does not state which qualifying entry comes first, because .NET leaves the dictionary's enumeration order unspecified.
- `GetState` throws in C# when its scan reaches a null list or a null substring. With an empty table the list is never examined. The model takes a sequence of strings and does not model the throw.
- Subscribers, event delivery and re-entrancy are left out. The event is replaced by the ghost notification log.
- `Initialize` is left out. It just returns `true`.
- Locking and concurrent callers are left out. Every operation is modelled as one sequential step.
- `IStateDataStore.cs`, `StateDataStoreBase.cs` and `StateDataStoreUpdateEventArgs.cs` are left out. They hold only an interface, an abstract base and a payload class with no logic.
