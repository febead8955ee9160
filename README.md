# stower, modelled in Dafny

stower keeps a key-value store in memory. It writes the store to one JSON
file after a one-second debounce, or at once on `flush`. Each write takes an
advisory lock file, stages the document in a temp file and renames that over
the data file. When the data file cannot be loaded, it is moved aside to
`<file>.corrupt`. Names are trimmed and lower-cased, so `" Foo "` and `"foo"`
are one key. `exists` can compare stored values structurally.

The model follows `index.js` module by module:

- `KeyNormalization` (key.dfy): `key`, with the exact white-space set of
  `String.prototype.trim`.
- `Json` (json.dfy): the stored values. It also holds the JavaScript facts
  `deepEqual` relies on: truthiness, `typeof 'object'`, `===`,
  `Object.keys` and `hasOwnProperty`.
- `DeepEquality` (deep_equal.dfy): `deepEqual` as written, and a corrected
  comparison.
- `Dictionary` (dict.dfy): `_store` as a JavaScript object. Its own
  properties are kept in insertion order, so `keys()` and `values()` agree
  with each other.
- `Paths` (paths.dfy): how `persist` picks `_FILE`, `_TEMP`, `_LOCK` and
  `_BACKUP`.
- `Protocol` (protocol.dfy): the lock attempts, the unlock, the locked
  write, and a whole write cycle. These are functions over an abstract disk,
  a map from path to contents, with the environment's failures as inputs.
- `Stower` (stow.dfy): the module state (`index.js:8-14`) as the class
  `Stow`, and the public operations as its methods. The disk and the log of
  disk effects are fields, so the methods can be proved against the
  `Protocol` functions.

Timers are modelled as a single `pending` flag: `save` arms it and the timer
firing (`Tick`) clears it and runs one write.

Inputs that stand in for the environment:

- The current directory.
- The default cache path, which `getCachePath` computes.
- The `JSON.parse` and `JSON.stringify` functions.
- Which file-system calls fail. For the lock this is a predicate on the
  attempt number.

## Model

| member | source | states |
|---|---|---|
| KeyNormalization.KeyUnpadsAndLowers | index.js:49-51 | the key is the name with a blank prefix and a blank suffix cut off, leaving no white space at either end, then lower-cased; every such cut gives that key |
| KeyNormalization.Key | index.js:49-51 | the key neither starts nor ends with white space, has no capital letters and is no longer than the name; which string it is follows from `KeyUnpadsAndLowers` with `TrimUnique` |
| KeyNormalization.KeyFixed | index.js:49-51 | a name that is already trimmed and has no capitals is its own key, so distinct such names keep distinct keys |
| KeyNormalization.KeysCollide | index.js:49-51 | two names share a key exactly when their trimmed forms differ at most in the case of their letters |
| KeyNormalization.TrimStart | index.js:50 | the result is a suffix of the name that does not start with white space, and everything cut off is white space |
| KeyNormalization.TrimEnd | index.js:50 | the result is a prefix of the name that does not end with white space, and everything cut off is white space |
| KeyNormalization.Trim | index.js:50 | the result neither starts nor ends with white space; `TrimUnpads` and `TrimUnique` fix which string it is |
| KeyNormalization.TrimUnpads | index.js:50 | `trim` gives the name with a blank prefix and a blank suffix cut off, and what is left neither starts nor ends with white space |
| KeyNormalization.TrimUnique | index.js:50 | exactly one string is the name so unpadded, and it is the result of `trim` |
| KeyNormalization.KeyIdempotent | index.js:49-51 | normalising a key a second time changes nothing |
| KeyNormalization.KeyIgnoresCase | index.js:49-51 | two names that differ only in letter case give the same key |
| KeyNormalization.KeyIgnoresPadding | index.js:49-51 | white space added before or after a name does not change its key |
| KeyNormalization.TrimIgnoresPadding | index.js:50 | white space added before or after a string is removed again by `trim` |
| KeyNormalization.IsSpace | index.js:50 | defines the characters `trim` removes: the ECMAScript white-space and line-terminator code points |
| KeyNormalization.LowerChar | index.js:50 | `toLowerCase` of one character gives no capital, keeps white space white space, and leaves every non-capital as it is |
| KeyNormalization.ToLower | index.js:50 | `toLowerCase` keeps the length and lower-cases each character in place |
| Json.Truthy | index.js:160 | defines JavaScript truthiness: false exactly for null, `false`, `0` and the empty string, true for every array and object; it is the test of `!name` and `!value` (line 160), of the `null` fallback (line 171) and of `!val` and `!obj` (lines 192-193) |
| Json.IsObject | index.js:61 | defines `typeof v === 'object' && v`: true exactly for arrays and objects, false for null and every other primitive |
| Json.Identical | index.js:60 | defines `a === b`: true exactly for two equal primitives, never for an array or object (see "## Left out") |
| Json.HasOwnProperty | index.js:69 | defines `hasOwnProperty.call(b, k)`: `k` is one of `Object.keys(b)`, or `k` is `length` and `b` is an array |
| Json.Property | index.js:70 | defines `v[k]`: an array's `length` is its size, an own key gives that property's value, anything else, which `deepEqual` never reads because it checks `hasOwnProperty` first, is modelled as null |
| Json.OwnKeys | index.js:63-64 | `Object.keys` gives one name per own property: the decimal indices of an array, the member names of an object in order; `length` is never among an array's keys |
| Json.IndexKey | index.js:63-64 | the property name of an array index is a non-empty numeral of decimal digits that denotes the index, one digit exactly for indices below 10, never with a leading zero |
| Json.IndexKeyInjective | index.js:63-64 | distinct array indices have distinct property names |
| Json.OwnKeysDistinct | index.js:63-64 | the own keys of a well-formed value never repeat |
| DeepEquality.DeepEqual | index.js:59-74 | when either side is not an object, the result is true exactly when the two are the same primitive value |
| DeepEquality.DeepEqualReflexive | index.js:60 | every well-formed value is deeply equal to itself |
| DeepEquality.DeepEqualAsymmetric | index.js:69 | `{length: 1}` equals `[5]` while `[5]` does not equal `{length: 1}`: the comparison as written depends on argument order |
| DeepEquality.DeepEqualByKeys | index.js:59-74 | the corrected comparison agrees with `===` whenever either side is not an object |
| DeepEquality.ByKeysOnObjects | index.js:63-73 | two well-formed objects compare equal exactly when they have the same key set and, key by key, deeply equal values |
| DeepEquality.ByKeysIgnoresOrder | index.js:63-73 | an object equals any reordering of its members |
| DeepEquality.ByKeysSymmetric | index.js:59-74 | the corrected comparison gives the same answer with its arguments swapped |
| DeepEquality.ByKeysTransitive | index.js:59-74 | the corrected comparison is transitive |
| DeepEquality.ByKeysReflexive | index.js:60 | the corrected comparison is reflexive on well-formed values |
| DeepEquality.ByKeysImpliesDeepEqual | index.js:69 | whatever the corrected comparison accepts, the original accepts too |
| DeepEquality.DeepEqualWithoutLengthKey | index.js:69 | the two comparisons agree unless the first value has a member named `length` somewhere |
| Dictionary.Empty | index.js:12 | `Object.create(null)` (also lines 39 and 223) is a valid store with no keys at all |
| Dictionary.Insert | index.js:161 | assignment sets the one property; a new key is listed last, an existing key keeps its place, each key is listed once |
| Dictionary.Delete | index.js:180 | `delete` removes the one property if present, leaves every other property and its value, and keeps the store valid |
| Dictionary.DeleteKeepsOrder | index.js:180 | deleting a present key removes exactly its entry from the key order: the keys before it and after it keep their order |
| Dictionary.FromFields | index.js:34 | the parsed store is a valid store, lists no more keys than the document has members, and holds the last member under its name |
| Dictionary.FromFieldsKeys | index.js:34 | the keys of the parsed store are exactly the names of the document's members |
| Dictionary.FromFieldsValues | index.js:34 | each key of the parsed store holds the value of the last member with that name |
| Dictionary.ToJson | index.js:122 | the serialised object lists the store's keys in order, with their values |
| Dictionary.RoundTrip | index.js:122 | reading back the members of the serialised store rebuilds the same store, order included |
| Paths.WithJsonExtension | index.js:26 | the result ends in `.json` and extends the name; it equals the name exactly when the name already had that extension |
| Paths.HasJsonExtension | index.js:26 | defines `path.extname(p) === '.json'`: the last segment ends in `.json` and is longer than `.json` itself |
| Paths.Resolve | index.js:28 | `path.resolve` ends with the name; an absolute name is kept as it is; otherwise the working directory comes first, joined by one separator; the result is absolute when the working directory is |
| Paths.SiblingsOf | index.js:29-31 | the temp, lock and backup paths differ from the data file and from each other |
| Paths.Derive | index.js:24-31 | the data file ends with the name, `.json` added when missing; it is that name itself when the name is absolute, and absolute when the working directory is; the other three paths come from it |
| Paths.ReinitialiseSameTarget | index.js:26-28 | initialising again with the returned filename selects the same four paths |
| Protocol.AttemptsFailBeforeLast | index.js:84-97 | every attempt but the last one failed, because of a marker or a refusal; so the callback runs at most once |
| Protocol.Attempts | index.js:82-98 | every call of `lock` records at least one attempt |
| Protocol.AttemptsEnd | index.js:84-97 | the last attempt either took the free lock no later than attempt 11, or `lock` gave up right after attempt 11 |
| Protocol.SustainedContention | index.js:90-93 | under constant contention, attempts 0 to 11 all fail and the callback never runs |
| Protocol.FirstFreeAttemptWins | index.js:84-87 | without a marker, the first attempt that is not refused takes the lock |
| Protocol.Release | index.js:104-111 | the marker is deleted exactly when it is there and deletion does not fail; otherwise the disk is unchanged |
| Protocol.Staged | index.js:121-128 | the replacement is recorded exactly when neither the write of the temp file nor the rename fails; what that does to the disk is stated by `CriticalSectionOutcome` |
| Protocol.CriticalSection | index.js:120-132 | at least two effects; the last one is the completion call exactly when a callback was given; that the unlock follows the writes is stated by `ReleaseThenDone` |
| Protocol.CriticalSectionOutcome | index.js:120-132 | the data file either holds the new document, with the temp file gone, or is unchanged; the marker goes unless deletion fails; no other path changes |
| Protocol.ReleaseThenDone | index.js:130-131 | the unlock always comes after the writes, and the completion callback, when given, runs last, right after it |
| Protocol.WriteCycle | index.js:118-133 | before a file is chosen, no effect and no change to the disk; after, the first effect is attempt 0, taken or refused |
| Protocol.WriteCycleBranches | index.js:118-133 | a cycle that cannot lock records only its attempts and leaves the disk alone; one that locks records its attempts and then the locked section, run on the disk with the marker added |
| Protocol.WriteCycleOutcome | index.js:118-133 | nothing happens before a file is chosen; a cycle that cannot lock changes nothing; the data file holds the document exactly when the rename happened |
| Protocol.FaultFreeCycle | index.js:118-133 | with a free lock and no failures, one cycle is: lock at attempt 0, temp written, renamed, unlocked |
| Stower.Stow.constructor | index.js:8-14 | an empty store, no file, no timer, logging off |
| Stower.Stow.Persist | index.js:21-42 | sets the four paths from the name or the default; a document that parses becomes the store; otherwise the store is empty, an unreadable file moves to the backup path, no file is created; a failed move raises and changes neither store nor disk |
| Stower.Stow.Load | index.js:33-41 | a document that parses becomes the store; otherwise the store is empty, and an existing file is moved to the backup path; when that move fails it raises and neither store nor disk changes |
| Stower.Stow.Lock | index.js:82-98 | the effects are the attempts `Protocol.Attempts` describes; the marker is on disk exactly when the lock was taken |
| Stower.Stow.Unlock | index.js:104-111 | the disk and effect are those of `Protocol.Release` |
| Stower.Stow.Locked | index.js:120-132 | the disk and effects are those of `Protocol.CriticalSection` |
| Stower.Stow.Stage | index.js:121-128 | the disk and effects are those of `Protocol.Staged`: the temp file is written, then renamed over the data file, and a failure of either step is only logged |
| Stower.Stow.Write | index.js:118-133 | the disk and effects are those of `Protocol.WriteCycle` for the current store |
| Stower.Stow.Save | index.js:139-142 | afterwards exactly one write is pending, however many saves there were |
| Stower.Stow.Tick | index.js:141 | when the timer was armed, it is disarmed and one write cycle runs; otherwise nothing happens |
| Stower.Stow.Flush | index.js:148-151 | any pending write is dropped and one write cycle runs at once |
| Stower.Stow.Set | index.js:159-163 | a falsy name or value changes nothing and schedules nothing; otherwise every name with the same key reads back the value and exists, other keys read as before, and a save is pending |
| Stower.Stow.Get | index.js:170-172 | the value stored under the key when it is truthy, and null otherwise |
| Stower.Stow.Remove | index.js:179-182 | the key is gone, for every name with that key; other keys read as before; a save is pending even when the key was absent |
| Stower.Stow.Exists | index.js:190-195 | false for a missing or falsy value; true with no truthy value to match; otherwise deep equality of the stored and given values |
| Stower.Stow.ExistsFindsStored | index.js:190-195 | a well-formed value that `get` returns is found by `exists` with that same value as the expected one, under every name with that key |
| Stower.Stow.Keys | index.js:214-216 | each stored key exactly once |
| Stower.Stow.Values | index.js:201-208 | as many values as keys, the `i`-th value being the one stored under the `i`-th key |
| Stower.Stow.Clear | index.js:222-225 | the store is empty, every name reads as null, and a save is pending |
| Stower.Stow.SetDebug | index.js:278-280 | logging is on exactly when the value given is `true` |
| Stower.Step | index.js:159-163 | one `set` call on the store: a valid store stays valid; `StepStores` and `StepKeeps` say what it holds |
| Stower.StepStores | index.js:160-161 | a `set` with a truthy name and value stores the value under the name's key |
| Stower.StepKeeps | index.js:160-161 | a `set` with a falsy argument, or naming another key, leaves a key present or absent as before, with the same value |
| Stower.SetOne | index.js:159-163 | `Stow.Set` stated through `Step`: the store becomes `Step` of the old one, and a write is armed exactly when one was or the call took effect |
| Stower.Applied | index.js:159-163 | a run of `set` calls leaves a valid store; `AppliedLastWins` and `AppliedUntouched` say what it holds |
| Stower.AppliedLastWins | index.js:159-163 | after a run of `set` calls, a key that an effective call named holds the value of the last such call |
| Stower.AppliedUntouched | index.js:159-163 | after a run of `set` calls, a key that no effective call named is present exactly when it was before, with the same value |
| Stower.SetAll | index.js:159-163 | after a run of `set` calls a write is pending exactly when one was before or some call had a truthy name and value, and the store is unchanged unless one is pending; the store is `Applied` to the calls |
| Stower.CoalescedSaves | index.js:139-142 | any number of `set` calls followed by two timer expiries produce exactly one fault-free write cycle, serialising the store `Applied` to the calls, when some call took effect or a write was pending; otherwise nothing is written; the paths and the logging flag do not change |
| Stower.LookupAsWritten | index.js:191 | on a parsed store a missing key reads an inherited `Object.prototype` member when it has such a name |
| Stower.GetAsWritten | index.js:170-172 | the lookup as written returns null or something truthy; on a store that inherits nothing, it finds a value exactly when a truthy one is stored under the key |
| Stower.ExistsAsWritten | index.js:190-195 | `exists` as written holds only when the lookup finds something truthy, and, on a store that inherits nothing, only when the key is stored |
| Stower.InheritedOnEmpty | index.js:170-172 | on a parsed store without own keys, a name whose key is an inherited member reads that member and exists, `__proto__` also matching an empty object; without the prototype it does not exist |
| Stower.ParsedStoreReportsInheritedNames | index.js:191-194 | after loading `{}`, the store has no keys, yet `exists('constructor')` holds, `get('constructor')` returns a function, and `exists('__proto__', {})` holds |
| Stower.ExistsAgreesWithoutPrototype | index.js:190-195 | on a store that inherits nothing, `exists` as written and `Stow.Exists` agree |

## Left out

- File-system calls are not modelled as I/O. They are reads and updates of
  the `disk` map, and whether each one fails is an input.
- `JSON.parse` and `JSON.stringify` are parameters. Parsing either fails or
  yields the members of a top-level object.
- Stower.Stow.Load: folds every document whose top level is not an object
  into the failure case, so it moves such a file to the backup path and
  starts empty. In index.js a top-level number, string, boolean or array
  (`5`, `"x"`, `[]`) parses, becomes `_store` as it is, and no backup is
  made. Only `null` reaches the `catch` block, because `Object.keys(null)`
  throws at line 35, and by then line 34 has set `_store` to `null`. When
  the rename to the backup path (line 38) then fails, `persist` raises with
  `_store` still `null`, so every later `get`, `set` or `exists` throws;
  the model keeps the previous store in that case.
- Stower.Stow.Load: the `parse` parameter may return nested objects that
  repeat a member name, which `JSON.parse` never builds (the last duplicate
  wins there). The class invariant does not exclude such values, so
  properties that need well-formed values, such as
  `Stower.Stow.ExistsFindsStored`, ask for it in their precondition.
- Timers, the one-second debounce and the random 100-200 ms back-off between
  lock attempts are left out. Only the attempt numbers and the pending flag
  remain.
- `getCachePath` (index.js:244-251) reads the environment and creates a
  directory; its result is the `defaultPath` parameter of `Persist`. Its
  `mkdirSync` raises when the parent directory is missing, so `persist()`
  with no filename can raise in index.js; the model has no such outcome.
- The process hooks (index.js:253-257), `log`, console output and the
  `filename` getter are left out. The getter is the field `file`.
- Concurrency is left out: other processes appear only as a marker already
  on disk or as refused attempts.
- Numbers are integers only; there is no floating point.
- KeyNormalization.Key: handles string arguments only. `String(str || '')`
  of a non-string is not modelled, and `toLowerCase` is modelled for ASCII
  and Latin-1 capitals only.
- KeyNormalization.LowerChar and KeyNormalization.ToLower: `toLowerCase`
  is modelled for ASCII and Latin-1 capitals only; other scripts' capitals
  (Greek, Cyrillic, and the rest) and the multi-character lower-case forms
  are left as they are.
- Paths.Derive: `path.resolve` joins a relative name onto the working
  directory without normalising `.` or `..` segments, and does not collapse
  repeated separators in an absolute name or in the working directory
  (`"//x.json"` stays as it is); `path.extname` is modelled for POSIX paths
  without a trailing separator.
- Dictionary.Insert: lists a new key last. JavaScript lists keys that look
  like array indices first, in numeric order. This affects the order of
  `keys()` and `values()`, which still agree with each other, and the member
  order of the document `JSON.stringify` writes (line 122).
- Json.Identical: two arrays or objects are never `===`, because the model
  has no references. `deepEqual` then compares them structurally instead,
  and that comparison is reflexive on well-formed values
  (`DeepEquality.DeepEqualReflexive`), which every JavaScript value is, so
  shared objects at any depth get the same answers.
  `Stower.Stow.ExistsFindsStored` applies this to a stored value.
- Stower.Stow.Set, Stower.Stow.Get and Stower.Stow.Values: values are
  immutable. In index.js `set` (line 161) stores the caller's object itself,
  and `get` (line 171) and `values` (line 205) hand that object back, so a
  later change to it changes the store, and what the next write serialises,
  without any `save`. The model does not capture this aliasing.
- Stower.Stow.Write and Stower.Stow.Lock: a write cycle is one atomic step.
  In index.js the retries run from `setTimeout` (lines 94-96). Between
  attempts, `set`, `remove`, `clear`, `persist`, another timer or `flush`
  can run, and a second cycle can overlap the first. The store is
  serialised, and `_TEMP` and `_FILE` are read, only once the lock is taken
  (lines 122-124). The model makes all attempts at once and serialises the
  store as it was when the cycle started.
- Stower.Stow.Set: on a store loaded from a document, `set('__proto__', v)`
  in index.js never stores a key unless the document had a `__proto__`
  member of its own (`JSON.parse` at line 34 makes that an own property),
  which the assignment at line 161 then overwrites, as in the model.
  Otherwise the assignment replaces the object's prototype when `v` is an
  object, and does nothing at all for any other truthy `v`; the model
  stores it as an ordinary key in both cases.
- Protocol.Staged: a failed write of the temp file leaves the disk as it
  was. In index.js a `writeFileSync` (line 123) that fails part-way may
  leave an empty or truncated temp file behind; the data file is unaffected
  either way, and the next successful write overwrites the temp file.
- Stower.Stow.Lock: a created marker is always closed. In index.js
  `closeSync(fd)` (line 86) runs inside the `try` whose `catch` schedules a
  retry. If closing fails after the create succeeded, the marker stays on
  disk, every later attempt fails on this process's own marker, and the
  cycle is abandoned with the marker left in place. The model has no such
  fault.
- Stower.Stow.Persist: models the store of a parsed document as holding its
  own members only. The inherited members are modelled separately by
  `Stower.LookupAsWritten`; see the findings.

Where the code and its documentation disagree, the model follows the code:

- `lock` makes up to 12 attempts (numbers 0 to 11), not 10 retries.
- `persist` raises when moving an unreadable file to the backup path fails.
  That rename sits unguarded in the `catch` block.
- `exists(name, obj)` with a falsy `obj` reports only whether the stored
  value is truthy.
- `get` returns null for a stored falsy value. Such a value can only come
  from a loaded document.

## Findings

| source | as written | input that shows it | evidently intended | confidence | as-written member | corrected member |
|---|---|---|---|---|---|---|
| index.js:69 | `deepEqual` checks the first value's keys with `hasOwnProperty` on the second, and arrays own `length` | `deepEqual({length: 1}, [5])` is true, `deepEqual([5], {length: 1})` is false | a comparison that ignores argument order and accepts only equal key sets | not executed | DeepEquality.DeepEqualAsymmetric | DeepEquality.ByKeysSymmetric |
| index.js:191-194 | a loaded store is the object `JSON.parse` returned (line 34), which inherits from `Object.prototype`, while `get` (line 171) and `exists` read `_store[key]` | after loading `{}`, `exists('constructor')` is true and `get('constructor')` returns a function | lookups that see only stored keys, as with the `Object.create(null)` store | not executed | Stower.ParsedStoreReportsInheritedNames | Stower.Stow.Exists |
