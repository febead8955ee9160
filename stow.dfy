/** The module state of index.js (lines 8-14) and the public operations that
    read and change it: `persist`, `set`, `get`, `remove`, `exists`,
    `values`, `keys`, `clear`, `save`, `flush` and the write cycle the timer
    runs. */
module Stower {
  import opened Options
  import opened Seqs
  import opened Json
  import opened KeyNormalization
  import opened DeepEquality
  import opened Dictionary
  import opened Paths
  import opened Protocol

  /** The one instance of module state a process has. */
  class Stow {
    var store: Dict          // `_store`
    var file: string         // `_FILE`; empty until `persist` runs
    var temp: string         // `_TEMP`
    var lockPath: string     // `_LOCK`
    var backup: string       // `_BACKUP`
    var pending: bool        // `_timer` holds a write that has not fired
    var debug: bool          // `_debuggingEnabled`
    var disk: Disk           // the files at the paths this module touches
    ghost var trace: seq<Effect>   // the disk operations of past write cycles

    /** The store lists each key once, and once a target is chosen the three
        sibling paths belong to it. */
    ghost predicate Valid()
      reads this`store, this`file, this`temp, this`lockPath, this`backup
    {
      store.Valid() && (file != "" ==> Target(file, temp, lockPath, backup) == SiblingsOf(file))
    }

    /** The state at load time: an empty store, no target, no timer. */
    constructor (initial: Disk)
      ensures Valid()
      ensures store == Empty() && file == "" && !pending && !debug
      ensures disk == initial && trace == []
    {
      store := Empty();
      file, temp, lockPath, backup := "", "", "", "";
      pending, debug := false, false;
      disk, trace := initial, [];
    }

    /** `persist(filename)`: choose the target, then load it. A document that
        reads and parses becomes the store. Otherwise the store starts empty,
        and a file that is there but unreadable is first moved to the backup
        path; when that rename fails, `persist` raises and the store is left
        as it was. */
    method Persist(filename: string, defaultPath: string, cwd: string,
                   parse: string -> Option<seq<Field>>, readFails: bool, renameFails: bool)
      returns (raised: bool)
      requires Valid()
      modifies this`store, this`file, this`temp, this`lockPath, this`backup, this`disk
      ensures Valid()
      ensures Target(file, temp, lockPath, backup) == Derive(cwd, if filename == "" then defaultPath else filename)
      ensures Loaded(old(store), old(disk), parse, readFails, renameFails, raised)
    {
      var name := if filename == "" then defaultPath else filename;
      var t := Derive(cwd, name);
      file, temp, lockPath, backup := t.file, t.temp, t.lock, t.backup;
      assert Target(file, temp, lockPath, backup) == t;
      raised := Load(parse, readFails, renameFails);
    }

    /** What loading `file` leaves behind, given the store and disk before. */
    ghost predicate Loaded(store0: Dict, disk0: Disk, parse: string -> Option<seq<Field>>,
                           readFails: bool, renameFails: bool, raised: bool)
      reads this`store, this`disk, this`file, this`backup
    {
      var found := file in disk0;
      var parsed := if found && !readFails then parse(disk0[file]) else None;
      && (parsed.Some? ==> !raised && store == FromFields(parsed.value) && disk == disk0)
      && (parsed.None? && !found ==> !raised && store == Empty() && disk == disk0)
      && (parsed.None? && found && !renameFails ==>
            !raised && store == Empty() && disk == (disk0 - {file})[backup := disk0[file]])
      && (parsed.None? && found && renameFails ==> raised && store == store0 && disk == disk0)
    }

    /** The `try`/`catch` of `persist`, for the target already chosen. */
    method Load(parse: string -> Option<seq<Field>>, readFails: bool, renameFails: bool)
      returns (raised: bool)
      requires store.Valid()
      modifies this`store, this`disk
      ensures store.Valid()
      ensures Loaded(old(store), old(disk), parse, readFails, renameFails, raised)
    {
      ghost var store0, disk0 := store, disk;
      var found := file in disk;
      var parsed := if found && !readFails then parse(disk[file]) else None;
      raised := false;
      if parsed.Some? {
        var loaded := FromFields(parsed.value);
        store := loaded;
        assert Loaded(store0, disk0, parse, readFails, renameFails, raised);
      } else {
        if found {
          if renameFails {
            return true;
          }
          var contents := disk[file];
          disk := (disk - {file})[backup := contents];
        }
        store := Empty();
        assert Loaded(store0, disk0, parse, readFails, renameFails, raised);
      }
    }

    /** `lock(cb, start)`: try the exclusive create of the marker until it
        succeeds or the attempt number passes the ceiling; on success the
        marker is on disk. */
    method Lock(contended: nat -> bool, start: nat) returns (acquired: bool)
      modifies this`disk, this`trace
      ensures trace == old(trace) + Attempts(lockPath in old(disk), contended, start)
      ensures acquired == Acquired(Attempts(lockPath in old(disk), contended, start))
      ensures disk == if acquired then old(disk)[lockPath := ""] else old(disk)
    {
      var held := lockPath in disk;
      var attempt := start;
      while true
        invariant start <= attempt <= if start > RetryCeiling then start else RetryCeiling + 1
        invariant disk == old(disk) && held == (lockPath in old(disk))
        invariant trace + Attempts(held, contended, attempt) == old(trace) + Attempts(held, contended, start)
        decreases RetryCeiling + 1 - attempt
      {
        AttemptsStep(held, contended, attempt);
        ghost var before := trace;
        if !held && !contended(attempt) {
          disk := disk[lockPath := ""];
          trace := trace + [LockTaken(attempt)];
          LastOfSum(old(trace), Attempts(held, contended, start), trace);
          return true;
        }
        trace := trace + [LockBusy(attempt)];
        if attempt > RetryCeiling {
          trace := trace + [LockAbandoned];
          assert trace == before + [LockBusy(attempt), LockAbandoned];
          LastOfSum(old(trace), Attempts(held, contended, start), trace);
          return false;
        }
        assert trace + Attempts(held, contended, attempt + 1)
            == before + ([LockBusy(attempt)] + Attempts(held, contended, attempt + 1));
        attempt := attempt + 1;
      }
    }

    /** `unlock()`: delete the marker; a failure is only logged. */
    method Unlock(unlinkFails: bool)
      modifies this`disk, this`trace
      ensures disk == Release(old(disk), lockPath, unlinkFails).0
      ensures trace == old(trace) + [Release(old(disk), lockPath, unlinkFails).1]
    {
      if lockPath in disk && !unlinkFails {
        disk := disk - {lockPath};
        trace := trace + [LockReleased];
      } else {
        trace := trace + [ReleaseFailed];
      }
    }

    /** `write(done)`: under the lock, serialise the store to the temp file
        and rename it over the data file; nothing before `persist`. */
    method Write(f: Faults, stringify: Value -> string, notify: bool)
      requires Valid()
      modifies this`disk, this`trace
      ensures var r := WriteCycle(Target(file, temp, lockPath, backup), old(disk), stringify(ToJson(store)), f, notify);
        disk == r.0 && trace == old(trace) + r.1
    {
      if file == "" {
        return;
      }
      // The cycle is one step, so the store serialised under the lock is
      // the store as it is now.
      var json := stringify(ToJson(store));
      ghost var t, disk0 := Target(file, temp, lockPath, backup), disk;
      WriteCycleBranches(t, disk0, json, f, notify, trace);
      ghost var cycle := WriteCycle(t, disk0, json, f, notify);
      var acquired := Lock(f.contended, 0);
      if acquired {
        ghost var locked := disk;
        assert locked == disk0[t.lock := ""];
        Locked(f, json, notify);
        assert disk == CriticalSection(locked, t, json, f, notify).0 == cycle.0;
      } else {
        assert disk == disk0 == cycle.0;
      }
    }

    /** The callback `write` hands to `lock`: stage `json` in the temp file,
        rename it over the data file, release the lock whatever happened,
        then report completion when asked to. */
    method Locked(f: Faults, json: string, notify: bool)
      requires file != ""
      modifies this`disk, this`trace
      ensures var r := CriticalSection(old(disk), Target(file, temp, lockPath, backup), json, f, notify);
        disk == r.0 && trace == old(trace) + r.1
    {
      ghost var before := trace;
      ghost var staged := Staged(disk, Target(file, temp, lockPath, backup), json, f);
      Stage(f, json);
      ghost var released := Release(staged.0, lockPath, f.unlinkFails);
      Unlock(f.unlinkFails);
      assert trace == before + (staged.1 + [released.1]);
      if notify {
        trace := trace + [Done];
        assert trace == before + (staged.1 + [released.1] + [Done]);
      } else {
        assert staged.1 + [released.1] + [] == staged.1 + [released.1];
      }
    }

    /** The `try` block of that callback: write `json` to the temp file, then
        rename it over the data file; a failure of either is only logged. */
    method Stage(f: Faults, json: string)
      modifies this`disk, this`trace
      ensures var r := Staged(old(disk), Target(file, temp, lockPath, backup), json, f);
        disk == r.0 && trace == old(trace) + r.1
    {
      if f.writeFails {
        trace := trace + [TempWriteFailed];
      } else {
        ghost var before := disk;
        disk := disk[temp := json];
        trace := trace + [TempWritten];
        if f.renameFails {
          trace := trace + [ReplaceFailed];
        } else {
          assert disk - {temp} == before - {temp};
          disk := (disk - {temp})[file := json];
          trace := trace + [Replaced];
        }
      }
    }

    /** `save()`: drop the armed write, if any, and arm one; however many
        saves come before the timer fires, one write is pending. */
    method Save()
      modifies this`pending
      ensures pending
    {
      pending := true;
    }

    /** The armed timer fires and runs `write()`; with no timer armed nothing
        happens. */
    method Tick(f: Faults, stringify: Value -> string)
      requires Valid()
      modifies this`pending, this`disk, this`trace
      ensures Valid() && !pending
      ensures old(pending) ==>
        var r := WriteCycle(Target(file, temp, lockPath, backup), old(disk), stringify(ToJson(store)), f, false);
        disk == r.0 && trace == old(trace) + r.1
      ensures !old(pending) ==> disk == old(disk) && trace == old(trace)
    {
      if pending {
        pending := false;
        Write(f, stringify, false);
      }
    }

    /** `flush()`: drop the armed write and write at once. */
    method Flush(f: Faults, stringify: Value -> string)
      requires Valid()
      modifies this`pending, this`disk, this`trace
      ensures !pending
      ensures var r := WriteCycle(Target(file, temp, lockPath, backup), old(disk), stringify(ToJson(store)), f, false);
        disk == r.0 && trace == old(trace) + r.1
    {
      pending := false;
      Write(f, stringify, false);
    }

    /** `set(name, value)`: a falsy name or value is ignored; otherwise the
        value is stored under the normalised key and a save is scheduled. */
    method Set(name: string, value: Value)
      requires Valid()
      modifies this`store, this`pending
      ensures Valid()
      ensures name == "" || !Truthy(value) ==> store == old(store) && pending == old(pending)
      ensures name != "" && Truthy(value) ==> store == Insert(old(store), Key(name), value) && pending
      ensures name != "" && Truthy(value) ==> forall alias | Key(alias) == Key(name) :: Get(alias) == value && Exists(alias, None)
      ensures forall other | Key(other) != Key(name) :: Get(other) == old(Get(other))
    {
      if name == "" || !Truthy(value) {
        return;
      }
      var k := Key(name);
      var d := Insert(store, k, value);
      ghost var before := store;
      assert d.items == before.items[k := value];
      store := d;
      Save();
      forall other | Key(other) != k
        ensures Get(other) == old(Get(other))
      {
        var j := Key(other);
        assert (j in store.items) == (j in before.items);
        assert j in store.items ==> store.items[j] == before.items[j];
      }
    }

    /** `get(name)`: the value stored under the normalised key, or null when
        there is none or it is falsy. */
    function Get(name: string): (r: Value)
      reads this`store
      ensures r == Null || Truthy(r)
      ensures r != Null ==> Key(name) in store.items && store.items[Key(name)] == r
      ensures Key(name) in store.items && Truthy(store.items[Key(name)]) ==> r == store.items[Key(name)]
    {
      var k := Key(name);
      if k in store.items && Truthy(store.items[k]) then store.items[k] else Null
    }

    /** `remove(name)`: delete the normalised key, present or not, and
        schedule a save. */
    method Remove(name: string)
      requires Valid()
      modifies this`store, this`pending
      ensures Valid()
      ensures store == Delete(old(store), Key(name)) && pending
      ensures forall alias | Key(alias) == Key(name) :: Get(alias) == Null && !Exists(alias, None)
      ensures forall other | Key(other) != Key(name) :: Get(other) == old(Get(other))
    {
      var k := Key(name);
      var d := Delete(store, k);
      ghost var before := store;
      store := d;
      Save();
      forall other | Key(other) != k
        ensures Get(other) == old(Get(other))
      {
        var j := Key(other);
        assert (j in store.items) == (j in before.items);
        assert j in store.items ==> store.items[j] == before.items[j];
      }
    }

    /** `exists(name, obj)`: false when the stored value is missing or falsy;
        true when no (truthy) value to match is given; otherwise whether the
        two are deeply equal. Only the store's own keys are consulted. */
    function Exists(name: string, expected: Option<Value>): (r: bool)
      reads this`store
      ensures r ==> Key(name) in store.items && Truthy(store.items[Key(name)])
      ensures Key(name) in store.items && Truthy(store.items[Key(name)]) && (expected.None? || !Truthy(expected.value)) ==> r
      ensures expected.Some? && Truthy(expected.value) ==>
        (r <==> Key(name) in store.items && Truthy(store.items[Key(name)]) && DeepEqual(store.items[Key(name)], expected.value))
    {
      var k := Key(name);
      if k !in store.items || !Truthy(store.items[k]) then false
      else if expected.None? || !Truthy(expected.value) then true
      else DeepEqual(store.items[k], expected.value)
    }

    /** What `set` stored is found by `exists` with that same object as the
        expected one, under every alias of the name, once the object is well
        formed, as every object a caller can build is. */
    lemma ExistsFindsStored(name: string, value: Value)
      requires Get(name) == value && Truthy(value) && WellFormed(value)
      ensures forall alias | Key(alias) == Key(name) :: Exists(alias, Some(value))
    {
      DeepEqualReflexive(value);
    }

    /** `keys()`: each stored key once, in enumeration order. */
    function Keys(): (r: seq<string>)
      reads this`store, this`file, this`temp, this`lockPath, this`backup
      requires Valid()
      ensures Distinct(r) && |r| == |store.items|
      ensures forall k :: k in r <==> k in store.items
    {
      Size(store);
      store.order
    }

    /** `values()`: the stored values in the order `keys()` lists them. */
    method Values() returns (out: seq<Value>)
      requires Valid()
      ensures |out| == |Keys()|
      ensures forall i | 0 <= i < |out| :: Keys()[i] in store.items && out[i] == store.items[Keys()[i]]
    {
      out := [];
      var keysInStore := store.order;
      for i := 0 to |keysInStore|
        invariant |out| == i
        invariant forall j | 0 <= j < i :: out[j] == store.items[keysInStore[j]]
      {
        out := out + [store.items[keysInStore[i]]];
      }
    }

    /** `clear()`: replace the store by an empty one and schedule a save. */
    method Clear()
      requires Valid()
      modifies this`store, this`pending
      ensures Valid() && store == Empty() && pending
      ensures Keys() == [] && forall name :: Get(name) == Null
    {
      store := Empty();
      Save();
    }

    /** The `debug` setter: logging is on exactly when given `true`. */
    method SetDebug(value: Value)
      modifies this`debug
      ensures debug <==> value == Bool(true)
    {
      debug := value == Bool(true);
    }
  }

  /** The names every object built by `JSON.parse` inherits from
      `Object.prototype`: `__proto__` reads as the prototype object itself,
      each of the others as a function. Every lookup goes through `Key`, which
      lower-cases, so of these only `constructor` and `__proto__` can ever be
      reached; the mixed-case names are listed for completeness. */
  const PrototypeMembers: set<string> :=
    {"__proto__", "__defineGetter__", "__defineSetter__", "__lookupGetter__", "__lookupSetter__",
     "constructor", "hasOwnProperty", "isPrototypeOf", "propertyIsEnumerable",
     "toLocaleString", "toString", "valueOf"}

  /** What `_store[k]` evaluates to. */
  datatype Lookup = Own(value: Value) | Inherited(name: string) | Absent

  /** `_store[k]` as index.js evaluates it. After a successful load the store
      is the object `JSON.parse` returned, which inherits from
      `Object.prototype` (`inherits`); `Object.create(null)` inherits
      nothing. */
  function LookupAsWritten(d: Dict, inherits: bool, k: string): (r: Lookup)
    ensures r.Own? <==> k in d.items
    ensures r.Own? ==> r.value == d.items[k]
    ensures r.Inherited? <==> k !in d.items && inherits && k in PrototypeMembers
  {
    if k in d.items then Own(d.items[k])
    else if inherits && k in PrototypeMembers then Inherited(k)
    else Absent
  }

  /** `!!_store[k]`: functions and the prototype object are truthy. */
  predicate LookupTruthy(r: Lookup) {
    r.Inherited? || (r.Own? && Truthy(r.value))
  }

  /** `get(name)` as written: `_store[key(name)] || null`. */
  function GetAsWritten(d: Dict, inherits: bool, name: string): (r: Lookup)
    ensures r == Absent || LookupTruthy(r)
    ensures !inherits ==> (r.Own? <==> Key(name) in d.items && Truthy(d.items[Key(name)]))
  {
    var r := LookupAsWritten(d, inherits, Key(name));
    if LookupTruthy(r) then r else Absent
  }

  /** `exists(name, obj)` as written. `deepEqual` of the prototype object and
      `obj` finds no enumerable own keys on the prototype, so it agrees with
      an object that has none; a function is not of type 'object' and equals
      nothing but itself. */
  function ExistsAsWritten(d: Dict, inherits: bool, name: string, expected: Option<Value>): (r: bool)
    ensures r ==> LookupTruthy(LookupAsWritten(d, inherits, Key(name)))
    ensures !inherits ==> (r ==> Key(name) in d.items)
  {
    var v := LookupAsWritten(d, inherits, Key(name));
    if !LookupTruthy(v) then false
    else if expected.None? || !Truthy(expected.value) then true
    else match v
      case Own(x) => DeepEqual(x, expected.value)
      case Inherited(n) => n == "__proto__" && DeepEqual(Obj([]), expected.value)
      case Absent => false
  }

  /** After a load of `{}` the store holds no key, yet `exists` reports
      `constructor`, and `__proto__` matches an empty object; the store the
      class keeps, with its own keys only, reports neither. */
  lemma ParsedStoreReportsInheritedNames()
    ensures FromFields([]).items == map[]
    ensures ExistsAsWritten(FromFields([]), true, "constructor", None)
    ensures ExistsAsWritten(FromFields([]), true, "__proto__", Some(Obj([])))
    ensures GetAsWritten(FromFields([]), true, "constructor") == Inherited("constructor")
    ensures !ExistsAsWritten(FromFields([]), false, "constructor", None)
  {
    var d := FromFields([]);
    assert d.items == map[];
    KeyFixed("constructor");
    KeyFixed("__proto__");
    InheritedOnEmpty(d, "constructor");
    InheritedOnEmpty(d, "__proto__");
    assert DeepEqual(Obj([]), Obj([]));
  }

  /** On a parsed store without own keys, a name whose key is inherited reads
      the inherited member and is reported present, while a store that
      inherits nothing reports it absent. */
  lemma InheritedOnEmpty(d: Dict, name: string)
    requires d.items == map[] && Key(name) in PrototypeMembers
    ensures GetAsWritten(d, true, name) == Inherited(Key(name))
    ensures ExistsAsWritten(d, true, name, None)
    ensures Key(name) == "__proto__" ==> ExistsAsWritten(d, true, name, Some(Obj([])))
    ensures !ExistsAsWritten(d, false, name, None)
  {
    assert LookupAsWritten(d, true, Key(name)) == Inherited(Key(name));
    assert DeepEqual(Obj([]), Obj([]));
  }

  /** On a store that inherits nothing, `exists` as written and the class's
      `Exists` agree. */
  lemma ExistsAgreesWithoutPrototype(s: Stow, name: string, expected: Option<Value>)
    ensures s.Exists(name, expected) == ExistsAsWritten(s.store, false, name, expected)
  {
  }

  /** The last element of a sum whose right part is not empty. */
  lemma LastOfSum<T>(a: seq<T>, b: seq<T>, c: seq<T>)
    requires a + b == c && |b| > 0
    ensures c[|c| - 1] == b[|b| - 1]
  {
    assert c[|c| - 1] == (a + b)[|a| + |b| - 1];
  }

  /** A `set` that takes effect: name and value are both truthy. */
  predicate Effective(e: Field) {
    e.name != "" && Truthy(e.value)
  }

  /** The store after one `set` call. */
  function Step(d: Dict, e: Field): (r: Dict)
    requires d.Valid()
    ensures r.Valid()
  {
    if Effective(e) then Insert(d, Key(e.name), e.value) else d
  }

  /** An effective `set` stores its value under its key. */
  lemma StepStores(d: Dict, e: Field, k: string)
    requires d.Valid() && Effective(e) && k == Key(e.name)
    ensures k in Step(d, e).items && Step(d, e).items[k] == e.value
  {
  }

  /** A `set` that is not effective, or names another key, leaves `k` alone. */
  lemma StepKeeps(d: Dict, e: Field, k: string)
    requires d.Valid() && (!Effective(e) || Key(e.name) != k)
    ensures k in Step(d, e).items <==> k in d.items
    ensures k in d.items ==> Step(d, e).items[k] == d.items[k]
  {
  }

  /** The store after `set` has run for each edit in turn: an effective
      edit stores its value under its key, any other leaves the store. */
  function Applied(d: Dict, edits: seq<Field>): (r: Dict)
    requires d.Valid()
    ensures r.Valid()
  {
    if edits == [] then d else Step(Applied(d, edits[..|edits| - 1]), edits[|edits| - 1])
  }

  /** After a run of edits, a key that some effective edit names holds the
      value of the last such edit. */
  lemma {:induction false} AppliedLastWins(d: Dict, edits: seq<Field>, i: nat)
    requires d.Valid() && i < |edits| && Effective(edits[i])
    requires forall j | i < j < |edits| && Effective(edits[j]) :: Key(edits[j].name) != Key(edits[i].name)
    ensures Key(edits[i].name) in Applied(d, edits).items
    ensures Applied(d, edits).items[Key(edits[i].name)] == edits[i].value
  {
    var n := |edits| - 1;
    var init := edits[..n];
    var e := edits[n];
    var k := Key(edits[i].name);
    var before := Applied(d, init);
    assert Applied(d, edits) == Step(before, e);
    if i == n {
      StepStores(before, e, k);
    } else {
      assert k in before.items && before.items[k] == edits[i].value by {
        assert init[i] == edits[i];
        forall j | i < j < |init| && Effective(init[j])
          ensures Key(init[j].name) != k
        {
          assert init[j] == edits[j];
        }
        AppliedLastWins(d, init, i);
      }
      assert !Effective(e) || Key(e.name) != k;
      StepKeeps(before, e, k);
    }
  }

  /** A key that no effective edit names keeps its value, or stays absent. */
  lemma {:induction false} AppliedUntouched(d: Dict, edits: seq<Field>, k: string)
    requires d.Valid()
    requires forall j | 0 <= j < |edits| && Effective(edits[j]) :: Key(edits[j].name) != k
    ensures k in Applied(d, edits).items <==> k in d.items
    ensures k in d.items ==> Applied(d, edits).items[k] == d.items[k]
  {
    if edits != [] {
      var init := edits[..|edits| - 1];
      forall j | 0 <= j < |init| && Effective(init[j])
        ensures Key(init[j].name) != k
      {
        assert init[j] == edits[j];
      }
      AppliedUntouched(d, init, k);
      StepKeeps(Applied(d, init), edits[|edits| - 1], k);
    }
  }

  /** One `set` call, stated through `Step`. */
  method SetOne(s: Stow, e: Field)
    requires s.Valid()
    modifies s`store, s`pending
    ensures s.Valid()
    ensures s.store == Step(old(s.store), e)
    ensures s.pending <==> old(s.pending) || Effective(e)
  {
    s.Set(e.name, e.value);
  }

  /** `set` for each edit in turn: a write is armed exactly when one was
      before or some edit took effect, and the store is `Applied` to the
      edits. */
  method SetAll(s: Stow, edits: seq<Field>)
    requires s.Valid()
    modifies s`store, s`pending
    ensures s.Valid()
    ensures s.pending <==> old(s.pending) || exists e | e in edits :: Effective(e)
    ensures !s.pending ==> s.store == old(s.store)
    ensures s.store == Applied(old(s.store), edits)
  {
    for i := 0 to |edits|
      invariant s.Valid()
      invariant s.pending <==> old(s.pending) || exists e | e in edits[..i] :: Effective(e)
      invariant !s.pending ==> s.store == old(s.store)
      invariant s.store == Applied(old(s.store), edits[..i])
    {
      var e := edits[i];
      assert edits[..i + 1] == edits[..i] + [e];
      assert Applied(old(s.store), edits[..i + 1]) == Step(s.store, e) by {
        assert edits[..i + 1][..i] == edits[..i];
      }
      SetOne(s, e);
      if Effective(e) {
        assert e in edits[..i + 1];
      } else {
        assert forall x | x in edits[..i + 1] && Effective(x) :: x in edits[..i];
      }
    }
    assert edits[..|edits|] == edits;
  }

  /** Any number of `set` calls before the timer fires make one write cycle,
      which serialises the store as the last of them left it; a second
      expiry with nothing armed writes nothing more. With no effective
      `set` and no write armed before, nothing is written. */
  method CoalescedSaves(s: Stow, edits: seq<Field>, stringify: Value -> string)
    requires s.Valid() && s.file != "" && s.lockPath !in s.disk
    modifies s`store, s`pending, s`disk, s`trace
    ensures s.Valid() && !s.pending
    ensures s.store == Applied(old(s.store), edits)
    ensures old(s.pending) || (exists e | e in edits :: Effective(e)) ==>
      && s.trace == old(s.trace) + [LockTaken(0), TempWritten, Replaced, LockReleased]
      && s.disk == (old(s.disk) - {s.temp})[s.file := stringify(ToJson(s.store))]
    ensures !old(s.pending) && (forall e | e in edits :: !Effective(e)) ==>
      s.trace == old(s.trace) && s.disk == old(s.disk) && s.store == old(s.store)
  {
    SetAll(s, edits);
    ghost var t := Target(s.file, s.temp, s.lockPath, s.backup);
    ghost var json := stringify(ToJson(s.store));
    ghost var armed, disk0 := s.pending, s.disk;
    s.Tick(NoFaults(), stringify);
    s.Tick(NoFaults(), stringify);
    if armed {
      FaultFreeCycle(t, disk0, json);
    }
  }
}
