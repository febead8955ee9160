/** The lock-file protocol and the locked write (`lock`, `unlock`, `write`,
    index.js:82-133), as specifications over an abstract disk. */
module Protocol {
  import opened Paths

  /** The files at the paths this module uses, with their contents. A lock
      marker is present with empty contents. */
  type Disk = map<string, string>

  /** The disk operations of one write cycle, in the order they happen. */
  datatype Effect =
    | LockTaken(attempt: nat)   // `openSync(_LOCK, 'wx')` created the marker
    | LockBusy(attempt: nat)    // the exclusive create failed
    | LockAbandoned             // retries exhausted; the callback never runs
    | TempWritten               // `writeFileSync(_TEMP, json)` succeeded
    | TempWriteFailed
    | Replaced                  // `renameSync(_TEMP, _FILE)` succeeded
    | ReplaceFailed
    | LockReleased              // `unlinkSync(_LOCK)` succeeded
    | ReleaseFailed
    | Done                      // the completion callback ran

  /** `lock` gives up once a failed attempt's number exceeds this. */
  const RetryCeiling: nat := 10

  /** What the environment answers during one write cycle: whether the
      exclusive create of the marker fails at attempt `n` (another process
      holds it, or the call errs), and whether writing the temp file,
      renaming it, and deleting the marker fail. */
  datatype Faults = Faults(contended: nat -> bool, writeFails: bool, renameFails: bool, unlinkFails: bool)

  /** `lock(cb, n)`: the attempts made from attempt number `n` on. An attempt
      fails while a marker is on disk (`held`) or the environment refuses it;
      after a failure the next attempt follows unless the number exceeds the
      ceiling. Success ends the sequence with the one call of `cb`. */
  function Attempts(held: bool, contended: nat -> bool, n: nat): (r: seq<Effect>)
    ensures |r| >= 1
    decreases RetryCeiling + 1 - n
  {
    if !held && !contended(n) then [LockTaken(n)]
    else if n > RetryCeiling then [LockBusy(n), LockAbandoned]
    else [LockBusy(n)] + Attempts(held, contended, n + 1)
  }

  /** Every attempt but the last failed, because a marker was on disk or the
      environment refused it. */
  lemma {:induction false} AttemptsFailBeforeLast(held: bool, contended: nat -> bool, n: nat)
    ensures forall i | 0 <= i < |Attempts(held, contended, n)| - 1 ::
      Attempts(held, contended, n)[i] == LockBusy(n + i) && (held || contended(n + i))
    decreases RetryCeiling + 1 - n
  {
    AttemptsStep(held, contended, n);
    if (held || contended(n)) && n <= RetryCeiling {
      AttemptsFailBeforeLast(held, contended, n + 1);
      RetryFailsFirst(held, contended, n, Attempts(held, contended, n + 1));
    }
  }

  /** A failed attempt `n` put before attempts that failed from `n + 1` on. */
  lemma RetryFailsFirst(held: bool, contended: nat -> bool, n: nat, rest: seq<Effect>)
    requires held || contended(n)
    requires forall i | 0 <= i < |rest| - 1 :: rest[i] == LockBusy(n + 1 + i) && (held || contended(n + 1 + i))
    ensures var r := [LockBusy(n)] + rest;
      forall i | 0 <= i < |r| - 1 :: r[i] == LockBusy(n + i) && (held || contended(n + i))
  {
    var r := [LockBusy(n)] + rest;
    forall i | 0 <= i < |r| - 1
      ensures r[i] == LockBusy(n + i) && (held || contended(n + i))
    {
      if i > 0 {
        AfterFirst(LockBusy(n), rest, i);
        assert n + 1 + (i - 1) == n + i;
      }
    }
  }

  /** Past its first element, `[x] + rest` is `rest` shifted by one. */
  lemma AfterFirst(x: Effect, rest: seq<Effect>, i: nat)
    requires 0 < i <= |rest|
    ensures ([x] + rest)[i] == rest[i - 1]
  {
  }

  /** The last attempt took the lock, when it was free, no later than one past
      the ceiling; or `lock` gave up right after the attempt numbered one past
      the ceiling. */
  lemma {:induction false} AttemptsEnd(held: bool, contended: nat -> bool, n: nat)
    ensures var r := Attempts(held, contended, n);
      var last := r[|r| - 1];
      var bound := if n > RetryCeiling then n else RetryCeiling + 1;
      && (last == LockAbandoned || last == LockTaken(n + |r| - 1))
      && (last.LockTaken? ==> !held && !contended(n + |r| - 1) && n + |r| - 1 <= bound)
      && (last == LockAbandoned ==> n + |r| - 2 == bound)
    decreases RetryCeiling + 1 - n
  {
    var r := Attempts(held, contended, n);
    if !held && !contended(n) {
      assert r == [LockTaken(n)];
    } else if n > RetryCeiling {
      assert r == [LockBusy(n), LockAbandoned];
    } else {
      AttemptsEnd(held, contended, n + 1);
      var rest := Attempts(held, contended, n + 1);
      assert r == [LockBusy(n)] + rest;
      assert r[|r| - 1] == rest[|rest| - 1];
      assert n + |r| - 1 == (n + 1) + |rest| - 1;
    }
  }

  /** One step of `lock`: taken, retried, or abandoned. */
  lemma AttemptsStep(held: bool, contended: nat -> bool, n: nat)
    ensures !held && !contended(n) ==> Attempts(held, contended, n) == [LockTaken(n)]
    ensures (held || contended(n)) && n > RetryCeiling ==> Attempts(held, contended, n) == [LockBusy(n), LockAbandoned]
    ensures (held || contended(n)) && n <= RetryCeiling ==>
      Attempts(held, contended, n) == [LockBusy(n)] + Attempts(held, contended, n + 1)
  {
  }

  /** The attempts ended with the lock held by this process. */
  predicate Acquired(r: seq<Effect>) {
    |r| > 0 && r[|r| - 1].LockTaken?
  }

  lemma AttemptsReplaceNothing(held: bool, contended: nat -> bool, n: nat)
    ensures Replaced !in Attempts(held, contended, n)
  {
    AttemptsFailBeforeLast(held, contended, n);
    AttemptsEnd(held, contended, n);
    var r := Attempts(held, contended, n);
    assert forall i | 0 <= i < |r| :: r[i].LockBusy? || r[i].LockTaken? || r[i].LockAbandoned?;
  }

  /** Failed attempts `n`, `n + 1`, ... up to `m` exclusive. */
  function BusyFrom(n: nat, m: nat): (r: seq<Effect>)
    requires n <= m
    ensures |r| == m - n
    ensures forall i | 0 <= i < |r| :: r[i] == LockBusy(n + i)
    decreases m - n
  {
    if n == m then [] else [LockBusy(n)] + BusyFrom(n + 1, m)
  }

  lemma {:induction false} ContendedFrom(held: bool, contended: nat -> bool, n: nat)
    requires n <= RetryCeiling + 1
    requires held || forall i | n <= i <= RetryCeiling + 1 :: contended(i)
    ensures Attempts(held, contended, n) == BusyFrom(n, RetryCeiling + 2) + [LockAbandoned]
    decreases RetryCeiling + 1 - n
  {
    if n <= RetryCeiling {
      ContendedFrom(held, contended, n + 1);
    }
  }

  /** Under sustained contention, or with a stale marker left on disk, `lock`
      makes attempts 0 to 11, all failing, then stops without calling back. */
  lemma SustainedContention(held: bool, contended: nat -> bool)
    requires held || forall n | 0 <= n <= RetryCeiling + 1 :: contended(n)
    ensures Attempts(held, contended, 0) == BusyFrom(0, RetryCeiling + 2) + [LockAbandoned]
    ensures !Acquired(Attempts(held, contended, 0))
  {
    ContendedFrom(held, contended, 0);
  }

  lemma {:induction false} FreeFrom(contended: nat -> bool, n: nat, m: nat)
    requires n <= m <= RetryCeiling + 1 && !contended(m)
    requires forall i | n <= i < m :: contended(i)
    ensures Attempts(false, contended, n) == BusyFrom(n, m) + [LockTaken(m)]
    decreases m - n
  {
    if n < m {
      FreeFrom(contended, n + 1, m);
    }
  }

  /** Without a marker on disk, the first attempt the environment lets through
      takes the lock, provided it comes before the ceiling is passed. */
  lemma FirstFreeAttemptWins(contended: nat -> bool, m: nat)
    requires m <= RetryCeiling + 1 && !contended(m)
    requires forall n | 0 <= n < m :: contended(n)
    ensures Attempts(false, contended, 0) == BusyFrom(0, m) + [LockTaken(m)]
    ensures Acquired(Attempts(false, contended, 0))
  {
    FreeFrom(contended, 0, m);
  }

  /** `unlink(lock)`: deletes the marker; fails when it is gone or the
      environment refuses, leaving the disk as it was. */
  function Release(disk: Disk, lock: string, unlinkFails: bool): (r: (Disk, Effect))
    ensures r.1 == LockReleased || r.1 == ReleaseFailed
    ensures r.1 == LockReleased <==> lock in disk && !unlinkFails
    ensures r.0 == if r.1 == LockReleased then disk - {lock} else disk
  {
    if lock in disk && !unlinkFails then (disk - {lock}, LockReleased) else (disk, ReleaseFailed)
  }

  /** The paths other than the data, temp and lock files are as before. */
  ghost predicate OthersUnchanged(before: Disk, after: Disk, t: Target) {
    forall p | p != t.file && p != t.temp && p != t.lock ::
      (p in after <==> p in before) && (p in before ==> after[p] == before[p])
  }

  /** The writes inside the lock: the temp file, then the rename over the
      data file, each of which may fail. */
  function Staged(disk: Disk, t: Target, json: string, f: Faults): (r: (Disk, seq<Effect>))
    ensures Replaced in r.1 <==> !f.writeFails && !f.renameFails
  {
    if f.writeFails then (disk, [TempWriteFailed])
    else if f.renameFails then (disk[t.temp := json], [TempWritten, ReplaceFailed])
    else ((disk - {t.temp})[t.file := json], [TempWritten, Replaced])
  }

  /** The callback `write` hands to `lock`: stage the serialised store in the
      temp file, rename it over the data file, release the lock whatever
      happened, then call `done` when one was given. */
  function CriticalSection(disk: Disk, t: Target, json: string, f: Faults, notify: bool): (r: (Disk, seq<Effect>))
    ensures |r.1| >= 2
    ensures (r.1[|r.1| - 1] == Done) == notify
  {
    var staged := Staged(disk, t, json, f);
    var released := Release(staged.0, t.lock, f.unlinkFails);
    (released.0, staged.1 + [released.1] + if notify then [Done] else [])
  }

  /** The data file is replaced whole or not at all; the marker goes unless
      deleting it fails; no other path changes; the release comes after every
      write and directly before the completion call. */
  lemma CriticalSectionOutcome(disk: Disk, t: Target, json: string, f: Faults, notify: bool)
    requires t == SiblingsOf(t.file)
    ensures var r := CriticalSection(disk, t, json, f, notify);
      && (!f.writeFails && !f.renameFails ==> t.file in r.0 && r.0[t.file] == json && t.temp !in r.0)
      && (f.writeFails || f.renameFails ==>
            (t.file in r.0 <==> t.file in disk) && (t.file in disk ==> r.0[t.file] == disk[t.file]))
      && (t.lock in disk ==> (t.lock in r.0 <==> f.unlinkFails))
      && OthersUnchanged(disk, r.0, t)
      && (Replaced in r.1 <==> !f.writeFails && !f.renameFails)
  {
    var staged := Staged(disk, t, json, f);
    var r := CriticalSection(disk, t, json, f, notify);
    assert Replaced !in [Release(staged.0, t.lock, f.unlinkFails).1] + if notify then [Done] else [];
  }

  /** The completion call, when asked for, is the last effect and comes right
      after the release; nothing else releases or completes. */
  lemma ReleaseThenDone(disk: Disk, t: Target, json: string, f: Faults, notify: bool)
    ensures var r := CriticalSection(disk, t, json, f, notify).1;
      var m := |r| - if notify then 1 else 0;
      && 1 <= m <= |r|
      && (r[m - 1] == LockReleased || r[m - 1] == ReleaseFailed)
      && (forall i | 0 <= i < m - 1 :: r[i] != LockReleased && r[i] != ReleaseFailed && r[i] != Done)
      && (notify ==> r[|r| - 1] == Done)
      && (!notify ==> Done !in r)
  {
    var staged := Staged(disk, t, json, f);
    var r := CriticalSection(disk, t, json, f, notify).1;
    var m := |r| - if notify then 1 else 0;
    assert m == |staged.1| + 1;
    assert forall i | 0 <= i < m - 1 :: r[i] == staged.1[i];
  }

  /** `write(done)` for the target `t` and the serialised store `json`: nothing
      before a target is chosen; otherwise the lock attempts, then, when the
      lock was taken, the locked section. */
  function WriteCycle(t: Target, disk: Disk, json: string, f: Faults, notify: bool): (r: (Disk, seq<Effect>))
    ensures t.file == "" ==> r == (disk, [])
    ensures t.file != "" ==> |r.1| >= 1 && (r.1[0] == LockTaken(0) || r.1[0] == LockBusy(0))
  {
    if t.file == "" then (disk, [])
    else
      var attempts := Attempts(t.lock in disk, f.contended, 0);
      if !Acquired(attempts) then (disk, attempts)
      else
        var effects := CriticalSection(disk[t.lock := ""], t, json, f, notify);
        (effects.0, attempts + effects.1)
  }

  /** Once a file is chosen, a write cycle's effects, after any earlier
      trace `before`: only the attempts when the lock is not taken, otherwise
      the attempts and then the critical section run with the marker on
      disk. */
  lemma WriteCycleBranches(t: Target, disk: Disk, json: string, f: Faults, notify: bool, before: seq<Effect>)
    requires t.file != ""
    ensures var attempts := Attempts(t.lock in disk, f.contended, 0);
      var r := WriteCycle(t, disk, json, f, notify);
      !Acquired(attempts) ==> r.0 == disk && before + r.1 == before + attempts
    ensures var attempts := Attempts(t.lock in disk, f.contended, 0);
      var r := WriteCycle(t, disk, json, f, notify);
      var effects := CriticalSection(disk[t.lock := ""], t, json, f, notify);
      Acquired(attempts) ==> r.0 == effects.0 && before + r.1 == before + attempts + effects.1
  {
    var attempts := Attempts(t.lock in disk, f.contended, 0);
    if Acquired(attempts) {
      var effects := CriticalSection(disk[t.lock := ""], t, json, f, notify);
      assert WriteCycle(t, disk, json, f, notify) == (effects.0, attempts + effects.1);
      assert before + (attempts + effects.1) == before + attempts + effects.1;
    } else {
      assert WriteCycle(t, disk, json, f, notify) == (disk, attempts);
    }
  }

  /** Exactly when the rename happened does the data file hold the new
      document; in every other case it is as it was. A cycle that found no
      marker leaves none behind unless deleting it failed, and one that could
      not take the lock changes nothing. */
  lemma WriteCycleOutcome(t: Target, disk: Disk, json: string, f: Faults, notify: bool)
    requires t.file != "" ==> t == SiblingsOf(t.file)
    ensures var r := WriteCycle(t, disk, json, f, notify);
      && (t.file == "" ==> r == (disk, []))
      && (t.file != "" && !Acquired(Attempts(t.lock in disk, f.contended, 0)) ==> r.0 == disk)
      && (Replaced in r.1 ==> t.file in r.0 && r.0[t.file] == json)
      && (Replaced !in r.1 ==> (t.file in r.0 <==> t.file in disk) && (t.file in disk ==> r.0[t.file] == disk[t.file]))
      && (t.file != "" && t.lock !in disk && !f.unlinkFails ==> t.lock !in r.0)
      && OthersUnchanged(disk, r.0, t)
  {
    if t.file != "" {
      var attempts := Attempts(t.lock in disk, f.contended, 0);
      AttemptsReplaceNothing(t.lock in disk, f.contended, 0);
      if Acquired(attempts) {
        var locked := disk[t.lock := ""];
        CriticalSectionOutcome(locked, t, json, f, notify);
        var effects := CriticalSection(locked, t, json, f, notify);
        assert WriteCycle(t, disk, json, f, notify) == (effects.0, attempts + effects.1);
        assert Replaced in attempts + effects.1 <==> Replaced in effects.1;
      } else {
        assert WriteCycle(t, disk, json, f, notify) == (disk, attempts);
      }
    }
  }

  /** Faults that never happen. */
  function NoFaults(): (f: Faults)
    ensures !f.writeFails && !f.renameFails && !f.unlinkFails
    ensures forall n: nat :: !f.contended(n)
  {
    Faults(n => false, false, false, false)
  }

  /** With no marker on disk and nothing failing, one cycle takes the lock at
      the first attempt, replaces the data file by the document, removes the
      temp file and the marker, and touches nothing else. */
  lemma FaultFreeCycle(t: Target, disk: Disk, json: string)
    requires t.file != "" && t == SiblingsOf(t.file) && t.lock !in disk
    ensures WriteCycle(t, disk, json, NoFaults(), false)
      == ((disk - {t.temp})[t.file := json], [LockTaken(0), TempWritten, Replaced, LockReleased])
  {
    var f := NoFaults();
    assert !f.contended(0);
    AttemptsStep(false, f.contended, 0);
    assert Attempts(t.lock in disk, f.contended, 0) == [LockTaken(0)];
    var locked := disk[t.lock := ""];
    var staged := Staged(locked, t, json, f);
    assert staged == ((locked - {t.temp})[t.file := json], [TempWritten, Replaced]);
    assert t.lock in staged.0;
    assert Release(staged.0, t.lock, false) == (staged.0 - {t.lock}, LockReleased);
    assert staged.0 - {t.lock} == (disk - {t.temp})[t.file := json];
    assert [TempWritten, Replaced] + [LockReleased] + [] == [TempWritten, Replaced, LockReleased];
    assert [LockTaken(0)] + [TempWritten, Replaced, LockReleased] == [LockTaken(0), TempWritten, Replaced, LockReleased];
    assert CriticalSection(locked, t, json, f, false) == ((disk - {t.temp})[t.file := json], [TempWritten, Replaced, LockReleased]);
  }
}
