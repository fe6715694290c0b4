/**
 The table of unlocked vaults. Entries expire lazily: they are dropped only when a handler happens to
 look at them. The theorems compare this with the history of calls, which knows nothing of eviction.
 */
module Sessions {
  import opened Prelude
  import opened Crypto
  import opened Names
  import opened Vaults

  /** One hour, in nanoseconds of a monotone clock. */
  const LIFETIME := 3_600_000_000_000

  datatype Session = Session(identity: Identity, expiresAt: nat)

  type Table = map<string, Session>

  datatype SessionError = InvalidName | VaultNotFound | PermissionDenied | InvalidPassword | NotUnlocked

  datatype AuthError = Locked | Expired

  // ---------- What each handler does to the table ----------

  function UnlockOutcome(env: Env, name: string, password: string): Result<Identity, SessionError> {
    if !IsValidName(name) then Err(InvalidName)
    else if name !in env.vaults then Err(VaultNotFound)
    else if !env.vaults[name].permissions.allowLockUnlock then Err(PermissionDenied)
    else
      var identity := DeriveKeys(env.kdf, password, name);
      if Public(identity) != env.vaults[name].recipient then Err(InvalidPassword) else Ok(identity)
  }

  function LockOutcome(env: Env, table: Table, name: string): Result<(), SessionError> {
    if !IsValidName(name) then Err(InvalidName)
    else if name !in env.vaults then Err(VaultNotFound)
    else if !env.vaults[name].permissions.allowLockUnlock then Err(PermissionDenied)
    else if name in table then Ok(()) else Err(NotUnlocked)
  }

  /** The check of list, download and metadata at time `now`. */
  function Check(table: Table, name: string, now: nat): Result<Identity, AuthError> {
    if name !in table then Err(Locked)
    else if now > table[name].expiresAt then Err(Expired)
    else Ok(table[name].identity)
  }

  /** The calls that may change the table: unlock, lock, the checks that drop an expired entry
      (download, metadata, get_unlocked_identity), and the loss of all sessions with the process. */
  datatype Call = Unlock(name: string, password: string) | Lock(name: string) | EvictingCheck(name: string) | Restart

  datatype Timed = At(now: nat, call: Call)

  function Apply(env: Env, table: Table, c: Timed): Table {
    match c.call
    case Unlock(name, password) =>
      (match UnlockOutcome(env, name, password)
       case Ok(identity) => table[name := Session(identity, c.now + LIFETIME)]
       case Err(_) => table)
    case Lock(name) => if LockOutcome(env, table, name).Ok? then table - {name} else table
    case EvictingCheck(name) => if Check(table, name, c.now) == Err(Expired) then table - {name} else table
    case Restart => map[]
  }

  function Run(env: Env, calls: seq<Timed>): Table {
    if calls == [] then map[] else Apply(env, Run(env, calls[..|calls| - 1]), calls[|calls| - 1])
  }

  /** The handlers on the shared table; each critical section is one step of Apply. */
  class SessionTable {
    var table: Table

    constructor ()
      ensures table == map[]
    {
      table := map[];
    }

    /** unlock with unlock_vault. */
    method Unlock(env: Env, name: string, password: string, now: nat) returns (r: Result<(), SessionError>)
      modifies this
      ensures table == Apply(env, old(table), At(now, Call.Unlock(name, password)))
      ensures var identity := DeriveKeys(env.kdf, password, name);
              && (r.Ok? <==> MayUnlock(env, name) && Public(identity) == env.vaults[name].recipient)
              && table == if r.Ok? then old(table)[name := Session(identity, now + LIFETIME)] else old(table)
      ensures r.Ok? <==> UnlockOutcome(env, name, password).Ok?
      ensures r.Err? ==> r.error == UnlockOutcome(env, name, password).error
    {
      if !IsValidName(name) {
        return Err(InvalidName);
      }
      if name !in env.vaults {
        return Err(VaultNotFound);
      }
      if !env.vaults[name].permissions.allowLockUnlock {
        return Err(PermissionDenied);
      }
      var identity := DeriveKeys(env.kdf, password, name);
      if Public(identity) != env.vaults[name].recipient {
        return Err(InvalidPassword);
      }
      table := table[name := Session(identity, now + LIFETIME)];
      return Ok(());
    }

    /** lock with lock_vault. */
    method Lock(env: Env, name: string, now: nat) returns (r: Result<(), SessionError>)
      modifies this
      ensures table == Apply(env, old(table), At(now, Call.Lock(name)))
      ensures r == LockOutcome(env, old(table), name)
      ensures r.Ok? <==> MayUnlock(env, name) && name in old(table)
      ensures table == if MayUnlock(env, name) then old(table) - {name} else old(table)
    {
      if !IsValidName(name) {
        return Err(InvalidName);
      }
      if name !in env.vaults {
        return Err(VaultNotFound);
      }
      if !env.vaults[name].permissions.allowLockUnlock {
        return Err(PermissionDenied);
      }
      var wasUnlocked := name in table;
      table := table - {name};
      return if wasUnlocked then Ok(()) else Err(NotUnlocked);
    }

    /** The check of download_file, download_metadata and get_unlocked_identity. */
    method CheckAndEvict(env: Env, name: string, now: nat) returns (r: Result<Identity, AuthError>)
      modifies this
      ensures table == Apply(env, old(table), At(now, EvictingCheck(name)))
      ensures r == Check(old(table), name, now)
      ensures r.Ok? <==> name in old(table) && now <= old(table)[name].expiresAt
      ensures r.Ok? ==> r.value == old(table)[name].identity && table == old(table)
      ensures r.Err? ==> table == old(table) - {name}
    {
      if name in table {
        if now > table[name].expiresAt {
          table := table - {name};
          return Err(Expired);
        }
        return Ok(table[name].identity);
      }
      return Err(Locked);
    }
  }

  // ---------- The history of calls ----------

  /** The vault is there, and locking and unlocking are allowed. */
  predicate MayUnlock(env: Env, name: string) {
    IsValidName(name) && name in env.vaults && env.vaults[name].permissions.allowLockUnlock
  }

  /** An unlock with a password of the vault. */
  predicate Unlocks(env: Env, c: Timed, name: string) {
    && c.call.Unlock? && c.call.name == name && MayUnlock(env, name)
    && Public(DeriveKeys(env.kdf, c.call.password, name)) == env.vaults[name].recipient
  }

  /** Call `i` ends what was before: a lock that is allowed, or the end of the process. */
  predicate Closes(env: Env, calls: seq<Timed>, i: nat, name: string)
    requires i < |calls|
  {
    calls[i].call == Restart || (calls[i].call == Lock(name) && MayUnlock(env, name))
  }

  /** Call `i` is the latest successful unlock of the vault and nothing has closed it since. */
  ghost predicate OpenSince(env: Env, calls: seq<Timed>, name: string, i: int) {
    && 0 <= i < |calls| && Unlocks(env, calls[i], name)
    && forall j :: i < j < |calls| ==> !Unlocks(env, calls[j], name) && !Closes(env, calls, j, name)
  }

  /** No later check met the entry of unlock `i` after its hour. */
  ghost predicate NotEvicted(calls: seq<Timed>, name: string, i: int)
    requires 0 <= i < |calls|
  {
    forall j :: i < j < |calls| && calls[j].call == EvictingCheck(name) ==> calls[j].now <= calls[i].now + LIFETIME
  }

  ghost predicate Monotone(calls: seq<Timed>) {
    forall i, j :: 0 <= i < j < |calls| ==> calls[i].now <= calls[j].now
  }

  lemma OpenStep(env: Env, calls: seq<Timed>, name: string, i: nat)
    requires calls != [] && i < |calls| - 1
    ensures OpenSince(env, calls, name, i) <==>
            OpenSince(env, calls[..|calls| - 1], name, i)
            && !Unlocks(env, calls[|calls| - 1], name) && !Closes(env, calls, |calls| - 1, name)
  {
    var n := |calls| - 1;
    var init := calls[..n];
    assert forall j :: 0 <= j < n ==> Closes(env, init, j, name) == Closes(env, calls, j, name) && init[j] == calls[j];
    if OpenSince(env, init, name, i) && !Unlocks(env, calls[n], name) && !Closes(env, calls, n, name) {
      forall j | i < j < |calls| ensures !Unlocks(env, calls[j], name) && !Closes(env, calls, j, name) {
        assert j < n ==> Closes(env, init, j, name) == Closes(env, calls, j, name) && init[j] == calls[j];
      }
    }
  }

  lemma EvictStep(calls: seq<Timed>, name: string, i: nat)
    requires calls != [] && i < |calls| - 1
    ensures NotEvicted(calls, name, i) <==>
            NotEvicted(calls[..|calls| - 1], name, i)
            && (calls[|calls| - 1].call == EvictingCheck(name) ==> calls[|calls| - 1].now <= calls[i].now + LIFETIME)
  {
    var n := |calls| - 1;
    assert forall j :: 0 <= j < n ==> calls[..n][j] == calls[j];
  }

  lemma OpenIsUnique(env: Env, calls: seq<Timed>, name: string, i: int, k: int)
    requires OpenSince(env, calls, name, i) && OpenSince(env, calls, name, k)
    ensures i == k
  {}

  function EntryOf(env: Env, c: Timed, name: string): Session
    requires Unlocks(env, c, name)
  {
    Session(DeriveKeys(env.kdf, c.call.password, name), c.now + LIFETIME)
  }

  /** The table holds for `name` what the history says. */
  ghost predicate Accounted(env: Env, calls: seq<Timed>, name: string) {
    && (name in Run(env, calls) ==> exists i :: OpenSince(env, calls, name, i) && NotEvicted(calls, name, i))
    && (forall i :: OpenSince(env, calls, name, i) && NotEvicted(calls, name, i) ==>
          name in Run(env, calls) && Run(env, calls)[name] == EntryOf(env, calls[i], name))
  }

  lemma AccountedAfterUnlock(env: Env, calls: seq<Timed>, name: string)
    requires calls != [] && Unlocks(env, calls[|calls| - 1], name)
    ensures Accounted(env, calls, name)
  {
    var n := |calls| - 1;
    assert OpenSince(env, calls, name, n) && NotEvicted(calls, name, n);
    assert Run(env, calls)[name] == EntryOf(env, calls[n], name);
    forall i | OpenSince(env, calls, name, i) ensures i == n {
      OpenIsUnique(env, calls, name, i, n);
    }
  }

  lemma AccountedAfterOther(env: Env, calls: seq<Timed>, name: string)
    requires calls != [] && !Unlocks(env, calls[|calls| - 1], name) && !Closes(env, calls, |calls| - 1, name)
    requires Accounted(env, calls[..|calls| - 1], name)
    ensures Accounted(env, calls, name)
  {
    var n := |calls| - 1;
    var init, last := calls[..n], calls[n];
    var before, after := Run(env, init), Run(env, calls);
    assert after == Apply(env, before, last);
    assert name in before && last.call == EvictingCheck(name) && last.now > before[name].expiresAt ==> name !in after;
    assert !(name in before && last.call == EvictingCheck(name) && last.now > before[name].expiresAt) ==>
             (name in after <==> name in before) && (name in before ==> after[name] == before[name]);
    forall i | OpenSince(env, calls, name, i) && NotEvicted(calls, name, i)
      ensures name in after && after[name] == EntryOf(env, calls[i], name)
    {
      OpenStep(env, calls, name, i);
      EvictStep(calls, name, i);
      assert init[i] == calls[i];
    }
    if name in after {
      var i :| OpenSince(env, init, name, i) && NotEvicted(init, name, i);
      assert before[name] == EntryOf(env, init[i], name);
      OpenStep(env, calls, name, i);
      EvictStep(calls, name, i);
      assert OpenSince(env, calls, name, i) && NotEvicted(calls, name, i);
    }
  }

  lemma {:induction false} AlwaysAccounted(env: Env, calls: seq<Timed>, name: string)
    ensures Accounted(env, calls, name)
  {
    if calls != [] {
      var n := |calls| - 1;
      AlwaysAccounted(env, calls[..n], name);
      if Unlocks(env, calls[n], name) {
        AccountedAfterUnlock(env, calls, name);
      } else if Closes(env, calls, n, name) {
        assert name !in Run(env, calls);
        assert forall i :: OpenSince(env, calls, name, i) ==> i == n;
      } else {
        AccountedAfterOther(env, calls, name);
      }
    }
  }

  /** Over every run, an entry is in the table exactly when an unlock is open and was not evicted; and
      then it is the entry of that unlock. No assumption on the clock is needed for this. */
  lemma PresentIff(env: Env, calls: seq<Timed>, name: string)
    ensures name in Run(env, calls) <==> exists i :: OpenSince(env, calls, name, i) && NotEvicted(calls, name, i)
    ensures forall i :: OpenSince(env, calls, name, i) && name in Run(env, calls) ==>
              Run(env, calls)[name] == EntryOf(env, calls[i], name)
  {
    AlwaysAccounted(env, calls, name);
    forall i, k | OpenSince(env, calls, name, i) && OpenSince(env, calls, name, k) ensures i == k {
      OpenIsUnique(env, calls, name, i, k);
    }
  }

  /**
   Lazy expiry is eager expiry: over every run of a monotone clock, the check passes at time `now`
   exactly when the latest successful unlock has not been closed and is at most one hour old, whichever
   handlers dropped entries in between; and it yields the identity derived by that unlock.
   */
  lemma LazyExpiryIsEager(env: Env, calls: seq<Timed>, name: string, now: nat)
    requires Monotone(calls) && (calls != [] ==> calls[|calls| - 1].now <= now)
    ensures Check(Run(env, calls), name, now).Ok? <==>
            exists i :: OpenSince(env, calls, name, i) && now <= calls[i].now + LIFETIME
    ensures forall i :: OpenSince(env, calls, name, i) && now <= calls[i].now + LIFETIME ==>
              Check(Run(env, calls), name, now) == Ok(DeriveKeys(env.kdf, calls[i].call.password, name))
  {
    PresentIff(env, calls, name);
    forall i | OpenSince(env, calls, name, i) && now <= calls[i].now + LIFETIME
      ensures NotEvicted(calls, name, i)
    {
      assert forall j :: i < j < |calls| ==> calls[j].now <= calls[|calls| - 1].now;
    }
  }

  /** Every session in the table holds an identity that opens what is sealed for its vault. */
  lemma {:induction false} SessionsHoldVaultKeys(env: Env, calls: seq<Timed>, name: string)
    requires name in Run(env, calls)
    ensures name in env.vaults && Public(Run(env, calls)[name].identity) == env.vaults[name].recipient
  {
    PresentIff(env, calls, name);
    var i :| OpenSince(env, calls, name, i) && NotEvicted(calls, name, i);
  }

  /** Why a lock or an unlock is refused: the first check that fails decides. */
  lemma RefusalsInOrder(env: Env, table: Table, name: string, password: string)
    ensures LockOutcome(env, table, name) ==
            match FirstFailing([(IsValidName(name), InvalidName), (name in env.vaults, VaultNotFound),
                                (MayUnlock(env, name), PermissionDenied), (name in table, NotUnlocked)])
            case Some(e) => Err(e)
            case None => Ok(())
    ensures UnlockOutcome(env, name, password) ==
            match FirstFailing([(IsValidName(name), InvalidName), (name in env.vaults, VaultNotFound),
                                (MayUnlock(env, name), PermissionDenied),
                                (Unlocks(env, At(0, Call.Unlock(name, password)), name), InvalidPassword)])
            case Some(e) => Err(e)
            case None => Ok(DeriveKeys(env.kdf, password, name))
  {
    FirstOfFour((IsValidName(name), InvalidName), (name in env.vaults, VaultNotFound),
                (MayUnlock(env, name), PermissionDenied), (name in table, NotUnlocked));
    FirstOfFour((IsValidName(name), InvalidName), (name in env.vaults, VaultNotFound),
                (MayUnlock(env, name), PermissionDenied),
                (Unlocks(env, At(0, Call.Unlock(name, password)), name), InvalidPassword));
  }

  /** A lock locks. In every run that ends with a lock of the vault, where locking is allowed, nothing is
      left of its session, and no check passes at any time. */
  lemma LockLocks(env: Env, calls: seq<Timed>, name: string, now: nat)
    requires calls != [] && calls[|calls| - 1].call == Lock(name) && MayUnlock(env, name)
    ensures name !in Run(env, calls) && Check(Run(env, calls), name, now) == Err(Locked)
  {
    PresentIff(env, calls, name);
    assert Closes(env, calls, |calls| - 1, name);
    assert !Unlocks(env, calls[|calls| - 1], name);
  }

  /** A vault stays locked until the next unlock with a password of it, whatever else is called. */
  lemma {:induction false} LockedUntilUnlocked(env: Env, calls: seq<Timed>, n: nat, name: string)
    requires n <= |calls| && name !in Run(env, calls[..n])
    requires forall j :: n <= j < |calls| ==> !Unlocks(env, calls[j], name)
    ensures name !in Run(env, calls)
    decreases |calls|
  {
    assert calls[..|calls|] == calls;
    if n < |calls| {
      var last := |calls| - 1;
      assert calls[..last][..n] == calls[..n];
      LockedUntilUnlocked(env, calls[..last], n, name);
      assert !Unlocks(env, calls[last], name);
    }
  }

  /** A session lasts an hour, that moment included, and then not a nanosecond longer. */
  lemma HourIsExact(env: Env, name: string, password: string, start: nat)
    requires UnlockOutcome(env, name, password).Ok?
    ensures var table := Run(env, [At(start, Call.Unlock(name, password))]);
            && Check(table, name, start + 60 * 60 * 1_000_000_000).Ok?
            && Check(table, name, start + 60 * 60 * 1_000_000_000 + 1) == Err(Expired)
  {
    var c := At(start, Call.Unlock(name, password));
    assert [c][..0] == [];
    assert Run(env, [c]) == Apply(env, Run(env, []), c);
  }

  /** The check of delete asks only whether an entry is there, so it can pass after the hour. */
  lemma PresenceOutlivesTheHour(env: Env, name: string, password: string)
    requires UnlockOutcome(env, name, password).Ok?
    ensures var calls := [At(0, Call.Unlock(name, password))];
            name in Run(env, calls) && Check(Run(env, calls), name, LIFETIME + 1) == Err(Expired)
  {
    var c := At(0, Call.Unlock(name, password));
    assert [c][..0] == [];
    assert Run(env, [c]) == Apply(env, Run(env, []), c);
  }
}
