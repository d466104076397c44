/**
 * The session state machine of src/session.rs. A session names one vault; it is
 * active when it holds both the decrypted vault and the master password. The clock
 * is a parameter `now`, and the vaults directory is the store the methods are given.
 */
module Sessions {
  import opened Wrappers
  import opened Errors
  import opened Crypto
  import opened VaultEntry
  import opened VaultFile

  /** The inactivity timeout a new session starts with, in seconds. */
  const DefaultTimeout: nat := 300

  class Session {
    var vaultName: string
    var openedVault: Option<Vault>
    var masterPassword: Option<string>
    var lastActivity: nat
    var wishedTimeout: nat

    /** Active: both the vault and the password are held. */
    predicate Active()
      reads this
    {
      openedVault.Some? && masterPassword.Some?
    }

    /** `Session::new`: an inactive session for the named vault. */
    constructor (vaultName: string, now: nat)
      ensures this.vaultName == vaultName
      ensures openedVault == None && masterPassword == None
      ensures lastActivity == now && wishedTimeout == DefaultTimeout
    {
      this.vaultName := vaultName;
      openedVault := None;
      masterPassword := None;
      lastActivity := now;
      wishedTimeout := DefaultTimeout;
    }

    /** `update_activity`: restamp the last activity. */
    method UpdateActivity(now: nat)
      modifies this
      ensures lastActivity == now
      ensures vaultName == old(vaultName) && openedVault == old(openedVault)
      ensures masterPassword == old(masterPassword) && wishedTimeout == old(wishedTimeout)
    {
      lastActivity := now;
    }

    /** The time since the last activity; `Instant::elapsed` never goes below zero. */
    function Elapsed(now: nat): nat
      reads this
    {
      if now >= lastActivity then now - lastActivity else 0
    }

    /** `check_timeout`: has at least `timeout` passed since the last activity? */
    function CheckTimeout(now: nat, timeout: nat): (r: bool)
      reads this
      ensures r <==> Elapsed(now) >= timeout
      ensures now >= lastActivity ==> (r <==> now - lastActivity >= timeout)
      ensures timeout > 0 ==> (r <==> now >= lastActivity + timeout)
      ensures timeout == 0 ==> r
    {
      Elapsed(now) >= timeout
    }

    /** `session_state`: the held vault and a copy of the password, when active. */
    function SessionState(): (r: Result<(Vault, string), SessionError>)
      reads this
      ensures r.Err? <==> !Active()
      ensures r.Err? ==> r.error == SessionInactive
      ensures r.Ok? ==> Some(r.value.0) == openedVault && Some(r.value.1) == masterPassword
    {
      if openedVault.None? || masterPassword.None? then Err(SessionInactive)
      else Ok((openedVault.value, masterPassword.value))
    }

    /**
     * `start_session`: open the named vault with the password. Refused while a vault is
     * held; every open failure is reported as InvalidKey and leaves the session as it was.
     */
    method StartSession(store: Store, master: string, now: nat) returns (r: Result<(), SessionError>)
      modifies this
      ensures vaultName == old(vaultName) && wishedTimeout == old(wishedTimeout)
      ensures old(openedVault).Some? ==>
                r == Err(SessionActive) &&
                openedVault == old(openedVault) && masterPassword == old(masterPassword) && lastActivity == old(lastActivity)
      ensures old(openedVault).None? && OpenSpec(store.files, vaultName, master).Err? ==>
                r == Err(VaultFailure(InvalidKey)) &&
                openedVault == None && masterPassword == old(masterPassword) && lastActivity == old(lastActivity)
      ensures old(openedVault).None? && OpenSpec(store.files, vaultName, master).Ok? ==>
                r == Ok(()) && Active() && masterPassword == Some(master) && lastActivity == now &&
                fresh(openedVault.value) && openedVault.value.Snapshot() == OpenSpec(store.files, vaultName, master).value
    {
      if openedVault.Some? {
        return Err(SessionActive);
      }
      var vault := OpenVault(store, vaultName, master);
      match vault
      case Ok(v) =>
        masterPassword := Some(master);
        openedVault := Some(v);
        lastActivity := now;
        return Ok(());
      case Err(_) =>
        return Err(VaultFailure(InvalidKey));
    }

    /**
     * `end_session`: take the vault and the password out of the session first, then
     * persist the vault under that password. The session ends inactive even when the
     * write fails.
     */
    method EndSession(store: Store) returns (r: Result<(), SessionError>)
      modifies this, store
      ensures vaultName == old(vaultName) && wishedTimeout == old(wishedTimeout) && lastActivity == old(lastActivity)
      ensures store.writable == old(store.writable)
      ensures !old(Active()) ==>
                r == Err(SessionInactive) && store.files == old(store.files) &&
                openedVault == old(openedVault) && masterPassword == old(masterPassword)
      ensures old(Active()) ==> openedVault == None && masterPassword == None
      ensures old(Active()) && !old(store.writable) ==> r == Err(VaultFailure(IoError)) && store.files == old(store.files)
      ensures old(Active()) && old(store.writable) ==>
                r == Ok(()) &&
                var v := old(openedVault.value);
                store.files == old(store.files)[old(v.name) := EncryptVault(old(masterPassword.value), old(v.Snapshot()))]
    {
      if openedVault.None? || masterPassword.None? {
        return Err(SessionInactive);
      }
      var vault := openedVault.value;
      openedVault := None;
      var master := masterPassword.value;
      masterPassword := None;
      var closed := CloseVault(store, vault, master);
      if closed.Err? {
        return Err(VaultFailure(closed.error));
      }
      return Ok(());
    }

    /** `save`: persist the held vault under the held password; the session is not changed. */
    method Save(store: Store) returns (r: Result<(), SessionError>)
      modifies store
      ensures store.writable == old(store.writable)
      ensures !Active() ==> r == Err(SessionInactive) && store.files == old(store.files)
      ensures Active() && !old(store.writable) ==> r == Err(VaultFailure(IoError)) && store.files == old(store.files)
      ensures Active() && old(store.writable) ==>
                r == Ok(()) &&
                store.files == old(store.files)[openedVault.value.name := EncryptVault(masterPassword.value, openedVault.value.Snapshot())]
    {
      var state := SessionState();
      if state.Err? {
        return Err(state.error);
      }
      var (vault, master) := state.value;
      var closed := CloseVault(store, vault, master);
      if closed.Err? {
        return Err(VaultFailure(closed.error));
      }
      return Ok(());
    }

    /** `verify_master_pw`: compare a candidate with the held password. */
    function VerifyMasterPw(key: string): (r: Result<(), SessionError>)
      reads this
      ensures masterPassword.None? ==> r == Err(SessionInactive)
      ensures masterPassword.Some? ==> (r.Ok? <==> key == masterPassword.value)
      ensures masterPassword.Some? && r.Err? ==> r.error == VaultFailure(InvalidKey)
    {
      match masterPassword
      case None => Err(SessionInactive)
      case Some(held) => if held != key then Err(VaultFailure(InvalidKey)) else Ok(())
    }

    /** `change_master_pw`: replace the held password, active or not; it never fails. */
    method ChangeMasterPw(newKey: string) returns (r: Result<(), SessionError>)
      modifies this
      ensures r == Ok(()) && masterPassword == Some(newKey)
      ensures vaultName == old(vaultName) && openedVault == old(openedVault)
      ensures lastActivity == old(lastActivity) && wishedTimeout == old(wishedTimeout)
    {
      masterPassword := Some(newKey);
      return Ok(());
    }
  }

  /** `active_session`: there is a session and it is active. */
  function ActiveSession(handle: Option<Session>): (r: bool)
    reads if handle.Some? then {handle.value} else {}
    ensures r <==> handle.Some? && handle.value.Active()
  {
    if handle.None? then false
    else if handle.value.openedVault.None? || handle.value.masterPassword.None? then false
    else true
  }

  /** `create_new_vault`: initialise an empty vault and close it under the password at once. */
  method CreateNewVault(store: Store, name: string, master: string) returns (r: Result<(), VaultError>)
    modifies store
    ensures store.writable == old(store.writable)
    ensures name in old(store.files) ==> r == Err(FileExists) && store.files == old(store.files)
    ensures name !in old(store.files) && !old(store.writable) ==> r == Err(IoError) && store.files == old(store.files)
    ensures name !in old(store.files) && old(store.writable) ==>
              r == Ok(()) && store.files == old(store.files)[name := EncryptVault(master, VaultData(name, []))]
  {
    var init := InitializeVault(store, name);
    if init.Err? {
      return Err(init.error);
    }
    var vault := init.value;
    assert vault.Snapshot() == VaultData(name, []);
    var closed := CloseVault(store, vault, master);
    if closed.Err? {
      return Err(closed.error);
    }
    return Ok(());
  }

  /**
   * The round trip the integration tests rely on: ending an active session persists its
   * vault, and a new session for the same vault name started with the same password holds
   * that vault again; a session started with any other password is refused. This needs the
   * held vault's name to be the session's vault name, since `end_session` writes the file
   * named inside the vault while `start_session` opens the file the session names.
   */
  method EndThenStart(s: Session, store: Store, other: string, now: nat)
    returns (ended: Result<(), SessionError>, s2: Session, started: Result<(), SessionError>,
             s3: Session, refused: Result<(), SessionError>)
    requires s.Active() && store.writable && s.openedVault.value.name == s.vaultName
    requires other != s.masterPassword.value
    modifies s, store
    ensures ended == Ok(()) && !s.Active()
    ensures fresh(s2) && started == Ok(()) && s2.Active() && s2.vaultName == old(s.vaultName)
    ensures s2.masterPassword == old(s.masterPassword)
    ensures s2.openedVault.value.Snapshot() == old(s.openedVault.value.Snapshot())
    ensures fresh(s3) && refused == Err(VaultFailure(InvalidKey)) && !s3.Active()
  {
    ghost var v := s.openedVault.value.Snapshot();
    var pw := s.masterPassword.value;
    var name := s.vaultName;
    ended := s.EndSession(store);
    assert store.files[name] == EncryptVault(pw, v);
    s2 := new Session(name, now);
    started := s2.StartSession(store, pw, now);
    s3 := new Session(name, now);
    refused := s3.StartSession(store, other, now);
  }

  /**
   * The change-of-master-password scenario of the integration tests: create a vault, start
   * a session, change the password, end the session; a new session then refuses the old
   * password and accepts the new one.
   */
  method ChangeMasterScenario(store: Store, name: string, oldPw: string, newPw: string)
    returns (withOld: Result<(), SessionError>, withNew: Result<(), SessionError>)
    requires store.writable && name !in store.files && oldPw != newPw
    modifies store
    ensures withOld == Err(VaultFailure(InvalidKey)) && withNew == Ok(())
    ensures store.files == old(store.files)[name := EncryptVault(newPw, VaultData(name, []))]
  {
    var created := CreateNewVault(store, name, oldPw);
    var session := new Session(name, 0);
    var started := session.StartSession(store, oldPw, 0);
    var changed := session.ChangeMasterPw(newPw);
    var ended := session.EndSession(store);
    var session2 := new Session(name, 1);
    withOld := session2.StartSession(store, oldPw, 1);
    withNew := session2.StartSession(store, newPw, 1);
  }

  /**
   * The persistence scenario of the integration tests: an entry added to a new vault,
   * saved and closed with the session, is found again by a later session.
   */
  method PersistenceScenario(store: Store, name: string, pw: string, entry: Entry) returns (retrieved: Option<Entry>)
    requires store.writable && name !in store.files
    modifies store
    ensures retrieved == Some(entry)
    ensures store.files == old(store.files)[name := EncryptVault(pw, VaultData(name, [entry]))]
  {
    var created := CreateNewVault(store, name, pw);
    var session := new Session(name, 0);
    var started := session.StartSession(store, pw, 0);
    var vault := session.openedVault.value;
    var added := vault.AddEntry(entry);
    ghost var written := old(store.files)[name := EncryptVault(pw, VaultData(name, [entry]))];
    assert vault.Snapshot() == VaultData(name, [entry]);
    var saved := session.Save(store);
    assert store.files == written;
    var ended := session.EndSession(store);
    assert store.files == written;
    var session2 := new Session(name, 1);
    var restarted := session2.StartSession(store, pw, 1);
    retrieved := session2.openedVault.value.GetEntryByName(entry.entryname);
  }
}
