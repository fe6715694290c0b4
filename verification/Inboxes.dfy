/**
 The vaults on the disk: their creation, what the handlers read from their configuration files, and what
 is left of a vault that has lost its file. `EnvOf` gives the environment that the other modules take as
 fixed.
 */
module Inboxes {
  import opened Prelude
  import opened Text
  import opened Crypto
  import opened Names
  import opened Vaults
  import opened Store
  import opened Config
  import Handlers
  import Multipart
  import Reading
  import Service
  import Sessions

  /** The directories below the vaults directory, each with the text of its configuration file if it has one. */
  type Dirs = map<string, Option<string>>

  /** The libraries: key derivation, how a public key is spelled and parsed, permissions in other spellings. */
  datatype Lib = Lib(kdf: Kdf, spell: Recipient -> string, parse: string -> Option<Recipient>, other: OtherJson)

  /** A spelled key is one clean line, and is parsed back. */
  ghost predicate SpellsKeys(lib: Lib) {
    forall k :: KeyIsClean(lib.spell(k)) && lib.parse(lib.spell(k)) == Some(k)
  }

  /** The vaults directory itself is there under the name of a dot. */
  predicate IsDir(dirs: Dirs, name: string) {
    name in dirs || name == "."
  }

  // ---------- Creating a vault ----------

  datatype CreateError = InvalidName | VaultExists | Failed

  function TextFor(lib: Lib, name: string, key: Recipient, permissions: Permissions): string {
    ConfigText(name, VaultConfig(lib.spell(key), permissions))
  }

  class Root {
    const lib: Lib
    const faulty: bool
    var dirs: Dirs

    constructor (lib: Lib, dirs: Dirs, faulty: bool)
      ensures this.lib == lib && this.dirs == dirs && this.faulty == faulty
    {
      this.lib, this.dirs, this.faulty := lib, dirs, faulty;
    }

    /** create_vault. On a faulty disk the directory may be made and its file not written. */
    method CreateVault(name: string, password: string, permissions: Permissions) returns (r: Result<Recipient, CreateError>)
      modifies this
      ensures r == Err(InvalidName) <==> !IsValidName(name)
      ensures r == Err(VaultExists) <==> IsValidName(name) && (name in old(dirs) || name == ".")
      ensures r == Err(Failed) ==> faulty || !IsTakable(name)
      ensures r.Ok? ==> r.value == Public(DeriveKeys(lib.kdf, password, name)) && IsTakable(name)
      ensures r.Ok? ==> dirs == old(dirs)[name := Some(TextFor(lib, name, r.value, permissions))]
      ensures WellMade(old(dirs), lib) ==> WellMade(dirs, lib)
      ensures r.Err? ==> dirs == old(dirs) || (r.error == Failed && dirs == old(dirs)[name := None])
    {
      if !IsValidName(name) {
        return Err(InvalidName);
      }
      if IsDir(dirs, name) {
        return Err(VaultExists);
      }
      var key := Public(DeriveKeys(lib.kdf, password, name));
      if !IsTakable(name) {
        return Err(Failed);
      }
      if faulty {
        if * {
          return Err(Failed);
        }
      }
      dirs := dirs[name := None];
      if faulty {
        if * {
          return Err(Failed);
        }
      }
      dirs := dirs[name := Some(TextFor(lib, name, key, permissions))];
      return Ok(key);
    }
  }

  // ---------- What the handlers read ----------

  datatype ReadError = Missing | Unusable

  /** read_vault_config_file. */
  function ConfigIn(lib: Lib, file: Option<string>): Result<VaultConfig, ReadError> {
    match file
    case None => Err(Missing)
    case Some(text) =>
      match ConfigOf(Lines(text), lib.other)
      case Err(_) => Err(Unusable)
      case Ok(config) => Ok(config)
  }

  function PolicyIn(lib: Lib, file: Option<string>): Option<Policy> {
    match ConfigIn(lib, file)
    case Err(_) => None
    case Ok(config) =>
      match lib.parse(config.publicKey)
      case None => None
      case Some(key) => Some(Policy(key, config.permissions))
  }

  type Reader = Option<string> -> Option<Policy>

  function ReaderOf(lib: Lib): Reader {
    file => PolicyIn(lib, file)
  }

  function Collect(dirs: Dirs, read: Reader): map<string, Policy> {
    map name | name in dirs && read(dirs[name]).Some? :: read(dirs[name]).value
  }

  /** The vaults that the handlers find. */
  function EnvOf(dirs: Dirs, lib: Lib, json: Multipart.ObjectReader): Env {
    Env(Collect(dirs, ReaderOf(lib)), lib.kdf, json)
  }

  /** One file changes one vault. */
  lemma CollectAfter(dirs: Dirs, read: Reader, name: string, file: Option<string>)
    ensures Collect(dirs[name := file], read) ==
            match read(file)
            case Some(policy) => Collect(dirs, read)[name := policy]
            case None => Collect(dirs, read) - {name}
  {}

  /** After create_vault, for every name, also one that forges lines of the file: the handlers read exactly
      the derived key and the given flags, and every other vault is as it was. */
  lemma CreatedIsRead(dirs: Dirs, lib: Lib, name: string, password: string, permissions: Permissions, json: Multipart.ObjectReader)
    requires SpellsKeys(lib)
    ensures var key := Public(DeriveKeys(lib.kdf, password, name));
            var dirs' := dirs[name := Some(TextFor(lib, name, key, permissions))];
            && ConfigIn(lib, dirs'[name]) == Ok(VaultConfig(lib.spell(key), permissions))
            && EnvOf(dirs', lib, json).vaults == EnvOf(dirs, lib, json).vaults[name := Policy(key, permissions)]
  {
    var key := Public(DeriveKeys(lib.kdf, password, name));
    WrittenIsRead(lib, name, key, permissions);
    CollectAfter(dirs, ReaderOf(lib), name, Some(TextFor(lib, name, key, permissions)));
  }

  lemma WrittenIsRead(lib: Lib, name: string, key: Recipient, permissions: Permissions)
    requires SpellsKeys(lib)
    ensures ConfigIn(lib, Some(TextFor(lib, name, key, permissions))) == Ok(VaultConfig(lib.spell(key), permissions))
    ensures PolicyIn(lib, Some(TextFor(lib, name, key, permissions))) == Some(Policy(key, permissions))
  {
    ConfigRoundTrip(name, VaultConfig(lib.spell(key), permissions), lib.other);
  }

  // ---------- Unlocking ----------

  datatype UnlockError = BadName | NoVault | NoConfig(error: ReadError) | Disabled | WrongPassword

  /** unlock_vault up to its entry in the session table; it compares the spelled keys. */
  function UnlockOutcome(dirs: Dirs, lib: Lib, name: string, password: string): Result<Identity, UnlockError> {
    if !IsValidName(name) then Err(BadName)
    else if !IsDir(dirs, name) then Err(NoVault)
    else
      match ConfigIn(lib, if name in dirs then dirs[name] else None)
      case Err(e) => Err(NoConfig(e))
      case Ok(config) =>
        if !config.permissions.allowLockUnlock then Err(Disabled)
        else
          var identity := DeriveKeys(lib.kdf, password, name);
          if lib.spell(Public(identity)) != config.publicKey then Err(WrongPassword) else Ok(identity)
  }

  /** Why an unlock is refused: the first check that fails decides. */
  lemma UnlockRefusals(dirs: Dirs, lib: Lib, name: string, password: string)
    ensures var outcome, file := UnlockOutcome(dirs, lib, name, password), if name in dirs then dirs[name] else None;
            && (outcome == Err(BadName) <==> !IsValidName(name))
            && (outcome == Err(NoVault) <==> IsValidName(name) && name !in dirs && name != ".")
            && (outcome == Err(NoConfig(Missing)) <==> IsValidName(name) && (name in dirs || name == ".") && file == None)
            && (outcome == Err(NoConfig(Unusable)) <==> IsValidName(name) && file.Some? && ConfigIn(lib, file).Err?)
            && (outcome == Err(Disabled) <==>
                  IsValidName(name) && ConfigIn(lib, file).Ok? && !ConfigIn(lib, file).value.permissions.allowLockUnlock)
            && (outcome.Ok? <==>
                  && IsValidName(name) && ConfigIn(lib, file).Ok? && ConfigIn(lib, file).value.permissions.allowLockUnlock
                  && lib.spell(Public(DeriveKeys(lib.kdf, password, name))) == ConfigIn(lib, file).value.publicKey)
            && (outcome.Ok? ==> outcome.value == DeriveKeys(lib.kdf, password, name))
  {}

  lemma SpellingIsInjective(lib: Lib, key1: Recipient, key2: Recipient)
    requires SpellsKeys(lib)
    ensures lib.spell(key1) == lib.spell(key2) <==> key1 == key2
  {
    assert lib.parse(lib.spell(key1)) == Some(key1) && lib.parse(lib.spell(key2)) == Some(key2);
  }

  /** After create_vault a password unlocks the vault exactly if unlocking is allowed and it derives the same
      keys as the one the vault was created with. */
  lemma UnlockAfterCreateIff(dirs: Dirs, lib: Lib, name: string, password: string, permissions: Permissions, attempt: string)
    requires SpellsKeys(lib) && IsValidName(name)
    ensures var dirs' := dirs[name := Some(TextFor(lib, name, Public(DeriveKeys(lib.kdf, password, name)), permissions))];
            UnlockOutcome(dirs', lib, name, attempt).Ok? <==>
            permissions.allowLockUnlock && DeriveKeys(lib.kdf, attempt, name) == DeriveKeys(lib.kdf, password, name)
  {
    var key := Public(DeriveKeys(lib.kdf, password, name));
    WrittenIsRead(lib, name, key, permissions);
    SpellingIsInjective(lib, Public(DeriveKeys(lib.kdf, attempt, name)), key);
  }

  /** Every configuration file is one that create_vault has written. */
  ghost predicate WellMade(dirs: Dirs, lib: Lib) {
    forall name :: name in dirs && dirs[name].Some? ==>
      exists key, permissions :: dirs[name].value == TextFor(lib, name, key, permissions)
  }

  /** Then unlock_vault does with the files what the session table does with the environment. */
  lemma UnlockFollowsEnv(dirs: Dirs, lib: Lib, name: string, password: string, json: Multipart.ObjectReader)
    requires SpellsKeys(lib) && WellMade(dirs, lib)
    ensures var onDisk, inEnv := UnlockOutcome(dirs, lib, name, password), Sessions.UnlockOutcome(EnvOf(dirs, lib, json), name, password);
            (onDisk.Ok? <==> inEnv.Ok?) && (onDisk.Ok? ==> onDisk.value == inEnv.value)
  {
    if name in dirs && dirs[name].Some? {
      var key, permissions :| dirs[name].value == TextFor(lib, name, key, permissions);
      WrittenIsRead(lib, name, key, permissions);
      FollowsEnv(dirs, lib, name, password, json, dirs[name], key, permissions);
    }
  }

  lemma FollowsEnv(dirs: Dirs, lib: Lib, name: string, password: string, json: Multipart.ObjectReader,
                   file: Option<string>, key: Recipient, permissions: Permissions)
    requires SpellsKeys(lib) && name in dirs && dirs[name] == file
    requires ConfigIn(lib, file) == Ok(VaultConfig(lib.spell(key), permissions))
    requires PolicyIn(lib, file) == Some(Policy(key, permissions))
    ensures var onDisk, inEnv := UnlockOutcome(dirs, lib, name, password), Sessions.UnlockOutcome(EnvOf(dirs, lib, json), name, password);
            (onDisk.Ok? <==> inEnv.Ok?) && (onDisk.Ok? ==> onDisk.value == inEnv.value)
  {
    SpellingIsInjective(lib, Public(DeriveKeys(lib.kdf, password, name)), key);
  }

  // ---------- A vault without its file ----------

  /** A directory whose configuration file was deleted, or never written: it is no vault for any handler that
      reads the file, and only `Closing` of the others is left. */
  lemma WithoutFileIsClosed(dirs: Dirs, lib: Lib, name: string, json: Multipart.ObjectReader)
    ensures EnvOf(dirs[name := None], lib, json) == Handlers.Closing(EnvOf(dirs, lib, json), name)
  {
    CollectAfter(dirs, ReaderOf(lib), name, None);
  }

  /** A delete aimed at the configuration file passes every check of the delete handler. What it leaves is a
      directory in which every handler refuses to work, and which create_vault takes for an existing vault. */
  lemma WithoutConfigNothingWorks(dirs: Dirs, lib: Lib, json: Multipart.ObjectReader, name: string, path: string,
                                  subpath: Option<string>, password: string, table: Sessions.Table,
                                  files: map<Loc, Content>, folders: set<Folder>, locked: bool, now: nat, configPath: string)
    requires IsValidName(name) && name in EnvOf(dirs, lib, json).vaults && configPath == CONFIG_NAME
    requires EnvOf(dirs, lib, json).vaults[name].permissions.allowDelete
    ensures Handlers.DeleteRefusal(EnvOf(dirs, lib, json), files, folders, name, configPath, false) == None
    ensures var dirs' := dirs[name := None];
            var env := EnvOf(dirs', lib, json);
            && Handlers.UploadRefusal(env, name, subpath) == Some(Handlers.VaultNotFound)
            && Handlers.DeleteRefusal(env, files, folders, name, path, locked).Some?
            && Service.ListRefusal(env, table, name, now) == Some(Reading.VaultNotFound)
            && Reading.PathRefusal(env, name, path, Reading.AllowsDownload).Some?
            && Reading.PathRefusal(env, name, path, Reading.AllowsMetadata).Some?
            && Sessions.LockOutcome(env, table, name) == Err(Sessions.VaultNotFound)
            && UnlockOutcome(dirs', lib, name, password) == Err(NoConfig(Missing))
            && name in dirs'
  {
    ConfigIsComponent(configPath);
    WithoutFileIsClosed(dirs, lib, name, json);
    Service.RefusedEverywhere(EnvOf(dirs[name := None], lib, json), name, path, subpath, password, table, files, folders, locked, now);
  }
}
