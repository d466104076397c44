/**
 * The vault file store of src/vault_file_manager.rs: the vaults directory, seen as a
 * map from vault name to the encrypted blob in `<name>.psdb`.
 */
module VaultFile {
  import opened Wrappers
  import opened Errors
  import opened Crypto
  import opened Storage
  import opened VaultEntry

  /** The extension every vault file carries. */
  const VaultExtension := "psdb"

  type Store = Disk<VaultData>

  /**
   * `open_vault`: read the file, decrypt it and parse it. A missing file is an I/O
   * error; any decryption or UTF-8 failure is CouldNotDecrypt; bad JSON is a JSON error.
   */
  function OpenSpec(files: map<string, Blob<VaultData>>, name: string, password: string): (r: Result<VaultData, VaultError>)
    ensures name !in files ==> r == Err(IoError)
    ensures r.Ok? ==> name in files && files[name] == EncryptVault(password, r.value)
    ensures name in files && files[name].Sealed? && files[name].password != password ==>
              r == Err(CryptoFailure(CouldNotDecrypt))
  {
    if name !in files then Err(IoError)
    else match DecryptVault(password, files[name])
      case Err(e) => Err(CryptoFailure(e))
      case Ok(Unparsable) => Err(JsonError)
      case Ok(Parsed(v)) => Ok(v)
  }

  /** Opening right after closing with the same password gives the vault back. */
  lemma OpenAfterClose(files: map<string, Blob<VaultData>>, v: VaultData, password: string)
    ensures OpenSpec(files[v.name := EncryptVault(password, v)], v.name, password) == Ok(v)
  {
  }

  /** Opening with a password other than the one of the last close fails. */
  lemma OpenWithOtherPasswordFails(files: map<string, Blob<VaultData>>, v: VaultData, password: string, other: string)
    requires other != password
    ensures OpenSpec(files[v.name := EncryptVault(password, v)], v.name, other) == Err(CryptoFailure(CouldNotDecrypt))
  {
  }

  /** Writing one vault's file does not change what opening another vault gives. */
  lemma OpenOtherUnaffected(files: map<string, Blob<VaultData>>, v: VaultData, password: string, name: string, q: string)
    requires name != v.name
    ensures OpenSpec(files[v.name := EncryptVault(password, v)], name, q) == OpenSpec(files, name, q)
  {
  }

  /** `vault_exists`: whether the vault's file is present. */
  function VaultExists(store: Store, name: string): (r: bool)
    reads store
    ensures !r ==> forall p :: OpenSpec(store.files, name, p) == Err(IoError)
    ensures r ==> name in store.files
  {
    name in store.files
  }

  /** `initialize_vault`: a fresh empty vault, unless a file of that name exists. Writes nothing. */
  method InitializeVault(store: Store, name: string) returns (r: Result<Vault, VaultError>)
    ensures r.Err? <==> VaultExists(store, name)
    ensures r.Err? ==> r.error == FileExists
    ensures r.Ok? ==> fresh(r.value) && r.value.name == name && r.value.entries == []
  {
    if VaultExists(store, name) {
      return Err(FileExists);
    }
    var v := new Vault(name);
    return Ok(v);
  }

  /** `close_vault`: encrypt the vault under the password and overwrite its file. */
  method CloseVault(store: Store, vault: Vault, password: string) returns (r: Result<(), VaultError>)
    modifies store
    ensures store.writable == old(store.writable)
    ensures r.Ok? <==> old(store.writable)
    ensures r.Err? ==> r.error == IoError && store.files == old(store.files)
    ensures r.Ok? ==> store.files == old(store.files)[vault.name := EncryptVault(password, vault.Snapshot())]
  {
    if !store.writable {
      return Err(IoError);
    }
    store.files := store.files[vault.name := EncryptVault(password, vault.Snapshot())];
    return Ok(());
  }

  /** `open_vault`: a fresh in-memory vault holding what the file decrypts to. The store is not changed. */
  method OpenVault(store: Store, name: string, password: string) returns (r: Result<Vault, VaultError>)
    ensures r.Ok? <==> OpenSpec(store.files, name, password).Ok?
    ensures r.Err? ==> r.error == OpenSpec(store.files, name, password).error
    ensures r.Ok? ==> fresh(r.value) && r.value.Snapshot() == OpenSpec(store.files, name, password).value
  {
    match OpenSpec(store.files, name, password)
    case Err(e) =>
      return Err(e);
    case Ok(data) =>
      var v := new Vault(data.name);
      v.entries := data.entries;
      return Ok(v);
  }

  /**
   * `change_master_pw`: reopen with the old password (any failure is InvalidKey) and
   * close under the new one; a failing write is ignored and the call still succeeds.
   * The file written is the one named inside the decrypted vault.
   */
  method ChangeMasterPw(store: Store, name: string, oldPassword: string, newPassword: string) returns (r: Result<(), VaultError>)
    modifies store
    ensures store.writable == old(store.writable)
    ensures OpenSpec(old(store.files), name, oldPassword).Err? ==>
              r == Err(InvalidKey) && store.files == old(store.files)
    ensures OpenSpec(old(store.files), name, oldPassword).Ok? ==>
              var v := OpenSpec(old(store.files), name, oldPassword).value;
              r == Ok(()) &&
              store.files == if old(store.writable) then old(store.files)[v.name := EncryptVault(newPassword, v)]
                             else old(store.files)
  {
    var reopened := OpenVault(store, name, oldPassword);
    if reopened.Err? {
      return Err(InvalidKey);
    }
    var _ := CloseVault(store, reopened.value, newPassword);
    return Ok(());
  }

  /** After a successful change, the new password opens the vault and the old one does not. */
  lemma ChangeMasterPwRekeys(files: map<string, Blob<VaultData>>, name: string, oldPassword: string, newPassword: string)
    requires OpenSpec(files, name, oldPassword).Ok?
    requires OpenSpec(files, name, oldPassword).value.name == name
    requires oldPassword != newPassword
    ensures var v := OpenSpec(files, name, oldPassword).value;
            var after := files[name := EncryptVault(newPassword, v)];
            OpenSpec(after, name, newPassword) == Ok(v) && OpenSpec(after, name, oldPassword).Err?
  {
  }

  /** `delete_vault_file`: remove the vault's file, or report that there is none. */
  method DeleteVaultFile(store: Store, name: string) returns (r: Result<(), VaultError>)
    modifies store
    ensures store.writable == old(store.writable)
    ensures name !in old(store.files) ==> r == Err(VaultDoesNotExist) && store.files == old(store.files)
    ensures name in old(store.files) && !old(store.writable) ==> r == Err(IoError) && store.files == old(store.files)
    ensures name in old(store.files) && old(store.writable) ==> r == Ok(()) && store.files == old(store.files) - {name}
  {
    if name !in store.files {
      return Err(VaultDoesNotExist);
    }
    if !store.writable {
      return Err(IoError);
    }
    store.files := store.files - {name};
    return Ok(());
  }

  /**
   * One item of a directory listing, in the order `read_dir` yields them: an item that
   * could not be read, or a file with its stem and extension (None when absent or not UTF-8).
   */
  datatype DirItem = Unreadable | File(stem: Option<string>, ext: Option<string>)

  /** A listed file that names a vault: extension `psdb` and a readable stem. */
  predicate IsVaultFile(item: DirItem)
  {
    item.File? && item.ext == Some(VaultExtension) && item.stem.Some?
  }

  /** The stems of the vault files of a listing, in listing order. */
  function VaultStems(listing: seq<DirItem>): (r: seq<string>)
    ensures |r| <= |listing|
  {
    if listing == [] then []
    else
      var last := listing[|listing| - 1];
      VaultStems(listing[..|listing| - 1]) + (if IsVaultFile(last) then [last.stem.value] else [])
  }

  /** A name is listed iff some vault file of the listing has it as its stem. */
  lemma {:induction false} VaultStemsSound(listing: seq<DirItem>, name: string)
    ensures name in VaultStems(listing) <==>
            exists i :: 0 <= i < |listing| && IsVaultFile(listing[i]) && listing[i].stem.value == name
  {
    if listing != [] {
      var init := listing[..|listing| - 1];
      VaultStemsSound(init, name);
      assert forall i :: 0 <= i < |init| ==> init[i] == listing[i];
    }
  }

  /**
   * `list_vaults`: the stems of the vault files, or an I/O error when the directory
   * cannot be read (`dir` is None) or one of its items cannot be read.
   */
  method ListVaults(dir: Option<seq<DirItem>>) returns (r: Result<seq<string>, VaultError>)
    ensures r.Err? <==> dir.None? || exists i :: 0 <= i < |dir.value| && dir.value[i].Unreadable?
    ensures r.Err? ==> r.error == IoError
    ensures r.Ok? ==> r.value == VaultStems(dir.value)
  {
    if dir.None? {
      return Err(IoError);
    }
    var listing := dir.value;
    var vector: seq<string> := [];
    for i := 0 to |listing|
      invariant forall j :: 0 <= j < i ==> listing[j].File?
      invariant vector == VaultStems(listing[..i])
    {
      var item := listing[i];
      if item.Unreadable? {
        return Err(IoError);
      }
      assert listing[..i + 1][..i] == listing[..i];
      if item.ext == Some(VaultExtension) {
        if item.stem.Some? {
          vector := vector + [item.stem.value];
        }
      }
    }
    assert listing[..|listing|] == listing;
    return Ok(vector);
  }

  /** The listing shows exactly the store's files (among other files). */
  predicate ListingMatches(listing: seq<DirItem>, files: map<string, Blob<VaultData>>)
  {
    && (forall i :: 0 <= i < |listing| && IsVaultFile(listing[i]) ==> listing[i].stem.value in files)
    && (forall name :: name in files ==> exists i :: 0 <= i < |listing| && IsVaultFile(listing[i]) && listing[i].stem.value == name)
  }

  /** Listing a directory that matches the store names exactly the vaults that exist. */
  lemma ListedAreExisting(listing: seq<DirItem>, store: Store, name: string)
    requires ListingMatches(listing, store.files)
    ensures name in VaultStems(listing) <==> VaultExists(store, name)
  {
    VaultStemsSound(listing, name);
  }

  /** A listed file with extension `psdb`, whatever its stem. */
  predicate HasVaultExtension(item: DirItem)
  {
    item.File? && item.ext == Some(VaultExtension)
  }

  /** Whether some item of a listing has the vault extension; unreadable items count as no. */
  function AnyVaultExtension(items: seq<DirItem>): (r: bool)
    ensures r <==> exists i :: 0 <= i < |items| && HasVaultExtension(items[i])
  {
    if items == [] then false
    else HasVaultExtension(items[0]) || AnyVaultExtension(items[1..])
  }

  /**
   * `check_vaults_exist`: false when the directory cannot be read (None), otherwise whether
   * some readable item has the vault extension.
   */
  function CheckVaultsExist(listing: Option<seq<DirItem>>): (r: bool)
    ensures r <==> listing.Some? && exists i :: 0 <= i < |listing.value| && HasVaultExtension(listing.value[i])
  {
    listing.Some? && AnyVaultExtension(listing.value)
  }

  /** Whenever `list_vaults` names a vault, `check_vaults_exist` reports that vaults exist. */
  lemma ListedImpliesExist(listing: seq<DirItem>)
    requires |VaultStems(listing)| > 0
    ensures CheckVaultsExist(Some(listing))
  {
    var name := VaultStems(listing)[0];
    VaultStemsSound(listing, name);
  }
}
