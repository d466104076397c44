/**
 * The legacy vault of src/vault_manager.rs. It keeps its master key inside the vault
 * (and serialises it into the vault file), removes only the first matching entry, and
 * caps the key at 200 bytes. Its entry type has the same fields and setters as the
 * current one, so `VaultEntry.Entry` is reused; only `set_name`, which consults this
 * vault, is restated here.
 */
module VaultManager {
  import opened Wrappers
  import opened Errors
  import opened Crypto
  import opened Storage
  import Seqs
  import opened VaultEntry

  /** The serialised form of a legacy vault: all three fields, the key included. */
  datatype LegacyData = LegacyData(name: string, key: Option<string>, entries: seq<Entry>)

  type LegacyStore = Disk<LegacyData>

  /** The longest key, in UTF-8 bytes, that `initialize_vault` accepts. */
  const MAX_KEY_BYTES: nat := 200

  /** The number of bytes a code point takes in UTF-8. */
  function Utf8Width(c: char): (w: nat)
    ensures 1 <= w <= 4
  {
    if c as int < 0x80 then 1
    else if c as int < 0x800 then 2
    else if c as int < 0x10000 then 3
    else 4
  }

  /** `String::len`: the length of the string's UTF-8 encoding. */
  function Utf8Length(s: string): (n: nat)
    ensures |s| <= n <= 4 * |s|
  {
    if s == [] then 0 else Utf8Width(s[0]) + Utf8Length(s[1..])
  }

  /** An ASCII string takes one byte per character. */
  lemma {:induction false} AsciiLength(s: string)
    requires forall i :: 0 <= i < |s| ==> s[i] as int < 0x80
    ensures Utf8Length(s) == |s|
  {
    if s != [] {
      AsciiLength(s[1..]);
    }
  }

  class Vault {
    var name: string
    var key: Option<string>
    var entries: seq<Entry>

    /** `Vault::new`: an empty vault with no key. */
    constructor (name: string)
      ensures this.name == name && key == None && entries == []
    {
      this.name := name;
      key := None;
      entries := [];
    }

    /** The vault's serialised form (`to_json` before printing). */
    function Snapshot(): (d: LegacyData)
      reads this
      ensures d.name == name && d.key == key && d.entries == entries
    {
      LegacyData(name, key, entries)
    }

    method SetKey(key: string)
      modifies this
      ensures this.key == Some(key) && name == old(name) && entries == old(entries)
    {
      this.key := Some(key);
    }

    method RemoveKey()
      modifies this
      ensures key == None && name == old(name) && entries == old(entries)
    {
      key := None;
    }

    /** `entryname_exists`. */
    function EntrynameExists(name: string): (r: bool)
      reads this
      ensures r == HasName(entries, name)
    {
      Seqs.Position(entries, (e: Entry) => e.entryname == name).Some?
    }

    /** `change_master_key`: replace the key, but only when the old one is given correctly. */
    method ChangeMasterKey(keyOld: string, keyNew: string) returns (r: Result<(), VaultError>)
      modifies this
      ensures name == old(name) && entries == old(entries)
      ensures r.Err? <==> old(key) != Some(keyOld)
      ensures r.Err? ==> r.error == InvalidKey && key == old(key)
      ensures r.Ok? ==> key == Some(keyNew)
    {
      if Some(keyOld) != key {
        return Err(InvalidKey);
      }
      key := Some(keyNew);
      return Ok(());
    }

    /**
     * `save`: with a key, encrypt the vault under it and write `<name>.psdb`; the result of
     * the write is discarded, so the call succeeds even when the write fails.
     */
    method Save(disk: LegacyStore) returns (r: Result<(), VaultError>)
      modifies disk
      ensures disk.writable == old(disk.writable)
      ensures r.Err? <==> key.None?
      ensures r.Err? ==> r.error == CouldNotSave && disk.files == old(disk.files)
      ensures r.Ok? && disk.writable ==> disk.files == old(disk.files)[name := EncryptVault(key.value, Snapshot())]
      ensures r.Ok? && !disk.writable ==> disk.files == old(disk.files)
    {
      if key.None? {
        return Err(CouldNotSave);
      }
      if disk.writable {
        disk.files := disk.files[name := EncryptVault(key.value, Snapshot())];
      }
      return Ok(());
    }

    /**
     * `close`: like `save`, then forget the key. The source consumes the vault, so the
     * cleared key is what a caller holding this object observes afterwards.
     */
    method Close(disk: LegacyStore) returns (r: Result<(), VaultError>)
      modifies this, disk
      ensures name == old(name) && entries == old(entries)
      ensures disk.writable == old(disk.writable)
      ensures r.Err? <==> old(key).None?
      ensures r.Err? ==> r.error == CouldNotClose && disk.files == old(disk.files)
      ensures r.Ok? && disk.writable ==>
                disk.files == old(disk.files)[name := EncryptVault(old(key).value, old(Snapshot()))]
      ensures r.Ok? && !disk.writable ==> disk.files == old(disk.files)
      ensures key == None
    {
      if key.None? {
        return Err(CouldNotClose);
      }
      if disk.writable {
        disk.files := disk.files[name := EncryptVault(key.value, Snapshot())];
      }
      key := None;
      return Ok(());
    }

    /** `set_Name`. */
    method SetName(name: string)
      modifies this
      ensures this.name == name && key == old(key) && entries == old(entries)
    {
      this.name := name;
    }

    /** `add_entry`: append, unless the name is taken. */
    method AddEntry(entry: Entry) returns (r: Result<(), VaultError>)
      modifies this
      ensures name == old(name) && key == old(key)
      ensures r.Err? <==> HasName(old(entries), entry.entryname)
      ensures r.Err? ==> r.error == NameExists && entries == old(entries)
      ensures r.Ok? ==> entries == old(entries) + [entry]
      ensures NamesUnique(old(entries)) ==> NamesUnique(entries)
    {
      if EntrynameExists(entry.entryname) {
        return Err(NameExists);
      }
      if NamesUnique(entries) {
        AppendFreshName(entries, entry);
      }
      entries := entries + [entry];
      return Ok(());
    }

    /** `get_entry_by_name`: the first entry with that name, or CouldNotGetEntry. */
    function GetEntryByName(name: string): (r: Result<Entry, VaultError>)
      reads this
      ensures r.Err? <==> !HasName(entries, name)
      ensures r.Err? ==> r.error == CouldNotGetEntry
      ensures r.Ok? ==> exists i :: 0 <= i < |entries| && entries[i] == r.value &&
                          r.value.entryname == name &&
                          forall j :: 0 <= j < i ==> entries[j].entryname != name
    {
      match Seqs.Position(entries, (e: Entry) => e.entryname == name)
      case None => Err(CouldNotGetEntry)
      case Some(i) => Ok(entries[i])
    }

    /** `get_entry_by_entry`: an entry equal to the argument, or CouldNotGetEntry. */
    function GetEntryByEntry(entry: Entry): (r: Result<Entry, VaultError>)
      reads this
      ensures r == if entry in entries then Ok(entry) else Err(CouldNotGetEntry)
    {
      match Seqs.Position(entries, (e: Entry) => e == entry)
      case None => Err(CouldNotGetEntry)
      case Some(i) => Ok(entries[i])
    }

    /** `remove_entry_by_name`: remove the first entry with that name, or report CouldNotRemoveEntry. */
    method RemoveEntryByName(name: string) returns (r: Result<(), VaultError>)
      modifies this
      ensures this.name == old(this.name) && key == old(key)
      ensures r.Err? <==> !HasName(old(entries), name)
      ensures r.Err? ==> r.error == CouldNotRemoveEntry && entries == old(entries)
      ensures r.Ok? ==> exists i :: 0 <= i < |old(entries)| && old(entries)[i].entryname == name &&
                          (forall j :: 0 <= j < i ==> old(entries)[j].entryname != name) &&
                          entries == Seqs.RemoveAt(old(entries), i)
      ensures NamesUnique(old(entries)) ==> entries == Seqs.Retain(old(entries), (e: Entry) => e.entryname != name)
    {
      var keep := (e: Entry) => e.entryname != name;
      var pos := Seqs.Position(entries, (e: Entry) => e.entryname == name);
      if pos.None? {
        Seqs.RetainAll(entries, keep);
        return Err(CouldNotRemoveEntry);
      }
      if NamesUnique(entries) {
        RemoveFirstIsRetain(entries, name, pos.value);
      }
      entries := Seqs.RemoveAt(entries, pos.value);
      return Ok(());
    }

    /** `remove_entry_by_entry`: remove the first entry equal to the argument, or report CouldNotRemoveEntry. */
    method RemoveEntryByEntry(entry: Entry) returns (r: Result<(), VaultError>)
      modifies this
      ensures name == old(name) && key == old(key)
      ensures r.Err? <==> entry !in old(entries)
      ensures r.Err? ==> r.error == CouldNotRemoveEntry && entries == old(entries)
      ensures r.Ok? ==> exists i :: 0 <= i < |old(entries)| && old(entries)[i] == entry &&
                          (forall j :: 0 <= j < i ==> old(entries)[j] != entry) &&
                          entries == Seqs.RemoveAt(old(entries), i)
      ensures r.Ok? ==> multiset(entries) + multiset{entry} == multiset(old(entries))
    {
      var pos := Seqs.Position(entries, (e: Entry) => e == entry);
      if pos.None? {
        return Err(CouldNotRemoveEntry);
      }
      RemoveAtMultiset(entries, pos.value);
      entries := Seqs.RemoveAt(entries, pos.value);
      return Ok(());
    }
  }

  /** Removing one element takes exactly one copy of it out of the multiset. */
  lemma RemoveAtMultiset<T>(s: seq<T>, i: nat)
    requires i < |s|
    ensures multiset(Seqs.RemoveAt(s, i)) + multiset{s[i]} == multiset(s)
  {
    assert s == s[..i] + [s[i]] + s[i + 1..];
  }

  /** `Entry::set_name` against a legacy vault: rename unless the vault already has that name. */
  function SetEntryName(e: Entry, vault: Vault, name: string): (r: Result<Entry, VaultError>)
    reads vault
    ensures r.Err? <==> HasName(vault.entries, name)
    ensures r.Err? ==> r.error == NameExists
    ensures r.Ok? ==> r.value.entryname == name && forall f: Field :: r.value.Get(f) == e.Get(f)
  {
    if vault.EntrynameExists(name) then Err(NameExists) else Ok(e.(entryname := name))
  }

  /**
   * With distinct names, removing the first match is the same as removing every match,
   * so the legacy and the current `remove_entry_by_name` agree on well-formed vaults.
   */
  lemma RemoveFirstIsRetain(entries: seq<Entry>, name: string, i: nat)
    requires NamesUnique(entries)
    requires i < |entries| && entries[i].entryname == name
    ensures Seqs.RemoveAt(entries, i) == Seqs.Retain(entries, (e: Entry) => e.entryname != name)
  {
    KeptAround(entries, name, i);
    Seqs.RetainRemovesOne(entries, (e: Entry) => e.entryname != name, i);
  }

  /** With distinct names, every entry but the one called `name` has another name. */
  lemma KeptAround(entries: seq<Entry>, name: string, i: nat)
    requires NamesUnique(entries)
    requires i < |entries| && entries[i].entryname == name
    ensures forall k :: 0 <= k < |entries| && k != i ==> entries[k].entryname != name
  {
  }

  /** Without distinct names the two differ: a second entry of the same name survives the legacy removal. */
  lemma DuplicateSurvivesRemoval(entries: seq<Entry>, name: string, i: nat, j: nat)
    requires i < j < |entries| && entries[i].entryname == name && entries[j].entryname == name
    ensures var p := Seqs.Position(entries, (e: Entry) => e.entryname == name);
            p.Some? && HasName(Seqs.RemoveAt(entries, p.value), name)
  {
    var p := Seqs.Position(entries, (e: Entry) => e.entryname == name);
    assert p.Some? && p.value <= i;
    assert Seqs.RemoveAt(entries, p.value)[j - 1] == entries[j];
  }

  /**
   * `initialize_vault`: reject an over-long key, then an existing file; otherwise a new vault holding the key.
   * By the bounds on `Utf8Length`, a key of at most 50 characters always passes the 200-byte cap
   * and one of more than 200 characters never does.
   */
  method InitializeVault(disk: LegacyStore, name: string, key: string) returns (r: Result<Vault, VaultError>)
    ensures r.Err? <==> Utf8Length(key) > MAX_KEY_BYTES || name in disk.files
    ensures Utf8Length(key) > MAX_KEY_BYTES ==> r == Err(PasswordTooLong)
    ensures Utf8Length(key) <= MAX_KEY_BYTES && name in disk.files ==> r == Err(FileExists)
    ensures r.Ok? ==> fresh(r.value) && r.value.name == name && r.value.key == Some(key) && r.value.entries == []
  {
    if Utf8Length(key) > MAX_KEY_BYTES {
      return Err(PasswordTooLong);
    }
    if name in disk.files {
      return Err(FileExists);
    }
    var vault := new Vault(name);
    vault.SetKey(key);
    return Ok(vault);
  }

  /**
   * What `open_vault` decodes from the files: a missing file is an I/O error, an AEAD
   * failure an EncFileError, bytes that are not UTF-8 a Utf8Error and text that is not a
   * vault a JSON error. The key stored in the file is replaced by the one given.
   */
  function OpenSpec(files: map<string, Blob<LegacyData>>, name: string, key: string): (r: Result<LegacyData, VaultError>)
    ensures r.Ok? ==> r.value.key == Some(key)
    ensures r.Ok? <==> name in files && files[name].Sealed? && files[name].password == key &&
                       files[name].plaintext.Utf8? && files[name].plaintext.text.Parsed?
    ensures name !in files ==> r == Err(IoError)
    ensures name in files && AeadOpen(key, files[name]).None? ==> r == Err(EncFileError)
    ensures name in files && files[name].Sealed? && files[name].password == key && files[name].plaintext.NotUtf8?
            ==> r == Err(Utf8Error)
    ensures name in files && files[name].Sealed? && files[name].password == key &&
            files[name].plaintext.Utf8? && files[name].plaintext.text.Unparsable?
            ==> r == Err(JsonError)
    ensures r.Ok? ==> name in files && files[name].Sealed? && files[name].plaintext.Utf8? &&
                      files[name].plaintext.text.Parsed? &&
                      r.value == files[name].plaintext.text.doc.(key := Some(key))
  {
    if name !in files then Err(IoError)
    else match AeadOpen(key, files[name])
      case None => Err(EncFileError)
      case Some(NotUtf8) => Err(Utf8Error)
      case Some(Utf8(Unparsable)) => Err(JsonError)
      case Some(Utf8(Parsed(d))) => Ok(d.(key := Some(key)))
  }

  /** `open_vault`: a new vault object holding what the file decodes to. */
  method OpenVault(disk: LegacyStore, name: string, key: string) returns (r: Result<Vault, VaultError>)
    ensures r.Err? <==> OpenSpec(disk.files, name, key).Err?
    ensures r.Err? ==> r.error == OpenSpec(disk.files, name, key).error
    ensures r.Ok? ==> fresh(r.value) && r.value.Snapshot() == OpenSpec(disk.files, name, key).value
  {
    var spec := OpenSpec(disk.files, name, key);
    if spec.Err? {
      return Err(spec.error);
    }
    var vault := new Vault(spec.value.name);
    vault.entries := spec.value.entries;
    vault.SetKey(key);
    return Ok(vault);
  }

  /** Opening what `save` wrote, with the key that was in the vault, gives the vault back. */
  lemma OpenAfterSave(files: map<string, Blob<LegacyData>>, d: LegacyData, key: string)
    requires d.key == Some(key)
    ensures OpenSpec(files[d.name := EncryptVault(key, d)], d.name, key) == Ok(d)
  {
  }

  /** After a change of master key and a save, only the new key opens the file. */
  lemma OpenAfterKeyChange(files: map<string, Blob<LegacyData>>, d: LegacyData, keyOld: string, keyNew: string)
    requires d.key == Some(keyNew) && keyOld != keyNew
    ensures OpenSpec(files[d.name := EncryptVault(keyNew, d)], d.name, keyNew) == Ok(d)
    ensures OpenSpec(files[d.name := EncryptVault(keyNew, d)], d.name, keyOld) == Err(EncFileError)
  {
  }
}
