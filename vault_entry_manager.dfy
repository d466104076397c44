/**
 * The vault data model of src/vault_entry_manager.rs: a named, ordered list of
 * credential entries whose names are meant to be unique.
 */
module VaultEntry {
  import opened Wrappers
  import opened Errors
  import Seqs

  /** The optional fields of an entry, used to say which one a setter touches. */
  datatype Field = Username | Password | Url | Notes

  /**
   * One credential record. An entry is a plain value in the source (it is cloned,
   * compared field by field and stored by value in the vault's list), so a setter that
   * takes `&mut self` is modelled as a function that returns the updated entry.
   * The getters are the datatype's fields.
   */
  datatype Entry = Entry(
    entryname: string,
    username: Option<string>,
    password: Option<string>,
    url: Option<string>,
    notes: Option<string>)
  {
    /** The value of one optional field. */
    function Get(f: Field): Option<string>
    {
      match f
      case Username => username
      case Password => password
      case Url => url
      case Notes => notes
    }

    /** `e` has this entry's name and agrees with it on every optional field except `f`. */
    predicate SameExcept(e: Entry, f: Field)
    {
      e.entryname == entryname && forall g: Field :: g != f ==> e.Get(g) == Get(g)
    }

    /** `set_name`: rename, unless the given vault already has an entry of that name. */
    function SetName(vault: Vault, name: string): (r: Result<Entry, VaultError>)
      reads vault
      ensures r.Err? <==> HasName(vault.entries, name)
      ensures r.Err? ==> r.error == NameExists
      ensures r.Ok? ==> r.value.entryname == name && !HasName(vault.entries, r.value.entryname)
      ensures r.Ok? ==> forall f: Field :: r.value.Get(f) == Get(f)
    {
      if vault.EntrynameExists(name) then Err(NameExists) else Ok(this.(entryname := name))
    }

    function SetUsername(user: string): (e: Entry)
      ensures e.username == Some(user) && SameExcept(e, Username)
    {
      this.(username := Some(user))
    }

    function SetPassword(password: string): (e: Entry)
      ensures e.password == Some(password) && SameExcept(e, Password)
    {
      this.(password := Some(password))
    }

    function SetUrl(url: string): (e: Entry)
      ensures e.url == Some(url) && SameExcept(e, Url)
    {
      this.(url := Some(url))
    }

    function SetNotes(notes: string): (e: Entry)
      ensures e.notes == Some(notes) && SameExcept(e, Notes)
    {
      this.(notes := Some(notes))
    }

    function RemoveUsername(): (e: Entry)
      ensures e.username == None && SameExcept(e, Username)
    {
      this.(username := None)
    }

    function RemovePassword(): (e: Entry)
      ensures e.password == None && SameExcept(e, Password)
    {
      this.(password := None)
    }

    function RemoveUrl(): (e: Entry)
      ensures e.url == None && SameExcept(e, Url)
    {
      this.(url := None)
    }

    function RemoveNotes(): (e: Entry)
      ensures e.notes == None && SameExcept(e, Notes)
    {
      this.(notes := None)
    }
  }

  /** The serialised form of a vault: what is encrypted into its file. */
  datatype VaultData = VaultData(name: string, entries: seq<Entry>)

  /** Some entry is called `name` (exact, case-sensitive comparison). */
  predicate HasName(entries: seq<Entry>, name: string)
  {
    exists i :: 0 <= i < |entries| && entries[i].entryname == name
  }

  /** No two entries share a name. The field is public, so this is not enforced by the type. */
  predicate NamesUnique(entries: seq<Entry>)
  {
    forall i, j :: 0 <= i < j < |entries| ==> entries[i].entryname != entries[j].entryname
  }

  /** The tail of a list with distinct names has distinct names, none equal to the head's. */
  lemma UniqueTail(entries: seq<Entry>)
    requires entries != [] && NamesUnique(entries)
    ensures NamesUnique(entries[1..]) && !HasName(entries[1..], entries[0].entryname)
  {
    var tail := entries[1..];
    forall i, j | 0 <= i < j < |tail| ensures tail[i].entryname != tail[j].entryname {
      assert tail[i] == entries[i + 1] && tail[j] == entries[j + 1];
    }
    forall i | 0 <= i < |tail| ensures tail[i].entryname != entries[0].entryname {
      assert tail[i] == entries[i + 1];
    }
  }

  /** Putting an entry with a fresh name in front keeps the names distinct. */
  lemma UniqueCons(e: Entry, rest: seq<Entry>)
    requires NamesUnique(rest) && !HasName(rest, e.entryname)
    ensures NamesUnique([e] + rest)
  {
    var r := [e] + rest;
    forall i, j | 0 <= i < j < |r| ensures r[i].entryname != r[j].entryname {
      assert r[j] == rest[j - 1];
      if i > 0 {
        assert r[i] == rest[i - 1];
      }
    }
  }

  /** A name that survives filtering was there before. */
  lemma RetainHasName(entries: seq<Entry>, keep: Entry -> bool, name: string)
    requires HasName(Seqs.Retain(entries, keep), name)
    ensures HasName(entries, name)
  {
    var r := Seqs.Retain(entries, keep);
    var i :| 0 <= i < |r| && r[i].entryname == name;
    assert r[i] in entries;
    var k :| 0 <= k < |entries| && entries[k] == r[i];
  }

  /** Filtering entries out never makes two of the remaining ones share a name. */
  lemma {:induction false} RetainKeepsNamesUnique(entries: seq<Entry>, keep: Entry -> bool)
    requires NamesUnique(entries)
    ensures NamesUnique(Seqs.Retain(entries, keep))
  {
    if entries != [] {
      var tail := entries[1..];
      UniqueTail(entries);
      RetainKeepsNamesUnique(tail, keep);
      var rest := Seqs.Retain(tail, keep);
      if keep(entries[0]) {
        if HasName(rest, entries[0].entryname) {
          RetainHasName(tail, keep, entries[0].entryname);
        }
        UniqueCons(entries[0], rest);
      } else {
        assert Seqs.Retain(entries, keep) == [] + rest;
      }
    }
  }

  /** Appending an entry whose name is fresh keeps the names distinct. */
  lemma AppendFreshName(entries: seq<Entry>, e: Entry)
    requires NamesUnique(entries) && !HasName(entries, e.entryname)
    ensures NamesUnique(entries + [e])
  {
    var r := entries + [e];
    forall i, j | 0 <= i < j < |r| ensures r[i].entryname != r[j].entryname {
      if j == |entries| {
        assert r[i] == entries[i];
      }
    }
  }

  /** The vault held in memory; only `name` and `entries` are serialised. */
  class Vault {
    var name: string
    var entries: seq<Entry>

    /** `Vault::new`: an empty vault. */
    constructor (name: string)
      ensures this.name == name && entries == []
    {
      this.name := name;
      entries := [];
    }

    /** The vault's serialised form. */
    function Snapshot(): (d: VaultData)
      reads this
      ensures d.name == name && d.entries == entries
    {
      VaultData(name, entries)
    }

    method SetName(name: string)
      modifies this
      ensures this.name == name && entries == old(entries)
    {
      this.name := name;
    }

    /** `entryname_exists`: a search for an entry with exactly this name. */
    function EntrynameExists(name: string): (r: bool)
      reads this
      ensures r == HasName(entries, name)
    {
      Seqs.Position(entries, (e: Entry) => e.entryname == name).Some?
    }

    /** `add_entry`: append, unless the name is taken. */
    method AddEntry(entry: Entry) returns (r: Result<(), VaultError>)
      modifies this
      ensures name == old(name)
      ensures r.Err? <==> HasName(old(entries), entry.entryname)
      ensures r.Err? ==> r.error == NameExists && entries == old(entries)
      ensures r.Ok? ==> entries == old(entries) + [entry]
      ensures NamesUnique(old(entries)) ==> NamesUnique(entries)
    {
      if EntrynameExists(entry.entryname) {
        return Err(NameExists);
      }
      if NamesUnique(entries) {
        AppendFreshName(entries, entry);
      }
      entries := entries + [entry];
      return Ok(());
    }

    /** `get_entry_by_name`: the first entry with that name. */
    function GetEntryByName(name: string): (r: Option<Entry>)
      reads this
      ensures r.None? <==> !HasName(entries, name)
      ensures r.Some? ==> exists i :: 0 <= i < |entries| && entries[i] == r.value &&
                            r.value.entryname == name &&
                            forall j :: 0 <= j < i ==> entries[j].entryname != name
    {
      match Seqs.Position(entries, (e: Entry) => e.entryname == name)
      case None => None
      case Some(i) => Some(entries[i])
    }

    /** `get_entry_by_entry`: the first entry equal to the argument, field by field. */
    function GetEntryByEntry(entry: Entry): (r: Option<Entry>)
      reads this
      ensures r == if entry in entries then Some(entry) else None
    {
      match Seqs.Position(entries, (e: Entry) => e == entry)
      case None => None
      case Some(i) => Some(entries[i])
    }

    /** `remove_entry_by_name`: drop every entry with that name, keeping the others in order. */
    method RemoveEntryByName(name: string)
      modifies this
      ensures this.name == old(this.name)
      ensures entries == Seqs.Retain(old(entries), (e: Entry) => e.entryname != name)
      ensures !HasName(entries, name)
      ensures !HasName(old(entries), name) ==> entries == old(entries)
      ensures NamesUnique(old(entries)) ==> NamesUnique(entries)
    {
      var keep := (e: Entry) => e.entryname != name;
      if !HasName(entries, name) {
        Seqs.RetainAll(entries, keep);
      }
      if NamesUnique(entries) {
        RetainKeepsNamesUnique(entries, keep);
      }
      entries := Seqs.Retain(entries, keep);
    }

    /** `remove_entry_by_entry`: drop every entry equal to the argument. */
    method RemoveEntryByEntry(entry: Entry)
      modifies this
      ensures name == old(name)
      ensures entries == Seqs.Retain(old(entries), (e: Entry) => e != entry)
      ensures entry !in entries
      ensures entry !in old(entries) ==> entries == old(entries)
      ensures NamesUnique(old(entries)) ==> NamesUnique(entries)
    {
      var keep := (e: Entry) => e != entry;
      if entry !in entries {
        Seqs.RetainAll(entries, keep);
      }
      if NamesUnique(entries) {
        RetainKeepsNamesUnique(entries, keep);
      }
      entries := Seqs.Retain(entries, keep);
    }
  }

  /** Removing by name keeps exactly the entries with other names. */
  lemma RemoveByNameKeeps(entries: seq<Entry>, name: string, e: Entry)
    ensures e in Seqs.Retain(entries, (x: Entry) => x.entryname != name) <==>
            e in entries && e.entryname != name
  {
    var keep := (x: Entry) => x.entryname != name;
    var r := Seqs.Retain(entries, keep);
    if e in entries && e.entryname != name {
      var i :| 0 <= i < |entries| && entries[i] == e;
      assert keep(entries[i]);
    }
    if e in r {
      var i :| 0 <= i < |r| && r[i] == e;
      assert keep(r[i]);
    }
  }
}
