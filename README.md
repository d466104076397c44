# PasswordManager core, modelled in Dafny

PasswordManager is a local password vault. A vault is a named, ordered list of credential entries:
- each entry has a name, and optionally a username, a password, a url and notes;
- the vault is stored as one encrypted file, `<name>.psdb`, in a vaults directory;
- the file is encrypted under a master password.

A session holds one decrypted vault together with its master password. Two front ends read that session:
- a loopback HTTP server for the browser extension, which is token-authenticated and answers "fill" requests;
- a native-messaging host, which reads length-prefixed JSON messages from standard input and answers on standard output.

An older vault type, kept in `src/vault_manager.rs`, stores its key inside the vault.

The project models these parts:

| module | file | models |
|---|---|---|
| `VaultEntry` | `vault_entry_manager.dfy` | `src/vault_entry_manager.rs`: `Entry` (a value; its setters return the updated entry) and the class `Vault` over `entries: seq<Entry>` |
| `VaultFile` | `vault_file_manager.dfy` | `src/vault_file_manager.rs`: create, open, close, rekey, delete and list vault files |
| `Sessions` | `session.dfy` | `src/session.rs`: the class `Session` and its state machine |
| `ExtensionServer` | `extension_server.dfy` | `src/extension_server.rs`: the request handler and the url matching |
| `NativeHost` | `native_host.dfy` | `src/native_host.rs`: message framing, origin normalisation, responses and the host loop |
| `VaultManager` | `vault_manager.dfy` | `src/vault_manager.rs`: the legacy keyed vault |
| `Crypto` | `crypto.dfy` | `src/crypto.rs`: the authenticated-encryption layer, as a value model |

Supporting modules:
- `Wrappers`: `Option` and `Result`.
- `Errors`: the error enums.
- `Seqs`: `Vec::retain`, `Iterator::position` and `Vec::remove`, over sequences.
- `Storage`: the class `Disk`, which is the vaults directory.
- `JsonModel`: serde_json values.

Modelling choices:
- **Encryption.** A sealed blob is `Sealed(password, plaintext)`. `AeadOpen` returns the plaintext exactly when it is given the same password. A wrong password fails, and so does a `Tampered` blob.
- **JSON.** Serialising a vault and parsing it back gives the same vault. The model therefore seals the vault value itself. Text that is not a vault is `Unparsable`.
- **Files.** The vaults directory is an object `Disk` with two fields:
  - `files: map<string, Blob>`, keyed by vault name;
  - `writable: bool`, where `false` stands for any I/O failure of a write or a removal.
- **Clock.** `Instant::now()` is a parameter `now: nat`. `Instant::elapsed` never goes below zero, and the model keeps that.
- **Outside the core.** These become function parameters:
  - `url_matches` and `handle_command_get_by_url`, imported from `crate::cli`; `src/cli.rs` defines neither (it holds only the command definitions), so their behaviour is unknown;
  - `Url::parse`;
  - serde's byte-level parsing and printing.
- **Native host I/O.** Standard input is a byte sequence read with a cursor. The host's output is the byte sequence it writes. Lengths are u32 in the machine's byte order, which is a parameter `Endian`. The cast of a body length to u32 is written out as `% 0x1_0000_0000`.

Behaviour of the code that the model keeps where a reader might expect otherwise:
- **Wrong-password errors.** `open_vault` in `src/vault_file_manager.rs` does not collapse a decryption failure into `InvalidKey`. It returns the converted crypto error, modelled as `CryptoFailure(CouldNotDecrypt)`. The collapse into `InvalidKey` happens one layer up, in `Session::start_session` and in `change_master_pw`.
- **Malformed body, extension server.** For a request body that is not JSON the handler returns an error before responding (`Err(MalformedBody)`); what the HTTP library then sends is not modelled.
- **Malformed message, native host.** A message that is not JSON ends the host loop.
- **"No session open".** This answer is given only when the shared handle holds no session at all. A session that exists but holds no vault is answered "No vault open". A session that holds a vault but no password is still searched.
- **Closing a vault.** `close_vault` creates the file and then writes it; this is not an atomic replacement. The model writes either the whole file or nothing.
- **Error enums.** The enum in `src/errors.rs` is older than the code that uses it. `Errors` declares the variants the core files actually construct.

Other behaviour of the code that the contracts state:
- **`change_master_pw` (file layer).** It writes to the name stored inside the decrypted vault, not to the file name it opened. It also reports success when that write fails.
- **`Session::change_master_pw`.** It succeeds even when no session is active.
- **Legacy `save` and `close`.** They discard the result of the write.

## Model

| member | source | states |
|---|---|---|
| `Crypto.AeadOpen` | src/crypto.rs:29-31 | decryption yields a plaintext iff the blob is sealed and the password is the one it was sealed under; the plaintext is the one sealed |
| `Crypto.EncryptVault` | src/crypto.rs:23-27 | a deterministic seal whose plaintext is the value's own JSON text: the encryption password opens it to that text and every other password fails |
| `Crypto.DecryptVault` | src/crypto.rs:29-35 | succeeds iff the password is right and the plaintext is UTF-8; every failure, AEAD or UTF-8, is the single error CouldNotDecrypt |
| `Crypto.DecryptEncrypt` | src/crypto.rs:23-35 | decrypting with the encryption password gives the encrypted value back |
| `Crypto.DecryptRejects` | src/crypto.rs:29-33 | any other password, and any tampered blob, gives CouldNotDecrypt |
| `VaultEntry.Entry.SetName` | src/vault_entry_manager.rs:68-74 | fails with NameExists iff the vault already has an entry of that name; otherwise only the name changes |
| `VaultEntry.Entry.SetUsername` | src/vault_entry_manager.rs:76-78 | the username becomes the given value; name and every other field are unchanged |
| `VaultEntry.Entry.SetPassword` | src/vault_entry_manager.rs:80-82 | the password becomes the given value; everything else unchanged |
| `VaultEntry.Entry.SetUrl` | src/vault_entry_manager.rs:84-86 | the url becomes the given value; everything else unchanged |
| `VaultEntry.Entry.SetNotes` | src/vault_entry_manager.rs:88-90 | the notes become the given value; everything else unchanged |
| `VaultEntry.Entry.RemoveUsername` | src/vault_entry_manager.rs:92-94 | the username is cleared; everything else unchanged |
| `VaultEntry.Entry.RemovePassword` | src/vault_entry_manager.rs:96-98 | the password is cleared; everything else unchanged |
| `VaultEntry.Entry.RemoveUrl` | src/vault_entry_manager.rs:100-102 | the url is cleared; everything else unchanged |
| `VaultEntry.Entry.RemoveNotes` | src/vault_entry_manager.rs:104-106 | the notes are cleared; everything else unchanged |
| `VaultEntry.Vault.constructor` | src/vault_entry_manager.rs:110-115 | a new vault has the given name and no entries |
| `VaultEntry.Vault.Snapshot` | src/vault_entry_manager.rs:121-123 | the serialised form carries exactly the name and the entries |
| `VaultEntry.Vault.SetName` | src/vault_entry_manager.rs:125-127 | the name changes, the entries do not |
| `VaultEntry.Vault.EntrynameExists` | src/vault_entry_manager.rs:159-164 | true iff some entry has exactly that name |
| `VaultEntry.Vault.AddEntry` | src/vault_entry_manager.rs:129-135 | NameExists iff the name is taken, with entries unchanged; otherwise the entry is appended; distinct names stay distinct |
| `VaultEntry.Vault.GetEntryByName` | src/vault_entry_manager.rs:137-141 | None iff no entry has that name; otherwise the first entry with it |
| `VaultEntry.Vault.GetEntryByEntry` | src/vault_entry_manager.rs:143-145 | the argument itself iff an equal entry is present, otherwise None |
| `VaultEntry.Vault.RemoveEntryByName` | src/vault_entry_manager.rs:147-149 | the entries become the order-preserving filter that drops every entry of that name; none is left; an absent name changes nothing; distinct names stay distinct |
| `VaultEntry.Vault.RemoveEntryByEntry` | src/vault_entry_manager.rs:151-153 | every equal entry is dropped, order kept; an absent entry changes nothing; distinct names stay distinct |
| `VaultEntry.RetainKeepsNamesUnique` | src/vault_entry_manager.rs:147-153 | removing entries never makes two remaining entries share a name |
| `VaultEntry.RemoveByNameKeeps` | src/vault_entry_manager.rs:147-149 | an entry survives removal by name iff it was present and has another name |
| `VaultEntry.AppendFreshName` | src/vault_entry_manager.rs:129-135 | appending an entry with a new name keeps names distinct |
| `VaultFile.OpenSpec` | src/vault_file_manager.rs:50-59 | a missing file is IoError; a wrong password is CryptoFailure(CouldNotDecrypt); a success returns the vault that was sealed under exactly that password |
| `VaultFile.OpenAfterClose` | src/vault_file_manager.rs:41-59 | opening right after closing with the same password returns the closed vault |
| `VaultFile.OpenWithOtherPasswordFails` | src/vault_file_manager.rs:41-59 | opening with any other password fails with CouldNotDecrypt |
| `VaultFile.OpenOtherUnaffected` | src/vault_file_manager.rs:41-59 | closing one vault does not change what opening another vault gives |
| `VaultFile.VaultExists` | src/vault_file_manager.rs:126-128 | true iff the vault's file is present; when it is absent every open fails with IoError |
| `VaultFile.InitializeVault` | src/vault_file_manager.rs:27-38 | FileExists iff the file is present; otherwise a fresh empty vault of that name; nothing is written |
| `VaultFile.CloseVault` | src/vault_file_manager.rs:41-47 | succeeds iff the directory is writable, and then the vault's file holds the vault sealed under the password; on failure IoError and no change |
| `VaultFile.OpenVault` | src/vault_file_manager.rs:50-59 | agrees with OpenSpec, error for error; a success is a fresh vault holding the decoded data |
| `VaultFile.ChangeMasterPw` | src/vault_file_manager.rs:85-95 | any open failure is InvalidKey with no change; otherwise Ok, and the vault is resealed under the new password at the name stored inside it when writable |
| `VaultFile.ChangeMasterPwRekeys` | src/vault_file_manager.rs:85-95 | after the change the new password opens the same vault and the old one fails |
| `VaultFile.DeleteVaultFile` | src/vault_file_manager.rs:130-138 | VaultDoesNotExist iff absent; IoError if the removal fails; otherwise exactly that file is removed |
| `VaultFile.VaultStemsSound` | src/vault_file_manager.rs:97-120 | a name is listed iff some listed file has extension psdb and that stem |
| `VaultFile.ListVaults` | src/vault_file_manager.rs:97-120 | IoError iff the directory cannot be read or some item in it cannot be read; otherwise the stems of the psdb files in listing order |
| `VaultFile.ListedAreExisting` | src/vault_file_manager.rs:97-128 | over a listing of the store, a name is listed iff its vault exists |
| `VaultFile.AnyVaultExtension` | src/vault_file_manager.rs:68-82 | true iff some readable item has extension psdb |
| `VaultFile.CheckVaultsExist` | src/vault_file_manager.rs:62-83 | false when the directory cannot be read; otherwise true iff some readable item has extension psdb |
| `VaultFile.ListedImpliesExist` | src/vault_file_manager.rs:62-120 | whenever listing names a vault, the existence check reports vaults |
| `Sessions.Session.constructor` | src/session.rs:42-50 | a new session is inactive, stamped now, with timeout 300 |
| `Sessions.Session.UpdateActivity` | src/session.rs:52-54 | the last activity becomes now; nothing else changes |
| `Sessions.Session.CheckTimeout` | src/session.rs:56-58 | true iff at least the timeout has elapsed since the last activity, elapsed time saturating at zero |
| `Sessions.Session.SessionState` | src/session.rs:127-142 | SessionInactive iff either field is missing; otherwise the held vault and password |
| `Sessions.Session.StartSession` | src/session.rs:62-80 | SessionActive with no change while a vault is held; any open failure is InvalidKey with no change; a success holds a fresh copy of the stored vault, the password, and the new activity time |
| `Sessions.Session.EndSession` | src/session.rs:82-98 | SessionInactive with no change unless active; otherwise both fields are cleared first, then the vault is resealed under the password, or IoError |
| `Sessions.Session.Save` | src/session.rs:100-104 | SessionInactive unless active; otherwise the vault is resealed under the held password and the session is unchanged |
| `Sessions.Session.VerifyMasterPw` | src/session.rs:106-116 | SessionInactive without a password; Ok iff the key equals the held password, otherwise InvalidKey |
| `Sessions.Session.ChangeMasterPw` | src/session.rs:118-121 | always Ok; the held password becomes the new key, active or not |
| `Sessions.ActiveSession` | src/session.rs:23-33 | true iff there is a session and it holds both vault and password |
| `Sessions.CreateNewVault` | src/session.rs:35-39 | FileExists if the vault exists, IoError if it cannot be written, otherwise an empty vault sealed under the password is stored |
| `Sessions.EndThenStart` | src/session.rs:62-98 | ending an active session whose vault is stored under the session's vault name, then starting a new session for that name with the same password, succeeds and holds the same vault and password; any other password is refused with InvalidKey |
| `Sessions.ChangeMasterScenario` | tests/integration_test.rs:75-105 | after changing the password and ending the session, a new session refuses the old password and accepts the new one |
| `Sessions.PersistenceScenario` | tests/integration_test.rs:36-73 | an entry added, saved and closed is found by name in a later session |
| `ExtensionServer.Matches` | src/extension_server.rs:92-104 | exactly the entries with a url that matches the query, none without a url |
| `ExtensionServer.Rendered` | src/extension_server.rs:97-101 | each match is listed with its username, password and url, one per match |
| `ExtensionServer.MatchResponse` | src/extension_server.rs:85-119 | "No vault open" without a vault; not_found for no match, single with the credentials for one, multiple with all matches otherwise |
| `ExtensionServer.MatchEntriesByUrl` | src/extension_server.rs:85-119 | the loop computes exactly MatchResponse |
| `ExtensionServer.HandleRequest` | src/extension_server.rs:32-83 | 405 for a method other than POST; no response for a body that is not JSON; 401 for a bad token whatever the session; otherwise 200 JSON: Invalid request, Session state unavailable, No session open, or the matches |
| `ExtensionServer.TokenCheckedBeforeSession` | src/extension_server.rs:50-58 | with a bad token the response is 401 and independent of the session |
| `NativeHost.FromBytes` | src/native_host.rs:18 | a 4-byte prefix decodes to a u32 |
| `NativeHost.LengthRoundTrip` | src/native_host.rs:15-43 | decoding the native-endian prefix of a u32 gives it back |
| `NativeHost.BytesRoundTrip` | src/native_host.rs:15-43 | the other direction: any four prefix bytes are the encoding of the u32 they decode to |
| `NativeHost.ReadFrame` | src/native_host.rs:15-31 | None iff the prefix is short, the declared length exceeds 1048576, or the body is short; otherwise exactly the declared number of body bytes and the position after them |
| `NativeHost.Frame` | src/native_host.rs:35-43 | four length bytes followed by the body |
| `NativeHost.FrameRoundTrip` | src/native_host.rs:15-43 | a frame written for a body of at most 1048576 bytes is read back whole, wherever in the stream it starts |
| `NativeHost.NormalizeOrigin` | src/native_host.rs:45-53 | a value iff the url parses with scheme http or https and has a host; the value is scheme://host |
| `NativeHost.OriginIgnoresPortPathQuery` | src/native_host.rs:45-53 | urls with equal scheme and host normalise alike |
| `NativeHost.Respond` | src/native_host.rs:58-130 | invalid origin; no session active; the lookup error text; found false; found true with entryname, username and password; or all entries in lookup order |
| `NativeHost.ReadMessage` | src/native_host.rs:15-33 | a message iff a frame is read and its body parses; the message is the decoded frame body and the cursor is the frame's end |
| `NativeHost.Run` | src/native_host.rs:55-134 | the loop writes exactly the replies RunSpec describes: one per message until the first read that fails |
| `NativeHost.RunAnswersEveryMessage` | src/native_host.rs:55-134 | a stream of well-formed messages is answered message by message, in order, and the host stops at its end |
| `VaultManager.Utf8Length` | src/vault_manager.rs:210 | the byte length of a string lies between its length and four times it |
| `VaultManager.AsciiLength` | src/vault_manager.rs:210 | an ASCII key's byte length is its character count |
| `VaultManager.Vault.constructor` | src/vault_manager.rs:20-26 | a new legacy vault has no key and no entries |
| `VaultManager.Vault.Snapshot` | src/vault_manager.rs:28-31 | the serialised form carries name, key and entries |
| `VaultManager.Vault.SetKey` | src/vault_manager.rs:33-35 | the key becomes the given one; nothing else changes |
| `VaultManager.Vault.RemoveKey` | src/vault_manager.rs:37-39 | the key is cleared; nothing else changes |
| `VaultManager.Vault.EntrynameExists` | src/vault_manager.rs:41-46 | true iff some entry has exactly that name |
| `VaultManager.Vault.ChangeMasterKey` | src/vault_manager.rs:48-58 | InvalidKey with no change unless the held key is the old key given (a missing key fails too); otherwise the key becomes the new one |
| `VaultManager.Vault.Save` | src/vault_manager.rs:60-69 | CouldNotSave iff there is no key; otherwise Ok, with the vault sealed under its key if the write succeeds and no change if it fails |
| `VaultManager.Vault.Close` | src/vault_manager.rs:71-81 | CouldNotClose iff there is no key; otherwise as save, and the key is cleared |
| `VaultManager.Vault.SetName` | src/vault_manager.rs:87-89 | the name changes, key and entries do not |
| `VaultManager.Vault.AddEntry` | src/vault_manager.rs:91-97 | NameExists iff the name is taken, with no change; otherwise appended; distinct names stay distinct |
| `VaultManager.Vault.GetEntryByName` | src/vault_manager.rs:99-106 | CouldNotGetEntry iff no entry has the name; otherwise the first with it |
| `VaultManager.Vault.GetEntryByEntry` | src/vault_manager.rs:108-115 | the argument iff an equal entry is present, otherwise CouldNotGetEntry |
| `VaultManager.Vault.RemoveEntryByName` | src/vault_manager.rs:117-125 | CouldNotRemoveEntry with no change iff the name is absent; otherwise only the first entry of that name is removed; with distinct names this equals removing every match |
| `VaultManager.Vault.RemoveEntryByEntry` | src/vault_manager.rs:127-135 | CouldNotRemoveEntry iff absent; otherwise the first equal entry is removed, exactly one copy leaving the multiset |
| `VaultManager.SetEntryName` | src/vault_manager.rs:168-174 | NameExists iff the legacy vault has that name; otherwise only the name changes |
| `VaultManager.RemoveFirstIsRetain` | src/vault_manager.rs:117-125 | with distinct names, removing the first match equals removing every match |
| `VaultManager.DuplicateSurvivesRemoval` | src/vault_manager.rs:117-125 | with two entries of one name, one survives the legacy removal |
| `VaultManager.InitializeVault` | src/vault_manager.rs:209-220 | PasswordTooLong when the key exceeds 200 UTF-8 bytes, checked before FileExists; otherwise a fresh empty vault holding the key |
| `VaultManager.OpenSpec` | src/vault_manager.rs:222-237 | a missing file is IoError, an AEAD failure EncFileError, bytes that are not UTF-8 Utf8Error, bad JSON JsonError; succeeds iff the file is sealed under the key and parses, and a success is exactly the decoded vault with its key replaced by the one given |
| `VaultManager.OpenVault` | src/vault_manager.rs:222-232 | agrees with OpenSpec; a success is a fresh vault holding the decoded data and the key |
| `VaultManager.OpenAfterSave` | src/vault_manager.rs:60-69 | opening what save wrote with the vault's key returns the vault |
| `VaultManager.OpenAfterKeyChange` | src/vault_manager.rs:48-69 | after a key change and a save only the new key opens the file |

## Left out

- Cipher internals (XChaCha20-Poly1305, key derivation, nonces in `src/crypto.rs:41-48` and `src/vault_manager.rs:251-265`): these are a foreign library. They are modelled by the sealed-blob value model, in which `Crypto.EncryptVault` is deterministic (no random nonce) and seals the value itself: the JSON round trip (`serde_json::to_string` then `from_str` gives the value back) is assumed, not proved.
- Encryption failure (`CouldNotEncrypt`) and the legacy `ConversionFailedJSON`: the library's and serde's failure conditions are not visible. All writes model encryption and serialisation as succeeding.
- JSON text: serde's parsing and printing of vaults and messages is outside the core. The model assumes the round trip holds, and byte-level parsing and printing are parameters of the native host.
- `url_matches` and `handle_command_get_by_url`: they are imported from `crate::cli` (`src/extension_server.rs:86`, `src/native_host.rs:9`), but `src/cli.rs` defines neither (it holds only the command definitions), so their behaviour is unknown and they are parameters.
- `Url::parse`: it belongs to the `url` crate, which is not part of this model, so it is a parameter.
- Partial writes: a failing `File::create`/`write_all` is modelled as no change. A truncated file is not modelled.
- `get_vaults_dir`, `ProjectDirs` and `create_dir_all` (`src/vault_file_manager.rs:144-162`): the directory's location is outside the model. Its failure makes each store operation return IoError first; that is not modelled, except in `ListVaults` and `CheckVaultsExist`, whose listing is None when the directory cannot be read.
- `VaultFile.DeleteVaultFile`: does not model the IoError that a failing `get_vaults_dir` gives before the existence test (`src/vault_file_manager.rs:130-131`); the same holds for `VaultFile.InitializeVault`, `VaultFile.OpenVault`, `VaultFile.CloseVault` and `VaultFile.VaultExists`, because the directory's location is outside the model.
- `ensure_vault_open` (`src/vault_manager.rs:281-315`): it prompts on standard input and prints.
- The legacy `check_vaults_exist` (`src/vault_manager.rs:317-328`): it repeats `VaultFile.CheckVaultsExist`.
- `list_entries` (`src/vault_manager.rs:137-139`): it only prints.
- `Vault::get_name`: it only returns a field.
- `get_entries` and the entry getters: they only return a field of the datatype.
- `VaultEntry.Vault.GetEntryByName`: returns a copy of the entry, not the `&mut` reference the source returns. Changing an entry in place through that reference is not modelled; `Entry`'s setters return the changed copy.
- `VaultManager.Vault.GetEntryByName`: same as above: a copy, not a mutable reference into the vault. The same holds for both `GetEntryByEntry` members.
- `VaultManager.Vault.Close`: the source consumes the vault. The model keeps the object and states that its key is cleared.
- Concurrency: the shared `Arc<Mutex<...>>` and the thread per HTTP request are not modelled; no auto-lock monitor appears in the code. The handler receives what the lock yields, poisoned included. The native host's recovery from a poisoned lock reads the inner value, so it is the same as a normal lock.
- The HTTP server loop and the `respond`/`read_to_end` I/O errors of `src/extension_server.rs:7-30, 39, 46, 53, 81`: I/O failures of the transport are not modelled.
- The `Content-Type` header construction error (`src/extension_server.rs:75-79`): it cannot fail for the constant header used.
- The `eprintln!` diagnostics and the ignored result of `send_message`: ignoring the result does not change the bytes the host writes. Failing writes to standard output (`src/native_host.rs:39-41`) are not modelled; every reply is written whole.
- `NativeHost.Frame`: the u32 truncation of the length is written out, but the round trip is proved only for bodies within the 1 MiB cap.
- The CLI (`src/cli.rs`, `src/main.rs`) and the browser extension scripts: they are not part of the core.
