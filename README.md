# crypt: container header, framing and pipeline, in Dafny

This project models the core of `crypt`, a single-file encryption tool
written in Rust. The tool turns a file into a self-describing container:
a JSON header, one newline byte, then AES-256-CBC ciphertext. The key is
derived from a password with Argon2id. The model has four modules, one per
source concern:

- `Base` (`base.dfy`): Rust's `u8`/`u32` types, `u32::to_be_bytes` and its
  inverse, `str::as_bytes` (UTF-8), ASCII `to_lowercase` and `strip_suffix`.
- `Headers` (`header.dfy`, src/header.rs): the `Header` record. It covers
  `Header::new`, the canonical byte stream that `calculate_hash` feeds to
  SHA3-256 (with the incremental hasher as a small class),
  `check_integrity` and the `is_supported` version gate.
- `Files` (`file.dfy`, src/file.rs): the container codec (`save_encrypted`, and
  `load_encrypted`'s split at the first newline) and
  `get_unique_file_name`. That function is a method with its `while` loop,
  proved equal to "the first absent name among `base.ext`, `base(1).ext`,
  `base(2).ext`, ...".
- `Crypt` (`crypt.dfy`, src/crypt.rs): `encrypt` and `decrypt` as functions.
  Each returns the outcome and the ordered list of effects it performed:
  the password prompt, the input read, each gate, the KDF call with its
  arguments, the cipher call with its IV, and the output write.

External pieces are parameters of the operations that use them:

- SHA3-256
- `semver::Version::parse`
- `serde_json` encoding and decoding
- Argon2id key derivation
- AES-CBC sealing and opening

What the lemmas assume of them is written as their `requires`:

- opening undoes sealing (`CipherRoundTrips`)
- JSON decoding undoes encoding (`JsonRoundTrips`)
- the JSON text has no newline (`JsonSingleLine`)
- the application's own version parses

The KDF is deterministic because it is a mathematical function.
`APP_NAME` and `APP_VERSION` are set by Cargo at build time, and Cargo.toml
is not part of this model, so they are an `App` parameter. Existing paths
are a finite set of names. The plaintext, the container bytes, the
password, the random salt and the random IV are inputs.

Facts about the code that the model keeps:

- `key_size` is stored as 32, the key length in bytes.
- The container is the header JSON, one `\n` byte, then the ciphertext.
- The digest is taken over field values run together with no separators.
  So moving bytes across the salt/IV boundary, or characters across the
  mode/KDF boundary, keeps a header valid. `SaltIvBoundaryUndetected` and
  `ModeKdfBoundaryUndetected` show this. The `u32` fields are fixed-width,
  so they cannot be shifted by changing only two adjacent fields
  (`FixedWidthFieldsBound`). Changing three fields together can still
  shift them: cipher "AES", key size 32, mode "CBC" and cipher "AE", key
  size 0x53000000, mode " CBC" hash the same bytes.
- In `decrypt`, only the header's costs, salt and IV reach the KDF and the
  cipher. The other fields matter only to the two gates: `is_supported`
  reads the version, and `check_integrity` hashes every field except the
  digest and compares the result with the digest.
- Every failure in the pipeline becomes an error result of the model. In
  the program they end the process in two different ways:
  - `exit(0)` ends it with status 0. This happens when a gate fails
    (src/crypt.rs:39, 45), when `save_unencrypted` returns an error
    (src/crypt.rs:64), and when AES decryption reports a padding error
    (src/aes.rs:32). The `exit(0)` at src/crypt.rs:28 cannot be reached:
    `save_encrypted` only ever returns `Ok(())` (src/file.rs:16-23).
  - A panic ends it with status 101. The `unwrap` on `generate_key`
    (src/crypt.rs:20, 53) panics on a hashing error, and `Params::new`
    panics on invalid costs (src/argon2.rs:17-19). The `unwrap` on
    `aes::encrypt` (src/crypt.rs:22) and on `aes::decrypt` (src/crypt.rs:55)
    panics on a bad key or IV length. The `unwrap` on `crypt::decrypt`
    (src/main.rs:25) panics when `load_encrypted` fails. When
    `save_encrypted` cannot create or write the file, its own `expect` and
    `unwrap` calls panic (src/file.rs:18-21).

## Model

| member | source | states |
|---|---|---|
| `Base.Be32RoundTrip` | src/header.rs:86-91 | reading back the four big-endian bytes of a `u32` gives the same value |
| `Base.FromBe32RoundTrip` | src/header.rs:86-91 | every 4-byte sequence is the big-endian encoding of the value it reads as |
| `Base.Be32Injective` | src/header.rs:86-91 | distinct `u32` fields contribute distinct 4-byte encodings |
| `Base.Utf8Newline` | src/file.rs:17-20 | a string's UTF-8 bytes contain the newline byte exactly when the string contains `'\n'` |
| `Base.StripSuffix` | src/crypt.rs:58 | with the suffix present the result followed by the suffix is the input; otherwise the input is returned unchanged |
| `Base.StripAppendedSuffix` | src/crypt.rs:58 | stripping a suffix from a name that was extended with it gives the name back |
| `Headers.CalculateHash` | src/header.rs:81-96 | feeding app, version, cipher, BE32(key_size), mode, kdf, BE32(m/t/p costs), salt, iv one `update` at a time yields SHA3-256 of their concatenation in that order, integrity excluded |
| `Headers.Sha3Hasher.constructor` | src/header.rs:82 | a fresh hasher has absorbed nothing |
| `Headers.Sha3Hasher.Update` | src/header.rs:83-93 | each `update` appends its bytes to what the hasher has absorbed and changes nothing else |
| `Headers.CheckIntegrity` | src/header.rs:98-101 | passes exactly when the stored digest equals SHA3 of the canonical bytes of the header with the digest left out; with a 32-byte SHA3 only a 32-byte stored digest can pass |
| `Headers.New` | src/header.rs:24-42 | the header is stamped with the application's name and version, copies every argument unchanged, passes `check_integrity`, and carries a 32-byte digest when SHA3 yields 32 bytes |
| `Headers.IntegrityDependsOnlyOnCanonicalBytes` | src/header.rs:98-101 | two headers with the same concatenated field bytes and the same stored digest pass or fail the integrity check together |
| `Headers.SaltIvBoundaryUndetected` | src/header.rs:92-93 | moving the last salt byte to the front of the IV keeps a valid header valid |
| `Headers.ModeKdfBoundaryUndetected` | src/header.rs:87-88 | moving the last character of the mode to the front of the KDF name keeps a valid header valid |
| `Headers.FixedWidthFieldsBound` | src/header.rs:86-91 | headers equal in their text fields, salt and IV hash equal bytes only if key size and the three costs are equal |
| `Headers.TamperDetectedUnlessCollision` | src/header.rs:98-101 | a header changed while keeping a valid stored digest passes only if SHA3 gives the same digest for both canonical streams |
| `Headers.IsSupported` | src/header.rs:63-79 | false when either version fails to parse; true for the same major.minor whatever the patch |
| `Headers.IsSupportedIffMajorMinor` | src/header.rs:69-78 | supported exactly when both versions parse and (file.major, file.minor) is lexicographically at most (app.major, app.minor) |
| `Headers.NewerMajorMinorRejected` | src/header.rs:73-75 | a file from a higher major or minor release is rejected |
| `Headers.OwnVersionSupported` | src/header.rs:71-72 | a header stamped with the application's own version passes the gate when that version parses |
| `Headers.VersionLeTotalOrder` | src/header.rs:74 | release precedence (major, then minor, then patch) is reflexive, antisymmetric, transitive and total |
| `Files.Position` | src/file.rs:31 | returns the index of the first newline, with no newline before it, or nothing exactly when there is none |
| `Files.SplitHeader` | src/file.rs:31-35 | fails with the missing-header error exactly when the file has no newline; otherwise the file is header bytes ++ `\n` ++ body, with no newline in the header bytes |
| `Files.SaveEncrypted` | src/file.rs:16-23 | the file is the header's JSON text as UTF-8 bytes, then one newline byte, then the ciphertext unchanged |
| `Files.LoadEncrypted` | src/file.rs:25-42 | a file without a newline is refused as missing its header; when the first newline is at position n, the result is the malformed-header error if bytes 0..n do not decode, and otherwise the decoded header with every byte after position n as the body |
| `Files.SplitFramed` | src/file.rs:31-35 | splitting header bytes ++ `\n` ++ body gives back both parts exactly when the header bytes hold no newline, even when the body does |
| `Files.SaveLoadRoundTrip` | src/file.rs:16-41 | loading what `save_encrypted` writes gives back the same header and the ciphertext unchanged |
| `Files.DecimalRoundTrip` | src/file.rs:60-61 | the decimal counter printed into a name reads back as the same number |
| `Files.CandidateInjective` | src/file.rs:51-62 | different counters produce different names |
| `Files.CandidateSpelling` | src/file.rs:51-62 | the names built by the two `format!` calls are the candidates `base.ext` and `base(k).ext`, or `base` and `base(k)` |
| `Files.TriedGrows` | src/file.rs:58-64 | every name tried that exists takes one name out of the finite set still to be tried, so the loop ends |
| `Files.FirstFree` | src/file.rs:55-64 | the counter found does not exist and every counter before it names an existing file |
| `Files.UniqueFileNameIsFirstAbsent` | src/file.rs:50-66 | the chosen name does not exist and is the first absent name in the sequence `base.ext`, `base(1).ext`, ... |
| `Files.UniqueFileNameKeepsFreeName` | src/file.rs:51-58 | when `base.ext` (or `base`) does not exist it is the name returned |
| `Files.UniqueFileNameAt` | src/file.rs:58-66 | a counter whose name is free, with every earlier name taken, is the one whose name is returned |
| `Files.GetUniqueFileName` | src/file.rs:50-67 | the loop returns the first absent candidate |
| `Crypt.Encrypt` | src/crypt.rs:13-32 | the effects are a prefix of prompt, read, KDF with the default costs and fresh salt, seal with the fresh IV, write (where a failed run stops is `EncryptStopsAtFailure`); the run succeeds exactly when all happen, which is exactly when the KDF yields a key and sealing succeeds; it fails as a key-derivation failure exactly when the KDF fails, and as a sealing failure exactly when the KDF yields a key and sealing fails; the output name is `input.<app name in lower case>` made unique and never an existing path |
| `Crypt.EncryptOutputName` | src/crypt.rs:24 | the encrypted file's name is never an existing path and ends in `.<app name in lower case>`; it is `input.<app name in lower case>` when that name is free |
| `Crypt.DecryptOutputName` | src/crypt.rs:58-59 | the decrypted file's name is never an existing path; it is the input name with `.<app name in lower case>` stripped when that name is free |
| `Crypt.Decrypt` | src/crypt.rs:34-65 | a container that does not load ends the run after the read with the load error. For a loaded header and ciphertext, the effects are a prefix of the decryption plan and all of it exactly on success; a failed run stops right after the failing step (2, 3, 5 or 6 effects for the version gate, the integrity gate, the KDF call and the cipher call). It fails as unsupported exactly when the version gate fails, and as corrupted exactly when the version passes but the integrity check fails. The password is asked only after both gates pass. It fails as a key-derivation failure exactly when both gates pass and the KDF yields no key, and as a decryption failure exactly when it yields a key and opening fails. It succeeds exactly when both gates pass, the KDF yields a key and opening succeeds. On success the written bytes are the ciphertext opened with the header's IV under the key derived from the password with the header's costs and salt, and the path is the stripped input name made unique |
| `Crypt.DecryptLoaded` | src/crypt.rs:36-65 | the effects follow read, version gate, integrity gate, prompt, KDF with the header's costs and salt, open with the header's IV, write, and stop at the first failure: right after the version gate, the integrity gate, the KDF call or the cipher call (2, 3, 5 or 6 effects), whichever failed. The run fails as unsupported exactly when the version gate fails, and as corrupted exactly when the version passes but the integrity check fails. The password is asked only after both gates pass. It fails as a key-derivation failure exactly when both gates pass and the KDF with the header's costs and salt yields no key, and as a decryption failure exactly when it yields a key and opening with the header's IV fails. It succeeds exactly when every step happens, which is exactly when both gates pass, the KDF yields a key and opening succeeds; the written bytes are then what opening the ciphertext with the header's IV under that key gives, written to the input name without `.<app name in lower case>`, made unique |
| `Crypt.EncryptRecordsParameters` | src/crypt.rs:8-23 | the written container loads into a header with cipher "AES", key size 32, mode "CBC", kdf "Argon2id", costs 4096/100/16, and exactly the salt and IV the run passed to the KDF and the cipher; it passes the integrity check |
| `Crypt.EncryptDecryptRoundTrip` | src/crypt.rs:19-55 | decrypting the container that `encrypt` wrote, with the same password, writes back the original contents |
| `Crypt.DecryptNameUndoesEncryptName` | src/crypt.rs:24-58 | stripping the extension from the name `encrypt` chose gives the input name, with the same `(n)` counter |
| `Crypt.EncryptWritesOnlyOnSuccess` | src/crypt.rs:17-25 | `encrypt` writes a file exactly when it succeeds, and the write is its last effect |
| `Crypt.DecryptWritesOnlyOnSuccess` | src/crypt.rs:35-61 | `decrypt` writes a file exactly when it succeeds, and the write is its last effect |
| `Crypt.EncryptStopsAtFailure` | src/crypt.rs:20-22 | `encrypt` stops at the first failure: a failed run is its plan cut right after the KDF call when no key comes back, and right after the seal when sealing fails |
| `Crypt.DecryptStopsAtFailure` | src/crypt.rs:36-55 | `decrypt` stops at the first failure: a failed run on a loaded header is its plan cut right after the gate that refused it, the KDF call or the cipher call |
| `Crypt.DecryptGatesStopRun` | src/crypt.rs:36-46 | when either gate fails on a loaded header, decrypt fails with that gate's error and performs nothing beyond the read and the gates: no prompt, no KDF, no cipher call, no write |
| `Crypt.DecryptUsesHeaderParameters` | src/crypt.rs:49-55 | two headers that agree on the costs, salt and IV write the same file when both decrypt successfully, whatever key size, cipher, mode and KDF name they record; every key derivation uses the header's m/t/p costs and salt with a 32-byte output, and every cipher call uses the header's IV |

## Left out

- AES-256-CBC with PKCS#7 padding (src/aes.rs) is the `seal`/`open` parameter. Only "opening undoes sealing" is assumed.
- Wrong-password detection by the padding check is not modelled. It holds only with high probability.
- Argon2id (src/argon2.rs) is the `kdf` parameter. Invalid parameters (`Params::new` panic) and hashing errors both become `KeyDerivationFailed`.
- `generate_salt` and `generate_iv` use the OS random source, so the salt and IV are inputs.
- SHA3-256 is an uninterpreted parameter. Its streaming API is modelled as absorbing the concatenation of the updates.
- `serde_json` encoding and decoding and `semver` parsing are parameters.
- `Headers.VersionLe`: pre-release and build-metadata precedence are not modelled; versions are release triples of unbounded naturals rather than `u64`.
- Reading and writing files is not modelled: `load_unencrypted`, `save_unencrypted`, `File::create` and `write`, and the I/O errors `load_encrypted` propagates from `open` and `read`.
- The race between `exists()` and file creation is not modelled.
- `Header::print`, the `header` subcommand (src/main.rs), argument parsing (src/cli.rs) and console messages are left out.
- Password prompting (src/password.rs) is left out, including the confirmation check. The password is an input.
- Process termination (`exit(0)` and panics) is not modelled: each becomes an error result of the run.
- The header getters (`get_m_cost`, `get_salt`, ...) are the `Header` datatype's field selectors. Value semantics already give copies.
- `Base.Lower`: lowercases ASCII letters only, where Rust's `to_lowercase` covers all of Unicode.
- `Files.Decimal`: the counter in `get_unique_file_name` is an `i32` in Rust. Overflow after 2^31 - 1 collisions is not modelled.
