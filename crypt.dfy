/** The encrypt and decrypt pipelines (src/crypt.rs). Each is a fixed
    sequence of fallible steps; here a step that would end the process
    (`exit(0)`, a failed `unwrap`) ends the run with an error instead. The
    password prompt, the file contents, the random salt and IV and the set of
    existing paths are inputs. Argon2id and AES-256-CBC are parameters, and
    each run records the effects it performed, in order, so that what was
    called with which arguments can be stated. */
module Crypt {
  import opened Base
  import opened Headers
  import opened Files

  const CIPHER: string := "AES"
  const KEY_SIZE: u32 := 32
  const MODE: string := "CBC"
  const KDF: string := "Argon2id"

  /** Argon2id cost defaults (src/argon2.rs): memory, iterations, lanes. */
  const DEFAULT_M_COST: u32 := 4096
  const DEFAULT_T_COST: u32 := 100
  const DEFAULT_P_COST: u32 := 16

  /** The key length both pipelines ask the KDF for. */
  const KEY_LEN: nat := 32

  /** `argon2::generate_key(m_cost, t_cost, p_cost, output_len, password,
      salt)`: `None` when the parameters are rejected or hashing fails. */
  type Kdf = (u32, u32, u32, nat, seq<byte>, seq<byte>) -> Option<seq<byte>>

  /** `aes::encrypt(plaintext, key, iv)` / `aes::decrypt(ciphertext, key, iv)`:
      `None` on a bad key or IV length, or on invalid padding when opening. */
  type Cipher = (seq<byte>, seq<byte>, seq<byte>) -> Option<seq<byte>>

  /** The external collaborators the pipelines call. */
  datatype Primitives = Primitives(
    sha3: Sha3,
    semver: SemverParse,
    toJson: JsonEncode,
    fromJson: JsonDecode,
    kdf: Kdf,
    seal: Cipher,
    open: Cipher)

  /** Opening what was sealed under the same key and IV gives the plaintext. */
  ghost predicate CipherRoundTrips(seal: Cipher, open: Cipher) {
    forall plain, key, iv :: seal(plain, key, iv).Some? ==> open(seal(plain, key, iv).value, key, iv) == Some(plain)
  }

  /** An effect a run performed. */
  datatype Event =
    | AskPassword
    | ReadInput
    | VersionGate
    | IntegrityGate
    | DeriveKey(mCost: u32, tCost: u32, pCost: u32, keyLen: nat, salt: seq<byte>)
    | Encipher(iv: seq<byte>)
    | Decipher(iv: seq<byte>)
    | WriteOutput(path: string)

  datatype Failure =
    | LoadFailed(cause: LoadError)
    | UnsupportedVersion
    | IntegrityFailure
    | KeyDerivationFailed
    | EncryptionFailed
    | DecryptionFailed

  /** A file the run wrote: its path and its bytes. */
  datatype Written = Written(path: string, bytes: seq<byte>)

  datatype Run = Run(trace: seq<Event>, outcome: Result<Written, Failure>)

  predicate Wrote(trace: seq<Event>) {
    exists e :: e in trace && e.WriteOutput?
  }

  /** The extension of encrypted files: the application name in lower case. */
  function EncryptedExtension(app: App): string {
    Lower(app.name)
  }

  /** Where `encrypt` writes: the first free name among `input.ext`,
      `input(1).ext`, ... */
  function EncryptOutputName(existing: set<string>, app: App, inputFile: string): (name: string)
    ensures name !in existing
    ensures HasSuffix(name, "." + EncryptedExtension(app))
    ensures inputFile + "." + EncryptedExtension(app) !in existing ==> name == inputFile + "." + EncryptedExtension(app)
  {
    var ext := EncryptedExtension(app);
    CandidateHasExtension(inputFile, ext, FirstFree(existing, inputFile, Some(ext), 0));
    assert inputFile + "." + ext == inputFile + Extension(Some(ext));
    UniqueFileName(existing, inputFile, Some(ext))
  }

  /** Where `decrypt` writes: the input name without a trailing `.ext`, made
      unique. */
  function DecryptOutputName(existing: set<string>, app: App, inputFile: string): (name: string)
    ensures name !in existing
    ensures StripSuffix(inputFile, "." + EncryptedExtension(app)) !in existing ==>
              name == StripSuffix(inputFile, "." + EncryptedExtension(app))
  {
    var base := StripSuffix(inputFile, "." + EncryptedExtension(app));
    UniqueFileNameIsFirstAbsent(existing, base, None);
    assert base + "" == base;
    UniqueFileName(existing, base, None)
  }

  /** The steps of a successful encryption, in order. */
  function EncryptPlan(salt: seq<byte>, iv: seq<byte>, output: string): seq<Event> {
    [AskPassword, ReadInput, DeriveKey(DEFAULT_M_COST, DEFAULT_T_COST, DEFAULT_P_COST, KEY_LEN, salt),
     Encipher(iv), WriteOutput(output)]
  }

  /** The steps of a successful decryption of a file with header `h`: both
      gates come before the password prompt and the key derivation, which
      uses the header's costs and salt; the cipher uses the header's IV. */
  function DecryptPlan(h: Header, output: string): seq<Event> {
    [ReadInput, VersionGate, IntegrityGate, AskPassword,
     DeriveKey(h.mCost, h.tCost, h.pCost, KEY_LEN, h.salt), Decipher(h.iv), WriteOutput(output)]
  }

  /** `encrypt` gets through key derivation and sealing: the KDF yields a
      key for the default costs and the salt, and the cipher seals under it. */
  predicate EncryptSucceeds(p: Primitives, password: string, contents: seq<byte>, salt: seq<byte>, iv: seq<byte>) {
    match p.kdf(DEFAULT_M_COST, DEFAULT_T_COST, DEFAULT_P_COST, KEY_LEN, Utf8(password), salt)
    case None => false
    case Some(key) => p.seal(contents, key, iv).Some?
  }

  /** The header `encrypt` writes. */
  function EncryptHeader(app: App, sha3: Sha3, salt: seq<byte>, iv: seq<byte>): Header {
    New(app, sha3, CIPHER, KEY_SIZE, MODE, KDF, DEFAULT_M_COST, DEFAULT_T_COST, DEFAULT_P_COST, salt, iv)
  }

  /** `encrypt`: prompt for a password, read the plaintext, derive a key from
      the password and the fresh salt, seal under the fresh IV, build the
      header from exactly those parameters and write header and ciphertext to
      a name that does not exist yet. */
  function Encrypt(app: App, p: Primitives, existing: set<string>, inputFile: string,
                   password: string, contents: seq<byte>, salt: seq<byte>, iv: seq<byte>): (run: Run)
    ensures run.trace <= EncryptPlan(salt, iv, EncryptOutputName(existing, app, inputFile))
    ensures run.outcome.Ok? <==> run.trace == EncryptPlan(salt, iv, EncryptOutputName(existing, app, inputFile))
    ensures run.outcome.Ok? <==> EncryptSucceeds(p, password, contents, salt, iv)
    ensures run.outcome == Err(KeyDerivationFailed) <==>
              p.kdf(DEFAULT_M_COST, DEFAULT_T_COST, DEFAULT_P_COST, KEY_LEN, Utf8(password), salt).None?
    ensures run.outcome == Err(EncryptionFailed) <==>
              p.kdf(DEFAULT_M_COST, DEFAULT_T_COST, DEFAULT_P_COST, KEY_LEN, Utf8(password), salt).Some?
              && !EncryptSucceeds(p, password, contents, salt, iv)
    ensures run.outcome.Ok? ==> run.outcome.value.path == EncryptOutputName(existing, app, inputFile)
                                && run.outcome.value.path !in existing
  {
    var m, t, pc := DEFAULT_M_COST, DEFAULT_T_COST, DEFAULT_P_COST;
    var derive := DeriveKey(m, t, pc, KEY_LEN, salt);
    match p.kdf(m, t, pc, KEY_LEN, Utf8(password), salt)
    case None => Run([AskPassword, ReadInput, derive], Err(KeyDerivationFailed))
    case Some(key) =>
      match p.seal(contents, key, iv)
      case None => Run([AskPassword, ReadInput, derive, Encipher(iv)], Err(EncryptionFailed))
      case Some(ciphertext) =>
        var header := EncryptHeader(app, p.sha3, salt, iv);
        var output := EncryptOutputName(existing, app, inputFile);
        Run([AskPassword, ReadInput, derive, Encipher(iv), WriteOutput(output)],
            Ok(Written(output, SaveEncrypted(p.toJson, header, ciphertext))))
  }

  /** `decrypt` gets through the gates, key derivation and opening: the
      header's version is supported, its digest matches, the KDF yields a key
      for the header's costs and salt, and the cipher opens under it with the
      header's IV. */
  predicate DecryptSucceeds(app: App, p: Primitives, h: Header, ciphertext: seq<byte>, password: string) {
    && IsSupported(h, app, p.semver)
    && CheckIntegrity(h, p.sha3)
    && match p.kdf(h.mCost, h.tCost, h.pCost, KEY_LEN, Utf8(password), h.salt)
       case None => false
       case Some(key) => p.open(ciphertext, key, h.iv).Some?
  }

  /** `decrypt` after the container has been loaded into `h` and
      `ciphertext`: refuse an unsupported version, then a header whose
      digest does not match, and only then prompt for the password, derive
      the key from the header's costs and salt, open the ciphertext with the
      header's IV and write the plaintext. */
  function DecryptLoaded(app: App, p: Primitives, existing: set<string>, inputFile: string,
                         h: Header, ciphertext: seq<byte>, password: string): (run: Run)
    ensures run.trace <= DecryptPlan(h, DecryptOutputName(existing, app, inputFile))
    ensures run.outcome.Ok? <==> run.trace == DecryptPlan(h, DecryptOutputName(existing, app, inputFile))
    ensures run.outcome.Ok? <==> DecryptSucceeds(app, p, h, ciphertext, password)
    ensures run.outcome == Err(UnsupportedVersion) ==> |run.trace| == 2
    ensures run.outcome == Err(IntegrityFailure) ==> |run.trace| == 3
    ensures run.outcome == Err(KeyDerivationFailed) ==> |run.trace| == 5
    ensures run.outcome == Err(DecryptionFailed) ==> |run.trace| == 6
    ensures run.outcome == Err(UnsupportedVersion) <==> !IsSupported(h, app, p.semver)
    ensures run.outcome == Err(IntegrityFailure) <==> IsSupported(h, app, p.semver) && !CheckIntegrity(h, p.sha3)
    ensures AskPassword in run.trace ==> IsSupported(h, app, p.semver) && CheckIntegrity(h, p.sha3)
    ensures run.outcome == Err(KeyDerivationFailed) <==>
              IsSupported(h, app, p.semver) && CheckIntegrity(h, p.sha3)
              && p.kdf(h.mCost, h.tCost, h.pCost, KEY_LEN, Utf8(password), h.salt).None?
    ensures run.outcome == Err(DecryptionFailed) <==>
              IsSupported(h, app, p.semver) && CheckIntegrity(h, p.sha3)
              && var key := p.kdf(h.mCost, h.tCost, h.pCost, KEY_LEN, Utf8(password), h.salt);
                 key.Some? && p.open(ciphertext, key.value, h.iv).None?
    ensures run.outcome.Ok? ==>
              var key := p.kdf(h.mCost, h.tCost, h.pCost, KEY_LEN, Utf8(password), h.salt);
              key.Some? && p.open(ciphertext, key.value, h.iv) == Some(run.outcome.value.bytes)
    ensures run.outcome.Ok? ==> run.outcome.value.path == DecryptOutputName(existing, app, inputFile)
                                && run.outcome.value.path !in existing
  {
    if !IsSupported(h, app, p.semver) then
      Run([ReadInput, VersionGate], Err(UnsupportedVersion))
    else if !CheckIntegrity(h, p.sha3) then
      Run([ReadInput, VersionGate, IntegrityGate], Err(IntegrityFailure))
    else
      var m, t, pc, salt := h.mCost, h.tCost, h.pCost, h.salt;
      var gated := [ReadInput, VersionGate, IntegrityGate, AskPassword, DeriveKey(m, t, pc, KEY_LEN, salt)];
      match p.kdf(m, t, pc, KEY_LEN, Utf8(password), salt)
      case None => Run(gated, Err(KeyDerivationFailed))
      case Some(key) =>
        var iv := h.iv;
        match p.open(ciphertext, key, iv)
        case None => Run(gated + [Decipher(iv)], Err(DecryptionFailed))
        case Some(plaintext) =>
          var output := DecryptOutputName(existing, app, inputFile);
          Run(gated + [Decipher(iv), WriteOutput(output)], Ok(Written(output, plaintext)))
  }

  /** `decrypt` on the bytes `stored` of the input file: a container that
      does not load ends the run after reading it with the load error. For a
      loaded header `h` and ciphertext, the steps follow the decryption plan
      and stop at the first failure, the gates decide the first two
      failures, the password is asked only once both gates pass, the run
      succeeds exactly when the gates, key derivation and opening all do, and
      what is written is the ciphertext opened with the header's IV under the key
      derived from the password with the header's costs and salt. */
  function Decrypt(app: App, p: Primitives, existing: set<string>, inputFile: string,
                   stored: seq<byte>, password: string): (run: Run)
    ensures LoadEncrypted(stored, p.fromJson).Err? ==>
              run == Run([ReadInput], Err(LoadFailed(LoadEncrypted(stored, p.fromJson).error)))
    ensures LoadEncrypted(stored, p.fromJson).Ok? ==>
              var (h, ciphertext) := LoadEncrypted(stored, p.fromJson).value;
              var output := DecryptOutputName(existing, app, inputFile);
              var key := p.kdf(h.mCost, h.tCost, h.pCost, KEY_LEN, Utf8(password), h.salt);
              && run.trace <= DecryptPlan(h, output)
              && (run.outcome.Ok? <==> run.trace == DecryptPlan(h, output))
              && (run.outcome.Ok? <==> DecryptSucceeds(app, p, h, ciphertext, password))
              && (run.outcome == Err(UnsupportedVersion) ==> |run.trace| == 2)
              && (run.outcome == Err(IntegrityFailure) ==> |run.trace| == 3)
              && (run.outcome == Err(KeyDerivationFailed) ==> |run.trace| == 5)
              && (run.outcome == Err(DecryptionFailed) ==> |run.trace| == 6)
              && (run.outcome == Err(UnsupportedVersion) <==> !IsSupported(h, app, p.semver))
              && (run.outcome == Err(IntegrityFailure) <==>
                    IsSupported(h, app, p.semver) && !CheckIntegrity(h, p.sha3))
              && (AskPassword in run.trace ==> IsSupported(h, app, p.semver) && CheckIntegrity(h, p.sha3))
              && (run.outcome == Err(KeyDerivationFailed) <==>
                    IsSupported(h, app, p.semver) && CheckIntegrity(h, p.sha3) && key.None?)
              && (run.outcome == Err(DecryptionFailed) <==>
                    && IsSupported(h, app, p.semver) && CheckIntegrity(h, p.sha3)
                    && key.Some? && p.open(ciphertext, key.value, h.iv).None?)
              && (run.outcome.Ok? ==>
                    && key.Some? && p.open(ciphertext, key.value, h.iv) == Some(run.outcome.value.bytes)
                    && run.outcome.value.path == output && output !in existing)
  {
    match LoadEncrypted(stored, p.fromJson)
    case Err(e) => Run([ReadInput], Err(LoadFailed(e)))
    case Ok((h, ciphertext)) => DecryptLoaded(app, p, existing, inputFile, h, ciphertext, password)
  }

  /** The container `encrypt` writes loads back into a header that records
      the application, the fixed algorithm names and costs, and exactly the
      salt and IV the run gave to the KDF and the cipher; that header passes
      the integrity check. */
  lemma EncryptRecordsParameters(app: App, p: Primitives, existing: set<string>, inputFile: string,
                                 password: string, contents: seq<byte>, salt: seq<byte>, iv: seq<byte>)
    requires JsonRoundTrips(p.toJson, p.fromJson)
    requires JsonSingleLine(p.toJson)
    requires EncryptSucceeds(p, password, contents, salt, iv)
    ensures var run := Encrypt(app, p, existing, inputFile, password, contents, salt, iv);
            var loaded := LoadEncrypted(run.outcome.value.bytes, p.fromJson);
            && loaded.Ok?
            && var h := loaded.value.0;
            && h.app == app.name && h.version == app.version
            && h.cipher == "AES" && h.keySize == 32 && h.mode == "CBC" && h.kdf == "Argon2id"
            && h.mCost == 4096 && h.tCost == 100 && h.pCost == 16
            && h.salt == salt && h.iv == iv
            && DeriveKey(h.mCost, h.tCost, h.pCost, KEY_LEN, h.salt) in run.trace
            && Encipher(h.iv) in run.trace
            && CheckIntegrity(h, p.sha3)
  {
    var run := Encrypt(app, p, existing, inputFile, password, contents, salt, iv);
    var key := p.kdf(DEFAULT_M_COST, DEFAULT_T_COST, DEFAULT_P_COST, KEY_LEN, Utf8(password), salt).value;
    var ciphertext := p.seal(contents, key, iv).value;
    var header := EncryptHeader(app, p.sha3, salt, iv);
    SaveLoadRoundTrip(p.toJson, p.fromJson, header, ciphertext);
    assert run.outcome.value.bytes == SaveEncrypted(p.toJson, header, ciphertext);
  }

  /** Decrypting, with the same password, the container that `encrypt` wrote
      gives back the original contents: the header carries the costs, salt
      and IV, the KDF is deterministic, and opening undoes sealing. */
  lemma EncryptDecryptRoundTrip(app: App, p: Primitives, existing: set<string>, existing': set<string>,
                                inputFile: string, password: string, contents: seq<byte>,
                                salt: seq<byte>, iv: seq<byte>)
    requires CipherRoundTrips(p.seal, p.open)
    requires JsonRoundTrips(p.toJson, p.fromJson)
    requires JsonSingleLine(p.toJson)
    requires p.semver(app.version).Some?
    requires EncryptSucceeds(p, password, contents, salt, iv)
    ensures var w := Encrypt(app, p, existing, inputFile, password, contents, salt, iv).outcome.value;
            Decrypt(app, p, existing', w.path, w.bytes, password).outcome
              == Ok(Written(DecryptOutputName(existing', app, w.path), contents))
  {
    var w := Encrypt(app, p, existing, inputFile, password, contents, salt, iv).outcome.value;
    var key := p.kdf(DEFAULT_M_COST, DEFAULT_T_COST, DEFAULT_P_COST, KEY_LEN, Utf8(password), salt).value;
    var ciphertext := p.seal(contents, key, iv).value;
    var header := EncryptHeader(app, p.sha3, salt, iv);
    SaveLoadRoundTrip(p.toJson, p.fromJson, header, ciphertext);
    assert w.bytes == SaveEncrypted(p.toJson, header, ciphertext);
    OwnVersionSupported(header, app, p.semver);
  }

  /** Stripping the extension from the name `encrypt` chose gives the input
      name, with the same `(n)` counter when the plain name was taken. */
  lemma DecryptNameUndoesEncryptName(existing: set<string>, app: App, inputFile: string)
    ensures exists k: nat :: EncryptOutputName(existing, app, inputFile) == Candidate(inputFile, Some(EncryptedExtension(app)), k)
                             && StripSuffix(EncryptOutputName(existing, app, inputFile), "." + EncryptedExtension(app))
                                == Candidate(inputFile, None, k)
  {
    var ext := EncryptedExtension(app);
    var k := FirstFree(existing, inputFile, Some(ext), 0);
    var stem := if k == 0 then inputFile else inputFile + "(" + Decimal(k) + ")";
    assert Candidate(inputFile, Some(ext), k) == stem + ("." + ext);
    StripAppendedSuffix(stem, "." + ext);
  }

  /** The plan's only write is its last step. */
  predicate WritesLast(plan: seq<Event>) {
    && plan != [] && plan[|plan| - 1].WriteOutput?
    && forall i :: 0 <= i < |plan| - 1 ==> !plan[i].WriteOutput?
  }

  /** Both plans write only at their end. */
  lemma PlansWriteLast(salt: seq<byte>, iv: seq<byte>, h: Header, output: string)
    ensures WritesLast(EncryptPlan(salt, iv, output)) && WritesLast(DecryptPlan(h, output))
  {
  }

  /** Every event of a prefix of a plan is an event of the plan. */
  lemma PrefixEventsInPlan(trace: seq<Event>, plan: seq<Event>)
    requires trace <= plan
    ensures forall e :: e in trace ==> e in plan
  {
    assert forall i :: 0 <= i < |trace| ==> trace[i] == plan[i];
  }

  /** A prefix of a plan whose only write is its last step writes exactly
      when it is the whole plan. */
  lemma PrefixWritesOnlyWhenComplete(trace: seq<Event>, plan: seq<Event>)
    requires trace <= plan && WritesLast(plan)
    ensures Wrote(trace) <==> trace == plan
  {
    if Wrote(trace) {
      var e :| e in trace && e.WriteOutput?;
      var i :| 0 <= i < |trace| && trace[i] == e;
      assert plan[i] == e;
    }
    if trace == plan {
      assert plan[|plan| - 1] in trace;
    }
  }

  /** No partial output: `encrypt` writes a file exactly when every step
      before the write succeeded, and the write is its last step. */
  lemma EncryptWritesOnlyOnSuccess(app: App, p: Primitives, existing: set<string>, inputFile: string,
                                   password: string, contents: seq<byte>, salt: seq<byte>, iv: seq<byte>)
    ensures var run := Encrypt(app, p, existing, inputFile, password, contents, salt, iv);
            && (Wrote(run.trace) <==> run.outcome.Ok?)
            && (run.outcome.Ok? ==> run.trace[|run.trace| - 1] == WriteOutput(run.outcome.value.path))
  {
    var run := Encrypt(app, p, existing, inputFile, password, contents, salt, iv);
    var output := EncryptOutputName(existing, app, inputFile);
    PlansWriteLast(salt, iv, EncryptHeader(app, p.sha3, salt, iv), output);
    PrefixWritesOnlyWhenComplete(run.trace, EncryptPlan(salt, iv, output));
  }

  /** No partial output: `decrypt` writes a file exactly when every step
      before the write succeeded, and the write is its last step. */
  lemma DecryptWritesOnlyOnSuccess(app: App, p: Primitives, existing: set<string>, inputFile: string,
                                   stored: seq<byte>, password: string)
    ensures var run := Decrypt(app, p, existing, inputFile, stored, password);
            && (Wrote(run.trace) <==> run.outcome.Ok?)
            && (run.outcome.Ok? ==> run.trace[|run.trace| - 1] == WriteOutput(run.outcome.value.path))
  {
    var run := Decrypt(app, p, existing, inputFile, stored, password);
    var loaded := LoadEncrypted(stored, p.fromJson);
    if loaded.Ok? {
      var h, output := loaded.value.0, DecryptOutputName(existing, app, inputFile);
      PlansWriteLast([], [], h, output);
      PrefixWritesOnlyWhenComplete(run.trace, DecryptPlan(h, output));
    } else {
      assert run.trace == [ReadInput];
    }
  }

  /** The gates are hard: when the version or the integrity check fails,
      `decrypt` stops with that failure before asking for the password,
      deriving a key, calling the cipher or writing anything. */
  lemma DecryptGatesStopRun(app: App, p: Primitives, existing: set<string>, inputFile: string,
                            h: Header, ciphertext: seq<byte>, password: string)
    requires !IsSupported(h, app, p.semver) || !CheckIntegrity(h, p.sha3)
    ensures var run := DecryptLoaded(app, p, existing, inputFile, h, ciphertext, password);
            && (!IsSupported(h, app, p.semver) ==> run.outcome == Err(UnsupportedVersion))
            && (IsSupported(h, app, p.semver) && !CheckIntegrity(h, p.sha3) ==> run.outcome == Err(IntegrityFailure))
            && forall e :: e in run.trace ==> e in [ReadInput, VersionGate, IntegrityGate]
  {
    var run := DecryptLoaded(app, p, existing, inputFile, h, ciphertext, password);
    var plan := DecryptPlan(h, DecryptOutputName(existing, app, inputFile));
    assert |run.trace| <= 3;
    assert forall i :: 0 <= i < |run.trace| ==> run.trace[i] == plan[i];
  }

  /** A failed `encrypt` run performs its plan up to and including the
      failing step and nothing after it: it stops right after the KDF call
      when no key comes back, and right after the seal when sealing fails. */
  lemma EncryptStopsAtFailure(app: App, p: Primitives, existing: set<string>, inputFile: string,
                              password: string, contents: seq<byte>, salt: seq<byte>, iv: seq<byte>)
    ensures var run := Encrypt(app, p, existing, inputFile, password, contents, salt, iv);
            var plan := EncryptPlan(salt, iv, EncryptOutputName(existing, app, inputFile));
            && (run.outcome == Err(KeyDerivationFailed) ==> run.trace == plan[..3])
            && (run.outcome == Err(EncryptionFailed) ==> run.trace == plan[..4])
  {
    var run := Encrypt(app, p, existing, inputFile, password, contents, salt, iv);
    var key := p.kdf(DEFAULT_M_COST, DEFAULT_T_COST, DEFAULT_P_COST, KEY_LEN, Utf8(password), salt);
    if key.None? {
      assert |run.trace| == 3;
    } else if p.seal(contents, key.value, iv).None? {
      assert |run.trace| == 4;
    }
    PrefixIsSlice(run.trace, EncryptPlan(salt, iv, EncryptOutputName(existing, app, inputFile)));
  }

  /** A failed `decrypt` run on a loaded header performs its plan up to and
      including the failing step and nothing after it: it stops right after
      the gate that refused the header, the KDF call or the cipher call. */
  lemma DecryptStopsAtFailure(app: App, p: Primitives, existing: set<string>, inputFile: string,
                              h: Header, ciphertext: seq<byte>, password: string)
    ensures var run := DecryptLoaded(app, p, existing, inputFile, h, ciphertext, password);
            var plan := DecryptPlan(h, DecryptOutputName(existing, app, inputFile));
            && (run.outcome == Err(UnsupportedVersion) ==> run.trace == plan[..2])
            && (run.outcome == Err(IntegrityFailure) ==> run.trace == plan[..3])
            && (run.outcome == Err(KeyDerivationFailed) ==> run.trace == plan[..5])
            && (run.outcome == Err(DecryptionFailed) ==> run.trace == plan[..6])
  {
    var run := DecryptLoaded(app, p, existing, inputFile, h, ciphertext, password);
    PrefixIsSlice(run.trace, DecryptPlan(h, DecryptOutputName(existing, app, inputFile)));
  }

  /** A prefix of a plan is the plan cut at the prefix's length. */
  lemma PrefixIsSlice(trace: seq<Event>, plan: seq<Event>)
    requires trace <= plan
    ensures trace == plan[..|trace|]
  {
  }

  /** Every key derivation and cipher call in a prefix of the decryption
      plan for `h` uses the header's costs, salt and IV. */
  lemma PlanUsesHeaderParameters(h: Header, output: string, trace: seq<Event>)
    requires trace <= DecryptPlan(h, output)
    ensures forall e :: e in trace ==>
              (e.DeriveKey? ==> e == DeriveKey(h.mCost, h.tCost, h.pCost, 32, h.salt))
              && (e.Decipher? ==> e.iv == h.iv)
  {
    PrefixEventsInPlan(trace, DecryptPlan(h, output));
  }

  /** Of the header, only the costs, the salt and the IV reach the KDF and
      the cipher: the key size, cipher, mode and KDF names it records are
      never consulted, so two headers that agree on those values and both
      decrypt successfully write the same file. Every key derivation and
      cipher call the run records carries those header values. */
  lemma DecryptUsesHeaderParameters(app: App, p: Primitives, existing: set<string>, inputFile: string,
                                    h: Header, h': Header, ciphertext: seq<byte>, password: string)
    requires h.mCost == h'.mCost && h.tCost == h'.tCost && h.pCost == h'.pCost
    requires h.salt == h'.salt && h.iv == h'.iv
    ensures var run := DecryptLoaded(app, p, existing, inputFile, h, ciphertext, password);
            var run' := DecryptLoaded(app, p, existing, inputFile, h', ciphertext, password);
            && (run.outcome.Ok? && run'.outcome.Ok? ==> run.outcome.value == run'.outcome.value)
            && forall e :: e in run.trace ==>
                 (e.DeriveKey? ==> e == DeriveKey(h.mCost, h.tCost, h.pCost, 32, h.salt))
                 && (e.Decipher? ==> e.iv == h.iv)
  {
    var run := DecryptLoaded(app, p, existing, inputFile, h, ciphertext, password);
    PlanUsesHeaderParameters(h, DecryptOutputName(existing, app, inputFile), run.trace);
  }
}
