/** The container header (src/header.rs): the metadata record written in
    front of every ciphertext, its integrity digest over a fixed field order,
    and the version-compatibility gate. SHA3-256 and semver parsing are
    external, so they are parameters of the operations that use them. */
module Headers {
  import opened Base

  /** A parsed semantic version (release part only). */
  datatype Version = Version(major: nat, minor: nat, patch: nat)

  /** `semver::Version::parse`: `None` when the text is not a valid version. */
  type SemverParse = string -> Option<Version>

  /** SHA3-256 of a byte stream (FIPS 202), left uninterpreted. */
  type Sha3 = seq<byte> -> seq<byte>

  /** The digest always has 32 bytes. */
  ghost predicate Digest256(sha3: Sha3) {
    forall m :: |sha3(m)| == 32
  }

  /** The running application: `APP_NAME` and `APP_VERSION`, fixed by Cargo at
      build time. */
  datatype App = App(name: string, version: string)

  datatype Header = Header(
    app: string,
    version: string,
    cipher: string,
    keySize: u32,
    mode: string,
    kdf: string,
    mCost: u32,
    tCost: u32,
    pCost: u32,
    salt: seq<byte>,
    iv: seq<byte>,
    integrity: seq<byte>)

  // ---------------------------------------------------------------------
  // Integrity digest
  // ---------------------------------------------------------------------

  /** The bytes fed to the hasher, in order: text fields as their UTF-8
      bytes, `u32` fields as four big-endian bytes, `integrity` excluded.
      No separator or length marks where one field ends. */
  function CanonicalBytes(h: Header): seq<byte> {
    Utf8(h.app) + Utf8(h.version) + Utf8(h.cipher) + Be32(h.keySize)
    + Utf8(h.mode) + Utf8(h.kdf)
    + Be32(h.mCost) + Be32(h.tCost) + Be32(h.pCost)
    + h.salt + h.iv
  }

  /** `calculate_hash` as a value: SHA3-256 over the canonical bytes. */
  function Digest(h: Header, sha3: Sha3): seq<byte> {
    sha3(CanonicalBytes(h))
  }

  /** A SHA3-256 hasher object: `update` absorbs bytes, `finalize` digests
      everything absorbed so far. */
  class Sha3Hasher {
    const sha3: Sha3
    var absorbed: seq<byte>

    constructor (sha3: Sha3)
      ensures this.sha3 == sha3 && absorbed == []
    {
      this.sha3 := sha3;
      absorbed := [];
    }

    method Update(data: seq<byte>)
      modifies this
      ensures absorbed == old(absorbed) + data
    {
      absorbed := absorbed + data;
    }

    function Finalize(): seq<byte>
      reads this
    {
      sha3(absorbed)
    }
  }

  /** `calculate_hash`: feeds the fields to a fresh hasher one `update` at a
      time; the digest is SHA3-256 of the canonical concatenation. */
  method CalculateHash(h: Header, sha3: Sha3) returns (digest: seq<byte>)
    ensures digest == Digest(h, sha3)
  {
    var app, version, cipher := Utf8(h.app), Utf8(h.version), Utf8(h.cipher);
    var mode, kdf := Utf8(h.mode), Utf8(h.kdf);
    var hasher := new Sha3Hasher(sha3);
    hasher.Update(app);
    assert hasher.absorbed == app;
    hasher.Update(version);
    hasher.Update(cipher);
    hasher.Update(Be32(h.keySize));
    hasher.Update(mode);
    hasher.Update(kdf);
    hasher.Update(Be32(h.mCost));
    hasher.Update(Be32(h.tCost));
    hasher.Update(Be32(h.pCost));
    hasher.Update(h.salt);
    hasher.Update(h.iv);
    assert hasher.absorbed == CanonicalBytes(h);
    digest := hasher.Finalize();
  }

  /** `check_integrity`: the stored digest equals the recomputed one. The
      digest never covers the stored digest itself, and with SHA3-256 only a
      32-byte stored digest can pass. */
  function CheckIntegrity(h: Header, sha3: Sha3): (ok: bool)
    ensures ok <==> h.integrity == sha3(CanonicalBytes(h.(integrity := [])))
    ensures ok && Digest256(sha3) ==> |h.integrity| == 32
  {
    h.integrity == Digest(h, sha3)
  }

  /** `Header::new`: stamps the application name and version, copies every
      argument, starts `integrity` empty and extends it with the digest. */
  function New(app: App, sha3: Sha3, cipher: string, keySize: u32, mode: string, kdf: string,
               mCost: u32, tCost: u32, pCost: u32, salt: seq<byte>, iv: seq<byte>): (h: Header)
    ensures h.app == app.name && h.version == app.version
    ensures h.cipher == cipher && h.keySize == keySize && h.mode == mode && h.kdf == kdf
    ensures h.mCost == mCost && h.tCost == tCost && h.pCost == pCost
    ensures h.salt == salt && h.iv == iv
    ensures CheckIntegrity(h, sha3)
    ensures Digest256(sha3) ==> |h.integrity| == 32
  {
    var header := Header(app.name, app.version, cipher, keySize, mode, kdf,
                         mCost, tCost, pCost, salt, iv, []);
    header.(integrity := header.integrity + Digest(header, sha3))
  }

  /** The digest sees only the concatenated bytes: two headers with the same
      canonical stream and the same stored digest pass or fail together. */
  lemma IntegrityDependsOnlyOnCanonicalBytes(h1: Header, h2: Header, sha3: Sha3)
    requires CanonicalBytes(h1) == CanonicalBytes(h2)
    requires h1.integrity == h2.integrity
    ensures CheckIntegrity(h1, sha3) <==> CheckIntegrity(h2, sha3)
  {
  }

  /** Moving the last salt byte to the front of the IV leaves a valid header
      valid: field boundaries are not covered by the digest. */
  lemma SaltIvBoundaryUndetected(h: Header, sha3: Sha3)
    requires CheckIntegrity(h, sha3)
    requires |h.salt| > 0
    ensures var n := |h.salt| - 1;
            CheckIntegrity(h.(salt := h.salt[..n], iv := [h.salt[n]] + h.iv), sha3)
  {
    var n := |h.salt| - 1;
    var h' := h.(salt := h.salt[..n], iv := [h.salt[n]] + h.iv);
    var x := Utf8(h.app) + Utf8(h.version) + Utf8(h.cipher) + Be32(h.keySize)
             + Utf8(h.mode) + Utf8(h.kdf) + Be32(h.mCost) + Be32(h.tCost) + Be32(h.pCost);
    assert h.salt == h'.salt + [h.salt[n]];
    RegroupMiddle(x, h.salt, h.iv, h'.salt, h'.iv);
  }

  /** Moving the last character of `mode` to the front of `kdf` (for
      instance "CBC"/"Argon2id" to "CB"/"CArgon2id") leaves a valid header
      valid. */
  lemma ModeKdfBoundaryUndetected(h: Header, sha3: Sha3)
    requires CheckIntegrity(h, sha3)
    requires |h.mode| > 0
    ensures var n := |h.mode| - 1;
            CheckIntegrity(h.(mode := h.mode[..n], kdf := [h.mode[n]] + h.kdf), sha3)
  {
    var n := |h.mode| - 1;
    var h' := h.(mode := h.mode[..n], kdf := [h.mode[n]] + h.kdf);
    assert h.mode == h'.mode + [h.mode[n]];
    Utf8MoveBoundary(h'.mode, h.mode[n], h.kdf);
    var x := Utf8(h.app) + Utf8(h.version) + Utf8(h.cipher) + Be32(h.keySize);
    RegroupMiddle(x, Utf8(h.mode), Utf8(h.kdf), Utf8(h'.mode), Utf8(h'.kdf));
  }

  /** The `u32` fields are fixed-width: two headers with the same text fields,
      salt and IV hash the same bytes only if their key size and costs are
      equal too. */
  lemma FixedWidthFieldsBound(h: Header, h': Header)
    requires h.app == h'.app && h.version == h'.version && h.cipher == h'.cipher
    requires h.mode == h'.mode && h.kdf == h'.kdf && h.salt == h'.salt && h.iv == h'.iv
    requires CanonicalBytes(h) == CanonicalBytes(h')
    ensures h.keySize == h'.keySize && h.mCost == h'.mCost && h.tCost == h'.tCost && h.pCost == h'.pCost
  {
    var x := Utf8(h.app) + Utf8(h.version) + Utf8(h.cipher);
    var t := Utf8(h.mode) + Utf8(h.kdf);
    var a := x + Be32(h.keySize) + Utf8(h.mode) + Utf8(h.kdf);
    var a' := x + Be32(h'.keySize) + Utf8(h.mode) + Utf8(h.kdf);
    var c := a + Be32(h.mCost) + Be32(h.tCost) + Be32(h.pCost) + h.salt;
    var c' := a' + Be32(h'.mCost) + Be32(h'.tCost) + Be32(h'.pCost) + h.salt;
    SplitAtSameLength(c, h.iv, c', h.iv);
    SplitAtSameLength(a + Be32(h.mCost) + Be32(h.tCost) + Be32(h.pCost), h.salt,
                      a' + Be32(h'.mCost) + Be32(h'.tCost) + Be32(h'.pCost), h.salt);
    SplitAtSameLength(a + Be32(h.mCost) + Be32(h.tCost), Be32(h.pCost),
                      a' + Be32(h'.mCost) + Be32(h'.tCost), Be32(h'.pCost));
    SplitAtSameLength(a + Be32(h.mCost), Be32(h.tCost), a' + Be32(h'.mCost), Be32(h'.tCost));
    SplitAtSameLength(a, Be32(h.mCost), a', Be32(h'.mCost));
    SplitAtSameLength(x + Be32(h.keySize) + Utf8(h.mode), Utf8(h.kdf),
                      x + Be32(h'.keySize) + Utf8(h.mode), Utf8(h.kdf));
    SplitAtSameLength(x + Be32(h.keySize), Utf8(h.mode), x + Be32(h'.keySize), Utf8(h.mode));
    SplitAtSameLength(x, Be32(h.keySize), x, Be32(h'.keySize));
    Be32Injective(h.keySize, h'.keySize);
    Be32Injective(h.mCost, h'.mCost);
    Be32Injective(h.tCost, h'.tCost);
    Be32Injective(h.pCost, h'.pCost);
  }

  /** Changing any field while keeping the stored digest is detected unless
      SHA3-256 collides on the two canonical streams. */
  lemma TamperDetectedUnlessCollision(h: Header, h': Header, sha3: Sha3)
    requires CheckIntegrity(h, sha3)
    requires h'.integrity == h.integrity
    ensures CheckIntegrity(h', sha3) <==> sha3(CanonicalBytes(h')) == sha3(CanonicalBytes(h))
  {
  }

  // ---------------------------------------------------------------------
  // Version compatibility
  // ---------------------------------------------------------------------

  /** Precedence of release versions (Semantic Versioning 2.0.0, section 11):
      major, then minor, then patch, compared numerically. */
  predicate VersionLe(a: Version, b: Version) {
    a.major < b.major
    || (a.major == b.major && a.minor < b.minor)
    || (a.major == b.major && a.minor == b.minor && a.patch <= b.patch)
  }

  /** (a.major, a.minor) <= (b.major, b.minor) lexicographically. */
  predicate MajorMinorLe(a: Version, b: Version) {
    a.major < b.major || (a.major == b.major && a.minor <= b.minor)
  }

  /** `is_supported`: both versions must parse; the same major.minor is
      accepted whatever the patch, anything else only if not newer than the
      application. */
  function IsSupported(h: Header, app: App, parse: SemverParse): (ok: bool)
    ensures parse(h.version).None? || parse(app.version).None? ==> !ok
    ensures (&& parse(h.version).Some? && parse(app.version).Some?
             && parse(h.version).value.major == parse(app.version).value.major
             && parse(h.version).value.minor == parse(app.version).value.minor) ==> ok
  {
    match (parse(h.version), parse(app.version))
    case (Some(file), Some(current)) =>
      if file.major == current.major && file.minor == current.minor then true
      else VersionLe(file, current)
    case _ => false
  }

  /** Support reduces to comparing major.minor: a file version is accepted
      exactly when both versions parse and its (major, minor) is not above the
      application's; the patch never matters. */
  lemma IsSupportedIffMajorMinor(h: Header, app: App, parse: SemverParse)
    ensures IsSupported(h, app, parse) <==>
            parse(h.version).Some? && parse(app.version).Some?
            && MajorMinorLe(parse(h.version).value, parse(app.version).value)
  {
  }

  /** A file written by a later major or minor release is rejected. */
  lemma NewerMajorMinorRejected(h: Header, app: App, parse: SemverParse)
    requires parse(h.version).Some? && parse(app.version).Some?
    requires !MajorMinorLe(parse(h.version).value, parse(app.version).value)
    ensures !IsSupported(h, app, parse)
  {
  }

  /** A header stamped by this application passes the version gate whenever
      the application's own version parses. */
  lemma OwnVersionSupported(h: Header, app: App, parse: SemverParse)
    requires h.version == app.version
    requires parse(app.version).Some?
    ensures IsSupported(h, app, parse)
  {
  }

  /** Semantic-version precedence on releases is a total order. */
  lemma VersionLeTotalOrder(a: Version, b: Version, c: Version)
    ensures VersionLe(a, a)
    ensures VersionLe(a, b) && VersionLe(b, a) ==> a == b
    ensures VersionLe(a, b) && VersionLe(b, c) ==> VersionLe(a, c)
    ensures VersionLe(a, b) || VersionLe(b, a)
  {
  }
}
