/** The container codec and output naming (src/file.rs): an encrypted file is
    the header's JSON text, one newline byte, then the ciphertext verbatim;
    loading splits at the first newline. JSON encoding and decoding
    (serde_json) are external and passed in as functions. The file system's
    "does this path exist" is a finite set of names. */
module Files {
  import opened Base
  import opened Headers

  /** `serde_json::to_string` on a header. */
  type JsonEncode = Header -> string

  /** `serde_json::from_slice` into a header: `None` when the bytes do not
      parse into the header's field set. */
  type JsonDecode = seq<byte> -> Option<Header>

  /** Decoding the bytes of an encoded header gives the header back. */
  ghost predicate JsonRoundTrips(toJson: JsonEncode, fromJson: JsonDecode) {
    forall h :: fromJson(Utf8(toJson(h))) == Some(h)
  }

  /** Compact JSON escapes newlines inside strings, so the text has none. */
  ghost predicate JsonSingleLine(toJson: JsonEncode) {
    forall h :: '\n' !in toJson(h)
  }

  /** `io::ErrorKind::InvalidData` raised by `load_encrypted`. */
  datatype LoadError =
    | MissingHeader    // no newline byte anywhere in the file
    | MalformedHeader  // the bytes before the first newline are not a header

  // ---------------------------------------------------------------------
  // Framing
  // ---------------------------------------------------------------------

  /** `save_encrypted`: the bytes written, in order: the header's JSON text,
      `b"\n"`, then the ciphertext unchanged. */
  function SaveEncrypted(toJson: JsonEncode, header: Header, contents: seq<byte>): (file: seq<byte>)
    ensures |file| == |Utf8(toJson(header))| + 1 + |contents|
    ensures file[..|Utf8(toJson(header))|] == Utf8(toJson(header))
    ensures file[|Utf8(toJson(header))|] == NEWLINE
    ensures file[|Utf8(toJson(header))| + 1..] == contents
  {
    var text := Utf8(toJson(header));
    assert (text + [NEWLINE] + contents)[..|text|] == text;
    assert (text + [NEWLINE] + contents)[|text| + 1..] == contents;
    text + [NEWLINE] + contents
  }

  /** `iter().position(|&b| b == x)`: the index of the first occurrence. */
  function Position(s: seq<byte>, x: byte): (r: Option<nat>)
    ensures r.None? <==> x !in s
    ensures r.Some? ==> r.value < |s| && s[r.value] == x && x !in s[..r.value]
  {
    if s == [] then None
    else if s[0] == x then Some(0)
    else match Position(s[1..], x)
      case None => None
      case Some(i) =>
        assert s[..i + 1] == [s[0]] + s[1..][..i];
        Some(i + 1)
  }

  /** The split of `load_encrypted`: the header bytes before the first
      newline and the body after it, or `MissingHeader` when there is none. */
  function SplitHeader(file: seq<byte>): (r: Result<(seq<byte>, seq<byte>), LoadError>)
    ensures r.Err? <==> NEWLINE !in file
    ensures r.Err? ==> r.error == MissingHeader
    ensures r.Ok? ==> file == r.value.0 + [NEWLINE] + r.value.1 && NEWLINE !in r.value.0
  {
    match Position(file, NEWLINE)
    case None => Err(MissingHeader)
    case Some(end) =>
      assert file == file[..end] + [NEWLINE] + file[end + 1..];
      Ok((file[..end], file[end + 1..]))
  }

  /** `load_encrypted` after reading the file: split at the first newline,
      then parse the header bytes. */
  function LoadEncrypted(file: seq<byte>, fromJson: JsonDecode): (r: Result<(Header, seq<byte>), LoadError>)
    ensures NEWLINE !in file ==> r == Err(MissingHeader)
    ensures forall n :: 0 <= n < |file| && file[n] == NEWLINE && NEWLINE !in file[..n] ==>
              r == match fromJson(file[..n])
                   case None => Err(MalformedHeader)
                   case Some(header) => Ok((header, file[n + 1..]))
  {
    match SplitHeader(file)
    case Err(e) => Err(e)
    case Ok((headerBytes, body)) =>
      assert file[..|headerBytes|] == headerBytes && file[|headerBytes| + 1..] == body;
      assert forall n :: 0 <= n < |file| && file[n] == NEWLINE && NEWLINE !in file[..n] ==> n == |headerBytes| by {
        forall n | 0 <= n < |file| && file[n] == NEWLINE && NEWLINE !in file[..n]
          ensures n == |headerBytes|
        {
          FirstOccurrenceUnique(file, NEWLINE, n, |headerBytes|);
        }
      }
      match fromJson(headerBytes)
      case None => Err(MalformedHeader)
      case Some(header) => Ok((header, body))
  }

  /** There is only one first occurrence of a value. */
  lemma FirstOccurrenceUnique(s: seq<byte>, x: byte, m: nat, n: nat)
    requires m < |s| && s[m] == x && x !in s[..m]
    requires n < |s| && s[n] == x && x !in s[..n]
    ensures m == n
  {
  }

  /** Splitting a framed container recovers the header bytes and the body,
      whatever the body holds, exactly when the header bytes hold no newline. */
  lemma SplitFramed(headerBytes: seq<byte>, body: seq<byte>)
    ensures SplitHeader(headerBytes + [NEWLINE] + body) == Ok((headerBytes, body)) <==> NEWLINE !in headerBytes
  {
    if NEWLINE in headerBytes {
      return;
    }
    var file := headerBytes + [NEWLINE] + body;
    var r := SplitHeader(file);
    var (a, b) := r.value;
    assert forall i :: 0 <= i < |headerBytes| ==> file[i] == headerBytes[i];
    assert forall i :: 0 <= i < |a| ==> file[i] == a[i];
    assert file[|a|] == NEWLINE && file[|headerBytes|] == NEWLINE;
    assert |a| == |headerBytes|;
    SplitAtSameLength(headerBytes, [NEWLINE] + body, a, [NEWLINE] + b);
  }

  /** Saving a header with its ciphertext and loading the result gives back
      the same header and the same ciphertext. */
  lemma SaveLoadRoundTrip(toJson: JsonEncode, fromJson: JsonDecode, header: Header, contents: seq<byte>)
    requires JsonRoundTrips(toJson, fromJson)
    requires JsonSingleLine(toJson)
    ensures LoadEncrypted(SaveEncrypted(toJson, header, contents), fromJson) == Ok((header, contents))
  {
    var text := toJson(header);
    Utf8Newline(text);
    SplitFramed(Utf8(text), contents);
  }

  // ---------------------------------------------------------------------
  // get_unique_file_name
  // ---------------------------------------------------------------------

  /** One decimal digit. */
  function Digit(d: nat): char
    requires d < 10
  {
    ('0' as int + d) as char
  }

  /** `format!("{}", n)`: decimal digits, no leading zero. */
  function Decimal(n: nat): (s: string)
    ensures |s| >= 1
    ensures forall i :: 0 <= i < |s| ==> '0' <= s[i] <= '9'
    decreases n
  {
    if n < 10 then [Digit(n)] else Decimal(n / 10) + [Digit(n % 10)]
  }

  /** Reads a string of decimal digits back into a number. */
  function ParseDecimal(s: string): nat
    requires forall i :: 0 <= i < |s| ==> '0' <= s[i] <= '9'
  {
    if s == [] then 0
    else ParseDecimal(s[..|s| - 1]) * 10 + (s[|s| - 1] as int - '0' as int)
  }

  /** Printing a number in decimal and reading it back gives the number. */
  lemma {:induction false} DecimalRoundTrip(n: nat)
    ensures ParseDecimal(Decimal(n)) == n
    decreases n
  {
    if n >= 10 {
      var s := Decimal(n);
      assert s[..|s| - 1] == Decimal(n / 10);
      DecimalRoundTrip(n / 10);
    }
  }

  /** What follows the base name: `.ext`, or nothing without an extension. */
  function Extension(ext: Option<string>): string {
    match ext
    case Some(e) => "." + e
    case None => ""
  }

  /** The k-th name tried: `base.ext` first, then `base(k).ext` for k >= 1;
      without an extension, `base` and then `base(k)`. */
  function Candidate(base: string, ext: Option<string>, k: nat): string {
    if k == 0 then base + Extension(ext)
    else base + "(" + Decimal(k) + ")" + Extension(ext)
  }

  /** Different counters name different files. */
  lemma CandidateInjective(base: string, ext: Option<string>, j: nat, k: nat)
    requires Candidate(base, ext, j) == Candidate(base, ext, k)
    ensures j == k
  {
    var e := Extension(ext);
    if j != 0 && k != 0 {
      var dj, dk := Decimal(j), Decimal(k);
      assert |dj| == |dk|;
      SplitAtSameLength(base + "(" + dj + ")", e, base + "(" + dk + ")", e);
      SplitAtSameLength(base + "(" + dj, ")", base + "(" + dk, ")");
      SplitAtSameLength(base + "(", dj, base + "(", dk);
      DecimalRoundTrip(j);
      DecimalRoundTrip(k);
    }
  }

  /** The names `get_unique_file_name` formats are the candidates. */
  lemma CandidateSpelling(base: string, ext: Option<string>, k: nat)
    ensures Candidate(base, ext, 0) == (match ext case Some(e) => base + "." + e case None => base)
    ensures k >= 1 ==>
              Candidate(base, ext, k) == (match ext
                                          case Some(e) => base + "(" + Decimal(k) + ")." + e
                                          case None => base + "(" + Decimal(k) + ")")
  {
    var d := Decimal(k);
    match ext
    case Some(e) =>
      assert base + "(" + d + ")" + ("." + e) == base + "(" + d + ")." + e;
    case None =>
      assert base + "(" + d + ")" + "" == base + "(" + d + ")";
  }

  /** The names tried before counter k. */
  function Tried(base: string, ext: Option<string>, k: nat): set<string> {
    set j | 0 <= j < k :: Candidate(base, ext, j)
  }

  /** Trying one more name that exists, and was not tried before, leaves
      fewer names to try. */
  lemma FewerLeft<T>(existing: set<T>, tried: set<T>, c: T)
    requires c in existing && c !in tried
    ensures |existing - (tried + {c})| < |existing - tried|
  {
    var left, left' := existing - tried, existing - (tried + {c});
    assert left == left' + {c} && c !in left';
  }

  /** The k-th candidate is not among those tried before it, so every name
      that exists and is tried removes one name from those left to try. */
  lemma TriedGrows(existing: set<string>, base: string, ext: Option<string>, k: nat)
    requires Candidate(base, ext, k) in existing
    ensures |existing - Tried(base, ext, k + 1)| < |existing - Tried(base, ext, k)|
  {
    var c := Candidate(base, ext, k);
    if c in Tried(base, ext, k) {
      var j :| 0 <= j < k && Candidate(base, ext, j) == c;
      CandidateInjective(base, ext, j, k);
    }
    assert Tried(base, ext, k + 1) == Tried(base, ext, k) + {c};
    FewerLeft(existing, Tried(base, ext, k), c);
  }

  /** The first counter from k on whose name does not exist. */
  function FirstFree(existing: set<string>, base: string, ext: Option<string>, k: nat): (j: nat)
    ensures k <= j
    ensures Candidate(base, ext, j) !in existing
    ensures forall i :: k <= i < j ==> Candidate(base, ext, i) in existing
    decreases |existing - Tried(base, ext, k)|
  {
    if Candidate(base, ext, k) !in existing then k
    else
      TriedGrows(existing, base, ext, k);
      FirstFree(existing, base, ext, k + 1)
  }

  /** The name `get_unique_file_name` settles on. */
  function UniqueFileName(existing: set<string>, base: string, ext: Option<string>): string {
    Candidate(base, ext, FirstFree(existing, base, ext, 0))
  }

  /** Every name tried with an extension ends in `.ext`. */
  lemma CandidateHasExtension(base: string, ext: string, k: nat)
    ensures HasSuffix(Candidate(base, Some(ext), k), "." + ext)
  {
    var stem := if k == 0 then base else base + "(" + Decimal(k) + ")";
    assert Candidate(base, Some(ext), k) == stem + ("." + ext);
    assert (stem + ("." + ext))[|stem|..] == "." + ext;
  }

  /** The unique name does not exist, and it is the first name of the
      sequence `base.ext`, `base(1).ext`, `base(2).ext`, ... that does not. */
  lemma UniqueFileNameIsFirstAbsent(existing: set<string>, base: string, ext: Option<string>)
    ensures UniqueFileName(existing, base, ext) !in existing
    ensures exists k: nat :: UniqueFileName(existing, base, ext) == Candidate(base, ext, k)
                             && forall i :: 0 <= i < k ==> Candidate(base, ext, i) in existing
  {
    var k := FirstFree(existing, base, ext, 0);
    assert UniqueFileName(existing, base, ext) == Candidate(base, ext, k);
  }

  /** When `base.ext` is free it is the name chosen. */
  lemma UniqueFileNameKeepsFreeName(existing: set<string>, base: string, ext: Option<string>)
    requires base + Extension(ext) !in existing
    ensures UniqueFileName(existing, base, ext) == base + Extension(ext)
  {
  }

  /** Only one counter is free with every earlier one taken: its name is
      the unique name. */
  lemma UniqueFileNameAt(existing: set<string>, base: string, ext: Option<string>, k: nat)
    requires Candidate(base, ext, k) !in existing
    requires forall i :: 0 <= i < k ==> Candidate(base, ext, i) in existing
    ensures UniqueFileName(existing, base, ext) == Candidate(base, ext, k)
  {
    var j := FirstFree(existing, base, ext, 0);
    assert j == k;
  }

  /** `get_unique_file_name`: tries `base.ext`, then `base(1).ext`,
      `base(2).ext`, ... while the name exists. */
  method GetUniqueFileName(existing: set<string>, base: string, ext: Option<string>)
    returns (fileName: string)
    ensures fileName == UniqueFileName(existing, base, ext)
  {
    fileName := match ext
      case Some(e) => base + "." + e
      case None => base;
    CandidateSpelling(base, ext, 0);
    var counter: nat := 1;
    while fileName in existing
      invariant counter >= 1
      invariant fileName == Candidate(base, ext, counter - 1)
      invariant forall i :: 0 <= i < counter - 1 ==> Candidate(base, ext, i) in existing
      decreases |existing - Tried(base, ext, counter - 1)|
    {
      TriedGrows(existing, base, ext, counter - 1);
      CandidateSpelling(base, ext, counter);
      fileName := match ext
        case Some(e) => base + "(" + Decimal(counter) + ")." + e
        case None => base + "(" + Decimal(counter) + ")";
      counter := counter + 1;
    }
    UniqueFileNameAt(existing, base, ext, counter - 1);
  }
}
