/** The hash algorithms (src/alg.rs): their names, the case-insensitive
    parser, the default, and the dispatch from a variant to its digest. */
module Alg {
  import opened Common
  import opened Fs
  import Ascii
  import Hex = Hash

  datatype Algorithm = Blake3 | Md5 | Sha1 | Sha256 | Sha512

  /** The five digest functions of the external crates. */
  datatype DigestSuite = DigestSuite(
    blake3: seq<byte> -> seq<byte>,
    md5: seq<byte> -> seq<byte>,
    sha1: seq<byte> -> seq<byte>,
    sha256: seq<byte> -> seq<byte>,
    sha512: seq<byte> -> seq<byte>)

  /** Output sizes in bytes: BLAKE3's default 32, MD5's 128 bits (RFC 1321),
      SHA-1's 160, SHA-256's 256 and SHA-512's 512 bits (FIPS 180-4). */
  function DigestSize(a: Algorithm): nat
  {
    match a
    case Blake3 => 32
    case Md5 => 16
    case Sha1 => 20
    case Sha256 => 32
    case Sha512 => 64
  }

  /** A suite whose every function has its algorithm's output size. */
  ghost predicate WellSized(suite: DigestSuite)
  {
    (forall b :: |suite.blake3(b)| == DigestSize(Blake3))
    && (forall b :: |suite.md5(b)| == DigestSize(Md5))
    && (forall b :: |suite.sha1(b)| == DigestSize(Sha1))
    && (forall b :: |suite.sha256(b)| == DigestSize(Sha256))
    && (forall b :: |suite.sha512(b)| == DigestSize(Sha512))
  }

  /** `impl Display for Algorithm`. */
  function Display(a: Algorithm): string
  {
    match a
    case Blake3 => "Blake3"
    case Md5 => "Md5"
    case Sha1 => "Sha1"
    case Sha256 => "Sha256"
    case Sha512 => "Sha512"
  }

  /** `impl FromStr for Algorithm`: match the upper-cased token; an unknown
      token is reported as it was given. */
  function Parse(s: string): (r: Result<Algorithm, Error>)
    ensures r.Err? ==> r.error == UnknownAlgorithm(s)
  {
    match Ascii.ToAsciiUpper(s)
    case "BLAKE3" => Ok(Blake3)
    case "MD5" => Ok(Md5)
    case "SHA1" => Ok(Sha1)
    case "SHA256" => Ok(Sha256)
    case "SHA512" => Ok(Sha512)
    case _ => Err(UnknownAlgorithm(s))
  }

  /** `#[default]`: SHA-1. */
  function DefaultAlgorithm(): (a: Algorithm)
    ensures Display(a) == "Sha1"
  {
    Sha1
  }

  /** The digest function each variant dispatches to. */
  function DigestFor(a: Algorithm, suite: DigestSuite): seq<byte> -> seq<byte>
  {
    match a
    case Blake3 => suite.blake3
    case Md5 => suite.md5
    case Sha1 => suite.sha1
    case Sha256 => suite.sha256
    case Sha512 => suite.sha512
  }

  /** `Algorithm::hash`: the canonical hex of the file's digest under the
      variant's own function. */
  function Hash(a: Algorithm, suite: DigestSuite, fs: FileSystem, p: Path): (r: IoResult<string>)
    ensures r.Ok? <==> ReadFile(fs, p).Ok?
    ensures r.Ok? ==> r.value == Hex.HexOf(DigestFor(a, suite)(ReadFile(fs, p).value))
    ensures r.Ok? ==> forall i :: 0 <= i < |r.value| ==> Hex.IsLowerHexDigit(r.value[i])
    ensures r.Err? ==> r.error == ReadFile(fs, p).error
  {
    Hex.HashToString(fs, p, DigestFor(a, suite))
  }

  /** With correctly sized digests the hex text has a fixed width per variant. */
  lemma HashWidth(a: Algorithm, suite: DigestSuite, fs: FileSystem, p: Path)
    requires WellSized(suite)
    requires ReadFile(fs, p).Ok?
    ensures |Hash(a, suite, fs, p).value| == 2 * DigestSize(a)
  {
    var bytes := ReadFile(fs, p).value;
    assert |DigestFor(a, suite)(bytes)| == DigestSize(a);
    Hex.HexOfLength(DigestFor(a, suite)(bytes));
  }

  lemma UpperNames()
    ensures Ascii.ToAsciiUpper("Blake3") == "BLAKE3"
    ensures Ascii.ToAsciiUpper("Md5") == "MD5"
    ensures Ascii.ToAsciiUpper("Sha1") == "SHA1"
    ensures Ascii.ToAsciiUpper("Sha256") == "SHA256"
    ensures Ascii.ToAsciiUpper("Sha512") == "SHA512"
  {
  }

  /** A token names a variant exactly when it equals that variant's display
      name ignoring ASCII case. */
  lemma ParseIsCaseInsensitive(s: string, a: Algorithm)
    ensures Parse(s) == Ok(a) <==> Ascii.EqIgnoreAsciiCase(s, Display(a))
  {
    UpperNames();
    Ascii.EqIgnoreAsciiCaseIsFolding(s, Display(a));
  }

  /** Parsing a display name gives back the variant. */
  lemma ParseDisplay(a: Algorithm)
    ensures Parse(Display(a)) == Ok(a)
  {
    UpperNames();
  }

  /** Display names are pairwise distinct. */
  lemma DisplayInjective(a: Algorithm, b: Algorithm)
    requires Display(a) == Display(b)
    ensures a == b
  {
    ParseDisplay(a);
    ParseDisplay(b);
  }

  /** Parsing depends only on the upper-cased token (apart from the text an
      error carries). */
  lemma ParseIgnoresCase(s: string, t: string)
    requires Ascii.EqIgnoreAsciiCase(s, t)
    ensures Parse(s).Ok? <==> Parse(t).Ok?
    ensures Parse(s).Ok? ==> Parse(s) == Parse(t)
  {
    Ascii.EqIgnoreAsciiCaseIsFolding(s, t);
  }
}
