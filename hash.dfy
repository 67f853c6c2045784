/** Digest computation and its canonical text form (src/hash.rs). A digest
    function is a parameter: the model knows only that it maps the file's
    bytes to the digest's bytes. */
module Hash {
  import opened Common
  import opened Fs
  import Ascii

  predicate IsLowerHexDigit(c: char) { '0' <= c <= '9' || 'a' <= c <= 'f' }

  /** The lower-case hex digit for a nibble. */
  function HexDigit(n: nat): (c: char)
    requires n < 16
    ensures IsLowerHexDigit(c)
  {
    if n < 10 then ('0' as int + n) as char else ('a' as int + n - 10) as char
  }

  /** `format!("{u:02x}")`: two digits, high nibble first, zero-padded. */
  function HexPair(u: byte): string
  {
    [HexDigit(u as int / 16), HexDigit(u as int % 16)]
  }

  /** The text `fmt_hex` produces: the pairs of all bytes, in order. */
  function HexOf(bytes: seq<byte>): string
  {
    if bytes == [] then "" else HexOf(bytes[..|bytes| - 1]) + HexPair(bytes[|bytes| - 1])
  }

  /** `fmt_hex`: appends the two-digit rendering of each byte to a buffer. */
  method FmtHex(bytes: seq<byte>) returns (buf: string)
    ensures buf == HexOf(bytes)
    ensures |buf| == 2 * |bytes|
    ensures forall i :: 0 <= i < |buf| ==> IsLowerHexDigit(buf[i])
  {
    buf := "";
    for i := 0 to |bytes|
      invariant buf == HexOf(bytes[..i])
    {
      assert bytes[..i + 1][..i] == bytes[..i];
      buf := buf + HexPair(bytes[i]);
    }
    assert bytes[..|bytes|] == bytes;
    HexOfLength(bytes);
    HexOfAlphabet(bytes);
  }

  lemma {:induction false} HexOfLength(bytes: seq<byte>)
    ensures |HexOf(bytes)| == 2 * |bytes|
  {
    if bytes != [] {
      HexOfLength(bytes[..|bytes| - 1]);
    }
  }

  /** Only the characters `0`-`9` and `a`-`f` occur. */
  lemma {:induction false} HexOfAlphabet(bytes: seq<byte>)
    ensures forall i :: 0 <= i < |HexOf(bytes)| ==> IsLowerHexDigit(HexOf(bytes)[i])
  {
    if bytes != [] {
      var init := bytes[..|bytes| - 1];
      HexOfAlphabet(init);
      var h := HexOf(init) + HexPair(bytes[|bytes| - 1]);
      assert forall i :: 0 <= i < |h| ==> h[i] == (if i < |HexOf(init)| then HexOf(init)[i] else HexPair(bytes[|bytes| - 1])[i - |HexOf(init)|]);
    }
  }

  /** The encoding of a concatenation is the concatenation of the encodings. */
  lemma {:induction false} HexOfAppend(a: seq<byte>, b: seq<byte>)
    ensures HexOf(a + b) == HexOf(a) + HexOf(b)
  {
    if b == [] {
      assert a + b == a;
    } else {
      var b' := b[..|b| - 1];
      assert (a + b)[..|a + b| - 1] == a + b';
      HexOfAppend(a, b');
    }
  }

  lemma HexOfEmpty()
    ensures HexOf([]) == ""
  {
  }

  /** Characters `2i` and `2i+1` are the high and the low nibble of byte `i`. */
  lemma {:induction false} HexOfAt(bytes: seq<byte>, i: nat)
    requires i < |bytes|
    ensures |HexOf(bytes)| == 2 * |bytes|
    ensures HexOf(bytes)[2 * i] == HexDigit(bytes[i] as int / 16)
    ensures HexOf(bytes)[2 * i + 1] == HexDigit(bytes[i] as int % 16)
  {
    HexOfLength(bytes);
    var init := bytes[..|bytes| - 1];
    HexOfLength(init);
    if i < |bytes| - 1 {
      HexOfAt(init, i);
    }
  }

  /** The value of a hex digit of either case. */
  function HexValue(c: char): (v: Option<nat>)
    ensures v.Some? ==> v.value < 16
  {
    if '0' <= c <= '9' then Some(c as int - '0' as int)
    else if 'a' <= c <= 'f' then Some(c as int - 'a' as int + 10)
    else if 'A' <= c <= 'F' then Some(c as int - 'A' as int + 10)
    else None
  }

  /** A hex decoder: pairs of digits, high nibble first, either case. */
  function HexDecode(s: string): Option<seq<byte>>
  {
    if s == [] then Some([])
    else if |s| == 1 then None
    else
      match (HexValue(s[0]), HexValue(s[1]), HexDecode(s[2..]))
      case (Some(hi), Some(lo), Some(rest)) => Some([(hi * 16 + lo) as byte] + rest)
      case _ => None
  }

  lemma HexValueOfDigit(n: nat)
    requires n < 16
    ensures HexValue(HexDigit(n)) == Some(n)
  {
  }

  /** Decoding undoes `fmt_hex`. */
  lemma {:induction false} HexDecodeOfHexOf(bytes: seq<byte>)
    ensures HexDecode(HexOf(bytes)) == Some(bytes)
  {
    if bytes != [] {
      var u, rest := bytes[0], bytes[1..];
      assert bytes == [u] + rest;
      HexOfAppend([u], rest);
      assert [u][..0] == [];
      assert HexOf([u]) == HexPair(u);
      var s := HexOf(bytes);
      assert s[..2] == HexPair(u) && s[2..] == HexOf(rest);
      HexValueOfDigit(u as int / 16);
      HexValueOfDigit(u as int % 16);
      HexDecodeOfHexOf(rest);
      assert (u as int / 16) * 16 + u as int % 16 == u as int;
    }
  }

  /** `fmt_hex` is injective: different digests never print alike. */
  lemma HexOfInjective(a: seq<byte>, b: seq<byte>)
    requires HexOf(a) == HexOf(b)
    ensures a == b
  {
    HexDecodeOfHexOf(a);
    HexDecodeOfHexOf(b);
  }

  lemma HexDigitOfValue(c: char)
    requires HexValue(c).Some?
    ensures HexDigit(HexValue(c).value) == Ascii.LowerChar(c)
  {
  }

  /** Whatever the decoder accepts is the encoding of its result, up to ASCII case. */
  lemma {:induction false} HexOfHexDecode(s: string)
    requires HexDecode(s).Some?
    ensures HexOf(HexDecode(s).value) == Ascii.ToAsciiLower(s)
  {
    if s != [] {
      var hi, lo := HexValue(s[0]).value, HexValue(s[1]).value;
      var rest := HexDecode(s[2..]).value;
      var u := (hi * 16 + lo) as byte;
      assert HexDecode(s).value == [u] + rest;
      HexOfHexDecode(s[2..]);
      HexOfCons(u, rest);
      PairOfNibbles(hi, lo);
      HexDigitOfValue(s[0]);
      HexDigitOfValue(s[1]);
      LowerCons(s);
    }
  }

  /** The encoding of a byte followed by more bytes. */
  lemma HexOfCons(u: byte, rest: seq<byte>)
    ensures HexOf([u] + rest) == HexPair(u) + HexOf(rest)
  {
    HexOfAppend([u], rest);
    assert [u][..0] == [];
  }

  /** The pair of a byte built from two nibbles is those nibbles' digits. */
  lemma PairOfNibbles(hi: nat, lo: nat)
    requires hi < 16 && lo < 16
    ensures HexPair((hi * 16 + lo) as byte) == [HexDigit(hi), HexDigit(lo)]
  {
    var u := (hi * 16 + lo) as byte;
    assert u as int / 16 == hi && u as int % 16 == lo;
  }

  /** Lower-casing a text of two or more characters, the first two apart. */
  lemma LowerCons(s: string)
    requires |s| >= 2
    ensures Ascii.ToAsciiLower(s) == [Ascii.LowerChar(s[0]), Ascii.LowerChar(s[1])] + Ascii.ToAsciiLower(s[2..])
  {
  }

  /** Decoding sees a text only through its lower-case folding. */
  lemma {:induction false} HexDecodeIgnoresCase(s: string)
    ensures HexDecode(s) == HexDecode(Ascii.ToAsciiLower(s))
  {
    var l := Ascii.ToAsciiLower(s);
    if |s| >= 2 {
      HexDecodeIgnoresCase(s[2..]);
      assert l[2..] == Ascii.ToAsciiLower(s[2..]);
      assert HexValue(s[0]) == HexValue(l[0]) && HexValue(s[1]) == HexValue(l[1]);
    }
  }

  /** A text matches the hex of a digest, ignoring ASCII case, exactly
      when it decodes to that digest. */
  lemma HexMatchIffDecodes(d: seq<byte>, s: string)
    ensures Ascii.EqIgnoreAsciiCase(HexOf(d), s) <==> HexDecode(s) == Some(d)
  {
    HexOfAlphabet(d);
    Ascii.EqIgnoreAsciiCaseEquivalence(HexOf(d), s, s);
    Ascii.MatchesLowercase(HexOf(d), s);
    HexDecodeIgnoresCase(s);
    HexDecodeOfHexOf(d);
    if HexDecode(s) == Some(d) {
      HexOfHexDecode(s);
    }
  }

  /** `hash_to_digest`: open the file, stream it through the digest, finish. */
  function HashToDigest(fs: FileSystem, p: Path, digest: seq<byte> -> seq<byte>): (r: IoResult<seq<byte>>)
    ensures r.Ok? <==> ReadFile(fs, p).Ok?
    ensures r.Ok? ==> r.value == digest(ReadFile(fs, p).value)
    ensures r.Err? ==> r.error == ReadFile(fs, p).error
  {
    match ReadFile(fs, p)
    case Ok(bytes) => Ok(digest(bytes))
    case Err(e) => Err(e)
  }

  /** `hash_to_string`: the digest in canonical lower-case hex; an open or
      read error is passed on unchanged. */
  function HashToString(fs: FileSystem, p: Path, digest: seq<byte> -> seq<byte>): (r: IoResult<string>)
    ensures r.Ok? <==> ReadFile(fs, p).Ok?
    ensures r.Ok? ==> r.value == HexOf(digest(ReadFile(fs, p).value))
    ensures r.Ok? ==> |r.value| == 2 * |digest(ReadFile(fs, p).value)|
    ensures r.Ok? ==> forall i :: 0 <= i < |r.value| ==> IsLowerHexDigit(r.value[i])
    ensures r.Err? ==> r.error == ReadFile(fs, p).error
  {
    match HashToDigest(fs, p, digest)
    case Ok(d) =>
      HexOfLength(d);
      HexOfAlphabet(d);
      Ok(HexOf(d))
    case Err(e) => Err(e)
  }
}
