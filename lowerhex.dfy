/** `LowerHexFormatter` (src/fmt.rs): writes each byte with `{:x}` and the
    formatter's default flags, so a byte is not zero-padded. */
module LowerHex {
  import opened Common
  import Hash

  /** `<u8 as LowerHex>::fmt` with default flags: one digit below 16, else two. */
  function ByteLowerHex(u: byte): string
  {
    if u < 16 then [Hash.HexDigit(u as int)]
    else [Hash.HexDigit(u as int / 16), Hash.HexDigit(u as int % 16)]
  }

  /** What the formatter receives for a whole byte sequence. */
  function LowerHexOf(bytes: seq<byte>): string
  {
    if bytes == [] then "" else LowerHexOf(bytes[..|bytes| - 1]) + ByteLowerHex(bytes[|bytes| - 1])
  }

  /** The output sink of a `fmt::Formatter`; writing to it does not fail. */
  class Formatter {
    var written: string

    constructor ()
      ensures written == ""
    {
      written := "";
    }

    method WriteStr(s: string)
      modifies this
      ensures written == old(written) + s
    {
      written := written + s;
    }
  }

  /** `<LowerHexFormatter as LowerHex>::fmt`: format each byte into `f` in turn. */
  method Fmt(bytes: seq<byte>, f: Formatter)
    modifies f
    ensures f.written == old(f.written) + LowerHexOf(bytes)
  {
    for i := 0 to |bytes|
      invariant f.written == old(f.written) + LowerHexOf(bytes[..i])
    {
      assert bytes[..i + 1][..i] == bytes[..i];
      f.WriteStr(ByteLowerHex(bytes[i]));
    }
    assert bytes[..|bytes|] == bytes;
  }

  /** The output is the in-order concatenation of the byte renderings. */
  lemma {:induction false} LowerHexOfAppend(a: seq<byte>, b: seq<byte>)
    ensures LowerHexOf(a + b) == LowerHexOf(a) + LowerHexOf(b)
  {
    if b == [] {
      assert a + b == a;
    } else {
      var b' := b[..|b| - 1];
      assert (a + b)[..|a + b| - 1] == a + b';
      LowerHexOfAppend(a, b');
    }
  }

  lemma LowerHexOfEmpty()
    ensures LowerHexOf([]) == ""
  {
  }

  /** Between one and two characters per byte. */
  lemma {:induction false} LowerHexOfLength(bytes: seq<byte>)
    ensures |bytes| <= |LowerHexOf(bytes)| <= 2 * |bytes|
  {
    if bytes != [] {
      LowerHexOfLength(bytes[..|bytes| - 1]);
    }
  }

  /** Every character is a lower-case hex digit. */
  lemma {:induction false} LowerHexOfAlphabet(bytes: seq<byte>)
    ensures forall i :: 0 <= i < |LowerHexOf(bytes)| ==> Hash.IsLowerHexDigit(LowerHexOf(bytes)[i])
  {
    if bytes != [] {
      var init := bytes[..|bytes| - 1];
      LowerHexOfAlphabet(init);
      var h := LowerHexOf(init) + ByteLowerHex(bytes[|bytes| - 1]);
      assert forall i :: 0 <= i < |h| ==> h[i] == (if i < |LowerHexOf(init)| then LowerHexOf(init)[i] else ByteLowerHex(bytes[|bytes| - 1])[i - |LowerHexOf(init)|]);
    }
  }

  /** When no byte is below 16 the rendering coincides with `fmt_hex`. */
  lemma {:induction false} LowerHexOfAgreesWithHexOf(bytes: seq<byte>)
    requires forall i :: 0 <= i < |bytes| ==> bytes[i] >= 16
    ensures LowerHexOf(bytes) == Hash.HexOf(bytes)
  {
    if bytes != [] {
      LowerHexOfAgreesWithHexOf(bytes[..|bytes| - 1]);
    }
  }

  /** A byte below 16 takes a single character, unlike `fmt_hex`. */
  lemma SmallByteIsOneDigit(u: byte)
    requires u < 16
    ensures LowerHexOf([u]) == [Hash.HexDigit(u as int)]
    ensures |LowerHexOf([u])| == 1 < |Hash.HexOf([u])|
  {
    assert [u][..0] == [];
  }

  /** The rendering is not injective: `[0x01, 0x00]` and `[0x10]` both give "10". */
  lemma NotInjective()
    ensures LowerHexOf([1, 0]) == LowerHexOf([16]) == "10"
  {
    assert [1 as byte, 0][..1] == [1];
    assert [1 as byte][..0] == [];
    assert [16 as byte][..0] == [];
  }
}
