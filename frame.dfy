/** The binary frame of the streaming protocol, `handleBinaryMessage`'s first half:
    a little-endian uint16 length `L`, `L` identifier bytes, then the audio payload;
    and the routing of a decoded identifier `<kind>_<token>_<itemKey>`. */
module Frame {
  import opened Bytes
  import opened Radix
  import opened Results

  /** A decoded frame: the identifier bytes and the audio payload. */
  datatype Frame = Frame(id: seq<byte>, payload: seq<byte>)

  /** The RangeError `getUint16(0, true)` throws on a buffer of fewer than two bytes. */
  datatype DecodeError = TooShort(length: nat)

  /** `DataView.getUint16(0, true)`. */
  function Uint16LE(data: seq<byte>): (n: nat)
    requires |data| >= 2
    ensures n < 0x1_0000
  {
    data[0] as int + data[1] as int * 0x100
  }

  function Min(a: int, b: int): int
  {
    if a <= b then a else b
  }

  /** The field extraction of `handleBinaryMessage`. `slice` clamps its bounds to the buffer,
      so a buffer shorter than the declared length gives a truncated identifier and an
      empty payload. */
  function Decode(data: seq<byte>): (r: Result<Frame, DecodeError>)
    ensures r.Err? <==> |data| < 2
    ensures r.Ok? ==> data == data[..2] + r.value.id + r.value.payload
    ensures r.Ok? ==> |r.value.id| == Min(Uint16LE(data), |data| - 2)
  {
    if |data| < 2 then Err(TooShort(|data|))
    else
      var idLength := Uint16LE(data);
      var idEnd := Min(2 + idLength, |data|);
      Ok(Frame(data[2..idEnd], data[idEnd..]))
  }

  /** The frame a server sends for an identifier that fits the 16-bit length. */
  function Encode(f: Frame): (data: seq<byte>)
    requires |f.id| < 0x1_0000
    ensures |data| == 2 + |f.id| + |f.payload|
    ensures Uint16LE(data) == |f.id|
  {
    [|f.id| % 0x100, |f.id| / 0x100] + f.id + f.payload
  }

  /** Decoding an encoded frame gives the identifier and the payload back. */
  lemma DecodeEncode(f: Frame)
    requires |f.id| < 0x1_0000
    ensures Decode(Encode(f)) == Ok(f)
  {
    var data := Encode(f);
    assert data[2..2 + |f.id|] == f.id;
    assert data[2 + |f.id|..] == f.payload;
  }

  /** A buffer whose declared length fits is the encoding of what it decodes to. */
  lemma EncodeDecode(data: seq<byte>)
    requires |data| >= 2 && 2 + Uint16LE(data) <= |data|
    ensures Decode(data).Ok? && Encode(Decode(data).value) == data
  {
    var f := Decode(data).value;
    assert [data[0], data[1]] == data[..2];
  }

  /** A buffer shorter than its declared length: the identifier is what follows the
      length field and the payload is empty. */
  lemma DecodeTruncated(data: seq<byte>)
    requires |data| >= 2 && |data| < 2 + Uint16LE(data)
    ensures Decode(data) == Ok(Frame(data[2..], []))
  {
    assert Min(2 + Uint16LE(data), |data|) == |data|;
    assert data[2..|data|] == data[2..];
    assert data[|data|..] == [];
  }

  /** Where `handleBinaryMessage` sends a decoded frame. */
  datatype Route =
    | Malformed               // fewer than three `_`-separated parts: logged and dropped
    | RenderItem(key: seq<byte>)  // the token is the current render's: archive under `key`
    | DirectPlay              // any other token: play at once

  /** `renderID.toString()` as the ASCII bytes a frame carries. */
  function Token(renderID: nat): (t: seq<byte>)
    ensures |t| >= 1 && Underscore !in t
  {
    Ascii(Decimal(renderID))
  }

  /** The routing of `handleBinaryMessage`: split on `_`, drop on fewer than three parts,
      compare the second part with the render token as text, archive under the third. */
  function Classify(id: seq<byte>, renderID: nat): (r: Route)
    ensures r.Malformed? <==> Occurrences(id, Underscore) < 2
    ensures r.RenderItem? ==> Underscore !in r.key
  {
    SplitCount(id, Underscore);
    SplitPiecesFree(id, Underscore);
    var parts := Split(id, Underscore);
    if |parts| < 3 then Malformed
    else if parts[1] == Token(renderID) then RenderItem(parts[2])
    else DirectPlay
  }

  /** The route of an identifier depends only on its parts. */
  lemma ClassifyOfParts(id: seq<byte>, parts: seq<seq<byte>>, renderID: nat)
    requires Split(id, Underscore) == parts && |parts| >= 3
    ensures Classify(id, renderID) == if parts[1] == Token(renderID) then RenderItem(parts[2]) else DirectPlay
  {
  }

  /** An identifier made of `kind`, `token`, `key` and any further parts, none holding `_`,
      goes to the archive under `key` exactly when `token` is the render token, and to
      playback otherwise; the parts after the third play no role. */
  lemma ClassifyParts(kind: seq<byte>, token: seq<byte>, key: seq<byte>, more: seq<seq<byte>>, renderID: nat)
    requires Underscore !in kind && Underscore !in token && Underscore !in key
    requires forall i :: 0 <= i < |more| ==> Underscore !in more[i]
    ensures Classify(Join([kind, token, key] + more, Underscore), renderID)
         == if token == Token(renderID) then RenderItem(key) else DirectPlay
  {
    var parts := [kind, token, key] + more;
    SplitJoinPrefixed(kind, token, key, more, Underscore);
    ClassifyOfParts(Join(parts, Underscore), parts, renderID);
  }

  /** The token is compared as exact decimal text: one with a leading zero never matches,
      whatever the render id. */
  lemma LeadingZeroNeverMatches(token: seq<byte>, renderID: nat)
    requires |token| >= 2 && token[0] == '0' as int
    ensures token != Token(renderID)
  {
  }

  /** `"007"` is not the token of render 7, but `"7"` is. */
  lemma TokenExample()
    ensures Token(7) == ['7' as int]
    ensures ['0' as int, '0' as int, '7' as int] != Token(7)
  {
    assert Decimal(7) == "7";
    LeadingZeroNeverMatches(['0' as int, '0' as int, '7' as int], 7);
  }

  /** Distinct render ids have distinct tokens, so a frame matches at most one render. */
  lemma TokenInjective(m: nat, n: nat)
    requires Token(m) == Token(n)
    ensures m == n
  {
    AsciiInjective(Decimal(m), Decimal(n));
    ToRadixInjective(m, n, 10);
  }
}
