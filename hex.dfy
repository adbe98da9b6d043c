/** `hex`: the lower-case hexadecimal text of a digest, written one 32-bit word at a time. */
module Hex {
  import opened Bytes
  import opened Radix
  import opened Results

  /** `DataView.getUint32(i)`: the big-endian word at byte offset `i`. */
  function Uint32At(b: seq<byte>, i: nat): (w: nat)
    requires i + 4 <= |b|
    ensures w < 0x1_0000_0000
  {
    ((b[i] as int * 0x100 + b[i + 1] as int) * 0x100 + b[i + 2] as int) * 0x100 + b[i + 3] as int
  }

  /** The eight-character zero padding of `hex`. */
  const Padding: string := "00000000"

  /** `(padding + s).slice(-padding.length)`: the last eight characters of `s` behind the padding. */
  function PadTo8(s: string): (r: string)
    ensures |r| == 8
  {
    var padded := Padding + s;
    padded[|padded| - |Padding|..]
  }

  /** One word as `hex` writes it. */
  function WordHex(w: nat): (r: string)
    ensures |r| == 8
    ensures forall i :: 0 <= i < 8 ==> IsDigit(r[i], 16)
  {
    var padded := Padding + ToRadix(w, 16);
    assert forall j :: 0 <= j < |padded| ==> IsDigit(padded[j], 16);
    PadTo8(ToRadix(w, 16))
  }

  /** The text `hex` builds for a buffer whose length is a multiple of four:
      the padded text of each word, in order. */
  function HexOfWords(b: seq<byte>): (r: string)
    requires |b| % 4 == 0
    ensures |r| == 2 * |b|
    ensures forall i :: 0 <= i < |r| ==> IsDigit(r[i], 16)
    decreases |b|
  {
    if b == [] then "" else HexOfWords(b[..|b| - 4]) + WordHex(Uint32At(b, |b| - 4))
  }

  /** The RangeError `getUint32` throws when fewer than four bytes remain. */
  datatype RangeError = OffsetOutsideBounds(offset: nat)

  /** `hex(buffer)`. On a length that is not a multiple of four the last `getUint32` throws. */
  method Hex(buffer: seq<byte>) returns (r: Result<string, RangeError>)
    ensures r.Ok? <==> |buffer| % 4 == 0
    ensures r.Ok? ==> r.value == HexOfWords(buffer)
    ensures r.Err? ==> r.error == OffsetOutsideBounds(|buffer| - |buffer| % 4)
  {
    var hexCodes: seq<string> := [];
    var i := 0;
    while i < |buffer|
      invariant i <= |buffer| && i % 4 == 0
      invariant Concat(hexCodes) == HexOfWords(buffer[..i])
    {
      if i + 4 > |buffer| {
        PartialWord(|buffer|, i);
        return Err(OffsetOutsideBounds(i));
      }
      var value := Uint32At(buffer, i);
      var stringValue := ToRadix(value, 16);
      var paddedValue := (Padding + stringValue)[|Padding + stringValue| - |Padding|..];
      HexOfWordsStep(buffer, i);
      ConcatSnoc(hexCodes, paddedValue);
      hexCodes := hexCodes + [paddedValue];
      i := i + 4;
    }
    assert buffer[..i] == buffer;
    r := Ok(Concat(hexCodes));
  }

  /** One more word extends the text of the prefix by that word's padded hex. */
  lemma HexOfWordsStep(b: seq<byte>, i: nat)
    requires i % 4 == 0 && i + 4 <= |b|
    ensures HexOfWords(b[..i + 4]) == HexOfWords(b[..i]) + WordHex(Uint32At(b, i))
  {
    assert b[..i + 4][..i] == b[..i];
    assert Uint32At(b[..i + 4], i) == Uint32At(b, i);
  }

  /** An offset at a word boundary with fewer than four bytes left is the length rounded
      down to a multiple of four. */
  lemma PartialWord(n: nat, i: nat)
    requires i % 4 == 0 && i < n < i + 4
    ensures n % 4 != 0 && i == n - n % 4
  {
  }

  /** One byte as two lower-case hexadecimal digits, high nibble first. */
  function ByteHex(x: byte): (s: string)
    ensures |s| == 2 && IsDigit(s[0], 16) && IsDigit(s[1], 16)
  {
    [Digit(x / 16), Digit(x % 16)]
  }

  /** Reference encoding: every byte as two digits, in order. */
  function BytewiseHex(b: seq<byte>): (s: string)
    ensures |s| == 2 * |b|
  {
    if b == [] then "" else BytewiseHex(b[..|b| - 1]) + ByteHex(b[|b| - 1])
  }

  /** The byte-wise encoding uses hexadecimal digits only. */
  lemma {:induction false} BytewiseHexDigits(b: seq<byte>)
    ensures forall i :: 0 <= i < |BytewiseHex(b)| ==> IsDigit(BytewiseHex(b)[i], 16)
    decreases |b|
  {
    if b != [] {
      BytewiseHexDigits(b[..|b| - 1]);
    }
  }

  /** The two digits of a byte read back as that byte. */
  lemma UnhexByte(x: byte)
    ensures DigitValue(ByteHex(x)[0]) * 16 + DigitValue(ByteHex(x)[1]) == x
  {
    DivMod(x, 16);
  }

  /** Decoding two digits per byte. */
  function Unhex(s: string): seq<byte>
    requires |s| % 2 == 0
    requires forall i :: 0 <= i < |s| ==> IsDigit(s[i], 16)
  {
    if s == [] then []
    else
      assert IsDigit(s[|s| - 2], 16) && IsDigit(s[|s| - 1], 16);
      Unhex(s[..|s| - 2]) + [(DigitValue(s[|s| - 2]) * 16 + DigitValue(s[|s| - 1])) as byte]
  }

  /** The byte-wise encoding loses nothing. */
  lemma {:induction false} UnhexBytewise(b: seq<byte>)
    ensures forall i :: 0 <= i < |BytewiseHex(b)| ==> IsDigit(BytewiseHex(b)[i], 16)
    ensures Unhex(BytewiseHex(b)) == b
    decreases |b|
  {
    BytewiseHexDigits(b);
    if b != [] {
      var s := BytewiseHex(b);
      var front, last := b[..|b| - 1], b[|b| - 1];
      UnhexBytewise(front);
      var p, h := BytewiseHex(front), ByteHex(last);
      assert s == p + h;
      assert s[..|s| - 2] == p;
      assert s[|s| - 2] == h[0] && s[|s| - 1] == h[1];
      UnhexByte(last);
      assert b == front + [last];
    }
  }

  lemma PadTo8Pads(s: string)
    requires |s| <= 8
    ensures PadTo8(s) == Zeros(8 - |s|) + s
  {
    var padded := Padding + s;
    assert padded[|padded| - 8..] == Padding[|s|..] + s;
  }

  lemma PowersOf16()
    ensures Pow(16, 2) == 0x100 && Pow(16, 4) == 0x1_0000
    ensures Pow(16, 6) == 0x100_0000 && Pow(16, 8) == 0x1_0000_0000
  {
    assert Pow(16, 1) == 16;
    assert Pow(16, 2) == 0x100;
    assert Pow(16, 3) == 0x1000;
    assert Pow(16, 4) == 0x1_0000;
    assert Pow(16, 5) == 0x10_0000;
    assert Pow(16, 6) == 0x100_0000;
    assert Pow(16, 7) == 0x1000_0000;
  }

  /** `toString(16)` of a 32-bit word, padded to eight characters, is its eight-digit form. */
  lemma WordHexFixed(w: nat)
    requires w < 0x1_0000_0000
    ensures WordHex(w) == FixedWidth(w, 16, 8)
  {
    PowersOf16();
    PaddedRadix(w, 16, 8);
    PadTo8Pads(ToRadix(w, 16));
  }

  lemma RegroupTail<T>(a: seq<T>, b: seq<T>, c: seq<T>, d: seq<T>, e: seq<T>)
    ensures a + (b + c + d + e) == a + b + c + d + e
  {
  }

  /** Quotient and remainder by 16 and by 256 agree digit by digit. */
  lemma DivBy16Twice(n: nat)
    ensures n / 16 / 16 == n / 0x100
    ensures n / 16 % 16 == n % 0x100 / 16 && n % 16 == n % 0x100 % 16
  {
  }

  /** The last two digits of a base-16 fixed-width form are the last byte's. */
  lemma PeelByte(n: nat, high: nat, low: byte, width: nat)
    requires n == high * 0x100 + low as int
    ensures FixedWidth(n, 16, width + 2) == FixedWidth(high, 16, width) + ByteHex(low)
  {
    FixedWidthStep(n, 16, width + 2);
    FixedWidthStep(n / 16, 16, width + 1);
    DivBy16Twice(n);
    assert n / 0x100 == high && n % 0x100 == low as int;
  }

  /** The eight-digit form of a big-endian word is the two-digit forms of its bytes. */
  lemma WordFixedBytes(x0: byte, x1: byte, x2: byte, x3: byte)
    ensures var w := ((x0 as int * 0x100 + x1 as int) * 0x100 + x2 as int) * 0x100 + x3 as int;
      FixedWidth(w, 16, 8) == ByteHex(x0) + ByteHex(x1) + ByteHex(x2) + ByteHex(x3)
  {
    var w2 := x0 as int * 0x100 + x1 as int;
    var w1 := w2 * 0x100 + x2 as int;
    var w := w1 * 0x100 + x3 as int;
    PeelByte(w, w1, x3, 6);
    PeelByte(w1, w2, x2, 4);
    PeelByte(w2, x0 as int, x1, 2);
    PeelByte(x0 as int, 0, x0, 0);
    assert FixedWidth(0, 16, 0) == [];
    var b0, b1, b2, b3 := ByteHex(x0), ByteHex(x1), ByteHex(x2), ByteHex(x3);
    var f8, f6, f4, f2 := FixedWidth(w, 16, 8), FixedWidth(w1, 16, 6), FixedWidth(w2, 16, 4), FixedWidth(x0 as int, 16, 2);
    Chain4(f8, f6, f4, f2, b0, b1, b2, b3);
  }

  lemma Chain4<T>(f8: seq<T>, f6: seq<T>, f4: seq<T>, f2: seq<T>, b0: seq<T>, b1: seq<T>, b2: seq<T>, b3: seq<T>)
    requires f8 == f6 + b3 && f6 == f4 + b2 && f4 == f2 + b1 && f2 == b0
    ensures f8 == b0 + b1 + b2 + b3
  {
  }

  /** A word's padded text is the two-digit texts of its four bytes, most significant first. */
  lemma WordHexBytes(b: seq<byte>, i: nat)
    requires i + 4 <= |b|
    ensures WordHex(Uint32At(b, i)) == ByteHex(b[i]) + ByteHex(b[i + 1]) + ByteHex(b[i + 2]) + ByteHex(b[i + 3])
  {
    WordHexFixed(Uint32At(b, i));
    WordFixedBytes(b[i], b[i + 1], b[i + 2], b[i + 3]);
  }

  /** The last byte's digits come last. */
  lemma BytewiseHexSnoc(b: seq<byte>, n: nat)
    requires 1 <= n <= |b|
    ensures BytewiseHex(b[..n]) == BytewiseHex(b[..n - 1]) + ByteHex(b[n - 1])
  {
    assert b[..n][..n - 1] == b[..n - 1];
  }

  lemma BytewiseHexLast4(b: seq<byte>)
    requires |b| >= 4
    ensures BytewiseHex(b) == BytewiseHex(b[..|b| - 4]) + ByteHex(b[|b| - 4]) + ByteHex(b[|b| - 3])
                              + ByteHex(b[|b| - 2]) + ByteHex(b[|b| - 1])
  {
    var n := |b|;
    BytewiseHexSnoc(b, n - 3);
    BytewiseHexSnoc(b, n - 2);
    BytewiseHexSnoc(b, n - 1);
    BytewiseHexSnoc(b, n);
    assert b[..n] == b;
  }

  /** `hex` writes every byte as exactly two lower-case digits, in order. */
  lemma {:induction false} HexOfWordsBytewise(b: seq<byte>)
    requires |b| % 4 == 0
    ensures HexOfWords(b) == BytewiseHex(b)
    decreases |b|
  {
    if b != [] {
      var n := |b|;
      var front := b[..n - 4];
      var word := WordHex(Uint32At(b, n - 4));
      assert HexOfWords(b) == HexOfWords(front) + word;
      HexOfWordsBytewise(front);
      WordHexBytes(b, n - 4);
      BytewiseHexLast4(b);
      RegroupTail(BytewiseHex(front), ByteHex(b[n - 4]), ByteHex(b[n - 3]), ByteHex(b[n - 2]), ByteHex(b[n - 1]));
    }
  }

  /** What `hex` returns decodes back to the buffer, and is twice as long:
      64 characters for a 32-byte SHA-256 digest. */
  lemma HexRoundTrip(b: seq<byte>)
    requires |b| % 4 == 0
    ensures |HexOfWords(b)| == 2 * |b|
    ensures forall i :: 0 <= i < |HexOfWords(b)| ==> IsDigit(HexOfWords(b)[i], 16)
    ensures Unhex(HexOfWords(b)) == b
    ensures |b| == 32 ==> |HexOfWords(b)| == 64
  {
    HexOfWordsBytewise(b);
    BytewiseHexDigits(b);
    UnhexBytewise(b);
  }
}
