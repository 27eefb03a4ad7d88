/**
 * The two halves of the hex format side by side: `bytesToHex` of the HMAC
 * example writes bytes as hex, `findClassBytes` of the class loader reads hex
 * back, two characters per byte. Encoding then decoding is the identity, and
 * a class file stored as the hex of its bytes XOR-ed with 0xCC loads as
 * exactly those bytes.
 */
module HexRoundTrip {
  import opened Wrappers
  import opened JavaBytes
  import Hmac
  import Classloader

  /** Every digit `bytesToHex` writes is one that decoding accepts, with the value it was written for. */
  lemma DigitRoundTrip(d: nat)
    requires d < 16
    ensures Classloader.IsHexChar(Hmac.HexDigit(d) as nat)
    ensures Classloader.HexDigitValue(Hmac.HexDigit(d) as nat) == Some(d)
  {
  }

  /** Two digits written for the values `hi` and `lo` decode to the value 16 * hi + lo. */
  lemma DigitPairValue(hi: nat, lo: nat)
    requires hi < 16 && lo < 16
    ensures Classloader.IsHexChar(Hmac.HexDigit(hi) as nat) && Classloader.IsHexChar(Hmac.HexDigit(lo) as nat)
    ensures Classloader.PairValue(Hmac.HexDigit(hi) as nat, Hmac.HexDigit(lo) as nat) == 16 * hi + lo
  {
    DigitRoundTrip(hi);
    DigitRoundTrip(lo);
  }

  /** The two digits written for a byte decode to that byte. */
  lemma ByteRoundTrip(x: JByte)
    ensures Classloader.IsHexChar(Hmac.HexDigit(HighNibble(x)) as nat) && Classloader.IsHexChar(Hmac.HexDigit(LowNibble(x)) as nat)
    ensures Classloader.PairByte(Hmac.HexDigit(HighNibble(x)) as nat, Hmac.HexDigit(LowNibble(x)) as nat) == x
  {
    DigitPairValue(HighNibble(x), LowNibble(x));
    NibblesOfByte(x);
  }

  /** A byte is put back together from its high and low nibble. */
  lemma NibblesOfByte(x: JByte)
    ensures (16 * HighNibble(x) + LowNibble(x)) as JByte == x
  {
    NibbleValues(x);
  }

  /** The `char`s of the hex of `b` are its characters, one code unit each, all hex digits. */
  lemma HexUnits(b: seq<JByte>)
    ensures |Classloader.ToCharArray(Hmac.HexOf(b))| == |Hmac.HexOf(b)|
    ensures forall k :: 0 <= k < |Hmac.HexOf(b)| ==>
              Classloader.ToCharArray(Hmac.HexOf(b))[k] == Hmac.HexOf(b)[k] as nat &&
              Classloader.IsHexChar(Classloader.ToCharArray(Hmac.HexOf(b))[k])
  {
    var hex := Hmac.HexOf(b);
    forall k | 0 <= k < |hex| ensures hex[k] as nat < 0x1_0000 {
      assert Hmac.IsLowerHexChar(hex[k]);
    }
    Classloader.ToCharArrayBmp(hex);
    forall k | 0 <= k < |hex| ensures Classloader.IsHexChar(hex[k] as nat) {
      assert Hmac.IsLowerHexChar(hex[k]);
    }
  }

  /** The pair of `char`s written for byte m of `b` decodes to that byte. */
  lemma PairOfHex(b: seq<JByte>, m: nat)
    requires m < |b|
    ensures 2 * m + 1 < |Classloader.ToCharArray(Hmac.HexOf(b))|
    ensures var units := Classloader.ToCharArray(Hmac.HexOf(b));
            Classloader.IsHexChar(units[2 * m]) && Classloader.IsHexChar(units[2 * m + 1]) &&
            Classloader.PairByte(units[2 * m], units[2 * m + 1]) == b[m]
  {
    HexUnits(b);
    Hmac.HexOfAt(b, m);
    ByteRoundTrip(b[m]);
  }

  /** `char`s that hold, pair by pair, the digits of the bytes `b` decode to `b`. */
  lemma DecodePairs(units: seq<Classloader.JChar>, b: seq<JByte>)
    requires |units| == 2 * |b|
    requires forall m :: 0 <= m < |b| ==>
               Classloader.IsHexChar(units[2 * m]) && Classloader.IsHexChar(units[2 * m + 1]) &&
               Classloader.PairByte(units[2 * m], units[2 * m + 1]) == b[m]
    ensures Classloader.HexDecode(units) == Success(b)
  {
    forall k | 0 <= k < |units| ensures Classloader.IsHexChar(units[k]) {
      if k % 2 == 0 { assert units[2 * (k / 2)] == units[k]; }
      else { assert units[2 * (k / 2) + 1] == units[k]; }
    }
    Classloader.HexDecodeSucceeds(units);
    Classloader.HexDecodeBytes(units);
    var out := Classloader.HexDecode(units).value;
    assert |out| == |b|;
    assert forall m :: 0 <= m < |b| ==> out[m] == b[m];
    assert out == b;
  }

  /** Decoding the `char`s of the hex of `b` gives `b` back. */
  lemma HexDecodeOfHex(b: seq<JByte>)
    ensures Classloader.HexDecode(Classloader.ToCharArray(Hmac.HexOf(b))) == Success(b)
  {
    var units := Classloader.ToCharArray(Hmac.HexOf(b));
    HexUnits(b);
    forall m | 0 <= m < |b|
      ensures Classloader.IsHexChar(units[2 * m]) && Classloader.IsHexChar(units[2 * m + 1]) &&
              Classloader.PairByte(units[2 * m], units[2 * m + 1]) == b[m]
    {
      PairOfHex(b, m);
    }
    DecodePairs(units, b);
  }

  /** A class encrypted with 0xCC and stored as the hex of the result loads as the original bytes. */
  lemma EncryptedClassRoundTrip(className: string, classBytes: seq<JByte>)
    ensures Classloader.ClassBytes(className, Classloader.Line(Hmac.HexOf(Classloader.XorAll(classBytes, Classloader.XorKey))))
            == Success(classBytes)
  {
    HexDecodeOfHex(Classloader.XorAll(classBytes, Classloader.XorKey));
    Classloader.XorAllInvolution(classBytes, Classloader.XorKey);
  }
}
