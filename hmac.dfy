/**
 * The HMAC example's own logic: `bytesToHex`, which prints a MAC as lowercase
 * hex, two digits per byte, and `readSecretKey`, which looks a key name up in
 * the loaded properties and refuses a missing one. Computing the HMAC itself
 * is a library call and is not modelled.
 */
module Hmac {
  import opened Wrappers
  import opened JavaBytes

  // ---------------------------------------------------------------- hex encoding

  const LowerHexDigits := "0123456789abcdef"

  predicate IsLowerHexChar(c: char) {
    '0' <= c <= '9' || 'a' <= c <= 'f'
  }

  /** The lowercase hex digit for a value below 16. */
  function HexDigit(d: nat): (c: char)
    requires d < 16
    ensures IsLowerHexChar(c)
  {
    LowerHexDigits[d]
  }

  /** `Integer.toHexString(v)` for a non-negative `v`: lowercase digits, most significant first, no leading zeros. */
  function ToHexString(v: nat): (s: string)
    ensures 1 <= |s|
    ensures v < 16 <==> |s| == 1
    ensures forall k :: 0 <= k < |s| ==> IsLowerHexChar(s[k])
    decreases v
  {
    if v < 16 then [HexDigit(v)] else ToHexString(v / 16) + [HexDigit(v % 16)]
  }

  /** Below 256, `toHexString` gives one digit below 16 and two digits from 16 on. */
  lemma ToHexStringBelow256(v: nat)
    requires v < 256
    ensures v < 16 ==> ToHexString(v) == [HexDigit(v)]
    ensures 16 <= v ==> ToHexString(v) == [HexDigit(v / 16), HexDigit(v % 16)]
  {
    if 16 <= v {
      assert v / 16 < 16;
      assert ToHexString(v / 16) == [HexDigit(v / 16)];
    }
  }

  /** The two lowercase hex digits of a byte, high nibble first. */
  function HexPair(b: JByte): string {
    [HexDigit(HighNibble(b)), HexDigit(LowNibble(b))]
  }

  /** A byte's contribution to the output: `toHexString(0xff & b)` with a '0' put in front of a single digit. */
  function ByteHex(b: JByte): (s: string)
    ensures s == HexPair(b)
  {
    var v := Unsigned(b) as nat;
    assert v == b as nat;
    NibbleValues(b);
    ToHexStringBelow256(v);
    var hex := ToHexString(v);
    if |hex| == 1 then "0" + hex else hex
  }

  /** The string `bytesToHex` builds for `bytes`: the bytes' hex pairs in order. */
  function HexOf(bytes: seq<JByte>): (s: string)
    ensures |s| == 2 * |bytes|
    ensures forall k :: 0 <= k < |s| ==> IsLowerHexChar(s[k])
  {
    if |bytes| == 0 then "" else HexOf(bytes[..|bytes| - 1]) + HexPair(bytes[|bytes| - 1])
  }

  /** Characters 2i and 2i+1 are the hex digits of the high and the low nibble of byte i. */
  lemma {:induction false} HexOfAt(bytes: seq<JByte>, i: nat)
    requires i < |bytes|
    ensures HexOf(bytes)[2 * i] == HexDigit(HighNibble(bytes[i]))
    ensures HexOf(bytes)[2 * i + 1] == HexDigit(LowNibble(bytes[i]))
    decreases |bytes|
  {
    var n := |bytes| - 1;
    var prefix := bytes[..n];
    assert HexOf(bytes) == HexOf(prefix) + HexPair(bytes[n]);
    if i < n {
      HexOfAt(prefix, i);
      assert prefix[i] == bytes[i];
    }
  }

  /** Encoding is a homomorphism: the hex of a concatenation is the concatenation of the hexes. */
  lemma {:induction false} HexOfConcat(a: seq<JByte>, b: seq<JByte>)
    ensures HexOf(a + b) == HexOf(a) + HexOf(b)
    decreases |b|
  {
    if |b| == 0 {
      assert a + b == a;
    } else {
      var n := |b| - 1;
      var last := HexPair(b[n]);
      HexOfConcat(a, b[..n]);
      assert (a + b)[..|a + b| - 1] == a + b[..n];
      assert (a + b)[|a + b| - 1] == b[n];
      assert HexOf(a + b) == HexOf(a + b[..n]) + last;
      assert HexOf(b) == HexOf(b[..n]) + last;
      assert HexOf(a + b) == (HexOf(a) + HexOf(b[..n])) + last;
    }
  }

  /** `bytesToHex(bytes)`: a for-each loop appending each byte's hex pair to a `StringBuilder`. */
  method BytesToHex(bytes: array<JByte>) returns (hex: string)
    ensures hex == HexOf(bytes[..])
    ensures |hex| == 2 * bytes.Length
  {
    hex := "";
    for i := 0 to bytes.Length
      invariant hex == HexOf(bytes[..i])
    {
      assert bytes[..i + 1][..i] == bytes[..i];
      assert HexOf(bytes[..i + 1]) == hex + HexPair(bytes[i]);
      ghost var before := hex;
      var h := ToHexString(Unsigned(bytes[i]) as nat);
      if |h| == 1 {
        hex := hex + "0";
      }
      hex := hex + h;
      assert hex == before + ByteHex(bytes[i]);
    }
    assert bytes[..bytes.Length] == bytes[..];
  }

  // ---------------------------------------------------------------- readSecretKey

  /** The outcome of `Properties.load` on the properties file. */
  datatype PropertiesLoad = LoadFailed | Loaded(properties: map<string, string>)

  /** `IOException` from loading, or the `IllegalArgumentException` for a missing key. */
  datatype KeyError = IoFailure | KeyNotFound(message: string)

  function KeyNotFoundMessage(filePath: string, keyName: string): string {
    "Key '" + keyName + "' not found in file: " + filePath
  }

  /** `readSecretKey(filePath, keyName)`, with the result of loading the file as input. */
  function ReadSecretKey(filePath: string, keyName: string, load: PropertiesLoad): (r: Result<string, KeyError>)
    ensures load.LoadFailed? ==> r == Failure(IoFailure)
    ensures load.Loaded? ==> (r.Success? <==> keyName in load.properties)
    ensures r.Success? ==> load.Loaded? && keyName in load.properties && r.value == load.properties[keyName]
    ensures load.Loaded? && keyName !in load.properties ==> r == Failure(KeyNotFound(KeyNotFoundMessage(filePath, keyName)))
  {
    match load
    case LoadFailed => Failure(IoFailure)
    case Loaded(properties) =>
      if keyName in properties then Success(properties[keyName])
      else Failure(KeyNotFound(KeyNotFoundMessage(filePath, keyName)))
  }
}
