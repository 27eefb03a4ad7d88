/**
 * The encrypted class loader: a class file is stored as one line of hex text,
 * the text is hex-decoded into bytes, and every byte is XOR-ed with the fixed
 * key 0xCC (`findClassBytes`, `xorBytes`, `xorByte`).
 *
 * Hex decoding is `Hex.decodeHex` of Apache Commons Codec. The library's code
 * is not in the repository; `HexDecode` follows its documented behaviour: an
 * odd number of characters is refused first, then the characters are taken two
 * at a time, high digit first, and the first one that is not a hex digit is
 * refused. It is handed `content.toCharArray()`, so its characters are Java
 * `char`s, the UTF-16 code units of the line (`ToCharArray`).
 */
module Classloader {
  import opened Wrappers
  import opened JavaBytes

  // ---------------------------------------------------------------- XOR

  /** The key `findClassBytes` decrypts with. */
  const XorKey: JInt := 0xCC

  /** `xorByte(a, key)`: widen the signed byte, XOR with the int key, cast back to a byte. */
  function XorByte(a: JByte, key: JInt): (r: JByte)
    ensures r == a ^ ToByte(key)
  {
    ToByteSignExtend(a);
    ToByteXor(SignExtend(a), key);
    ToByte(SignExtend(a) ^ key)
  }

  /** The bytes `xorBytes` produces: the same length, each byte XOR-ed with the low byte of the key. */
  function XorAll(s: seq<JByte>, key: JInt): (r: seq<JByte>)
    ensures |r| == |s|
    ensures forall i :: 0 <= i < |s| ==> r[i] == s[i] ^ ToByte(key)
  {
    seq(|s|, i requires 0 <= i < |s| => XorByte(s[i], key))
  }

  /** XOR with a fixed key is an involution: decrypting with 0xCC undoes encrypting with 0xCC. */
  lemma XorAllInvolution(s: seq<JByte>, key: JInt)
    ensures XorAll(XorAll(s, key), key) == s
  {
    var once := XorAll(s, key);
    var twice := XorAll(once, key);
    forall i | 0 <= i < |s| ensures twice[i] == s[i] {
      assert once[i] == s[i] ^ ToByte(key);
    }
  }

  /** `xorBytes(bytes, key)`: a new array, filled index by index; the input is only read. */
  method XorBytes(bytes: array<JByte>, key: JInt) returns (result: array<JByte>)
    ensures fresh(result)
    ensures result[..] == XorAll(bytes[..], key)
  {
    result := new JByte[bytes.Length];
    for i := 0 to bytes.Length
      invariant forall k :: 0 <= k < i ==> result[k] == XorByte(bytes[k], key)
    {
      result[i] := XorByte(bytes[i], key);
    }
  }

  // ---------------------------------------------------------------- toCharArray

  /** A Java `char`: one UTF-16 code unit. */
  type JChar = u: nat | u < 0x1_0000

  /** The UTF-16 code units of one character: itself below U+10000, otherwise a high and a low surrogate. */
  function CodeUnits(c: char): (u: seq<JChar>)
    ensures c as nat < 0x1_0000 ==> u == [c as nat]
    ensures c as nat >= 0x1_0000 ==>
              |u| == 2 && 0xD800 <= u[0] < 0xDC00 && 0xDC00 <= u[1] < 0xE000 &&
              0x1_0000 + 0x400 * (u[0] as int - 0xD800) + (u[1] as int - 0xDC00) == c as int
  {
    var n := c as nat;
    if n < 0x1_0000 then [n]
    else [0xD800 + (n - 0x1_0000) / 0x400, 0xDC00 + (n - 0x1_0000) % 0x400]
  }

  /** `String.toCharArray()`: the string's UTF-16 code units, character by character. */
  function ToCharArray(s: string): (units: seq<JChar>)
    ensures |units| >= |s|
  {
    if |s| == 0 then [] else CodeUnits(s[0]) + ToCharArray(s[1..])
  }

  /** A string with no character above U+FFFF has one code unit per character, the character's own code. */
  lemma {:induction false} ToCharArrayBmp(s: string)
    requires forall i :: 0 <= i < |s| ==> s[i] as nat < 0x1_0000
    ensures |ToCharArray(s)| == |s|
    ensures forall i :: 0 <= i < |s| ==> ToCharArray(s)[i] == s[i] as nat
  {
    if |s| > 0 {
      ToCharArrayBmp(s[1..]);
      assert ToCharArray(s) == [s[0] as nat] + ToCharArray(s[1..]);
    }
  }

  // ---------------------------------------------------------------- hex decoding

  predicate IsHexChar(c: JChar) {
    '0' as nat <= c <= '9' as nat || 'a' as nat <= c <= 'f' as nat || 'A' as nat <= c <= 'F' as nat
  }

  /** `Character.digit(c, 16)` on ASCII: the digit's value, or `None` where Java returns -1. */
  function HexDigitValue(c: JChar): (v: Option<nat>)
    ensures v.Some? <==> IsHexChar(c)
    ensures v.Some? ==> v.value < 16
  {
    if '0' as nat <= c <= '9' as nat then Some(c - '0' as nat)
    else if 'a' as nat <= c <= 'f' as nat then Some(c - 'a' as nat + 10)
    else if 'A' as nat <= c <= 'F' as nat then Some(c - 'A' as nat + 10)
    else None
  }

  /** Each of the sixteen digits has its value in both cases: `'0'`..`'9'` are 0..9, `'a'`..`'f'` and `'A'`..`'F'` are 10..15. */
  lemma HexDigitValues(d: nat)
    requires d < 16
    ensures HexDigitValue("0123456789abcdef"[d] as nat) == Some(d)
    ensures HexDigitValue("0123456789ABCDEF"[d] as nat) == Some(d)
  {
  }

  /** Conversely, every hex digit is the lower- or the upper-case digit written for its value. */
  lemma HexDigitValueInverse(c: JChar)
    requires IsHexChar(c)
    ensures c == "0123456789abcdef"[HexDigitValue(c).value] as nat || c == "0123456789ABCDEF"[HexDigitValue(c).value] as nat
  {
  }

  /** A value a byte can hold when read as unsigned. */
  type Octet = n: nat | n < 256

  /** The value 0..255 a pair of hex digits stands for, high digit first. */
  function PairValue(hi: JChar, lo: JChar): Octet
    requires IsHexChar(hi) && IsHexChar(lo)
  {
    16 * HexDigitValue(hi).value + HexDigitValue(lo).value
  }

  /** The byte a pair of hex digits stands for. */
  function PairByte(hi: JChar, lo: JChar): JByte
    requires IsHexChar(hi) && IsHexChar(lo)
  {
    PairValue(hi, lo) as JByte
  }

  /** The two `DecoderException`s of `Hex.decodeHex`. */
  datatype DecodeError = OddNumberOfCharacters | IllegalHexCharacter(c: JChar, index: nat)

  /** `Hex.decodeHex`: an odd length is refused first; then each pair of digits becomes one byte. */
  function HexDecode(data: seq<JChar>): (r: Result<seq<JByte>, DecodeError>)
    ensures r == Failure(OddNumberOfCharacters) <==> |data| % 2 != 0
    ensures r.Failure? && r.error.IllegalHexCharacter? ==>
              r.error.index < |data| && data[r.error.index] == r.error.c && !IsHexChar(r.error.c) &&
              forall k :: 0 <= k < r.error.index ==> IsHexChar(data[k])
  {
    if |data| % 2 != 0 then Failure(OddNumberOfCharacters)
    else match DecodeFrom(data, 0)
      case Failure(e) => Failure(e)
      case Success(values) => Success(seq(|values|, i requires 0 <= i < |values| => values[i] as JByte))
  }

  /** Decodes `data[j..]`, two code units per value, stopping at the first character that is not a hex digit. */
  function DecodeFrom(data: seq<JChar>, j: nat): (r: Result<seq<Octet>, DecodeError>)
    requires j <= |data| && (|data| - j) % 2 == 0
    ensures r.Failure? ==>
              r.error.IllegalHexCharacter? && j <= r.error.index < |data| &&
              data[r.error.index] == r.error.c && !IsHexChar(r.error.c) &&
              forall k :: j <= k < r.error.index ==> IsHexChar(data[k])
    decreases |data| - j
  {
    if j == |data| then Success([])
    else if !IsHexChar(data[j]) then Failure(IllegalHexCharacter(data[j], j))
    else if !IsHexChar(data[j + 1]) then Failure(IllegalHexCharacter(data[j + 1], j + 1))
    else match DecodeFrom(data, j + 2)
      case Failure(e) => Failure(e)
      case Success(rest) => Success([PairValue(data[j], data[j + 1])] + rest)
  }

  /** Decoding from position j succeeds exactly when every remaining character is a hex digit. */
  lemma {:induction false} DecodeFromSucceeds(data: seq<JChar>, j: nat)
    requires j <= |data| && (|data| - j) % 2 == 0
    ensures DecodeFrom(data, j).Success? <==> forall k :: j <= k < |data| ==> IsHexChar(data[k])
    decreases |data| - j
  {
    if j < |data| && IsHexChar(data[j]) && IsHexChar(data[j + 1]) {
      DecodeFromSucceeds(data, j + 2);
      assert (forall k :: j <= k < |data| ==> IsHexChar(data[k])) <==>
             (forall k :: j + 2 <= k < |data| ==> IsHexChar(data[k]));
    }
  }

  /** A successful decode from position j yields one value per remaining pair of characters, in order. */
  lemma {:induction false} DecodeFromValues(data: seq<JChar>, j: nat)
    requires j <= |data| && (|data| - j) % 2 == 0
    requires DecodeFrom(data, j).Success?
    ensures forall k :: j <= k < |data| ==> IsHexChar(data[k])
    ensures 2 * |DecodeFrom(data, j).value| == |data| - j
    ensures forall m :: 0 <= m < |DecodeFrom(data, j).value| ==>
              DecodeFrom(data, j).value[m] == PairValue(data[j + 2 * m], data[j + 2 * m + 1])
    decreases |data| - j
  {
    DecodeFromSucceeds(data, j);
    if j < |data| {
      DecodeFromValues(data, j + 2);
      var rest := DecodeFrom(data, j + 2).value;
      var out := DecodeFrom(data, j).value;
      assert out == [PairValue(data[j], data[j + 1])] + rest;
      forall m | 0 <= m < |out| ensures out[m] == PairValue(data[j + 2 * m], data[j + 2 * m + 1]) {
        if m > 0 {
          assert out[m] == rest[m - 1];
          assert j + 2 + 2 * (m - 1) == j + 2 * m;
        }
      }
    }
  }

  /** Decoding succeeds exactly for a string of even length made of hex digits only. */
  lemma HexDecodeSucceeds(data: seq<JChar>)
    ensures HexDecode(data).Success? <==> |data| % 2 == 0 && forall k :: 0 <= k < |data| ==> IsHexChar(data[k])
  {
    if |data| % 2 == 0 { DecodeFromSucceeds(data, 0); }
  }

  /** A successful decode yields half as many bytes as there were characters, byte m coming from characters 2m and 2m+1. */
  lemma HexDecodeBytes(data: seq<JChar>)
    requires HexDecode(data).Success?
    ensures 2 * |HexDecode(data).value| == |data|
    ensures forall k :: 0 <= k < |data| ==> IsHexChar(data[k])
    ensures forall m :: 0 <= m < |HexDecode(data).value| ==>
              HexDecode(data).value[m] == PairByte(data[2 * m], data[2 * m + 1])
  {
    HexDecodeSucceeds(data);
    DecodeFromValues(data, 0);
  }

  // ---------------------------------------------------------------- findClassBytes

  /** What `readString` hands back: an `IOException`, `null` (an empty file), or the file's first line. */
  datatype FileRead = IoFailure | EndOfFile | Line(text: string)

  /** The exception `findClassBytes` wraps as the cause of its `IllegalStateException`. */
  datatype Cause = IOException | DecoderException(error: DecodeError)

  /** The exceptions `findClassBytes` lets out. */
  datatype LoadError = IllegalState(message: string, cause: Cause) | NullPointer

  function LoadFailureMessage(className: string): string {
    "Can't read byte array for class " + className
  }

  /**
   * The decode pipeline of `findClassBytes`: read, hex-decode the line's
   * `char`s, XOR with 0xCC. A read or decode failure is re-thrown as
   * `IllegalStateException` with that failure as its cause. An empty file makes
   * `readLine` return null, and `content.toCharArray()` then throws a
   * `NullPointerException` that the `catch` does not cover.
   */
  function ClassBytes(className: string, read: FileRead): (r: Result<seq<JByte>, LoadError>)
    ensures r.Failure? && r.error.IllegalState? ==> r.error.message == LoadFailureMessage(className)
    ensures r.Failure? && r.error.IllegalState? && r.error.cause.DecoderException? ==>
              read.Line? && HexDecode(ToCharArray(read.text)) == Failure(r.error.cause.error)
    ensures r.Success? ==> read.Line? && 2 * |r.value| == |ToCharArray(read.text)|
  {
    match read
    case IoFailure => Failure(IllegalState(LoadFailureMessage(className), IOException))
    case EndOfFile => Failure(NullPointer)
    case Line(text) =>
      var units := ToCharArray(text);
      match HexDecode(units)
      case Failure(e) => Failure(IllegalState(LoadFailureMessage(className), DecoderException(e)))
      case Success(encrypted) =>
        HexDecodeBytes(units);
        Success(XorAll(encrypted, XorKey))
  }

  /**
   * Loading fails with `IllegalStateException` exactly on a read failure or on a
   * line whose `char`s are not valid hex, the cause being the `IOException` or
   * the decoder's error; it fails with `NullPointerException` exactly on an empty file.
   */
  lemma ClassBytesFailure(className: string, read: FileRead, e: DecodeError)
    ensures ClassBytes(className, read).Failure? && ClassBytes(className, read).error.IllegalState? <==>
              read.IoFailure? ||
              (read.Line? && (|ToCharArray(read.text)| % 2 != 0 ||
                              exists k :: 0 <= k < |ToCharArray(read.text)| && !IsHexChar(ToCharArray(read.text)[k])))
    ensures ClassBytes(className, read) == Failure(IllegalState(LoadFailureMessage(className), IOException)) <==> read.IoFailure?
    ensures ClassBytes(className, read) == Failure(IllegalState(LoadFailureMessage(className), DecoderException(e))) <==>
              read.Line? && HexDecode(ToCharArray(read.text)) == Failure(e)
    ensures ClassBytes(className, read) == Failure(NullPointer) <==> read.EndOfFile?
  {
    if read.Line? { HexDecodeSucceeds(ToCharArray(read.text)); }
  }

  /** A loaded class has half as many bytes as its hex line has `char`s, byte m being the XOR of the pair at 2m with the key. */
  lemma ClassBytesDecoded(className: string, read: FileRead, m: nat)
    requires ClassBytes(className, read).Success? && m < |ClassBytes(className, read).value|
    ensures read.Line? && 2 * |ClassBytes(className, read).value| == |ToCharArray(read.text)|
    ensures var units := ToCharArray(read.text);
            IsHexChar(units[2 * m]) && IsHexChar(units[2 * m + 1]) &&
            ClassBytes(className, read).value[m] == PairByte(units[2 * m], units[2 * m + 1]) ^ 0xCC
  {
    HexDecodeBytes(ToCharArray(read.text));
    HexDecodeSucceeds(ToCharArray(read.text));
  }

  /** A line counts its characters above U+FFFF as two `char`s each, as `toCharArray()` does. */
  lemma SurrogatePairsCountTwice()
    ensures HexDecode(ToCharArray("\U{1F600}0")) == Failure(OddNumberOfCharacters)
    ensures HexDecode(ToCharArray("\U{1F600}00")) == Failure(IllegalHexCharacter(0xD83D, 0))
  {
    assert ToCharArray("\U{1F600}0") == [0xD83D, 0xDE00, '0' as nat];
    assert ToCharArray("\U{1F600}00") == [0xD83D, 0xDE00, '0' as nat, '0' as nat];
  }

  /** `findClassBytes(className)`, with the file's content as input. */
  method FindClassBytes(className: string, read: FileRead) returns (r: Result<array<JByte>, LoadError>)
    ensures r.Success? <==> ClassBytes(className, read).Success?
    ensures r.Failure? ==> ClassBytes(className, read) == Failure(r.error)
    ensures r.Success? ==> fresh(r.value) && r.value[..] == ClassBytes(className, read).value
  {
    if read.IoFailure? {
      return Failure(IllegalState(LoadFailureMessage(className), IOException));
    }
    if read.EndOfFile? {
      return Failure(NullPointer);
    }
    var decoded := HexDecode(ToCharArray(read.text));
    if decoded.Failure? {
      return Failure(IllegalState(LoadFailureMessage(className), DecoderException(decoded.error)));
    }
    var encrypted := new JByte[|decoded.value|](i requires 0 <= i < |decoded.value| => decoded.value[i]);
    assert encrypted[..] == decoded.value;
    var classBytes := XorBytes(encrypted, XorKey);
    r := Success(classBytes);
  }
}
