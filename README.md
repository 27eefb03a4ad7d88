# Secure-coding examples: a verified Dafny model

The repository is a set of small Java examples of secure-coding techniques.
This project models the parts of them that carry their own logic, and proves
what each one promises:

- **Validating proxy** (`ArticleServiceValidator`, in `src/Proxy/ArticleServiceValidator.java`
  and again, with identical text, at `src/Proxy/Proxy.java:35-86`). A name must
  match `^[a-zA-Z0-9 ]{4,64}$`. An optional description must match
  `^[a-zA-Z0-9,:.\-)( ]{0,256}$`. The wrapped service is called only when both
  checks pass. Module `ArticleValidation` models the class once. The constructor
  and `createArticle` of both copies correspond line for line: 28-33 ↔ 50-55,
  43-45 ↔ 65-67, 48-51 ↔ 70-73, 54-58 ↔ 76-81, 62 ↔ 84. The demonstration calls
  in `Proxy.java`'s `main` are proved as lemmas and as the method `ProxyDemo`.
- **Regular expressions** (module `Regex`). This is the fragment of
  `java.util.regex` that the validators use: character classes, bounded and
  unbounded repetition of a class, literals and concatenation. It has the
  whole-input semantics of `Matcher.matches()`. Each source pattern is a
  constant of this language, and a lemma proves it equal to a plain
  predicate: a length-and-alphabet rule for the name and description
  patterns, and a split into local part, domain and top-level domain for the
  e-mail pattern.
- **Encrypted class loader** (module `Classloader`). A class file is stored as
  one line of hex. `findClassBytes` decodes the hex and XORs every byte with
  0xCC. `xorByte` works on a sign-extended byte. The model writes the
  sign extension and the `(byte)` cast out and proves that only the low byte
  of the key matters.
- **Hex encoding** (module `Hmac`). `bytesToHex` writes two lowercase digits per
  byte. It is modelled as the source's loop, with `Integer.toHexString` and
  the leading-zero padding. The module also models the key lookup of
  `readSecretKey`. Module `HexRoundTrip` proves that decoding as
  `findClassBytes` does undoes `bytesToHex`. It also proves that a class file
  written as the hex of its XOR-ed bytes loads back as the original bytes.
- **Deep-copy encapsulation** (module `Encapsulation`). `setMails` and
  `getMails` copy every `EMail` object on the way in and on the way out. The
  class `DeepCopy` has a ghost footprint `Repr` that holds the internal list
  and its elements. `setMails` leaves `Repr` entirely fresh. `getMails` returns
  only fresh objects. The client methods then prove that changing the caller's
  objects or the returned ones does not change the stored addresses.
- **E-mail validation** (module `EmailValidation`). The pattern
  `^[A-Za-z0-9._%+-]+@[A-Za-z0-9.-]+\.[A-Za-z]{2,}$` is proved to accept exactly
  the strings of the form local `@` domain `.` tld. Consequences are proved
  too: exactly one `@`, a final `.` plus at least two letters, and no spaces.

Conventions. A `String` that may be `null` is an `Option<string>`, `null`
being `Option.None`. A null object reference is Dafny's `null` of a nullable
class type (`ArticleService?`, `EMail?`, `MailList?`). The `null` that
`readLine` returns for an empty file is `FileRead.EndOfFile`, and the `null`
that `getProperty` returns is a key missing from the properties `map`. A
thrown exception is a `Result.Failure` or an `Outcome.Fail` carrying the
exception's kind, and its message where the source writes one. A Java `byte` is its bit pattern `bv8`, and a Java `int` is a `bv32`.
Strings are sequences of Unicode scalar values, so regex repetition counts
code points the way `java.util.regex` does. `String.toCharArray()` is
modelled as UTF-16 encoding (`Classloader.ToCharArray`), so the hex decoder
counts and indexes Java `char`s, surrogates included. NFKC normalisation
(`Normalizer.normalize`) is a parameter `normalize: string -> string` of the
validators. The demonstration lemmas only assume that it leaves their ASCII
inputs unchanged, which NFKC does.

The code differs from what the comments suggest in one place. In
`findClassBytes`, an empty `.hex` file makes `readLine` return `null`. The
following `toCharArray()` call then throws a `NullPointerException`, which
the `catch` does not cover. The model keeps that outcome (`LoadError.NullPointer`).
It does not turn it into the `IllegalStateException` used for read and decode failures.

## Model

| member | source | states |
|---|---|---|
| `Regex.Matches` | src/Proxy/ArticleServiceValidator.java:49 | `Matcher.matches()`: a whole-input match of a pattern built from literals, concatenation and bounded or unbounded repetition of a character class; a pattern never matches a string shorter than its minimum length |
| `Regex.RepeatMatches` | src/Proxy/ArticleServiceValidator.java:19-20 | a class repeated `{min,max}` (or `{min,}`) matches a string exactly when its length is within the bounds and every character is in the class |
| `ArticleValidation.NamePatternMatches` | src/Proxy/ArticleServiceValidator.java:19 | the name pattern accepts a string iff it has 4 to 64 characters, all letters, digits or spaces |
| `ArticleValidation.DescriptionPatternMatches` | src/Proxy/ArticleServiceValidator.java:20 | the description pattern accepts a string iff it has at most 256 characters, all from `a-zA-Z0-9,:.-)(` and space; the empty string is accepted |
| `ArticleValidation.CheckArticle` | src/Proxy/ArticleServiceValidator.java:43-58 | the checks of `createArticle` in source order on the normalised strings; the null-name error occurs exactly for a null name, and the description error only once the name is present and matches |
| `ArticleValidation.CheckArticlePasses` | src/Proxy/ArticleServiceValidator.java:41-59 | the checks pass iff the name is non-null and valid after normalisation and the description is null or valid after normalisation |
| `ArticleValidation.NullNameRejected` | src/Proxy/ArticleServiceValidator.java:43-45 | a null name fails with "Invalid name (null)!" whatever the description |
| `ArticleValidation.InvalidNameRejected` | src/Proxy/ArticleServiceValidator.java:48-51 | a non-null name fails with "Invalid name!" iff its normalised form breaks the name rule, whatever the description |
| `ArticleValidation.NullDescriptionAccepted` | src/Proxy/ArticleServiceValidator.java:54 | with a null description the outcome is Pass iff the name is valid |
| `ArticleValidation.DescriptionRule` | src/Proxy/ArticleServiceValidator.java:55-58 | with a valid name, a present description gives Pass if valid and "Invalid description!" otherwise |
| `ArticleValidation.EmptyDescriptionAccepted` | src/Proxy/ArticleServiceValidator.java:20 | with a valid name, a description that normalises to the empty string is accepted |
| `ArticleValidation.NameCheckedFirst` | src/Proxy/ArticleServiceValidator.java:48-58 | when name and description are both invalid, the name error is the one raised |
| `ArticleValidation.ArticleServiceValidator.CreateArticle` | src/Proxy/ArticleServiceValidator.java:41-63 | the outcome is the result of the checks in source order; the delegate's log grows by exactly the original (un-normalised) name and description iff the outcome is Pass, and is unchanged otherwise |
| `ArticleValidation.NewArticleServiceValidator` | src/Proxy/ArticleServiceValidator.java:28-33 | construction fails with "ArticleService implementation cannot be null" iff the delegate is null; otherwise the new validator holds that very delegate |
| `ArticleValidation.ArticleServiceValidator.constructor` | src/Proxy/Proxy.java:50-55 | a validator built around a non-null delegate stores it unchanged |
| `ArticleValidation.ArticleService.CreateArticle` | src/Proxy/Proxy.java:21-27 | the delegate records each article it is asked to create, in call order |
| `ArticleValidation.ArticleService.constructor` | src/Proxy/Proxy.java:96 | `new ArticleServiceImpl()`: a new service has been asked to create nothing yet |
| `ArticleValidation.DemoValidArticle` | src/Proxy/Proxy.java:102 | "Valid Name" with "This is a valid description." passes every check |
| `ArticleValidation.DemoShortName` | src/Proxy/Proxy.java:106 | "Bad" (three characters) is rejected with the name error |
| `ArticleValidation.DemoBadDescription` | src/Proxy/Proxy.java:113 | a description containing `$` and `!` is rejected with the description error |
| `ArticleValidation.ProxyDemo` | src/Proxy/Proxy.java:94-117 | the three calls of `main` give Pass, the name error and the description error, and the real service receives only the first article |
| `JavaBytes.Unsigned` | src/HMAC/Hmac.java:149 | `0xff & b` on the sign-extended byte is the byte's unsigned value, below 256 |
| `JavaBytes.SignExtend` | src/Classloader/Classloader.java:88 | widening a byte keeps its low eight bits and fills bits 8..31 with copies of its sign bit |
| `JavaBytes.SignExtendKeepsValue` | src/Classloader/Classloader.java:88 | the widened `int` stands for the same two's-complement number as the `byte` |
| `JavaBytes.ToByte` | src/Classloader/Classloader.java:94 | the cast keeps the low eight bits, and an `int` in -128..127 widens back from the byte unchanged |
| `Classloader.XorByte` | src/Classloader/Classloader.java:86-95 | widening the signed byte, XOR-ing with the int key and casting back equals the byte XOR the key's low byte |
| `Classloader.XorAll` | src/Classloader/Classloader.java:67-73 | the XOR-ed sequence has the input's length and byte i is input byte i XOR the key's low byte |
| `Classloader.XorAllInvolution` | src/Classloader/Classloader.java:27 | XOR-ing twice with the same key gives the input back |
| `Classloader.XorBytes` | src/Classloader/Classloader.java:65-77 | returns a newly allocated array whose contents are the XOR of the input's with the key; the input is not modified |
| `Classloader.CodeUnits` | src/Classloader/Classloader.java:24 | `toCharArray()` turns a character below U+10000 into one `char` with its code, and any other into a high surrogate (D800..DBFF) and a low surrogate (DC00..DFFF) from which its code is rebuilt |
| `Classloader.ToCharArray` | src/Classloader/Classloader.java:24 | `String.toCharArray()`: the UTF-16 code units of the string, character by character, never fewer than it has characters |
| `Classloader.ToCharArrayBmp` | src/Classloader/Classloader.java:24 | a line with no character above U+FFFF has one `char` per character, holding that character's code |
| `Classloader.SurrogatePairsCountTwice` | src/Classloader/Classloader.java:24 | a character above U+FFFF counts as two `char`s: U+1F600 followed by `0` fails as an odd length, and followed by `00` fails on the high surrogate D83D at index 0 |
| `Classloader.HexDigitValue` | src/Classloader/Classloader.java:24 | a `char` has a hex value iff it is `0-9`, `a-f` or `A-F`, and the value is below 16 |
| `Classloader.HexDigitValues` | src/Classloader/Classloader.java:24 | digit d of `0123456789abcdef` and digit d of `0123456789ABCDEF` both have the value d |
| `Classloader.HexDigitValueInverse` | src/Classloader/Classloader.java:24 | every hex digit is the lower- or the upper-case digit written for its value |
| `Classloader.HexDecode` | src/Classloader/Classloader.java:24 | over `char`s (UTF-16 code units), an odd length fails with the odd-length error and nothing else does; a character error reports a position holding that non-hex character, every character before it being a hex digit |
| `Classloader.DecodeFrom` | src/Classloader/Classloader.java:24 | decoding `char`s from position j fails only on an illegal character, the first non-hex `char` at or after j, reported with its index |
| `Classloader.DecodeFromSucceeds` | src/Classloader/Classloader.java:24 | decoding from position j succeeds iff every remaining character is a hex digit |
| `Classloader.DecodeFromValues` | src/Classloader/Classloader.java:24 | a successful decode from position j yields one value per remaining pair of characters, in order, value m coming from the pair at j + 2m |
| `Classloader.HexDecodeSucceeds` | src/Classloader/Classloader.java:22-24 | hex decoding succeeds iff the text has even length and consists of hex digits only |
| `Classloader.HexDecodeBytes` | src/Classloader/Classloader.java:22-24 | a successful decode has half as many bytes as the text has characters, byte m being the value of characters 2m and 2m+1 |
| `Classloader.ClassBytes` | src/Classloader/Classloader.java:20-33 | the read, decode and XOR pipeline over the line's `char`s; an `IllegalStateException` always carries "Can't read byte array for class " + the class name, a decoder cause is exactly the error that decoding the line gives, and a success comes from a line of twice as many `char`s as bytes |
| `Classloader.ClassBytesFailure` | src/Classloader/Classloader.java:20-33 | loading fails with IllegalStateException("Can't read byte array for class …") iff the read fails or the line's `char`s are not valid hex; its cause is the `IOException` iff the read failed, and the decoder error e iff decoding the line gives e; it fails with NullPointerException iff the file is empty |
| `Classloader.ClassBytesDecoded` | src/Classloader/Classloader.java:22-27 | a loaded class has half as many bytes as its hex line has `char`s, and byte m is the pair at 2m decoded and XOR-ed with 0xCC |
| `Classloader.FindClassBytes` | src/Classloader/Classloader.java:15-35 | fails exactly when the decode pipeline fails, with the same error; on success returns a new array holding the decrypted bytes |
| `Hmac.ToHexString` | src/HMAC/Hmac.java:149 | `Integer.toHexString` of a non-negative value is non-empty, all lowercase hex digits, and a single digit exactly for values below 16 |
| `Hmac.ToHexStringBelow256` | src/HMAC/Hmac.java:149-153 | below 256, `toHexString` is one digit under 16 and two digits (high, low) from 16 on |
| `Hmac.ByteHex` | src/HMAC/Hmac.java:149-154 | a byte contributes exactly two characters, its high and low hex digit, the leading '0' included when the value is below 16 |
| `Hmac.HexOf` | src/HMAC/Hmac.java:145-157 | the hex of n bytes has 2n characters, all in `0-9a-f`; the empty input gives the empty string |
| `Hmac.HexOfAt` | src/HMAC/Hmac.java:149-153 | characters 2i and 2i+1 are the hex digits of the high and the low four bits of byte i |
| `Hmac.HexOfConcat` | src/HMAC/Hmac.java:147-155 | the hex of a concatenation is the concatenation of the hexes |
| `Hmac.BytesToHex` | src/HMAC/Hmac.java:145-157 | the loop's result is the hex of the array's contents, of length twice the array's |
| `Hmac.ReadSecretKey` | src/HMAC/Hmac.java:128-136 | returns the stored value iff the key is present; a missing key fails with "Key '…' not found in file: …"; a failed load fails with an I/O error |
| `HexRoundTrip.ByteRoundTrip` | src/HMAC/Hmac.java:149-154 | the two digits written for a byte are hex digits that decode, as `findClassBytes` decodes a pair, to that same byte |
| `HexRoundTrip.HexDecodeOfHex` | src/HMAC/Hmac.java:145-157 | decoding the `char`s of `bytesToHex(b)` two per byte, as `findClassBytes` does, returns exactly `b` |
| `HexRoundTrip.EncryptedClassRoundTrip` | src/Classloader/Classloader.java:22-30 | a class stored as the hex of its bytes XOR-ed with 0xCC loads as exactly the original bytes |
| `Encapsulation.EMail.constructor` | src/Encapsulation/DeepCOpy.java:70-72 | a new `EMail` holds the given address |
| `Encapsulation.EMail.GetAddress` | src/Encapsulation/DeepCOpy.java:75-77 | returns the address the object currently holds, reading only that object |
| `Encapsulation.EMail.SetAddress` | src/Encapsulation/DeepCOpy.java:80-82 | the address becomes the given one |
| `Encapsulation.MailList.constructor` | src/Encapsulation/DeepCOpy.java:30 | `new ArrayList<>()`: a new list is empty |
| `Encapsulation.MailList.Add` | src/Encapsulation/DeepCOpy.java:34 | the element is appended at the end of the list |
| `Encapsulation.AddressesOf` | src/Encapsulation/DeepCOpy.java:33-34 | the address list has one entry per element, entry k being element k's address |
| `Encapsulation.CopyOf` | src/Encapsulation/DeepCOpy.java:30-35 | the copy is null iff some element is null; otherwise it is a list of the same addresses in order, made only of newly allocated objects |
| `Encapsulation.DeepCopy.constructor` | src/Encapsulation/DeepCOpy.java:14 | a new object has no list yet (the field is null) |
| `Encapsulation.DeepCopy.SetMails` | src/Encapsulation/DeepCOpy.java:23-39 | a null list fails with IllegalArgumentException and a null element with NullPointerException, both leaving the state unchanged; otherwise the stored addresses equal the caller's in order and every object the state consists of is newly allocated |
| `Encapsulation.DeepCopy.GetMails` | src/Encapsulation/DeepCOpy.java:47-58 | fails with NullPointerException iff no list was ever set; otherwise returns a new list of new `EMail`s with the stored addresses in order, and modifies nothing |
| `Encapsulation.DemoList` | src/Encapsulation/DeepCOpy.java:95-97 | builds the two-address list of `main` |
| `Encapsulation.DemoUser` | src/Encapsulation/DeepCOpy.java:92-100 | after `setMails` the object stores the two addresses, and neither the caller's list nor its `EMail`s belong to the object |
| `Encapsulation.SetAddressOutside` | src/Encapsulation/DeepCOpy.java:80-82 | changing the address of an `EMail` that is not part of the object leaves the stored addresses unchanged |
| `Encapsulation.AddOutside` | src/Encapsulation/DeepCOpy.java:104 | adding to a list that is not part of the object leaves the stored addresses unchanged |
| `Encapsulation.MainDemo` | src/Encapsulation/DeepCOpy.java:91-109 | after adding a third `EMail` to the returned list, the object still reports 2 entries and the caller's list has 3 |
| `Encapsulation.CallerChangesDemo` | src/Encapsulation/DeepCOpy.java:30-34 | changing the caller's `EMail`s or list after `setMails` leaves the stored addresses as set |
| `Encapsulation.ReturnedChangesDemo` | src/Encapsulation/DeepCOpy.java:49-53 | changing an `EMail` returned by `getMails` leaves the stored addresses as set |
| `Encapsulation.GetMailsTwice` | src/Encapsulation/DeepCOpy.java:47-58 | two successive `getMails` calls return distinct lists with equal address sequences |
| `EmailValidation.EmailPatternMatches` | src/Input_Validation/RegEx.java:24 | the pattern accepts a string iff it splits as a non-empty local part over `[A-Za-z0-9._%+-]`, '@', a non-empty domain over `[A-Za-z0-9.-]`, '.', and at least two ASCII letters |
| `EmailValidation.ValidEmailHasOneAt` | src/Input_Validation/RegEx.java:24 | every accepted string contains exactly one '@' |
| `EmailValidation.ValidEmailEndsInTld` | src/Input_Validation/RegEx.java:24 | every accepted string ends in a '.' followed by at least two ASCII letters |
| `EmailValidation.ValidEmailHasNoSpace` | src/Input_Validation/RegEx.java:24 | every accepted string has at least six characters (one local character, '@', one domain character, '.', two letters) and no space, so the empty string and any string with a space are rejected |
| `EmailValidation.IsValidEmail` | src/Input_Validation/RegEx.java:39-53 | the verdict is true iff the normalised input has the e-mail shape |
| `EmailValidation.MainInputValid` | src/Input_Validation/RegEx.java:17-54 | "test@example.com" is reported valid |

## Left out

- Unicode NFKC normalisation depends on Unicode tables. It is the `normalize` parameter, and the properties are stated over the normalised string.
- `Character.digit(c, 16)` also accepts non-ASCII digits and full-width letters. The hex decoder accepts only ASCII `0-9`, `a-f`, `A-F`.
- Apache Commons Codec's `Hex.decodeHex`: the library's code is not in the repository. `Classloader.HexDecode` follows its documented behaviour: an odd length is refused first, then the first non-hex character.
- The message texts of the `IOException` and the `DecoderException` are not modelled. The cause of the `IllegalStateException` records which of the two was thrown, and for the decoder which error, the offending `char` and its index.
- The file reads in `readString` and `Properties.load` are I/O. Their outcomes (`FileRead`, `PropertiesLoad`) are inputs of the model.
- `Properties` parsing of the file (escapes, separators, whitespace) is a library feature. The loaded properties are a `map`.
- The HMAC-SHA1 computation (`Mac`, `SecretKeySpec`) and the printing in `Hmac.main` are library calls and I/O.
- Console output (`System.out`, `System.err`) is left out. Each demonstration returns what it would print the verdict about.
- `ArticleService` is a Java interface, and the validator itself implements it. Without traits the validator is not a subtype of the delegate here. The delegate is a class that records its calls.
- `Encapsulation.EMail.constructor`: `EMail` addresses are non-null strings here, so `new EMail(null)` is not modelled.
- Deep-copy lists are plain ordered sequences inside an object. Iterator invalidation and concurrent modification are not modelled.
- src/Verschlüsselung/Symmetrisch.java and src/Verschlüsselung/Asymetrisch.java (AES-CTR and RSA file encryption) are not part of this model; they lie outside the modelled core. Besides `Cipher` library calls and file I/O they hold argument checks of their own, also not modelled:
  - `Symmetrisch.java:41-45` rejects a null key or IV string, and one whose length is not 32, with an `IllegalArgumentException`;
  - `Symmetrisch.java:52` and `:56` hex-decode the key and the IV with `Hex.decodeHex`, a decode failure becoming an `IllegalStateException`;
  - `Symmetrisch.java:72-76` rejects a null file name or null data on encryption, and `:100-101` a null file name on decryption;
  - `Asymetrisch.java:35-39` rejects a null public or private key string, `:43-44` hex-decode both, and `:67-68` rejects a null file name or null data on encryption, and `:91-92` a null file name on decryption.
- src/Encoding_Decoding/Encoding.java, src/Serialization/test.java and the SQL `LoginService` are not part of this model. They wrap `MessageDigest`/Base64, Java serialization and JDBC.
- src/HMAC/hmac_ohne_erklärung.java is not part of this model. It is an uncommented variant of `Hmac.java`.
- src/Proxy/ProxyPatternExample.java, src/Proxy/ArticleService.java and src/Proxy/ArticleServiceImpl.java are not modelled separately. They are the driver, the interface and the delegate that `Proxy.java` repeats.
