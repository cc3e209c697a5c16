/** Reading and writing length-prefixed byte arrays and 32-bit numbers on a byte stream (QDataStream). */
module DataStream {
  import opened Bytes

  /** A byte array, which may be null; a null array holds no bytes. */
  datatype QByteArray = Null | Array(bytes: seq<byte>) {
    function Content(): seq<byte> {
      if Null? then [] else bytes
    }
  }

  const NULL_LENGTH: nat := 0xffff_ffff

  function U32(n: nat): (s: seq<byte>)
    ensures |s| == 4
  {
    [LowByte(n / 0x100_0000), LowByte(n / 0x1_0000), LowByte(n / 0x100), LowByte(n)]
  }

  /** A number and the rest of the stream. A stream that is too short gives 0 and is used up. */
  function ReadU32(s: seq<byte>): (nat, seq<byte>) {
    if |s| < 4 then (0, []) else
      (FromDigits(ByteValue(s[0]), ByteValue(s[1]), ByteValue(s[2]), ByteValue(s[3])), s[4..])
  }

  function Framed(a: QByteArray): seq<byte> {
    if a.Null? then U32(NULL_LENGTH) else U32(|a.bytes|) + a.bytes
  }

  /** An array and the rest of the stream. A stream that is too short gives an empty array and is used up. */
  function ReadByteArray(s: seq<byte>): (r: (QByteArray, seq<byte>))
    ensures |r.1| <= |s| && (s != [] ==> |r.1| < |s|)
  {
    var (n, rest) := ReadU32(s);
    if n == NULL_LENGTH then (Null, rest)
    else if n <= |rest| then (Array(rest[..n]), rest[n..])
    else (Array([]), [])
  }

  function FromDigits(a: nat, b: nat, c: nat, d: nat): nat {
    ((a * 0x100 + b) * 0x100 + c) * 0x100 + d
  }

  lemma DigitsOf(n: nat)
    requires n < 0x1_0000_0000
    ensures FromDigits(n / 0x100_0000 % 0x100, n / 0x1_0000 % 0x100, n / 0x100 % 0x100, n % 0x100) == n
  {
    var a, b, c := n / 0x100_0000, n / 0x1_0000, n / 0x100;
    assert a % 0x100 == a;
    assert b == a * 0x100 + b % 0x100;
    assert c == b * 0x100 + c % 0x100;
  }

  lemma ReadBackU32(n: nat, rest: seq<byte>)
    requires n < 0x1_0000_0000
    ensures ReadU32(U32(n) + rest) == (n, rest)
  {
    hide LowByte, ByteValue, FromDigits;
    DigitsOf(n);
    LowByteIsRemainder(n / 0x100_0000);
    LowByteIsRemainder(n / 0x1_0000);
    LowByteIsRemainder(n / 0x100);
    LowByteIsRemainder(n);
    assert (U32(n) + rest)[4..] == rest;
  }

  lemma LowByteIsRemainder(n: nat)
    ensures ByteValue(LowByte(n)) == n % 0x100
  {
    ValueOfLowByte(n % 0x100);
  }

  lemma DigitsOfFour(a: nat, b: nat, c: nat, d: nat)
    requires a < 0x100 && b < 0x100 && c < 0x100 && d < 0x100
    ensures var n := FromDigits(a, b, c, d);
            n / 0x100_0000 == a && n / 0x1_0000 == a * 0x100 + b && n / 0x100 == (a * 0x100 + b) * 0x100 + c
  {
  }

  lemma ByteOfNumber(q: nat, b: byte)
    ensures LowByte(q * 0x100 + ByteValue(b)) == b
  {
    assert (q * 0x100 + ByteValue(b)) % 0x100 == ByteValue(b);
  }

  /** Four bytes are read as the one number that is written so. */
  lemma ReadU32Iff(s: seq<byte>, n: nat)
    requires n < 0x1_0000_0000 && |s| >= 4
    ensures ReadU32(s).0 == n <==> s[..4] == U32(n)
  {
    hide LowByte, ByteValue, FromDigits;
    if s[..4] == U32(n) {
      ReadBackU32(n, s[4..]);
      assert s == U32(n) + s[4..];
    }
    var a, b, c, d := ByteValue(s[0]), ByteValue(s[1]), ByteValue(s[2]), ByteValue(s[3]);
    DigitsOfFour(a, b, c, d);
    ByteOfNumber(0, s[0]);
    ByteOfNumber(a, s[1]);
    ByteOfNumber(a * 0x100 + b, s[2]);
    ByteOfNumber((a * 0x100 + b) * 0x100 + c, s[3]);
    FourDigits(a, b, c, d);
  }

  lemma FourDigits(a: nat, b: nat, c: nat, d: nat)
    ensures FromDigits(a, b, c, d) == ((a * 0x100 + b) * 0x100 + c) * 0x100 + d
  {
  }

  lemma ReadBackByteArray(a: QByteArray, rest: seq<byte>)
    requires a.Array? ==> |a.bytes| < NULL_LENGTH
    ensures ReadByteArray(Framed(a) + rest) == (a, rest)
  {
    hide U32, ReadU32;
    if a.Null? {
      ReadBackU32(NULL_LENGTH, rest);
    } else {
      ReadBackU32(|a.bytes|, a.bytes + rest);
      assert Framed(a) + rest == U32(|a.bytes|) + (a.bytes + rest);
    }
  }
}

/** The encrypted settings file: framed keys and values, a digest in front, padding, and the block cipher. */
module Crypto {
  import opened Bytes
  import opened DataStream
  import opened Padding
  import opened BlowfishSpec
  import opened QBlowfishClass

  const CRYPTO_MARKER_32: nat := 0xb10f_1501
  const DIGEST_BYTES: nat := 20

  /** A string, which may be null; a null string has no characters. */
  datatype QString = Null | Str(s: string) {
    function Text(): string {
      if Null? then "" else s
    }
  }

  /** One setting, in the order the settings map lists them. */
  type Entry = (string, QString)

  /** The conversions and the digest, which are not part of this model. */
  datatype Library = Library(toUtf8: string -> seq<byte>, fromUtf8: seq<byte> -> string, sha1: seq<byte> -> seq<byte>) {
    ghost predicate Valid() {
      && (forall s :: fromUtf8(toUtf8(s)) == s)
      && fromUtf8([]) == ""
      && (forall b :: |sha1(b)| == DIGEST_BYTES)
    }

    function Utf8(s: QString): QByteArray {
      if s.Null? then QByteArray.Null else Array(toUtf8(s.s))
    }
  }

  // A library that meets this: four bytes for each character

  function CharBytes(s: string): seq<byte> {
    if s == "" then [] else U32(s[0] as int) + CharBytes(s[1..])
  }

  function BytesChars(b: seq<byte>): string {
    if |b| < 4 then ""
    else
      var (n, rest) := ReadU32(b);
      [if n < 0xd800 || 0xe000 <= n < 0x11_0000 then n as char else ' '] + BytesChars(rest)
  }

  lemma {:induction false} CharsAreRead(s: string)
    ensures BytesChars(CharBytes(s)) == s
  {
    hide U32, ReadU32;
    if s != "" {
      ReadBackU32(s[0] as int, CharBytes(s[1..]));
      CharsAreRead(s[1..]);
    }
  }

  function FourByteChars(): Library {
    Library(s => CharBytes(s), b => BytesChars(b), b => Repeat(DIGEST_BYTES, LowByte(0)))
  }

  lemma FourByteCharsAreValid()
    ensures FourByteChars().Valid()
  {
    forall s ensures FourByteChars().fromUtf8(FourByteChars().toUtf8(s)) == s {
      CharsAreRead(s);
    }
  }

  function FramedEntry(lib: Library, e: Entry): seq<byte> {
    if e.0 == "" then [] else Framed(Array(lib.toUtf8(e.0))) + Framed(lib.Utf8(e.1))
  }

  function FramedEntries(lib: Library, es: seq<Entry>): seq<byte> {
    if es == [] then [] else FramedEntries(lib, es[..|es| - 1]) + FramedEntry(lib, es[|es| - 1])
  }

  /** Inserts the pairs read from a stream of framed keys and values into `m`. */
  function ReadEntries(lib: Library, s: seq<byte>, m: map<string, string>): map<string, string>
    decreases |s|
  {
    if s == [] then m else
      var (k, s1) := ReadByteArray(s);
      var (v, s2) := ReadByteArray(s1);
      var key := lib.fromUtf8(k.Content());
      ReadEntries(lib, s2, if key == "" then m else m[key := lib.fromUtf8(v.Content())])
  }

  /** The settings a list of entries stands for: those with a key, later entries winning. */
  function Settings(es: seq<Entry>, m: map<string, string>): map<string, string> {
    if es == [] then m else
      Settings(es[1..], if es[0].0 == "" then m else m[es[0].0 := es[0].1.Text()])
  }

  /** The bytes of the file. */
  function Written(lib: Library, digits: Image, key: seq<byte>, version: nat, es: seq<Entry>): seq<byte> {
    var text := FramedEntries(lib, es);
    var cipherText := Encrypted(digits, key, true, lib.sha1(text) + text);
    U32(CRYPTO_MARKER_32) + U32(version) + Framed(if cipherText == [] then QByteArray.Null else Array(cipherText))
  }

  /** Whether a file is accepted, and the settings map after reading it into `m`. */
  function Read(
    lib: Library, digits: Image, key: seq<byte>, file: seq<byte>, m: map<string, string>): (bool, map<string, string>)
  {
    var (marker, s1) := ReadU32(file);
    var (_, s2) := ReadU32(s1);
    if marker != CRYPTO_MARKER_32 then (false, m) else
      var text := Decrypted(digits, key, true, ReadByteArray(s2).0.Content());
      var digest, body := Left(text, DIGEST_BYTES), Mid(text, DIGEST_BYTES);
      if digest == [] || digest != lib.sha1(body) then (false, m)
      else (true, ReadEntries(lib, body, m))
  }

  function Left(s: seq<byte>, n: nat): seq<byte> {
    if |s| <= n then s else s[..n]
  }

  function Mid(s: seq<byte>, n: nat): seq<byte> {
    if |s| <= n then [] else s[n..]
  }

  /** The file fits in the byte arrays of the program, whose sizes are below 2^31. */
  predicate Fits(lib: Library, es: seq<Entry>) {
    |FramedEntries(lib, es)| + 28 < 0x8000_0000
  }

  lemma {:induction false} FramedEntriesFront(lib: Library, es: seq<Entry>)
    requires es != []
    ensures FramedEntries(lib, es) == FramedEntry(lib, es[0]) + FramedEntries(lib, es[1..])
  {
    hide FramedEntry;
    if |es| > 1 {
      var init := es[..|es| - 1];
      FramedEntriesFront(lib, init);
      assert init[1..] == es[1..][..|es| - 2];
      assert es[1..][|es| - 2] == es[|es| - 1];
    } else {
      assert es[..0] == [] && es[1..] == [];
    }
  }

  /** Reading a stream of framed entries inserts exactly the entries that have a key. */
  lemma {:induction false} ReadBackEntries(lib: Library, es: seq<Entry>, m: map<string, string>)
    requires lib.Valid() && |FramedEntries(lib, es)| < NULL_LENGTH
    ensures ReadEntries(lib, FramedEntries(lib, es), m) == Settings(es, m)
  {
    hide Framed, ReadByteArray;
    if es != [] {
      FramedEntriesFront(lib, es);
      var e, rest := es[0], FramedEntries(lib, es[1..]);
      var m' := if e.0 == "" then m else m[e.0 := e.1.Text()];
      ReadBackEntries(lib, es[1..], m');
      if e.0 == "" {
        assert [] + rest == rest;
      } else {
        var k, v := Array(lib.toUtf8(e.0)), lib.Utf8(e.1);
        FramedLength(k);
        FramedLength(v);
        ReadBackByteArray(k, Framed(v) + rest);
        ReadBackByteArray(v, rest);
        assert FramedEntries(lib, es) == Framed(k) + (Framed(v) + rest);
      }
    }
  }

  lemma FramedLength(a: QByteArray)
    ensures |Framed(a)| == 4 + |a.Content()|
  {
  }

  /** What is written is read back, in this process or in a fresh one, exactly when the key is not empty. */
  lemma SettingsRoundTrip(
    lib: Library, digits: Image, key: seq<byte>, version: nat, es: seq<Entry>, m: map<string, string>)
    requires lib.Valid() && Fits(lib, es) && version < 0x1_0000_0000
    ensures Read(lib, digits, key, Written(lib, digits, key, version, es), m)
            == if key == [] then (false, m) else (true, Settings(es, m))
  {
    hide Encrypted, Decrypted, FramedEntries, ReadEntries, Settings, U32, ReadU32, Framed, ReadByteArray;
    var body := FramedEntries(lib, es);
    var text := lib.sha1(body) + body;
    var c := Encrypted(digits, key, true, text);
    var a := if c == [] then QByteArray.Null else Array(c);
    CipherRoundTrip(digits, key, true, text);
    CipherTextOf(digits, key, text);
    ReadBackU32(CRYPTO_MARKER_32, U32(version) + Framed(a));
    ReadBackU32(version, Framed(a));
    ReadBackByteArray(a, []);
    assert Framed(a) + [] == Framed(a);
    assert Written(lib, digits, key, version, es) == U32(CRYPTO_MARKER_32) + (U32(version) + Framed(a));
    ReadBackEntries(lib, es, m);
  }

  lemma CipherTextOf(digits: Image, key: seq<byte>, text: seq<byte>)
    requires text != []
    ensures key == [] ==> Encrypted(digits, key, true, text) == [] && Decrypted(digits, key, true, []) == []
    ensures |Encrypted(digits, key, true, text)| <= |text| + 8
  {
    CipherRoundTrip(digits, key, true, text);
  }

  // What is accepted

  const MARKER_BYTES: seq<byte> := [0xb1, 0x0f, 0x15, 0x01]

  lemma MarkerBytes()
    ensures U32(CRYPTO_MARKER_32) == MARKER_BYTES
    ensures Framed(QByteArray.Null) == [0xff, 0xff, 0xff, 0xff]
  {
    assert CRYPTO_MARKER_32 / 0x100_0000 % 256 == 0xb1 && CRYPTO_MARKER_32 / 0x1_0000 % 256 == 0x0f;
    assert CRYPTO_MARKER_32 / 0x100 % 256 == 0x15 && CRYPTO_MARKER_32 % 256 == 0x01;
  }

  /** The clear text starts with the digest of what follows. */
  predicate IsDigested(lib: Library, text: seq<byte>) {
    |text| >= DIGEST_BYTES && text[..DIGEST_BYTES] == lib.sha1(text[DIGEST_BYTES..])
  }

  /** The clear text of a file, whatever it is. */
  function ClearText(digits: Image, key: seq<byte>, file: seq<byte>): seq<byte> {
    Decrypted(digits, key, true, ReadByteArray(ReadU32(ReadU32(file).1).1).0.Content())
  }

  /** Of all files, exactly those are accepted that start with the marker and whose clear text starts with the digest of
      its rest; any other leaves the settings as they were. */
  lemma ReadAcceptsIff(lib: Library, digits: Image, key: seq<byte>, file: seq<byte>, m: map<string, string>)
    requires forall b :: |lib.sha1(b)| == DIGEST_BYTES
    ensures var (ok, settings) := Read(lib, digits, key, file, m);
            && (ok <==> MARKER_BYTES <= file && IsDigested(lib, ClearText(digits, key, file)))
            && settings == if ok then ReadEntries(lib, ClearText(digits, key, file)[DIGEST_BYTES..], m) else m
  {
    hide Decrypted, ReadEntries, ReadU32, ReadByteArray, U32;
    MarkerIsReadIff(file);
    var text := ClearText(digits, key, file);
  }

  /** A file of any marker, version and clear text that the cipher with this key can write. */
  function FileOf(digits: Image, key: seq<byte>, marker: nat, version: nat, text: seq<byte>): seq<byte> {
    U32(marker) + U32(version) + Framed(Array(Encrypted(digits, key, true, text)))
  }

  /** It is accepted if and only if the marker is the right one and the digest is that of the rest. */
  lemma DigestDecides(
    lib: Library, digits: Image, key: seq<byte>, marker: nat, version: nat, text: seq<byte>, m: map<string, string>)
    requires forall b :: |lib.sha1(b)| == DIGEST_BYTES
    requires marker < 0x1_0000_0000 && version < 0x1_0000_0000 && |text| + 8 < NULL_LENGTH && key != [] && text != []
    ensures Read(lib, digits, key, FileOf(digits, key, marker, version, text), m)
            == if marker == CRYPTO_MARKER_32 && IsDigested(lib, text)
               then (true, ReadEntries(lib, text[DIGEST_BYTES..], m)) else (false, m)
  {
    hide Encrypted, Decrypted, ReadEntries, U32, ReadU32, Framed, ReadByteArray, Read, IsDigested;
    var file, a := FileOf(digits, key, marker, version, text), Array(Encrypted(digits, key, true, text));
    CipherRoundTrip(digits, key, true, text);
    ReadBackU32(marker, U32(version) + Framed(a));
    ReadBackU32(version, Framed(a));
    ReadBackByteArray(a, []);
    assert Framed(a) + [] == Framed(a);
    assert file == U32(marker) + (U32(version) + Framed(a));
    ReadAcceptsIff(lib, digits, key, file, m);
    MarkerIsReadIff(file);
  }

  lemma MarkerIsReadIff(file: seq<byte>)
    ensures ReadU32(file).0 == CRYPTO_MARKER_32 <==> MARKER_BYTES <= file
  {
    hide U32;
    MarkerBytes();
    if |file| >= 4 {
      ReadU32Iff(file, CRYPTO_MARKER_32);
    }
  }

  /** Entries that list a map, each key once. */
  ghost predicate Lists(es: seq<Entry>, m: map<string, QString>) {
    && (forall i :: 0 <= i < |es| ==> es[i].0 in m && m[es[i].0] == es[i].1)
    && (forall k :: k in m ==> exists i :: 0 <= i < |es| && es[i].0 == k)
    && (forall i, j :: 0 <= i < j < |es| ==> es[i].0 != es[j].0)
  }

  lemma {:induction false} SettingsHold(es: seq<Entry>, m: map<string, string>, k: string)
    requires forall i, j :: 0 <= i < j < |es| ==> es[i].0 != es[j].0
    ensures (exists i :: 0 <= i < |es| && es[i].0 == k && k != "") ==>
              k in Settings(es, m) && forall i :: 0 <= i < |es| && es[i].0 == k ==> Settings(es, m)[k] == es[i].1.Text()
    ensures !(exists i :: 0 <= i < |es| && es[i].0 == k && k != "") ==>
              (k in Settings(es, m) <==> k in m) && (k in m ==> Settings(es, m)[k] == m[k])
  {
    if es != [] {
      var rest := es[1..];
      var m' := if es[0].0 == "" then m else m[es[0].0 := es[0].1.Text()];
      SettingsHold(rest, m', k);
      forall i | 1 <= i < |es| ensures es[i] == rest[i - 1] {
      }
      if i :| 0 <= i < |es| && es[i].0 == k && k != "" {
        if i > 0 {
          assert rest[i - 1].0 == k;
        }
      }
    }
  }

  /** Entries that list a map yield that map without its empty key. */
  lemma SettingsOfMap(es: seq<Entry>, m: map<string, QString>)
    requires Lists(es, m)
    ensures Settings(es, map[]) == map k | k in m && k != "" :: m[k].Text()
  {
    var r := map k | k in m && k != "" :: m[k].Text();
    forall k
      ensures k in Settings(es, map[]) <==> k in r
      ensures k in r ==> Settings(es, map[])[k] == r[k]
    {
      SettingsHold(es, map[], k);
    }
  }

  /** A settings map survives the file, except for an entry under the empty key. */
  lemma SettingsMapRoundTrip(
    lib: Library, digits: Image, key: seq<byte>, version: nat, es: seq<Entry>, m: map<string, QString>)
    requires lib.Valid() && Fits(lib, es) && version < 0x1_0000_0000 && Lists(es, m)
    ensures Read(lib, digits, key, Written(lib, digits, key, version, es), map[])
            == if key == [] then (false, map[]) else (true, map k | k in m && k != "" :: m[k].Text())
  {
    hide Read, Written, Settings;
    SettingsRoundTrip(lib, digits, key, version, es, map[]);
    SettingsOfMap(es, m);
  }

  /** The module's state: one cipher object, made on first use and kept. */
  class CryptoState {
    const lib: Library
    const digits: Image
    const key: seq<byte>
    var qblowfish: QBlowfish?

    ghost predicate Valid()
      reads this, qblowfish
      reads if qblowfish == null then {} else qblowfish.TableSet()
    {
      qblowfish != null ==>
        qblowfish.Valid() && qblowfish.paddingEnabled && qblowfish.key == key && qblowfish.digits == digits
    }

    constructor (lib: Library, digits: Image, key: seq<byte>)
      ensures Valid() && qblowfish == null && this.lib == lib && this.digits == digits && this.key == key
    {
      this.lib, this.digits, this.key := lib, digits, key;
      qblowfish := null;
    }

    /** The cipher object, created with padding enabled when there is none. */
    method Instance() returns (q: QBlowfish)
      requires Valid()
      modifies this
      ensures Valid() && q == qblowfish
      ensures old(qblowfish) != null ==> q == old(qblowfish)
      ensures old(qblowfish) == null ==> fresh(q)
    {
      hide Expanded;
      if qblowfish == null {
        var b := new QBlowfish(key, digits);
        b.SetPaddingEnabled(true);
        var _ := b.Init();
        qblowfish := b;
      }
      q := qblowfish;
    }

    method WriteEncryptedSettings(version: nat, entries: seq<Entry>) returns (device: seq<byte>)
      requires Valid()
      modifies this, qblowfish
      ensures Valid() && (old(qblowfish) == null || qblowfish == old(qblowfish))
      ensures device == Written(lib, digits, key, version, entries)
    {
      hide Encrypted, U32, Framed, FramedEntry;
      device := U32(CRYPTO_MARKER_32) + U32(version);
      var clearText := [];
      for i := 0 to |entries|
        invariant Valid() && qblowfish == old(qblowfish)
        invariant clearText == FramedEntries(lib, entries[..i])
      {
        assert entries[..i + 1][..i] == entries[..i];
        var (k, v) := entries[i];
        ghost var before := clearText;
        if k != "" {
          clearText := clearText + Framed(Array(lib.toUtf8(k)));
          clearText := clearText + Framed(lib.Utf8(v));
        }
        FramedEntryParts(lib, before, entries[i]);
      }
      assert entries[..|entries|] == entries;
      var sha1sum := lib.sha1(clearText);
      clearText := sha1sum + clearText;
      var q := Instance();
      var encrypted := q.Encrypt(clearText);
      device := device + Framed(if encrypted == [] then QByteArray.Null else Array(encrypted));
    }

    method ReadEncryptedSettings(
      device: seq<byte>, map0: map<string, string>) returns (ok: bool, settings: map<string, string>)
      requires Valid()
      modifies this, qblowfish
      ensures Valid() && (old(qblowfish) == null || qblowfish == old(qblowfish))
      ensures (ok, settings) == Read(lib, digits, key, device, map0)
    {
      hide Decrypted, ReadU32, ReadByteArray;
      settings := map0;
      var (marker, s1) := ReadU32(device);
      var (version, s2) := ReadU32(s1);
      if marker != CRYPTO_MARKER_32 {
        return false, settings;
      }
      var q := Instance();
      var ba := q.Decrypt(ReadByteArray(s2).0.Content());
      var sha1sum := Left(ba, DIGEST_BYTES);
      ba := Mid(ba, DIGEST_BYTES);
      if sha1sum == [] || sha1sum != lib.sha1(ba) {
        return false, settings;
      }
      var stream := ba;
      while stream != []
        invariant Valid() && qblowfish == q
        invariant ReadEntries(lib, stream, settings) == ReadEntries(lib, ba, map0)
        decreases |stream|
      {
        var (k, s3) := ReadByteArray(stream);
        var (v, s4) := ReadByteArray(s3);
        var keyString := lib.fromUtf8(k.Content());
        var valueString := lib.fromUtf8(v.Content());
        if keyString != "" {
          settings := settings[keyString := valueString];
        }
        stream := s4;
      }
      ok := true;
    }
  }

  lemma FramedEntryParts(lib: Library, s: seq<byte>, e: Entry)
    ensures s + FramedEntry(lib, e) ==
            if e.0 == "" then s else s + Framed(Array(lib.toUtf8(e.0))) + Framed(lib.Utf8(e.1))
  {
  }
}
