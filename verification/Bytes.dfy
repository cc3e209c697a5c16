/** Bytes, 32-bit words and their big-endian form (qFromBigEndian / qToBigEndian). */
module Bytes {

  type byte = bv8
  type word = bv32

  function ByteValue(b: byte): (n: nat)
    ensures n < 256
  {
    b as nat
  }

  /** A byte made of the low 8 bits of a number. */
  function LowByte(n: nat): byte {
    (n % 256) as byte
  }

  lemma ValueOfLowByte(n: nat)
    requires n < 256
    ensures ByteValue(LowByte(n)) == n
  {
  }

  /** The word whose big-endian bytes are a, b, c, d. */
  function Word(a: byte, b: byte, c: byte, d: byte): word {
    ((a as word) << 24) | ((b as word) << 16) | ((c as word) << 8) | (d as word)
  }

  function FromBigEndian(s: seq<byte>): word
    requires |s| == 4
  {
    Word(s[0], s[1], s[2], s[3])
  }

  /** Byte `k` of a word, counted from the most significant one. */
  function ByteOf(w: word, k: nat): byte
    requires k < 4
  {
    match k
    case 0 => (w >> 24) as byte
    case 1 => ((w >> 16) & 0xff) as byte
    case 2 => ((w >> 8) & 0xff) as byte
    case _ => (w & 0xff) as byte
  }

  function ToBigEndian(w: word): (s: seq<byte>)
    ensures |s| == 4
  {
    [ByteOf(w, 0), ByteOf(w, 1), ByteOf(w, 2), ByteOf(w, 3)]
  }

  lemma WordOfBytes(w: word)
    ensures FromBigEndian(ToBigEndian(w)) == w
  {
  }

  lemma BytesOfWord(s: seq<byte>)
    requires |s| == 4
    ensures ToBigEndian(FromBigEndian(s)) == s
  {
  }

  /** Addition modulo 2^32. */
  function Sum(a: word, b: word): word {
    a + b
  }

  function Xor(a: word, b: word): word {
    a ^ b
  }

  lemma XorCancels(a: word, b: word)
    ensures Xor(Xor(a, b), b) == a
  {
  }

  lemma XorCommutes(a: word, b: word)
    ensures Xor(a, b) == Xor(b, a)
  {
  }

  lemma XorRegroups(a: word, b: word, c: word)
    ensures Xor(a, Xor(b, c)) == Xor(Xor(a, b), c)
  {
    assert Xor(b, c) == b ^ c && Xor(a, b) == a ^ b;
    assert a ^ (b ^ c) == (a ^ b) ^ c;
  }

  /** Exclusive-or taken byte by byte is exclusive-or of the words. */
  lemma XorBytewise(s: seq<byte>, t: seq<byte>)
    requires |s| == |t| == 4
    ensures FromBigEndian([s[0] ^ t[0], s[1] ^ t[1], s[2] ^ t[2], s[3] ^ t[3]])
        == Xor(FromBigEndian(s), FromBigEndian(t))
  {
  }
}
