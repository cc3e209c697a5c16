/** The block cipher in terms of numbers: the round function over the S-box entries, and a block as the end of a
    two-term recurrence. */
module BlowfishNumbers {
  import opened Bytes
  import opened Feistel
  import opened BlowfishSpec

  const MODULUS: nat := 0x1_0000_0000

  function Value(w: word): (n: nat)
    ensures n < MODULUS
  {
    w as nat
  }

  function WordOf(n: nat): word
    requires n < MODULUS
  {
    n as word
  }

  lemma WordOfValue(w: word)
    ensures WordOf(Value(w)) == w
  {
  }

  /** Exclusive-or, bit by bit. */
  lemma XorIsBitwise(a: word, b: word, k: bv6)
    requires k < 32
    ensures (Xor(a, b) >> k) & 1 == 1 <==> (a >> k) & 1 != (b >> k) & 1
  {
    assert ((a ^ b) >> k) & 1 == ((a >> k) & 1) ^ ((b >> k) & 1);
    LowBits(a >> k, b >> k);
  }

  lemma LowBits(a: word, b: word)
    ensures (a & 1) ^ (b & 1) == 1 <==> a & 1 != b & 1
  {
  }

  /** Words are big-endian. */
  lemma WordValue(a: byte, b: byte, c: byte, d: byte)
    ensures Value(Word(a, b, c, d)) == ((ByteValue(a) * 256 + ByteValue(b)) * 256 + ByteValue(c)) * 256 + ByteValue(d)
  {
  }

  lemma NextByte(b: byte)
    ensures ByteValue(b + 1) == if b == 0xff then 0 else ByteValue(b) + 1
  {
  }

  function Next(w: word): word {
    w + 1
  }

  lemma NextInLastByte(a: byte, b: byte, c: byte, d: byte)
    requires d != 0xff
    ensures Next(Word(a, b, c, d)) == Word(a, b, c, d + 1)
  {
  }

  lemma NextInThirdByte(a: byte, b: byte, c: byte)
    requires c != 0xff
    ensures Next(Word(a, b, c, 0xff)) == Word(a, b, c + 1, 0)
  {
  }

  lemma NextInSecondByte(a: byte, b: byte)
    requires b != 0xff
    ensures Next(Word(a, b, 0xff, 0xff)) == Word(a, b + 1, 0, 0)
  {
  }

  lemma NextInFirstByte(a: byte)
    requires a != 0xff
    ensures Next(Word(a, 0xff, 0xff, 0xff)) == Word(a + 1, 0, 0, 0)
  {
  }

  lemma NextOfLast()
    ensures Next(Word(0xff, 0xff, 0xff, 0xff)) == Word(0, 0, 0, 0)
  {
  }

  lemma Bytewise(w: word)
    ensures w == Word(ByteOf(w, 0), ByteOf(w, 1), ByteOf(w, 2), ByteOf(w, 3))
  {
    WordOfBytes(w);
  }

  lemma ByteValues()
    ensures ByteValue(0xff) == 255 && ByteValue(0) == 0
  {
  }

  lemma NextWordOfBytes(a: byte, b: byte, c: byte, d: byte)
    ensures Value(Next(Word(a, b, c, d))) == (Value(Word(a, b, c, d)) + 1) % MODULUS
  {
    hide Word, Next, Value, ByteValue;
    WordValue(a, b, c, d);
    ByteValues();
    if d != 0xff {
      NextInLastByte(a, b, c, d);
      WordValue(a, b, c, d + 1);
      NextByte(d);
    } else if c != 0xff {
      NextInThirdByte(a, b, c);
      WordValue(a, b, c + 1, 0);
      NextByte(c);
    } else if b != 0xff {
      NextInSecondByte(a, b);
      WordValue(a, b + 1, 0, 0);
      NextByte(b);
    } else if a != 0xff {
      NextInFirstByte(a);
      WordValue(a + 1, 0, 0, 0);
      NextByte(a);
    } else {
      NextOfLast();
      WordValue(0, 0, 0, 0);
    }
  }

  lemma NextWord(w: word)
    ensures Value(Next(w)) == (Value(w) + 1) % MODULUS
  {
    hide Word, Next, Value, ByteOf;
    Bytewise(w);
    NextWordOfBytes(ByteOf(w, 0), ByteOf(w, 1), ByteOf(w, 2), ByteOf(w, 3));
  }

  lemma SumIs(a: word, b: word)
    ensures Sum(a, b) == a + b
  {
  }

  lemma NextIs(w: word)
    ensures Next(w) == w + 1
  {
  }

  lemma AdditionRegroups(a: word, p: word)
    ensures Sum(a, p + 1) == Next(a + p)
  {
  }

  lemma SumOfNext(a: word, p: word)
    ensures Sum(a, Next(p)) == Next(Sum(a, p))
  {
    hide Sum, Next;
    NextIs(p);
    SumIs(a, p);
    AdditionRegroups(a, p);
  }

  lemma SumOfZero(a: word)
    ensures Sum(a, WordOf(0)) == a
  {
  }

  lemma Predecessor(w: word) returns (p: word)
    requires Value(w) > 0
    ensures Next(p) == w && Value(w) == Value(p) + 1
  {
    p := w - 1;
    assert Next(p) == w;
    NextOfPredecessor(p);
  }

  lemma NextOfPredecessor(p: word)
    requires Value(Next(p)) > 0
    ensures Value(Next(p)) == Value(p) + 1
  {
    hide Value, Next;
    NextWord(p);
  }

  lemma RemainderOfNext(n: nat)
    ensures (n % MODULUS + 1) % MODULUS == (n + 1) % MODULUS
  {
  }

  /** Adding words is adding their values modulo 2^32. */
  lemma {:induction false} SumValue(a: word, b: word)
    ensures Value(Sum(a, b)) == (Value(a) + Value(b)) % MODULUS
    decreases Value(b)
  {
    hide Value, WordOf, Sum, Next;
    if Value(b) == 0 {
      WordOfValue(b);
      SumOfZero(a);
    } else {
      var p := Predecessor(b);
      SumValue(a, p);
      SumOfNext(a, p);
      NextWord(Sum(a, p));
      RemainderOfNext(Value(a) + Value(p));
    }
  }

  // The round function

  /** Entry `i` of S-box `k` as a number: four bytes after the 72 of the P-array, 1024 for each S-box. */
  function Entry(t: Image, k: nat, i: nat): (n: nat)
    requires k < 4 && i < 256
    ensures n < MODULUS
  {
    var o := 72 + 1024 * k + 4 * i;
    ((ByteValue(t[o]) * 256 + ByteValue(t[o + 1])) * 256 + ByteValue(t[o + 2])) * 256 + ByteValue(t[o + 3])
  }

  lemma EntryIsValue(t: Image, k: nat, i: nat)
    requires k < 4 && i < 256
    ensures Entry(t, k, i) == Value(SBox(t, k, i))
  {
    hide Word, Value, ByteValue;
    var o := 72 + 1024 * k + 4 * i;
    WordValue(t[o], t[o + 1], t[o + 2], t[o + 3]);
  }

  /** The four digits of a number in base 256, the most significant first. */
  function Digits(n: nat): (d: (nat, nat, nat, nat))
    requires n < MODULUS
    ensures d.0 < 256 && d.1 < 256 && d.2 < 256 && d.3 < 256
  {
    (n / 256 / 256 / 256, n / 256 / 256 % 256, n / 256 % 256, n % 256)
  }

  lemma DigitsOfFour(a: nat, b: nat, c: nat, d: nat)
    requires a < 256 && b < 256 && c < 256 && d < 256
    ensures Digits(((a * 256 + b) * 256 + c) * 256 + d) == (a, b, c, d)
  {
    LastDigit((a * 256 + b) * 256 + c, d);
    LastDigit(a * 256 + b, c);
    LastDigit(a, b);
  }

  lemma LastDigit(n: nat, d: nat)
    requires d < 256
    ensures (n * 256 + d) / 256 == n && (n * 256 + d) % 256 == d
  {
  }

  lemma IndexesAreDigits(w: word)
    ensures ByteIndexes(w) == Digits(Value(w))
  {
    hide Word, ByteOf, Value, ByteValue, Digits;
    Bytewise(w);
    var (a, b, c, d) := ByteIndexes(w);
    WordValue(ByteOf(w, 0), ByteOf(w, 1), ByteOf(w, 2), ByteOf(w, 3));
    DigitsOfFour(a, b, c, d);
  }

  /** The round function in numbers: the first two of the entries that the bytes of `x` select are added modulo 2^32,
      the third is combined with the sum by exclusive-or, and the fourth is added. */
  function FNumber(t: Image, x: nat): (n: nat)
    requires x < MODULUS
    ensures n < MODULUS
  {
    var (a, b, c, d) := Digits(x);
    (Value(Xor(WordOf((Entry(t, 0, a) + Entry(t, 1, b)) % MODULUS), WordOf(Entry(t, 2, c)))) + Entry(t, 3, d)) % MODULUS
  }

  lemma RoundFunctionInNumbers(t: Image, w: word)
    ensures Value(F(t, w)) == FNumber(t, Value(w))
  {
    hide Value, WordOf, Entry, Digits, SBox, ByteIndexes, Mix, Xor;
    var (a, b, c, d) := Digits(Value(w));
    IndexesAreDigits(w);
    EntryIsValue(t, 0, a);
    EntryIsValue(t, 1, b);
    EntryIsValue(t, 2, c);
    EntryIsValue(t, 3, d);
    MixInNumbers(SBox(t, 0, a), SBox(t, 1, b), SBox(t, 2, c), SBox(t, 3, d));
  }

  lemma MixInNumbers(a: word, b: word, c: word, d: word)
    ensures Value(Mix(a, b, c, d)) ==
            (Value(Xor(WordOf((Value(a) + Value(b)) % MODULUS), WordOf(Value(c)))) + Value(d)) % MODULUS
  {
    hide Value, WordOf, Sum, Xor;
    SumValue(a, b);
    WordOfValue(Sum(a, b));
    WordOfValue(c);
    SumValue(Xor(Sum(a, b), c), d);
  }

  // A block

  /** The words a block goes through: from its two halves on, each is made of the two before it and a round key. */
  ghost predicate IsBlockTrace(t: Image, b: Block, v: seq<word>) {
    && |v| == 18 && v[0] == WordAt(b, 4) && v[1] == Xor(WordAt(b, 0), WordAt(t, 0))
    && forall i :: 1 <= i <= 16 ==>
         v[i + 1] == Xor(Xor(WordOf(FNumber(t, Value(v[i]))), v[i - 1]), WordAt(t, 4 * i))
  }

  lemma BlockTraceIsTrace(t: Image, b: Block, v: seq<word>)
    ensures IsBlockTrace(t, b, v) <==> IsTrace(Xor, RoundFunction(t), RoundKeys(t), HalvesOf(b), v)
  {
    hide Value, WordOf, FNumber, F, Xor, WordAt;
    forall w: word ensures RoundFunction(t)(w) == WordOf(FNumber(t, Value(w))) {
      RoundFunctionInNumbers(t, w);
      WordOfValue(F(t, w));
    }
  }

  function BlockEnd(t: Image, v: seq<word>): Block
    requires |v| == 18
  {
    ToBigEndian(Xor(v[16], WordAt(t, 68))) + ToBigEndian(v[17])
  }

  /** Block encryption, in terms of numbers and exclusive-or only: its one result is where the recurrence ends. */
  lemma BlockInNumbers(t: Image, b: Block, c: Block)
    ensures EncryptBlock(t, b) == c <==> exists v :: IsBlockTrace(t, b, v) && BlockEnd(t, v) == c
  {
    hide Xor, RoundFunction, WordAt, ToBigEndian, HalvesOf, Encipher, IsBlockTrace, IsTrace;
    var f, p, h := RoundFunction(t), RoundKeys(t), HalvesOf(b);
    forall v | IsBlockTrace(t, b, v) ensures |v| == 18 && BlockEnd(t, v) == EncryptBlock(t, b) {
      BlockTraceIsTrace(t, b, v);
      TraceLength(Xor, f, p, h, v);
      EncipherIsRecurrence(Xor, f, p, h, v);
    }
    var v := TraceExists(Xor, f, p, h);
    BlockTraceIsTrace(t, b, v);
    assert IsBlockTrace(t, b, v);
  }

  lemma TraceLength(xor: (word, word) -> word, f: word -> word, p: seq<word>, h: Halves<word>, v: seq<word>)
    requires |p| == ROUNDS + 2 && IsTrace(xor, f, p, h, v)
    ensures |v| == 18
  {
  }
}
