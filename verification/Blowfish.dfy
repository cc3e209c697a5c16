/**
 * The Blowfish block cipher as a function of its tables, the key schedule, and the padded byte-string cipher.
 * The five tables are one image: the 18 words of the P-array, then the 256 words of each of the four S-boxes.
 */
module BlowfishSpec {
  import opened Bytes
  import opened Feistel
  import opened Padding

  const P_BYTES: nat := 18 * 4
  const S_BYTES: nat := 256 * 4
  const IMAGE_BYTES: nat := P_BYTES + 4 * S_BYTES
  const SLOTS: nat := 521   // 8-byte slots of an image: 9 of the P-array and 128 of each S-box

  type Image = t: seq<byte> | |t| == IMAGE_BYTES witness seq(IMAGE_BYTES, i => 0)
  type Block = b: seq<byte> | |b| == 8 witness seq(8, i => 0)

  const ZERO_BLOCK: Block := [0, 0, 0, 0, 0, 0, 0, 0]

  lemma XorIsXor()
    ensures IsXor(Xor)
  {
    forall a, b ensures Xor(Xor(a, b), b) == a && Xor(b, Xor(b, a)) == a {
      XorCancels(a, b);
      XorCommutes(b, Xor(b, a));
      XorCommutes(b, a);
    }
    forall a, b, c ensures Xor(a, Xor(b, c)) == Xor(Xor(a, b), c) {
      XorRegroups(a, b, c);
    }
  }

  function WordAt(s: seq<byte>, off: nat): word
    requires off + 4 <= |s|
  {
    Word(s[off], s[off + 1], s[off + 2], s[off + 3])
  }

  /** Entry `i` of S-box `k`, counting both from 0. */
  function SBox(t: Image, k: nat, i: nat): word
    requires k < 4 && i < 256
  {
    WordAt(t, P_BYTES + S_BYTES * k + 4 * i)
  }

  function Mix(a: word, b: word, c: word, d: word): word {
    Sum(Xor(Sum(a, b), c), d)
  }

  function F(t: Image, w: word): word {
    var i := ByteIndexes(w);
    Mix(SBox(t, 0, i.0), SBox(t, 1, i.1), SBox(t, 2, i.2), SBox(t, 3, i.3))
  }

  /** The four bytes of a word as numbers, the most significant first. */
  function ByteIndexes(w: word): (i: (nat, nat, nat, nat))
    ensures i.0 < 256 && i.1 < 256 && i.2 < 256 && i.3 < 256
  {
    (ByteValue(ByteOf(w, 0)), ByteValue(ByteOf(w, 1)), ByteValue(ByteOf(w, 2)), ByteValue(ByteOf(w, 3)))
  }

  function RoundFunction(t: Image): word -> word {
    w => F(t, w)
  }

  function RoundKeys(t: Image): (p: seq<word>)
    ensures |p| == ROUNDS + 2
    ensures forall i :: 0 <= i < |p| ==> p[i] == WordAt(t, 4 * i)
  {
    seq(ROUNDS + 2, i requires 0 <= i < ROUNDS + 2 => WordAt(t, 4 * i))
  }

  function HalvesOf(b: Block): Halves<word> {
    Halves(WordAt(b, 0), WordAt(b, 4))
  }

  function BlockOf(h: Halves<word>): Block {
    ToBigEndian(h.l) + ToBigEndian(h.r)
  }

  lemma BlockRoundTrip(b: Block, h: Halves<word>)
    ensures BlockOf(HalvesOf(b)) == b
    ensures HalvesOf(BlockOf(h)) == h
  {
    BytesOfWord(b[..4]);
    BytesOfWord(b[4..]);
    assert BlockOf(HalvesOf(b)) == b[..4] + b[4..];
    WordOfBytes(h.l);
    WordOfBytes(h.r);
    assert BlockOf(h)[..4] == ToBigEndian(h.l) && BlockOf(h)[4..] == ToBigEndian(h.r);
  }

  function EncryptBlock(t: Image, b: Block): Block {
    BlockOf(Encipher(Xor, RoundFunction(t), RoundKeys(t), HalvesOf(b)))
  }

  function DecryptBlock(t: Image, b: Block): Block {
    BlockOf(Decipher(Xor, RoundFunction(t), RoundKeys(t), HalvesOf(b)))
  }

  /** For all tables and all blocks, each direction undoes the other. */
  lemma BlockCipherInverse(t: Image, b: Block)
    ensures DecryptBlock(t, EncryptBlock(t, b)) == b
    ensures EncryptBlock(t, DecryptBlock(t, b)) == b
  {
    XorIsXor();
    var f, p, h := RoundFunction(t), RoundKeys(t), HalvesOf(b);
    BlockRoundTrip(b, Encipher(Xor, f, p, h));
    BlockRoundTrip(b, Decipher(Xor, f, p, h));
    DecipherInvertsEncipher(Xor, f, p, h);
    EncipherInvertsDecipher(Xor, f, p, h);
  }

  /** Decryption is encryption under the P-array read backwards, as the cipher's author describes it. */
  lemma DecryptIsEncryptReversed(t: Image, b: Block)
    ensures DecryptBlock(t, b) == BlockOf(Encipher(Xor, RoundFunction(t), ReversedKeys(RoundKeys(t)), HalvesOf(b)))
  {
    XorIsXor();
    DecipherIsEncipherReversed(Xor, RoundFunction(t), RoundKeys(t), HalvesOf(b));
  }

  /** Block encryption as a function of the tables and the block. */
  function Cipher(): (Image, Block) -> Block {
    (t, b) => EncryptBlock(t, b)
  }

  function EncryptWith(t: Image): Block -> Block {
    b => EncryptBlock(t, b)
  }

  function DecryptWith(t: Image): Block -> Block {
    b => DecryptBlock(t, b)
  }

  // Key schedule, for any block function of the tables

  function Keyed(digits: Image, key: seq<byte>): (t: Image)
    requires key != []
    ensures forall i :: 0 <= i < IMAGE_BYTES ==> t[i] == if i < P_BYTES then digits[i] ^ key[i % |key|] else digits[i]
  {
    seq(IMAGE_BYTES, i requires 0 <= i < IMAGE_BYTES => if i < P_BYTES then digits[i] ^ key[i % |key|] else digits[i])
  }

  lemma XorOfXor(a: byte, b: byte)
    ensures (a ^ b) ^ a == b && a ^ a == 0
  {
  }

  /** What is added to byte `i` of the digits to get that of the tables. */
  function AddedAt(digits: Image, t: Image, i: nat): byte
    requires i < IMAGE_BYTES
  {
    t[i] ^ digits[i]
  }

  /** Byte `i` of the key written over and over again. */
  function KeyAt(key: seq<byte>, i: nat): byte
    requires key != []
  {
    key[i % |key|]
  }

  lemma KeyRepeats(key: seq<byte>, i: nat)
    requires key != []
    ensures KeyAt(key, i) == if i < |key| then key[i] else KeyAt(key, i - |key|)
  {
    if |key| <= i {
      SameRemainder(i, |key|);
    }
  }

  lemma KeyedAt(digits: Image, key: seq<byte>, i: nat)
    requires key != [] && i < IMAGE_BYTES
    ensures AddedAt(digits, Keyed(digits, key), i) == if i < P_BYTES then KeyAt(key, i) else 0
  {
    XorOfXor(digits[i], if i < P_BYTES then key[i % |key|] else 0);
  }

  /** What is added to the P-array is the key, over and over again; the S-boxes are left alone. */
  lemma KeyIsAddedCyclically(digits: Image, key: seq<byte>, i: nat)
    requires key != [] && i < IMAGE_BYTES
    ensures AddedAt(digits, Keyed(digits, key), i) ==
            if i >= P_BYTES then 0
            else if i < |key| then key[i]
            else AddedAt(digits, Keyed(digits, key), i - |key|)
  {
    hide Keyed, AddedAt, KeyAt;
    KeyedAt(digits, key, i);
    KeyRepeats(key, i);
    if |key| <= i {
      KeyedAt(digits, key, i - |key|);
    }
  }

  lemma SameRemainder(i: nat, n: nat)
    requires 0 < n <= i
    ensures (i - n) % n == i % n
  {
    var q, r := i / n, i % n;
    assert i == q * n + r;
    Remainder(i - n, n, q - 1, r) by {
      assert (q - 1) * n == q * n - n;
    }
  }

  lemma Remainder(i: nat, n: nat, q: int, r: nat)
    requires r < n && i == q * n + r
    ensures i % n == r
  {
    var q', r' := i / n, i % n;
    assert i == q' * n + r' && r' < n;
    SameQuotient(n, q, r, q', r');
    SameQuotient(n, q', r', q, r);
  }

  lemma SameQuotient(n: nat, q: int, r: nat, q': int, r': nat)
    requires r < n && r' < n && q * n + r == q' * n + r'
    ensures q <= q'
  {
    if q > q' {
      ProductGrows(q', q, n);
    }
  }

  lemma {:induction false} ProductGrows(a: int, b: int, n: nat)
    requires a < b
    ensures a * n + n <= b * n
    decreases b - a
  {
    if a + 1 < b {
      ProductGrows(a, b - 1, n);
    }
    assert b * n == (b - 1) * n + n;
  }

  function Slot(t: Image, k: nat): Block
    requires k < SLOTS
  {
    t[8 * k..8 * k + 8]
  }

  function WithSlot(t: Image, k: nat, b: Block): Image
    requires k < SLOTS
  {
    t[..8 * k] + b + t[8 * k + 8..]
  }

  datatype Stage = Stage(image: Image, seed: Block)

  /** One step of the schedule: the seed is encrypted under the current tables and stored in slot `k`. */
  function Advanced(enc: (Image, Block) -> Block, s: Stage, k: nat): Stage
    requires k < SLOTS
  {
    Stage(WithSlot(s.image, k, enc(s.image, s.seed)), enc(s.image, s.seed))
  }

  /** The tables and the running seed after the first `k` slots have been rewritten. */
  function Schedule(enc: (Image, Block) -> Block, t: Image, k: nat): Stage
    requires k <= SLOTS
  {
    if k == 0 then Stage(t, ZERO_BLOCK) else Advanced(enc, Schedule(enc, t, k - 1), k - 1)
  }

  /** The tables a key expands to, from the initial digits. */
  function Expanded(digits: Image, key: seq<byte>): Image
    requires key != []
  {
    Schedule(Cipher(), Keyed(digits, key), SLOTS).image
  }

  /** The first `k` slots of `g` followed by the remaining slots of `t`. */
  function Mixed(t: Image, g: Image, k: nat): Image
    requires k <= SLOTS
  {
    g[..8 * k] + t[8 * k..]
  }

  function Predecessor(g: Image, k: nat): Block
    requires k <= SLOTS
  {
    if k == 0 then ZERO_BLOCK else Slot(g, k - 1)
  }

  predicate SlotEquation(enc: (Image, Block) -> Block, t: Image, g: Image, k: nat)
    requires k < SLOTS
  {
    Slot(g, k) == enc(Mixed(t, g, k), Predecessor(g, k))
  }

  /** Every slot of `g` is the encryption of its predecessor under the tables as rewritten so far. */
  ghost predicate IsKeySchedule(enc: (Image, Block) -> Block, t: Image, g: Image) {
    forall k :: 0 <= k < SLOTS ==> SlotEquation(enc, t, g, k)
  }

  lemma SlotWritten(t: Image, g: Image, k: nat, b: Block)
    requires k < SLOTS && Slot(g, k) == b
    ensures WithSlot(Mixed(t, g, k), k, b) == Mixed(t, g, k + 1)
  {
    assert g[..8 * (k + 1)] == g[..8 * k] + g[8 * k..8 * k + 8];
  }

  lemma {:induction false} ScheduleKeepsTail(enc: (Image, Block) -> Block, t: Image, k: nat)
    requires k <= SLOTS
    ensures Schedule(enc, t, k).image[8 * k..] == t[8 * k..]
    ensures Schedule(enc, t, k).seed == Predecessor(Schedule(enc, t, k).image, k)
  {
    if k > 0 {
      ScheduleKeepsTail(enc, t, k - 1);
      var s := Schedule(enc, t, k - 1);
      assert s.image[8 * k..] == s.image[8 * (k - 1)..][8..] == t[8 * k..];
    }
  }

  lemma OwnSlotsAndTail(t: Image, g: Image, k: nat)
    requires k <= SLOTS && g[8 * k..] == t[8 * k..]
    ensures g == Mixed(t, g, k)
  {
    assert g == g[..8 * k] + g[8 * k..];
  }

  lemma LaterSlotKeepsPrefix(t: Image, g: Image, k: nat, n: nat, b: Block)
    requires k <= n < SLOTS
    ensures Mixed(t, WithSlot(g, n, b), k) == Mixed(t, g, k)
    ensures Predecessor(WithSlot(g, n, b), k) == Predecessor(g, k)
  {
    assert WithSlot(g, n, b)[..8 * k] == g[..8 * k];
    if k > 0 {
      assert Slot(WithSlot(g, n, b), k - 1) == Slot(g, k - 1);
    }
  }

  /** After `k` steps the first `k` slots are those of the final tables and the others are untouched. */
  lemma {:induction false} ScheduleWritesInOrder(enc: (Image, Block) -> Block, t: Image, k: nat, n: nat)
    requires k <= n <= SLOTS
    ensures Schedule(enc, t, k).image == Mixed(t, Schedule(enc, t, n).image, k)
    ensures Schedule(enc, t, k).seed == Predecessor(Schedule(enc, t, n).image, k)
    decreases n
  {
    hide Mixed, WithSlot, Slot, Predecessor;
    if k < n {
      ScheduleWritesInOrder(enc, t, k, n - 1);
      var s := Schedule(enc, t, n - 1);
      LaterSlotKeepsPrefix(t, s.image, k, n - 1, enc(s.image, s.seed));
    } else {
      ScheduleKeepsTail(enc, t, k);
      OwnSlotsAndTail(t, Schedule(enc, t, k).image, k);
    }
  }

  lemma {:induction false} ScheduleIsUnique(enc: (Image, Block) -> Block, t: Image, g: Image, k: nat)
    requires IsKeySchedule(enc, t, g) && k <= SLOTS
    ensures Schedule(enc, t, k) == Stage(Mixed(t, g, k), Predecessor(g, k))
  {
    hide Mixed, WithSlot, Slot;
    if k > 0 {
      ScheduleIsUnique(enc, t, g, k - 1);
      var b := enc(Mixed(t, g, k - 1), Predecessor(g, k - 1));
      assert SlotEquation(enc, t, g, k - 1);
      SlotWritten(t, g, k - 1, b);
      assert Schedule(enc, t, k) == Advanced(enc, Schedule(enc, t, k - 1), k - 1);
    } else {
      NoneMixed(t, g);
    }
  }

  lemma NoneMixed(t: Image, g: Image)
    ensures Mixed(t, g, 0) == t
  {
  }

  /** The loops compute the one and only solution of the slot equations. */
  lemma KeyScheduleCharacterised(enc: (Image, Block) -> Block, t: Image, g: Image)
    ensures IsKeySchedule(enc, t, g) <==> g == Schedule(enc, t, SLOTS).image
  {
    var h := Schedule(enc, t, SLOTS).image;
    forall k | 0 <= k < SLOTS ensures SlotEquation(enc, t, h, k) {
      ScheduleWritesInOrder(enc, t, k, SLOTS);
      ScheduleWritesInOrder(enc, t, k + 1, SLOTS);
    }
    if IsKeySchedule(enc, t, g) {
      ScheduleIsUnique(enc, t, g, SLOTS);
      assert Mixed(t, g, SLOTS) == g;
    }
  }

  // Byte strings of whole blocks

  function MapBlocks(f: Block -> Block, s: seq<byte>): (r: seq<byte>)
    requires |s| % 8 == 0
    ensures |r| == |s|
  {
    if s == [] then [] else MapBlocks(f, s[..|s| - 8]) + f(s[|s| - 8..])
  }

  lemma {:induction false} MapBlocksInverse(f: Block -> Block, g: Block -> Block, s: seq<byte>)
    requires |s| % 8 == 0
    requires forall b :: g(f(b)) == b
    ensures MapBlocks(g, MapBlocks(f, s)) == s
  {
    hide MapBlocks;
    if s == [] {
      NoBlocks(f);
      NoBlocks(g);
    } else {
      var init: seq<byte>, last: Block := s[..|s| - 8], s[|s| - 8..];
      assert s == init + last;
      MapLastBlock(f, init, last);
      MapBlocksInverse(f, g, init);
      MapLastBlock(g, MapBlocks(f, init), f(last));
      assert g(f(last)) == last;
    }
  }

  lemma NoBlocks(f: Block -> Block)
    ensures MapBlocks(f, []) == []
  {
  }

  lemma MapLastBlock(f: Block -> Block, s: seq<byte>, b: Block)
    requires |s| % 8 == 0
    ensures MapBlocks(f, s + b) == MapBlocks(f, s) + f(b)
  {
    var all := s + b;
    assert all[..|all| - 8] == s && all[|all| - 8..] == b;
  }

  function BlockAt(s: seq<byte>, k: nat): Block
    requires 8 * k + 8 <= |s|
  {
    s[8 * k..8 * k + 8]
  }

  /** Each block is replaced by itself, in its place. */
  lemma {:induction false} MapBlocksAt(f: Block -> Block, s: seq<byte>, k: nat)
    requires |s| % 8 == 0 && 8 * k + 8 <= |s|
    ensures BlockAt(MapBlocks(f, s), k) == f(BlockAt(s, k))
  {
    hide MapBlocks;
    var init: seq<byte>, last: Block := s[..|s| - 8], s[|s| - 8..];
    assert s == init + last;
    MapLastBlock(f, init, last);
    if 8 * k + 8 < |s| {
      MapBlocksAt(f, init, k);
      assert BlockAt(init, k) == BlockAt(s, k);
    } else {
      assert BlockAt(s, k) == last;
    }
  }

  function EncryptBlocks(t: Image, s: seq<byte>): seq<byte>
    requires |s| % 8 == 0
  {
    MapBlocks(EncryptWith(t), s)
  }

  function DecryptBlocks(t: Image, c: seq<byte>): seq<byte>
    requires |c| % 8 == 0
  {
    MapBlocks(DecryptWith(t), c)
  }

  lemma BlocksInverse(t: Image, s: seq<byte>)
    requires |s| % 8 == 0
    ensures DecryptBlocks(t, EncryptBlocks(t, s)) == s
    ensures EncryptBlocks(t, DecryptBlocks(t, s)) == s
  {
    var e, d := EncryptWith(t), DecryptWith(t);
    forall b ensures d(e(b)) == b && e(d(b)) == b {
      BlockCipherInverse(t, b);
    }
    MapBlocksInverse(e, d, s);
    MapBlocksInverse(d, e, s);
  }

  // Padded byte strings

  lemma ByteValuesAreCode()
    ensures IsByteCode(ByteValue, LowByte)
  {
    forall n: nat | n < 256 ensures ByteValue(LowByte(n)) == n {
      ValueOfLowByte(n);
    }
  }

  function Encrypted(digits: Image, key: seq<byte>, padding: bool, s: seq<byte>): seq<byte> {
    if s == [] || key == [] || (!padding && |s| % 8 != 0) then []
    else EncryptBlocks(Expanded(digits, key), if padding then Padded(LowByte, s) else s)
  }

  function Decrypted(digits: Image, key: seq<byte>, padding: bool, c: seq<byte>): seq<byte> {
    if c == [] || key == [] || |c| % 8 != 0 then [] else
      var s := DecryptBlocks(Expanded(digits, key), c);
      if padding then Unpadded(ByteValue, LowByte, s) else s
  }

  /** Decryption gives back exactly the clear texts that encryption accepts. */
  lemma CipherRoundTrip(digits: Image, key: seq<byte>, padding: bool, s: seq<byte>)
    ensures Decrypted(digits, key, padding, Encrypted(digits, key, padding, s)) == s
            <==> s == [] || (key != [] && (padding || |s| % 8 == 0))
    ensures key != [] && padding && s != [] ==> |Encrypted(digits, key, padding, s)| == 8 * (|s| / 8 + 1)
  {
    if s != [] && key != [] && (padding || |s| % 8 == 0) {
      BlocksInverse(Expanded(digits, key), if padding then Padded(LowByte, s) else s);
      ByteValuesAreCode();
      UnpadPadded(ByteValue, LowByte, s);
    }
  }

  /** A cipher text is as long as the padded text, and each of its blocks is the encryption of the block there. */
  lemma CipherTextBlock(digits: Image, key: seq<byte>, s: seq<byte>, c: seq<byte>, k: nat)
    requires s != [] && key != [] && c == Encrypted(digits, key, true, s)
    ensures |c| == |Padded(LowByte, s)|
    ensures 8 * k + 8 <= |c| ==>
              BlockAt(c, k) == EncryptBlock(Expanded(digits, key), BlockAt(Padded(LowByte, s), k))
  {
    hide MapBlocks, EncryptBlock, Expanded;
    if 8 * k + 8 <= |c| {
      MapBlocksAt(EncryptWith(Expanded(digits, key)), Padded(LowByte, s), k);
    }
  }

  lemma EncryptAgain(t: Image, c: seq<byte>, u: seq<byte>)
    requires |c| % 8 == 0
    ensures EncryptBlocks(t, Padded(LowByte, u)) == c <==> Padded(LowByte, u) == DecryptBlocks(t, c)
  {
    BlocksInverse(t, c);
    BlocksInverse(t, Padded(LowByte, u));
  }

  /** What decryption, which also strips paddings of 0 and of more than 8 bytes, does to a foreign cipher text:
      encrypting the result again gives the cipher text back exactly when its padding is one that encryption writes. */
  lemma DecryptThenEncrypt(digits: Image, key: seq<byte>, c: seq<byte>)
    requires key != [] && c != [] && |c| % 8 == 0
    ensures Encrypted(digits, key, true, Decrypted(digits, key, true, c)) == c
            <==> HasPadding(ByteValue, LowByte, DecryptBlocks(Expanded(digits, key), c))
  {
    var t := Expanded(digits, key);
    var s := DecryptBlocks(t, c);
    ByteValuesAreCode();
    UnpaddedIsPadded(ByteValue, LowByte, s);
    EncryptAgain(t, c, Unpadded(ByteValue, LowByte, s));
  }
}
