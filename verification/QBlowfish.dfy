/** The cipher object: byte tables rewritten in place by the key schedule, and blocks transformed in place. */
module QBlowfishClass {
  import opened Bytes
  import opened Feistel
  import opened Padding
  import opened BlowfishSpec

  ghost predicate IsImageOf(t: Image, p: seq<byte>, s1: seq<byte>, s2: seq<byte>, s3: seq<byte>, s4: seq<byte>) {
    && |p| == P_BYTES && |s1| == |s2| == |s3| == |s4| == S_BYTES
    && t == p + s1 + s2 + s3 + s4
  }

  /** A lookup in each of the four S-boxes of an image. */
  lemma Lookups(
    t: Image, p: seq<byte>, s1: seq<byte>, s2: seq<byte>, s3: seq<byte>, s4: seq<byte>, a: nat, b: nat, c: nat,
    d: nat)
    requires IsImageOf(t, p, s1, s2, s3, s4) && a < 256 && b < 256 && c < 256 && d < 256
    ensures SBox(t, 0, a) == WordAt(s1, 4 * a) && SBox(t, 1, b) == WordAt(s2, 4 * b)
    ensures SBox(t, 2, c) == WordAt(s3, 4 * c) && SBox(t, 3, d) == WordAt(s4, 4 * d)
  {
    hide Word;
  }

  /** Writing 8 bytes of one table writes one slot of the image. */
  lemma SlotOfImage(
    t: Image, t': Image, before: seq<byte>, table: seq<byte>, table': seq<byte>, after: seq<byte>, first: nat,
    o: nat, b: Block)
    requires o % 8 == 0 && o + 8 <= |table| && |before| == 8 * first
    requires t == before + table + after && t' == before + table' + after
    requires table' == table[..o] + b + table[o + 8..]
    ensures first + o / 8 < SLOTS && t' == WithSlot(t, first + o / 8, b)
  {
    var k := first + o / 8;
    assert 8 * k == |before| + o;
    assert t[..8 * k] == before + table[..o] && t[8 * k + 8..] == table[o + 8..] + after;
  }

  lemma KeyedParts(
    digits: Image, key: seq<byte>, p: seq<byte>, s1: seq<byte>, s2: seq<byte>, s3: seq<byte>, s4: seq<byte>)
    requires key != [] && |p| == P_BYTES && forall j :: 0 <= j < P_BYTES ==> p[j] == digits[j] ^ key[j % |key|]
    requires s1 == digits[P_BYTES..][..S_BYTES] && s2 == digits[P_BYTES..][S_BYTES..S_BYTES * 2]
    requires s3 == digits[P_BYTES..][S_BYTES * 2..S_BYTES * 3] && s4 == digits[P_BYTES..][S_BYTES * 3..]
    ensures p + s1 + s2 + s3 + s4 == Keyed(digits, key)
  {
    var k := Keyed(digits, key);
    SBoxParts(digits[P_BYTES..], s1, s2, s3, s4);
    assert p == k[..P_BYTES];
    assert digits[P_BYTES..] == k[P_BYTES..];
    assert p + s1 + s2 + s3 + s4 == p + (s1 + s2 + s3 + s4);
  }

  lemma SBoxParts(all: seq<byte>, s1: seq<byte>, s2: seq<byte>, s3: seq<byte>, s4: seq<byte>)
    requires |all| == 4 * S_BYTES && s1 == all[..S_BYTES] && s2 == all[S_BYTES..S_BYTES * 2]
    requires s3 == all[S_BYTES * 2..S_BYTES * 3] && s4 == all[S_BYTES * 3..]
    ensures s1 + s2 + s3 + s4 == all
  {
    assert s1 + s2 == all[..S_BYTES * 2];
    assert s1 + s2 + s3 == all[..S_BYTES * 3];
  }

  lemma ScheduleStart(t: Image)
    ensures Schedule(Cipher(), t, 0) == Stage(t, ZERO_BLOCK)
  {
  }

  lemma NextBlock(f: Block -> Block, s: seq<byte>, i: nat)
    requires i % 8 == 0 && i + 8 <= |s|
    ensures MapBlocks(f, s[..i + 8]) == MapBlocks(f, s[..i]) + f(s[i..i + 8])
  {
    assert s[..i + 8][..i] == s[..i] && s[..i + 8][i..] == s[i..i + 8];
  }

  /** The first `i` bytes are those of `text` with each block replaced, and the others are those of `text`. */
  predicate IsDone(r: seq<byte>, text: seq<byte>, f: Block -> Block, i: nat)
    requires |text| % 8 == 0
  {
    i % 8 == 0 && i <= |text| == |r| && r[..i] == MapBlocks(f, text[..i]) && r[i..] == text[i..]
  }

  lemma BlockDone(was: seq<byte>, now: seq<byte>, text: seq<byte>, f: Block -> Block, i: nat)
    requires |text| % 8 == 0 && IsDone(was, text, f, i) && i + 8 <= |text| == |now|
    requires now[i..i + 8] == f(text[i..i + 8])
    requires forall j :: 0 <= j < |now| && !(i <= j < i + 8) ==> now[j] == was[j]
    ensures IsDone(now, text, f, i + 8)
  {
    hide MapBlocks;
    NextBlock(f, text, i);
    assert now[..i] == was[..i];
    assert now[..i + 8] == now[..i] + now[i..i + 8];
    assert now[i + 8..] == was[i + 8..] == text[i + 8..];
  }

  lemma NothingDone(text: seq<byte>, f: Block -> Block)
    requires |text| % 8 == 0
    ensures IsDone(text, text, f, 0)
  {
  }

  lemma EncryptWithAt(t: Image, b: Block)
    ensures EncryptWith(t)(b) == EncryptBlock(t, b)
  {
    hide EncryptBlock;
  }

  lemma DecryptWithAt(t: Image, b: Block)
    ensures DecryptWith(t)(b) == DecryptBlock(t, b)
  {
    hide DecryptBlock;
  }

  lemma CipherOf(t: Image, b: Block)
    ensures Cipher()(t, b) == EncryptBlock(t, b)
  {
    hide EncryptBlock;
  }

  lemma IndexesOfWord(a: byte, b: byte, c: byte, d: byte)
    ensures ByteIndexes(Word(a, b, c, d)) == (ByteValue(a), ByteValue(b), ByteValue(c), ByteValue(d))
  {
    hide Word, ByteOf, ByteValue;
    BytesOfWord([a, b, c, d]);
    assert FromBigEndian([a, b, c, d]) == Word(a, b, c, d);
    var s := ToBigEndian(Word(a, b, c, d));
    assert s[0] == a && s[1] == b && s[2] == c && s[3] == d;
  }

  class QBlowfish {
    const key: seq<byte>
    const digits: Image       // the initial P-array and S-boxes
    var initialized: bool
    var paddingEnabled: bool
    var parray: array<byte>
    var sbox1: array<byte>
    var sbox2: array<byte>
    var sbox3: array<byte>
    var sbox4: array<byte>

    ghost predicate HasTables()
      reads this
    {
      && parray.Length == P_BYTES
      && sbox1.Length == sbox2.Length == sbox3.Length == sbox4.Length == S_BYTES
      && sbox1 != sbox2 && sbox1 != sbox3 && sbox1 != sbox4 && sbox2 != sbox3 && sbox2 != sbox4 && sbox3 != sbox4
    }

    ghost function Tables(): (t: Image)
      reads this, parray, sbox1, sbox2, sbox3, sbox4
      requires HasTables()
    {
      parray[..] + sbox1[..] + sbox2[..] + sbox3[..] + sbox4[..]
    }

    ghost function TableSet(): set<array<byte>>
      reads this
    {
      {parray, sbox1, sbox2, sbox3, sbox4}
    }

    ghost predicate Valid()
      reads this, parray, sbox1, sbox2, sbox3, sbox4
    {
      initialized ==> key != [] && HasTables() && Tables() == Expanded(digits, key)
    }

    constructor (key: seq<byte>, digits: Image)
      ensures Valid() && !initialized && !paddingEnabled && this.key == key && this.digits == digits
    {
      this.key := key;
      this.digits := digits;
      initialized := false;
      paddingEnabled := false;
      var none := new byte[0];
      parray, sbox1, sbox2, sbox3, sbox4 := none, none, none, none, none;
    }

    method SetPaddingEnabled(enabled: bool)
      requires Valid()
      modifies this`paddingEnabled
      ensures Valid() && paddingEnabled == enabled
    {
      paddingEnabled := enabled;
    }

    static ghost function HalvesAt(x: array<byte>, off: nat): Halves<word>
      reads x
      requires off + 8 <= x.Length
    {
      Halves(WordAt(x[..], off), WordAt(x[..], off + 4))
    }

    static method XorInto(x: array<byte>, off: nat, k: seq<byte>)
      requires off + 4 <= x.Length && |k| == 4
      modifies x
      ensures forall j :: 0 <= j < x.Length && !(off <= j < off + 4) ==> x[j] == old(x[j])
      ensures WordAt(x[..], off) == Xor(old(WordAt(x[..], off)), FromBigEndian(k))
    {
      hide Word, Xor;
      for j := 0 to 4
        invariant forall i :: 0 <= i < x.Length && !(off <= i < off + j) ==> x[i] == old(x[i])
        invariant forall i :: 0 <= i < j ==> x[off + i] == old(x[off + i]) ^ k[i]
      {
        x[off + j] := x[off + j] ^ k[j];
      }
      XorBytewise(old(x[off..off + 4]), k);
    }

    static method SwapHalves(x: array<byte>, off: nat)
      requires off + 8 <= x.Length
      modifies x
      ensures forall j :: 0 <= j < x.Length && !(off <= j < off + 8) ==> x[j] == old(x[j])
      ensures HalvesAt(x, off) == Swapped(old(HalvesAt(x, off)))
    {
      hide Word;
      for j := 0 to 4
        invariant forall i :: 0 <= i < x.Length && !(off <= i < off + j) && !(off + 4 <= i < off + 4 + j) ==>
            x[i] == old(x[i])
        invariant forall i :: off <= i < off + j ==> x[i] == old(x[i + 4])
        invariant forall i :: off + 4 <= i < off + 4 + j ==> x[i] == old(x[i - 4])
      {
        x[off + j], x[off + 4 + j] := x[off + 4 + j], x[off + j];
      }
    }

    /** The big-endian bytes of F of the word at `off`, looked up in the four S-boxes. */
    method FBytes(x: array<byte>, off: nat) returns (bytes: seq<byte>)
      requires HasTables() && off + 4 <= x.Length
      ensures |bytes| == 4 && FromBigEndian(bytes) == F(Tables(), WordAt(x[..], off))
    {
      hide Mix, Word, ToBigEndian, FromBigEndian, ByteIndexes, ByteValue;
      var a, b, c, d := ByteValue(x[off]), ByteValue(x[off + 1]), ByteValue(x[off + 2]), ByteValue(x[off + 3]);
      var s1a := WordAt(sbox1[..], 4 * a);
      var s2b := WordAt(sbox2[..], 4 * b);
      var s3c := WordAt(sbox3[..], 4 * c);
      var s4d := WordAt(sbox4[..], 4 * d);
      var f := Mix(s1a, s2b, s3c, s4d);
      bytes := ToBigEndian(f);
      WordOfBytes(f);
      Lookups(Tables(), parray[..], sbox1[..], sbox2[..], sbox3[..], sbox4[..], a, b, c, d);
      IndexesOfWord(x[off], x[off + 1], x[off + 2], x[off + 3]);
      hide SBox;
      assert WordAt(x[..], off) == Word(x[off], x[off + 1], x[off + 2], x[off + 3]);
    }

    /** Adds round key `i` to one half of the 8 bytes at `off`. */
    method XorRoundKey(x: array<byte>, off: nat, right: bool, i: nat)
      requires HasTables() && off + 8 <= x.Length && i < ROUNDS + 2 && x !in TableSet()
      modifies x
      ensures forall j :: 0 <= j < x.Length && !(off <= j < off + 8) ==> x[j] == old(x[j])
      ensures var h, k := old(HalvesAt(x, off)), RoundKeys(Tables())[i];
              HalvesAt(x, off) == if right then Halves(h.l, Xor(h.r, k)) else Halves(Xor(h.l, k), h.r)
    {
      hide Word, Xor;
      XorInto(x, if right then off + 4 else off, parray[4 * i..4 * i + 4]);
    }

    /** xR = F(xL) xor xR, for the halves at `off`. */
    method XorF(x: array<byte>, off: nat)
      requires HasTables() && off + 8 <= x.Length && x !in TableSet()
      modifies x
      ensures forall j :: 0 <= j < x.Length && !(off <= j < off + 8) ==> x[j] == old(x[j])
      ensures var h := old(HalvesAt(x, off)); HalvesAt(x, off) == Halves(h.l, Xor(RoundFunction(Tables())(h.l), h.r))
    {
      hide Word, Xor, F, FromBigEndian;
      var bytes := FBytes(x, off);
      XorCommutes(WordAt(x[..], off + 4), FromBigEndian(bytes));
      XorInto(x, off + 4, bytes);
    }

    lemma HalvesAtBlock(x: array<byte>, off: nat, b: Block)
      requires off + 8 <= x.Length && b == x[off..off + 8]
      ensures HalvesOf(b) == HalvesAt(x, off) && BlockOf(HalvesAt(x, off)) == b
    {
      hide Word;
      BlockRoundTrip(b, HalvesAt(x, off));
    }

    method EncipherRound(x: array<byte>, off: nat, i: nat, ghost h: Halves<word>)
      requires HasTables() && off + 8 <= x.Length && x !in TableSet() && i < ROUNDS
      requires HalvesAt(x, off) == EncipherRounds(Xor, RoundFunction(Tables()), RoundKeys(Tables()), i, h)
      modifies x
      ensures forall j :: 0 <= j < x.Length && !(off <= j < off + 8) ==> x[j] == old(x[j])
      ensures var e := EncipherRounds(Xor, RoundFunction(Tables()), RoundKeys(Tables()), i + 1, h);
              HalvesAt(x, off) == if i == 15 then Swapped(e) else e
    {
      hide Xor, WordAt, HalvesAt, RoundFunction, RoundKeys;
      XorRoundKey(x, off, false, i);
      XorF(x, off);
      if i != 15 {
        SwapHalves(x, off);
      }
    }

    method DecipherRound(x: array<byte>, off: nat, i: nat, ghost h: Halves<word>)
      requires HasTables() && off + 8 <= x.Length && x !in TableSet() && i < ROUNDS
      requires HalvesAt(x, off) == DecipherRounds(Xor, RoundFunction(Tables()), RoundKeys(Tables()), 15 - i, h)
      modifies x
      ensures forall j :: 0 <= j < x.Length && !(off <= j < off + 8) ==> x[j] == old(x[j])
      ensures HalvesAt(x, off) == DecipherRounds(Xor, RoundFunction(Tables()), RoundKeys(Tables()), 16 - i, h)
    {
      hide Xor, WordAt, HalvesAt, RoundFunction, RoundKeys;
      if i != 15 {
        SwapHalves(x, off);
      }
      XorF(x, off);
      XorRoundKey(x, off, false, i);
    }

    /** Replaces the 8 bytes at `off` by their encryption. */
    method CoreEncrypt(x: array<byte>, off: nat)
      requires HasTables() && off + 8 <= x.Length && x !in TableSet()
      modifies x
      ensures x[off..off + 8] == EncryptBlock(Tables(), old(x[off..off + 8]))
      ensures forall j :: 0 <= j < x.Length && !(off <= j < off + 8) ==> x[j] == old(x[j])
    {
      hide Xor, WordAt, HalvesAt, RoundFunction, RoundKeys;
      ghost var h, f, p := HalvesAt(x, off), RoundFunction(Tables()), RoundKeys(Tables());
      HalvesAtBlock(x, off, x[off..off + 8]);
      for i := 0 to ROUNDS
        invariant forall j :: 0 <= j < x.Length && !(off <= j < off + 8) ==> x[j] == old(x[j])
        invariant HalvesAt(x, off) ==
                  if i == ROUNDS then Swapped(EncipherRounds(Xor, f, p, i, h)) else EncipherRounds(Xor, f, p, i, h)
      {
        EncipherRound(x, off, i, h);
      }
      XorRoundKey(x, off, true, 16);
      XorRoundKey(x, off, false, 17);
      HalvesAtBlock(x, off, x[off..off + 8]);
    }

    /** Replaces the 8 bytes at `off` by their decryption. */
    method CoreDecrypt(x: array<byte>, off: nat)
      requires HasTables() && off + 8 <= x.Length && x !in TableSet()
      modifies x
      ensures x[off..off + 8] == DecryptBlock(Tables(), old(x[off..off + 8]))
      ensures forall j :: 0 <= j < x.Length && !(off <= j < off + 8) ==> x[j] == old(x[j])
    {
      hide Xor, WordAt, HalvesAt, RoundFunction, RoundKeys;
      ghost var h, f, p := HalvesAt(x, off), RoundFunction(Tables()), RoundKeys(Tables());
      HalvesAtBlock(x, off, x[off..off + 8]);
      XorRoundKey(x, off, false, 17);
      XorRoundKey(x, off, true, 16);
      var i := 15;
      while i >= 0
        invariant -1 <= i <= 15
        invariant forall j :: 0 <= j < x.Length && !(off <= j < off + 8) ==> x[j] == old(x[j])
        invariant HalvesAt(x, off) == DecipherRounds(Xor, f, p, 15 - i, h)
      {
        DecipherRound(x, off, i, h);
        i := i - 1;
      }
      HalvesAtBlock(x, off, x[off..off + 8]);
    }

    // Key schedule

    /** The first of the slots of the image that lie in `table`. */
    ghost function FirstSlot(table: array<byte>): nat
      reads this
    {
      if table == parray then 0
      else if table == sbox1 then 9
      else if table == sbox2 then 137
      else if table == sbox3 then 265
      else 393
    }

    static method WriteSlot(table: array<byte>, o: nat, seed: array<byte>)
      requires seed.Length == 8 && o + 8 <= table.Length && table != seed
      modifies table
      ensures table[..] == old(table[..o]) + seed[..] + old(table[o + 8..])
    {
      for j := 0 to 8
        invariant forall i :: 0 <= i < o || o + j <= i < table.Length ==> table[i] == old(table[i])
        invariant forall i :: o <= i < o + j ==> table[i] == seed[i - o]
      {
        table[o + j] := seed[j];
      }
    }

    ghost function BytesBefore(table: array<byte>): seq<byte>
      reads this, parray, sbox1, sbox2, sbox3
    {
      if table == parray then []
      else if table == sbox1 then parray[..]
      else if table == sbox2 then parray[..] + sbox1[..]
      else if table == sbox3 then parray[..] + sbox1[..] + sbox2[..]
      else parray[..] + sbox1[..] + sbox2[..] + sbox3[..]
    }

    ghost function BytesAfter(table: array<byte>): seq<byte>
      reads this, sbox1, sbox2, sbox3, sbox4
    {
      if table == parray then sbox1[..] + sbox2[..] + sbox3[..] + sbox4[..]
      else if table == sbox1 then sbox2[..] + sbox3[..] + sbox4[..]
      else if table == sbox2 then sbox3[..] + sbox4[..]
      else if table == sbox3 then sbox4[..]
      else []
    }

    lemma TableInImage(table: array<byte>)
      requires HasTables() && table in TableSet()
      ensures Tables() == BytesBefore(table) + table[..] + BytesAfter(table)
      ensures |BytesBefore(table)| == 8 * FirstSlot(table)
    {
    }

    /** Rewrites the 8 bytes of a table at `o` with the encryption of the seed, which becomes the new seed. */
    method RewriteSlot(table: array<byte>, o: nat, seed: array<byte>, ghost t0: Image)
      requires HasTables() && table in TableSet() && seed !in TableSet() && seed.Length == 8
      requires o % 8 == 0 && o + 8 <= table.Length && FirstSlot(table) + o / 8 < SLOTS
      requires Schedule(Cipher(), t0, FirstSlot(table) + o / 8) == Stage(Tables(), seed[..])
      modifies table, seed
      ensures Schedule(Cipher(), t0, FirstSlot(table) + o / 8 + 1) == Stage(Tables(), seed[..])
    {
      hide EncryptBlock, WithSlot, Cipher;
      ghost var before, after, first := BytesBefore(table), BytesAfter(table), FirstSlot(table);
      ghost var t, s, was := Tables(), seed[..], table[..];
      TableInImage(table);
      assert s == seed[0..8];
      CoreEncrypt(seed, 0);
      assert seed[..] == seed[0..8] == EncryptBlock(t, s);
      WriteSlot(table, o, seed);
      TableInImage(table);
      SlotOfImage(t, Tables(), before, was, table[..], after, first, o, seed[..]);
      CipherOf(t, s);
    }

    /** Rewrites one table slot by slot with successive encryptions of the seed. */
    method RewriteTable(table: array<byte>, seed: array<byte>, ghost t0: Image)
      requires HasTables() && table in TableSet() && seed !in TableSet() && seed.Length == 8
      requires Schedule(Cipher(), t0, FirstSlot(table)) == Stage(Tables(), seed[..])
      modifies table, seed
      ensures Schedule(Cipher(), t0, FirstSlot(table) + table.Length / 8) == Stage(Tables(), seed[..])
    {
      hide Schedule, Tables, Cipher;
      var i := 0;
      while i < table.Length / 4
        invariant i % 2 == 0 && i <= table.Length / 4
        invariant Schedule(Cipher(), t0, FirstSlot(table) + i / 2) == Stage(Tables(), seed[..])
      {
        RewriteSlot(table, 4 * i, seed, t0);
        i := i + 2;
      }
    }

    static method Copied(bytes: seq<byte>) returns (a: array<byte>)
      ensures fresh(a) && a[..] == bytes
    {
      a := new byte[|bytes|](i requires 0 <= i < |bytes| => bytes[i]);
    }

    method AddKey()
      requires key != [] && parray.Length == P_BYTES
      modifies parray
      ensures forall j :: 0 <= j < P_BYTES ==> parray[j] == old(parray[j]) ^ key[j % |key|]
    {
      for i := 0 to P_BYTES
        invariant forall j :: 0 <= j < P_BYTES ==>
            parray[j] == if j < i then old(parray[j]) ^ key[j % |key|] else old(parray[j])
      {
        parray[i] := parray[i] ^ key[i % |key|];
      }
    }

    /** Fresh tables holding the initial digits, with the key added to the P-array. */
    method LoadDigits()
      requires key != []
      modifies `parray, `sbox1, `sbox2, `sbox3, `sbox4
      ensures HasTables() && fresh(TableSet()) && Tables() == Keyed(digits, key)
    {
      var s := digits[P_BYTES..];
      sbox1 := Copied(s[..S_BYTES]);
      sbox2 := Copied(s[S_BYTES..S_BYTES * 2]);
      sbox3 := Copied(s[S_BYTES * 2..S_BYTES * 3]);
      sbox4 := Copied(s[S_BYTES * 3..]);
      parray := Copied(digits[..P_BYTES]);
      AddKey();
      KeyedParts(digits, key, parray[..], sbox1[..], sbox2[..], sbox3[..], sbox4[..]);
    }

    /** Rewrites the five tables in turn, starting from the all-zero seed. */
    method RewriteTables()
      requires HasTables()
      modifies TableSet()
      ensures Tables() == Schedule(Cipher(), old(Tables()), SLOTS).image
    {
      hide Schedule, Cipher, Tables;
      ghost var t0 := Tables();
      ScheduleStart(t0);
      var seed := new byte[8](i => 0);
      assert seed[..] == ZERO_BLOCK;
      assert Tables() == t0;
      RewriteTable(parray, seed, t0);
      for sboxIndex := 1 to 5
        invariant Schedule(Cipher(), t0, 9 + 128 * (sboxIndex - 1)) == Stage(Tables(), seed[..])
      {
        var sbox := match sboxIndex case 1 => sbox1 case 2 => sbox2 case 3 => sbox3 case _ => sbox4;
        RewriteTable(sbox, seed, t0);
      }
    }

    method ExpandKey()
      requires key != []
      modifies `parray, `sbox1, `sbox2, `sbox3, `sbox4
      ensures HasTables() && fresh(TableSet()) && Tables() == Expanded(digits, key)
    {
      hide Schedule, Keyed, Tables;
      LoadDigits();
      RewriteTables();
    }

    /** Expands the key into the tables, once: a second call changes nothing. */
    method Init() returns (ok: bool)
      requires Valid()
      modifies this
      ensures Valid() && paddingEnabled == old(paddingEnabled)
      ensures ok == initialized == (key != [])
      ensures old(initialized) || !ok ==> unchanged(this)
      ensures !old(initialized) && ok ==> fresh(TableSet())
    {
      if initialized {
        return true;
      }
      if key == [] {
        return false;
      }
      hide Expanded, Tables;
      ExpandKey();
      initialized := true;
      ok := true;
    }

    // Byte strings

    method EncryptAll(text: seq<byte>) returns (r: seq<byte>)
      requires HasTables() && |text| % 8 == 0
      ensures r == EncryptBlocks(Tables(), text)
    {
      hide EncryptBlock, EncryptWith, MapBlocks;
      var copy := Copied(text);
      NothingDone(text, EncryptWith(Tables()));
      var i := 0;
      while i < |text|
        invariant i % 8 == 0 && i <= |text|
        invariant IsDone(copy[..], text, EncryptWith(Tables()), i)
      {
        ghost var was := copy[..];
        assert was[i..i + 8] == text[i..i + 8];
        CoreEncrypt(copy, i);
        EncryptWithAt(Tables(), text[i..i + 8]);
        BlockDone(was, copy[..], text, EncryptWith(Tables()), i);
        i := i + 8;
      }
      assert text[..i] == text && copy[..][..i] == copy[..];
      r := copy[..];
    }

    method DecryptAll(text: seq<byte>) returns (r: seq<byte>)
      requires HasTables() && |text| % 8 == 0
      ensures r == DecryptBlocks(Tables(), text) && |r| == |text|
    {
      hide DecryptBlock, DecryptWith, MapBlocks;
      var copy := Copied(text);
      NothingDone(text, DecryptWith(Tables()));
      var i := 0;
      while i < |text|
        invariant i % 8 == 0 && i <= |text|
        invariant IsDone(copy[..], text, DecryptWith(Tables()), i)
      {
        ghost var was := copy[..];
        assert was[i..i + 8] == text[i..i + 8];
        CoreDecrypt(copy, i);
        DecryptWithAt(Tables(), text[i..i + 8]);
        BlockDone(was, copy[..], text, DecryptWith(Tables()), i);
        i := i + 8;
      }
      assert text[..i] == text && copy[..][..i] == copy[..];
      r := copy[..];
    }

    method Encrypt(text: seq<byte>) returns (r: seq<byte>)
      requires Valid()
      modifies this
      ensures Valid() && paddingEnabled == old(paddingEnabled)
      ensures unchanged(this) || fresh(TableSet())
      ensures r == Encrypted(digits, key, paddingEnabled, text)
    {
      hide Tables, Expanded, EncryptBlocks, LowByte, HasTables;
      if text == [] {
        return [];
      }
      var clearText := text;
      if paddingEnabled {
        var paddingLength := 8 - |clearText| % 8;
        clearText := clearText + Repeat(paddingLength, LowByte(paddingLength));
      } else if |clearText| % 8 != 0 {
        return [];
      }
      var ok := Init();
      if ok {
        r := EncryptAll(clearText);
      } else {
        r := [];
      }
    }

    method Decrypt(text: seq<byte>) returns (r: seq<byte>)
      requires Valid()
      modifies this
      ensures Valid() && paddingEnabled == old(paddingEnabled)
      ensures unchanged(this) || fresh(TableSet())
      ensures r == Decrypted(digits, key, paddingEnabled, text)
    {
      hide Tables, Expanded, DecryptBlocks, LowByte, ByteValue, HasTables;
      if text == [] || |text| % 8 != 0 {
        return [];
      }
      var ok := Init();
      if !ok {
        return [];
      }
      r := DecryptAll(text);
      if paddingEnabled {
        var paddingLength := ByteValue(r[|r| - 1]);
        var padding := Repeat(paddingLength, LowByte(paddingLength));
        if Right(r, paddingLength) == padding {
          r := r[..|r| - paddingLength];
        } else {
          r := [];
        }
      }
    }
  }
}
