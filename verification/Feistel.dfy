/**
 * A 16-round Feistel network over two halves, with 18 round keys and an arbitrary round function.
 * The halves are combined by an operation that only has to behave like exclusive-or.
 */
module Feistel {

  const ROUNDS: nat := 16

  datatype Halves<W> = Halves(l: W, r: W)

  function Swapped<W>(h: Halves<W>): Halves<W> {
    Halves(h.r, h.l)
  }

  /** What the network needs of exclusive-or. */
  ghost predicate IsXor<W(!new)>(xor: (W, W) -> W) {
    && (forall a, b :: xor(xor(a, b), b) == a)
    && (forall a, b :: xor(b, xor(b, a)) == a)
    && (forall a, b, c :: xor(a, xor(b, c)) == xor(xor(a, b), c))
  }

  /** The halves after `n` enciphering rounds, every round ending in a swap. */
  function EncipherRounds<W>(xor: (W, W) -> W, f: W -> W, p: seq<W>, n: nat, h: Halves<W>): Halves<W>
    requires n <= ROUNDS && |p| == ROUNDS + 2
  {
    if n == 0 then h else
      var s := EncipherRounds(xor, f, p, n - 1, h);
      var l := xor(s.l, p[n - 1]);
      Halves(xor(f(l), s.r), l)
  }

  /** All rounds, the last swap undone, and the two final key additions. */
  function Encipher<W>(xor: (W, W) -> W, f: W -> W, p: seq<W>, h: Halves<W>): Halves<W>
    requires |p| == ROUNDS + 2
  {
    var s := Swapped(EncipherRounds(xor, f, p, ROUNDS, h));
    Halves(xor(s.l, p[ROUNDS + 1]), xor(s.r, p[ROUNDS]))
  }

  /** The halves after `n` deciphering rounds, which use the round keys from 15 down to 16 - n. */
  function DecipherRounds<W>(xor: (W, W) -> W, f: W -> W, p: seq<W>, n: nat, h: Halves<W>): Halves<W>
    requires n <= ROUNDS && |p| == ROUNDS + 2
  {
    if n == 0 then Halves(xor(h.l, p[ROUNDS + 1]), xor(h.r, p[ROUNDS])) else
      var s := DecipherRounds(xor, f, p, n - 1, h);
      var t := if n == 1 then s else Swapped(s);
      Halves(xor(t.l, p[ROUNDS - n]), xor(f(t.l), t.r))
  }

  function Decipher<W>(xor: (W, W) -> W, f: W -> W, p: seq<W>, h: Halves<W>): Halves<W>
    requires |p| == ROUNDS + 2
  {
    DecipherRounds(xor, f, p, ROUNDS, h)
  }

  /** Deciphering visits the states of enciphering backwards. */
  lemma {:induction false} DecipherRewinds<W(!new)>(xor: (W, W) -> W, f: W -> W, p: seq<W>, n: nat, h: Halves<W>)
    requires n <= ROUNDS && |p| == ROUNDS + 2 && IsXor(xor)
    ensures DecipherRounds(xor, f, p, n, Encipher(xor, f, p, h)) ==
            if n == 0 then Swapped(EncipherRounds(xor, f, p, ROUNDS, h)) else EncipherRounds(xor, f, p, ROUNDS - n, h)
  {
    if n > 0 {
      DecipherRewinds(xor, f, p, n - 1, h);
      var e := EncipherRounds(xor, f, p, ROUNDS - n, h);
      var l := xor(e.l, p[ROUNDS - n]);
      assert EncipherRounds(xor, f, p, ROUNDS - n + 1, h) == Halves(xor(f(l), e.r), l);
    }
  }

  /** Deciphering undoes enciphering, whatever the round function and the round keys are. */
  lemma DecipherInvertsEncipher<W(!new)>(xor: (W, W) -> W, f: W -> W, p: seq<W>, h: Halves<W>)
    requires |p| == ROUNDS + 2 && IsXor(xor)
    ensures Decipher(xor, f, p, Encipher(xor, f, p, h)) == h
  {
    DecipherRewinds(xor, f, p, ROUNDS, h);
  }

  /** Enciphering visits the states of deciphering backwards. */
  lemma {:induction false} EncipherRewinds<W(!new)>(xor: (W, W) -> W, f: W -> W, p: seq<W>, n: nat, h: Halves<W>)
    requires n <= ROUNDS && |p| == ROUNDS + 2 && IsXor(xor)
    ensures EncipherRounds(xor, f, p, n, Decipher(xor, f, p, h)) ==
            if n == ROUNDS then Swapped(DecipherRounds(xor, f, p, 0, h)) else DecipherRounds(xor, f, p, ROUNDS - n, h)
  {
    if n > 0 {
      EncipherRewinds(xor, f, p, n - 1, h);
      var s := DecipherRounds(xor, f, p, ROUNDS - n, h);
      var t := if n == ROUNDS then s else Swapped(s);
      assert DecipherRounds(xor, f, p, ROUNDS - n + 1, h) == Halves(xor(t.l, p[n - 1]), xor(f(t.l), t.r));
    }
  }

  lemma EncipherInvertsDecipher<W(!new)>(xor: (W, W) -> W, f: W -> W, p: seq<W>, h: Halves<W>)
    requires |p| == ROUNDS + 2 && IsXor(xor)
    ensures Encipher(xor, f, p, Decipher(xor, f, p, h)) == h
  {
    EncipherRewinds(xor, f, p, ROUNDS, h);
    assert DecipherRounds(xor, f, p, 0, h) == Halves(xor(h.l, p[ROUNDS + 1]), xor(h.r, p[ROUNDS]));
  }

  function ReversedKeys<W>(p: seq<W>): (q: seq<W>)
    requires |p| == ROUNDS + 2
    ensures |q| == |p| && forall i :: 0 <= i < |p| ==> q[i] == p[ROUNDS + 1 - i]
  {
    seq(ROUNDS + 2, i requires 0 <= i < ROUNDS + 2 => p[ROUNDS + 1 - i])
  }

  lemma {:induction false} DecipherTracksReversed<W(!new)>(xor: (W, W) -> W, f: W -> W, p: seq<W>, n: nat, h: Halves<W>)
    requires 1 <= n <= ROUNDS && |p| == ROUNDS + 2 && IsXor(xor)
    ensures var e := EncipherRounds(xor, f, ReversedKeys(p), n, h);
            DecipherRounds(xor, f, p, n, h) == Halves(xor(e.r, p[ROUNDS - n]), xor(e.l, p[ROUNDS + 1 - n]))
  {
    var q := ReversedKeys(p);
    if n == 1 {
      assert EncipherRounds(xor, f, q, 0, h) == h;
      assert DecipherRounds(xor, f, p, 0, h) == Halves(xor(h.l, p[ROUNDS + 1]), xor(h.r, p[ROUNDS]));
    } else {
      DecipherTracksReversed(xor, f, p, n - 1, h);
    }
  }

  /** Deciphering is enciphering with the round keys taken in reverse order. */
  lemma DecipherIsEncipherReversed<W(!new)>(xor: (W, W) -> W, f: W -> W, p: seq<W>, h: Halves<W>)
    requires |p| == ROUNDS + 2 && IsXor(xor)
    ensures Decipher(xor, f, p, h) == Encipher(xor, f, ReversedKeys(p), h)
  {
    DecipherTracksReversed(xor, f, p, ROUNDS, h);
  }

  // The network as a recurrence

  /** One word for each round key, made of the two words before it. */
  ghost predicate IsTrace<W>(xor: (W, W) -> W, f: W -> W, p: seq<W>, h: Halves<W>, v: seq<W>)
    requires |p| == ROUNDS + 2
  {
    && |v| == ROUNDS + 2 && v[0] == h.r && v[1] == xor(h.l, p[0])
    && forall i :: 1 <= i <= ROUNDS ==> v[i + 1] == xor(xor(f(v[i]), v[i - 1]), p[i])
  }

  lemma {:induction false} RoundsFollowTrace<W>(
    xor: (W, W) -> W, f: W -> W, p: seq<W>, h: Halves<W>, v: seq<W>, n: nat)
    requires |p| == ROUNDS + 2 && IsTrace(xor, f, p, h, v) && 1 <= n <= ROUNDS
    ensures EncipherRounds(xor, f, p, n, h) == Halves(xor(f(v[n]), v[n - 1]), v[n])
  {
    assert EncipherRounds(xor, f, p, 0, h) == h;
    if n > 1 {
      RoundsFollowTrace(xor, f, p, h, v, n - 1);
    }
  }

  /** Enciphering ends with the last two words of the recurrence, the last key added to the first of them. */
  lemma EncipherIsRecurrence<W>(xor: (W, W) -> W, f: W -> W, p: seq<W>, h: Halves<W>, v: seq<W>)
    requires |p| == ROUNDS + 2 && IsTrace(xor, f, p, h, v)
    ensures Encipher(xor, f, p, h) == Halves(xor(v[ROUNDS], p[ROUNDS + 1]), v[ROUNDS + 1])
  {
    RoundsFollowTrace(xor, f, p, h, v, ROUNDS);
  }

  lemma TraceExists<W>(xor: (W, W) -> W, f: W -> W, p: seq<W>, h: Halves<W>) returns (v: seq<W>)
    requires |p| == ROUNDS + 2
    ensures IsTrace(xor, f, p, h, v)
  {
    v := seq(ROUNDS + 2, i requires 0 <= i < ROUNDS + 2 =>
        if i == 0 then h.r else xor(EncipherRounds(xor, f, p, i - 1, h).l, p[i - 1]));
    assert EncipherRounds(xor, f, p, 0, h) == h;
    forall i | 1 <= i <= ROUNDS ensures v[i + 1] == xor(xor(f(v[i]), v[i - 1]), p[i]) {
      assert EncipherRounds(xor, f, p, i, h) == Halves(xor(f(v[i]), EncipherRounds(xor, f, p, i - 1, h).r), v[i]);
      assert EncipherRounds(xor, f, p, i - 1, h).r == v[i - 1];
    }
  }
}
