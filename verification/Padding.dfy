/** The padding of section 6.3 of RFC 5652 for blocks of 8 bytes, for any representation of bytes. */
module Padding {

  /** `val` reads a byte and `low` makes one out of the low 8 bits of a number. */
  ghost predicate IsByteCode<B(!new)>(val: B -> nat, low: nat -> B) {
    forall n: nat :: n < 256 ==> val(low(n)) == n
  }

  function Repeat<B>(n: nat, b: B): seq<B> {
    seq(n, i => b)
  }

  function PadLength<B>(s: seq<B>): (n: nat)
    ensures 1 <= n <= 8 && (|s| + n) % 8 == 0
  {
    8 - |s| % 8
  }

  function Padded<B>(low: nat -> B, s: seq<B>): (p: seq<B>)
    ensures |p| == 8 * (|s| / 8 + 1) && |p| % 8 == 0
  {
    s + Repeat(PadLength(s), low(PadLength(s)))
  }

  /** The last `n` bytes, or all of them when there are fewer. */
  function Right<B>(s: seq<B>, n: nat): seq<B> {
    if n >= |s| then s else s[|s| - n..]
  }

  function Unpadded<B(==)>(val: B -> nat, low: nat -> B, s: seq<B>): seq<B>
    requires s != []
  {
    var n := val(s[|s| - 1]);
    if Right(s, n) == Repeat(n, low(n)) then s[..|s| - n] else []
  }

  lemma PaddedEnding<B>(low: nat -> B, u: seq<B>)
    ensures var p, n := Padded(low, u), PadLength(u);
            |p| == |u| + n && p[|p| - 1] == low(n) && p[|u|..] == Repeat(n, low(n)) && p[..|u|] == u
  {
  }

  lemma UnpadPadded<B(!new)>(val: B -> nat, low: nat -> B, s: seq<B>)
    requires IsByteCode(val, low)
    ensures Unpadded(val, low, Padded(low, s)) == s
  {
    PaddedEnding(low, s);
  }

  /** The last byte is a number n from 1 to 8, less than the length, and so are the n last bytes. */
  predicate HasPadding<B(==)>(val: B -> nat, low: nat -> B, s: seq<B>)
    requires s != []
  {
    var n := val(s[|s| - 1]);
    1 <= n <= 8 && n < |s| && s[|s| - n..] == Repeat(n, low(n))
  }

  lemma HasPaddingIsUndone<B(!new)>(val: B -> nat, low: nat -> B, s: seq<B>)
    requires s != [] && |s| % 8 == 0 && HasPadding(val, low, s)
    ensures Unpadded(val, low, s) != [] && Padded(low, Unpadded(val, low, s)) == s
  {
    var n := val(s[|s| - 1]);
    var u := s[..|s| - n];
    assert PadLength(u) == n;
    assert s == u + s[|s| - n..];
  }

  /** Padding again gives the string back exactly when its padding is one that padding writes. */
  lemma UnpaddedIsPadded<B(!new)>(val: B -> nat, low: nat -> B, s: seq<B>)
    requires IsByteCode(val, low) && s != [] && |s| % 8 == 0
    ensures Unpadded(val, low, s) != [] && Padded(low, Unpadded(val, low, s)) == s <==> HasPadding(val, low, s)
  {
    PaddedEnding(low, Unpadded(val, low, s));
    if HasPadding(val, low, s) {
      HasPaddingIsUndone(val, low, s);
    }
  }
}
