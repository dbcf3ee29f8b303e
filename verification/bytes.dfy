/** Integers, bytes and the big-endian conversions of Python's `int`. */
module Bytes {
  import opened Wrappers

  /** One octet, as held by Python's `bytes` and `bytearray`. */
  type byte = x: int | 0 <= x < 256

  function Min(a: int, b: int): (m: int) {
    if a <= b then a else b
  }

  /** 256 to the power `w`: the number of values `w` bytes can hold. */
  function Pow256(w: nat): (p: nat)
    ensures p >= 1
  {
    if w == 0 then 1 else 256 * Pow256(w - 1)
  }

  /** Python's `sum(...)` over a byte sequence. */
  function Sum(s: seq<byte>): (r: nat)
    ensures r <= 255 * |s|
  {
    if |s| == 0 then 0 else s[0] + Sum(s[1..])
  }

  lemma {:induction false} SumAppend(a: seq<byte>, b: seq<byte>)
    ensures Sum(a + b) == Sum(a) + Sum(b)
  {
    if |a| == 0 {
      assert a + b == b;
    } else {
      assert (a + b)[1..] == a[1..] + b;
      SumAppend(a[1..], b);
    }
  }

  /** A byte in front adds its value to the sum. */
  lemma SumCons(x: byte, s: seq<byte>)
    ensures Sum([x] + s) == x + Sum(s)
  {
    assert ([x] + s)[1..] == s;
  }

  /** `int.from_bytes(s, byteorder='big')`: the unsigned big-endian value of `s`. */
  function FromBE(s: seq<byte>): (n: nat)
    ensures n < Pow256(|s|)
  {
    if |s| == 0 then 0
    else
      var hi := FromBE(s[..|s| - 1]);
      assert hi * 256 + 255 <= (Pow256(|s| - 1) - 1) * 256 + 255;
      hi * 256 + s[|s| - 1]
  }

  /** The `w` low-order base-256 digits of `n`, most significant first. */
  function Digits(n: nat, w: nat): (r: seq<byte>)
    ensures |r| == w
  {
    if w == 0 then [] else Digits(n / 256, w - 1) + [n % 256]
  }

  lemma {:induction false} DigitsValue(n: nat, w: nat)
    requires n < Pow256(w)
    ensures FromBE(Digits(n, w)) == n
  {
    if w > 0 {
      var d := Digits(n, w);
      var q, m := n / 256, n % 256;
      assert n == q * 256 + m;
      assert q < Pow256(w - 1) by {
        assert Pow256(w) == 256 * Pow256(w - 1);
      }
      assert d[..w - 1] == Digits(q, w - 1) && d[w - 1] == m;
      DigitsValue(q, w - 1);
    }
  }

  lemma {:induction false} DigitsOfValue(s: seq<byte>)
    ensures Digits(FromBE(s), |s|) == s
  {
    if |s| > 0 {
      var w := |s|;
      var hi := FromBE(s[..w - 1]);
      assert FromBE(s) == hi * 256 + s[w - 1];
      assert FromBE(s) / 256 == hi;
      assert FromBE(s) % 256 == s[w - 1];
      DigitsOfValue(s[..w - 1]);
      assert s == s[..w - 1] + [s[w - 1]];
    }
  }

  /**
   * `n.to_bytes(w, byteorder='big')`: `None` stands for the OverflowError
   * Python raises when `n` is negative or needs more than `w` bytes.
   */
  function ToBE(n: int, w: nat): (r: Option<seq<byte>>)
    ensures r.Some? <==> 0 <= n < Pow256(w)
    ensures r.Some? ==> |r.value| == w && FromBE(r.value) == n
  {
    if 0 <= n < Pow256(w) then DigitsValue(n, w); Some(Digits(n, w)) else None
  }

  /** `n.to_bytes(2, byteorder='big')` for an `n` that fits in two bytes. */
  function Word(n: nat): (r: seq<byte>)
    requires n < 65536
    ensures |r| == 2 && FromBE(r) == n
  {
    FromBETwo(n / 256, n % 256);
    [n / 256, n % 256]
  }

  /** The two-byte form agrees with the general conversion. */
  lemma WordIsToBE(n: nat)
    requires n < 65536
    ensures ToBE(n, 2) == Some(Word(n))
  {
    ToBEOfFromBE(Word(n));
  }

  /** Big-endian conversion is a bijection between `w`-byte strings and `[0, 256^w)`. */
  lemma ToBEOfFromBE(s: seq<byte>)
    ensures ToBE(FromBE(s), |s|) == Some(s)
  {
    DigitsOfValue(s);
  }

  lemma FromBETwo(hi: byte, lo: byte)
    ensures FromBE([hi, lo]) == hi * 256 + lo
  {
    assert [hi, lo][..1] == [hi];
    assert [hi][..0] == [];
  }

  lemma FromBEOne(b: byte)
    ensures FromBE([b]) == b
  {
    assert [b][..0] == [];
  }
}
