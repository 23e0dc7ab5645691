/** Little- and big-endian readings of byte strings. Digits need not be reduced, so the
    same value function also reads rows of unreduced column sums. */
module Bytes {
  import opened Arithmetic

  type byte = x: int | 0 <= x < 256

  /** Sum of s[i] * 256^i. */
  function LeValue(s: seq<nat>): nat {
    if |s| == 0 then 0 else s[0] + 256 * LeValue(s[1..])
  }

  /** The n low base-256 digits: `to_bytes_le` followed by `resize(n, 0)`. */
  function ToLe(v: nat, n: nat): (s: seq<byte>)
    ensures |s| == n
  {
    if n == 0 then [] else [v % 256] + ToLe(v / 256, n - 1)
  }

  function BeValue(s: seq<nat>): nat {
    if |s| == 0 then 0 else 256 * BeValue(s[..|s| - 1]) + s[|s| - 1]
  }

  /** The length of `to_bytes_be`: the fewest bytes that hold v, and one for zero. */
  function ByteLength(v: nat): (n: nat)
    ensures n >= 1 && v < Pow(256, n)
  {
    if v < 256 then
      PowSquare(256);
      1
    else
      var n := 1 + ByteLength(v / 256);
      assert Pow(256, n) == 256 * Pow(256, n - 1);
      n
  }

  lemma {:induction false} LeAppend(s: seq<nat>, t: seq<nat>)
    ensures LeValue(s + t) == LeValue(s) + Pow(256, |s|) * LeValue(t)
  {
    if |s| == 0 {
      assert s + t == t;
    } else {
      assert (s + t)[1..] == s[1..] + t;
      LeAppend(s[1..], t);
      assert 256 * (Pow(256, |s| - 1) * LeValue(t)) == Pow(256, |s|) * LeValue(t);
    }
  }

  lemma LeSnoc(s: seq<nat>, d: nat)
    ensures LeValue(s + [d]) == LeValue(s) + Pow(256, |s|) * d
  {
    LeAppend(s, [d]);
    assert LeValue([d]) == d;
  }

  lemma NoDigits(s: seq<nat>)
    ensures LeValue(s[..0]) == 0
  {}

  /** The weight of digit d at position i. */
  function Place(i: nat, d: int): int { Pow(256, i) * d }

  /** Peeling the digit at the end of a prefix. */
  lemma LePrefix(s: seq<nat>, i: nat)
    requires i < |s|
    ensures LeValue(s[..i + 1]) == LeValue(s[..i]) + Place(i, s[i])
  {
    assert s[..i + 1] == s[..i] + [s[i]];
    LeSnoc(s[..i], s[i]);
  }

  lemma LeSplit(s: seq<nat>, i: nat)
    requires i <= |s|
    ensures LeValue(s) == LeValue(s[..i]) + Pow(256, i) * LeValue(s[i..])
  {
    assert s == s[..i] + s[i..];
    LeAppend(s[..i], s[i..]);
  }

  lemma {:induction false} LeBound(s: seq<byte>)
    ensures LeValue(s) < Pow(256, |s|)
  {
    if |s| != 0 { LeBound(s[1..]); }
  }

  lemma {:induction false} LeUpdate(s: seq<nat>, k: nat, v: nat)
    requires k < |s|
    ensures LeValue(s[k := v]) == LeValue(s) + Pow(256, k) * (v - s[k])
  {
    if k == 0 {
      assert s[k := v][1..] == s[1..];
    } else {
      assert s[k := v][1..] == s[1..][k - 1 := v];
      LeUpdate(s[1..], k - 1, v);
      assert 256 * (Pow(256, k - 1) * (v - s[k])) == Pow(256, k) * (v - s[k]);
    }
  }

  lemma {:induction false} LeZeros(n: nat)
    ensures LeValue(seq(n, _ => 0)) == 0
  {
    if n != 0 {
      assert seq(n, _ => 0)[1..] == seq(n - 1, _ => 0);
      LeZeros(n - 1);
    }
  }

  /** Reduction modulo 256 * c, one digit at a time. */
  lemma DivModProduct(v: nat, c: nat)
    requires c > 0
    ensures v % (256 * c) == v % 256 + 256 * (v / 256 % c)
  {
    var q, r := v / 256 / c, v / 256 % c;
    assert v / 256 == q * c + r;
    assert 256 * (q * c) == q * (256 * c);
    DivModUnique(v, 256 * c, q, v % 256 + 256 * r);
  }

  lemma {:induction false} LeOfToLe(v: nat, n: nat)
    ensures Pow(256, n) > 0 && LeValue(ToLe(v, n)) == v % Pow(256, n)
  {
    PowPositive(256, n);
    if n == 0 {
      assert v % 1 == 0;
    } else {
      PowPositive(256, n - 1);
      LeOfToLe(v / 256, n - 1);
      DivModProduct(v, Pow(256, n - 1));
    }
  }

  /** A value that fits is read back unchanged. */
  lemma LeRoundTrip(v: nat, n: nat)
    requires v < Pow(256, n)
    ensures LeValue(ToLe(v, n)) == v
  {
    LeOfToLe(v, n);
    SmallMod(v, Pow(256, n));
  }

  lemma {:induction false} ToLeOfLe(s: seq<byte>)
    ensures ToLe(LeValue(s), |s|) == s
  {
    if |s| != 0 {
      ToLeOfLe(s[1..]);
      DivModUnique(LeValue(s), 256, LeValue(s[1..]), s[0]);
    }
  }

  /** Byte strings of one length are determined by their value. */
  lemma LeInjective(s: seq<byte>, t: seq<byte>)
    requires |s| == |t| && LeValue(s) == LeValue(t)
    ensures s == t
  {
    ToLeOfLe(s);
    ToLeOfLe(t);
  }

  /** Every value below 256^n is the big-endian value of some n bytes. */
  lemma {:induction false} BeSurjective(v: nat, n: nat) returns (s: seq<byte>)
    requires v < Pow(256, n)
    ensures |s| == n && BeValue(s) == v
  {
    if n == 0 {
      s := [];
    } else {
      var t := BeSurjective(v / 256, n - 1);
      s := t + [v % 256];
      assert s[..n - 1] == t;
    }
  }
}
