// Big-endian numbers: encoding/binary's fixed-width integers and math/big's Bytes, SetBytes and padded copies.
module BigEndian {
  import opened Text

  function Pow256(k: nat): (p: nat)
    ensures p >= 1
  {
    if k == 0 then 1 else 256 * Pow256(k - 1)
  }

  // big.Int.SetBytes
  function ToNat(b: seq<byte>): nat {
    if b == [] then 0 else 256 * ToNat(b[..|b| - 1]) + b[|b| - 1]
  }

  // The k low octets of n: PutUint16, PutUint64, and a big.Int copied into the tail of a zeroed buffer of k octets.
  function Fixed(n: nat, k: nat): (b: seq<byte>)
    ensures |b| == k
  {
    if k == 0 then [] else Fixed(n / 256, k - 1) + [n % 256]
  }

  // big.Int.Bytes: no leading zero octet.
  function Minimal(n: nat): seq<byte> {
    if n == 0 then [] else Minimal(n / 256) + [n % 256]
  }

  lemma {:induction false} ToNatFixed(n: nat, k: nat)
    requires n < Pow256(k)
    ensures ToNat(Fixed(n, k)) == n
  {
    if k > 0 {
      ToNatFixed(n / 256, k - 1);
      assert Fixed(n, k)[..k - 1] == Fixed(n / 256, k - 1);
    }
  }

  lemma {:induction false} FixedToNat(b: seq<byte>)
    ensures Fixed(ToNat(b), |b|) == b
    ensures ToNat(b) < Pow256(|b|)
  {
    if b != [] {
      FixedToNat(b[..|b| - 1]);
    }
  }

  lemma {:induction false} ToNatMinimal(n: nat)
    ensures ToNat(Minimal(n)) == n
    ensures n > 0 ==> Minimal(n)[0] != 0
  {
    if n > 0 {
      ToNatMinimal(n / 256);
      assert Minimal(n)[..|Minimal(n)| - 1] == Minimal(n / 256);
    }
  }

  lemma {:induction false} MinimalLength(n: nat, k: nat)
    ensures |Minimal(n)| <= k <==> n < Pow256(k)
  {
    if n > 0 && k > 0 {
      MinimalLength(n / 256, k - 1);
    }
  }

  // Copying Bytes() into the tail of a zeroed buffer gives the fixed-width form.
  lemma {:induction false} PaddedIsFixed(n: nat, k: nat)
    requires |Minimal(n)| <= k
    ensures seq(k - |Minimal(n)|, _ => 0) + Minimal(n) == Fixed(n, k)
  {
    if n == 0 {
      ZeroFixed(k);
    } else {
      PaddedIsFixed(n / 256, k - 1);
    }
  }

  lemma {:induction false} ZeroFixed(k: nat)
    ensures Fixed(0, k) == seq(k, _ => 0)
  {
    if k > 0 { ZeroFixed(k - 1); }
  }

  lemma Small()
    ensures Pow256(1) == 256 && Pow256(2) == 65536
  {
  }

  // The forms themselves: most significant octet first, and for Minimal the shortest that reads back.
  lemma {:induction false} FirstOctetLeads(first: byte, rest: seq<byte>)
    ensures ToNat([first] + rest) == first * Pow256(|rest|) + ToNat(rest)
  {
    if rest == [] {
      assert [first] + rest == [first] && [first][..0] == [];
    } else {
      var n := |rest| - 1;
      var b := [first] + rest;
      FirstOctetLeads(first, rest[..n]);
      assert b[..|b| - 1] == [first] + rest[..n];
      var p, q, t := Pow256(n), Pow256(n + 1), ToNat(rest[..n]);
      assert q == 256 * p && ToNat(b) == 256 * ToNat([first] + rest[..n]) + rest[n] && ToNat(rest) == 256 * t + rest[n];
      hide ToNat, Pow256;
      Scale(first, p, q);
    }
  }

  lemma Scale(a: nat, p: nat, q: nat)
    requires q == 256 * p
    ensures 256 * (a * p) == a * q
  {
  }

  lemma MinimalIsShortest(n: nat, b: seq<byte>)
    requires ToNat(b) == n
    ensures |Minimal(n)| <= |b| && (|Minimal(n)| == |b| ==> Minimal(n) == b)
    ensures Minimal(n) == [] || Minimal(n)[0] != 0
  {
    FixedToNat(b);
    MinimalLength(n, |b|);
    ToNatMinimal(n);
    FixedToNat(Minimal(n));
  }
}
