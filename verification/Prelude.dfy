/** Shared value types and helpers: optional values, fallible results, bytes and
    little-endian integers. */
module Prelude {

  datatype Option<+T> = None | Some(value: T)

  datatype Result<+T, +E> = Ok(value: T) | Err(error: E)

  type byte = x: int | 0 <= x < 256

  function Max(a: real, b: real): real {
    if a < b then b else a
  }

  lemma ProductIsNat(a: nat, b: nat)
    ensures a * b >= 0
  {
  }

  lemma QuotientOrder(a: int, b: int, p: nat)
    requires p > 0
    ensures a < b ==> a * p + p <= b * p
  {
    if a < b {
      ProductIsNat(b - a - 1, p);
      assert (b - a - 1) * p == b * p - a * p - p;
    }
  }

  lemma RemainderIs(d: int, p: nat, r: nat)
    requires r < p
    ensures (d * p + r) % p == r && (d * p + r) / p == d
  {
    var x := d * p + r;
    assert x == (x / p) * p + x % p;
    QuotientOrder(x / p, d, p);
    QuotientOrder(d, x / p, p);
  }

  /** A set that is not empty has an element. */
  lemma NonEmpty(s: set<int>)
    ensures s == {} || exists x :: x in s
  {
    if forall x :: x !in s { assert s == {}; }
  }

  /** 256 to the power k. */
  function Pow256(k: nat): (p: nat)
    ensures p > 0
  {
    if k == 0 then 1 else 256 * Pow256(k - 1)
  }

  /** The k low bytes of n, least significant first. */
  function LittleEndian(n: nat, k: nat): (s: seq<byte>)
    ensures |s| == k
    decreases k
  {
    if k == 0 then [] else [n % 256] + LittleEndian(n / 256, k - 1)
  }

  /** The number whose little-endian bytes are s. */
  function FromLittleEndian(s: seq<byte>): (n: nat)
  {
    if s == [] then 0 else s[0] + 256 * FromLittleEndian(s[1..])
  }

  lemma {:induction false} LittleEndianRoundTrip(n: nat, k: nat)
    requires n < Pow256(k)
    ensures FromLittleEndian(LittleEndian(n, k)) == n
    decreases k
  {
    if k > 0 {
      LittleEndianRoundTrip(n / 256, k - 1);
      assert LittleEndian(n, k)[1..] == LittleEndian(n / 256, k - 1);
    }
  }

  lemma {:induction false} FromLittleEndianRoundTrip(s: seq<byte>)
    ensures FromLittleEndian(s) < Pow256(|s|)
    ensures LittleEndian(FromLittleEndian(s), |s|) == s
  {
    if s != [] {
      FromLittleEndianRoundTrip(s[1..]);
      assert FromLittleEndian(s) / 256 == FromLittleEndian(s[1..]);
      assert s == [s[0]] + s[1..];
    }
  }

  /** Copies bytes into out at pos. */
  method CopyInto(bytes: seq<byte>, out: array<byte>, pos: nat)
    requires pos + |bytes| <= out.Length
    modifies out
    ensures out[..pos] == old(out[..pos])
    ensures out[pos..pos + |bytes|] == bytes
    ensures out[..pos + |bytes|] == old(out[..pos]) + bytes
    ensures out[pos + |bytes|..] == old(out[pos + |bytes|..])
  {
    forall i | 0 <= i < |bytes| { out[pos + i] := bytes[i]; }
    assert out[..pos + |bytes|] == out[..pos] + out[pos..pos + |bytes|];
  }
}
