/** The variable-length hash (blake2b.go) against H' of section 3.3 of RFC 9106. BLAKE2b itself is a
    parameter: any family of digests of the requested length. */
module VariableHash {
  type Byte = x: int | 0 <= x < 256
  type Bytes = seq<Byte>

  const FULL := 64

  // h(n, x): the n-byte BLAKE2b digest of x.
  type Digest = (nat, Bytes) -> Bytes

  ghost predicate IsDigest(h: Digest)
  {
    forall n, x :: |h(n, x)| == n
  }

  function LE32(n: nat): (b: Bytes)
    ensures |b| == 4
  {
    [n % 256, n / 0x100 % 256, n / 0x1_0000 % 256, n / 0x100_0000 % 256]
  }

  // ----- H' as the RFC writes it -----

  // V_1 = H^(64)(LE32(T) || A), V_{i+1} = H^(64)(V_i)
  function Link(h: Digest, first: Bytes, i: nat): Bytes
    requires i >= 1
  {
    if i == 1 then h(FULL, first) else h(FULL, Link(h, first, i - 1))
  }

  // W_1 || ... || W_r, the first halves of V_1 ... V_r.
  function Halves(h: Digest, first: Bytes, r: nat): Bytes
    requires IsDigest(h)
  {
    if r == 0 then [] else Halves(h, first, r - 1) + Link(h, first, r)[..32]
  }

  // ceil(t/32) - 2: what is left for the last digest is 33 to 64 bytes.
  function HalfCount(t: nat): (r: nat)
    requires t > FULL
    ensures 33 <= t - 32 * r <= FULL && r >= 1
  {
    (t + 31) / 32 - 2
  }

  function HPrime(h: Digest, t: nat, a: Bytes): Bytes
    requires IsDigest(h)
  {
    var first := LE32(t) + a;
    if t <= FULL then h(t, first)
    else
      var r := HalfCount(t);
      Halves(h, first, r) + h(t - 32 * r, Link(h, first, r))
  }

  lemma {:induction false} HalvesLength(h: Digest, first: Bytes, r: nat)
    requires IsDigest(h)
    ensures |Halves(h, first, r)| == 32 * r
  {
    if r > 0 {
      HalvesLength(h, first, r - 1);
    }
  }

  // H' has the length asked for.
  lemma HPrimeLength(h: Digest, t: nat, a: Bytes)
    requires IsDigest(h)
    ensures |HPrime(h, t, a)| == t
  {
    if t > FULL {
      HalvesLength(h, LE32(t) + a, HalfCount(t));
    }
  }

  // ----- the code -----

  // A running hash: its digest size and what was written to it since the last reset.
  datatype Hash = Nil | Hash(size: nat, fed: Bytes)

  // blake2b.New refuses sizes outside 1..64 and then returns no hash.
  function New(size: int): Hash
  {
    if 1 <= size <= FULL then Hash(size, []) else Nil
  }

  // Writing to the missing hash panics, so out is untouched.
  method Blake2bHash(h: Digest, out: array<Byte>, input: Bytes) returns (panicked: bool)
    requires IsDigest(h)
    modifies out
    ensures panicked <==> out.Length == 0
    ensures !panicked ==> out[..] == HPrime(h, out.Length, input)
  {
    var n := out.Length;
    var b2 := if n < FULL then New(n) else New(FULL);
    if b2 == Nil {
      return true;
    }
    panicked := false;
    HPrimeLength(h, n, input);
    b2 := b2.(fed := b2.fed + LE32(n));
    b2 := b2.(fed := b2.fed + input);
    assert b2.fed == LE32(n) + input;
    if n <= FULL {
      CopyInto(out, 0, h(b2.size, b2.fed));
      return;
    }
    LongHash(h, out, b2.fed);
  }

  // The part of blake2bHash for outputs of more than 64 bytes; first is what was written so far.
  method LongHash(h: Digest, out: array<Byte>, first: Bytes)
    requires IsDigest(h) && out.Length > FULL
    modifies out
    ensures var r := HalfCount(out.Length);
            out[..] == Halves(h, first, r) + h(out.Length - 32 * r, Link(h, first, r))
  {
    var n := out.Length;
    var b2 := Hash(FULL, first);
    var buffer := h(b2.size, b2.fed);
    b2 := b2.(fed := []);
    CopyInto(out, 0, buffer[..32]);
    var at := 32;
    ghost var i, r := 1, HalfCount(n);
    assert out[..at] == Halves(h, first, 0) + Link(h, first, 1)[..32];
    while n - at > FULL
      invariant 1 <= i <= r && at == 32 * i
      invariant b2 == Hash(FULL, [])
      invariant buffer == Link(h, first, i)
      invariant out[..at] == Halves(h, first, i)
    {
      b2 := b2.(fed := b2.fed + buffer);
      assert b2.fed == buffer;
      buffer := h(b2.size, b2.fed);
      assert buffer == Link(h, first, i + 1);
      CopyInto(out, at, buffer[..32]);
      at, i := at + 32, i + 1;
      b2 := b2.(fed := []);
    }
    if n % FULL > 0 {
      var q := (n + 31) / 32 - 2;
      b2 := New(n - 32 * q);
    }
    assert i == r && b2 == Hash(n - at, []);
    b2 := b2.(fed := b2.fed + buffer);
    assert b2.fed == buffer;
    CopyInto(out, at, h(b2.size, b2.fed));
    assert out[at + (n - at)..] == [];
  }

  // copy(out[at:], part), where part fits.
  method CopyInto(out: array<Byte>, at: nat, part: Bytes)
    requires at + |part| <= out.Length
    modifies out
    ensures out[..] == old(out[..at]) + part + old(out[at + |part|..])
    ensures out[..at] == old(out[..at])
    ensures out[..at + |part|] == old(out[..at]) + part
  {
    for k := 0 to |part|
      invariant out[..at] == old(out[..at])
      invariant out[at..at + k] == part[..k]
      invariant out[at + k..] == old(out[at + k..])
    {
      out[at + k] := part[k];
    }
  }
}
