/** The address arithmetic of the `/2` routes: IPv4 "encryption" adds the key
    octet by octet modulo 256, the matching "decryption" subtracts, and IPv6
    uses a segment-wise XOR. */
module NetworkAddress {
  import opened Common

  type Octets = s: seq<Byte> | |s| == 4 witness [0, 0, 0, 0]

  /** `IPv4Addr { octets: [u8; 4] }`. */
  datatype IPv4Addr = IPv4Addr(octets: Octets)

  /** A 16-bit segment (`u16`). */
  type Segment = bv16

  type Segments = s: seq<Segment> | |s| == 8 witness [0, 0, 0, 0, 0, 0, 0, 0]

  /** `IPv6Addr { octets: [u16; 8] }`. */
  datatype IPv6Addr = IPv6Addr(segments: Segments)

  /** The "IPv4 address overflow" error. */
  datatype AddrError = AddressOverflow

  /** `a.iter().zip(b).map(f)`: pairs elements up until the shorter side ends. */
  function ZipWith<T>(a: seq<T>, b: seq<T>, f: (T, T) -> T): (r: seq<T>)
    ensures |r| == if |a| < |b| then |a| else |b|
    ensures forall i :: 0 <= i < |r| ==> r[i] == f(a[i], b[i])
  {
    seq(if |a| < |b| then |a| else |b|, i requires 0 <= i < |a| && 0 <= i < |b| => f(a[i], b[i]))
  }

  /** `Vec::try_into::<[u8; 4]>`: succeeds only on exactly four elements. */
  function IntoOctets(v: seq<Byte>): (r: Result<Octets, AddrError>)
    ensures r.Ok? <==> |v| == 4
    ensures r.Ok? ==> r.value == v
  {
    if |v| == 4 then Ok(v) else Err(AddressOverflow)
  }

  /** `u8::wrapping_add`. */
  function WrappingAddU8(a: Byte, b: Byte): Byte
  {
    (a as int + b as int) % 256
  }

  /** `u8::wrapping_sub`: `a - b` modulo 256. */
  function WrappingSubU8(a: Byte, b: Byte): Byte
  {
    (a as int - b as int) % 256
  }

  /** `IPv4Addr::wrapping_add`: the encrypted address. */
  function WrappingAdd(x: IPv4Addr, y: IPv4Addr): (r: Result<IPv4Addr, AddrError>)
    ensures r.Ok?
    ensures forall i :: 0 <= i < 4 ==> r.value.octets[i] == (x.octets[i] as int + y.octets[i] as int) % 256
  {
    match IntoOctets(ZipWith(x.octets, y.octets, (a, b) => WrappingAddU8(a, b)))
    case Err(e) => Err(e)
    case Ok(o) => Ok(IPv4Addr(o))
  }

  /** `IPv4Addr::wrapping_sub`: note the closure computes `b - a`, the
      argument's octet minus the receiver's. */
  function WrappingSub(x: IPv4Addr, y: IPv4Addr): (r: Result<IPv4Addr, AddrError>)
    ensures r.Ok?
    ensures forall i :: 0 <= i < 4 ==> r.value.octets[i] == (y.octets[i] as int - x.octets[i] as int) % 256
  {
    match IntoOctets(ZipWith(x.octets, y.octets, (a, b) => WrappingSubU8(b, a)))
    case Err(e) => Err(e)
    case Ok(o) => Ok(IPv4Addr(o))
  }

  lemma AddThenSubOctet(a: Byte, k: Byte)
    ensures ((a as int + k as int) % 256 - a as int) % 256 == k as int
  {
  }

  lemma SubThenAddOctet(a: Byte, t: Byte)
    ensures (a as int + (t as int - a as int) % 256) % 256 == t as int
  {
  }

  /** Decryption undoes encryption: from `from` and the encrypted address the
      key is recovered. */
  lemma DecryptInvertsEncrypt(from: IPv4Addr, key: IPv4Addr)
    ensures WrappingSub(from, WrappingAdd(from, key).value) == Ok(key)
  {
    var r := WrappingSub(from, WrappingAdd(from, key).value).value;
    forall i | 0 <= i < 4
      ensures r.octets[i] == key.octets[i]
    {
      AddThenSubOctet(from.octets[i], key.octets[i]);
    }
    assert r.octets == key.octets;
  }

  /** Encryption undoes decryption: encrypting `from` with the recovered key
      gives the destination back. */
  lemma EncryptInvertsDecrypt(from: IPv4Addr, to: IPv4Addr)
    ensures WrappingAdd(from, WrappingSub(from, to).value) == Ok(to)
  {
    var r := WrappingAdd(from, WrappingSub(from, to).value).value;
    forall i | 0 <= i < 4
      ensures r.octets[i] == to.octets[i]
    {
      SubThenAddOctet(from.octets[i], to.octets[i]);
    }
    assert r.octets == to.octets;
  }

  /** `IPv6Addr::xor`: the `unwrap` cannot fail, as the zipped sequence always
      has eight segments. */
  function Xor(x: IPv6Addr, y: IPv6Addr): (r: IPv6Addr)
    ensures forall i :: 0 <= i < 8 ==> r.segments[i] == x.segments[i] ^ y.segments[i]
  {
    IPv6Addr(ZipWith(x.segments, y.segments, (a: Segment, b: Segment) => a ^ b))
  }

  /** The all-zero address. */
  const Zero: IPv6Addr := IPv6Addr([0, 0, 0, 0, 0, 0, 0, 0])

  /** XOR is commutative, self-inverse, and an address XOR itself is zero, so
      IPv6 decryption `from.xor(to)` recovers the key of `from.xor(key)`. */
  lemma XorLaws(x: IPv6Addr, y: IPv6Addr)
    ensures Xor(x, y) == Xor(y, x)
    ensures Xor(Xor(x, y), y) == x
    ensures Xor(x, x) == Zero
    ensures Xor(x, Xor(x, y)) == y
  {
    assert Xor(x, y).segments == Xor(y, x).segments;
    assert Xor(Xor(x, y), y).segments == x.segments;
    assert Xor(x, x).segments == Zero.segments;
    assert Xor(x, Xor(x, y)).segments == y.segments;
  }
}
