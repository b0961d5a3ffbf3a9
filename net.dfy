/** Byte strings, IP networks and WireGuard keys, with the comparisons the
    source borrows from Go's `bytes` and `net` packages. */
module Net {
  import opened Slices

  type byte = x: int | 0 <= x < 256

  /** A WireGuard key: 32 bytes. */
  type Key = k: seq<byte> | |k| == 32 witness seq(32, _ => 0)

  /** The zero key, which the source reads as "unset". */
  const ZeroKey: Key := [0, 0, 0, 0, 0, 0, 0, 0, 0, 0, 0, 0, 0, 0, 0, 0, 0, 0, 0, 0, 0, 0, 0, 0, 0, 0, 0, 0, 0, 0, 0, 0]

  /** An address together with its network mask, as `net.IPNet` holds them. */
  datatype IPNet = IPNet(ip: seq<byte>, mask: seq<byte>)

  /** `bytes.Compare`: lexicographic order, where a proper prefix is smaller. */
  function Compare(a: seq<byte>, b: seq<byte>): (r: int)
    ensures -1 <= r <= 1
    ensures r == 0 <==> a == b
  {
    if a == [] && b == [] then 0
    else if a == [] then -1
    else if b == [] then 1
    else if a[0] < b[0] then -1
    else if a[0] > b[0] then 1
    else
      assert a == [a[0]] + a[1..] && b == [b[0]] + b[1..];
      Compare(a[1..], b[1..])
  }

  lemma {:induction false} CompareAntisymmetric(a: seq<byte>, b: seq<byte>)
    ensures Compare(a, b) == -Compare(b, a)
  {
    if a != [] && b != [] && a[0] == b[0] {
      CompareAntisymmetric(a[1..], b[1..]);
    }
  }

  lemma {:induction false} CompareTransitive(a: seq<byte>, b: seq<byte>, c: seq<byte>)
    requires Compare(a, b) < 0 && Compare(b, c) < 0
    ensures Compare(a, c) < 0
  {
    if a != [] && b != [] && c != [] && a[0] == b[0] && b[0] == c[0] {
      CompareTransitive(a[1..], b[1..], c[1..]);
    }
  }

  /** `lessIPNet`: by address bytes, ties broken by mask bytes. */
  predicate LessIPNet(x: IPNet, y: IPNet) {
    var ip := Compare(x.ip, y.ip);
    var mask := Compare(x.mask, y.mask);
    ip < 0 || (ip == 0 && mask < 0)
  }

  /** The order `DiffInterface` and `DiffInterfacePeer` sort by: address bytes only. */
  predicate LessIP(x: IPNet, y: IPNet) {
    Compare(x.ip, y.ip) < 0
  }

  /** `lessIPNet` is a strict total order on IP networks. */
  lemma LessIPNetIsStrictTotalOrder()
    ensures StrictTotalOrder(LessIPNet)
  {
    forall x: IPNet {
      CompareAntisymmetric(x.ip, x.ip);
    }
    forall x: IPNet, y: IPNet, z: IPNet | LessIPNet(x, y) && LessIPNet(y, z)
      ensures LessIPNet(x, z)
    {
      LessIPNetTransitive(x, y, z);
    }
    forall x: IPNet, y: IPNet, z: IPNet | !LessIPNet(x, y) && !LessIPNet(y, z)
      ensures !LessIPNet(x, z)
    {
      CompareAntisymmetric(x.ip, y.ip);
      CompareAntisymmetric(x.mask, y.mask);
      CompareAntisymmetric(y.ip, z.ip);
      CompareAntisymmetric(y.mask, z.mask);
      CompareAntisymmetric(x.ip, z.ip);
      CompareAntisymmetric(x.mask, z.mask);
      if x != y && y != z {
        LessIPNetTransitive(z, y, x);
      }
    }
    forall x: IPNet, y: IPNet | x != y ensures LessIPNet(x, y) || LessIPNet(y, x) {
      CompareAntisymmetric(x.ip, y.ip);
      CompareAntisymmetric(x.mask, y.mask);
    }
  }

  lemma LessIPNetTransitive(x: IPNet, y: IPNet, z: IPNet)
    requires LessIPNet(x, y) && LessIPNet(y, z)
    ensures LessIPNet(x, z)
  {
    if Compare(x.ip, y.ip) < 0 && Compare(y.ip, z.ip) < 0 {
      CompareTransitive(x.ip, y.ip, z.ip);
    } else if Compare(x.ip, y.ip) == 0 && Compare(y.ip, z.ip) == 0 {
      CompareTransitive(x.mask, y.mask, z.mask);
    }
  }

  /** Sorting by address alone is a strict weak order: networks with equal
      addresses are incomparable. */
  lemma LessIPIsStrictWeakOrder()
    ensures StrictWeakOrder(LessIP)
  {
    forall x: IPNet, y: IPNet, z: IPNet | LessIP(x, y) && LessIP(y, z)
      ensures LessIP(x, z)
    {
      CompareTransitive(x.ip, y.ip, z.ip);
    }
    forall x: IPNet, y: IPNet, z: IPNet | !LessIP(x, y) && !LessIP(y, z)
      ensures !LessIP(x, z)
    {
      CompareAntisymmetric(x.ip, y.ip);
      CompareAntisymmetric(y.ip, z.ip);
      if Compare(z.ip, y.ip) < 0 && Compare(y.ip, x.ip) < 0 {
        CompareTransitive(z.ip, y.ip, x.ip);
      }
      CompareAntisymmetric(x.ip, z.ip);
    }
  }

  /** The 12-byte prefix of an IPv4 address embedded in IPv6. */
  const V4InV6Prefix: seq<byte> := [0, 0, 0, 0, 0, 0, 0, 0, 0, 0, 0xff, 0xff]

  /** `net.IP.Equal`: a 4-byte address equals its 16-byte IPv4-in-IPv6 form. */
  predicate IPEqual(a: seq<byte>, b: seq<byte>) {
    if |a| == |b| then a == b
    else if |a| == 4 && |b| == 16 then b[..12] == V4InV6Prefix && a == b[12..]
    else if |a| == 16 && |b| == 4 then a[..12] == V4InV6Prefix && a[12..] == b
    else false
  }

  lemma IPEqualIsEquivalence(a: seq<byte>, b: seq<byte>, c: seq<byte>)
    ensures IPEqual(a, a)
    ensures IPEqual(a, b) <==> IPEqual(b, a)
    ensures IPEqual(a, b) && IPEqual(b, c) ==> IPEqual(a, c)
  {
    if IPEqual(a, b) && IPEqual(b, c) && |a| == |c| == 16 && |b| == 4 {
      assert a == a[..12] + a[12..];
      assert c == c[..12] + c[12..];
    }
  }

  /** `ip.To4() != nil`: a 4-byte address, or a 16-byte one whose first ten
      bytes are zero followed by two 0xff bytes. */
  predicate IsIPv4(ip: seq<byte>) {
    |ip| == 4 || (|ip| == 16 && ip[..12] == V4InV6Prefix)
  }

  /** An address is IPv4 exactly when it equals some 4-byte address. */
  lemma IsIPv4IffEqualsFourBytes(ip: seq<byte>)
    ensures IsIPv4(ip) <==> exists v: seq<byte> :: |v| == 4 && IPEqual(v, ip)
  {
    if IsIPv4(ip) {
      var v := if |ip| == 4 then ip else ip[12..];
      assert |v| == 4 && IPEqual(v, ip);
    }
  }

  /** `net.CIDRMask(bits, bits)`: the all-ones mask of `bits / 8` bytes. */
  function FullMask(bits: nat): (m: seq<byte>)
    requires bits % 8 == 0
    ensures |m| * 8 == bits
    ensures forall i :: 0 <= i < |m| ==> m[i] == 0xff
  {
    seq(bits / 8, _ => 0xff)
  }
}
