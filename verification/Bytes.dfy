/** Octets and 32-bit big-endian integers, as both codecs put them on the wire. */
module Bytes {

  type Byte = b: int | 0 <= b < 256

  const TWO32: nat := 0x1_0000_0000

  /** A C `uint32_t`. */
  type U32 = v: int | 0 <= v < 0x1_0000_0000

  /** `static_cast<uint32_t>` of a `size_t`. */
  function Low32(n: nat): (r: U32)
    ensures n < TWO32 ==> r == n
    ensures (n - r) % TWO32 == 0
  {
    n % TWO32
  }

  /** The four bytes `htonl` produces: the source shifts right by 24, 16, 8 and 0 bits and keeps the low byte. */
  function BigEndian(v: U32): (bs: seq<Byte>)
    ensures |bs| == 4
  {
    [v / 0x100_0000 % 256, v / 0x1_0000 % 256, v / 0x100 % 256, v % 256]
  }

  /** `ntohl` of four received bytes. */
  function FromBigEndian(bs: seq<Byte>): (v: U32)
    requires |bs| == 4
  {
    var (b0: int, b1: int, b2: int, b3: int) := (bs[0], bs[1], bs[2], bs[3]);
    b0 * 0x100_0000 + b1 * 0x1_0000 + b2 * 0x100 + b3
  }

  lemma BigEndianRoundTrip(v: U32)
    ensures FromBigEndian(BigEndian(v)) == v
  {
    var a, b, c := v / 0x100, v / 0x1_0000, v / 0x100_0000;
    assert a / 0x100 == b && b / 0x100 == c;
  }

  lemma FromBigEndianRoundTrip(bs: seq<Byte>)
    requires |bs| == 4
    ensures BigEndian(FromBigEndian(bs)) == bs
  {
    var v, b0: int, b1: int, b2: int := FromBigEndian(bs), bs[0], bs[1], bs[2];
    assert v / 0x100 == b0 * 0x1_0000 + b1 * 0x100 + b2;
    assert v / 0x1_0000 == b0 * 0x100 + b1;
    assert v / 0x100_0000 == b0;
  }

  /** What four bytes from position `at` on are worth, the first one counting most. */
  function Weighed(b: seq<Byte>, at: nat): int
    requires at + 4 <= |b|
  {
    var (b0: int, b1: int, b2: int, b3: int) := (b[at], b[at + 1], b[at + 2], b[at + 3]);
    0x100_0000 * b0 + 0x1_0000 * b1 + 0x100 * b2 + b3
  }

  /** The bytes weigh what the number is. */
  lemma BigEndianWeighs(v: U32)
    ensures Weighed(BigEndian(v), 0) == v
  {
    var a, b, c := v / 0x100, v / 0x1_0000, v / 0x100_0000;
    assert a / 0x100 == b && b / 0x100 == c;
  }

  /** The order in which `memcmp` puts two byte strings of one length. */
  ghost predicate Below(a: seq<Byte>, b: seq<Byte>) {
    exists k :: FirstDifference(a, b, k)
  }

  predicate FirstDifference(a: seq<Byte>, b: seq<Byte>, k: int) {
    0 <= k < |a| && k < |b| && a[..k] == b[..k] && a[k] < b[k]
  }

  /** The most significant byte comes first: the bytes compare as the numbers do. */
  lemma BigEndianKeepsOrder(u: U32, v: U32)
    ensures Below(BigEndian(u), BigEndian(v)) <==> u < v
  {
    if Below(BigEndian(u), BigEndian(v)) {
      var k :| FirstDifference(BigEndian(u), BigEndian(v), k);
      FirstIsSmaller(u, v, k);
    }
    if u < v {
      var j := SmallerComesFirst(u, v);
    }
  }

  lemma FirstIsSmaller(u: U32, v: U32, k: int)
    requires FirstDifference(BigEndian(u), BigEndian(v), k)
    ensures u < v
  {
    var a, b := BigEndian(u), BigEndian(v);
    hide BigEndian;
    BigEndianWeighs(u);
    BigEndianWeighs(v);
    assert forall i :: 0 <= i < k ==> a[i] == a[..k][i] == b[..k][i] == b[i];
  }

  lemma SmallerComesFirst(u: U32, v: U32) returns (k: int)
    requires u < v
    ensures FirstDifference(BigEndian(u), BigEndian(v), k)
  {
    var a, b := BigEndian(u), BigEndian(v);
    hide BigEndian;
    BigEndianWeighs(u);
    BigEndianWeighs(v);
    k := if a[0] != b[0] then 0 else if a[1] != b[1] then 1 else if a[2] != b[2] then 2 else 3;
    assert a[..k] == b[..k];
  }
}
