/**
 The bytes of a block header (protoutil.BlockHeaderBytes): an ASN.1 sequence of the number and the two
 hashes in the distinguished encoding, sections 8.3, 8.7, 8.9 and 10.1 of ITU-T X.690.
 */
module HeaderEncoding {
  import opened Bytes
  import opened Words

  datatype HeaderFields = Header(number: nat, previousHash: bytes, dataHash: bytes)

  /** A block header: a 64-bit number and byte strings that fit a Protocol Buffers message. */
  type Header = h: HeaderFields |
    h.number < TWO_64 && |h.previousHash| < 0x8000_0000 && |h.dataHash| < 0x8000_0000
    witness Header(0, [], [])

  /** Big-endian base 256 without leading zeros. */
  function BigEndian(n: nat): bytes {
    if n == 0 then [] else BigEndian(n / 256) + [n % 256]
  }

  ghost function FromBigEndian(b: bytes): nat {
    if b == [] then 0 else 256 * FromBigEndian(b[..|b| - 1]) + b[|b| - 1]
  }

  lemma {:induction false} BigEndianRoundTrip(n: nat)
    ensures FromBigEndian(BigEndian(n)) == n
  {
    if n != 0 {
      BigEndianRoundTrip(n / 256);
      assert BigEndian(n)[..|BigEndian(n)| - 1] == BigEndian(n / 256);
    }
  }

  lemma {:induction false} BigEndianSize(n: nat, k: nat)
    requires n < Power256(k)
    ensures |BigEndian(n)| <= k
  {
    if n != 0 {
      BigEndianSize(n / 256, k - 1);
    }
  }

  ghost function Power256(k: nat): nat {
    if k == 0 then 1 else 256 * Power256(k - 1)
  }

  const LENGTH_BOUND: nat := 0x100_0000_0000

  lemma LengthOctets(n: nat)
    requires n < LENGTH_BOUND
    ensures |BigEndian(n)| <= 5
  {
    assert Power256(5) == LENGTH_BOUND;
    BigEndianSize(n, 5);
  }

  /** A length in the definite form: one octet below 128, else the number of octets and the octets. */
  function Length(n: nat): (b: bytes)
    requires n < LENGTH_BOUND
    ensures 1 <= |b| <= 6
  {
    if n < 128 then [n]
    else
      LengthOctets(n);
      [128 + |BigEndian(n)|] + BigEndian(n)
  }

  /** The content octets of a non-negative INTEGER: two's complement, so a leading zero keeps the sign. */
  function Integer(n: nat): (b: bytes)
    ensures |b| > 0
  {
    if n == 0 then [0]
    else if BigEndian(n)[0] >= 128 then [0] + BigEndian(n)
    else BigEndian(n)
  }

  function Tlv(tag: byte, content: bytes): (b: bytes)
    requires |content| < LENGTH_BOUND
    ensures |b| == 1 + |Length(|content|)| + |content|
  {
    [tag] + Length(|content|) + content
  }

  lemma IntegerSize(n: nat)
    requires n < TWO_64
    ensures |Integer(n)| <= 9
  {
    assert Power256(8) == TWO_64;
    BigEndianSize(n, 8);
  }

  /** The content of the header's SEQUENCE. */
  function HeaderContent(h: Header): (b: bytes)
    ensures |b| < LENGTH_BOUND
  {
    IntegerSize(h.number);
    Tlv(2, Integer(h.number)) + Tlv(4, h.previousHash) + Tlv(4, h.dataHash)
  }

  /** `BlockHeaderBytes`. */
  function HeaderBytes(h: Header): bytes {
    Tlv(48, HeaderContent(h))
  }

  // ---------------------------------------------------------------------------
  // Unique readability
  // ---------------------------------------------------------------------------

  lemma {:induction false} LeadingZero(b: bytes)
    ensures FromBigEndian([0] + b) == FromBigEndian(b)
  {
    if b == [] {
      assert [0][..0] == [];
    } else {
      LeadingZero(b[..|b| - 1]);
      assert ([0] + b)[..|b|] == [0] + b[..|b| - 1];
    }
  }

  lemma IntegerRoundTrip(n: nat)
    ensures FromBigEndian(Integer(n)) == n
  {
    BigEndianRoundTrip(n);
    if n == 0 {
      LeadingZero([]);
      assert [0] + [] == [0];
    } else {
      LeadingZero(BigEndian(n));
    }
  }

  /** A length is read back from any byte string that starts with it. */
  lemma LengthUnique(n: nat, m: nat, r: bytes, s: bytes)
    requires n < LENGTH_BOUND && m < LENGTH_BOUND
    requires Length(n) + r == Length(m) + s
    ensures n == m && r == s
  {
    assert (Length(n) + r)[0] == Length(n)[0] && (Length(m) + s)[0] == Length(m)[0];
    assert |Length(n)| == |Length(m)|;
    SplitEqual(Length(n), r, Length(m), s);
    if n >= 128 {
      assert BigEndian(n) == Length(n)[1..] == Length(m)[1..] == BigEndian(m);
      BigEndianRoundTrip(n);
      BigEndianRoundTrip(m);
    }
  }

  /** One tagged value is read back from any byte string that starts with it. */
  lemma TlvUnique(t: byte, c: bytes, r: bytes, u: byte, d: bytes, s: bytes)
    requires |c| < LENGTH_BOUND && |d| < LENGTH_BOUND
    requires Tlv(t, c) + r == Tlv(u, d) + s
    ensures t == u && c == d && r == s
  {
    var x, y := Length(|c|) + (c + r), Length(|d|) + (d + s);
    assert Tlv(t, c) + r == [t] + x && Tlv(u, d) + s == [u] + y;
    SplitEqual([t], x, [u], y);
    LengthUnique(|c|, |d|, c + r, d + s);
    SplitEqual(c, r, d, s);
  }

  lemma ThreeTlvsUnique(x: bytes, y: bytes, z: bytes, x': bytes, y': bytes, z': bytes)
    requires |x| < LENGTH_BOUND && |y| < LENGTH_BOUND && |z| < LENGTH_BOUND
    requires |x'| < LENGTH_BOUND && |y'| < LENGTH_BOUND && |z'| < LENGTH_BOUND
    requires Tlv(2, x) + Tlv(4, y) + Tlv(4, z) == Tlv(2, x') + Tlv(4, y') + Tlv(4, z')
    ensures x == x' && y == y' && z == z'
  {
    var a, b, c := Tlv(2, x), Tlv(4, y), Tlv(4, z);
    var a', b', c' := Tlv(2, x'), Tlv(4, y'), Tlv(4, z');
    assert a + b + c == a + (b + c) && a' + b' + c' == a' + (b' + c');
    TlvUnique(2, x, b + c, 2, x', b' + c');
    TlvUnique(4, y, c, 4, y', c');
    assert c + [] == c' + [];
    TlvUnique(4, z, [], 4, z', []);
  }

  /** Different headers have different bytes. */
  lemma HeaderBytesInjective(h: Header, k: Header)
    requires HeaderBytes(h) == HeaderBytes(k)
    ensures h == k
  {
    assert HeaderContent(h) == HeaderContent(k) by {
      assert HeaderBytes(h) + [] == HeaderBytes(k) + [];
      TlvUnique(48, HeaderContent(h), [], 48, HeaderContent(k), []);
    }
    IntegerSize(h.number);
    IntegerSize(k.number);
    ThreeTlvsUnique(Integer(h.number), h.previousHash, h.dataHash, Integer(k.number), k.previousHash, k.dataHash);
    IntegerRoundTrip(h.number);
    IntegerRoundTrip(k.number);
  }

  /**
   A signed payload ends in the header's bytes.  Among headers of one number whose hashes have the
   same sizes it determines the header, whatever precedes the header in the payload.
   */
  lemma PayloadFixesHeader(prefix: bytes, h: Header, prefix': bytes, k: Header)
    requires prefix + HeaderBytes(h) == prefix' + HeaderBytes(k)
    requires h.number == k.number
    requires |h.previousHash| == |k.previousHash| && |h.dataHash| == |k.dataHash|
    ensures h == k && prefix == prefix'
  {
    assert |HeaderContent(h)| == |HeaderContent(k)|;
    SplitEqual(prefix, HeaderBytes(h), prefix', HeaderBytes(k));
    HeaderBytesInjective(h, k);
  }
}
