/** Reading the bytes of a block header back, by the rules of sections 8.1, 8.3, 8.7, 8.9 and 10.1 of ITU-T X.690. */
module HeaderDecoding {
  import opened Bytes
  import opened HeaderEncoding
  import opened Words
  import opened Wrappers

  /** A length and the octets it takes: short form, or the number of octets and then a big-endian number. */
  ghost function ReadLength(b: bytes): Option<(nat, nat)> {
    if b == [] then None
    else if b[0] < 128 then Some((b[0], 1))
    else if b[0] == 128 || |b| < 1 + (b[0] - 128) then None
    else Some((FromBigEndian(b[1..1 + (b[0] - 128)]), 1 + (b[0] - 128)))
  }

  /** An identifier octet, the contents, and how many octets the whole takes. */
  datatype Item = Item(tag: byte, content: bytes, size: nat)

  ghost function ReadItem(b: bytes): (item: Option<Item>)
    ensures item.Some? ==> item.value.size <= |b|
  {
    if b == [] || ReadLength(b[1..]).None? then None
    else
      var (len, octets) := ReadLength(b[1..]).value;
      if 1 + octets + len > |b| then None else Some(Item(b[0], b[1 + octets..1 + octets + len], 1 + octets + len))
  }

  /** An INTEGER whose first bit is clear, with no octet to spare. */
  ghost function ReadInteger(content: bytes): Option<nat> {
    if content == [] || content[0] >= 128 || (|content| > 1 && content[0] == 0 && content[1] < 128) then None
    else Some(FromBigEndian(content))
  }

  /** A SEQUENCE of an INTEGER and two OCTET STRINGs, and nothing else. */
  ghost function ReadHeader(b: bytes): Option<HeaderFields> {
    var outer := ReadItem(b);
    if outer.None? || outer.value.tag != 48 || outer.value.size != |b| then None else ReadNumber(outer.value.content)
  }

  ghost function ReadNumber(b: bytes): Option<HeaderFields> {
    var number := ReadItem(b);
    if number.None? || number.value.tag != 2 || ReadInteger(number.value.content).None? then None
    else ReadHashes(ReadInteger(number.value.content).value, b[number.value.size..])
  }

  ghost function ReadHashes(number: nat, b: bytes): Option<HeaderFields> {
    var previous := ReadItem(b);
    if previous.None? || previous.value.tag != 4 then None
    else
      var rest := b[previous.value.size..];
      var data := ReadItem(rest);
      if data.None? || data.value.tag != 4 || data.value.size != |rest| then None
      else Some(HeaderFields.Header(number, previous.value.content, data.value.content))
  }

  lemma {:induction false} FirstOctet(n: nat)
    requires n > 0
    ensures BigEndian(n) != [] && BigEndian(n)[0] != 0
  {
    if n >= 256 {
      FirstOctet(n / 256);
      assert BigEndian(n)[0] == BigEndian(n / 256)[0];
    } else {
      assert BigEndian(n / 256) == [];
    }
  }

  lemma IntegerReads(n: nat)
    ensures ReadInteger(Integer(n)) == Some(n)
  {
    IntegerRoundTrip(n);
    if n > 0 {
      FirstOctet(n);
    }
  }

  lemma LengthReads(n: nat, rest: bytes)
    requires n < LENGTH_BOUND
    ensures ReadLength(Length(n) + rest) == Some((n, |Length(n)|))
  {
    var b := Length(n) + rest;
    assert b[0] == Length(n)[0];
    if n >= 128 {
      LengthOctets(n);
      FirstOctet(n);
      assert b[1..|Length(n)|] == BigEndian(n);
      BigEndianRoundTrip(n);
    }
  }

  lemma TlvReads(tag: byte, content: bytes, rest: bytes)
    requires |content| < LENGTH_BOUND
    ensures ReadItem(Tlv(tag, content) + rest) == Some(Item(tag, content, |Tlv(tag, content)|))
    ensures (Tlv(tag, content) + rest)[|Tlv(tag, content)|..] == rest
  {
    var b, length := Tlv(tag, content) + rest, Length(|content|);
    assert b[1..] == length + (content + rest);
    LengthReads(|content|, content + rest);
    assert b[1 + |length|..1 + |length| + |content|] == content;
  }

  lemma HashesRead(number: nat, previousHash: bytes, dataHash: bytes)
    requires |previousHash| < LENGTH_BOUND && |dataHash| < LENGTH_BOUND
    ensures ReadHashes(number, Tlv(4, previousHash) + Tlv(4, dataHash)) == Some(HeaderFields.Header(number, previousHash, dataHash))
  {
    var c := Tlv(4, dataHash);
    TlvReads(4, previousHash, c);
    assert c == c + [];
    TlvReads(4, dataHash, []);
  }

  lemma NumberReads(number: nat, rest: bytes)
    requires number < TWO_64
    ensures |Integer(number)| < LENGTH_BOUND && ReadNumber(Tlv(2, Integer(number)) + rest) == ReadHashes(number, rest)
  {
    IntegerSize(number);
    TlvReads(2, Integer(number), rest);
    IntegerReads(number);
  }

  lemma OuterReads(content: bytes)
    requires |content| < LENGTH_BOUND
    ensures ReadHeader(Tlv(48, content)) == ReadNumber(content)
  {
    assert Tlv(48, content) + [] == Tlv(48, content);
    TlvReads(48, content, []);
  }

  /** What is written is read back: the number, the hash of the previous header, the hash of the data. */
  lemma {:induction false} HeaderReads(h: Header)
    ensures ReadHeader(HeaderBytes(h)) == Some(h)
  {
    OuterReads(HeaderContent(h));
    var hashes := Tlv(4, h.previousHash) + Tlv(4, h.dataHash);
    NumberReads(h.number, hashes);
    HashesRead(h.number, h.previousHash, h.dataHash);
    Regroup(Tlv(2, Integer(h.number)), Tlv(4, h.previousHash), Tlv(4, h.dataHash));
  }

  lemma Regroup(a: bytes, b: bytes, c: bytes)
    ensures a + b + c == a + (b + c)
  {
  }
}
