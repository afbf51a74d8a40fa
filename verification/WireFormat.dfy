/**
 The Protocol Buffers wire format as the vendored decoder reads it: varints, field tags, and the extent
 of a field value of every wire type, groups included.
 */
module WireFormat {
  import opened Bytes
  import opened Wrappers

  /** A decoded number and how many bytes it took. */
  datatype Varint = Varint(value: nat, len: nat)

  /** `AppendVarint`: seven bits a byte, least significant first. */
  function EncodeVarint(n: nat): (b: bytes)
    ensures |b| > 0
  {
    if n < 128 then [n] else [128 + n % 128] + EncodeVarint(n / 128)
  }

  /** `ConsumeVarint`, after `k` bytes: at most ten bytes, and the tenth may only be 0 or 1. */
  function ConsumeVarint(b: bytes, k: nat := 0): (v: Option<Varint>)
    requires k <= 9
    ensures v.Some? ==> 1 <= v.value.len <= |b|
    decreases |b|
  {
    if b == [] then None
    else if k == 9 then if b[0] < 2 then Some(Varint(b[0], 1)) else None
    else if b[0] < 128 then Some(Varint(b[0], 1))
    else
      var v := ConsumeVarint(b[1..], k + 1);
      if v.None? then None else Some(Varint(b[0] - 128 + 128 * v.value.value, v.value.len + 1))
  }

  /** A length-delimited field, left out when it is empty. */
  function LenField(tag: byte, content: bytes): bytes {
    if content == [] then [] else [tag] + EncodeVarint(|content|) + content
  }

  /** A field tag: number, wire type and how many bytes it took. */
  datatype Tag = Tag(num: nat, typ: nat, len: nat)

  const VARINT := 0
  const FIXED64 := 1
  const LEN := 2
  const START_GROUP := 3
  const END_GROUP := 4
  const FIXED32 := 5

  /** `ConsumeTag`, with the bound on field numbers as a parameter. */
  function ConsumeTag(b: bytes, maxNumber: nat): (t: Option<Tag>)
    ensures t.Some? ==> 1 <= t.value.len <= |b|
    ensures t.Some? ==> 1 <= t.value.num <= maxNumber && t.value.typ < 8
  {
    var v := ConsumeVarint(b);
    if v.None? || v.value.value / 8 < 1 || v.value.value / 8 > maxNumber then None
    else Some(Tag(v.value.value / 8, v.value.value % 8, v.value.len))
  }

  const MAX_INT32: nat := 0x7FFF_FFFF

  function Fixed(b: bytes, n: nat): (len: Option<nat>) {
    if |b| < n then None else Some(n)
  }

  /** `ConsumeBytes`: the content's extent and the whole length. */
  function ConsumeBytes(b: bytes): (len: Option<nat>)
    ensures len.Some? ==> ConsumeVarint(b).Some? && ConsumeVarint(b).value.len <= len.value <= |b|
  {
    var v := ConsumeVarint(b);
    if v.None? || v.value.value > |b| - v.value.len then None else Some(v.value.len + v.value.value)
  }

  /** `ConsumeFieldValue`: the length of the value that follows a tag. */
  function FieldValue(num: nat, typ: nat, b: bytes, depth: int): (len: Option<nat>)
    ensures len.Some? ==> len.value <= |b|
    decreases |b|, 1
  {
    if typ == VARINT then
      var v := ConsumeVarint(b);
      if v.None? then None else Some(v.value.len)
    else if typ == FIXED64 then Fixed(b, 8)
    else if typ == FIXED32 then Fixed(b, 4)
    else if typ == LEN then ConsumeBytes(b)
    else if typ == START_GROUP && depth >= 0 then GroupValue(num, b, depth)
    else None
  }

  /** The fields of a group up to and including its matching end marker. */
  function GroupValue(num: nat, b: bytes, depth: int): (len: Option<nat>)
    ensures len.Some? ==> len.value <= |b|
    decreases |b|, 0
  {
    var t := ConsumeTag(b, MAX_INT32);
    if t.None? then None
    else if t.value.typ == END_GROUP then
      if t.value.num == num then Some(t.value.len) else None
    else
      var v := FieldValue(t.value.num, t.value.typ, b[t.value.len..], depth - 1);
      if v.None? then None
      else
        var rest := GroupValue(num, b[t.value.len + v.value..], depth);
        if rest.None? then None else Some(t.value.len + v.value + rest.value)
  }

  // ---------------------------------------------------------------------------
  // Everything decoded is decoded from its own bytes alone
  // ---------------------------------------------------------------------------

  lemma {:induction false} VarintPrefix(b: bytes, c: bytes, k: nat)
    requires k <= 9 && ConsumeVarint(b, k).Some?
    requires b[..ConsumeVarint(b, k).value.len] <= c
    ensures ConsumeVarint(c, k) == ConsumeVarint(b, k)
    decreases 9 - k
  {
    var n := ConsumeVarint(b, k).value.len;
    assert c[0] == b[..n][0] == b[0];
    if k < 9 && b[0] >= 128 {
      assert b[1..][..n - 1] == b[..n][1..];
      assert c[1..][..n - 1] == c[..n][1..];
      VarintPrefix(b[1..], c[1..], k + 1);
    }
  }

  lemma TagPrefix(b: bytes, c: bytes, maxNumber: nat)
    requires ConsumeTag(b, maxNumber).Some?
    requires b[..ConsumeTag(b, maxNumber).value.len] <= c
    ensures ConsumeTag(c, maxNumber) == ConsumeTag(b, maxNumber)
  {
    VarintPrefix(b, c, 0);
  }

  lemma BytesPrefix(b: bytes, c: bytes)
    requires ConsumeBytes(b).Some?
    requires b[..ConsumeBytes(b).value] <= c
    ensures ConsumeBytes(c) == ConsumeBytes(b)
  {
    var n, m := ConsumeVarint(b).value.len, ConsumeBytes(b).value;
    assert b[..n] == b[..m][..n] <= c;
    VarintPrefix(b, c, 0);
  }

  /** A slice of a common prefix is common. */
  lemma SharedSlice(b: bytes, c: bytes, n: nat, lo: nat, hi: nat)
    requires lo <= hi <= n <= |b| && b[..n] <= c
    ensures b[lo..][..hi - lo] <= c[lo..]
  {
    assert b[lo..][..hi - lo] == b[..n][lo..hi] == c[..n][lo..hi] == c[lo..][..hi - lo];
  }

  lemma {:induction false} FieldValuePrefix(num: nat, typ: nat, b: bytes, c: bytes, depth: int)
    requires FieldValue(num, typ, b, depth).Some?
    requires b[..FieldValue(num, typ, b, depth).value] <= c
    ensures FieldValue(num, typ, c, depth) == FieldValue(num, typ, b, depth)
    decreases |b|, 1
  {
    if typ == VARINT {
      VarintPrefix(b, c, 0);
    } else if typ == LEN {
      BytesPrefix(b, c);
    } else if typ == START_GROUP {
      GroupValuePrefix(num, b, c, depth);
    }
  }

  /** A group is a field followed by the rest of the group. */
  ghost predicate GroupParts(num: nat, b: bytes, depth: int, t: Tag, v: nat, r: nat) {
    && ConsumeTag(b, MAX_INT32) == Some(t) && t.typ != END_GROUP
    && FieldValue(t.num, t.typ, b[t.len..], depth - 1) == Some(v)
    && GroupValue(num, b[t.len + v..], depth) == Some(r)
  }

  lemma GroupFold(num: nat, b: bytes, depth: int, t: Tag, v: nat, r: nat)
    requires GroupParts(num, b, depth, t, v, r)
    ensures GroupValue(num, b, depth) == Some(t.len + v + r)
  {
  }

  lemma GroupUnfold(num: nat, b: bytes, depth: int) returns (t: Tag, v: nat, r: nat)
    requires GroupValue(num, b, depth).Some? && ConsumeTag(b, MAX_INT32).value.typ != END_GROUP
    ensures GroupParts(num, b, depth, t, v, r)
    ensures GroupValue(num, b, depth) == Some(t.len + v + r)
  {
    t := ConsumeTag(b, MAX_INT32).value;
    v := FieldValue(t.num, t.typ, b[t.len..], depth - 1).value;
    r := GroupValue(num, b[t.len + v..], depth).value;
  }

  lemma GroupStart(num: nat, b: bytes, depth: int)
    requires GroupValue(num, b, depth).Some?
    ensures ConsumeTag(b, MAX_INT32).Some? && ConsumeTag(b, MAX_INT32).value.len <= GroupValue(num, b, depth).value
  {
  }

  lemma GroupEnd(num: nat, b: bytes, c: bytes, depth: int)
    requires GroupValue(num, b, depth).Some? && ConsumeTag(b, MAX_INT32).value.typ == END_GROUP
    requires ConsumeTag(c, MAX_INT32) == ConsumeTag(b, MAX_INT32)
    ensures GroupValue(num, c, depth) == GroupValue(num, b, depth)
  {
  }

  lemma SharedTag(b: bytes, c: bytes, n: nat)
    requires ConsumeTag(b, MAX_INT32).Some? && ConsumeTag(b, MAX_INT32).value.len <= n <= |b| && b[..n] <= c
    ensures ConsumeTag(c, MAX_INT32) == ConsumeTag(b, MAX_INT32)
  {
    SharedSlice(b, c, n, 0, ConsumeTag(b, MAX_INT32).value.len);
    assert b[0..] == b && c[0..] == c;
    TagPrefix(b, c, MAX_INT32);
  }

  lemma {:induction false} GroupValuePrefix(num: nat, b: bytes, c: bytes, depth: int)
    requires GroupValue(num, b, depth).Some?
    requires b[..GroupValue(num, b, depth).value] <= c
    ensures GroupValue(num, c, depth) == GroupValue(num, b, depth)
    decreases |b|, 0
  {
    GroupStart(num, b, depth);
    SharedTag(b, c, GroupValue(num, b, depth).value);
    if ConsumeTag(b, MAX_INT32).value.typ == END_GROUP {
      GroupEnd(num, b, c, depth);
    } else {
      var t, v, r := GroupUnfold(num, b, depth);
      GroupPartsPrefix(num, b, c, depth, t, v, r);
      GroupFold(num, c, depth, t, v, r);
    }
  }

  lemma {:induction false} GroupPartsPrefix(num: nat, b: bytes, c: bytes, depth: int, t: Tag, v: nat, r: nat)
    requires GroupParts(num, b, depth, t, v, r)
    requires t.len + v + r <= |b| && b[..t.len + v + r] <= c && ConsumeTag(c, MAX_INT32) == Some(t)
    ensures GroupParts(num, c, depth, t, v, r)
    decreases |b|, 0, 0
  {
    SharedSlice(b, c, t.len + v + r, t.len, t.len + v);
    FieldValuePrefix(t.num, t.typ, b[t.len..], c[t.len..], depth - 1);
    SharedSlice(b, c, t.len + v + r, t.len + v, t.len + v + r);
    GroupValuePrefix(num, b[t.len + v..], c[t.len + v..], depth);
  }

  /** The encoder's form is the shortest one the decoder reads as the same number. */
  lemma {:induction false} EncodingShortest(b: bytes, k: nat)
    requires k <= 9 && ConsumeVarint(b, k).Some?
    ensures |EncodeVarint(ConsumeVarint(b, k).value.value)| <= ConsumeVarint(b, k).value.len
    decreases 9 - k
  {
    if k < 9 && b[0] >= 128 {
      EncodingShortest(b[1..], k + 1);
      var v := ConsumeVarint(b[1..], k + 1).value.value;
      assert (b[0] - 128 + 128 * v) / 128 == v;
    }
  }

  ghost function Power128(k: nat): nat {
    if k == 0 then 1 else 128 * Power128(k - 1)
  }

  /** What the encoder writes of a 64-bit number, the decoder reads back, whatever follows. */
  lemma {:induction false} VarintRoundTrip(n: nat, rest: bytes, k: nat)
    requires k <= 9 && n < 2 * Power128(9 - k)
    ensures ConsumeVarint(EncodeVarint(n) + rest, k) == Some(Varint(n, |EncodeVarint(n)|))
    decreases 9 - k
  {
    var b := EncodeVarint(n) + rest;
    if n >= 128 {
      assert k < 9 && Power128(9 - k) == 128 * Power128(8 - k);
      assert b[1..] == EncodeVarint(n / 128) + rest;
      VarintRoundTrip(n / 128, rest, k + 1);
      assert n == n % 128 + 128 * (n / 128);
    }
  }

  /** Ten bytes hold exactly the 64-bit numbers. */
  lemma TenBytes()
    ensures 2 * Power128(9) == 0x1_0000_0000_0000_0000
  {
    assert Power128(3) == 0x20_0000 && Power128(6) == 0x400_0000_0000;
  }
}
