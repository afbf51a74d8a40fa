/** What the Protocol Buffers decoder reads and what it refuses, against what an encoder writes. */
module WireReading {
  import opened Bytes
  import opened WireFormat
  import opened Words
  import opened Wrappers

  /** A number takes at most ten bytes, of which only the last is below 128, and fits 64 bits. */
  lemma {:induction false} VarintIs(b: bytes, k: nat)
    requires k <= 9
    ensures ConsumeVarint(b, k).Some? <==> exists n :: InTime(b, k, n)
    ensures ConsumeVarint(b, k).Some? ==>
      var v := ConsumeVarint(b, k).value;
      InTime(b, k, v.len) && v.value < 2 * Power128(9 - k)
  {
    if ConsumeVarint(b, k).Some? {
      VarintEnds(b, k);
    }
    if n :| InTime(b, k, n) {
      VarintRead(b, k, n);
    }
  }

  /** After `k` bytes, the first byte below 128 is the `n`-th, and it is not too late or too large. */
  ghost predicate InTime(b: bytes, k: nat, n: nat) {
    EndsAt(b, n) && n <= 10 - k && (n == 10 - k ==> b[n - 1] < 2)
  }

  lemma {:induction false} VarintEnds(b: bytes, k: nat)
    requires k <= 9 && ConsumeVarint(b, k).Some?
    ensures var v := ConsumeVarint(b, k).value; InTime(b, k, v.len) && v.value < 2 * Power128(9 - k)
    decreases 9 - k
  {
    PowerPositive(9 - k);
    if k < 9 && b[0] >= 128 {
      VarintEnds(b[1..], k + 1);
      assert Power128(9 - k) == 128 * Power128(8 - k);
      EndsShifted(b, ConsumeVarint(b, k).value.len - 1);
    }
  }

  lemma {:induction false} VarintRead(b: bytes, k: nat, n: nat)
    requires k <= 9 && InTime(b, k, n)
    ensures ConsumeVarint(b, k).Some?
    decreases 9 - k
  {
    if n > 1 {
      assert b[0] >= 128;
      EndsShifted(b, n - 1);
      VarintRead(b[1..], k + 1, n - 1);
    }
  }

  lemma {:induction false} PowerPositive(k: nat)
    ensures Power128(k) >= 1 && (k >= 1 ==> Power128(k) >= 128)
  {
    if k > 0 {
      PowerPositive(k - 1);
    }
  }

  /** The first byte below 128 is the `n`-th. */
  ghost predicate EndsAt(b: bytes, n: nat) {
    1 <= n <= |b| && b[n - 1] < 128 && forall i | 0 <= i < n - 1 :: b[i] >= 128
  }

  lemma EndsShifted(b: bytes, n: nat)
    requires b != [] && b[0] >= 128
    ensures EndsAt(b[1..], n) <==> n >= 1 && EndsAt(b, n + 1)
  {
    if EndsAt(b[1..], n) {
      forall i | 0 <= i < n ensures b[i] >= 128 {
        assert i > 0 ==> b[i] == b[1..][i - 1];
      }
    }
  }

  /** A value as a message has it, and the fields of a group. */
  datatype Value =
    | Number(n: nat)
    | Wide(content: bytes)
    | Content(content: bytes)
    | Group(fields: Fields)
    | Narrow(content: bytes)

  datatype Fields = End | More(num: nat, head: Value, tail: Fields)

  /** What the format can hold: numbers of 64 bits, field numbers of 31. */
  ghost predicate Fits(v: Value) {
    match v
    case Number(n) => n < TWO_64
    case Wide(c) => |c| == 8
    case Content(c) => |c| < TWO_64
    case Group(fs) => AllFit(fs)
    case Narrow(c) => |c| == 4
  }

  ghost predicate AllFit(fs: Fields) {
    fs.More? ==> 1 <= fs.num <= MAX_INT32 && Fits(fs.head) && AllFit(fs.tail)
  }

  ghost function TypeOf(v: Value): (typ: nat) {
    match v
    case Number(_) => 0
    case Wide(_) => 1
    case Content(_) => 2
    case Group(_) => 3
    case Narrow(_) => 5
  }

  /** A value as it is written before `rest`. */
  ghost function Written(num: nat, v: Value, rest: bytes): (b: bytes)
    decreases v
  {
    match v
    case Number(n) => EncodeVarint(n) + rest
    case Wide(c) => c + rest
    case Content(c) => EncodeVarint(|c|) + c + rest
    case Group(fs) => AllWritten(fs, num, rest)
    case Narrow(c) => c + rest
  }

  /** Fields as they are written before the end marker with number `last` and `rest`. */
  ghost function AllWritten(fs: Fields, last: nat, rest: bytes): (b: bytes)
    decreases fs
  {
    if fs.End? then EncodeVarint(8 * last + 4) + rest
    else EncodeVarint(8 * fs.num + TypeOf(fs.head)) + Written(fs.num, fs.head, AllWritten(fs.tail, last, rest))
  }

  /** How deep groups nest. */
  ghost function Nesting(v: Value): (n: nat) {
    if v.Group? then 1 + NestingIn(v.fields) else 0
  }

  ghost function NestingIn(fs: Fields): (n: nat) {
    if fs.End? then 0
    else if Nesting(fs.head) > NestingIn(fs.tail) then Nesting(fs.head) else NestingIn(fs.tail)
  }

  lemma NumberReads(n: nat, rest: bytes)
    requires n < TWO_64
    ensures ConsumeVarint(EncodeVarint(n) + rest) == Some(Varint(n, |EncodeVarint(n)|))
  {
    TenBytes();
    VarintRoundTrip(n, rest, 0);
  }

  /** A tag is read exactly if its field number is in range. */
  lemma TagReads(num: nat, typ: nat, rest: bytes, maxNumber: nat)
    requires typ < 8 && 8 * num + typ < TWO_64
    ensures
      var tag := EncodeVarint(8 * num + typ);
      ConsumeTag(tag + rest, maxNumber) == if 1 <= num <= maxNumber then Some(Tag(num, typ, |tag|)) else None
  {
    NumberReads(8 * num + typ, rest);
  }

  lemma {:induction false} ContentReads(c: bytes, rest: bytes)
    requires |c| < TWO_64
    ensures ConsumeBytes(EncodeVarint(|c|) + c + rest) == Some(|EncodeVarint(|c|) + c|)
  {
    assert EncodeVarint(|c|) + c + rest == EncodeVarint(|c|) + (c + rest);
    NumberReads(|c|, c + rest);
  }

  ghost predicate Suffix(b: bytes, rest: bytes) {
    |rest| <= |b| && b[|b| - |rest|..] == rest
  }

  /** The value is read to where the rest starts. */
  ghost predicate IsRead(num: nat, typ: nat, b: bytes, rest: bytes, depth: int) {
    Suffix(b, rest) && FieldValue(num, typ, b, depth) == Some(|b| - |rest|)
  }

  /** The fields of a group are read up to its end marker and to where the rest starts. */
  ghost predicate AreRead(num: nat, b: bytes, rest: bytes, depth: int) {
    Suffix(b, rest) && GroupValue(num, b, depth) == Some(|b| - |rest|)
  }

  lemma SuffixPrepended(a: bytes, rest: bytes)
    ensures Suffix(a + rest, rest)
  {
  }

  /** Every value as it is written, with groups in groups no deeper than the limit, is read to its end whatever follows. */
  lemma {:induction false} WrittenIsRead(num: nat, v: Value, rest: bytes, depth: int)
    requires 1 <= num <= MAX_INT32 && Fits(v) && Nesting(v) <= depth + 1
    ensures IsRead(num, TypeOf(v), Written(num, v, rest), rest, depth)
    decreases v
  {
    match v
    case Number(n) =>
      NumberReads(n, rest);
      SuffixPrepended(EncodeVarint(n), rest);
    case Content(c) =>
      ContentReads(c, rest);
      SuffixPrepended(EncodeVarint(|c|) + c, rest);
    case Group(fs) => AllRead(num, fs, rest, depth);
    case Wide(c) => SuffixPrepended(c, rest);
    case Narrow(c) => SuffixPrepended(c, rest);
  }

  /** So are all fields of a group up to its end marker. */
  lemma {:induction false} AllRead(num: nat, fs: Fields, rest: bytes, depth: int)
    requires 1 <= num <= MAX_INT32 && AllFit(fs) && NestingIn(fs) <= depth
    ensures AreRead(num, AllWritten(fs, num, rest), rest, depth)
    decreases fs
  {
    if fs.End? {
      TagReads(num, 4, rest, MAX_INT32);
      EndReads(num, EncodeVarint(8 * num + 4) + rest, depth, Tag(num, 4, |EncodeVarint(8 * num + 4)|));
      SuffixPrepended(EncodeVarint(8 * num + 4), rest);
    } else {
      var after := AllWritten(fs.tail, num, rest);
      WrittenIsRead(fs.num, fs.head, after, depth - 1);
      AllRead(num, fs.tail, rest, depth);
      TagReads(fs.num, TypeOf(fs.head), Written(fs.num, fs.head, after), MAX_INT32);
      Pieces(EncodeVarint(8 * fs.num + TypeOf(fs.head)), Written(fs.num, fs.head, after), after, rest, AllWritten(fs, num, rest));
      FirstRead(num, Tag(fs.num, TypeOf(fs.head), |EncodeVarint(8 * fs.num + TypeOf(fs.head))|),
                Written(fs.num, fs.head, after), after, rest, AllWritten(fs, num, rest), depth);
    }
  }

  /** A group that starts with a field is read if the field and what comes after it are. */
  lemma {:induction false} FirstRead(num: nat, t: Tag, head: bytes, after: bytes, rest: bytes, b: bytes, depth: int)
    requires ConsumeTag(b, MAX_INT32) == Some(t) && t.typ != END_GROUP
    requires IsRead(t.num, t.typ, head, after, depth - 1) && AreRead(num, after, rest, depth)
    requires ArePieces(t.len, head, after, rest, b)
    ensures AreRead(num, b, rest, depth)
  {
    HaveParts(num, b, depth, t, head, |head| - |after|, after, |after| - |rest|);
    PartsRead(num, b, rest, depth, t, |head| - |after|, |after| - |rest|);
  }

  ghost predicate ArePieces(len: nat, head: bytes, after: bytes, rest: bytes, b: bytes) {
    && Suffix(b, rest) && |rest| <= |after| <= |head| && |b| == len + |head|
    && b[len..] == head && b[len + (|head| - |after|)..] == after
  }

  lemma {:induction false} HaveParts(num: nat, b: bytes, depth: int, t: Tag, head: bytes, n: nat, after: bytes, r: nat)
    requires ConsumeTag(b, MAX_INT32) == Some(t) && t.typ != END_GROUP && t.len + n <= |b|
    requires head == b[t.len..] && FieldValue(t.num, t.typ, head, depth - 1) == Some(n)
    requires after == b[t.len + n..] && GroupValue(num, after, depth) == Some(r)
    ensures GroupParts(num, b, depth, t, n, r)
  {
  }

  lemma {:induction false} PartsRead(num: nat, b: bytes, rest: bytes, depth: int, t: Tag, n: nat, r: nat)
    requires GroupParts(num, b, depth, t, n, r) && Suffix(b, rest) && |b| - |rest| == t.len + n + r
    ensures AreRead(num, b, rest, depth)
  {
    GroupFold(num, b, depth, t, n, r);
  }

  lemma Pieces(tag: bytes, head: bytes, after: bytes, rest: bytes, b: bytes)
    requires b == tag + head && Suffix(head, after) && Suffix(after, rest)
    ensures ArePieces(|tag|, head, after, rest, b)
  {
    assert head[|head| - |rest|..] == after[|after| - |rest|..];
    assert b[|b| - |rest|..] == head[|head| - |rest|..];
  }

  /** A group ends at the end marker with its number, and cannot be read past another. */
  lemma EndReads(num: nat, b: bytes, depth: int, t: Tag)
    requires ConsumeTag(b, MAX_INT32) == Some(t) && t.typ == END_GROUP
    ensures GroupValue(num, b, depth) == if t.num == num then Some(t.len) else None
  {
  }

  /** A value that is cut short is refused. */
  lemma {:induction false} TruncatedIsRefused(num: nat, v: Value, k: nat, depth: int)
    requires 1 <= num <= MAX_INT32 && Fits(v) && Nesting(v) <= depth + 1 && k < |Written(num, v, [])|
    ensures FieldValue(num, TypeOf(v), Written(num, v, [])[..k], depth).None?
  {
    var b := Written(num, v, []);
    WrittenIsRead(num, v, [], depth);
    if FieldValue(num, TypeOf(v), b[..k], depth).Some? {
      FieldValuePrefix(num, TypeOf(v), b[..k], b, depth);
    }
  }

  /** No value follows the tag of an end marker, nor one of a type that does not exist, and no group is read below the limit. */
  lemma {:induction false} NoSuchValue(num: nat, typ: nat, b: bytes, depth: int)
    ensures (exists v: Value :: TypeOf(v) == typ) || FieldValue(num, typ, b, depth).None?
    ensures typ == TypeOf(Group(End)) && depth < 0 ==> FieldValue(num, typ, b, depth).None?
  {
    assert TypeOf(Number(0)) == 0 && TypeOf(Wide([])) == 1 && TypeOf(Content([])) == 2;
    assert TypeOf(Group(End)) == 3 && TypeOf(Narrow([])) == 5;
  }
}
