/**
The record format of a .dlog file and of the uploaded-handles registry, the replay reader
that stops at the first incomplete record, and the upload decoder that refuses one.
*/
module WalCodec {
  import opened Wrappers
  import opened Types

  // --------------------------------------------------- little-endian integers

  function Pow256(k: nat): (p: nat)
    ensures p >= 1
  {
    if k == 0 then 1 else 256 * Pow256(k - 1)
  }

  function LittleEndian(n: nat, k: nat): (s: seq<Byte>)
    ensures |s| == k
  {
    if k == 0 then [] else [n % 256] + LittleEndian(n / 256, k - 1)
  }

  function FromLittleEndian(s: seq<Byte>): (n: nat)
    ensures n < Pow256(|s|)
  {
    if s == [] then 0 else s[0] + 256 * FromLittleEndian(s[1..])
  }

  lemma {:induction false} LittleEndianRoundTrip(n: nat, k: nat)
    requires n < Pow256(k)
    ensures FromLittleEndian(LittleEndian(n, k)) == n
  {
    if k > 0 {
      assert LittleEndian(n, k)[1..] == LittleEndian(n / 256, k - 1);
      LittleEndianRoundTrip(n / 256, k - 1);
    }
  }

  lemma WordSizes()
    ensures Pow256(4) == TWO32 && Pow256(8) == TWO64
  {
    assert Pow256(2) == 0x1_0000;
    assert Pow256(6) == 0x1_0000_0000_0000;
  }

  function FromInt64(i: Int64): (n: Uint64) {
    if i >= 0 then i else i + TWO64
  }

  function ToInt64(n: Uint64): (i: Int64) {
    if n < TWO63 then n else n - TWO64
  }

  function Uint64At(bs: seq<Byte>, at: nat): Uint64
    requires at + 8 <= |bs|
  {
    WordSizes();
    FromLittleEndian(bs[at..at + 8])
  }

  // ---------------------------------------------------------------- records

  /** The length of the data is cut to 32 bits. */
  function Header(handle: Handle, length: nat): (bs: seq<Byte>)
    ensures |bs| == 20
  {
    LittleEndian(handle.Id, 8) + LittleEndian(FromInt64(handle.TimeStamp), 8) + LittleEndian(length % TWO32, 4)
  }

  function Encode(c: Content): (bs: seq<Byte>)
    ensures |bs| == 21 + |c.Data|
  {
    Header(c.Id, |c.Data|) + (c.Data + [if c.Eof then 1 else 0])
  }

  function EncodeAll(rs: seq<Content>): seq<Byte> {
    if rs == [] then [] else Encode(rs[0]) + EncodeAll(rs[1..])
  }

  predicate Fits(c: Content) {
    |c.Data| < TWO32
  }

  ghost predicate AllFit(rs: seq<Content>) {
    forall c :: c in rs ==> Fits(c)
  }

  method BuildLogContent(handle: Handle, entry: Content) returns (buffer: seq<Byte>)
    requires entry.Id == handle
    ensures buffer == Encode(entry)
  {
    buffer := [];
    buffer := buffer + LittleEndian(handle.Id, 8);
    buffer := buffer + LittleEndian(FromInt64(handle.TimeStamp), 8);
    buffer := buffer + LittleEndian(|entry.Data| % TWO32, 4);
    buffer := buffer + entry.Data;
    buffer := buffer + [if entry.Eof then 1 else 0];
    FiveParts(LittleEndian(handle.Id, 8), LittleEndian(FromInt64(handle.TimeStamp), 8),
        LittleEndian(|entry.Data| % TWO32, 4), entry.Data, [if entry.Eof then 1 else 0]);
  }

  lemma FiveParts(a: seq<Byte>, b: seq<Byte>, c: seq<Byte>, d: seq<Byte>, e: seq<Byte>)
    ensures [] + a + b + c + d + e == (a + b + c) + (d + e)
  {
  }

  datatype Field = IdField | TimestampField | LengthField | DataField | EofField

  datatype Read = Record(content: Content, size: nat) | AtEnd | Truncated(field: Field)

  /** The first record of some bytes. */
  function Next(bs: seq<Byte>): (r: Read)
    ensures r.Record? ==> 21 <= r.size <= |bs| && Fits(r.content)
  {
    if |bs| == 0 then AtEnd
    else if |bs| < 8 then Truncated(IdField)
    else if |bs| < 16 then Truncated(TimestampField)
    else if |bs| < 20 then Truncated(LengthField)
    else
      WordSizes();
      var n := FromLittleEndian(bs[16..20]);
      if |bs| < 20 + n then Truncated(DataField)
      else if |bs| < 21 + n then Truncated(EofField)
      else
        Record(
          Content(Handle(Uint64At(bs, 0), ToInt64(Uint64At(bs, 8))), bs[20 + n] != 0, bs[20..20 + n]),
          21 + n)
  }

  /** What replay visits: the whole records up to the first incomplete one. */
  function Parse(bs: seq<Byte>): (rs: seq<Content>)
    ensures AllFit(rs)
    decreases |bs|
  {
    match Next(bs)
    case Record(c, n) => [c] + Parse(bs[n..])
    case _ => []
  }

  function Payload(rs: seq<Content>): seq<Byte> {
    if rs == [] then [] else rs[0].Data + Payload(rs[1..])
  }

  /** Some bytes, then the outcome of decoding the rest. */
  function Then(prefix: seq<Byte>, r: Result<seq<Byte>, Field>): Result<seq<Byte>, Field> {
    match r
    case Ok(d) => Ok(prefix + d)
    case Err(f) => Err(f)
  }

  lemma ThenThen(a: seq<Byte>, b: seq<Byte>, r: Result<seq<Byte>, Field>)
    ensures Then(a, Then(b, r)) == Then(a + b, r)
    ensures Then([], r) == r
  {
    if r.Ok? {
      assert a + (b + r.value) == (a + b) + r.value;
      assert [] + r.value == r.value;
    }
  }

  /** What the upload decodes: an incomplete record is an error. */
  function Decode(bs: seq<Byte>): Result<seq<Byte>, Field>
    decreases |bs|
  {
    match Next(bs)
    case AtEnd => Ok([])
    case Truncated(f) => Err(f)
    case Record(c, n) => Then(c.Data, Decode(bs[n..]))
  }

  /** A read of n bytes at a position; None when fewer are left. */
  function ReadAt(bs: seq<Byte>, pos: nat, n: nat): Option<seq<Byte>>
    requires pos <= |bs|
  {
    if pos + n <= |bs| then Some(bs[pos..pos + n]) else None
  }

  /** The reads of one record, field by field; a field cut short ends it. */
  method ReadRecord(bs: seq<Byte>, pos: nat) returns (r: Read)
    requires pos < |bs|
    ensures r == Next(bs[pos..])
  {
    ghost var here := bs[pos..];
    WordSizes();
    var id := ReadAt(bs, pos, 8);
    if id.None? { return Truncated(IdField); }
    assert id.value == here[0..8];
    var stamp := ReadAt(bs, pos + 8, 8);
    if stamp.None? { return Truncated(TimestampField); }
    assert stamp.value == here[8..16];
    var length := ReadAt(bs, pos + 16, 4);
    if length.None? { return Truncated(LengthField); }
    assert length.value == here[16..20];
    var n := FromLittleEndian(length.value);
    var data := ReadAt(bs, pos + 20, n);
    if data.None? { return Truncated(DataField); }
    assert data.value == here[20..20 + n];
    var eof := ReadAt(bs, pos + 20 + n, 1);
    if eof.None? { return Truncated(EofField); }
    var handle := Handle(FromLittleEndian(id.value), ToInt64(FromLittleEndian(stamp.value)));
    return Record(Content(handle, eof.value[0] != 0, data.value), 21 + n);
  }

  /** decodeDlogFileContent: record by record, an error wherever the file stops inside one. */
  method DecodeDlogFileContent(bs: seq<Byte>) returns (r: Result<seq<Byte>, Field>)
    ensures r == Decode(bs)
  {
    var result: seq<Byte> := [];
    var pos := 0;
    assert bs[0..] == bs;
    ThenThen([], [], Decode(bs));
    while pos < |bs|
      invariant pos <= |bs|
      invariant Decode(bs) == DecodedFrom(bs, pos, result)
      decreases |bs| - pos
    {
      var next := DecodeOne(bs, pos, result);
      match next {
        case Truncated(f) => return Err(f);
        case Record(c, n) =>
          result := result + c.Data;
          pos := pos + n;
        case AtEnd =>
          assert false;
      }
    }
    DecodedAll(bs, result);
    return Ok(result);
  }

  // One turn of the loop.
  method DecodeOne(bs: seq<Byte>, pos: nat, ghost result: seq<Byte>) returns (next: Read)
    requires pos < |bs|
    ensures !next.AtEnd?
    ensures next.Truncated? ==> DecodedFrom(bs, pos, result) == Err(next.field)
    ensures next.Record? ==>
              0 < next.size <= |bs| - pos
              && DecodedFrom(bs, pos, result) == DecodedFrom(bs, pos + next.size, result + next.content.Data)
  {
    next := ReadRecord(bs, pos);
    DecodeStep(bs, pos, next, result);
  }

  // The outcome when `result` has been decoded up to pos.
  function DecodedFrom(bs: seq<Byte>, pos: nat, result: seq<Byte>): Result<seq<Byte>, Field>
    requires pos <= |bs|
  {
    Then(result, Decode(bs[pos..]))
  }

  lemma DecodedAll(bs: seq<Byte>, result: seq<Byte>)
    ensures DecodedFrom(bs, |bs|, result) == Ok(result)
  {
    assert bs[|bs|..] == [] && result + [] == result;
  }

  lemma DecodeStep(bs: seq<Byte>, pos: nat, next: Read, result: seq<Byte>)
    requires pos < |bs| && next == Next(bs[pos..])
    ensures !next.AtEnd?
    ensures next.Truncated? ==> DecodedFrom(bs, pos, result) == Err(next.field)
    ensures next.Record? ==>
              0 < next.size <= |bs| - pos
              && DecodedFrom(bs, pos, result) == DecodedFrom(bs, pos + next.size, result + next.content.Data)
  {
    if next.Record? {
      assert bs[pos..][next.size..] == bs[pos + next.size..];
      ThenThen(result, next.content.Data, Decode(bs[pos + next.size..]));
    }
  }

  // --------------------------------------------------------------- layout

  lemma DivideTwice(n: nat, p: nat)
    requires p >= 1
    ensures (n / 256) / p == n / (256 * p)
  {
    Quotient(n, 256);
    Quotient(n / 256, p);
    Quotient(n, 256 * p);
    Nested(p, n / 256, n % 256, (n / 256) / p, (n / 256) % p, n / (256 * p), n % (256 * p));
  }

  lemma Nested(p: nat, q: nat, r: nat, a: nat, b: nat, c: nat, t: nat)
    requires r < 256 && q == p * a + b && b < p
    requires 256 * q + r == (256 * p) * c + t && t < 256 * p
    ensures a == c
  {
    Regroup(p, a);
    QuotientUnique(256 * p, a, 256 * b + r, c, t);
  }

  lemma Regroup(p: nat, a: nat)
    ensures 256 * (p * a) == (256 * p) * a
  {
  }

  lemma Quotient(q: nat, p: nat)
    requires p >= 1
    ensures q == p * (q / p) + q % p && q % p < p && q / p >= 0
  {
  }

  lemma QuotientUnique(d: nat, a: nat, r: nat, b: nat, t: nat)
    requires d * a + r == d * b + t && r < d && t < d
    ensures a == b
  {
    if a < b { OneMore(d, a, b); }
    if b < a { OneMore(d, b, a); }
  }

  lemma OneMore(d: nat, a: nat, b: nat)
    requires a < b
    ensures d * b >= d * a + d
  {
    assert d * b == d * a + d * (b - a);
    assert d * (b - a) == d + d * (b - a - 1);
  }

  /** Byte i of an encoded integer is its digit i to the base 256, the lowest first. */
  lemma {:induction false} LittleEndianDigit(n: nat, k: nat, i: nat)
    requires i < k
    ensures LittleEndian(n, k)[i] == n / Pow256(i) % 256
  {
    if i == 0 {
      assert Pow256(0) == 1;
    } else {
      LittleEndianDigit(n / 256, k - 1, i - 1);
      DivideTwice(n, Pow256(i - 1));
    }
  }

  ghost predicate DigitsAt(bs: seq<Byte>, at: nat, k: nat, n: nat) {
    at + k <= |bs| && forall i: nat :: i < k ==> bs[at + i] == n / Pow256(i) % 256
  }

  lemma DigitsOf(bs: seq<Byte>, at: nat, k: nat, n: nat)
    requires at + k <= |bs| && bs[at..at + k] == LittleEndian(n, k)
    ensures DigitsAt(bs, at, k, n)
  {
    forall i: nat | i < k ensures bs[at + i] == n / Pow256(i) % 256 {
      assert bs[at..at + k][i] == bs[at + i];
      LittleEndianDigit(n, k, i);
    }
  }

  /** A timestamp as an unsigned 64-bit word. */
  function TwosComplement(i: Int64): nat {
    if i < 0 then 0x1_0000_0000_0000_0000 + i else i
  }

  /**
  On disk a record is its id, its timestamp and the low 32 bits of its length, each lowest
  byte first, its data, and a last byte that is 1 for an Eof and 0 otherwise.
  */
  lemma RecordLayout(c: Content)
    ensures var bs, n := Encode(c), |c.Data|;
            && |bs| == 21 + n
            && DigitsAt(bs, 0, 8, c.Id.Id)
            && DigitsAt(bs, 8, 8, TwosComplement(c.Id.TimeStamp))
            && DigitsAt(bs, 16, 4, n % 0x1_0000_0000)
            && bs[20..20 + n] == c.Data
            && bs[20 + n] == if c.Eof then 1 else 0
  {
    var bs := Encode(c);
    DigitsOf(bs, 0, 8, c.Id.Id);
    DigitsOf(bs, 8, 8, FromInt64(c.Id.TimeStamp));
    DigitsOf(bs, 16, 4, |c.Data| % TWO32);
  }

  // --------------------------------------------------------------- theorems

  lemma ThreeFields(a: seq<Byte>, b: seq<Byte>, c: seq<Byte>, bs: seq<Byte>)
    requires |a| == |b| && |bs| >= 2 * |a| + |c| && bs[..2 * |a| + |c|] == a + b + c
    ensures bs[0..|a|] == a && bs[|a|..2 * |a|] == b && bs[2 * |a|..2 * |a| + |c|] == c
  {
    var k, end := |a|, 2 * |a| + |c|;
    var head := bs[..end];
    assert head[0..k] == a && head[k..2 * k] == b && head[2 * k..] == c;
    assert bs[0..k] == head[0..k] && bs[k..2 * k] == head[k..2 * k] && bs[2 * k..end] == head[2 * k..];
  }

  // Two integers of k bytes and one of j; the sizes are parameters so that nothing is unrolled.
  lemma IntegersReadBack(a: nat, b: nat, c: nat, k: nat, j: nat, bs: seq<Byte>)
    requires a < Pow256(k) && b < Pow256(k) && c < Pow256(j) && |bs| >= 2 * k + j
    requires bs[..2 * k + j] == LittleEndian(a, k) + LittleEndian(b, k) + LittleEndian(c, j)
    ensures FromLittleEndian(bs[0..k]) == a && FromLittleEndian(bs[k..2 * k]) == b
    ensures FromLittleEndian(bs[2 * k..2 * k + j]) == c
  {
    ThreeFields(LittleEndian(a, k), LittleEndian(b, k), LittleEndian(c, j), bs);
    LittleEndianRoundTrip(a, k);
    LittleEndianRoundTrip(b, k);
    LittleEndianRoundTrip(c, j);
  }

  lemma HeaderReadsBack(handle: Handle, length: nat, bs: seq<Byte>)
    requires length < TWO32 && |bs| >= 20 && bs[..20] == Header(handle, length)
    ensures Uint64At(bs, 0) == handle.Id && ToInt64(Uint64At(bs, 8)) == handle.TimeStamp
    ensures FromLittleEndian(bs[16..20]) == length
  {
    WordSizes();
    IntegersReadBack(handle.Id, FromInt64(handle.TimeStamp), length, 8, 4, bs);
  }

  lemma {:induction false} LittleEndianInverse(s: seq<Byte>)
    ensures LittleEndian(FromLittleEndian(s), |s|) == s
  {
    if s != [] {
      LittleEndianInverse(s[1..]);
      var rest := FromLittleEndian(s[1..]);
      assert FromLittleEndian(s) / 256 == rest && FromLittleEndian(s) % 256 == s[0];
    }
  }

  lemma ReadsDigits(bs: seq<Byte>, at: nat, k: nat)
    requires at + k <= |bs|
    ensures DigitsAt(bs, at, k, FromLittleEndian(bs[at..at + k]))
  {
    LittleEndianInverse(bs[at..at + k]);
    DigitsOf(bs, at, k, FromLittleEndian(bs[at..at + k]));
  }

  /** The integers of c lowest byte first, its data, and a last byte that is not 0 for an Eof. */
  ghost predicate LaidOut(bs: seq<Byte>, c: Content) {
    && |bs| >= 21 + |c.Data|
    && DigitsAt(bs, 0, 8, c.Id.Id)
    && DigitsAt(bs, 8, 8, TwosComplement(c.Id.TimeStamp))
    && DigitsAt(bs, 16, 4, |c.Data|)
    && bs[20..20 + |c.Data|] == c.Data
    && (c.Eof <==> bs[20 + |c.Data|] != 0)
  }

  lemma FieldsLaidOut(bs: seq<Byte>, c: Content, id: Uint64, stamp: Uint64)
    requires |bs| >= 21 + |c.Data| && |c.Data| == FromLittleEndian(bs[16..20])
    requires id == FromLittleEndian(bs[0..8]) && stamp == FromLittleEndian(bs[8..16])
    requires c.Id == Handle(id, ToInt64(stamp))
    requires bs[20..20 + |c.Data|] == c.Data && (c.Eof <==> bs[20 + |c.Data|] != 0)
    ensures LaidOut(bs, c)
  {
    ReadsDigits(bs, 0, 8);
    ReadsDigits(bs, 8, 8);
    ReadsDigits(bs, 16, 4);
    assert TwosComplement(c.Id.TimeStamp) == stamp;
  }

  /** Whatever the bytes, the record read is the one they lay out. */
  lemma ReadLayout(bs: seq<Byte>)
    requires Next(bs).Record?
    ensures Next(bs).size == 21 + |Next(bs).content.Data| && LaidOut(bs, Next(bs).content)
  {
    FieldsLaidOut(bs, Next(bs).content, Uint64At(bs, 0), Uint64At(bs, 8));
  }

  lemma NextOfEncode(c: Content, rest: seq<Byte>)
    requires Fits(c)
    ensures Next(Encode(c) + rest) == Record(c, |Encode(c)|)
  {
    var bs := Encode(c) + rest;
    var n := |c.Data|;
    assert bs[..20] == Header(c.Id, n);
    HeaderReadsBack(c.Id, n, bs);
    assert bs[20..20 + n] == c.Data;
    assert bs[20 + n] == if c.Eof then 1 else 0;
  }

  /** The field of a record in which its first k bytes stop. */
  function StoppedIn(c: Content, k: nat): Field {
    if k < 8 then IdField
    else if k < 16 then TimestampField
    else if k < 20 then LengthField
    else if k < 20 + |c.Data| then DataField
    else EofField
  }

  lemma NextOfPartialRecord(c: Content, k: nat)
    requires Fits(c) && 0 < k < |Encode(c)|
    ensures Next(Encode(c)[..k]) == Truncated(StoppedIn(c, k))
  {
    var bs := Encode(c)[..k];
    if k >= 20 {
      assert bs[..20] == Header(c.Id, |c.Data|);
      HeaderReadsBack(c.Id, |c.Data|, bs);
    }
  }

  lemma ReadStep(c: Content, rest: seq<Byte>)
    requires Fits(c)
    ensures Parse(Encode(c) + rest) == [c] + Parse(rest)
    ensures Decode(Encode(c) + rest) ==
              Then(c.Data, Decode(rest))
  {
    NextOfEncode(c, rest);
    assert (Encode(c) + rest)[|Encode(c)|..] == rest;
  }

  lemma EncodeSplit(rs: seq<Content>, rest: seq<Byte>)
    requires rs != []
    ensures EncodeAll(rs) + rest == Encode(rs[0]) + (EncodeAll(rs[1..]) + rest)
  {
  }

  lemma ConsAppend<A>(s: seq<A>, t: seq<A>)
    requires s != []
    ensures [s[0]] + (s[1..] + t) == s + t
  {
  }

  /** Records before any bytes are read back, and reading goes on after them. */
  lemma {:induction false} ParseAppend(rs: seq<Content>, rest: seq<Byte>)
    requires AllFit(rs)
    ensures Parse(EncodeAll(rs) + rest) == rs + Parse(rest)
    ensures Decode(EncodeAll(rs) + rest) == Then(Payload(rs), Decode(rest))
  {
    if rs == [] {
      EmptyLeft(rest);
      EmptyLeft(Parse(rest));
      ThenThen([], [], Decode(rest));
    } else {
      EncodeSplit(rs, rest);
      ParseAppend(rs[1..], rest);
      ParseOneMore(rs, rest, EncodeAll(rs[1..]) + rest, EncodeAll(rs) + rest);
    }
  }

  lemma EmptyLeft<A>(s: seq<A>)
    ensures [] + s == s
  {
  }

  lemma ParseOneMore(rs: seq<Content>, rest: seq<Byte>, tail: seq<Byte>, bs: seq<Byte>)
    requires rs != [] && Fits(rs[0]) && bs == Encode(rs[0]) + tail
    requires Parse(tail) == rs[1..] + Parse(rest) && Decode(tail) == Then(Payload(rs[1..]), Decode(rest))
    ensures Parse(bs) == rs + Parse(rest) && Decode(bs) == Then(Payload(rs), Decode(rest))
  {
    ReadStep(rs[0], tail);
    ThenThen(rs[0].Data, Payload(rs[1..]), Decode(rest));
    ConsAppend(rs, Parse(rest));
  }

  /** Replay over an encoded list gives that list back exactly when no length was cut. */
  lemma ReplayRoundTripIff(rs: seq<Content>)
    ensures Parse(EncodeAll(rs)) == rs <==> AllFit(rs)
  {
    if AllFit(rs) {
      ParseAppend(rs, []);
      assert EncodeAll(rs) + [] == EncodeAll(rs);
    }
  }

  /** Decoding an encoded list gives the concatenated data. */
  lemma DecodeRoundTrip(rs: seq<Content>)
    requires AllFit(rs)
    ensures Decode(EncodeAll(rs)) == Ok(Payload(rs))
  {
    ParseAppend(rs, []);
    assert EncodeAll(rs) + [] == EncodeAll(rs);
    assert Payload(rs) + [] == Payload(rs);
  }

  /** How many of the records lie wholly within the first k bytes. */
  function WholeRecords(rs: seq<Content>, k: nat): (n: nat)
    ensures n <= |rs|
  {
    if rs == [] || k < |Encode(rs[0])| then 0
    else 1 + WholeRecords(rs[1..], k - |Encode(rs[0])|)
  }

  /**
  A file cut anywhere, as a crash during an append leaves it: replay visits exactly the whole
  records, and the decoder succeeds exactly when the cut is at a record boundary, with the
  data of those records, and otherwise names the field the cut falls in.
  */
  lemma {:induction false} CutFile(rs: seq<Content>, k: nat)
    requires AllFit(rs) && k <= |EncodeAll(rs)|
    ensures CutAt(rs, EncodeAll(rs)[..k], WholeRecords(rs, k))
  {
    var cut := EncodeAll(rs)[..k];
    if k == 0 {
      CutAtNothing(rs, cut);
    } else if k < |Encode(rs[0])| {
      NextOfPartialRecord(rs[0], k);
      CutWithin(rs, k);
      CutAtNothing(rs, cut);
    } else {
      var j := k - |Encode(rs[0])|;
      CutBehind(rs, k);
      CutFile(rs[1..], j);
      CutCons(rs, cut, EncodeAll(rs[1..])[..j], WholeRecords(rs, k));
    }
  }

  lemma CutWithin(rs: seq<Content>, k: nat)
    requires rs != [] && k < |Encode(rs[0])|
    ensures EncodeAll(rs)[..k] == Encode(rs[0])[..k]
  {
  }

  lemma CutBehind(rs: seq<Content>, k: nat)
    requires rs != [] && |Encode(rs[0])| <= k <= |EncodeAll(rs)|
    ensures EncodeAll(rs)[..k] == Encode(rs[0]) + EncodeAll(rs[1..])[..k - |Encode(rs[0])|]
  {
  }

  /** What the two readers make of a cut file with n whole records. */
  ghost predicate CutAt(rs: seq<Content>, cut: seq<Byte>, n: nat)
    requires n <= |rs|
  {
    && Parse(cut) == rs[..n]
    && DecodesAs(rs, cut, n, |cut| - |EncodeAll(rs[..n])|)
  }

  /** The cut is `over` bytes past its last whole record: none, or some of record n. */
  ghost predicate DecodesAs(rs: seq<Content>, cut: seq<Byte>, n: nat, over: int)
    requires n <= |rs|
  {
    && over >= 0
    && (over == 0 ==> Decode(cut) == Ok(Payload(rs[..n])))
    && (over > 0 ==> n < |rs| && Decode(cut) == Err(StoppedIn(rs[n], over)))
  }

  lemma CutAtNothing(rs: seq<Content>, cut: seq<Byte>)
    requires cut == [] || (rs != [] && Next(cut) == Truncated(StoppedIn(rs[0], |cut|)))
    ensures CutAt(rs, cut, 0)
  {
    assert rs[..0] == [];
  }

  lemma CutCons(rs: seq<Content>, cut: seq<Byte>, tail: seq<Byte>, n: nat)
    requires 0 < n <= |rs| && Fits(rs[0]) && cut == Encode(rs[0]) + tail
    requires CutAt(rs[1..], tail, n - 1)
    ensures CutAt(rs, cut, n)
  {
    ReadStep(rs[0], tail);
    ConsTake(rs, n);
  }

  lemma ConsTake(rs: seq<Content>, n: nat)
    requires 0 < n <= |rs|
    ensures rs[..n] == [rs[0]] + rs[1..][..n - 1]
    ensures EncodeAll(rs[..n]) == Encode(rs[0]) + EncodeAll(rs[1..][..n - 1])
    ensures Payload(rs[..n]) == rs[0].Data + Payload(rs[1..][..n - 1])
  {
    assert rs[..n][1..] == rs[1..][..n - 1];
  }

  lemma {:induction false} EncodeAllAppend(a: seq<Content>, b: seq<Content>)
    ensures EncodeAll(a + b) == EncodeAll(a) + EncodeAll(b)
  {
    if a == [] {
      assert a + b == b;
    } else {
      assert (a + b)[1..] == a[1..] + b;
      EncodeAllAppend(a[1..], b);
    }
  }

  lemma {:induction false} PayloadAppend(a: seq<Content>, b: seq<Content>)
    ensures Payload(a + b) == Payload(a) + Payload(b)
  {
    if a == [] {
      assert a + b == b;
    } else {
      assert (a + b)[1..] == a[1..] + b;
      PayloadAppend(a[1..], b);
    }
  }

  // ---------------------------------------------- the uploaded-handles registry

  datatype RegistryEntry = RegistryEntry(handle: Handle, uploadedAt: Int64)

  function EncodeMark(m: RegistryEntry): (bs: seq<Byte>)
    ensures |bs| == 24
  {
    LittleEndian(m.handle.Id, 8) + LittleEndian(FromInt64(m.handle.TimeStamp), 8)
        + LittleEndian(FromInt64(m.uploadedAt), 8)
  }

  function EncodeMarks(ms: seq<RegistryEntry>): (bs: seq<Byte>)
    ensures |bs| == 24 * |ms|
  {
    if ms == [] then [] else EncodeMark(ms[0]) + EncodeMarks(ms[1..])
  }

  function MarkAt(bs: seq<Byte>, pos: nat): RegistryEntry
    requires pos + 24 <= |bs|
  {
    RegistryEntry(Handle(Uint64At(bs, pos), ToInt64(Uint64At(bs, pos + 8))), ToInt64(Uint64At(bs, pos + 16)))
  }

  /** The entries a load reads: the whole ones. */
  function Marks(bs: seq<Byte>): seq<RegistryEntry>
    decreases |bs|
  {
    if |bs| < 24 then [] else [MarkAt(bs, 0)] + Marks(bs[24..])
  }

  lemma MarkReadsBack(m: RegistryEntry, bs: seq<Byte>)
    requires |bs| >= 24 && bs[..24] == EncodeMark(m)
    ensures MarkAt(bs, 0) == m
  {
    WordSizes();
    IntegersReadBack(m.handle.Id, FromInt64(m.handle.TimeStamp), FromInt64(m.uploadedAt), 8, 8, bs);
  }

  /** A registry entry is the id, the timestamp and the upload time, each lowest byte first. */
  lemma MarkLayout(m: RegistryEntry)
    ensures var bs := EncodeMark(m);
            && |bs| == 24
            && DigitsAt(bs, 0, 8, m.handle.Id)
            && DigitsAt(bs, 8, 8, TwosComplement(m.handle.TimeStamp))
            && DigitsAt(bs, 16, 8, TwosComplement(m.uploadedAt))
  {
    var bs := EncodeMark(m);
    DigitsOf(bs, 0, 8, m.handle.Id);
    DigitsOf(bs, 8, 8, FromInt64(m.handle.TimeStamp));
    DigitsOf(bs, 16, 8, FromInt64(m.uploadedAt));
  }

  /** A registry file cut anywhere: exactly the whole entries are read back. */
  lemma {:induction false} CutRegistry(ms: seq<RegistryEntry>, k: nat)
    requires k <= |EncodeMarks(ms)|
    ensures Marks(EncodeMarks(ms)[..k]) == ms[..k / 24]
  {
    var cut := EncodeMarks(ms)[..k];
    if k >= 24 {
      var more := EncodeMarks(ms[1..]);
      assert EncodeMarks(ms) == EncodeMark(ms[0]) + more;
      assert cut[..24] == EncodeMark(ms[0]) && cut[24..] == more[..k - 24];
      MarkReadsBack(ms[0], cut);
      CutRegistry(ms[1..], k - 24);
      assert ms[..k / 24] == [ms[0]] + ms[1..][..(k - 24) / 24];
    }
  }

  /** A saved registry file reads back as what was saved. */
  lemma RegistryRoundTrip(ms: seq<RegistryEntry>)
    ensures Marks(EncodeMarks(ms)) == ms
  {
    CutRegistry(ms, 24 * |ms|);
    assert EncodeMarks(ms)[..24 * |ms|] == EncodeMarks(ms);
    assert ms[..|ms|] == ms;
  }

  lemma {:induction false} EncodeMarksSnoc(ms: seq<RegistryEntry>, m: RegistryEntry)
    ensures EncodeMarks(ms + [m]) == EncodeMarks(ms) + EncodeMark(m)
  {
    if ms == [] {
      assert [m][1..] == [];
    } else {
      assert (ms + [m])[1..] == ms[1..] + [m];
      EncodeMarksSnoc(ms[1..], m);
    }
  }

  /** Entries as a table; a later entry of a handle replaces an earlier one. */
  function Table(ms: seq<RegistryEntry>): map<Handle, Int64> {
    if ms == [] then map[]
    else
      var last := ms[|ms| - 1];
      Table(ms[..|ms| - 1])[last.handle := last.uploadedAt]
  }

  /** What a registry file says. */
  function RegistryOf(bs: seq<Byte>): map<Handle, Int64> {
    Table(Marks(bs))
  }

  ghost predicate DistinctHandles(ms: seq<RegistryEntry>) {
    forall i, j :: 0 <= i < j < |ms| ==> ms[i].handle != ms[j].handle
  }

  lemma {:induction false} TableKeys(ms: seq<RegistryEntry>, h: Handle)
    ensures h in Table(ms) <==> exists i :: 0 <= i < |ms| && ms[i].handle == h
  {
    if ms != [] {
      var front, last := ms[..|ms| - 1], ms[|ms| - 1];
      TableKeys(front, h);
      if i :| 0 <= i < |front| && front[i].handle == h {
        assert ms[i].handle == h;
      }
      if i :| 0 <= i < |ms| && ms[i].handle == h {
        if i < |front| { assert front[i].handle == h; }
      }
    }
  }

  lemma TableSnoc(ms: seq<RegistryEntry>, m: RegistryEntry)
    ensures Table(ms + [m]) == Table(ms)[m.handle := m.uploadedAt]
    ensures DistinctHandles(ms) && m.handle !in Table(ms) ==> DistinctHandles(ms + [m])
    ensures DistinctHandles(ms + [m]) ==> m.handle !in Table(ms)
  {
    assert (ms + [m])[..|ms|] == ms && (ms + [m])[|ms|] == m;
    TableKeys(ms, m.handle);
    if m.handle in Table(ms) {
      var i :| 0 <= i < |ms| && ms[i].handle == m.handle;
      assert (ms + [m])[i].handle == m.handle;
    }
  }

  lemma MarksStep(bs: seq<Byte>, pos: nat)
    requires pos + 24 <= |bs|
    ensures Marks(bs[pos..]) == [MarkAt(bs, pos)] + Marks(bs[pos + 24..])
  {
    var here := bs[pos..];
    assert here[24..] == bs[pos + 24..];
    assert here[0..8] == bs[pos..pos + 8] && here[8..16] == bs[pos + 8..pos + 16]
        && here[16..24] == bs[pos + 16..pos + 24];
  }
}
