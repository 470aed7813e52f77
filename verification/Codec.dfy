/**
 The length-prefixed protobuf codec on top of the network buffer.

   | len | nameLen | name | 0 | protobuf data | adler32 |

 `len` counts everything after itself. The main results: whatever way the stream is cut
 into chunks, parsing delivers the same messages, stops at the same first error and keeps
 the same remainder as parsing it in one piece; a stream of encoded messages is delivered
 exactly; and a damaged frame is reported.
 */
module ProtobufCodec {
  import opened Bytes
  import opened Adler
  import opened Framing
  import opened NetBuffer
  import opened Options

  datatype ErrorCode = InvalidLength | CheckSumError | InvalidNameLen | UnknownMessageType | ParseError

  const HEADER_LEN: int := 4
  const NAMELEN_LEN: int := 4
  const CHECKSUM_LEN: int := 4
  const MIN_MESSAGE_LEN: int := HEADER_LEN + 2 + CHECKSUM_LEN
  const MAX_MESSAGE_LEN: int := 64 * 1024 * 1024

  /** A registered message type. `parse` is ParseFromArray on a real range;
      `parseNegative` is whatever ParseFromArray does with a negative length, which the
      name-length check lets through. It is taken to depend on nothing behind the frame. */
  datatype Descriptor<!M> = Descriptor(parse: seq<Byte> -> Option<M>,
                                       parseNegative: (seq<Byte>, int) -> Option<M>)

  /** The generated protobuf code: names, serialisation and the descriptor pool. */
  datatype Schema<!M> = Schema(typeName: M -> seq<Byte>,
                               serialize: M -> seq<Byte>,
                               pool: map<seq<Byte>, Descriptor<M>>)

  // ---------------------------------------------------------------------------
  // Frames
  // ---------------------------------------------------------------------------

  /** Everything the checksum covers: name length, zero-terminated name and data. */
  function Covered<M>(schema: Schema<M>, m: M): (bs: seq<Byte>)
    ensures |bs| == NAMELEN_LEN + |schema.typeName(m)| + 1 + |schema.serialize(m)|
  {
    EncodeInt32(|schema.typeName(m)| + 1) + schema.typeName(m) + [0] + schema.serialize(m)
  }

  /** A frame after its length header. */
  function FrameBody<M>(schema: Schema<M>, m: M): (bs: seq<Byte>)
    ensures |bs| == |Covered(schema, m)| + CHECKSUM_LEN
  {
    Covered(schema, m) + EncodeInt32(ToInt32(Adler32(Covered(schema, m))))
  }

  function Frame<M>(schema: Schema<M>, m: M): (bs: seq<Byte>)
    ensures |bs| == HEADER_LEN + |FrameBody(schema, m)|
  {
    EncodeInt32(|FrameBody(schema, m)|) + FrameBody(schema, m)
  }

  /** The parts of a frame, by position. */
  lemma {:induction false} FrameLayout<M>(schema: Schema<M>, m: M)
    ensures var f, name, data := Frame(schema, m), schema.typeName(m), schema.serialize(m);
            && |f| == 4 + 4 + |name| + 1 + |data| + 4
            && f[0..4] == EncodeInt32(|f| - 4)
            && f[4..8] == EncodeInt32(|name| + 1)
            && f[8..8 + |name|] == name && f[8 + |name|] == 0 && f[9 + |name|..|f| - 4] == data
            && f[4..|f| - 4] == Covered(schema, m)
            && f[|f| - 4..|f|] == EncodeInt32(ToInt32(Adler32(f[4..|f| - 4])))
  {
    var f, name, data, covered := Frame(schema, m), schema.typeName(m), schema.serialize(m), Covered(schema, m);
    assert f[4..] == FrameBody(schema, m);
    assert f[4..|f| - 4] == covered;
    assert covered[0..4] == EncodeInt32(|name| + 1) && covered[4..4 + |name|] == name;
    assert covered[4 + |name|] == 0 && covered[5 + |name|..] == data;
  }

  /** The checksum on the wire: the weighted sum before the plain one, each as two bytes. */
  lemma {:induction false} ChecksumOnWire(covered: seq<Byte>)
    ensures var bs := EncodeInt32(ToInt32(Adler32(covered)));
            && Pair(bs[0], bs[1]) == (|covered| + Weighted(covered)) % 65521
            && Pair(bs[2], bs[3]) == (1 + Total(covered)) % 65521
  {
    EncodeCast(Adler32(covered));
    HalvesOnWire(Adler32(covered));
    AdlerHalves(covered);
  }

  lemma {:induction false} WordAt(f: seq<Byte>, at: nat, x: int)
    requires at + 4 <= |f| && 0 <= x < TWO_32 && f[at..at + 4] == EncodeInt32(x)
    ensures Word(f[at], f[at + 1], f[at + 2], f[at + 3]) == x
  {
    MostSignificantFirst(x);
    var bs := f[at..at + 4];
    assert bs[0] == f[at] && bs[1] == f[at + 1] && bs[2] == f[at + 2] && bs[3] == f[at + 3];
  }

  lemma {:induction false} ChecksumAt(f: seq<Byte>, at: nat, covered: seq<Byte>)
    requires at + 4 <= |f| && f[at..at + 4] == EncodeInt32(ToInt32(Adler32(covered)))
    ensures Pair(f[at], f[at + 1]) == (|covered| + Weighted(covered)) % 65521
    ensures Pair(f[at + 2], f[at + 3]) == (1 + Total(covered)) % 65521
  {
    ChecksumOnWire(covered);
    var bs := f[at..at + 4];
    assert bs[0] == f[at] && bs[1] == f[at + 1] && bs[2] == f[at + 2] && bs[3] == f[at + 3];
  }

  /** The bytes of a frame: a big-endian length, a big-endian name length, the name and its zero,
      the data, and the checksum with the weighted sum before the plain one. */
  lemma {:induction false} FrameOnWire<M>(schema: Schema<M>, m: M)
    requires IsInt32(|FrameBody(schema, m)|)
    ensures var f, name, data := Frame(schema, m), schema.typeName(m), schema.serialize(m);
            && |f| == 4 + 4 + |name| + 1 + |data| + 4
            && Word(f[0], f[1], f[2], f[3]) == |f| - 4
            && Word(f[4], f[5], f[6], f[7]) == |name| + 1
            && f[8..8 + |name|] == name && f[8 + |name|] == 0 && f[9 + |name|..|f| - 4] == data
            && Pair(f[|f| - 4], f[|f| - 3]) == (|f| - 8 + Weighted(f[4..|f| - 4])) % 65521
            && Pair(f[|f| - 2], f[|f| - 1]) == (1 + Total(f[4..|f| - 4])) % 65521
  {
    FrameLayout(schema, m);
    Wire(Frame(schema, m), |schema.typeName(m)|);
  }

  lemma {:induction false} Wire(f: seq<Byte>, nameLen: nat)
    requires 12 <= |f| < TWO_32 && nameLen + 1 < TWO_32
    requires f[0..4] == EncodeInt32(|f| - 4) && f[4..8] == EncodeInt32(nameLen + 1)
    requires f[|f| - 4..|f|] == EncodeInt32(ToInt32(Adler32(f[4..|f| - 4])))
    ensures Word(f[0], f[1], f[2], f[3]) == |f| - 4 && Word(f[4], f[5], f[6], f[7]) == nameLen + 1
    ensures Pair(f[|f| - 4], f[|f| - 3]) == (|f| - 8 + Weighted(f[4..|f| - 4])) % 65521
    ensures Pair(f[|f| - 2], f[|f| - 1]) == (1 + Total(f[4..|f| - 4])) % 65521
  {
    WordAt(f, 0, |f| - 4);
    WordAt(f, 4, nameLen + 1);
    ChecksumAt(f, |f| - 4, f[4..|f| - 4]);
  }

  /** What the peer must respect for a message to get through: a registered, non-empty type
      name whose parser undoes the serialiser, and a frame within the limit. */
  ghost predicate Deliverable<M(!new)>(schema: Schema<M>, m: M) {
    var name := schema.typeName(m);
    && name != []
    && name in schema.pool
    && schema.pool[name].parse(schema.serialize(m)) == Some(m)
    && |FrameBody(schema, m)| <= 67108864
  }

  /** Serialises straight into the room behind the writer index. */
  method AppendSerialized(buf: Buffer, serialized: seq<Byte>)
    requires buf.Valid()
    requires buf.readerIndex == CHEAP_PREPEND
    modifies buf, buf.data
    ensures buf.Valid()
    ensures buf.data == old(buf.data) || fresh(buf.data)
    ensures buf.Contents() == old(buf.Contents()) + serialized
    ensures buf.readerIndex == CHEAP_PREPEND
  {
    var byteSize := |serialized|;
    buf.EnsureWritableBytes(byteSize);
    buf.WriteAtEnd(serialized);
    buf.HasWritten(byteSize);
  }

  /** Name length and zero-terminated name. */
  method AppendName(buf: Buffer, typeName: seq<Byte>)
    requires buf.Valid()
    requires buf.ReadableBytes() == 0
    requires IsInt32(|typeName| + 1)
    modifies buf, buf.data
    ensures buf.Valid()
    ensures buf.data == old(buf.data) || fresh(buf.data)
    ensures buf.Contents() == EncodeInt32(|typeName| + 1) + (typeName + [0])
    ensures buf.readerIndex == CHEAP_PREPEND
  {
    var nameLen := ToInt32(|typeName| + 1);
    buf.AppendInt32(nameLen);
    assert buf.Contents() == EncodeInt32(nameLen);
    buf.Append(typeName + [0]);
  }

  lemma {:induction false} CoveredParts<M>(schema: Schema<M>, m: M)
    ensures EncodeInt32(|schema.typeName(m)| + 1) + (schema.typeName(m) + [0]) + schema.serialize(m) == Covered(schema, m)
  {
    var a, b, c := EncodeInt32(|schema.typeName(m)| + 1), schema.typeName(m), [0 as Byte];
    assert a + (b + c) == a + b + c;
  }

  /** The part of a frame that the checksum covers. */
  method AppendCovered<M>(schema: Schema<M>, buf: Buffer, message: M)
    requires buf.Valid()
    requires buf.ReadableBytes() == 0
    requires IsInt32(|schema.typeName(message)| + 1)
    modifies buf, buf.data
    ensures buf.Valid()
    ensures buf.data == old(buf.data) || fresh(buf.data)
    ensures buf.Contents() == Covered(schema, message)
    ensures buf.readerIndex == CHEAP_PREPEND
  {
    AppendName(buf, schema.typeName(message));
    AppendSerialized(buf, schema.serialize(message));
    CoveredParts(schema, message);
  }

  /** Writes one frame into an empty buffer. The header is prepended last, into room that
      an empty buffer always has. */
  method FillEmptyBuffer<M>(schema: Schema<M>, buf: Buffer, message: M)
    requires buf.Valid()
    requires buf.ReadableBytes() == 0
    requires IsInt32(|Covered(schema, message)|)
    modifies buf, buf.data
    ensures buf.Valid()
    ensures buf.data == old(buf.data) || fresh(buf.data)
    ensures buf.Contents() == Frame(schema, message)
  {
    AppendCovered(schema, buf, message);
    var checkSum := ToInt32(Adler32(buf.Peek(0, buf.ReadableBytes())));
    buf.AppendInt32(checkSum);
    assert buf.Contents() == FrameBody(schema, message);
    var len := ToInt32(buf.ReadableBytes());
    EncodeCast(buf.ReadableBytes());
    buf.Prepend(EncodeInt32(len));
  }

  // ---------------------------------------------------------------------------
  // Parsing one frame
  // ---------------------------------------------------------------------------

  datatype ParseResult<+M> = Parsed(message: M) | Rejected(error: ErrorCode)

  function AsInt32(bs: seq<Byte>, at: int): int
    requires 0 <= at <= |bs| - 4
  {
    DecodeInt32(bs[at..at + 4])
  }

  /** Parse(buf, len, &error) on the `len` bytes after the header. */
  function Parse<M>(schema: Schema<M>, body: seq<Byte>): (r: ParseResult<M>)
    requires |body| >= MIN_MESSAGE_LEN
  {
    var len := |body|;
    var expectedCheckSum := AsInt32(body, len - CHECKSUM_LEN);
    var checkSum := ToInt32(Adler32(body[..len - CHECKSUM_LEN]));
    if checkSum == expectedCheckSum then
      var nameLen := AsInt32(body, 0);
      if 2 <= nameLen <= len - CHECKSUM_LEN then
        var typeName := body[NAMELEN_LEN..NAMELEN_LEN + nameLen - 1];
        if typeName in schema.pool then
          var dataLen := len - nameLen - NAMELEN_LEN - CHECKSUM_LEN;
          var message :=
            if dataLen >= 0 then
              schema.pool[typeName].parse(body[NAMELEN_LEN + nameLen..NAMELEN_LEN + nameLen + dataLen])
            else
              schema.pool[typeName].parseNegative(body, dataLen);
          if message.Some? then Parsed(message.value) else Rejected(ParseError)
        else
          Rejected(UnknownMessageType)
      else
        Rejected(InvalidNameLen)
    else
      Rejected(CheckSumError)
  }

  /** What becomes of a named message: each obligation that it misses has its own error. */
  function Verdict<M>(schema: Schema<M>, name: seq<Byte>, data: seq<Byte>): ParseResult<M> {
    if name == [] then Rejected(InvalidNameLen)
    else if name !in schema.pool then Rejected(UnknownMessageType)
    else
      match schema.pool[name].parse(data)
      case Some(m) => Parsed(m)
      case None => Rejected(ParseError)
  }

  /** What becomes of a frame whose length field is sound. */
  function BodyVerdict<M>(schema: Schema<M>, m: M): ParseResult<M> {
    Verdict(schema, schema.typeName(m), schema.serialize(m))
  }

  /** Where Parse finds the parts of a frame. */
  lemma {:induction false} BodyParts<M>(schema: Schema<M>, m: M)
    ensures var name, body := schema.typeName(m), FrameBody(schema, m);
            && body[..|body| - 4] == Covered(schema, m)
            && body[|body| - 4..|body|] == EncodeInt32(ToInt32(Adler32(Covered(schema, m))))
            && body[0..4] == EncodeInt32(|name| + 1)
            && body[4..4 + |name|] == name
            && body[4 + |name| + 1..|body| - 4] == schema.serialize(m)
  {
  }

  /** The same parts, decoded. */
  lemma {:induction false} BodyFields<M>(schema: Schema<M>, m: M)
    requires |FrameBody(schema, m)| < TWO_31
    ensures var name, body := schema.typeName(m), FrameBody(schema, m);
            && ToInt32(Adler32(body[..|body| - CHECKSUM_LEN])) == AsInt32(body, |body| - CHECKSUM_LEN)
            && AsInt32(body, 0) == |name| + 1
            && body[NAMELEN_LEN..NAMELEN_LEN + |name|] == name
            && body[NAMELEN_LEN + |name| + 1..|body| - CHECKSUM_LEN] == schema.serialize(m)
  {
    BodyParts(schema, m);
    DecodeEncode(ToInt32(Adler32(Covered(schema, m))));
    DecodeEncode(|schema.typeName(m)| + 1);
  }

  /** Parsing undoes framing, and says what is wrong when it cannot. */
  lemma {:induction false} ParseFrame<M>(schema: Schema<M>, m: M)
    requires MIN_MESSAGE_LEN <= |FrameBody(schema, m)| < TWO_31
    ensures Parse(schema, FrameBody(schema, m)) == BodyVerdict(schema, m)
  {
    BodyFields(schema, m);
  }

  // ---------------------------------------------------------------------------
  // Damaged frames
  // ---------------------------------------------------------------------------

  /** The checksum test alone decides whether a body is reported as damaged. */
  predicate ChecksumHolds(body: seq<Byte>)
    requires |body| >= CHECKSUM_LEN
  {
    ToInt32(Adler32(body[..|body| - CHECKSUM_LEN])) == AsInt32(body, |body| - CHECKSUM_LEN)
  }

  /** A name length, a name, any byte and data, closed with their checksum. */
  function Sealed(name: seq<Byte>, pad: Byte, data: seq<Byte>): (body: seq<Byte>)
    ensures |body| == 4 + |name| + 1 + |data| + 4
  {
    var covered := EncodeInt32(|name| + 1) + name + [pad] + data;
    covered + EncodeInt32(ToInt32(Adler32(covered)))
  }

  lemma {:induction false} TakeApart(body: seq<Byte>, n: int)
    requires 2 <= n <= |body| - 8 && n == AsInt32(body, 0) && ChecksumHolds(body)
    ensures body == Sealed(body[4..3 + n], body[3 + n], body[4 + n..|body| - 4])
  {
    var name, data, covered := body[4..3 + n], body[4 + n..|body| - 4], body[..|body| - 4];
    EncodeDecode(body[0..4]);
    EncodeDecode(body[|body| - 4..|body| - 4 + 4]);
    assert covered == body[0..4] + name + [body[3 + n]] + data;
    assert body == covered + body[|body| - 4..|body| - 4 + 4];
  }

  /** The right verdict on a body. The first four bytes are the length n of a name with a
      terminator that is not looked at; a message is exactly what is sealed with its checksum.
      Only a name that runs into the checksum is left to the message's parser with a negative
      length. */
  predicate Judged<M(==)>(schema: Schema<M>, body: seq<Byte>, r: ParseResult<M>)
    requires |body| >= 10
  {
    var n := AsInt32(body, 0);
    if !ChecksumHolds(body) then r == Rejected(CheckSumError)
    else if n < 2 || n > |body| - 4 then r == Rejected(InvalidNameLen)
    else if n <= |body| - 8 then
      && body == Sealed(body[4..3 + n], body[3 + n], body[4 + n..|body| - 4])
      && r == Verdict(schema, body[4..3 + n], body[4 + n..|body| - 4])
    else if body[4..3 + n] !in schema.pool then r == Rejected(UnknownMessageType)
    else
      match schema.pool[body[4..3 + n]].parseNegative(body, |body| - 8 - n)
      case Some(m) => r == Parsed(m)
      case None => r == Rejected(ParseError)
  }

  lemma {:induction false} JudgedNamed<M>(schema: Schema<M>, body: seq<Byte>, n: int, r: ParseResult<M>)
    requires |body| >= 10 && ChecksumHolds(body) && n == AsInt32(body, 0) && 2 <= n <= |body| - 8
    requires r == Verdict(schema, body[4..3 + n], body[4 + n..|body| - 4])
    ensures Judged(schema, body, r)
  {
    TakeApart(body, n);
  }

  lemma {:induction false} ParseUnnamed<M>(schema: Schema<M>, body: seq<Byte>)
    requires |body| >= 10
    requires !ChecksumHolds(body) || !(2 <= AsInt32(body, 0) <= |body| - 4)
    ensures Judged(schema, body, Parse(schema, body))
  {
  }

  /** What Parse does with every body, built by a peer or not. */
  lemma {:induction false} ParseExact<M>(schema: Schema<M>, body: seq<Byte>)
    requires |body| >= 10
    ensures Judged(schema, body, Parse(schema, body))
  {
    var n := AsInt32(body, 0);
    if !ChecksumHolds(body) || !(2 <= n <= |body| - 4) {
      ParseUnnamed(schema, body);
    } else if n <= |body| - 8 {
      ParseNamed(schema, body, n);
      JudgedNamed(schema, body, n, Parse(schema, body));
    } else {
      ParseOverlong(schema, body, n);
    }
  }

  lemma {:induction false} ParseNamed<M>(schema: Schema<M>, body: seq<Byte>, n: int)
    requires |body| >= 10 && ChecksumHolds(body) && n == AsInt32(body, 0) && 2 <= n <= |body| - 8
    ensures Parse(schema, body) == Verdict(schema, body[4..3 + n], body[4 + n..|body| - 4])
  {
    assert body[4..4 + n - 1] == body[4..3 + n];
    assert body[4 + n..4 + n + (|body| - n - 4 - 4)] == body[4 + n..|body| - 4];
  }

  lemma {:induction false} ParseOverlong<M>(schema: Schema<M>, body: seq<Byte>, n: int)
    requires |body| >= 10 && ChecksumHolds(body) && n == AsInt32(body, 0) && |body| - 8 < n <= |body| - 4 && n >= 2
    ensures Judged(schema, body, Parse(schema, body))
  {
    assert body[4..4 + n - 1] == body[4..3 + n];
  }

  lemma {:induction false} BuiltBodyChecks<M>(schema: Schema<M>, m: M)
    ensures ChecksumHolds(FrameBody(schema, m))
  {
    BodyParts(schema, m);
    DecodeEncode(ToInt32(Adler32(Covered(schema, m))));
  }

  lemma {:induction false} CoveredByteBreaksChecksum(body: seq<Byte>, k: int, x: Byte)
    requires |body| >= CHECKSUM_LEN && ChecksumHolds(body)
    requires 0 <= k < |body| - CHECKSUM_LEN && x != body[k]
    ensures !ChecksumHolds(body[k := x])
  {
    var n := |body| - CHECKSUM_LEN;
    var bad := body[k := x];
    assert bad[..n] == body[..n][k := x];
    assert bad[n..n + 4] == body[n..n + 4];
    SingleByteDetected(body[..n], k, x);
    if ChecksumHolds(bad) {
      ToInt32Injective(Adler32(body[..n]), Adler32(bad[..n]));
    }
  }

  lemma {:induction false} ChecksumByteBreaksChecksum(body: seq<Byte>, k: int, x: Byte)
    requires |body| >= CHECKSUM_LEN && ChecksumHolds(body)
    requires |body| - CHECKSUM_LEN <= k < |body| && x != body[k]
    ensures !ChecksumHolds(body[k := x])
  {
    var n := |body| - CHECKSUM_LEN;
    var bad := body[k := x];
    assert bad[..n] == body[..n];
    assert bad[n..n + 4][k - n] != body[n..n + 4][k - n];
    if ChecksumHolds(bad) {
      DecodeInjective(bad[n..n + 4], body[n..n + 4]);
    }
  }

  /** Changing any single byte after the length header is reported as a checksum error. */
  lemma {:induction false} CorruptByteRejected<M>(schema: Schema<M>, body: seq<Byte>, k: int, x: Byte)
    requires |body| >= MIN_MESSAGE_LEN && ChecksumHolds(body)
    requires 0 <= k < |body| && x != body[k]
    ensures Parse(schema, body[k := x]) == Rejected(CheckSumError)
  {
    if k < |body| - CHECKSUM_LEN {
      CoveredByteBreaksChecksum(body, k, x);
    } else {
      ChecksumByteBreaksChecksum(body, k, x);
    }
  }

  lemma {:induction false} ExchangedChecksum(body: seq<Byte>, i: int, j: int)
    requires |body| >= CHECKSUM_LEN && ChecksumHolds(body)
    requires 0 <= i < j < |body| - CHECKSUM_LEN && body[i] != body[j]
    ensures !ChecksumHolds(Exchange(body, i, j)) <==> (j - i) % BASE != 0
  {
    var n := |body| - CHECKSUM_LEN;
    var bad := Exchange(body, i, j);
    assert bad[..n] == Exchange(body[..n], i, j);
    assert bad[n..n + 4] == body[n..n + 4];
    ExchangeDetected(body[..n], i, j);
    if ChecksumHolds(bad) {
      ToInt32Injective(Adler32(body[..n]), Adler32(bad[..n]));
    }
  }

  /** Exchanging two different covered bytes is reported as a checksum error unless their
      distance is a multiple of 65521, and then the checksum test passes. */
  lemma {:induction false} ExchangedBytesRejected<M>(schema: Schema<M>, body: seq<Byte>, i: int, j: int)
    requires |body| >= MIN_MESSAGE_LEN && ChecksumHolds(body)
    requires 0 <= i < j < |body| - CHECKSUM_LEN && body[i] != body[j]
    ensures Parse(schema, Exchange(body, i, j)) == Rejected(CheckSumError) <==> (j - i) % BASE != 0
  {
    ExchangedChecksum(body, i, j);
  }

  // ---------------------------------------------------------------------------
  // Parsing a stream
  // ---------------------------------------------------------------------------

  /** One round of the loop: a verdict on the frame at the front, if it is all there. */
  function NextFrame<M>(schema: Schema<M>, bytes: seq<Byte>): (n: Next<M, ErrorCode>)
    ensures n.Good? ==> 0 < n.size <= |bytes|
  {
    if |bytes| < MIN_MESSAGE_LEN + HEADER_LEN then
      Incomplete
    else
      var len := AsInt32(bytes, 0);
      if len > MAX_MESSAGE_LEN || len < MIN_MESSAGE_LEN then
        Bad(InvalidLength)
      else if |bytes| >= len + HEADER_LEN then
        match Parse(schema, bytes[HEADER_LEN..HEADER_LEN + len])
        case Parsed(m) => Good(m, HEADER_LEN + len)
        case Rejected(error) => Bad(error)
      else
        Incomplete
  }

  /** The frame recogniser as a function of the stream. */
  function Recognise<M>(schema: Schema<M>): Recogniser<M, ErrorCode> {
    bytes => NextFrame(schema, bytes)
  }

  lemma {:induction false} RecogniseAdvances<M(!new)>(schema: Schema<M>)
    ensures Advances(Recognise(schema))
  {
  }

  lemma {:induction false} RecogniseStable<M(!new)>(schema: Schema<M>)
    ensures Stable(Recognise(schema))
  {
    forall a, b | !Recognise(schema)(a).Incomplete?
      ensures Recognise(schema)(a + b) == Recognise(schema)(a)
    {
      NextFrameStable(schema, a, b);
    }
  }

  /** What one ParseMessages call does to the readable bytes. */
  ghost function ParseStream<M(!new)>(schema: Schema<M>, bytes: seq<Byte>): StreamResult<M, ErrorCode> {
    RecogniseAdvances(schema);
    Drain(Recognise(schema), bytes)
  }

  lemma {:induction false} ParseStreamStep<M(!new)>(schema: Schema<M>, bytes: seq<Byte>)
    ensures ParseStream(schema, bytes) ==
            match NextFrame(schema, bytes)
            case Incomplete => StreamResult([], bytes, None)
            case Bad(error) => StreamResult([], bytes, Some(error))
            case Good(m, size) => Deliver(m, ParseStream(schema, bytes[size..]))
  {
  }

  /** A verdict never depends on bytes behind the frame. */
  lemma {:induction false} NextFrameStable<M>(schema: Schema<M>, a: seq<Byte>, b: seq<Byte>)
    requires !NextFrame(schema, a).Incomplete?
    ensures NextFrame(schema, a + b) == NextFrame(schema, a)
  {
    var len := AsInt32(a, 0);
    assert (a + b)[0..4] == a[0..4];
    if MIN_MESSAGE_LEN <= len <= MAX_MESSAGE_LEN {
      assert (a + b)[HEADER_LEN..HEADER_LEN + len] == a[HEADER_LEN..HEADER_LEN + len];
    }
  }

  /** Looks at the front of the buffer: one iteration's tests, before anything is consumed. */
  method Examine<M>(schema: Schema<M>, buf: Buffer) returns (n: Next<M, ErrorCode>)
    requires buf.Valid()
    requires buf.ReadableBytes() >= MIN_MESSAGE_LEN + HEADER_LEN
    ensures n == NextFrame(schema, buf.Contents())
  {
    var len := buf.PeekInt32();
    if len > MAX_MESSAGE_LEN || len < MIN_MESSAGE_LEN {
      return Bad(InvalidLength);
    } else if buf.ReadableBytes() >= len + HEADER_LEN {
      match Parse(schema, buf.Peek(HEADER_LEN, len)) {
        case Parsed(m) => return Good(m, HEADER_LEN + len);
        case Rejected(error) => return Bad(error);
      }
    } else {
      return Incomplete;
    }
  }

  /** The loop over the buffer. `received` is the caller's vector of messages. */
  method ParseMessages<M(!new)>(schema: Schema<M>, buf: Buffer, received: seq<M>)
    returns (status: int, messages: seq<M>, error: Option<ErrorCode>)
    requires buf.Valid()
    modifies buf`readerIndex, buf`writerIndex
    ensures buf.Valid()
    ensures StreamResult(messages, buf.Contents(), error) == Pushed(received, ParseStream(schema, old(buf.Contents())))
    ensures status == if error.None? then 0 else -1
  {
    ghost var whole := ParseStream(schema, buf.Contents());
    messages := received;
    while buf.ReadableBytes() >= MIN_MESSAGE_LEN + HEADER_LEN
      invariant buf.Valid()
      invariant Pushed(received, whole) == Pushed(messages, ParseStream(schema, buf.Contents()))
      decreases buf.ReadableBytes()
    {
      ghost var before := buf.Contents();
      ParseStreamStep(schema, before);
      var n := Examine(schema, buf);
      match n {
        case Good(m, size) =>
          PushedDeliver(messages, m, ParseStream(schema, before[size..]));
          messages := messages + [m];
          buf.Retrieve(size);
        case Bad(e) =>
          return -1, messages, Some(e);
        case Incomplete =>
          return 0, messages, None;
      }
    }
    ParseStreamStep(schema, buf.Contents());
    return 0, messages, None;
  }

  /** The caller's vector after a result has been pushed onto it. */
  function Pushed<M>(received: seq<M>, r: StreamResult<M, ErrorCode>): StreamResult<M, ErrorCode> {
    StreamResult(received + r.messages, r.rest, r.error)
  }

  lemma {:induction false} PushedDeliver<M>(received: seq<M>, m: M, r: StreamResult<M, ErrorCode>)
    ensures Pushed(received, Deliver(m, r)) == Pushed(received + [m], r)
  {
    assert received + ([m] + r.messages) == received + [m] + r.messages;
  }

  // ---------------------------------------------------------------------------
  // Delivery
  // ---------------------------------------------------------------------------

  function Frames<M>(schema: Schema<M>, ms: seq<M>): seq<Byte> {
    if ms == [] then [] else Frame(schema, ms[0]) + Frames(schema, ms[1..])
  }

  /** Where a frame at the front of a stream keeps its length and its body. */
  lemma {:induction false} FrontOfFrame<M>(schema: Schema<M>, m: M, behind: seq<Byte>)
    ensures var bytes, len := Frame(schema, m) + behind, |FrameBody(schema, m)|;
            AsInt32(bytes, 0) == ToInt32(len) && bytes[HEADER_LEN..HEADER_LEN + len] == FrameBody(schema, m)
  {
    var bytes, len := Frame(schema, m) + behind, |FrameBody(schema, m)|;
    assert bytes[0..4] == EncodeInt32(len);
    DecodeEncode(len);
  }

  /** A frame whose length is in range is judged by its body. */
  lemma {:induction false} SoundFrame<M>(schema: Schema<M>, m: M, behind: seq<Byte>)
    requires MIN_MESSAGE_LEN <= |FrameBody(schema, m)| <= MAX_MESSAGE_LEN
    ensures NextFrame(schema, Frame(schema, m) + behind) ==
            match BodyVerdict(schema, m)
            case Parsed(m') => Good(m', HEADER_LEN + |FrameBody(schema, m)|)
            case Rejected(error) => Bad(error)
  {
    FrontOfFrame(schema, m, behind);
    ParseFrame(schema, m);
  }

  lemma {:induction false} UnsoundFrame<M>(schema: Schema<M>, m: M, behind: seq<Byte>)
    requires IsInt32(|Covered(schema, m)|)
    requires |FrameBody(schema, m)| < MIN_MESSAGE_LEN || |FrameBody(schema, m)| > MAX_MESSAGE_LEN
    ensures NextFrame(schema, Frame(schema, m) + behind) ==
            if |FrameBody(schema, m)| + |behind| < MIN_MESSAGE_LEN then Incomplete else Bad(InvalidLength)
  {
    FrontOfFrame(schema, m, behind);
    CastOutOfRange(|FrameBody(schema, m)|);
  }

  lemma {:induction false} CastOutOfRange(len: int)
    requires 0 <= len < TWO_31 + CHECKSUM_LEN && (len < MIN_MESSAGE_LEN || len > MAX_MESSAGE_LEN)
    ensures ToInt32(len) < MIN_MESSAGE_LEN || ToInt32(len) > MAX_MESSAGE_LEN
  {
    assert len >= TWO_31 ==> ToInt32(len) == len - TWO_32;
  }

  /** The verdict on a frame at the front of a stream, for every message that can be sent and
      whatever follows. The shortest frame, of an empty name without data, is not even examined
      until more bytes arrive. Neither the sender's limit nor an empty name is checked before
      sending. */
  lemma {:induction false} FrameVerdict<M>(schema: Schema<M>, m: M, behind: seq<Byte>)
    requires IsInt32(|Covered(schema, m)|)
    ensures var len := |FrameBody(schema, m)|;
            NextFrame(schema, Frame(schema, m) + behind) ==
            if len + |behind| < 10 then Incomplete
            else if len < 10 || len > 67108864 then Bad(InvalidLength)
            else match BodyVerdict(schema, m)
                 case Parsed(m') => Good(m', HEADER_LEN + len)
                 case Rejected(error) => Bad(error)
  {
    if MIN_MESSAGE_LEN <= |FrameBody(schema, m)| <= MAX_MESSAGE_LEN {
      SoundFrame(schema, m, behind);
    } else {
      UnsoundFrame(schema, m, behind);
    }
  }

  /** A message comes back as itself exactly when it is deliverable. */
  lemma {:induction false} DeliverableExact<M(!new)>(schema: Schema<M>, m: M, behind: seq<Byte>)
    requires IsInt32(|Covered(schema, m)|)
    ensures NextFrame(schema, Frame(schema, m) + behind) == Good(m, |Frame(schema, m)|) <==> Deliverable(schema, m)
  {
    FrameVerdict(schema, m, behind);
  }

  lemma {:induction false} FrontFrame<M>(schema: Schema<M>, ms: seq<M>, behind: seq<Byte>)
    requires ms != []
    ensures Frames(schema, ms) + behind == Frame(schema, ms[0]) + (Frames(schema, ms[1..]) + behind)
  {
  }

  lemma {:induction false} OneDelivered<M(!new)>(schema: Schema<M>, m: M, later: seq<Byte>)
    requires Deliverable(schema, m)
    ensures ParseStream(schema, Frame(schema, m) + later) == Deliver(m, ParseStream(schema, later))
  {
    var bytes := Frame(schema, m) + later;
    DeliverableExact(schema, m, later);
    ParseStreamStep(schema, bytes);
    assert bytes[|Frame(schema, m)|..] == later;
  }

  lemma {:induction false} PushedFirst<M>(ms: seq<M>, r: StreamResult<M, ErrorCode>)
    requires ms != []
    ensures Pushed(ms, r) == Deliver(ms[0], Pushed(ms[1..], r))
  {
    assert ms + r.messages == [ms[0]] + (ms[1..] + r.messages);
  }

  /** Deliverable messages at the front of a stream come out first, and parsing goes on behind
      their frames. */
  lemma {:induction false} DeliveredThen<M(!new)>(schema: Schema<M>, ms: seq<M>, behind: seq<Byte>)
    requires forall m | m in ms :: Deliverable(schema, m)
    ensures ParseStream(schema, Frames(schema, ms) + behind) == Pushed(ms, ParseStream(schema, behind))
    decreases |ms|
  {
    if ms == [] {
      assert Frames(schema, ms) + behind == behind;
    } else {
      assert ms[0] in ms;
      FrontFrame(schema, ms, behind);
      OneDelivered(schema, ms[0], Frames(schema, ms[1..]) + behind);
      DeliveredThen(schema, ms[1..], behind);
      PushedFirst(ms, ParseStream(schema, behind));
    }
  }

  lemma {:induction false} FramesParse<M(!new)>(schema: Schema<M>, ms: seq<M>)
    requires forall m | m in ms :: Deliverable(schema, m)
    ensures ParseStream(schema, Frames(schema, ms)) == StreamResult(ms, [], None)
  {
    DeliveredThen(schema, ms, []);
    ParseStreamStep(schema, []);
    assert Frames(schema, ms) + [] == Frames(schema, ms);
  }

  /** A connection that takes the stream in the given chunks. */
  ghost function ReceiveChunked<M(!new)>(schema: Schema<M>, chunks: seq<seq<Byte>>): Session<M, ErrorCode> {
    RecogniseAdvances(schema);
    ReceiveAll(Recognise(schema), Session([], [], None), chunks)
  }

  /** For every byte stream, however it is cut: the messages, the first error and the
      remainder are those of parsing it in one piece. */
  lemma {:induction false} ChunkedParsing<M(!new)>(schema: Schema<M>, chunks: seq<seq<Byte>>)
    ensures var r := ParseStream(schema, Concat(chunks));
            ReceiveChunked(schema, chunks) == Session(r.messages, r.rest, r.error)
  {
    RecogniseAdvances(schema);
    RecogniseStable(schema);
    ChunkingInvisible(Recognise(schema), chunks);
  }

  /** However the concatenated frames are cut, exactly the sent messages arrive, in order,
      with no error and nothing left over. */
  lemma {:induction false} ChunkedDelivery<M(!new)>(schema: Schema<M>, ms: seq<M>, chunks: seq<seq<Byte>>)
    requires forall m | m in ms :: Deliverable(schema, m)
    requires Concat(chunks) == Frames(schema, ms)
    ensures ReceiveChunked(schema, chunks) == Session(ms, [], None)
  {
    ChunkedParsing(schema, chunks);
    FramesParse(schema, ms);
  }

  /** A frame with one byte after its header changed, at the front of a stream. */
  lemma {:induction false} DamagedFrame<M>(schema: Schema<M>, m: M, behind: seq<Byte>, p: nat, x: Byte)
    requires MIN_MESSAGE_LEN <= |FrameBody(schema, m)| <= MAX_MESSAGE_LEN
    requires HEADER_LEN <= p < |Frame(schema, m)| && x != Frame(schema, m)[p]
    ensures NextFrame(schema, Frame(schema, m)[p := x] + behind) == Bad(CheckSumError)
  {
    var body, bytes := FrameBody(schema, m), Frame(schema, m)[p := x] + behind;
    var len := |body|;
    assert bytes[0..4] == EncodeInt32(len);
    DecodeEncode(len);
    assert bytes[HEADER_LEN..HEADER_LEN + len] == body[p - HEADER_LEN := x];
    BuiltBodyChecks(schema, m);
    CorruptByteRejected(schema, body, p - HEADER_LEN, x);
  }

  /** The frames of `before`, then that of m with one byte after its header changed, then
      anything: however the stream is cut, exactly `before` arrives and the first error is the
      checksum's. */
  lemma {:induction false} DamageStopsDelivery<M(!new)>(
    schema: Schema<M>, before: seq<M>, m: M, behind: seq<Byte>, p: nat, x: Byte, chunks: seq<seq<Byte>>)
    requires forall b | b in before :: Deliverable(schema, b)
    requires MIN_MESSAGE_LEN <= |FrameBody(schema, m)| <= MAX_MESSAGE_LEN
    requires HEADER_LEN <= p < |Frame(schema, m)| && x != Frame(schema, m)[p]
    requires Concat(chunks) == Frames(schema, before) + (Frame(schema, m)[p := x] + behind)
    ensures ReceiveChunked(schema, chunks)
         == Session(before, Frame(schema, m)[p := x] + behind, Some(CheckSumError))
  {
    var rest := Frame(schema, m)[p := x] + behind;
    ChunkedParsing(schema, chunks);
    DeliveredThen(schema, before, rest);
    DamagedFrame(schema, m, behind, p, x);
    ParseStreamStep(schema, rest);
  }

  /** The same on the real buffer: append a chunk, parse, and so on. */
  method ReceiveChunks<M(!new)>(schema: Schema<M>, chunks: seq<seq<Byte>>)
    returns (buf: Buffer, messages: seq<M>, error: Option<ErrorCode>)
    ensures buf.Valid()
    ensures Session(messages, buf.Contents(), error) == ReceiveChunked(schema, chunks)
  {
    buf := new Buffer();
    messages, error := [], None;
    ghost var next := Recognise(schema);
    RecogniseAdvances(schema);
    assert chunks[0..] == chunks;
    for i := 0 to |chunks|
      invariant buf.Valid() && fresh(buf) && fresh(buf.data)
      invariant ReceiveAll(next, Session(messages, buf.Contents(), error), chunks[i..])
                == ReceiveChunked(schema, chunks)
    {
      ghost var before := Session(messages, buf.Contents(), error);
      buf.Append(chunks[i]);
      var status, all, e := ParseMessages(schema, buf, messages);
      messages := all;
      error := if error.Some? then error else e;
      assert chunks[i..][0] == chunks[i] && chunks[i..][1..] == chunks[i + 1..];
      assert Session(messages, buf.Contents(), error) == Receive(next, before, chunks[i]);
    }
  }
}
