// Clipboard frames on the wire.
module ClipboardProtocol {
  import opened Wrappers
  import opened Numbers

  type Byte = b: int | 0 <= b < 256

  const VERSION: Byte := 1
  const MAX_TEXT_BYTES: nat := 0x80_0000
  const MAX_IMAGE_BYTES: nat := 0x400_0000
  const HEADER_LEN: nat := 36
  const NONCE_LEN: nat := 16

  // "WBCLIP01"
  function Magic(): (magic: seq<Byte>)
    ensures |magic| == 8
  {
    [87, 66, 67, 76, 73, 80, 48, 49]
  }

  datatype Kind = Put | Get | Probe | PutResult | GetResult | ProbeResult
  datatype Mime = NoMime | PlainText | Png
  datatype Status =
    | Ok | InvalidRequest | UnsupportedMime | TooLarge | InvalidContent
    | ClipboardUnavailable | Timeout | Busy | Internal

  datatype ProtocolError =
    | Io | BadMagic | UnsupportedVersion(version: Byte) | InvalidKind(kind: Byte) | InvalidMime(mime: Byte)
    | InvalidStatus(status: Byte) | InvalidShape | PayloadTooLarge(actual: nat, limit: nat)

  datatype Frame = Frame(kind: Kind, mime: Mime, status: Status, nonce: seq<Byte>, payload: seq<Byte>)

  // ---------------------------------------------------------------- codes

  function KindCode(kind: Kind): Byte {
    match kind
    case Put => 1
    case Get => 2
    case Probe => 3
    case PutResult => 129
    case GetResult => 130
    case ProbeResult => 131
  }

  function KindOf(code: Byte): Result<Kind, ProtocolError> {
    match code
    case 1 => Success(Put)
    case 2 => Success(Get)
    case 3 => Success(Probe)
    case 129 => Success(PutResult)
    case 130 => Success(GetResult)
    case 131 => Success(ProbeResult)
    case _ => Failure(InvalidKind(code))
  }

  function MimeCode(mime: Mime): Byte {
    match mime
    case NoMime => 0
    case PlainText => 1
    case Png => 2
  }

  function MimeOf(code: Byte): Result<Mime, ProtocolError> {
    match code
    case 0 => Success(NoMime)
    case 1 => Success(PlainText)
    case 2 => Success(Png)
    case _ => Failure(InvalidMime(code))
  }

  function StatusCode(status: Status): Byte {
    match status
    case Ok => 0
    case InvalidRequest => 1
    case UnsupportedMime => 2
    case TooLarge => 3
    case InvalidContent => 4
    case ClipboardUnavailable => 5
    case Timeout => 6
    case Busy => 7
    case Internal => 8
  }

  function StatusOf(code: Byte): Result<Status, ProtocolError> {
    match code
    case 0 => Success(Ok)
    case 1 => Success(InvalidRequest)
    case 2 => Success(UnsupportedMime)
    case 3 => Success(TooLarge)
    case 4 => Success(InvalidContent)
    case 5 => Success(ClipboardUnavailable)
    case 6 => Success(Timeout)
    case 7 => Success(Busy)
    case 8 => Success(Internal)
    case _ => Failure(InvalidStatus(code))
  }

  // ---------------------------------------------------------------- shape

  function PayloadLimit(mime: Mime): nat {
    match mime
    case NoMime => 0
    case PlainText => MAX_TEXT_BYTES
    case Png => MAX_IMAGE_BYTES
  }

  predicate IsRequest(kind: Kind) {
    kind.Put? || kind.Get? || kind.Probe?
  }

  predicate CarriesNothing(frame: Frame) {
    frame.mime.NoMime? && frame.payload == []
  }

  function ValidateShape(frame: Frame): Option<ProtocolError> {
    if |frame.payload| > PayloadLimit(frame.mime) then Some(PayloadTooLarge(|frame.payload|, PayloadLimit(frame.mime)))
    else if IsRequest(frame.kind) && frame.status != Ok then Some(InvalidShape)
    else
      match frame.kind
      case Put => if frame.mime.NoMime? then Some(InvalidShape) else None
      case Get => if CarriesNothing(frame) then None else Some(InvalidShape)
      case Probe => if CarriesNothing(frame) then None else Some(InvalidShape)
      case PutResult => if CarriesNothing(frame) then None else Some(InvalidShape)
      case ProbeResult => if CarriesNothing(frame) then None else Some(InvalidShape)
      case GetResult =>
        if frame.status == Ok then if frame.mime.NoMime? then Some(InvalidShape) else None
        else if CarriesNothing(frame) then None else Some(InvalidShape)
  }

  predicate ValidFrame(frame: Frame) {
    |frame.nonce| == NONCE_LEN && ValidateShape(frame).None?
  }

  // ---------------------------------------------------------------- lengths

  function BigEndian(n: nat, width: nat): (bytes: seq<Byte>)
    ensures |bytes| == width
  {
    if width == 0 then [] else BigEndian(n / 256, width - 1) + [n % 256]
  }

  function BigEndianValue(bytes: seq<Byte>): nat {
    if bytes == [] then 0 else 256 * BigEndianValue(bytes[..|bytes| - 1]) + bytes[|bytes| - 1]
  }

  lemma {:induction false} BigEndianReads(n: nat, width: nat)
    requires n < Power(256, width)
    ensures BigEndianValue(BigEndian(n, width)) == n
  {
    if width > 0 {
      BigEndianReads(n / 256, width - 1);
      assert BigEndian(n, width)[..width - 1] == BigEndian(n / 256, width - 1);
    }
  }

  lemma {:induction false} BigEndianWrites(bytes: seq<Byte>)
    ensures BigEndian(BigEndianValue(bytes), |bytes|) == bytes
  {
    if bytes != [] {
      var front, last := bytes[..|bytes| - 1], bytes[|bytes| - 1];
      BigEndianWrites(front);
      var n := BigEndianValue(bytes);
      assert n / 256 == BigEndianValue(front) && n % 256 == last;
      assert bytes == front + [last];
    }
  }

  /** The most significant byte comes first. */
  lemma {:induction false} BigEndianAt(n: nat, width: nat, k: nat)
    requires k < width
    ensures Power(256, k) > 0 && BigEndian(n, width)[width - 1 - k] == n / Power(256, k) % 256
  {
    if k > 0 {
      BigEndianAt(n / 256, width - 1, k - 1);
      PlaceValue(n, 256, k);
    }
  }

  // ---------------------------------------------------------------- the codec as functions

  function Header(frame: Frame): seq<Byte> {
    Magic() + [VERSION, KindCode(frame.kind), MimeCode(frame.mime), StatusCode(frame.status)] + frame.nonce
      + BigEndian(|frame.payload|, 8)
  }

  function Encode(frame: Frame): seq<Byte> {
    Header(frame) + frame.payload
  }

  /** The frame at the front of a stream, and what follows it. */
  function Decode(stream: seq<Byte>): Result<(Frame, seq<Byte>), ProtocolError> {
    if |stream| < HEADER_LEN then Failure(Io)
    else if stream[..8] != Magic() then Failure(BadMagic)
    else if stream[8] != VERSION then Failure(UnsupportedVersion(stream[8]))
    else
      match KindOf(stream[9])
      case Failure(error) => Failure(error)
      case Success(kind) =>
        match MimeOf(stream[10])
        case Failure(error) => Failure(error)
        case Success(mime) =>
          match StatusOf(stream[11])
          case Failure(error) => Failure(error)
          case Success(status) =>
            var length := BigEndianValue(stream[28..36]);
            if length > PayloadLimit(mime) then Failure(PayloadTooLarge(length, PayloadLimit(mime)))
            else if |stream| < HEADER_LEN + length then Failure(Io)
            else
              var frame := Frame(kind, mime, status, stream[12..28], stream[HEADER_LEN..HEADER_LEN + length]);
              match ValidateShape(frame)
              case Some(error) => Failure(error)
              case None => Success((frame, stream[HEADER_LEN + length..]))
  }

  // ---------------------------------------------------------------- one encoding per frame, one frame per encoding

  lemma CodesRoundTrip(kind: Kind, mime: Mime, status: Status)
    ensures KindOf(KindCode(kind)) == Success(kind)
    ensures MimeOf(MimeCode(mime)) == Success(mime)
    ensures StatusOf(StatusCode(status)) == Success(status)
  {
  }

  lemma CodesBack(kind: Byte, mime: Byte, status: Byte)
    ensures KindOf(kind).Success? ==> KindCode(KindOf(kind).value) == kind
    ensures MimeOf(mime).Success? ==> MimeCode(MimeOf(mime).value) == mime
    ensures StatusOf(status).Success? ==> StatusCode(StatusOf(status).value) == status
  {
  }

  lemma SmallLength(n: nat)
    requires n <= MAX_IMAGE_BYTES
    ensures n < Power(256, 8)
  {
    assert Power(256, 4) == 0x1_0000_0000;
    assert Power(256, 6) >= Power(256, 4);
  }

  lemma HeaderFields(frame: Frame, rest: seq<Byte>)
    requires |frame.nonce| == NONCE_LEN
    ensures var header := Header(frame);
      var stream := header + rest;
      && |header| == HEADER_LEN && stream[..8] == Magic() && stream[8] == VERSION
      && stream[9] == KindCode(frame.kind) && stream[10] == MimeCode(frame.mime) && stream[11] == StatusCode(frame.status)
      && stream[12..28] == frame.nonce && stream[28..36] == BigEndian(|frame.payload|, 8)
      && stream[36..] == rest
  {
    hide BigEndian, KindCode, MimeCode, StatusCode;
    var codes: seq<Byte> := [VERSION, KindCode(frame.kind), MimeCode(frame.mime), StatusCode(frame.status)];
    var header := Magic() + codes + frame.nonce + BigEndian(|frame.payload|, 8);
    assert header == Header(frame);
    assert header[..8] == Magic();
    assert header[8..12] == codes;
    assert header[12..28] == frame.nonce;
    assert header[28..36] == BigEndian(|frame.payload|, 8);
    var stream := header + rest;
    assert stream[..8] == header[..8] && stream[12..28] == header[12..28] && stream[28..36] == header[28..36];
    assert stream[8] == header[8..12][0] && stream[9] == header[8..12][1] && stream[10] == header[8..12][2] && stream[11] == header[8..12][3];
  }

  /** The bytes of a frame: "WBCLIP01", the version, kind, MIME type and status by their numbers, the nonce, the length of the
      payload with its most significant byte first, and the payload. */
  lemma WireLayout(frame: Frame)
    requires |frame.nonce| == NONCE_LEN
    ensures var bytes := Encode(frame);
      && |bytes| == 36 + |frame.payload| && bytes[..8] == [87, 66, 67, 76, 73, 80, 48, 49] && bytes[8] == 1
      && bytes[9] == (match frame.kind case Put => 1 case Get => 2 case Probe => 3 case PutResult => 129 case GetResult => 130 case ProbeResult => 131)
      && bytes[10] == (match frame.mime case NoMime => 0 case PlainText => 1 case Png => 2)
      && bytes[11] == (match frame.status
           case Ok => 0 case InvalidRequest => 1 case UnsupportedMime => 2 case TooLarge => 3 case InvalidContent => 4
           case ClipboardUnavailable => 5 case Timeout => 6 case Busy => 7 case Internal => 8)
      && bytes[12..28] == frame.nonce && bytes[36..] == frame.payload
      && (forall k: nat | k < 8 :: Power(256, k) > 0 && bytes[35 - k] == |frame.payload| / Power(256, k) % 256)
  {
    hide BigEndian, Power;
    HeaderFields(frame, frame.payload);
    var length := BigEndian(|frame.payload|, 8);
    forall k: nat | k < 8 ensures Power(256, k) > 0 && Encode(frame)[35 - k] == |frame.payload| / Power(256, k) % 256 {
      BigEndianAt(|frame.payload|, 8, k);
      assert Encode(frame)[28..36][7 - k] == length[7 - k];
    }
  }

  /** The frames that make sense: requests have status Ok, what is put and what is got has a MIME type and fits its limit, and
      nothing else carries anything. */
  lemma ShapeExact(frame: Frame)
    ensures ValidateShape(frame).None? <==>
      (|frame.payload| <= (match frame.mime case NoMime => 0 case PlainText => MAX_TEXT_BYTES case Png => MAX_IMAGE_BYTES)
       && (frame.kind.Put? || frame.kind.Get? || frame.kind.Probe? ==> frame.status.Ok?)
       && (frame.mime.NoMime? <==> !(frame.kind.Put? || (frame.kind.GetResult? && frame.status.Ok?))))
    ensures |frame.payload| > PayloadLimit(frame.mime) <==>
      ValidateShape(frame) == Some(PayloadTooLarge(|frame.payload|, PayloadLimit(frame.mime)))
    ensures ValidateShape(frame).Some? && |frame.payload| <= PayloadLimit(frame.mime) ==> ValidateShape(frame) == Some(InvalidShape)
  {
  }

  /** What is wrong with the bytes of a header, the first fault deciding. */
  ghost predicate FaultyHeader(stream: seq<Byte>, error: ProtocolError)
    requires |stream| >= HEADER_LEN
  {
    if stream[..8] != [87, 66, 67, 76, 73, 80, 48, 49] then error.BadMagic?
    else if stream[8] != 1 then error == UnsupportedVersion(stream[8])
    else if stream[9] !in {1, 2, 3, 129, 130, 131} then error == InvalidKind(stream[9])
    else if stream[10] > 2 then error == InvalidMime(stream[10])
    else stream[11] > 8 && error == InvalidStatus(stream[11])
  }

  /** Bytes are refused for their header, for announcing too much, for stopping short, or for making no sense. */
  lemma RefusedExact(stream: seq<Byte>, error: ProtocolError)
    ensures Decode(stream) == Failure(error) ==>
      if |stream| < HEADER_LEN then error.Io?
      else if FaultyHeader(stream, error) then true
      else
        var limit := PayloadLimit(MimeOf(stream[10]).value);
        var length := BigEndianValue(stream[28..36]);
        if length > limit then error == PayloadTooLarge(length, limit)
        else if |stream| < HEADER_LEN + length then error.Io?
        else error.InvalidShape?
    ensures |stream| >= HEADER_LEN && FaultyHeader(stream, error) ==> Decode(stream) == Failure(error)
    ensures |stream| < HEADER_LEN ==> Decode(stream) == Failure(Io)
  {
    hide BigEndianValue, ValidateShape;
    if |stream| >= HEADER_LEN {
      KnownCodes(stream[9], stream[10], stream[11]);
      assert Magic() == [87, 66, 67, 76, 73, 80, 48, 49];
      var length := BigEndianValue(stream[28..36]);
      if KindOf(stream[9]).Success? && MimeOf(stream[10]).Success? && StatusOf(stream[11]).Success? && |stream| >= HEADER_LEN + length {
        ShapeExact(Frame(KindOf(stream[9]).value, MimeOf(stream[10]).value, StatusOf(stream[11]).value, stream[12..28],
                         stream[HEADER_LEN..HEADER_LEN + length]));
      }
    }
  }

  lemma KnownCodes(kind: Byte, mime: Byte, status: Byte)
    ensures KindOf(kind) == if kind in {1, 2, 3, 129, 130, 131} then Success(KindOf(kind).value) else Failure(InvalidKind(kind))
    ensures MimeOf(mime) == if mime <= 2 then Success(MimeOf(mime).value) else Failure(InvalidMime(mime))
    ensures StatusOf(status) == if status <= 8 then Success(StatusOf(status).value) else Failure(InvalidStatus(status))
  {
  }

  /** A valid frame is read back from its encoding, whatever follows. */
  lemma DecodeEncode(frame: Frame, rest: seq<Byte>)
    requires ValidFrame(frame)
    ensures Decode(Encode(frame) + rest) == Success((frame, rest))
  {
    hide BigEndian, BigEndianValue, KindCode, MimeCode, StatusCode, KindOf, MimeOf, StatusOf, Header, Power, Magic;
    var stream := Encode(frame) + rest;
    assert stream == Header(frame) + (frame.payload + rest);
    HeaderFields(frame, frame.payload + rest);
    CodesRoundTrip(frame.kind, frame.mime, frame.status);
    SmallLength(|frame.payload|);
    BigEndianReads(|frame.payload|, 8);
    var tail := stream[HEADER_LEN..];
    assert tail[..|frame.payload|] == frame.payload && tail[|frame.payload|..] == rest;
    assert stream[HEADER_LEN..HEADER_LEN + |frame.payload|] == tail[..|frame.payload|];
    assert stream[HEADER_LEN + |frame.payload|..] == tail[|frame.payload|..];
  }

  /** Whatever is accepted is a valid frame in its one encoding. */
  lemma EncodeDecode(stream: seq<Byte>)
    requires Decode(stream).Success?
    ensures var (frame, rest) := Decode(stream).value;
      ValidFrame(frame) && stream == Encode(frame) + rest
  {
    hide BigEndian, BigEndianValue, KindCode, MimeCode, StatusCode, KindOf, MimeOf, StatusOf, Magic;
    var (frame, rest) := Decode(stream).value;
    CodesBack(stream[9], stream[10], stream[11]);
    BigEndianWrites(stream[28..36]);
    var codes: seq<Byte> := [VERSION, KindCode(frame.kind), MimeCode(frame.mime), StatusCode(frame.status)];
    assert stream[8..12] == codes;
    assert stream == stream[..8] + stream[8..12] + stream[12..28] + stream[28..36] + stream[36..];
    assert stream[36..] == frame.payload + rest;
  }

  // ---------------------------------------------------------------- streams

  function EncodeAll(frames: seq<Frame>): seq<Byte> {
    if frames == [] then [] else Encode(frames[0]) + EncodeAll(frames[1..])
  }

  /** All frames of a stream that ends where a frame ends. */
  function DecodeAll(stream: seq<Byte>): Result<seq<Frame>, ProtocolError>
    decreases |stream|
  {
    if stream == [] then Success([])
    else
      match Decode(stream)
      case Failure(error) => Failure(error)
      case Success((frame, rest)) =>
        if |rest| >= |stream| then Failure(Io)
        else
          match DecodeAll(rest)
          case Failure(error) => Failure(error)
          case Success(frames) => Success([frame] + frames)
  }

  /** A stream of valid frames is cut where they were joined. */
  lemma {:induction false} StreamRoundTrip(frames: seq<Frame>)
    requires forall frame <- frames :: ValidFrame(frame)
    ensures DecodeAll(EncodeAll(frames)) == Success(frames)
  {
    hide Decode, Header, ValidFrame;
    if frames != [] {
      DecodeEncode(frames[0], EncodeAll(frames[1..]));
      EncodedLength(frames[0]);
      StreamRoundTrip(frames[1..]);
      assert frames == [frames[0]] + frames[1..];
    }
  }

  lemma EncodedLength(frame: Frame)
    requires ValidFrame(frame)
    ensures |Encode(frame)| == HEADER_LEN + |frame.payload|
  {
    HeaderFields(frame, frame.payload);
  }

  /** And only streams of valid frames are accepted, each in its one spelling. */
  lemma {:induction false} StreamExact(stream: seq<Byte>)
    requires DecodeAll(stream).Success?
    ensures stream == EncodeAll(DecodeAll(stream).value)
    ensures forall frame <- DecodeAll(stream).value :: ValidFrame(frame)
    decreases |stream|
  {
    hide Decode, Header, ValidFrame;
    if stream != [] {
      EncodeDecode(stream);
      var (frame, rest) := Decode(stream).value;
      StreamExact(rest);
      var frames := DecodeAll(stream).value;
      assert frames[0] == frame && frames[1..] == DecodeAll(rest).value;
    }
  }

  // ---------------------------------------------------------------- the codec on streams

  /** The write end of a connection. */
  class Writer {
    var written: seq<Byte>
    const reliable: bool

    constructor (reliable: bool)
      ensures written == [] && this.reliable == reliable
    {
      written := [];
      this.reliable := reliable;
    }

    /** A failed write may have sent any part of the bytes. */
    method WriteAll(bytes: seq<Byte>) returns (ok: bool)
      modifies this
      ensures ok ==> written == old(written) + bytes
      ensures old(written) <= written <= old(written) + bytes
      ensures reliable ==> ok
    {
      ok := *;
      ok := ok || reliable;
      var n := |bytes|;
      if !ok {
        n :| 0 <= n <= |bytes|;
      }
      written := written + bytes[..n];
      assert bytes[..|bytes|] == bytes;
    }
  }

  /** The read end of a connection: the bytes still to come before it ends. */
  class Reader {
    var pending: seq<Byte>

    constructor (pending: seq<Byte>)
      ensures this.pending == pending
    {
      this.pending := pending;
    }

    /** Fill a buffer completely or fail. */
    method ReadExact(buffer: array<Byte>) returns (ok: bool)
      modifies this, buffer
      ensures ok <==> buffer.Length <= |old(pending)|
      ensures ok ==> buffer[..] == old(pending)[..buffer.Length] && pending == old(pending)[buffer.Length..]
      ensures !ok ==> pending == []
    {
      if |pending| < buffer.Length {
        pending := [];
        return false;
      }
      for i := 0 to buffer.Length
        invariant pending == old(pending)
        invariant buffer[..i] == pending[..i]
      {
        buffer[i] := pending[i];
      }
      pending := pending[buffer.Length..];
      return true;
    }
  }

  method Fill(buffer: array<Byte>, at: nat, bytes: seq<Byte>)
    requires at + |bytes| <= buffer.Length
    modifies buffer
    ensures buffer[..] == old(buffer[..at]) + bytes + old(buffer[at + |bytes|..])
  {
    for i := 0 to |bytes|
      invariant buffer[..at] == old(buffer[..at]) && buffer[at + i..] == old(buffer[at + i..])
      invariant forall j | 0 <= j < i :: buffer[at + j] == bytes[j]
    {
      buffer[at + i] := bytes[i];
    }
    assert buffer[at..at + |bytes|] == bytes;
    assert buffer[..] == buffer[..at] + buffer[at..at + |bytes|] + buffer[at + |bytes|..];
  }

  method FilledHeader(frame: Frame) returns (header: array<Byte>)
    requires |frame.nonce| == NONCE_LEN
    ensures fresh(header) && header[..] == Header(frame)
  {
    hide BigEndian, KindCode, MimeCode, StatusCode;
    header := new Byte[36];
    Fill(header, 0, Magic());
    var codes: seq<Byte> := [VERSION, KindCode(frame.kind), MimeCode(frame.mime), StatusCode(frame.status)];
    Fill(header, 8, codes);
    Fill(header, 12, frame.nonce);
    Fill(header, 28, BigEndian(|frame.payload|, 8));
  }

  method WriteFrame(writer: Writer, frame: Frame) returns (error: Option<ProtocolError>)
    requires |frame.nonce| == NONCE_LEN
    modifies writer
    ensures ValidateShape(frame).Some? ==> error == ValidateShape(frame) && writer.written == old(writer.written)
    ensures error.None? ==> ValidFrame(frame) && writer.written == old(writer.written) + Encode(frame)
    ensures ValidFrame(frame) ==> old(writer.written) <= writer.written <= old(writer.written) + Encode(frame)
    ensures writer.reliable && ValidFrame(frame) ==> error.None?
  {
    hide BigEndian, KindCode, MimeCode, StatusCode, ValidateShape, Header;
    var invalid := ValidateShape(frame);
    if invalid.Some? {
      return invalid;
    }
    var header := FilledHeader(frame);
    var ok := writer.WriteAll(header[..]);
    assert Header(frame) <= Encode(frame);
    if !ok {
      return Some(Io);
    }
    ok := writer.WriteAll(frame.payload);
    return if ok then None else Some(Io);
  }

  method ReadFrame(reader: Reader) returns (r: Result<Frame, ProtocolError>)
    modifies reader
    ensures match Decode(old(reader.pending))
      case Success((frame, rest)) => r == Success(frame) && reader.pending == rest
      case Failure(error) => r == Failure(error)
  {
    hide BigEndianValue, KindOf, MimeOf, StatusOf, ValidateShape;
    ghost var stream := reader.pending;
    var header := new Byte[36];
    var ok := reader.ReadExact(header);
    if !ok {
      return Failure(Io);
    }
    ghost var rest := reader.pending;
    assert stream[..36][..8] == stream[..8] && stream[..36][12..28] == stream[12..28] && stream[..36][28..36] == stream[28..36];
    if header[..8] != Magic() {
      return Failure(BadMagic);
    }
    if header[8] != VERSION {
      return Failure(UnsupportedVersion(header[8]));
    }
    var kind := KindOf(header[9]);
    if kind.Failure? {
      return Failure(kind.error);
    }
    var mime := MimeOf(header[10]);
    if mime.Failure? {
      return Failure(mime.error);
    }
    var status := StatusOf(header[11]);
    if status.Failure? {
      return Failure(status.error);
    }
    var nonce := header[12..28];
    var length := BigEndianValue(header[28..36]);
    if length > PayloadLimit(mime.value) {
      return Failure(PayloadTooLarge(length, PayloadLimit(mime.value)));
    }
    var payload := new Byte[length];
    ok := reader.ReadExact(payload);
    if !ok {
      return Failure(Io);
    }
    assert rest[..length] == stream[36..36 + length] && rest[length..] == stream[36 + length..];
    var frame := Frame(kind.value, mime.value, status.value, nonce, payload[..]);
    var invalid := ValidateShape(frame);
    if invalid.Some? {
      return Failure(invalid.value);
    }
    return Success(frame);
  }
}
