// The guest's clipboard agent: one request in, one response out, the work done by a helper process.
module ClipboardAgent {
  import opened Wrappers
  import opened ClipboardProtocol

  /** Why an operation failed; the status goes on the wire. */
  datatype AgentError = AgentError(status: Status)

  function WorkerNonce(): (nonce: seq<Byte>)
    ensures |nonce| == NONCE_LEN
  {
    // "WB-CLIP-WORKER1!"
    [87, 66, 45, 67, 76, 73, 80, 45, 87, 79, 82, 75, 69, 82, 49, 33]
  }

  /** A transport error may be a missed deadline. */
  function ProtocolFailure(error: ProtocolError, timedOut: bool): AgentError {
    match error
    case PayloadTooLarge(_, _) => AgentError(TooLarge)
    case Io => AgentError(if timedOut then Timeout else Internal)
    case _ => AgentError(InvalidRequest)
  }

  function WorkerStatusFailure(status: Status): AgentError {
    match status
    case Ok => AgentError(Internal)
    case _ => AgentError(status)
  }

  function ValidateWorkerResponse(response: Frame, kind: Kind, mime: Mime): Option<AgentError> {
    if response.kind != kind then Some(AgentError(InvalidRequest))
    else if response.status != Ok then Some(WorkerStatusFailure(response.status))
    else if response.mime != mime then Some(AgentError(InvalidContent))
    else None
  }

  /** These bytes are one frame, then `rest`. */
  ghost predicate Carries(pending: seq<Byte>, frame: Frame, rest: seq<Byte>) {
    pending == Encode(frame) + rest
  }

  /** A worker's request to own, and its answer with, some content. */
  function WorkerFrame(kind: Kind, mime: Mime, payload: seq<Byte>): (frame: Frame)
    ensures |frame.nonce| == NONCE_LEN
  {
    Frame(kind, mime, Ok, WorkerNonce(), payload)
  }

  function Paired(kind: Kind): Kind
    requires IsRequest(kind)
  {
    match kind
    case Put => PutResult
    case Get => GetResult
    case Probe => ProbeResult
  }

  /** A valid frame from the worker. */
  predicate Genuine(frame: Frame) {
    ValidFrame(frame) && frame.nonce == WorkerNonce()
  }

  /** Why a worker's answer does not stand for success: it is no answer to the request, or it says so itself. */
  function Complaint(answer: Frame, kind: Kind): Option<AgentError> {
    if answer.kind != kind then Some(AgentError(InvalidRequest)) else if answer.status != Ok then Some(AgentError(answer.status)) else None
  }

  /** A helper process: its standard input and everything it will write. */
  class Worker {
    const id: nat
    const input: Writer
    const output: Reader
    const timedOut: bool

    constructor (id: nat, input: Writer, output: Reader, timedOut: bool)
      ensures this.id == id && this.input == input && this.output == output && this.timedOut == timedOut
    {
      this.id, this.input, this.output, this.timedOut := id, input, output, timedOut;
    }

    /** Send one request and read one answer. */
    method Exchange(request: Frame) returns (r: Result<Frame, AgentError>)
      requires |request.nonce| == NONCE_LEN
      modifies input, output
      ensures r.Success? ==> ValidFrame(r.value) && r.value.nonce == WorkerNonce()
      ensures r.Failure? ==> r.error.status != Ok
      ensures r.Success? ==> Carries(old(output.pending), r.value, output.pending)
      ensures r.Success? ==> input.written == old(input.written) + Encode(request)
      ensures forall answer, rest {:trigger Carries(old(output.pending), answer, rest)} ::
        (input.reliable && ValidFrame(request) && Genuine(answer) && Carries(old(output.pending), answer, rest)) ==> r == Success(answer)
      // and what is no such answer is refused for what is wrong with it
      ensures input.reliable && ValidFrame(request) ==>
        match Decode(old(output.pending))
        case Success((answer, _)) => answer.nonce == WorkerNonce() || r == Failure(AgentError(InvalidRequest))
        case Failure(PayloadTooLarge(_, _)) => r == Failure(AgentError(TooLarge))
        case Failure(Io) => r == Failure(AgentError(if timedOut then Timeout else Internal))
        case Failure(_) => r == Failure(AgentError(InvalidRequest))
    {
      hide Encode, Decode;
      ghost var pending := output.pending;
      var error := WriteFrame(input, request);
      if error.Some? {
        return Failure(ProtocolFailure(error.value, timedOut));
      }
      var response := ReadFrame(output);
      forall answer, rest | ValidFrame(answer) && Carries(pending, answer, rest)
        ensures Decode(pending) == Success((answer, rest))
      {
        DecodeEncode(answer, rest);
      }
      if response.Failure? {
        return Failure(ProtocolFailure(response.error, timedOut));
      }
      EncodeDecode(pending);
      if response.value.nonce != WorkerNonce() {
        return Failure(AgentError(InvalidRequest));
      }
      return Success(response.value);
    }
  }

  /** Of a valid frame nothing but its kind and its status needs to be checked. */
  lemma Validated(answer: Frame, kind: Kind, mime: Mime)
    requires ValidFrame(answer) && (mime == answer.mime || (mime.NoMime? && (kind.PutResult? || kind.ProbeResult?)))
    ensures ValidateWorkerResponse(answer, kind, mime) == Complaint(answer, kind)
    ensures answer.nonce == WorkerNonce() && Complaint(answer, kind).None? && (kind.PutResult? || kind.ProbeResult?) ==>
      answer == WorkerFrame(kind, NoMime, [])
    ensures Complaint(answer, kind).None? && kind.GetResult? ==> !answer.mime.NoMime? && |answer.payload| <= PayloadLimit(answer.mime)
  {
    ShapeExact(answer);
  }

  /** The backend: at most one worker is kept, the owner of the current selection. */
  class WaylandClipboard {
    var owner: Option<nat>

    constructor ()
      ensures owner == None
    {
      owner := None;
    }

    /** Forget an owner that has exited. */
    method ReapFinishedOwner(running: bool)
      modifies this
      ensures owner == if running then old(owner) else None
    {
      if !running {
        owner := None;
      }
    }

    method Probe(worker: Option<Worker>, running: bool) returns (error: Option<AgentError>)
      modifies this, if worker.Some? then {worker.value.input, worker.value.output} else {}
      ensures error.Some? ==> error.value.status != Ok
      ensures worker.None? ==> error == Some(AgentError(Internal))
      // success is what a worker that was asked says, and whatever it says is passed on
      ensures error.None? ==>
        && worker.Some?
        && worker.value.input.written == old(worker.value.input.written) + Encode(WorkerFrame(Kind.Probe, NoMime, []))
        && Carries(old(worker.value.output.pending), WorkerFrame(ProbeResult, NoMime, []), worker.value.output.pending)
      ensures worker.Some? && worker.value.input.reliable ==>
        forall answer, rest {:trigger Carries(old(worker.value.output.pending), answer, rest)} ::
          Genuine(answer) && Carries(old(worker.value.output.pending), answer, rest) ==> error == Complaint(answer, ProbeResult)
      ensures owner == if running then old(owner) else None
    {
      hide Encode;
      ReapFinishedOwner(running);
      if worker.None? {
        return Some(AgentError(Internal));
      }
      var request := WorkerFrame(Kind.Probe, NoMime, []);
      assert ValidFrame(request);
      var response := worker.value.Exchange(request);
      if response.Failure? {
        return Some(response.error);
      }
      Validated(response.value, ProbeResult, NoMime);
      error := ValidateWorkerResponse(response.value, ProbeResult, NoMime);
    }

    method Put(mime: Mime, payload: seq<Byte>, worker: Option<Worker>) returns (r: Result<nat, AgentError>)
      modifies this, if worker.Some? then {worker.value.input, worker.value.output} else {}
      ensures r.Failure? ==> r.error.status != Ok && owner == old(owner)
      ensures r.Success? ==> r.value == |payload| && worker.Some? && owner == Some(worker.value.id)
      // what cannot be put is refused
      ensures mime.NoMime? ==> r == Failure(AgentError(UnsupportedMime))
      ensures !mime.NoMime? && |payload| > PayloadLimit(mime) ==> r == Failure(AgentError(TooLarge))
      ensures !mime.NoMime? && |payload| <= PayloadLimit(mime) && worker.None? ==> r == Failure(AgentError(Internal))
      // the worker received exactly the content that was put and said so
      ensures r.Success? ==>
        && worker.value.input.written == old(worker.value.input.written) + Encode(WorkerFrame(Kind.Put, mime, payload))
        && Carries(old(worker.value.output.pending), WorkerFrame(PutResult, NoMime, []), worker.value.output.pending)
      // and whatever it says of acceptable content is passed on
      ensures worker.Some? && worker.value.input.reliable && !mime.NoMime? && |payload| <= PayloadLimit(mime) ==>
        forall answer, rest {:trigger Carries(old(worker.value.output.pending), answer, rest)} ::
          Genuine(answer) && Carries(old(worker.value.output.pending), answer, rest) ==>
            r == match Complaint(answer, PutResult) case None => Success(|payload|) case Some(error) => Failure(error)
    {
      hide Encode;
      if mime.NoMime? {
        return Failure(AgentError(UnsupportedMime));
      }
      if |payload| > PayloadLimit(mime) {
        return Failure(AgentError(TooLarge));
      }
      if worker.None? {
        return Failure(AgentError(Internal));
      }
      var request := WorkerFrame(Kind.Put, mime, payload);
      assert ValidFrame(request);
      var response := worker.value.Exchange(request);
      if response.Failure? {
        return Failure(response.error);
      }
      Validated(response.value, PutResult, NoMime);
      var error := ValidateWorkerResponse(response.value, PutResult, NoMime);
      if error.Some? {
        return Failure(error.value);
      }
      owner := Some(worker.value.id);
      return Success(|payload|);
    }

    method Get(worker: Option<Worker>, running: bool) returns (r: Result<(Mime, seq<Byte>), AgentError>)
      modifies this, if worker.Some? then {worker.value.input, worker.value.output} else {}
      ensures r.Failure? ==> r.error.status != Ok
      ensures worker.None? ==> r == Failure(AgentError(Internal))
      // what comes back is what the worker sent when it was asked
      ensures r.Success? ==>
        && worker.Some? && !r.value.0.NoMime? && |r.value.1| <= PayloadLimit(r.value.0)
        && worker.value.input.written == old(worker.value.input.written) + Encode(WorkerFrame(Kind.Get, NoMime, []))
        && Carries(old(worker.value.output.pending), WorkerFrame(GetResult, r.value.0, r.value.1), worker.value.output.pending)
      ensures worker.Some? && worker.value.input.reliable ==>
        forall answer, rest {:trigger Carries(old(worker.value.output.pending), answer, rest)} ::
          Genuine(answer) && Carries(old(worker.value.output.pending), answer, rest) ==>
            r == match Complaint(answer, GetResult) case None => Success((answer.mime, answer.payload)) case Some(error) => Failure(error)
      ensures owner == if running then old(owner) else None
    {
      hide Encode;
      ReapFinishedOwner(running);
      if worker.None? {
        return Failure(AgentError(Internal));
      }
      var request := WorkerFrame(Kind.Get, NoMime, []);
      var response := worker.value.Exchange(request);
      if response.Failure? {
        return Failure(response.error);
      }
      var answer := response.value;
      Validated(answer, GetResult, answer.mime);
      var error := ValidateWorkerResponse(answer, GetResult, answer.mime);
      if error.Some? {
        return Failure(error.value);
      }
      assert answer == WorkerFrame(GetResult, answer.mime, answer.payload);
      if answer.mime.NoMime? {
        return Failure(AgentError(UnsupportedMime));
      }
      return Success((answer.mime, answer.payload));
    }
  }

  datatype Response = Response(frame: Frame, auditBytes: nat)

  /** A request that cannot be met. */
  function Refusal(request: Frame, status: Status): Frame
    requires IsRequest(request.kind)
  {
    Frame(Paired(request.kind), NoMime, status, request.nonce, [])
  }

  /** What a worker said, passed on under the requester's nonce: its content, if it has any to give, or why it has none. */
  function PassedOn(request: Frame, said: Frame): Frame
    requires IsRequest(request.kind)
  {
    match Complaint(said, Paired(request.kind))
    case None => Frame(said.kind, said.mime, Ok, request.nonce, said.payload)
    case Some(error) => Refusal(request, error.status)
  }

  /** Content that may be put at all. */
  predicate Puttable(request: Frame) {
    request.kind.Put? ==> !request.mime.NoMime? && |request.payload| <= PayloadLimit(request.mime)
  }

  /** The answer to a request follows from what the worker, if there is one, has to say. */
  ghost predicate Answers(request: Frame, pending: Option<seq<Byte>>, reliable: bool, answer: Frame)
    requires IsRequest(request.kind)
  {
    && ValidFrame(answer) && answer.kind == Paired(request.kind) && answer.nonce == request.nonce
    && (!Puttable(request) ==> answer == Refusal(request, if request.mime.NoMime? then UnsupportedMime else TooLarge))
    && (Puttable(request) && pending.None? ==> answer == Refusal(request, Internal))
    && (answer.status.Ok? ==> pending.Some? && exists said, rest :: Carries(pending.value, said, rest) && Genuine(said) && answer == PassedOn(request, said))
    && (Puttable(request) && pending.Some? && reliable ==>
          forall said, rest {:trigger Carries(pending.value, said, rest)} ::
            Genuine(said) && Carries(pending.value, said, rest) ==> answer == PassedOn(request, said))
  }

  /** Answer one request frame; a frame that is no request is dropped. */
  method Dispatch(backend: WaylandClipboard, request: Frame, worker: Option<Worker>, running: bool) returns (r: Option<Response>)
    requires |request.nonce| == NONCE_LEN
    modifies backend, if worker.Some? then {worker.value.input, worker.value.output} else {}
    ensures r.None? <==> !IsRequest(request.kind)
    ensures r.Some? ==>
      Answers(request, if worker.Some? then Some(old(worker.value.output.pending)) else None, worker.Some? && worker.value.input.reliable,
              r.value.frame)
    // a request that succeeds reached the worker as it was made
    ensures r.Some? && r.value.frame.status.Ok? ==>
      worker.Some? && worker.value.input.written == old(worker.value.input.written) +
        Encode(if request.kind.Put? then WorkerFrame(Kind.Put, request.mime, request.payload) else WorkerFrame(request.kind, NoMime, []))
    ensures r.Some? ==> r.value.auditBytes == |if request.kind.Get? && r.value.frame.status.Ok? then r.value.frame.payload else request.payload|
    // who puts content owns the selection; what is put in vain changes no owner, and an owner that has exited is forgotten
    ensures r.Some? ==>
      backend.owner == match request.kind
        case Put => if r.value.frame.status.Ok? then Some(worker.value.id) else old(backend.owner)
        case _ => if running then old(backend.owner) else None
  {
    hide Encode;
    match request.kind {
      case Put =>
        var put := backend.Put(request.mime, request.payload, worker);
        match put {
          case Success(bytes) =>
            var frame := Frame(PutResult, NoMime, Ok, request.nonce, []);
            assert ValidateShape(frame).None? && Genuine(WorkerFrame(PutResult, NoMime, []));
            return Some(Response(frame, bytes));
          case Failure(error) =>
            return Some(Response(Frame(PutResult, NoMime, error.status, request.nonce, []), |request.payload|));
        }
      case Get =>
        var got := backend.Get(worker, running);
        match got {
          case Success((mime, payload)) =>
            var frame := Frame(GetResult, mime, Ok, request.nonce, payload);
            assert ValidateShape(frame).None? && Genuine(WorkerFrame(GetResult, mime, payload));
            return Some(Response(frame, |payload|));
          case Failure(error) =>
            return Some(Response(Frame(GetResult, NoMime, error.status, request.nonce, []), |request.payload|));
        }
      case Probe =>
        var error := backend.Probe(worker, running);
        match error {
          case None =>
            var frame := Frame(ProbeResult, NoMime, Ok, request.nonce, []);
            assert ValidateShape(frame).None? && Genuine(WorkerFrame(ProbeResult, NoMime, []));
            return Some(Response(frame, |request.payload|));
          case Some(failure) =>
            return Some(Response(Frame(ProbeResult, NoMime, failure.status, request.nonce, []), |request.payload|));
        }
      case _ =>
        return None;
    }
  }

  /** One connection: read a request, answer it, write the answer. */
  method ServeConnection(requests: Reader, responses: Writer, backend: WaylandClipboard, worker: Option<Worker>, running: bool)
    returns (r: Result<Frame, AgentError>)
    requires worker.Some? ==> worker.value.input != responses && worker.value.output != requests
    modifies requests, responses, backend, if worker.Some? then {worker.value.input, worker.value.output} else {}
    ensures r.Failure? ==> r.error.status != Ok
    // a peer that reads the answer finds one valid frame for the request it sent
    ensures r.Success? ==>
      && Decode(old(requests.pending)).Success?
      && responses.written == old(responses.written) + Encode(r.value)
      && var request := Decode(old(requests.pending)).value.0;
         && IsRequest(request.kind)
         && Answers(request, if worker.Some? then Some(old(worker.value.output.pending)) else None,
                    worker.Some? && worker.value.input.reliable, r.value)
    ensures var read := Decode(old(requests.pending));
      responses.reliable && read.Success? && IsRequest(read.value.0.kind) ==> r.Success?
    // a peer that sends no request gets no answer, and the reason is known
    ensures match Decode(old(requests.pending))
      case Success((request, _)) =>
        !IsRequest(request.kind) ==> r == Failure(AgentError(InvalidRequest)) && responses.written == old(responses.written)
      case Failure(error) =>
        && responses.written == old(responses.written)
        && r == Failure(AgentError(if error.PayloadTooLarge? then TooLarge else if error.Io? then Internal else InvalidRequest))
  {
    hide Encode, Decode;
    ghost var pending := requests.pending;
    var request := ReadFrame(requests);
    if request.Failure? {
      return Failure(ProtocolFailure(request.error, false));
    }
    EncodeDecode(pending);
    ghost var before := responses.written;
    var answer := Dispatch(backend, request.value, worker, running);
    if answer.None? {
      return Failure(AgentError(InvalidRequest));
    }
    assert responses.written == before;
    var error := WriteFrame(responses, answer.value.frame);
    if error.Some? {
      return Failure(ProtocolFailure(error.value, false));
    }
    return Success(answer.value.frame);
  }
}
