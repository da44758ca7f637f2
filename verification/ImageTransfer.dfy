/** The image client: a file is sent in chunks read through one buffer, and received chunks are appended to a file. */
module ImageTransfer {
  import opened Wrappers
  import opened Bytes

  datatype UploadRequest = UploadRequest(imageId: string, chunk: seq<byte>)

  const UPLOAD_BUFFER: nat := 64 * 1024

  /** How many bytes a read returns: at least one while data is left, at most what is left and what the buffer holds. */
  function ReadSize(wanted: nat, left: nat, buffer: nat): (n: nat)
    requires buffer > 0
    ensures n <= left && n <= buffer
    ensures n == 0 <==> left == 0
  {
    var most := if left < buffer then left else buffer;
    if most == 0 then 0 else if wanted == 0 then 1 else if wanted < most then wanted else most
  }

  function Chunks(requests: seq<UploadRequest>): (chunks: seq<seq<byte>>)
    ensures |chunks| == |requests|
    ensures forall i | 0 <= i < |requests| :: chunks[i] == requests[i].chunk
  {
    seq(|requests|, i requires 0 <= i < |requests| => requests[i].chunk)
  }

  /** Reads up to the buffer's size into the buffer; `wanted` is how much the file system cares to return. */
  method Read(file: seq<byte>, position: nat, buffer: array<byte>, wanted: nat) returns (n: nat)
    requires position <= |file| && buffer.Length > 0
    modifies buffer
    ensures n == ReadSize(wanted, |file| - position, buffer.Length)
    ensures buffer[..n] == file[position..position + n]
  {
    n := ReadSize(wanted, |file| - position, buffer.Length);
    for i := 0 to n
      invariant buffer[..i] == file[position..position + i]
    {
      buffer[i] := file[position + i];
    }
  }

  /**
    Where an upload fails: opening the stream, a read, a send, or
    the registry's answer. Reads and sends are counted from zero.
   */
  datatype SendFault = SendsFine | StreamFails | ReadFails(turn: nat) | SendFails(turn: nat) | Refused

  datatype SendError = NoStream | ReadFailed | SendFailed | Rejected

  /** What an upload comes to when it has sent so many chunks, and all of the file or only a part. */
  function SendResult(fault: SendFault, sent: nat, all: bool): Result<(), SendError> {
    match fault
    case StreamFails => Err(NoStream)
    case ReadFails(turn) => if sent == turn then Err(ReadFailed) else Ok(())
    case SendFails(turn) => if sent == turn && !all then Err(SendFailed) else Ok(())
    case Refused => Err(Rejected)
    case SendsFine => Ok(())
  }

  /** Sends a file; `sizes` tells how much each read returns. What was sent is always a prefix of the file. */
  method Upload(name: string, file: seq<byte>, sizes: nat -> nat, fault: SendFault)
    returns (r: Result<(), SendError>, requests: seq<UploadRequest>)
    ensures forall request <- requests :: request.imageId == name && 0 < |request.chunk| <= UPLOAD_BUFFER
    ensures Join(Chunks(requests)) <= file
    ensures r == SendResult(fault, |requests|, Join(Chunks(requests)) == file)
    ensures r == Err(NoStream) <==> fault.StreamFails?
    ensures r == Err(ReadFailed) <==> fault == ReadFails(|requests|)
    ensures r == Err(SendFailed) <==> fault == SendFails(|requests|) && Join(Chunks(requests)) != file
    ensures r == Err(Rejected) <==> fault.Refused?
    ensures r.Ok? || fault.Refused? ==> Join(Chunks(requests)) == file
  {
    requests := [];
    if fault.StreamFails? {
      return Err(NoStream), [];
    }
    var buffer := new byte[UPLOAD_BUFFER];
    var position := 0;
    while true
      invariant position <= |file|
      invariant forall request <- requests :: request.imageId == name && 0 < |request.chunk| <= UPLOAD_BUFFER
      invariant Join(Chunks(requests)) == file[..position]
      decreases |file| - position
    {
      if fault == ReadFails(|requests|) {
        return Err(ReadFailed), requests;
      }
      var n := Read(file, position, buffer, sizes(|requests|));
      if n == 0 {
        break;
      }
      if fault == SendFails(|requests|) {
        return Err(SendFailed), requests;
      }
      MoreSent(requests, UploadRequest(name, buffer[..n]));
      requests := requests + [UploadRequest(name, buffer[..n])];
      assert file[..position] + file[position..position + n] == file[..position + n];
      position := position + n;
    }
    assert file[..|file|] == file;
    r := if fault.Refused? then Err(Rejected) else Ok(());
  }

  lemma MoreSent(requests: seq<UploadRequest>, request: UploadRequest)
    ensures Join(Chunks(requests + [request])) == Join(Chunks(requests)) + request.chunk
  {
    assert Chunks(requests + [request]) == Chunks(requests) + [request.chunk];
    JoinSnoc(Chunks(requests), request.chunk);
  }

  /**
    Where a download fails: creating the file, opening the stream, the stream after the chunks it delivered, writing
    a chunk, of which a part is then in the file, or closing the file.
   */
  datatype ReceiveFault =
    | ReceivesFine
    | CreateFails
    | RequestFails
    | StreamBreaks
    | WriteFails(at: nat, kept: nat)
    | CloseFails

  /** A fault that strikes; a write can only fail on a chunk that arrives. */
  predicate Strikes(chunks: seq<seq<byte>>, fault: ReceiveFault) {
    !fault.ReceivesFine? && (fault.WriteFails? ==> fault.at < |chunks|)
  }

  /** What is in the file afterwards, if it could be created. */
  function Received(chunks: seq<seq<byte>>, fault: ReceiveFault): Option<seq<byte>> {
    if fault.CreateFails? then None
    else if fault.RequestFails? then Some([])
    else if fault.WriteFails? && fault.at < |chunks| then
      var chunk := chunks[fault.at];
      Some(Join(chunks[..fault.at]) + if fault.kept <= |chunk| then chunk[..fault.kept] else chunk)
    else Some(Join(chunks))
  }

  /** Writes the received chunks to a new file. */
  method Download(chunks: seq<seq<byte>>, fault: ReceiveFault) returns (r: Result<(), ()>, file: Option<seq<byte>>)
    ensures r.Err? <==> Strikes(chunks, fault)
    ensures file == Received(chunks, fault)
    ensures r.Ok? ==> file == Some(Join(chunks))
    ensures r.Ok? <==> fault.ReceivesFine? || (fault.WriteFails? && fault.at >= |chunks|)
    ensures file.None? <==> fault.CreateFails?
    ensures file.Some? ==> file.value <= Join(chunks)
    ensures r.Err? && fault.WriteFails? && fault.kept <= |chunks[fault.at]| ==>
              file == Some(Join(chunks[..fault.at]) + chunks[fault.at][..fault.kept])
    ensures fault.StreamBreaks? || fault.CloseFails? ==> file == Some(Join(chunks))
  {
    if fault.CreateFails? {
      return Err(()), None;
    }
    var written: seq<byte> := [];
    if fault.RequestFails? {
      return Err(()), Some(written);
    }
    for i := 0 to |chunks|
      invariant written == Join(chunks[..i]) && !(fault.WriteFails? && fault.at < i)
    {
      if fault.WriteFails? && fault.at == i {
        assert chunks[..i + 1][..i] == chunks[..i];
        JoinPrefix(chunks, i + 1);
        written := written + if fault.kept <= |chunks[i]| then chunks[i][..fault.kept] else chunks[i];
        return Err(()), Some(written);
      }
      assert chunks[..i + 1][..i] == chunks[..i];
      written := written + chunks[i];
    }
    assert chunks[..|chunks|] == chunks;
    file := Some(written);
    r := if fault.StreamBreaks? || fault.CloseFails? then Err(()) else Ok(());
  }
}
