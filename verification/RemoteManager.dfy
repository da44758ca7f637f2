/** Pushing an image to a remote node, with progress reported from inside the reads of the upload. */
module RemoteManager {
  import opened Wrappers
  import opened Bytes
  import opened ImageTransfer

  datatype ImageInfo = ImageInfo(imageId: string, hash: string)

  datatype PushError = ListLocalFailed | NotFoundLocally | ListRemoteFailed | DownloadFailed | UploadFailed

  const MAX_INT64: int := 0x7fff_ffff_ffff_ffff
  const TWO_TO_64: int := 0x1_0000_0000_0000_0000

  /** The value of a number in 64-bit two's complement. */
  function Int64(x: int): (y: int)
    ensures -MAX_INT64 - 1 <= y <= MAX_INT64
    ensures -MAX_INT64 - 1 <= x <= MAX_INT64 ==> y == x
    ensures (y - x) % TWO_TO_64 == 0
  {
    var low := x % TWO_TO_64;
    if low <= MAX_INT64 then low else low - TWO_TO_64
  }

  /** Division that truncates toward zero. */
  function Quotient(x: int, y: int): int
    requires y > 0
  {
    if x >= 0 then x / y else -(-x / y)
  }

  /** The percentage as the code computes it. */
  function Percent(read: nat, total: nat): int
    requires total > 0
  {
    Quotient(Int64(read * 100), total)
  }

  lemma DivAtLeast(x: nat, k: int, t: nat)
    requires t > 0
    ensures x / t >= k <==> x >= k * t
  {
    var q := x / t;
    assert q * t <= x < q * t + t;
    if q >= k {
      MulNonNegative(q - k, t);
    } else {
      MulNonNegative(k - q - 1, t);
    }
  }

  lemma MulNonNegative(a: int, t: nat)
    requires a >= 0
    ensures a * t >= 0
  {
  }

  lemma DivFits(x: nat, y: nat)
    requires y > 0
    ensures x / y * y <= x < (x / y + 1) * y
  {
    var q := x / y;
    assert q * y <= x < q * y + y;
    assert (q + 1) * y == q * y + y;
  }

  lemma NegatedProduct(q: int, y: int)
    ensures -q * y == -(q * y)
  {
  }

  /** A truncated quotient: for either sign the whole number of times that the divisor fits in. */
  lemma QuotientFits(x: int, y: int)
    requires y > 0
    ensures x >= 0 ==> Quotient(x, y) * y <= x < (Quotient(x, y) + 1) * y
    ensures x <= 0 ==> (Quotient(x, y) - 1) * y < x <= Quotient(x, y) * y
  {
    if x >= 0 {
      DivFits(x, y);
    } else {
      var q := -x / y;
      DivFits(-x, y);
      NegatedProduct(q, y);
      NegatedProduct(q + 1, y);
      assert Quotient(x, y) == -q && -q - 1 == -(q + 1);
    }
  }

  /** The percentage is the whole number of hundredths of the file that was read. */
  lemma PercentBrackets(read: nat, total: nat)
    requires 0 < total && read <= total && total * 100 <= MAX_INT64
    ensures Percent(read, total) * total <= read * 100 < (Percent(read, total) + 1) * total
  {
    QuotientFits(read * 100, total);
  }

  lemma PercentBounds(read: nat, total: nat)
    requires 0 < total && read <= total && total * 100 <= MAX_INT64
    ensures 0 <= Percent(read, total) <= 100
    ensures Percent(read, total) == 100 <==> read == total
  {
    RatioBounds(read * 100, total);
  }

  lemma RatioBounds(x: nat, total: nat)
    requires 0 < total && x <= 100 * total
    ensures 0 <= x / total <= 100
    ensures x / total == 100 <==> x == 100 * total
  {
    DivAtLeast(x, 100, total);
    DivAtLeast(x, 101, total);
    DivAtLeast(x, 0, total);
  }

  lemma NothingReadIsZero(total: nat)
    requires total > 0
    ensures Percent(0, total) == 0
  {
    DivAtLeast(0, 0, total);
    DivAtLeast(0, 1, total);
  }

  lemma PercentMonotonic(read: nat, more: nat, total: nat)
    requires 0 < total && read <= more <= total && total * 100 <= MAX_INT64
    ensures Percent(read, total) <= Percent(more, total)
  {
    DivAtLeast(read * 100, read * 100 / total, total);
    DivAtLeast(more * 100, read * 100 / total, total);
  }

  /** The percentage of a finished file is 100 exactly when a hundred times its size fits into 64 bits. */
  lemma FinishedIsHundredExactly(total: nat)
    requires 0 < total <= MAX_INT64
    ensures Percent(total, total) == 100 <==> total * 100 <= MAX_INT64
  {
    if total * 100 <= MAX_INT64 {
      PercentBounds(total, total);
    } else if Int64(total * 100) >= 0 {
      DivAtLeast(Int64(total * 100), 100, total);
    } else {
      DivAtLeast(-Int64(total * 100), 0, total);
    }
  }

  ghost predicate StrictlyIncreasing(events: seq<int>) {
    forall i, j | 0 <= i < j < |events| :: events[i] < events[j]
  }

  /** Strictly increasing percentages between 1 and 100 are at most a hundred. */
  lemma FewEvents(events: seq<int>)
    requires StrictlyIncreasing(events) && forall e <- events :: 1 <= e <= 100
    ensures |events| <= 100
  {
    if events != [] {
      FewEventsUpTo(events, 0, |events| - 1);
      assert events[|events| - 1] in events;
    }
  }

  lemma {:induction false} FewEventsUpTo(events: seq<int>, low: int, n: nat)
    requires StrictlyIncreasing(events) && n < |events| && forall e <- events :: low < e
    ensures events[n] >= low + n + 1
  {
    if n > 0 {
      FewEventsUpTo(events, low, n - 1);
      assert events[n - 1] < events[n];
    } else {
      assert events[0] in events;
    }
  }

  class ProgressFile {
    const file: seq<byte>
    var read: nat
    var lastPct: int
    var events: seq<int>        // percentages published, oldest first

    constructor (file: seq<byte>)
      ensures this.file == file && read == 0 && lastPct == 0 && events == []
    {
      this.file, read, lastPct, events := file, 0, 0, [];
    }

    /** A hundred times the size fits into 64 bits. */
    predicate Fits() {
      |file| * 100 <= MAX_INT64
    }

    /** The published percentages end at the current one and, for sizes that fit, rise strictly to it. */
    ghost predicate Valid()
      reads this
    {
      && read <= |file|
      && (|file| > 0 && read > 0 ==> lastPct == Percent(read, |file|))
      && (|file| == 0 || read == 0 ==> lastPct == 0 && events == [])
      && (if events == [] then lastPct == 0 else events[|events| - 1] == lastPct)
      && (Fits() ==> StrictlyIncreasing(events) && forall e <- events :: 0 < e <= lastPct)
    }

    method Read(buffer: array<byte>, wanted: nat) returns (n: nat)
      requires Valid() && buffer.Length > 0
      modifies this`read, this`lastPct, this`events, buffer
      ensures Valid()
      ensures n == ReadSize(wanted, |file| - old(read), buffer.Length) && read == old(read) + n
      ensures file == [] ==> events == old(events)
      ensures file != [] ==>
                events == old(events) + if Percent(read, |file|) != old(lastPct) then [Percent(read, |file|)] else []
      ensures buffer[..n] == file[old(read)..read]
    {
      n := ImageTransfer.Read(file, read, buffer, wanted);
      if |file| > 0 && Fits() {
        PercentBounds(0, |file|);
        PercentBounds(read, |file|);
        PercentMonotonic(read, read + n, |file|);
        PercentBounds(read + n, |file|);
      }
      read := read + n;
      if |file| > 0 {
        var pct := Percent(read, |file|);
        if pct != lastPct {
          lastPct := pct;
          events := events + [pct];
        }
      }
    }
  }

  /** The percentage reached after so many of the requests. */
  function PercentAfter(requests: seq<UploadRequest>, k: nat, total: nat): int
    requires total > 0 && k <= |requests|
  {
    Percent(|Join(Chunks(requests[..k]))|, total)
  }

  /** Every percentage that is reached is reported, unless it is still 0, and no other is. */
  ghost predicate Reports(events: seq<int>, requests: seq<UploadRequest>, read: nat, total: nat)
    requires total > 0
  {
    && (forall k | 0 < k <= |requests| :: PercentAfter(requests, k, total) in [0] + events)
    && (forall e <- events ::
          e == Percent(read, total) || exists k :: 0 < k <= |requests| && e == PercentAfter(requests, k, total))
  }

  /** One more read, whose bytes are sent or not. */
  lemma OneMoreRead(events: seq<int>, requests: seq<UploadRequest>, request: UploadRequest, total: nat, next: seq<int>)
    requires total > 0 && Reports(events, requests, |Join(Chunks(requests))|, total)
    requires requests == [] ==> events == []
    requires
      var pct := Percent(|Join(Chunks(requests + [request]))|, total);
      (next == events || next == events + [pct]) && pct in [0] + next
    ensures
      var read, sent := |Join(Chunks(requests + [request]))|, requests + [request];
      Reports(next, requests, read, total) && Reports(next, sent, read, total)
  {
    var sent := requests + [request];
    hide Percent, Join, Chunks;
    assert requests[..|requests|] == requests && sent[..|sent|] == sent;
    assert forall k | 0 < k <= |requests| :: sent[..k] == requests[..k];
    assert forall k | 0 < k <= |requests| :: PercentAfter(sent, k, total) == PercentAfter(requests, k, total);
    assert PercentAfter(sent, |sent|, total) == Percent(|Join(Chunks(sent))|, total);
    assert requests != [] ==> PercentAfter(requests, |requests|, total) == Percent(|Join(Chunks(requests))|, total);
  }

  /** The upload loop of the image client, reading through the progress file. */
  method UploadWithProgress(name: string, pf: ProgressFile, sizes: nat -> nat, fault: SendFault)
    returns (r: Result<(), SendError>, requests: seq<UploadRequest>)
    requires pf.Valid() && pf.read == 0
    modifies pf`read, pf`lastPct, pf`events
    ensures pf.Valid()
    ensures forall request <- requests :: request.imageId == name && 0 < |request.chunk| <= UPLOAD_BUFFER
    ensures Join(Chunks(requests)) <= pf.file && |Join(Chunks(requests))| <= pf.read
    ensures r == SendResult(fault, |requests|, Join(Chunks(requests)) == pf.file)
    ensures r == Err(NoStream) <==> fault.StreamFails?
    ensures r == Err(ReadFailed) <==> fault == ReadFails(|requests|)
    ensures r == Err(SendFailed) <==> fault == SendFails(|requests|) && Join(Chunks(requests)) != pf.file
    ensures r == Err(Rejected) <==> fault.Refused?
    ensures r.Ok? || fault.Refused? ==> pf.read == |pf.file| && Join(Chunks(requests)) == pf.file
    ensures pf.file != [] ==> Reports(pf.events, requests, pf.read, |pf.file|)
  {
    requests := [];
    assert pf.events == [] && Join(Chunks(requests)) == [];
    if pf.file != [] {
      NothingReadIsZero(|pf.file|);
      assert Reports([], [], 0, |pf.file|);
    }
    hide Percent, Reports, Join, Chunks, StrictlyIncreasing, ReadSize;
    if fault.StreamFails? {
      return Err(NoStream), [];
    }
    var buffer := new byte[UPLOAD_BUFFER];
    while true
      invariant pf.Valid()
      invariant forall request <- requests :: request.imageId == name && 0 < |request.chunk| <= UPLOAD_BUFFER
      invariant Join(Chunks(requests)) == pf.file[..pf.read]
      invariant pf.file != [] ==> Reports(pf.events, requests, pf.read, |pf.file|)
      decreases |pf.file| - pf.read
    {
      if fault == ReadFails(|requests|) {
        return Err(ReadFailed), requests;
      }
      ghost var position, events := pf.read, pf.events;
      var n := pf.Read(buffer, sizes(|requests|));
      if n == 0 {
        break;
      }
      var request := UploadRequest(name, buffer[..n]);
      MoreSent(requests, request);
      assert pf.file[..position] + pf.file[position..pf.read] == pf.file[..pf.read];
      OneMoreRead(events, requests, request, |pf.file|, pf.events);
      if fault == SendFails(|requests|) {
        return Err(SendFailed), requests;
      }
      requests := requests + [request];
    }
    assert pf.file[..|pf.file|] == pf.file;
    r := if fault.Refused? then Err(Rejected) else Ok(());
  }

  /** The hash of the first entry for the image, or nothing. */
  function HashOf(images: seq<ImageInfo>, imageId: string): string {
    if images == [] then ""
    else if images[0].imageId == imageId then images[0].hash
    else HashOf(images[1..], imageId)
  }

  /** It is the hash of the first entry that is about the image, and nothing if none is. */
  lemma {:induction false} HashOfFirst(images: seq<ImageInfo>, imageId: string, k: nat)
    requires forall j | 0 <= j < k && j < |images| :: images[j].imageId != imageId
    requires k < |images| ==> images[k].imageId == imageId
    ensures HashOf(images, imageId) == if k < |images| then images[k].hash else ""
  {
    if images != [] && k > 0 {
      HashOfFirst(images[1..], imageId, k - 1);
    }
  }

  /** The progress of a successful push: 0, then a strict rise from the reads that ends at 100, then 100 once more. */
  ghost predicate PushProgress(events: seq<int>) {
    && 3 <= |events| <= 102
    && events[0] == 0
    && events[|events| - 1] == 100
    && var rise := events[1..|events| - 1];
    && StrictlyIncreasing(rise) && (forall e <- rise :: 1 <= e <= 100) && rise[|rise| - 1] == 100
  }

  /** The progress of any push: 0, then a strict rise between 1 and 100. */
  ghost predicate RisingProgress(events: seq<int>) {
    && 1 <= |events| <= 101
    && events[0] == 0
    && StrictlyIncreasing(events[1..]) && (forall e <- events[1..] :: 1 <= e <= 100)
  }

  /**
    Makes sure that the remote node has the image. `local` and `remote` are the two listings, `file` the image as
    downloaded to a temporary file, `sizes` how much each read returns, and `fault` where the
    upload fails. `read` is how much of the file was read for it.
   */
  method EnsureImage(imageId: string, local: Option<seq<ImageInfo>>, remote: Option<seq<ImageInfo>>,
                     file: Option<seq<byte>>, sizes: nat -> nat, fault: SendFault)
    returns (r: Result<(), PushError>, events: seq<int>, sent: Option<seq<UploadRequest>>, read: nat)
    requires file.Some? ==> |file.value| <= MAX_INT64
    ensures r == Err(ListLocalFailed) <==> local.None?
    ensures r == Err(NotFoundLocally) <==> local.Some? && HashOf(local.value, imageId) == ""
    ensures r == Err(ListRemoteFailed) <==> local.Some? && HashOf(local.value, imageId) != "" && remote.None?
    ensures sent.None? && r.Ok? <==>
            && local.Some? && HashOf(local.value, imageId) != ""
            && remote.Some? && ImageInfo(imageId, HashOf(local.value, imageId)) in remote.value
    ensures
      var pushed := && local.Some? && HashOf(local.value, imageId) != ""
                    && remote.Some? && ImageInfo(imageId, HashOf(local.value, imageId)) !in remote.value;
      && (r == Err(DownloadFailed) <==> pushed && file.None?)
      && (sent.Some? <==> pushed && file.Some?)
    ensures sent.Some? ==> forall request <- sent.value ::
                request.imageId == imageId && 0 < |request.chunk| <= UPLOAD_BUFFER
    ensures sent.None? ==> events == [] || (events == [0] && r == Err(DownloadFailed))
    ensures sent.Some? ==>
              && file.Some? && Join(Chunks(sent.value)) <= file.value
              && |Join(Chunks(sent.value))| <= read <= |file.value|
              && r == (if SendResult(fault, |sent.value|, Join(Chunks(sent.value)) == file.value).Ok? then Ok(())
                       else Err(UploadFailed))
    ensures sent.Some? && (r.Ok? || fault.Refused?) ==> Join(Chunks(sent.value)) == file.value && read == |file.value|
    ensures sent.Some? && r.Ok? && file.value != [] ==> (PushProgress(events) <==> |file.value| * 100 <= MAX_INT64)
    ensures sent.Some? && r.Err? && |file.value| * 100 <= MAX_INT64 ==> RisingProgress(events)
    ensures sent.Some? && r.Err? && file.value != [] ==>
              events != [] && events[|events| - 1] == Percent(read, |file.value|)
    ensures sent.Some? && file.value == [] ==> events == if r.Ok? then [0, 100] else [0]
    ensures sent.Some? && file.value != [] ==>
              && |events| >= 1 + (if r.Ok? then 1 else 0)
              && Reports(events[1..|events| - if r.Ok? then 1 else 0], sent.value, read, |file.value|)
  {
    hide Percent, Join, Chunks, Reports;
    events, sent, read := [], None, 0;
    if local.None? {
      return Err(ListLocalFailed), [], None, 0;
    }
    var localHash := "";
    var i := 0;
    while i < |local.value|
      invariant 0 <= i <= |local.value|
      invariant HashOf(local.value, imageId) == HashOf(local.value[i..], imageId)
    {
      if local.value[i].imageId == imageId {
        localHash := local.value[i].hash;
        break;
      }
      i := i + 1;
    }
    assert localHash == HashOf(local.value, imageId);
    if localHash == "" {
      return Err(NotFoundLocally), [], None, 0;
    }
    if remote.None? {
      return Err(ListRemoteFailed), [], None, 0;
    }
    for j := 0 to |remote.value|
      invariant ImageInfo(imageId, localHash) !in remote.value[..j]
    {
      if remote.value[j].imageId == imageId && remote.value[j].hash == localHash {
        assert remote.value[j] == ImageInfo(imageId, localHash);
        return Ok(()), [], None, 0;
      }
    }
    assert remote.value[..|remote.value|] == remote.value;
    events := [0];
    if file.None? {
      return Err(DownloadFailed), events, None, 0;
    }
    var pf := new ProgressFile(file.value);
    var uploaded, requests := UploadWithProgress(imageId, pf, sizes, fault);
    events := events + pf.events;
    assert events[1..] == events[1..|events| - 0] == pf.events;
    sent, read := Some(requests), pf.read;
    if file.value != [] {
      NothingReadIsZero(|file.value|);
      FinishedIsHundredExactly(|file.value|);
      if pf.Fits() {
        PercentBounds(pf.read, |file.value|);
        FewEvents(pf.events);
      }
    }
    if uploaded.Err? {
      r := Err(UploadFailed);
      return;
    }
    events := events + [100];
    assert events[1..|events| - 1] == pf.events;
    r := Ok(());
  }
}
