/** Walking the records of a packet-capture read buffer: header, frame, padding to a word boundary. */
module BpfPackets {
  import opened Wrappers
  import opened Bytes
  import opened Yielding

  const HDR_SIZE: nat := 20

  /** A frame's place in the buffer. */
  datatype Window = Window(start: nat, end: nat)

  /** A 16-bit number at a place, least significant byte first, as the host stores it. */
  function Uint16(b: seq<byte>, at: nat): nat
    requires at + 2 <= |b|
  {
    b[at] as nat + 0x100 * b[at + 1] as nat
  }

  /** A 32-bit number at a place. */
  function Uint32(b: seq<byte>, at: nat): nat
    requires at + 4 <= |b|
  {
    b[at] as nat + 0x100 * b[at + 1] as nat + 0x1_0000 * b[at + 2] as nat + 0x100_0000 * b[at + 3] as nat
  }

  function PutUint16(v: nat): (b: seq<byte>)
    requires v < 0x1_0000
    ensures |b| == 2 && Uint16(b, 0) == v
  {
    [(v % 0x100) as byte, (v / 0x100) as byte]
  }

  function PutUint32(v: nat): (b: seq<byte>)
    requires v < 0x1_0000_0000
    ensures |b| == 4 && Uint32(b, 0) == v
  {
    PutUint16(v % 0x1_0000) + PutUint16(v / 0x1_0000)
  }

  /** The next word boundary. */
  function Aligned(n: nat): (r: nat)
    ensures n <= r < n + 4 && r % 4 == 0
  {
    (n + 3) / 4 * 4
  }

  lemma AlignedBehind(offset: nat, n: nat)
    requires Aligned(offset) == offset
    ensures Aligned(offset + n) == offset + Aligned(n)
  {
  }

  /** The frame whose header stands at an offset, if header and frame are complete and neither length is zero. */
  function WindowAt(data: seq<byte>, offset: nat): (r: Option<Window>)
    ensures r.Some? ==> offset < r.value.start < r.value.end <= |data|
  {
    if offset + HDR_SIZE > |data| then None
    else
      var caplen := Uint32(data, offset + 8);
      var hdrlen := Uint16(data, offset + 16);
      if hdrlen == 0 || caplen == 0 || offset + hdrlen + caplen > |data| then None
      else Some(Window(offset + hdrlen, offset + hdrlen + caplen))
  }

  /** All frames from an offset on. */
  function Windows(data: seq<byte>, offset: nat): seq<Window>
    decreases |data| - offset
  {
    match WindowAt(data, offset)
    case None => []
    case Some(w) => [w] + Windows(data, Aligned(w.end))
  }

  /** Windows behind an offset that are not empty, lie inside the buffer and follow one another without overlap. */
  ghost predicate Apart(n: nat, offset: nat, ws: seq<Window>) {
    && (forall i | 0 <= i < |ws| :: offset < ws[i].start < ws[i].end <= n)
    && (forall i, j | 0 <= i < j < |ws| :: ws[i].end < ws[j].start)
  }

  lemma {:induction false} WindowsApart(data: seq<byte>, offset: nat)
    ensures Apart(|data|, offset, Windows(data, offset))
    decreases |data| - offset
  {
    match WindowAt(data, offset)
    case None =>
    case Some(w) =>
      WindowsApart(data, Aligned(w.end));
      assert Windows(data, offset) == [w] + Windows(data, Aligned(w.end));
  }

  lemma WindowsFrom(data: seq<byte>, offset: nat)
    ensures Windows(data, offset) == match WindowAt(data, offset)
                                     case None => []
                                     case Some(w) => [w] + Windows(data, Aligned(w.end))
  {
  }

  /** The frames taken so far, with those from the offset on, are all frames. */
  ghost predicate Taken(data: seq<byte>, all: seq<Window>, taken: seq<Window>, offset: nat) {
    taken + Windows(data, offset) == all
  }

  lemma TakenOne(data: seq<byte>, all: seq<Window>, taken: seq<Window>, offset: nat)
    requires Taken(data, all, taken, offset)
    ensures
      match WindowAt(data, offset)
      case None => taken == all
      case Some(w) => Taken(data, all, taken + [w], Aligned(w.end)) && taken + [w] <= all
  {
    WindowsFrom(data, offset);
    match WindowAt(data, offset)
    case None =>
    case Some(w) =>
      assert taken + [w] + Windows(data, Aligned(w.end)) == taken + Windows(data, offset);
  }

  /** Reads the header at an offset. */
  method ReadHeader(data: array<byte>, n: nat, offset: nat) returns (frame: Option<Window>)
    requires n <= data.Length
    ensures frame == WindowAt(data[..n], offset)
    ensures
      offset + 20 <= n ==>
        var caplen := data[offset + 8] as nat + 0x100 * data[offset + 9] as nat
                      + 0x1_0000 * data[offset + 10] as nat + 0x100_0000 * data[offset + 11] as nat;
        var hdrlen := data[offset + 16] as nat + 0x100 * data[offset + 17] as nat;
        frame == if hdrlen == 0 || caplen == 0 || offset + hdrlen + caplen > n then None
        else Some(Window(offset + hdrlen, offset + hdrlen + caplen))
    ensures offset + 20 > n ==> frame == None
  {
    if offset + HDR_SIZE > n {
      return None;
    }
    var hdr := data[offset..n];
    var caplen, hdrlen := Uint32(hdr, 8), Uint16(hdr, 16);
    if hdrlen == 0 || caplen == 0 {
      return None;
    }
    var packetOffset := offset + hdrlen;
    var packetEnd := packetOffset + caplen;
    if packetEnd > n {
      return None;
    }
    frame := Some(Window(packetOffset, packetEnd));
  }

  /** Yields the frames of the first `n` bytes in order to a consumer that may break off at any turn. */
  method Packets(data: array<byte>, n: nat, stop: nat -> bool) returns (windows: seq<Window>)
    requires n <= data.Length
    ensures windows <= Windows(data[..n], 0)
    ensures windows != [] ==> GoesOn(stop, |windows| - 1)
    ensures windows != Windows(data[..n], 0) ==> windows != [] && stop(|windows| - 1)
  {
    windows := [];
    var offset := 0;
    ghost var all := Windows(data[..n], 0);
    while offset < n
      invariant offset >= 0 && Taken(data[..n], all, windows, offset)
      invariant GoesOn(stop, |windows|)
    {
      TakenOne(data[..n], all, windows, offset);
      var frame := ReadHeader(data, n, offset);
      if frame.None? {
        return;
      }
      GoesOnLonger(stop, |windows|);
      windows := windows + [frame.value];
      if stop(|windows| - 1) {
        return;
      }
      offset := Aligned(frame.value.end);
    }
    TakenOne(data[..n], all, windows, offset);
  }

  // ---- The records that a capture device writes ----

  /** A record: time stamp, original length, what follows the header's fields up to the frame, the frame, padding. */
  datatype RawRecord = RawRecord(stamp: seq<byte>, original: seq<byte>, slack: seq<byte>, payload: seq<byte>,
                                 padding: seq<byte>)

  function HeaderLength(r: RawRecord): nat {
    18 + |r.slack|
  }

  /** The lengths fit their fields, the frame is not empty, and the padding reaches exactly the next word. */
  predicate WellFormed(r: RawRecord) {
    && |r.stamp| == 8 && |r.original| == 4
    && HeaderLength(r) < 0x1_0000 && 0 < |r.payload| < 0x1_0000_0000
    && HeaderLength(r) + |r.payload| >= HDR_SIZE
    && HeaderLength(r) + |r.payload| + |r.padding| == Aligned(HeaderLength(r) + |r.payload|)
  }

  type Record = r: RawRecord | WellFormed(r)
    witness RawRecord([0, 0, 0, 0, 0, 0, 0, 0], [0, 0, 0, 0], [0, 0], [0], [0, 0, 0])

  function Header(r: Record): seq<byte> {
    r.stamp + PutUint32(|r.payload|) + r.original + PutUint16(HeaderLength(r)) + r.slack
  }

  function EncodeRecord(r: Record): seq<byte> {
    Header(r) + r.payload + r.padding
  }

  function Encode(records: seq<Record>): seq<byte> {
    if records == [] then [] else EncodeRecord(records[0]) + Encode(records[1..])
  }

  /** The position right behind the i-th frame. */
  function FrameEnd(records: seq<Record>, i: nat): nat
    requires i < |records|
  {
    if i == 0 then HeaderLength(records[0]) + |records[0].payload|
    else |EncodeRecord(records[0])| + FrameEnd(records[1..], i - 1)
  }

  /** The bytes at given places of the buffer. */
  function Frames(data: seq<byte>, windows: seq<Window>): (frames: seq<seq<byte>>)
    requires forall i | 0 <= i < |windows| :: windows[i].start <= windows[i].end <= |data|
  {
    seq(|windows|, i requires 0 <= i < |windows| => data[windows[i].start..windows[i].end])
  }

  /** The frames of a whole buffer. */
  function Parse(data: seq<byte>): seq<seq<byte>> {
    var windows := Windows(data, 0);
    WindowsApart(data, 0);
    Frames(data, windows)
  }

  function Payloads(records: seq<Record>): seq<seq<byte>> {
    seq(|records|, i requires 0 <= i < |records| => records[i].payload)
  }

  /** From an offset on, the buffer holds the code, as far as either reaches. */
  ghost predicate Carries(data: seq<byte>, offset: nat, code: seq<byte>) {
    forall i | offset <= i < |data| && i - offset < |code| :: data[i] == code[i - offset]
  }

  lemma CarriesBoth(data: seq<byte>, offset: nat, a: seq<byte>, b: seq<byte>)
    requires Carries(data, offset, a + b)
    ensures Carries(data, offset, a) && Carries(data, offset + |a|, b)
  {
    assert forall i | 0 <= i < |a| :: (a + b)[i] == a[i];
    forall i | offset + |a| <= i < |data| && i - offset - |a| < |b| ensures data[i] == b[i - offset - |a|] {
      assert (a + b)[i - offset] == b[i - offset - |a|];
    }
  }

  lemma CarriesSlice(data: seq<byte>, offset: nat, code: seq<byte>, lo: nat, hi: nat)
    requires Carries(data, offset, code) && lo <= hi <= |code| && offset + hi <= |data|
    ensures data[offset + lo..offset + hi] == code[lo..hi]
  {
  }

  /** Where a record's parts are found in its code. */
  lemma RecordParts(r: Record)
    ensures
      var code, h := EncodeRecord(r), HeaderLength(r);
      && |code| == Aligned(h + |r.payload|)
      && Uint32(code, 8) == |r.payload| && Uint16(code, 16) == h
      && code[h..h + |r.payload|] == r.payload
  {
  }

  /** The lengths that a reader finds in a record's header. */
  lemma LengthsFound(data: seq<byte>, offset: nat, r: Record)
    requires Carries(data, offset, EncodeRecord(r)) && offset + HDR_SIZE <= |data|
    ensures Uint32(data, offset + 8) == |r.payload|
    ensures Uint16(data, offset + 16) == HeaderLength(r)
  {
    RecordParts(r);
    forall i | 8 <= i < 18 ensures data[offset + i] == EncodeRecord(r)[i] {
    }
  }

  /** In a truncated buffer a record's frame is found exactly when it ends before the cut, and then it is the frame. */
  lemma RecordFound(data: seq<byte>, offset: nat, r: Record)
    requires Carries(data, offset, EncodeRecord(r))
    ensures
      var start, end := offset + HeaderLength(r), offset + HeaderLength(r) + |r.payload|;
      && WindowAt(data, offset) == (if end <= |data| then Some(Window(start, end)) else None)
      && (end <= |data| ==> data[start..end] == r.payload)
  {
    if offset + HDR_SIZE <= |data| {
      LengthsFound(data, offset, r);
      if offset + HeaderLength(r) + |r.payload| <= |data| {
        RecordParts(r);
        CarriesSlice(data, offset, EncodeRecord(r), HeaderLength(r), HeaderLength(r) + |r.payload|);
      }
    }
  }

  /** The windows are those of the leading payloads, up to the last that ends inside the buffer. */
  ghost predicate Match(data: seq<byte>, offset: nat, records: seq<Record>, ws: seq<Window>) {
    && |ws| <= |records|
    && (forall i | 0 <= i < |records| :: i < |ws| <==> offset + FrameEnd(records, i) <= |data|)
    && (forall i | 0 <= i < |ws| ::
          ws[i].start <= ws[i].end <= |data| && data[ws[i].start..ws[i].end] == records[i].payload)
  }

  lemma {:induction false} MatchMore(data: seq<byte>, offset: nat, records: seq<Record>, w: Window, ws: seq<Window>)
    requires records != []
    requires Match(data, offset + |EncodeRecord(records[0])|, records[1..], ws)
    requires w.start <= w.end <= |data| && data[w.start..w.end] == records[0].payload
    requires offset + FrameEnd(records, 0) <= |data|
    ensures Match(data, offset, records, [w] + ws)
  {
    forall i | 0 < i < |records|
      ensures i < |[w] + ws| <==> offset + FrameEnd(records, i) <= |data|
    {
      assert i - 1 < |ws| <==> offset + |EncodeRecord(records[0])| + FrameEnd(records[1..], i - 1) <= |data|;
    }
  }

  lemma MatchNone(data: seq<byte>, offset: nat, records: seq<Record>)
    requires records != [] ==> offset + FrameEnd(records, 0) > |data|
    ensures Match(data, offset, records, [])
  {
    if records != [] {
      RecordParts(records[0]);
    }
  }

  /** A record fills words, so the next header stands right behind it. */
  lemma NextHeader(offset: nat, r: Record)
    requires Aligned(offset) == offset
    ensures Aligned(offset + HeaderLength(r) + |r.payload|) == offset + |EncodeRecord(r)|
    ensures Aligned(offset + |EncodeRecord(r)|) == offset + |EncodeRecord(r)|
  {
    RecordParts(r);
    AlignedBehind(offset, HeaderLength(r) + |r.payload|);
  }

  /** A first record that ends before the cut gives the first window, and the others follow from the next word on. */
  lemma FirstFits(data: seq<byte>, offset: nat, r: Record, more: seq<byte>)
    requires Carries(data, offset, EncodeRecord(r) + more) && Aligned(offset) == offset
    requires offset + HeaderLength(r) + |r.payload| <= |data|
    ensures
      var w, next := Window(offset + HeaderLength(r), offset + HeaderLength(r) + |r.payload|),
                     offset + |EncodeRecord(r)|;
      && data[w.start..w.end] == r.payload
      && Windows(data, offset) == [w] + Windows(data, next)
      && Aligned(next) == next && Carries(data, next, more)
  {
    CarriesBoth(data, offset, EncodeRecord(r), more);
    RecordFound(data, offset, r);
    NextHeader(offset, r);
    WindowsFrom(data, offset);
  }

  /** A first record that is cut gives no window at all. */
  lemma FirstCut(data: seq<byte>, offset: nat, r: Record, more: seq<byte>)
    requires Carries(data, offset, EncodeRecord(r) + more)
    requires offset + HeaderLength(r) + |r.payload| > |data|
    ensures Windows(data, offset) == []
  {
    CarriesBoth(data, offset, EncodeRecord(r), more);
    RecordFound(data, offset, r);
    WindowsFrom(data, offset);
  }

  /** From a word-aligned offset on, a cut buffer parses to the payloads that end before the cut. */
  lemma {:induction false} CutAt(data: seq<byte>, offset: nat, records: seq<Record>)
    requires Aligned(offset) == offset && |data| <= offset + |Encode(records)| && Carries(data, offset, Encode(records))
    ensures Match(data, offset, records, Windows(data, offset))
    decreases |records|
  {
    hide Windows, Match, Carries, EncodeRecord;
    if records == [] {
      WindowsFrom(data, offset);
      MatchNone(data, offset, records);
    } else {
      var r, rest, end := records[0], records[1..], offset + FrameEnd(records, 0);
      if end <= |data| {
        FirstFits(data, offset, r, Encode(rest));
        CutAt(data, offset + |EncodeRecord(r)|, rest);
        MatchMore(data, offset, records, Window(offset + HeaderLength(r), end),
                  Windows(data, offset + |EncodeRecord(r)|));
      } else {
        FirstCut(data, offset, r, Encode(rest));
        MatchNone(data, offset, records);
      }
    }
  }

  /** Whatever the records, a buffer cut anywhere parses to exactly the payloads that lie in it completely, in order. */
  lemma ParseCutBuffer(records: seq<Record>, cut: nat)
    requires cut <= |Encode(records)|
    ensures
      var frames := Parse(Encode(records)[..cut]);
      && frames <= Payloads(records)
      && (forall i | 0 <= i < |records| :: i < |frames| <==> FrameEnd(records, i) <= cut)
  {
    CutAt(Encode(records)[..cut], 0, records);
  }

  /** The whole buffer parses to all payloads. */
  lemma ParseEncoded(records: seq<Record>)
    ensures Parse(Encode(records)) == Payloads(records)
  {
    assert Encode(records)[..|Encode(records)|] == Encode(records);
    ParseCutBuffer(records, |Encode(records)|);
    if records != [] {
      FrameInside(records, |records| - 1);
    }
  }

  lemma {:induction false} FrameInside(records: seq<Record>, i: nat)
    requires i < |records|
    ensures FrameEnd(records, i) <= |Encode(records)|
  {
    RecordParts(records[0]);
    if i > 0 {
      FrameInside(records[1..], i - 1);
    }
  }
}
