/** The frames of an address scan: building requests, parsing replies, and the capture filter that lets replies pass. */
module ArpFrames {
  import opened Wrappers
  import opened Bytes

  // ---- The filter program ----

  datatype Instruction =
    | LoadAbsolute(off: nat, size: nat)
    | JumpIfEqual(val: nat, skipTrue: nat, skipFalse: nat)
    | RetConstant(val: nat)

  /** EtherType, then operation; accept the whole frame or drop it. */
  const ARP_REPLY_FILTER: seq<Instruction> :=
    [ LoadAbsolute(12, 2),
      JumpIfEqual(0x0806, 0, 3),
      LoadAbsolute(20, 2),
      JumpIfEqual(0x0002, 0, 1),
      RetConstant(0xFFFF_FFFF),
      RetConstant(0)
    ]

  /** How many bytes of the frame a program keeps. A load beyond the frame drops it, as does running off the program. */
  function Execute(program: seq<Instruction>, pc: nat, acc: nat, frame: seq<byte>): nat
    decreases |program| - pc
  {
    if pc >= |program| then 0
    else
      match program[pc]
      case LoadAbsolute(off, size) =>
        if off + size > |frame| then 0
        else Execute(program, pc + 1, BigEndian(frame[off..off + size]), frame)
      case JumpIfEqual(val, skipTrue, skipFalse) =>
        Execute(program, pc + 1 + (if acc == val then skipTrue else skipFalse), acc, frame)
      case RetConstant(val) => val
  }

  predicate Accepts(frame: seq<byte>) {
    Execute(ARP_REPLY_FILTER, 0, 0, frame) != 0
  }

  function Uint16(b: seq<byte>, at: nat): nat
    requires at + 2 <= |b|
  {
    0x100 * b[at] as nat + b[at + 1] as nat
  }

  lemma TwoBytes(b: seq<byte>, at: nat)
    requires at + 2 <= |b|
    ensures BigEndian(b[at..at + 2]) == Uint16(b, at)
  {
    var two := b[at..at + 2];
    assert two[..1][..0] == [] && two[..1][0] == b[at];
    assert BigEndian(two[..1]) == b[at] as nat;
  }

  /** The filter keeps a frame exactly when it reaches to the operation and is a reply. */
  lemma FilterAcceptsReplies(frame: seq<byte>)
    ensures Accepts(frame) <==> |frame| >= 22 && Uint16(frame, 12) == 0x0806 && Uint16(frame, 20) == 2
  {
    var f := ARP_REPLY_FILTER;
    assert forall acc: nat :: Execute(f, 5, acc, frame) == 0;
    assert forall acc: nat :: Execute(f, 4, acc, frame) == 0xFFFF_FFFF;
    if |frame| >= 14 {
      TwoBytes(frame, 12);
      var kind := Uint16(frame, 12);
      assert Execute(f, 0, 0, frame) == Execute(f, 1, kind, frame);
      if kind == 0x0806 {
        assert Execute(f, 1, kind, frame) == Execute(f, 2, kind, frame);
        if |frame| >= 22 {
          TwoBytes(frame, 20);
          var op := Uint16(frame, 20);
          assert Execute(f, 2, kind, frame) == Execute(f, 3, op, frame);
          assert Execute(f, 3, op, frame) == if op == 2 then Execute(f, 4, op, frame) else Execute(f, 5, op, frame);
        }
      } else {
        assert Execute(f, 1, kind, frame) == Execute(f, 5, kind, frame);
      }
    }
  }

  // ---- Parsing replies ----

  /** A reply's sender, as values. */
  datatype Sender = Sender(mac: seq<byte>, ip: seq<byte>)

  /** Part of an array that a frame occupies. */
  datatype Slice = Slice(buf: array<byte>, lo: nat, hi: nat)

  ghost predicate InBounds(f: Slice) {
    f.lo <= f.hi <= f.buf.Length
  }

  ghost function Content(f: Slice): seq<byte>
    requires InBounds(f)
    reads f.buf
  {
    f.buf[f.lo..f.hi]
  }

  /** The sender that a frame names, if it is a complete reply. */
  function SenderOf(frame: seq<byte>): Option<Sender> {
    if |frame| >= 42 && Uint16(frame, 12) == 0x0806 && Uint16(frame, 20) == 2
    then Some(Sender(frame[22..28], frame[28..32]))
    else None
  }

  /** A complete reply parses exactly when the filter lets it pass. */
  lemma ParsesWhatTheFilterKeeps(frame: seq<byte>)
    ensures SenderOf(frame).Some? <==> Accepts(frame) && |frame| >= 42
  {
    FilterAcceptsReplies(frame);
  }

  /** Parses a frame inside a read buffer; the addresses are copied out of it. */
  method ParseARPReply(f: Slice) returns (ok: bool, mac: array<byte>, ip: array<byte>)
    requires InBounds(f)
    ensures fresh(mac) && fresh(ip) && mac != ip
    ensures ok <==> SenderOf(Content(f)).Some?
    ensures ok ==> mac[..] == SenderOf(Content(f)).value.mac && ip[..] == SenderOf(Content(f)).value.ip
    ensures
      var frame := Content(f);
      ok <==> |frame| >= 42 && frame[12] == 8 && frame[13] == 6 && frame[20] == 0 && frame[21] == 2
    ensures ok ==> mac[..] == Content(f)[22..28] && ip[..] == Content(f)[28..32]
  {
    var frame := f.buf[f.lo..f.hi];
    ok := false;
    mac, ip := new byte[0], new byte[0];
    if |frame| < 42 {
      return;
    }
    if Uint16(frame, 12) != 0x0806 {
      return;
    }
    if Uint16(frame, 20) != 2 {
      return;
    }
    ok := true;
    mac := new byte[6](i requires 0 <= i < 6 => frame[22 + i]);
    ip := new byte[4](i requires 0 <= i < 4 => frame[28 + i]);
  }

  // ---- Building requests ----

  function Repeated(b: byte, n: nat): (s: seq<byte>)
    ensures |s| == n
  {
    seq(n, _ => b)
  }

  /** What a copy into `n` zero bytes leaves there: at most `n` bytes, zeros behind them. */
  function Field(s: seq<byte>, n: nat): (f: seq<byte>)
    ensures |f| == n
  {
    if |s| >= n then s[..n] else s + Repeated(0, n - |s|)
  }

  lemma FieldAt(s: seq<byte>, n: nat, i: nat)
    requires i < n
    ensures Field(s, n)[i] == if i < |s| then s[i] else 0
  {
  }

  lemma FieldFits(s: seq<byte>, n: nat)
    requires |s| == n
    ensures Field(s, n) == s
  {
  }

  /** The 4-byte form of an IPv4 address; other addresses have none. */
  function To4(ip: seq<byte>): (r: seq<byte>)
    ensures |r| == 4 || r == []
  {
    if |ip| == 4 then ip
    else if |ip| == 16 && ip[..12] == Repeated(0, 10) + Repeated(255, 2) then ip[12..]
    else []
  }

  /** The 4-byte form is the address itself, or what an IPv4-mapped address maps (section 2.5.5.2 of RFC 4291). */
  lemma To4Exactly(ip: seq<byte>, x: seq<byte>)
    requires |x| == 4
    ensures To4(ip) == x <==> ip == x || ip == [0, 0, 0, 0, 0, 0, 0, 0, 0, 0, 255, 255] + x
  {
    var mapped := Repeated(0, 10) + Repeated(255, 2);
    assert mapped == [0, 0, 0, 0, 0, 0, 0, 0, 0, 0, 255, 255];
    if |ip| == 16 {
      assert ip == ip[..12] + ip[12..];
    }
    assert (mapped + x)[..12] == mapped && (mapped + x)[12..] == x;
  }

  /** The Ethernet header, and the packet's types, sizes and operation. */
  function Headers(to: seq<byte>, from: seq<byte>, op: byte): (h: seq<byte>)
    ensures |h| == 22
  {
    Field(to, 6) + Field(from, 6) + [8, 6] + [0, 1] + [8, 0] + [6] + [4] + [0, op]
  }

  /** A packet of RFC 826 in an Ethernet frame. */
  function Packet(to: seq<byte>, from: seq<byte>, op: byte, sha: seq<byte>, spa: seq<byte>, tha: seq<byte>,
                  tpa: seq<byte>): (p: seq<byte>)
    ensures |p| == 42
  {
    Headers(to, from, op) + Field(sha, 6) + Field(spa, 4) + Field(tha, 6) + Field(tpa, 4)
  }

  /** Where a packet's fields stand. */
  lemma PacketFields(to: seq<byte>, from: seq<byte>, op: byte, sha: seq<byte>, spa: seq<byte>, tha: seq<byte>,
                     tpa: seq<byte>)
    ensures
      var p := Packet(to, from, op, sha, spa, tha, tpa);
      && p[0..6] == Field(to, 6) && p[6..12] == Field(from, 6) && p[12..20] == [8, 6, 0, 1, 8, 0, 6, 4]
      && Uint16(p, 12) == 0x0806 && Uint16(p, 20) == op as nat
      && p[22..28] == Field(sha, 6) && p[28..32] == Field(spa, 4)
      && p[32..38] == Field(tha, 6) && p[38..42] == Field(tpa, 4)
  {
  }

  function Request(srcMAC: seq<byte>, srcIP: seq<byte>, dstIP: seq<byte>): (r: seq<byte>)
    ensures |r| == 42
  {
    Packet(Repeated(255, 6), srcMAC, 1, srcMAC, To4(srcIP), Repeated(0, 6), To4(dstIP))
  }

  /** What the host with a hardware address answers: the request's fields with the sides swapped, sent back. */
  function Answer(request: seq<byte>, mac: seq<byte>): seq<byte>
    requires |request| == 42
  {
    Packet(request[6..12], mac, 2, mac, request[38..42], request[22..28], request[28..32])
  }

  /** The fields of a request, as RFC 826 wants them for Ethernet and IPv4: from one host, to all. */
  lemma RequestFields(srcMAC: seq<byte>, srcIP: seq<byte>, dstIP: seq<byte>)
    ensures
      var r := Request(srcMAC, srcIP, dstIP);
      && r[0..6] == [255, 255, 255, 255, 255, 255] && r[6..12] == Field(srcMAC, 6)
      && r[12..14] == [8, 6]
      && r[14..20] == [0, 1, 8, 0, 6, 4] && r[20..22] == [0, 1]
      && r[22..28] == Field(srcMAC, 6) && r[28..32] == Field(To4(srcIP), 4)
      && r[32..38] == [0, 0, 0, 0, 0, 0] && r[38..42] == Field(To4(dstIP), 4)
  {
    PacketFields(Repeated(255, 6), srcMAC, 1, srcMAC, To4(srcIP), Repeated(0, 6), To4(dstIP));
    FieldFits(Repeated(255, 6), 6);
    FieldFits(Repeated(0, 6), 6);
    var r := Request(srcMAC, srcIP, dstIP);
    assert r[12..14] == r[12..20][..2] && r[14..20] == r[12..20][2..];
    hide *;
  }

  /** No request passes the filter or parses, whatever its addresses. */
  lemma RequestIsNoReply(srcMAC: seq<byte>, srcIP: seq<byte>, dstIP: seq<byte>)
    ensures !Accepts(Request(srcMAC, srcIP, dstIP)) && SenderOf(Request(srcMAC, srcIP, dstIP)).None?
  {
    PacketFields(Repeated(255, 6), srcMAC, 1, srcMAC, To4(srcIP), Repeated(0, 6), To4(dstIP));
    FilterAcceptsReplies(Request(srcMAC, srcIP, dstIP));
  }

  /**
    The answer to a request passes the filter and parses to the answering host and
    the address that was asked for, and it goes back to the host that asked.
   */
  lemma AnswerNamesTarget(srcMAC: seq<byte>, srcIP: seq<byte>, dstIP: seq<byte>, mac: seq<byte>)
    requires |mac| == 6
    ensures
      var request := Request(srcMAC, srcIP, dstIP);
      var answer := Answer(request, mac);
      && |answer| == 42 && Accepts(answer)
      && SenderOf(answer) == Some(Sender(mac, Field(To4(dstIP), 4)))
      && answer[0..6] == Field(srcMAC, 6) && answer[6..12] == mac
      && answer[32..38] == Field(srcMAC, 6) && answer[38..42] == Field(To4(srcIP), 4)
  {
    var request := Request(srcMAC, srcIP, dstIP);
    FieldFits(mac, 6);
    FieldFits(request[6..12], 6);
    FieldFits(request[22..28], 6);
    FieldFits(request[28..32], 4);
    FieldFits(request[38..42], 4);
    RequestFields(srcMAC, srcIP, dstIP);
    PacketFields(request[6..12], mac, 2, mac, request[38..42], request[22..28], request[28..32]);
    FilterAcceptsReplies(Answer(request, mac));
    hide Packet, Request, Field, Accepts;
  }

  /** The buffer holds what was written so far, and zeros from there on. */
  ghost predicate Written(buf: array<byte>, soFar: seq<byte>)
    reads buf
  {
    |soFar| <= buf.Length && buf[..|soFar|] == soFar && forall i | |soFar| <= i < buf.Length :: buf[i] == 0
  }

  /** Copies into the next `n` bytes of the buffer. */
  method Put(buf: array<byte>, ghost done: seq<byte>, lo: nat, n: nat, src: seq<byte>)
    requires Written(buf, done) && |done| == lo && lo + n <= buf.Length
    modifies buf
    ensures Written(buf, done + Field(src, n))
  {
    forall i | 0 <= i < n && i < |src| {
      buf[lo + i] := src[i];
    }
  }

  /** Writes the next two bytes of the buffer. */
  method PutUint16(buf: array<byte>, ghost done: seq<byte>, lo: nat, v: nat)
    requires Written(buf, done) && |done| == lo && lo + 2 <= buf.Length && v < 0x1_0000
    modifies buf
    ensures Written(buf, done + [(v / 0x100) as byte, (v % 0x100) as byte])
  {
    buf[lo], buf[lo + 1] := (v / 0x100) as byte, (v % 0x100) as byte;
  }

  method PutByte(buf: array<byte>, ghost done: seq<byte>, at: nat, v: byte)
    requires Written(buf, done) && |done| == at && at < buf.Length
    modifies buf
    ensures Written(buf, done + [v])
  {
    buf[at] := v;
  }

  method PutHeaders(buf: array<byte>, srcMAC: seq<byte>)
    requires Written(buf, []) && buf.Length == 42
    modifies buf
    ensures Written(buf, Headers(Repeated(255, 6), srcMAC, 1))
  {
    ghost var to, from := Field(Repeated(255, 6), 6), Field(srcMAC, 6);
    Put(buf, [], 0, 6, Repeated(255, 6));
    Put(buf, to, 6, 6, srcMAC);
    PutUint16(buf, to + from, 12, 0x0806);
    ghost var ethernet := to + from + [8, 6];
    PutUint16(buf, ethernet, 14, 1);
    PutUint16(buf, ethernet + [0, 1], 16, 0x0800);
    PutByte(buf, ethernet + [0, 1] + [8, 0], 18, 6);
    PutByte(buf, ethernet + [0, 1] + [8, 0] + [6], 19, 4);
    PutUint16(buf, ethernet + [0, 1] + [8, 0] + [6] + [4], 20, 1);
  }

  /** Writes the fields of a request one after the other into a zeroed buffer. */
  method BuildARPRequest(srcMAC: seq<byte>, srcIP: seq<byte>, dstIP: seq<byte>) returns (buf: array<byte>)
    ensures fresh(buf) && buf[..] == Request(srcMAC, srcIP, dstIP)
    ensures buf[0..6] == [255, 255, 255, 255, 255, 255] && buf[6..12] == Field(srcMAC, 6) && buf[12..14] == [8, 6]
    ensures buf[14..20] == [0, 1, 8, 0, 6, 4] && buf[20..22] == [0, 1]
    ensures buf[22..28] == Field(srcMAC, 6) && buf[28..32] == Field(To4(srcIP), 4)
    ensures buf[32..38] == [0, 0, 0, 0, 0, 0] && buf[38..42] == Field(To4(dstIP), 4)
  {
    buf := new byte[42](_ => 0);
    ghost var h, sha, spa, tha := Headers(Repeated(255, 6), srcMAC, 1), Field(srcMAC, 6), Field(To4(srcIP), 4),
                                  Field(Repeated(0, 6), 6);
    PutHeaders(buf, srcMAC);
    Put(buf, h, 22, 6, srcMAC);
    Put(buf, h + sha, 28, 4, To4(srcIP));
    Put(buf, h + sha + spa, 32, 6, Repeated(0, 6));
    Put(buf, h + sha + spa + tha, 38, 4, To4(dstIP));
    assert buf[..] == buf[..42];
    RequestFields(srcMAC, srcIP, dstIP);
  }
}
