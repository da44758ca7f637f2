/** Scanning a subnet: one request per usable host, replies read in batches and after the last request. */
module Scanner {
  import opened Wrappers
  import opened Bytes
  import opened ArpFrames
  import opened Subnet
  import BpfPackets

  const BATCH_SIZE: nat := 10

  // ---- The connection ----

  /** A read gives one frame, or a capture buffer of several. */
  datatype Platform = Linux | Darwin

  /** What one read of the connection finds. */
  datatype Receipt = Failed | Read(data: seq<byte>)

  /** The bytes that fit into a buffer of the given size. */
  function Fitting(data: seq<byte>, size: nat): seq<byte> {
    if |data| <= size then data else data[..size]
  }

  /** The frames that a read delivers into a buffer of the given size. */
  function Delivered(platform: Platform, receipt: Receipt, size: nat): seq<seq<byte>> {
    match receipt
    case Failed => []
    case Read(data) =>
      var got := Fitting(data, size);
      if got == [] then []
      else if platform.Linux? then [got]
      else BpfPackets.Parse(got)
  }

  /** All frames of the first reads, in arrival order. */
  function Arrived(platform: Platform, script: nat -> Receipt, size: nat, count: nat): seq<seq<byte>> {
    if count == 0 then []
    else Arrived(platform, script, size, count - 1) + Delivered(platform, script(count - 1), size)
  }

  /**
    What a read delivers: nothing if it fails or finds nothing; on Linux the one frame, cut to the buffer; on Darwin,
    for a buffer that a capture device fills, exactly the frames whose records end inside it.
   */
  lemma DeliveredFrames(platform: Platform, data: seq<byte>, size: nat, records: seq<BpfPackets.Record>)
    ensures Delivered(platform, Failed, size) == []
    ensures
      var cut := if |data| <= size then |data| else size;
      && (cut == 0 ==> Delivered(platform, Read(data), size) == [])
      && (cut > 0 ==> Delivered(Linux, Read(data), size) == [data[..cut]])
    ensures
      var frames := Delivered(Darwin, Read(BpfPackets.Encode(records)), size);
      && frames <= BpfPackets.Payloads(records)
      && forall i | 0 <= i < |records| :: i < |frames| <==> BpfPackets.FrameEnd(records, i) <= size
  {
    var code := BpfPackets.Encode(records);
    var cut := if |code| <= size then |code| else size;
    assert Fitting(code, size) == code[..cut] && data[..|data|] == data;
    BpfPackets.ParseCutBuffer(records, cut);
    forall i | 0 <= i < |records|
      ensures BpfPackets.FrameEnd(records, i) <= |code|
    {
      BpfPackets.FrameInside(records, i);
    }
  }

  /** What a read delivers stands right behind what has arrived before it. */
  lemma {:induction false} ArrivedInOrder(platform: Platform, script: nat -> Receipt, size: nat, k: nat, count: nat)
    requires k < count
    ensures Arrived(platform, script, size, k) + Delivered(platform, script(k), size) <=
            Arrived(platform, script, size, count)
  {
    hide Delivered;
    if k < count - 1 {
      ArrivedInOrder(platform, script, size, k, count - 1);
    }
  }

  /** And nothing else arrives. */
  lemma {:induction false} ArrivedInRead(platform: Platform, script: nat -> Receipt, size: nat, count: nat,
                                         frame: seq<byte>)
    returns (k: nat)
    requires frame in Arrived(platform, script, size, count)
    ensures k < count && frame in Delivered(platform, script(k), size)
  {
    hide Delivered;
    k := count - 1;
    if frame !in Delivered(platform, script(k), size) {
      k := ArrivedInRead(platform, script, size, count - 1, frame);
    }
  }

  ghost predicate Carry(frames: seq<Slice>, buf: array<byte>, contents: seq<seq<byte>>)
    reads buf
  {
    && |frames| == |contents|
    && forall i | 0 <= i < |frames| ::
         frames[i].buf == buf && frames[i].lo <= frames[i].hi <= buf.Length
         && buf[frames[i].lo..frames[i].hi] == contents[i]
  }

  /** A raw connection: the environment decides what every read finds and which sends fail. */
  class Connection {
    const platform: Platform
    const script: nat -> Receipt
    const sendFails: nat -> bool
    var sent: seq<seq<byte>>
    var taken: nat

    constructor (platform: Platform, script: nat -> Receipt, sendFails: nat -> bool)
      ensures sent == [] && taken == 0
      ensures this.platform == platform && this.script == script && this.sendFails == sendFails
    {
      this.platform, this.script, this.sendFails := platform, script, sendFails;
      sent, taken := [], 0;
    }

    method Send(frame: array<byte>) returns (ok: bool)
      modifies this
      ensures sent == old(sent) + [frame[..]] && taken == old(taken)
    {
      ok := !sendFails(|sent|);
      sent := sent + [frame[..]];
    }

    /** Reads into the buffer; the frames lie inside it. */
    method Recv(buf: array<byte>) returns (failed: bool, frames: seq<Slice>)
      modifies this, buf
      ensures sent == old(sent) && taken == old(taken) + 1
      ensures failed <==> script(old(taken)).Failed?
      ensures failed ==> frames == []
      ensures Carry(frames, buf, Delivered(platform, script(old(taken)), buf.Length))
    {
      var receipt := script(taken);
      taken := taken + 1;
      match receipt
      case Failed =>
        return true, [];
      case Read(data) =>
        failed, frames := false, [];
        var got := Fitting(data, buf.Length);
        var n := |got|;
        forall i | 0 <= i < n {
          buf[i] := got[i];
        }
        assert buf[..n] == got;
        if n == 0 {
          return;
        }
        if platform.Linux? {
          frames := [Slice(buf, 0, n)];
          return;
        }
        var windows := BpfPackets.Packets(buf, n, _ => false);
        BpfPackets.WindowsApart(got, 0);
        frames := seq(|windows|, i requires 0 <= i < |windows| => Slice(buf, windows[i].start, windows[i].end));
        forall i | 0 <= i < |windows|
          ensures buf[windows[i].start..windows[i].end] == got[windows[i].start..windows[i].end]
        {
        }
    }
  }

  // ---- What a frame teaches ----

  /** The frame is a complete reply of that hardware address from inside the subnet. */
  ghost predicate Names(ip: seq<byte>, mask: seq<byte>, frame: seq<byte>, mac: seq<byte>)
    requires |ip| == |mask|
  {
    var s := SenderOf(frame);
    s.Some? && s.value.mac == mac && Contains(ip, mask, s.value.ip)
  }

  ghost function LearnOne(ip: seq<byte>, mask: seq<byte>, known: map<seq<byte>, seq<byte>>,
                          frame: seq<byte>): map<seq<byte>, seq<byte>>
    requires |ip| == |mask|
  {
    var s := SenderOf(frame);
    if s.Some? && Contains(ip, mask, s.value.ip) then known[s.value.mac := s.value.ip] else known
  }

  /** What is known after the frames. */
  ghost function Learn(ip: seq<byte>, mask: seq<byte>, known: map<seq<byte>, seq<byte>>,
                       frames: seq<seq<byte>>): map<seq<byte>, seq<byte>>
    requires |ip| == |mask|
  {
    if frames == [] then known
    else LearnOne(ip, mask, Learn(ip, mask, known, frames[..|frames| - 1]), frames[|frames| - 1])
  }

  lemma {:induction false} LearnMore(ip: seq<byte>, mask: seq<byte>, known: map<seq<byte>, seq<byte>>,
                                     a: seq<seq<byte>>, b: seq<seq<byte>>)
    requires |ip| == |mask|
    ensures Learn(ip, mask, known, a + b) == Learn(ip, mask, Learn(ip, mask, known, a), b)
  {
    if b == [] {
      assert a + b == a;
    } else {
      var n := |b| - 1;
      LearnMore(ip, mask, known, a, b[..n]);
      assert (a + b)[..|a + b| - 1] == a + b[..n];
    }
  }

  lemma LearnOneAt(ip: seq<byte>, mask: seq<byte>, before: map<seq<byte>, seq<byte>>, frame: seq<byte>, mac: seq<byte>)
    requires |ip| == |mask|
    ensures
      var after := LearnOne(ip, mask, before, frame);
      if Names(ip, mask, frame, mac)
      then mac in after && after[mac] == SenderOf(frame).value.ip
      else (mac in after <==> mac in before) && (mac in after ==> after[mac] == before[mac])
  {
  }

  /** The last frame overwrites what it names, and leaves the rest. */
  lemma LearnLast(ip: seq<byte>, mask: seq<byte>, frames: seq<seq<byte>>, mac: seq<byte>)
    requires |ip| == |mask| && frames != []
    ensures
      var n := |frames| - 1;
      var before, after := Learn(ip, mask, map[], frames[..n]), Learn(ip, mask, map[], frames);
      if Names(ip, mask, frames[n], mac)
      then mac in after && after[mac] == SenderOf(frames[n]).value.ip
      else (mac in after <==> mac in before) && (mac in after ==> after[mac] == before[mac])
  {
    var n := |frames| - 1;
    LearnOneAt(ip, mask, Learn(ip, mask, map[], frames[..n]), frames[n], mac);
  }

  /** The i-th frame names the host, and none behind it does. */
  ghost predicate LastNamed(ip: seq<byte>, mask: seq<byte>, frames: seq<seq<byte>>, mac: seq<byte>, i: nat)
    requires |ip| == |mask| && i < |frames|
  {
    Names(ip, mask, frames[i], mac) && forall j | i < j < |frames| :: !Names(ip, mask, frames[j], mac)
  }

  /** The last frame that names a host gives its address. */
  lemma {:induction false} LastReplyWins(ip: seq<byte>, mask: seq<byte>, frames: seq<seq<byte>>, mac: seq<byte>, i: nat)
    requires |ip| == |mask| && i < |frames| && LastNamed(ip, mask, frames, mac, i)
    ensures mac in Learn(ip, mask, map[], frames) && Learn(ip, mask, map[], frames)[mac] == SenderOf(frames[i]).value.ip
  {
    LearnLast(ip, mask, frames, mac);
    var n := |frames| - 1;
    if i < n {
      assert forall j | 0 <= j < n :: frames[..n][j] == frames[j];
      LastReplyWins(ip, mask, frames[..n], mac, i);
    }
  }

  /** A host is known exactly when some frame names it. */
  lemma {:induction false} KnownIfNamed(ip: seq<byte>, mask: seq<byte>, frames: seq<seq<byte>>, mac: seq<byte>)
    requires |ip| == |mask|
    ensures mac in Learn(ip, mask, map[], frames) <==> exists i :: 0 <= i < |frames| && Names(ip, mask, frames[i], mac)
  {
    if frames != [] {
      var n := |frames| - 1;
      LearnLast(ip, mask, frames, mac);
      KnownIfNamed(ip, mask, frames[..n], mac);
      assert forall j | 0 <= j < n :: frames[..n][j] == frames[j];
    }
  }

  /**
    A host whose answer arrives, and is the last that names its
    hardware address, is found under the address asked for.
   */
  lemma AnsweredHostIsFound(ip: seq<byte>, mask: seq<byte>, frames: seq<seq<byte>>, at: nat, srcMAC: seq<byte>,
                            srcIP: seq<byte>, host: seq<byte>, mac: seq<byte>)
    requires |ip| == |mask| && |host| == 4 && |mac| == 6 && Contains(ip, mask, host)
    requires at < |frames| && frames[at] == Answer(Request(srcMAC, srcIP, host), mac)
    requires forall j | at < j < |frames| :: !Names(ip, mask, frames[j], mac)
    ensures mac in Learn(ip, mask, map[], frames) && Learn(ip, mask, map[], frames)[mac] == host
  {
    AnswerNamesTarget(srcMAC, srcIP, host, mac);
    FieldFits(host, 4);
    LastReplyWins(ip, mask, frames, mac, at);
  }

  // ---- The scan ----

  /** The hosts' addresses are arrays of their own, with the known contents. */
  ghost predicate Shows(hosts: map<seq<byte>, array<byte>>, known: map<seq<byte>, seq<byte>>)
    reads set k | k in hosts :: hosts[k]
  {
    && hosts.Keys == known.Keys
    && (forall k | k in hosts :: hosts[k][..] == known[k])
    && (forall k, l | k in hosts && l in hosts && k != l :: hosts[k] != hosts[l])
  }

  /** The inner loop over the frames of one read. */
  method TakeReplies(ip: seq<byte>, mask: seq<byte>, frames: seq<Slice>, hosts: map<seq<byte>, array<byte>>,
                     buf: array<byte>, ghost contents: seq<seq<byte>>, ghost known: map<seq<byte>, seq<byte>>)
    returns (r: map<seq<byte>, array<byte>>)
    requires |ip| == |mask| && Shows(hosts, known) && Carry(frames, buf, contents)
    ensures Shows(r, Learn(ip, mask, known, contents))
    ensures forall k | k in r :: (k in hosts && r[k] == hosts[k]) || fresh(r[k])
  {
    r := hosts;
    for i := 0 to |frames|
      invariant Shows(r, Learn(ip, mask, known, contents[..i]))
      invariant forall k | k in r :: (k in hosts && r[k] == hosts[k]) || fresh(r[k])
    {
      var ok, mac, addr := ParseARPReply(frames[i]);
      assert contents[..i + 1][..i] == contents[..i];
      if ok && Contains(ip, mask, addr[..]) {
        r := r[mac[..] := addr];
      }
    }
    assert contents[..|frames|] == contents;
  }

  /** Which of an interface's addresses a scan sends from: the first IPv4 address inside the subnet. */
  predicate Usable(ip: seq<byte>, mask: seq<byte>, addr: seq<byte>)
    requires |ip| == |mask|
  {
    To4(addr) != [] && Contains(ip, mask, To4(addr))
  }

  /** The 4-byte form of the first usable address. */
  ghost predicate FirstUsable(ip: seq<byte>, mask: seq<byte>, addrs: seq<seq<byte>>, src: seq<byte>)
    requires |ip| == |mask|
  {
    exists i :: 0 <= i < |addrs| && Usable(ip, mask, addrs[i]) && src == To4(addrs[i])
                && forall j | 0 <= j < i :: !Usable(ip, mask, addrs[j])
  }

  method PickSource(subnetIP: array<byte>, mask: array<byte>, addrs: seq<seq<byte>>) returns (src: Option<seq<byte>>)
    requires subnetIP.Length == mask.Length
    ensures src.None? <==> forall i | 0 <= i < |addrs| :: !Usable(subnetIP[..], mask[..], addrs[i])
    ensures src.Some? ==> FirstUsable(subnetIP[..], mask[..], addrs, src.value)
    ensures src.Some? ==>
              && |src.value| == 4 && Contains(subnetIP[..], mask[..], src.value)
              && exists i :: 0 <= i < |addrs| && src.value == To4(addrs[i]) && forall j, x | 0 <= j < i && |x| == 4 ::
                               To4(addrs[j]) == x ==> !Contains(subnetIP[..], mask[..], x)
    ensures src.None? ==>
              forall j, x | 0 <= j < |addrs| && |x| == 4 && To4(addrs[j]) == x :: !Contains(subnetIP[..], mask[..], x)
  {
    for i := 0 to |addrs|
      invariant forall j | 0 <= j < i :: !Usable(subnetIP[..], mask[..], addrs[j])
    {
      if Usable(subnetIP[..], mask[..], addrs[i]) {
        return Some(To4(addrs[i]));
      }
    }
    return None;
  }

  /** The requests for the given hosts, in order. */
  function Requests(srcMAC: seq<byte>, srcIP: seq<byte>, targets: seq<seq<byte>>): seq<seq<byte>> {
    seq(|targets|, i requires 0 <= i < |targets| => Request(srcMAC, srcIP, targets[i]))
  }

  /** What holds between two reads: the hosts show everything that has arrived, in arrays that nobody else has. */
  ghost predicate UpToDate(ip: seq<byte>, mask: seq<byte>, conn: Connection, buf: array<byte>,
                           hosts: map<seq<byte>, array<byte>>)
    requires |ip| == |mask|
    reads conn, set k | k in hosts :: hosts[k]
  {
    && Shows(hosts, Learn(ip, mask, map[], Arrived(conn.platform, conn.script, buf.Length, conn.taken)))
    && forall k | k in hosts :: hosts[k] != buf
  }

  /** One read, and the replies in it. A failed read has no frames. */
  method Receive(ip: seq<byte>, mask: seq<byte>, conn: Connection, buf: array<byte>, hosts: map<seq<byte>, array<byte>>)
    returns (r: map<seq<byte>, array<byte>>)
    requires |ip| == |mask|
    requires UpToDate(ip, mask, conn, buf, hosts)
    modifies conn, buf
    ensures conn.sent == old(conn.sent) && conn.taken == old(conn.taken) + 1
    ensures UpToDate(ip, mask, conn, buf, r)
    ensures forall k | k in r :: (k in hosts && r[k] == hosts[k]) || fresh(r[k])
  {
    hide Contains, Delivered, LearnOne;
    ghost var arrived := Arrived(conn.platform, conn.script, buf.Length, conn.taken);
    ghost var contents := Delivered(conn.platform, conn.script(conn.taken), buf.Length);
    var failed, frames := conn.Recv(buf);
    LearnMore(ip, mask, map[], arrived, contents);
    if failed {
      assert contents == [];
      r := hosts;
    } else {
      r := TakeReplies(ip, mask, frames, hosts, buf, contents, Learn(ip, mask, map[], arrived));
    }
  }

  lemma OneMoreRequest(srcMAC: seq<byte>, srcIP: seq<byte>, targets: seq<seq<byte>>, i: nat)
    requires i < |targets|
    ensures Requests(srcMAC, srcIP, targets[..i + 1]) ==
            Requests(srcMAC, srcIP, targets[..i]) + [Request(srcMAC, srcIP, targets[i])]
  {
  }

  /** Sends a request to every target, with a read after every tenth. */
  method SendAll(ip: seq<byte>, mask: seq<byte>, srcMAC: seq<byte>, srcIP: seq<byte>, targets: seq<seq<byte>>,
                 conn: Connection, buf: array<byte>)
    returns (hosts: map<seq<byte>, array<byte>>)
    requires |ip| == |mask|
    requires conn.sent == [] && conn.taken == 0
    modifies conn, buf
    ensures conn.sent == Requests(srcMAC, srcIP, targets) && conn.taken == |targets| / BATCH_SIZE
    ensures UpToDate(ip, mask, conn, buf, hosts) && forall k | k in hosts :: fresh(hosts[k])
  {
    hide Request, Contains, BpfPackets.Parse;
    hosts := map[];
    var currentBatch := 0;
    for i := 0 to |targets|
      invariant i == BATCH_SIZE * conn.taken + currentBatch && 0 <= currentBatch < BATCH_SIZE
      invariant conn.sent == Requests(srcMAC, srcIP, targets[..i])
      invariant UpToDate(ip, mask, conn, buf, hosts) && forall k | k in hosts :: fresh(hosts[k])
    {
      var frame := BuildARPRequest(srcMAC, srcIP, targets[i]);
      var ok := conn.Send(frame);
      OneMoreRequest(srcMAC, srcIP, targets, i);
      currentBatch := currentBatch + 1;
      if currentBatch >= BATCH_SIZE {
        hosts := Receive(ip, mask, conn, buf, hosts);
        currentBatch := 0;
      }
    }
    assert targets[..|targets|] == targets;
  }

  /** Reads on until the deadline, which the environment lets pass after `rounds` reads. */
  method Drain(ip: seq<byte>, mask: seq<byte>, conn: Connection, buf: array<byte>, rounds: nat,
               early: map<seq<byte>, array<byte>>)
    returns (hosts: map<seq<byte>, array<byte>>)
    requires |ip| == |mask|
    requires UpToDate(ip, mask, conn, buf, early)
    modifies conn, buf
    ensures conn.sent == old(conn.sent) && conn.taken == old(conn.taken) + rounds
    ensures UpToDate(ip, mask, conn, buf, hosts)
    ensures forall k | k in hosts :: (k in early && hosts[k] == early[k]) || fresh(hosts[k])
  {
    hosts := early;
    for round := 0 to rounds
      invariant conn.sent == old(conn.sent) && conn.taken == old(conn.taken) + round
      invariant UpToDate(ip, mask, conn, buf, hosts)
      invariant forall k | k in hosts :: (k in early && hosts[k] == early[k]) || fresh(hosts[k])
    {
      hosts := Receive(ip, mask, conn, buf, hosts);
    }
  }

  datatype ScanError = NoSourceAddress

  /** Scans from the first usable address of the interface; without one, nothing is sent. */
  method Scan(subnetIP: array<byte>, mask: array<byte>, ghost p: nat, srcMAC: seq<byte>, addrs: seq<seq<byte>>,
              conn: Connection, bufSize: nat, rounds: nat)
    returns (result: Result<map<seq<byte>, array<byte>>, ScanError>, ghost srcIP: seq<byte>,
             ghost targets: seq<seq<byte>>)
    requires subnetIP.Length == mask.Length && Canonical(mask[..], p) && p >= 1
    requires conn.sent == [] && conn.taken == 0
    modifies conn
    ensures result.Err? <==> forall i | 0 <= i < |addrs| :: !Usable(subnetIP[..], mask[..], addrs[i])
    ensures result.Err? ==> conn.sent == [] && conn.taken == 0
    ensures result.Ok? ==>
              && FirstHosts(subnetIP.Length, Base(subnetIP[..], mask[..]), targets)
              && |targets| == HostCount(p, subnetIP.Length)
              && conn.sent == Requests(srcMAC, srcIP, targets)
              && FirstUsable(subnetIP[..], mask[..], addrs, srcIP)
              && conn.taken == |targets| / BATCH_SIZE + rounds
              && Shows(result.value,
                       Learn(subnetIP[..], mask[..], map[], Arrived(conn.platform, conn.script, bufSize, conn.taken)))
              && forall k | k in result.value :: fresh(result.value[k])
  {
    srcIP, targets := [], [];
    var src := PickSource(subnetIP, mask, addrs);
    if src.None? {
      return Err(NoSourceAddress), [], [];
    }
    srcIP := src.value;
    var buf := new byte[bufSize];
    var all := SubnetHosts(subnetIP, mask, p, _ => false, (_, _) => 0);
    targets := all;
    var early := SendAll(subnetIP[..], mask[..], srcMAC, src.value, all, conn, buf);
    var hosts := Drain(subnetIP[..], mask[..], conn, buf, rounds, early);
    result := Ok(hosts);
  }
}
