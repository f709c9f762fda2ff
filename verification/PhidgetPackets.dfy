/**
  The packet splitters of phidget/libphidget-2.1.8.20130320/cphidget.c: firmware goes out in sectors, a table in
  one piece, both in reports of one size that reuse a single buffer.
*/
module PhidgetPackets {
  import opened Bytes

  const FLAG: byte := 0x80
  const CONTINUATION: byte := 0x03
  const WRITE_SECTOR: byte := 0x06
  const RESPONSE_TIMEOUT: nat := 200
  // The flag is bit 7, the kinds are below it: combining them is adding.
  const MORE: byte := FLAG + CONTINUATION
  const SECTOR_SIZE: nat := 0x1000

  type Packet = seq<byte>

  function Min(a: nat, b: nat): nat { if a < b then a else b }

  // ----- What is sent -----

  /** A buffer with some bytes stored over what it held. */
  function Filled(buffer: Packet, at: nat, bs: seq<byte>): (r: Packet)
    requires at + |bs| <= |buffer|
    ensures |r| == |buffer|
  {
    buffer[..at] + bs + buffer[at + |bs|..]
  }

  /** The continuation packets for the bytes that are left, each in the buffer of the one before. */
  function Continued(buffer: Packet, left: seq<byte>): (ps: seq<Packet>)
    requires |buffer| >= 2
    ensures forall p <- ps :: |p| == |buffer|
    decreases |left|
  {
    if left == [] then []
    else
      var n := Min(|left|, |buffer| - 1);
      var p := Filled(buffer[0 := MORE], 1, left[..n]);
      [p] + Continued(p, left[n..])
  }

  /** The packets of some bytes whose first packet starts with a header. */
  function Split(buffer: Packet, header: seq<byte>, bs: seq<byte>): (ps: seq<Packet>)
    requires |buffer| >= 2 && |header| <= |buffer|
    ensures ps != [] && forall p <- ps :: |p| == |buffer|
  {
    var n := Min(|bs|, |buffer| - |header|);
    var p := Filled(Filled(buffer, 0, header), |header|, bs[..n]);
    [p] + Continued(p, bs[n..])
  }

  function SectorHeader(index: byte, length: nat): (h: seq<byte>)
    ensures |h| == 4
  {
    [FLAG + WRITE_SECTOR, index, length % 256, length / 256 % 256]
  }

  /** The length that is announced for a sector. */
  function Announced(total: nat, index: nat): (r: nat)
    requires index > 0 && (index - 1) * SECTOR_SIZE <= total
    ensures r <= SECTOR_SIZE
  {
    Min(total - (index - 1) * SECTOR_SIZE, SECTOR_SIZE)
  }

  /** All packets for some firmware. Only the lower 16 bits of its length are looked at. */
  function FirmwarePackets(reportLength: nat, data: seq<byte>): seq<Packet>
    requires reportLength >= 4
  {
    AllSectors(seq(reportLength, _ => 0), data)
  }

  function AllSectors(buffer: Packet, data: seq<byte>): (ps: seq<Packet>)
    requires |buffer| >= 4
    ensures forall p <- ps :: |p| == |buffer|
  {
    Sectors(buffer, data, SectorCount(|data|), 0, |data| % SECTOR_SIZE)
  }

  function SectorCount(length: nat): (n: nat)
    ensures 0 < n <= 16 && length % SECTOR_SIZE + (n - 1) * SECTOR_SIZE <= length
    ensures length < 0x10000 ==> length % SECTOR_SIZE + (n - 1) * SECTOR_SIZE == length
    ensures length >= 0x10000 ==> n * SECTOR_SIZE < length
  {
    length / SECTOR_SIZE % 16 + 1
  }

  /** All packets for a table. */
  function TablePackets(reportLength: nat, kind: byte, index: byte, data: seq<byte>): seq<Packet>
    requires reportLength >= 2 && kind < FLAG
  {
    Split(seq(reportLength, _ => 0), [FLAG + kind, index], data)
  }

  /** The sectors from an index down to 1, of the data from one place on, the first one ending at another. */
  function Sectors(buffer: Packet, data: seq<byte>, index: nat, j: nat, end: nat): (ps: seq<Packet>)
    requires |buffer| >= 4 && index < 256 && j <= end
    requires index > 0 ==> end + (index - 1) * SECTOR_SIZE <= |data|
    ensures forall p <- ps :: |p| == |buffer|
    decreases index
  {
    if index == 0 then []
    else
      var first := Split(buffer, SectorHeader(index, Announced(|data|, index)), data[j..end]);
      first + Sectors(first[|first| - 1], data, index - 1, end, end + SECTOR_SIZE)
  }

  // ----- What a receiver makes of it -----

  // The first bytes by which a receiver knows the packets of a sector.
  const SECTOR_START: byte := 0x86
  const SECTOR_MORE: byte := 0x83

  datatype Sector = Sector(index: nat, length: nat, payload: seq<byte>)

  /** Takes continuation packets until so many bytes are there. */
  function Collect(packets: seq<Packet>, need: nat): (r: (seq<byte>, seq<Packet>))
    ensures |r.1| <= |packets|
    decreases |packets|
  {
    if need == 0 || packets == [] || |packets[0]| < 2 || packets[0][0] != SECTOR_MORE then ([], packets)
    else
      var n := Min(need, |packets[0]| - 1);
      var (more, rest) := Collect(packets[1..], need - n);
      (packets[0][1..1 + n] + more, rest)
  }

  /** The sectors that a receiver reads, trusting the lengths that are announced. */
  function Receive(packets: seq<Packet>): seq<Sector>
    decreases |packets|
  {
    if packets == [] || |packets[0]| < 4 || packets[0][0] != SECTOR_START then []
    else
      var p := packets[0];
      var length: nat := p[2] as int + 256 * p[3] as int;
      var n := Min(length, |p| - 4);
      var (more, rest) := Collect(packets[1..], length - n);
      [Sector(p[1], length, p[4..4 + n] + more)] + Receive(rest)
  }

  /** A table of a length that the receiver knows. */
  function ReceiveTable(packets: seq<Packet>, length: nat): seq<byte>
    requires packets != [] && |packets[0]| >= 2
  {
    var n := Min(length, |packets[0]| - 2);
    packets[0][2..2 + n] + Collect(packets[1..], length - n).0
  }

  function Payloads(sectors: seq<Sector>): seq<byte> {
    if sectors == [] then [] else sectors[0].payload + Payloads(sectors[1..])
  }

  // ----- The senders -----

  lemma Slices(data: seq<byte>, j: nat, end: nat, n: nat)
    requires j + n <= end <= |data|
    ensures data[j..end][..n] == data[j..j + n] && data[j..end][n..] == data[j + n..end] && |data[j..end]| == end - j
    ensures data[j..j + n] + data[j + n..end] == data[j..end]
  {
  }

  lemma ContinuedNothing(buffer: Packet)
    requires |buffer| >= 2
    ensures Continued(buffer, []) == []
  {
  }

  lemma ContinuedUnfolds(buffer: Packet, left: seq<byte>)
    requires |buffer| >= 2 && left != []
    ensures var n := Min(|left|, |buffer| - 1);
            var p := Filled(buffer[0 := MORE], 1, left[..n]);
            Continued(buffer, left) == [p] + Continued(p, left[n..])
  {
    hide Filled;
  }

  /** Copies bytes into the buffer while both last. */
  method Fill(buffer: array<byte>, at: nat, data: seq<byte>, j0: nat, end: nat) returns (j: nat)
    requires at <= buffer.Length && j0 <= end <= |data|
    modifies buffer
    ensures j == j0 + Min(end - j0, buffer.Length - at)
    ensures buffer[..] == Filled(old(buffer[..]), at, data[j0..j])
  {
    ghost var was := buffer[..];
    var i := at;
    j := j0;
    while i < buffer.Length && j < end
      invariant at <= i <= buffer.Length && j0 <= j <= end && i - at == j - j0
      invariant buffer[..] == Filled(was, at, data[j0..j])
    {
      buffer[i] := data[j];
      i, j := i + 1, j + 1;
      assert data[j0..j] == data[j0..j - 1] + [data[j - 1]];
    }
  }

  /** What a buffer holds after some packets were made in it. */
  function Left(buffer: Packet, out: seq<Packet>): Packet {
    if out == [] then buffer else out[|out| - 1]
  }

  /** All of the packets went out, or as many as the device took before a send failed. */
  ghost predicate Sent(out: seq<Packet>, all: seq<Packet>, takes: nat, ok: bool) {
    out == all[..Min(|all|, takes)] && ok == (|all| <= takes)
  }

  /** Sends what is left as continuation packets, until one fails. */
  method SendContinued(buffer: array<byte>, data: seq<byte>, j0: nat, end: nat, takes: nat)
    returns (ok: bool, out: seq<Packet>)
    requires buffer.Length >= 2 && j0 <= end <= |data|
    modifies buffer
    ensures Sent(out, Continued(old(buffer[..]), data[j0..end]), takes, ok)
    ensures ok ==> buffer[..] == Left(old(buffer[..]), out)
  {
    hide Continued, Filled, Parts, Sent;
    ghost var all := Continued(buffer[..], data[j0..end]);
    PartsStart(all);
    var j := j0;
    ok, out := true, [];
    while j < end && ok
      invariant j0 <= j <= end && ok && |out| <= takes
      invariant Parts(all, out, Continued(buffer[..], data[j..end]))
      invariant buffer[..] == Left(old(buffer[..]), out)
      decreases end - j
    {
      ghost var before, j1 := buffer[..], j;
      ContinuedUnfolds(before, data[j..end]);
      buffer[0] := MORE;
      assert buffer[..] == before[0 := MORE];
      j := Fill(buffer, 1, data, j, end);
      Slices(data, j1, end, j - j1);
      PartsMove(all, out, buffer[..], Continued(buffer[..], data[j..end]), takes);
      ok := |out| < takes;
      if !ok {
        return;
      }
      out := out + [buffer[..]];
    }
    assert data[j..end] == [];
    ContinuedNothing(buffer[..]);
    PartsEnd(all, out, takes);
  }

  /** The packets are those in front and those behind. */
  ghost predicate Parts(all: seq<Packet>, front: seq<Packet>, back: seq<Packet>) {
    all == front + back && all[..|front|] == front
  }

  lemma PartsMove(all: seq<Packet>, front: seq<Packet>, p: Packet, back: seq<Packet>, takes: nat)
    requires Parts(all, front, [p] + back) && |front| <= takes
    ensures Parts(all, front + [p], back) && (|front| == takes ==> Sent(front, all, takes, false))
  {
  }

  /** Sends some bytes behind a header: one packet, and continuation packets while they are needed. */
  method SendSplit(buffer: array<byte>, header: seq<byte>, data: seq<byte>, j0: nat, end: nat, takes: nat)
    returns (ok: bool, out: seq<Packet>)
    requires 2 <= buffer.Length && |header| <= buffer.Length && j0 <= end <= |data|
    modifies buffer
    ensures Sent(out, Split(old(buffer[..]), header, data[j0..end]), takes, ok)
    ensures ok ==> out != [] && buffer[..] == out[|out| - 1]
  {
    hide Continued, Filled, Split;
    ghost var before, left := buffer[..], data[j0..end];
    var k := Fill(buffer, 0, header, 0, |header|);
    assert header[0..k] == header;
    var j := Fill(buffer, |header|, data, j0, end);
    var first := buffer[..];
    SplitStep(before, header, data, j0, end);
    if takes == 0 {
      return false, [];
    }
    var more;
    ok, more := SendContinued(buffer, data, j, end, takes - 1);
    out := [first] + more;
  }

  lemma SplitStep(buffer: Packet, header: seq<byte>, data: seq<byte>, j: nat, end: nat)
    requires 2 <= |buffer| && |header| <= |buffer| && j <= end <= |data|
    ensures var n := Min(end - j, |buffer| - |header|);
            var p := Filled(Filled(buffer, 0, header), |header|, data[j..j + n]);
            Split(buffer, header, data[j..end]) == [p] + Continued(p, data[j + n..end])
  {
    hide Filled, Continued;
    Slices(data, j, end, Min(end - j, |buffer| - |header|));
  }

  lemma SectorsStep(buffer: Packet, data: seq<byte>, index: nat, j: nat, end: nat)
    requires |buffer| >= 4 && 0 < index < 256 && j <= end && end + (index - 1) * SECTOR_SIZE <= |data|
    ensures var first := Split(buffer, SectorHeader(index, Announced(|data|, index)), data[j..end]);
            Sectors(buffer, data, index, j, end) ==
            first + Sectors(first[|first| - 1], data, index - 1, end, end + SECTOR_SIZE)
  {
    hide Split;
  }

  lemma NoSectors(buffer: Packet, data: seq<byte>, j: nat, end: nat)
    requires |buffer| >= 4 && j <= end
    ensures Sectors(buffer, data, 0, j, end) == []
  {
  }

  lemma PartsSent(all: seq<Packet>, front: seq<Packet>, first: seq<Packet>, back: seq<Packet>, out: seq<Packet>,
                  takes: nat, ok: bool)
    requires Parts(all, front, first + back) && |front| <= takes && Sent(out, first, takes - |front|, ok)
    ensures ok ==> out == first && Parts(all, front + first, back) && |front + first| <= takes
    ensures !ok ==> Sent(front + out, all, takes, false)
  {
    assert all == front + first + back;
  }

  /** Sends one sector, with the length that is announced for it. */
  method SendSector(buffer: array<byte>, data: seq<byte>, index: nat, j: nat, end: nat, takes: nat)
    returns (ok: bool, out: seq<Packet>)
    requires buffer.Length >= 4 && 0 < index < 256 && j <= end <= |data| && (index - 1) * SECTOR_SIZE <= |data|
    modifies buffer
    ensures Sent(out, Split(old(buffer[..]), SectorHeader(index, Announced(|data|, index)), data[j..end]), takes, ok)
    ensures ok ==> out != [] && buffer[..] == out[|out| - 1]
  {
    hide Split, Sent;
    var secLength := |data| - (index - 1) * SECTOR_SIZE;
    if secLength > SECTOR_SIZE {
      secLength := SECTOR_SIZE;
    }
    ok, out := SendSplit(buffer, SectorHeader(index, secLength), data, j, end, takes);
  }

  lemma SectorSent(all: seq<Packet>, sent: seq<Packet>, buffer: Packet, data: seq<byte>, index: nat, j: nat, end: nat,
                   out: seq<Packet>, takes: nat, ok: bool)
    requires |buffer| >= 4 && 0 < index < 256 && j <= end && end + (index - 1) * SECTOR_SIZE <= |data|
    requires Parts(all, sent, Sectors(buffer, data, index, j, end)) && |sent| <= takes
    requires Sent(out, Split(buffer, SectorHeader(index, Announced(|data|, index)), data[j..end]), takes - |sent|, ok)
    ensures ok ==>
      && out != [] && |out[|out| - 1]| == |buffer| && |sent + out| <= takes
      && Parts(all, sent + out, Sectors(out[|out| - 1], data, index - 1, end, end + SECTOR_SIZE))
    ensures !ok ==> Sent(sent + out, all, takes, false)
  {
    hide Split, Sectors, Parts, Sent, Announced, SectorHeader;
    SectorsStep(buffer, data, index, j, end);
    var first := Split(buffer, SectorHeader(index, Announced(|data|, index)), data[j..end]);
    PartsSent(all, sent, first, Sectors(first[|first| - 1], data, index - 1, end, end + SECTOR_SIZE), out, takes, ok);
  }

  // ----- The answer of the device -----

  datatype Response = Ok | Timeout | Unexpected

  /** The lower six bits of what came from the device are the kind of packet that it answers. */
  predicate Answers(reading: byte, kind: byte) { reading % 64 == kind }

  /** Bit 6 tells that the packet failed. */
  predicate Fails(reading: byte) { reading / 64 % 2 == 1 }

  /** Until this look nothing has come, and then it is an answer or the time is up; one look takes 20 milliseconds. */
  ghost predicate LooksFor(kind: byte, timeout: int, readings: nat -> byte, looks: nat) {
    && (forall k: nat :: k < looks ==> !Answers(readings(k), kind) && 20 * k < timeout)
    && (Answers(readings(looks), kind) || timeout <= 20 * looks)
  }

  /** What the next readings, which may have changed again, make of it. */
  function Verdict(kind: byte, readings: nat -> byte, looks: nat): Response {
    if !Answers(readings(looks + 1), kind) then Timeout
    else if Fails(readings(looks + 2)) then Unexpected
    else Ok
  }

  ghost predicate Responds(r: Response, kind: byte, timeout: int, readings: nat -> byte) {
    exists looks: nat :: LooksFor(kind, timeout, readings, looks) && r == Verdict(kind, readings, looks)
  }

  /** Waits for an answer; readings(k) is what the k-th look at the stored response finds. */
  method GetResponse(kind: byte, timeout: int, readings: nat -> byte) returns (r: Response, ghost looks: nat)
    ensures Responds(r, kind, timeout, readings)
    ensures LooksFor(kind, timeout, readings, looks) && r == Verdict(kind, readings, looks)
    ensures timeout >= 0 ==> 20 * looks < timeout + 20
  {
    var k, left := 0, timeout;
    while !Answers(readings(k), kind) && left > 0
      invariant left == timeout - 20 * k
      invariant forall i: nat :: i < k ==> !Answers(readings(i), kind) && 20 * i < timeout
      decreases left
    {
      k, left := k + 1, left - 20;
    }
    looks := k;
    if timeout >= 0 {
      LooksBounded(kind, timeout, readings, looks);
    }
    if !Answers(readings(k + 1), kind) {
      r := Timeout;
    } else {
      r := if Fails(readings(k + 2)) then Unexpected else Ok;
    }
    assert r == Verdict(kind, readings, looks);
  }

  lemma LooksBounded(kind: byte, timeout: nat, readings: nat -> byte, looks: nat)
    requires LooksFor(kind, timeout, readings, looks)
    ensures 20 * looks < timeout + 20
  {
    if looks > 0 {
      assert !Answers(readings(looks - 1), kind) && 20 * (looks - 1) < timeout;
    }
  }

  /** There is one look that ends the waiting, so that a device has one response. */
  lemma LooksUnique(kind: byte, timeout: int, readings: nat -> byte, a: nat, b: nat)
    requires LooksFor(kind, timeout, readings, a) && LooksFor(kind, timeout, readings, b)
    ensures a == b
  {
  }

  function VerdictOn(stored: byte, kind: byte): Response {
    if !Answers(stored, kind) then Timeout else if Fails(stored) then Unexpected else Ok
  }

  /** While the stored response stays the same, it alone is the result. */
  lemma StoredDecides(kind: byte, timeout: int, readings: nat -> byte, stored: byte, r: Response)
    requires forall k: nat :: readings(k) == stored
    ensures Responds(r, kind, timeout, readings) <==> r == VerdictOn(stored, kind)
  {
    var looks: nat := if Answers(stored, kind) || timeout <= 0 then 0 else (timeout + 19) / 20;
    assert LooksFor(kind, timeout, readings, looks);
    assert Verdict(kind, readings, looks) == VerdictOn(stored, kind);
    if Responds(r, kind, timeout, readings) {
      var k: nat :| LooksFor(kind, timeout, readings, k) && r == Verdict(kind, readings, k);
      LooksUnique(kind, timeout, readings, looks, k);
    }
  }

  /** Sends firmware in sectors whose numbers count down to 1; a packet that fails ends it. */
  method SendFirmware(reportLength: nat, data: seq<byte>, takes: nat) returns (ok: bool, sent: seq<Packet>)
    requires reportLength >= 4
    ensures Sent(sent, FirmwarePackets(reportLength, data), takes, ok)
  {
    hide Split, Sectors, Parts, Sent, Announced, SectorHeader;
    var buffer := new byte[reportLength](_ => 0);
    ghost var all := FirmwarePackets(reportLength, data);
    assert buffer[..] == seq(reportLength, _ => 0);
    PartsStart(all);
    var index := |data| / SECTOR_SIZE % 16 + 1;
    var j: nat, indexEnd: nat := 0, |data| % SECTOR_SIZE;
    ok, sent := true, [];
    while index > 0
      invariant 0 <= index <= 16 && j <= indexEnd
      invariant index > 0 ==> indexEnd + (index - 1) * SECTOR_SIZE <= |data|
      invariant ok && |sent| <= takes && Parts(all, sent, Sectors(buffer[..], data, index, j, indexEnd))
    {
      ghost var before := buffer[..];
      var out;
      ok, out := SendSector(buffer, data, index, j, indexEnd, takes - |sent|);
      SectorSent(all, sent, before, data, index, j, indexEnd, out, takes, ok);
      sent := sent + out;
      if !ok {
        return;
      }
      j, index, indexEnd := indexEnd, index - 1, indexEnd + SECTOR_SIZE;
    }
    NoSectors(buffer[..], data, j, indexEnd);
    PartsEnd(all, sent, takes);
  }

  /** Sends firmware, and gives what the device answers, whether all of it was sent or not. */
  method UpgradeFirmware(reportLength: nat, data: seq<byte>, takes: nat, readings: nat -> byte)
    returns (result: Response, sent: seq<Packet>, ghost ok: bool)
    requires reportLength >= 4
    ensures Sent(sent, FirmwarePackets(reportLength, data), takes, ok)
    ensures Responds(result, WRITE_SECTOR, RESPONSE_TIMEOUT, readings)
  {
    hide Sent, FirmwarePackets, Responds;
    var done;
    done, sent := SendFirmware(reportLength, data, takes);
    ok := done;
    ghost var looks;
    result, looks := GetResponse(WRITE_SECTOR, RESPONSE_TIMEOUT, readings);
  }

  /**
    An upgrade in which a packet fails, while the device's stored response stays what it is: only the packets before
    that one have gone out, and still the upgrade is called a success exactly when that response is one to a sector
    and tells of no failure.
  */
  method FailedUpgrade(reportLength: nat, data: seq<byte>, takes: nat, stored: byte)
    returns (result: Response, sent: seq<Packet>)
    requires reportLength >= 4 && takes < |FirmwarePackets(reportLength, data)|
    ensures sent == FirmwarePackets(reportLength, data)[..takes]
    ensures result == Ok <==> Answers(stored, WRITE_SECTOR) && !Fails(stored)
  {
    hide FirmwarePackets, Responds;
    ghost var ok;
    result, sent, ok := UpgradeFirmware(reportLength, data, takes, _ => stored);
    StoredDecides(WRITE_SECTOR, RESPONSE_TIMEOUT, _ => stored, stored, result);
  }

  lemma PartsStart(all: seq<Packet>)
    ensures Parts(all, [], all)
  {
  }

  lemma PartsEnd(all: seq<Packet>, front: seq<Packet>, takes: nat)
    requires Parts(all, front, []) && |front| <= takes
    ensures Sent(front, all, takes, true)
  {
  }

  /** Sends a table in one piece. */
  method SetConfigTable(reportLength: nat, data: seq<byte>, index: byte, kind: byte, takes: nat)
    returns (ok: bool, sent: seq<Packet>)
    requires reportLength >= 2 && kind < FLAG
    ensures Sent(sent, TablePackets(reportLength, kind, index, data), takes, ok)
  {
    hide Split;
    var buffer := new byte[reportLength](_ => 0);
    assert buffer[..] == seq(reportLength, _ => 0) && data[0..|data|] == data;
    ok, sent := SendSplit(buffer, [FLAG + kind, index], data, 0, |data|, takes);
  }

  // ----- What comes in is what was to go out -----

  /** Nothing that a receiver would take for a continuation comes next. */
  predicate Fresh(rest: seq<Packet>) {
    rest == [] || |rest[0]| < 2 || rest[0][0] != MORE
  }

  lemma Stored(buffer: Packet, bs: seq<byte>)
    requires |buffer| >= 2 && |bs| <= |buffer| - 1
    ensures var p := Filled(buffer[0 := MORE], 1, bs); p[0] == MORE && p[1..1 + |bs|] == bs
  {
    var p := Filled(buffer[0 := MORE], 1, bs);
    assert p[..1] == buffer[0 := MORE][..1];
    assert p[0] == p[..1][0];
  }

  lemma CollectStep(p: Packet, more: seq<Packet>, need: nat)
    requires need > 0 && |p| >= 2 && p[0] == MORE
    ensures var n := Min(need, |p| - 1);
            var (got, after) := Collect(more, need - n);
            Collect([p] + more, need) == (p[1..1 + n] + got, after)
  {
    assert ([p] + more)[1..] == more;
  }

  lemma ContinuedFirst(buffer: Packet, left: seq<byte>, rest: seq<Packet>)
    requires |buffer| >= 2 && left != []
    ensures var n := Min(|left|, |buffer| - 1);
            var p := Filled(buffer[0 := MORE], 1, left[..n]);
            Continued(buffer, left) + rest == [p] + (Continued(p, left[n..]) + rest)
  {
    hide Filled, Continued;
    ContinuedUnfolds(buffer, left);
  }

  lemma CollectNothing(rest: seq<Packet>, need: nat)
    requires Fresh(rest)
    ensures Collect([] + rest, need) == ([], rest)
  {
    assert [] + rest == rest;
  }

  lemma {:induction false} CollectContinued(buffer: Packet, left: seq<byte>, rest: seq<Packet>, need: nat)
    requires |buffer| >= 2 && need >= |left| && Fresh(rest)
    ensures var (got, after) := Collect(Continued(buffer, left) + rest, need);
            after == rest && |got| <= need && (need == |left| ==> got == left)
    decreases |left|
  {
    hide Collect, Continued, Filled, Fresh;
    if left == [] {
      ContinuedNothing(buffer);
      CollectNothing(rest, need);
    } else {
      var n, m := Min(|left|, |buffer| - 1), Min(need, |buffer| - 1);
      var p := Filled(buffer[0 := MORE], 1, left[..n]);
      var more := Continued(p, left[n..]) + rest;
      ContinuedFirst(buffer, left, rest);
      Stored(buffer, left[..n]);
      CollectStep(p, more, need);
      CollectContinued(p, left[n..], rest, need - m);
      Slices(left, 0, |left|, n);
      assert left[0..|left|] == left && left[0..n] == left[..n] && left[n..|left|] == left[n..];
    }
  }

  /** A sector comes in whole when its length is announced right, and never takes more than is announced. */
  lemma SectorReceived(buffer: Packet, index: byte, length: nat, bs: seq<byte>, rest: seq<Packet>)
    requires |buffer| >= 4 && |bs| <= length <= SECTOR_SIZE && Fresh(rest)
    ensures var all := Receive(Split(buffer, SectorHeader(index, length), bs) + rest);
            && all != [] && all[1..] == Receive(rest) && all[0].index == index && all[0].length == length
            && |all[0].payload| <= length && (length == |bs| ==> all[0].payload == bs)
  {
    hide Continued, Collect, Filled, Receive;
    var header := SectorHeader(index, length);
    var n := Min(|bs|, |buffer| - 4);
    var p := Filled(Filled(buffer, 0, header), 4, bs[..n]);
    var more := Continued(p, bs[n..]) + rest;
    assert Split(buffer, header, bs) + rest == [p] + more;
    HeaderKept(buffer, header, bs[..n]);
    ReceiveStep(p, more, index, length);
    var m := Min(length, |p| - 4);
    CollectContinued(p, bs[n..], rest, length - m);
    assert bs[..n] + bs[n..] == bs;
  }

  lemma ReceiveStep(p: Packet, more: seq<Packet>, index: byte, length: nat)
    requires |p| >= 4 && length <= SECTOR_SIZE && p[0] == SECTOR_START && p[1] == index
    requires p[2] == length % 256 && p[3] == length / 256 % 256
    ensures var n := Min(length, |p| - 4);
            var (got, rest) := Collect(more, length - n);
            Receive([p] + more) == [Sector(index, length, p[4..4 + n] + got)] + Receive(rest)
  {
    hide Collect;
    assert ([p] + more)[1..] == more;
    assert p[2] as int + 256 * p[3] as int == length;
  }

  lemma HeaderKept(buffer: Packet, header: seq<byte>, bs: seq<byte>)
    requires |header| == 4 && 4 + |bs| <= |buffer|
    ensures var p := Filled(Filled(buffer, 0, header), 4, bs);
            && p[0] == header[0] && p[1] == header[1] && p[2] == header[2] && p[3] == header[3]
            && p[4..4 + |bs|] == bs
  {
    var inner := Filled(buffer, 0, header);
    var p := Filled(inner, 4, bs);
    assert inner[0..4] == header;
    assert forall i :: 0 <= i < 4 ==> p[i] == p[..4][i] == inner[i] == inner[0..4][i] == header[i];
  }

  /** Numbered downwards to 1, no sector longer than announced or than a sector can be. */
  predicate CountDown(sectors: seq<Sector>, top: nat) {
    && |sectors| == top
    && forall k :: 0 <= k < top ==>
         sectors[k].index == top - k && |sectors[k].payload| <= sectors[k].length <= SECTOR_SIZE
  }

  lemma SectorsFresh(buffer: Packet, data: seq<byte>, index: nat, j: nat, end: nat)
    requires |buffer| >= 4 && index < 256 && j <= end && (index > 0 ==> end + (index - 1) * SECTOR_SIZE <= |data|)
    ensures Fresh(Sectors(buffer, data, index, j, end))
  {
    hide Continued, Filled;
    if index > 0 {
      var header, bs := SectorHeader(index, Announced(|data|, index)), data[j..end];
      HeaderKept(buffer, header, bs[..Min(|bs|, |buffer| - 4)]);
      SectorsStep(buffer, data, index, j, end);
    }
  }

  /** The sectors of some data come in numbered downwards, whatever its length. */
  lemma {:induction false} SectorsReceived(buffer: Packet, data: seq<byte>, index: nat, j: nat, end: nat)
    requires |buffer| >= 4 && index < 256 && j <= end
    requires index > 0 ==> end + (index - 1) * SECTOR_SIZE <= |data| && end - j <= Announced(|data|, index)
    ensures CountDown(Receive(Sectors(buffer, data, index, j, end)), index)
    ensures index > 0 && end + (index - 1) * SECTOR_SIZE == |data| && end - j == Announced(|data|, index) ==>
      Whole(Receive(Sectors(buffer, data, index, j, end)), data[j..])
    decreases index
  {
    hide Split, Receive, Sectors, CountDown, Whole, SectorHeader;
    if index == 0 {
      NoSectors(buffer, data, j, end);
      ReceiveNothing();
    } else {
      var length := Announced(|data|, index);
      var first := Split(buffer, SectorHeader(index, length), data[j..end]);
      var last := first[|first| - 1];
      var rest := Sectors(last, data, index - 1, end, end + SECTOR_SIZE);
      SectorsStep(buffer, data, index, j, end);
      SectorsReceived(last, data, index - 1, end, end + SECTOR_SIZE);
      SectorsFresh(last, data, index - 1, end, end + SECTOR_SIZE);
      SectorReceived(buffer, index, length, data[j..end], rest);
      if index == 1 {
        NoSectors(last, data, end, end + SECTOR_SIZE);
        ReceiveNothing();
        assert end == |data| ==> data[end..] == [];
      }
      assert data[j..] == data[j..end] + data[end..];
      OneMore(Receive(first + rest), Receive(rest), index, data[j..end], data[end..], length);
    }
  }

  lemma OneMore(all: seq<Sector>, others: seq<Sector>, index: nat, bs: seq<byte>, data: seq<byte>, length: nat)
    requires index > 0 && all != [] && all[1..] == others && CountDown(others, index - 1)
    requires all[0].index == index && all[0].length == length <= SECTOR_SIZE && |all[0].payload| <= length
    ensures CountDown(all, index)
    ensures Whole(others, data) && all[0].payload == bs && |bs| == length ==> Whole(all, bs + data)
  {
    assert all == [all[0]] + others;
    if Whole(others, data) && all[0].payload == bs && |bs| == length {
      WholeMore(all[0], others, bs, data);
    }
  }

  /** Each payload has the length that was announced, and together they are the data. */
  predicate Whole(sectors: seq<Sector>, data: seq<byte>) {
    Payloads(sectors) == data && forall k :: 0 <= k < |sectors| ==> |sectors[k].payload| == sectors[k].length
  }

  lemma WholeMore(s: Sector, sectors: seq<Sector>, bs: seq<byte>, data: seq<byte>)
    requires Whole(sectors, data) && s.payload == bs && |bs| == s.length
    ensures Whole([s] + sectors, bs + data)
  {
    assert ([s] + sectors)[1..] == sectors;
  }

  lemma ReceiveNothing()
    ensures Receive([]) == [] && CountDown([], 0) && Whole([], [])
  {
  }

  lemma {:induction false} PayloadsBound(sectors: seq<Sector>, top: nat)
    requires CountDown(sectors, top)
    ensures |Payloads(sectors)| <= top * SECTOR_SIZE
  {
    if sectors != [] {
      assert forall k :: 0 <= k < top - 1 ==> sectors[1..][k] == sectors[k + 1];
      PayloadsBound(sectors[1..], top - 1);
    }
  }

  /** The sectors sent count down to 1; the receiver gets the firmware back exactly if it is below 64 kilobytes. */
  lemma FirmwareReceived(reportLength: nat, data: seq<byte>)
    requires reportLength >= 4
    ensures var all := Receive(FirmwarePackets(reportLength, data));
            && CountDown(all, SectorCount(|data|))
            && (Payloads(all) == data <==> |data| < 0x10000)
            && (|data| < 0x10000 ==> forall k :: 0 <= k < |all| ==> |all[k].payload| == all[k].length)
  {
    hide Sectors, Receive;
    var buffer: Packet := seq(reportLength, _ => 0);
    var n, end := SectorCount(|data|), |data| % SECTOR_SIZE;
    SectorsReceived(buffer, data, n, 0, end);
    PayloadsBound(Receive(FirmwarePackets(reportLength, data)), n);
    assert data[0..] == data;
  }

  /** A table comes in whole, whatever its length. */
  lemma TableReceived(reportLength: nat, kind: byte, index: byte, data: seq<byte>)
    requires reportLength >= 2 && kind < FLAG
    ensures var all := TablePackets(reportLength, kind, index, data);
            ReceiveTable(all, |data|) == data && all[0][0] == FLAG + kind && all[0][1] == index
  {
    hide Continued, Collect;
    var buffer: Packet := seq(reportLength, _ => 0);
    var header: seq<byte> := [FLAG + kind, index];
    var n := Min(|data|, reportLength - 2);
    var p := Filled(Filled(buffer, 0, header), 2, data[..n]);
    var all := TablePackets(reportLength, kind, index, data);
    assert all == [p] + Continued(p, data[n..]);
    assert all[1..] == Continued(p, data[n..]) + [];
    CollectContinued(p, data[n..], [], |data| - n);
    assert data[..n] + data[n..] == data && p[2..2 + n] == data[..n];
  }
}
