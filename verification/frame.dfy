/** The byte layout of the serial protocol.

    Outgoing command frames are 16 bytes:
    `[STX 0x22, LEN 0x10, ADDR 0x03, CMD 0x85, payload (9 bytes), CRC high,
    CRC low, ETX 0x33]`, the CRC-16/BUYPASS being taken over the twelve bytes
    from LEN to the end of the payload. `LEN` is a fixed marker, not a length.

    Incoming status frames are 16 bytes starting with 0x44. The receiver
    accumulates bytes and cuts frames out of the accumulated buffer with a
    resynchronising scan; `Resync` is that scan as a function. */
module Frame {
  import opened Wrappers
  import Crc16
  import opened Sequences

  const SendStx: bv8 := 0x22
  const SendLen: bv8 := 0x10
  const SendAddr: bv8 := 0x03
  const SendCmd: bv8 := 0x85
  const SendEtx: bv8 := 0x33

  const RecvStx: bv8 := 0x44
  const PacketLength: nat := 16
  const PayloadLength: nat := 9

  /** A command payload: exactly nine bytes. */
  type Payload = s: seq<bv8> | |s| == 9 witness [0, 0, 0, 0, 0, 0, 0, 0, 0]

  // ---------------------------------------------------------------------
  // Encoding

  /** A payload of at most nine bytes copied into a zero-filled nine-byte
      field, as a copy into a freshly allocated array does. */
  function Pad(data: seq<bv8>): (p: Payload)
    requires |data| <= PayloadLength
    ensures forall k :: 0 <= k < |data| ==> p[k] == data[k]
    ensures forall k :: |data| <= k < PayloadLength ==> p[k] == 0
  {
    data + seq(PayloadLength - |data|, _ => 0)
  }

  /** A full nine-byte payload needs no padding. */
  lemma PadFull(p: Payload)
    ensures Pad(p) == p
  {
    assert Pad(p) == p + [];
  }

  /** The twelve bytes the CRC covers. */
  function CrcInput(p: Payload): seq<bv8>
  {
    [SendLen, SendAddr, SendCmd] + p
  }

  function CrcHigh(crc: bv16): bv8
  {
    ((crc >> 8) & 0xFF) as bv8
  }

  function CrcLow(crc: bv16): bv8
  {
    (crc & 0xFF) as bv8
  }

  /** The CRC is stored big-endian: high byte first. */
  lemma CrcBytes(crc: bv16)
    ensures ((CrcHigh(crc) as bv16) << 8) | (CrcLow(crc) as bv16) == crc
  {
  }

  /** The command frame carrying payload `p`. */
  function Encode(p: Payload): (packet: seq<bv8>)
    ensures |packet| == PacketLength
  {
    var crc := Crc16.Checksum(CrcInput(p));
    Assemble(p, CrcHigh(crc), CrcLow(crc))
  }

  /** The frame layout around a payload and the two CRC bytes. */
  function Assemble(p: Payload, hi: bv8, lo: bv8): (packet: seq<bv8>)
    ensures |packet| == PacketLength
  {
    [SendStx, SendLen, SendAddr, SendCmd] + p + [hi, lo, SendEtx]
  }

  /** A well-formed command frame: the fixed header and trailer, and a CRC
      field that matches bytes 1 to 12. */
  predicate WellFormed(packet: seq<bv8>)
  {
    |packet| == PacketLength &&
    packet[0] == SendStx && packet[1] == SendLen && packet[2] == SendAddr &&
    packet[3] == SendCmd && packet[15] == SendEtx &&
    ((packet[13] as bv16) << 8) | (packet[14] as bv16) == Crc16.Checksum(packet[1..13])
  }

  /** The payload of a well-formed command frame, which encodes back to the
      frame itself. */
  function PayloadOf(packet: seq<bv8>): (r: Option<Payload>)
    ensures r.Some? <==> WellFormed(packet)
    ensures r.Some? ==> Encode(r.value) == packet
  {
    if WellFormed(packet) then
      var p: Payload := packet[4..13];
      WellFormedIsEncoded(packet);
      Some(p)
    else None
  }

  /** The fields of an assembled frame. */
  lemma AssembleFields(p: Payload, hi: bv8, lo: bv8)
    ensures var packet := Assemble(p, hi, lo);
            packet[0] == SendStx && packet[1] == SendLen && packet[2] == SendAddr &&
            packet[3] == SendCmd && packet[4..13] == p && packet[13] == hi &&
            packet[14] == lo && packet[15] == SendEtx
  {
  }

  /** A 16-byte frame with the fixed header and trailer is the assembly of
      its payload and CRC bytes. */
  lemma AssembleParts(packet: seq<bv8>)
    requires |packet| == PacketLength
    requires packet[0] == SendStx && packet[1] == SendLen && packet[2] == SendAddr
    requires packet[3] == SendCmd && packet[15] == SendEtx
    ensures packet == Assemble(packet[4..13], packet[13], packet[14])
  {
    var q := Assemble(packet[4..13], packet[13], packet[14]);
    AssembleFields(packet[4..13], packet[13], packet[14]);
    forall k | 0 <= k < PacketLength
      ensures packet[k] == q[k]
    {
      if 4 <= k < 13 {
        assert packet[k] == packet[4..13][k - 4];
      }
    }
  }

  /** Bytes 1 to 12 of a frame with the fixed header are the CRC input for
      its payload. */
  lemma CoveredBytes(packet: seq<bv8>)
    requires |packet| == PacketLength
    requires packet[1] == SendLen && packet[2] == SendAddr && packet[3] == SendCmd
    ensures packet[1..13] == CrcInput(packet[4..13])
  {
  }

  /** Every encoded frame is well formed and gives its payload back. */
  lemma EncodeWellFormed(p: Payload)
    ensures WellFormed(Encode(p))
    ensures PayloadOf(Encode(p)) == Some(p)
  {
    var crc := Crc16.Checksum(CrcInput(p));
    var packet := Encode(p);
    AssembleFields(p, CrcHigh(crc), CrcLow(crc));
    CoveredBytes(packet);
    CrcBytes(crc);
  }

  /** ... and a well-formed frame is the encoding of its payload: the
      encoding is the only frame for that payload. */
  lemma WellFormedIsEncoded(packet: seq<bv8>)
    requires WellFormed(packet)
    ensures Encode(packet[4..13]) == packet
  {
    var p: Payload := packet[4..13];
    CoveredBytes(packet);
    CrcBytesUnique(Crc16.Checksum(CrcInput(p)), packet[13], packet[14]);
    AssembleParts(packet);
  }

  /** Twelve bytes holding the fixed header and then payload `p` are the
      CRC input for `p`. */
  lemma CrcInputFrom(p: Payload, s: seq<bv8>)
    requires |s| == 12
    requires s[0] == SendLen && s[1] == SendAddr && s[2] == SendCmd
    requires forall k :: 0 <= k < PayloadLength ==> s[3 + k] == p[k]
    ensures s == CrcInput(p)
  {
  }

  /** Sixteen bytes holding the fixed header and trailer, payload `p` and
      the CRC bytes `hi`, `lo` are the assembly of those. */
  lemma AssembleFrom(p: Payload, hi: bv8, lo: bv8, packet: seq<bv8>)
    requires |packet| == PacketLength
    requires packet[0] == SendStx && packet[1] == SendLen && packet[2] == SendAddr
    requires packet[3] == SendCmd && packet[15] == SendEtx
    requires forall k :: 0 <= k < PayloadLength ==> packet[4 + k] == p[k]
    requires packet[13] == hi && packet[14] == lo
    ensures packet == Assemble(p, hi, lo)
  {
    assert packet[4..13] == p;
    AssembleParts(packet);
  }

  lemma CrcBytesUnique(crc: bv16, hi: bv8, lo: bv8)
    requires ((hi as bv16) << 8) | (lo as bv16) == crc
    ensures hi == CrcHigh(crc) && lo == CrcLow(crc)
  {
  }

  /** A freshly allocated byte array: every element is zero. */
  method NewBytes(n: nat) returns (a: array<bv8>)
    ensures fresh(a) && a.Length == n
    ensures forall i :: 0 <= i < n ==> a[i] == 0
  {
    a := new bv8[n](_ => 0);
  }

  /** A block copy of all of `src` into `dst` from index `offset` on. */
  method BlockCopy(src: seq<bv8>, dst: array<bv8>, offset: nat)
    requires offset + |src| <= dst.Length
    modifies dst
    ensures forall i :: 0 <= i < |src| ==> dst[offset + i] == src[i]
    ensures forall i :: 0 <= i < dst.Length && !(offset <= i < offset + |src|) ==> dst[i] == old(dst[i])
  {
    forall k | 0 <= k < |src| {
      dst[offset + k] := src[k];
    }
  }

  /** The frame-building part of sending a command: the twelve bytes the
      CRC covers are laid out in a buffer, their CRC is computed, and the
      frame is laid out around the payload and the CRC. */
  method BuildPacket(crc: Crc16.Crc16Buypass, data: seq<bv8>) returns (packet: seq<bv8>)
    requires crc.Valid()
    requires |data| <= PayloadLength
    ensures packet == Encode(Pad(data))
    ensures WellFormed(packet) && PayloadOf(packet) == Some(Pad(data))
  {
    var input := CrcBuffer(data);
    var crcValue := crc.ComputeChecksum(input);
    packet := FrameBuffer(data, crcValue);
    EncodeWellFormed(Pad(data));
  }

  /** The CRC buffer: a zeroed twelve-byte array holding the fixed header,
      with the payload block-copied in from index 3. */
  method CrcBuffer(data: seq<bv8>) returns (input: seq<bv8>)
    requires |data| <= PayloadLength
    ensures input == CrcInput(Pad(data))
  {
    var crcData := NewBytes(12);
    crcData[0], crcData[1], crcData[2] := SendLen, SendAddr, SendCmd;
    BlockCopy(data, crcData, 3);
    input := crcData[..];
    CrcInputFrom(Pad(data), input);
  }

  /** The frame: a zeroed sixteen-byte array holding the fixed header, the
      payload block-copied in from index 4, the CRC high and low bytes and
      the trailer. */
  method FrameBuffer(data: seq<bv8>, crcValue: bv16) returns (packet: seq<bv8>)
    requires |data| <= PayloadLength
    ensures packet == Assemble(Pad(data), CrcHigh(crcValue), CrcLow(crcValue))
  {
    var frame := NewBytes(16);
    frame[0], frame[1], frame[2], frame[3] := SendStx, SendLen, SendAddr, SendCmd;
    BlockCopy(data, frame, 4);
    frame[13] := CrcHigh(crcValue);
    frame[14] := CrcLow(crcValue);
    frame[15] := SendEtx;
    packet := frame[..];
    AssembleFrom(Pad(data), CrcHigh(crcValue), CrcLow(crcValue), packet);
  }

  // ---------------------------------------------------------------------
  // Resynchronising decoder

  /** Index of the first `x` in `buf`, or -1 when there is none. */
  function FindIndex(buf: seq<bv8>, x: bv8): (r: int)
    ensures -1 <= r < |buf|
    ensures 0 <= r ==> buf[r] == x
    decreases |buf|
  {
    if buf == [] then -1
    else if buf[0] == x then 0
    else
      var k := FindIndex(buf[1..], x);
      if k == -1 then -1 else k + 1
  }

  /** `FindIndex` finds the FIRST occurrence, and reports -1 exactly when
      there is none. */
  lemma {:induction false} FindIndexFirst(buf: seq<bv8>, x: bv8)
    ensures FindIndex(buf, x) == -1 <==> x !in buf
    ensures forall k :: 0 <= k < FindIndex(buf, x) ==> buf[k] != x
    decreases |buf|
  {
    if buf != [] && buf[0] != x {
      FindIndexFirst(buf[1..], x);
      assert buf == [buf[0]] + buf[1..];
    }
  }

  /** The outcome of a scan over the receive buffer: the frames cut out in
      order, the dropped runs of bytes around them (`gaps[k]` just before
      `packets[k]`, the last one after the last frame), and the residue that
      stays in the buffer. */
  datatype Scan = Scan(gaps: seq<seq<bv8>>, packets: seq<seq<bv8>>, residue: seq<bv8>)
  {
    /** This scan preceded by a dropped run and a frame. */
    function Cons(gap: seq<bv8>, packet: seq<bv8>): Scan
    {
      Scan([gap] + gaps, [packet] + packets, residue)
    }
  }

  /** The receive loop as a function of the buffer: while at least 16 bytes
      are held, find the first 0x44; with none, clear the buffer; otherwise
      drop the bytes before it, stop when fewer than 16 bytes remain, and
      else cut out 16 bytes as a frame and go on. */
  function Resync(buf: seq<bv8>): (r: Scan)
    ensures |r.gaps| == |r.packets| + 1
    decreases |buf|
  {
    if |buf| < PacketLength then Scan([[]], [], buf)
    else
      var start := FindIndex(buf, RecvStx);
      if start == -1 then Scan([buf], [], [])
      else if |buf| - start < PacketLength then Scan([buf[..start]], [], buf[start..])
      else
        Resync(buf[start + PacketLength..]).Cons(buf[..start], buf[start..start + PacketLength])
  }

  /** The stream rebuilt from a scan: gap, frame, gap, frame, ..., gap. */
  function Weave(gaps: seq<seq<bv8>>, packets: seq<seq<bv8>>): seq<bv8>
    requires |gaps| == |packets| + 1
    decreases |packets|
  {
    if packets == [] then gaps[0]
    else gaps[0] + packets[0] + Weave(gaps[1..], packets[1..])
  }

  /** Every frame the scan cuts out is 16 bytes and starts with 0x44. */
  predicate FramesAnchored(packets: seq<seq<bv8>>)
  {
    forall k :: 0 <= k < |packets| ==> |packets[k]| == PacketLength && packets[k][0] == RecvStx
  }

  /** No dropped byte is a 0x44. */
  predicate GapsClean(gaps: seq<seq<bv8>>)
  {
    forall k :: 0 <= k < |gaps| ==> RecvStx !in gaps[k]
  }

  /** The stream a scan accounts for: gaps and frames in turn, then the
      residue. */
  function Flatten(r: Scan): seq<bv8>
    requires |r.gaps| == |r.packets| + 1
  {
    Weave(r.gaps, r.packets) + r.residue
  }

  lemma FlattenCons(r: Scan, gap: seq<bv8>, packet: seq<bv8>)
    requires |r.gaps| == |r.packets| + 1
    ensures Flatten(r.Cons(gap, packet)) == gap + packet + Flatten(r)
  {
    var c := r.Cons(gap, packet);
    assert c.gaps[1..] == r.gaps;
    assert c.packets[1..] == r.packets;
  }

  /** The scan loses nothing and reorders nothing: the buffer is exactly the
      dropped runs and the frames in turn, followed by the residue. */
  lemma {:induction false} ResyncRebuilds(buf: seq<bv8>)
    ensures Flatten(Resync(buf)) == buf
    decreases |buf|
  {
    if |buf| >= PacketLength {
      var start := FindIndex(buf, RecvStx);
      if start != -1 && |buf| - start >= PacketLength {
        var gap, packet, tail := buf[..start], buf[start..start + PacketLength], buf[start + PacketLength..];
        assert Resync(buf) == Resync(tail).Cons(gap, packet);
        ResyncRebuilds(tail);
        FlattenCons(Resync(tail), gap, packet);
        SplitTwice(buf, start, start + PacketLength);
      } else if start != -1 {
        SplitTwice(buf, start, |buf|);
      }
    }
  }

  /** Every frame the scan cuts out is 16 bytes and starts with 0x44. */
  lemma {:induction false} ResyncFramesAnchored(buf: seq<bv8>)
    ensures FramesAnchored(Resync(buf).packets)
    decreases |buf|
  {
    if |buf| >= PacketLength {
      var start := FindIndex(buf, RecvStx);
      if start != -1 && |buf| - start >= PacketLength {
        ResyncFramesAnchored(buf[start + PacketLength..]);
      }
    }
  }

  /** No byte the scan drops is a 0x44. */
  lemma {:induction false} ResyncGapsClean(buf: seq<bv8>)
    ensures GapsClean(Resync(buf).gaps)
    decreases |buf|
  {
    if |buf| >= PacketLength {
      var start := FindIndex(buf, RecvStx);
      FindIndexFirst(buf, RecvStx);
      if start != -1 && |buf| - start >= PacketLength {
        ResyncGapsClean(buf[start + PacketLength..]);
      }
    }
  }

  /** After the scan fewer than 16 bytes remain. */
  lemma {:induction false} ResyncResidueShort(buf: seq<bv8>)
    ensures |Resync(buf).residue| < PacketLength
    decreases |buf|
  {
    if |buf| >= PacketLength {
      var start := FindIndex(buf, RecvStx);
      if start != -1 && |buf| - start >= PacketLength {
        ResyncResidueShort(buf[start + PacketLength..]);
      }
    }
  }

  /** A buffer shorter than a frame is not examined: it stays as it is. */
  lemma ShortBufferKept(buf: seq<bv8>)
    requires |buf| < PacketLength
    ensures Resync(buf).packets == [] && Resync(buf).residue == buf
  {
  }

  /** A full-length buffer without any 0x44 is cleared and yields nothing. */
  lemma NoStxCleared(buf: seq<bv8>)
    requires |buf| >= PacketLength && RecvStx !in buf
    ensures Resync(buf).packets == [] && Resync(buf).residue == []
  {
  }

  /** What is left in the buffer is either empty, or starts at a 0x44, or
      was never examined because only a short tail followed the last frame. */
  lemma {:induction false} ResidueShape(buf: seq<bv8>)
    ensures var r := Resync(buf);
            r.residue == [] || r.residue[0] == RecvStx || r.gaps[|r.gaps| - 1] == []
    decreases |buf|
  {
    if |buf| >= PacketLength {
      var start := FindIndex(buf, RecvStx);
      if start != -1 && |buf| - start >= PacketLength {
        ResidueShape(buf[start + PacketLength..]);
      }
    }
  }

  // ---------------------------------------------------------------------
  // Chunking

  /** Searching a concatenation: the first hit in `a` if there is one, else
      the first hit in `b` shifted past `a`. */
  lemma {:induction false} FindIndexAppend(a: seq<bv8>, b: seq<bv8>, x: bv8)
    ensures FindIndex(a + b, x) ==
              if FindIndex(a, x) != -1 then FindIndex(a, x)
              else if FindIndex(b, x) == -1 then -1
              else |a| + FindIndex(b, x)
    decreases |a|
  {
    if a != [] {
      assert (a + b)[1..] == a[1..] + b;
      FindIndexAppend(a[1..], b, x);
    } else {
      assert a + b == b;
    }
  }

  /** The scan cuts no frame out of a buffer that is short, holds no 0x44,
      or holds fewer than 16 bytes from its first 0x44 on. */
  lemma NoFrame(s: seq<bv8>)
    requires |s| < PacketLength || FindIndex(s, RecvStx) == -1 ||
             |s| - FindIndex(s, RecvStx) < PacketLength
    ensures Resync(s).packets == []
  {
  }

  /** Otherwise the first frame starts at the first 0x44. */
  lemma FrameAt(s: seq<bv8>, start: nat)
    requires |s| >= PacketLength && start == FindIndex(s, RecvStx)
    requires |s| - start >= PacketLength
    ensures Resync(s).packets == [s[start..start + PacketLength]] + Resync(s[start + PacketLength..]).packets
  {
  }

  /** Bytes without a 0x44 in front of the stream never change which frames
      are cut out. */
  lemma SkipNoise(a: seq<bv8>, b: seq<bv8>)
    requires RecvStx !in a
    ensures Resync(a + b).packets == Resync(b).packets
  {
    FindIndexFirst(a, RecvStx);
    FindIndexAppend(a, b, RecvStx);
    var j := FindIndex(b, RecvStx);
    hide Resync;
    if |a + b| < PacketLength || j == -1 || |b| - j < PacketLength {
      NoFrame(a + b);
      NoFrame(b);
    } else {
      FrameAt(a + b, |a| + j);
      FrameAt(b, j);
      SliceShift(a, b, j);
    }
  }

  lemma SliceShift(a: seq<bv8>, b: seq<bv8>, j: nat)
    requires j + PacketLength <= |b|
    ensures (a + b)[|a| + j..|a| + j + PacketLength] == b[j..j + PacketLength]
    ensures (a + b)[|a| + j + PacketLength..] == b[j + PacketLength..]
  {
  }

  /** A stream starting with a 0x44 and holding a full frame yields that
      frame first. */
  lemma AnchoredStep(s: seq<bv8>)
    requires |s| >= PacketLength && s[0] == RecvStx
    ensures Resync(s).packets == [s[..PacketLength]] + Resync(s[PacketLength..]).packets
  {
  }

  /** The first 0x44 of `a` is the first of `a + b`, and what precedes it
      does not change the frames. */
  lemma SkipToStart(a: seq<bv8>, b: seq<bv8>, start: nat)
    requires start == FindIndex(a, RecvStx)
    ensures Resync(a + b).packets == Resync(a[start..] + b).packets
  {
    FindIndexFirst(a, RecvStx);
    assert RecvStx !in a[..start];
    assert a + b == a[..start] + (a[start..] + b);
    SkipNoise(a[..start], a[start..] + b);
  }

  /** A buffer whose first 0x44 comes less than 16 bytes before its end
      yields no frame and keeps the bytes from that 0x44 on. */
  lemma PartialFrameKept(a: seq<bv8>, start: nat)
    requires |a| >= PacketLength && start == FindIndex(a, RecvStx)
    requires |a| - start < PacketLength
    ensures Resync(a).packets == [] && Resync(a).residue == a[start..]
  {
  }

  /** A full frame at the first 0x44 of `a`: the scan goes on after it. */
  lemma FullFrameCut(a: seq<bv8>, start: nat)
    requires |a| >= PacketLength && start == FindIndex(a, RecvStx)
    requires |a| - start >= PacketLength
    ensures Resync(a) == Resync(a[start + PacketLength..]).Cons(a[..start], a[start..start + PacketLength])
  {
  }

  lemma AnchoredSlices(a: seq<bv8>, b: seq<bv8>, start: nat)
    requires start + PacketLength <= |a|
    ensures (a[start..] + b)[..PacketLength] == a[start..start + PacketLength]
    ensures (a[start..] + b)[PacketLength..] == a[start + PacketLength..] + b
  {
  }

  /** One frame cut out of `a` is cut out of `a + b` as well. */
  lemma FrameStep(a: seq<bv8>, b: seq<bv8>, start: nat)
    requires |a| >= PacketLength && start == FindIndex(a, RecvStx)
    requires |a| - start >= PacketLength
    ensures Resync(a + b).packets ==
              [a[start..start + PacketLength]] + Resync(a[start + PacketLength..] + b).packets
  {
    SkipToStart(a, b, start);
    assert (a[start..] + b)[0] == RecvStx;
    AnchoredStep(a[start..] + b);
    AnchoredSlices(a, b, start);
  }

  /** Frames cut out of a stream do not depend on how it arrives: scanning
      `a` and then the residue followed by `b` yields the same frames, in the
      same order, as scanning `a + b` at once. */
  lemma {:induction false} ResyncChunked(a: seq<bv8>, b: seq<bv8>)
    ensures Resync(a + b).packets == Resync(a).packets + Resync(Resync(a).residue + b).packets
    decreases |a|
  {
    var start := FindIndex(a, RecvStx);
    FindIndexFirst(a, RecvStx);
    if |a| < PacketLength {
      ShortBufferKept(a);
      hide Resync;
      AppendEmpty(Resync(a + b).packets);
    } else if start == -1 {
      NoStxCleared(a);
      SkipNoise(a, b);
      hide Resync;
      AppendEmpty(b);
      AppendEmpty(Resync(b).packets);
    } else if |a| - start < PacketLength {
      PartialFrameKept(a, start);
      SkipToStart(a, b, start);
      hide Resync;
      AppendEmpty(Resync(a + b).packets);
    } else {
      var t := a[start + PacketLength..];
      FullFrameCut(a, start);
      FrameStep(a, b, start);
      ResyncChunked(t, b);
      hide Resync;
      ConsAssoc(a[start..start + PacketLength], Resync(t).packets, Resync(Resync(t).residue + b).packets);
    }
  }

  /** `FindIndex` at a known first occurrence. */
  lemma FindIndexAt(buf: seq<bv8>, x: bv8, j: nat)
    requires j < |buf| && buf[j] == x
    requires forall i :: 0 <= i < j ==> buf[i] != x
    ensures FindIndex(buf, x) == j
  {
    FindIndexFirst(buf, x);
  }

  /** Two frames with noise bytes before each of them. */
  function NoisyStream(frame1: seq<bv8>, frame2: seq<bv8>): (stream: seq<bv8>)
    ensures |stream| == |frame1| + |frame2| + 3
  {
    [0xFF, 0xFF] + frame1 + [0xFF] + frame2
  }

  /** Scanned at once, the noisy stream yields exactly its two frames. */
  lemma TwoFramesBehindNoise(frame1: seq<bv8>, frame2: seq<bv8>)
    requires |frame1| == PacketLength && |frame2| == PacketLength
    requires frame1[0] == RecvStx && frame2[0] == RecvStx
    ensures Resync(NoisyStream(frame1, frame2)).packets == [frame1, frame2]
  {
    var stream := NoisyStream(frame1, frame2);
    NoisyParts(frame1, frame2);
    FindIndexAt(stream, RecvStx, 2);
    FrameAt(stream, 2);
    NoisyTail(frame2);
    hide Resync, NoisyStream;
    AppendEmpty([frame2]);
  }

  lemma NoisyParts(frame1: seq<bv8>, frame2: seq<bv8>)
    requires |frame1| == PacketLength && |frame2| == PacketLength && frame1[0] == RecvStx
    ensures var stream := NoisyStream(frame1, frame2);
            stream[0] == 0xFF && stream[1] == 0xFF && stream[2] == RecvStx &&
            stream[2..2 + PacketLength] == frame1 && stream[2 + PacketLength..] == [0xFF] + frame2
  {
  }

  /** One noise byte and then a frame: that frame alone. */
  lemma NoisyTail(frame2: seq<bv8>)
    requires |frame2| == PacketLength && frame2[0] == RecvStx
    ensures Resync([0xFF] + frame2).packets == [frame2]
  {
    var tail := [0xFF] + frame2;
    FindIndexAt(tail, RecvStx, 1);
    FrameAt(tail, 1);
    assert tail[1..1 + PacketLength] == frame2;
    assert tail[1 + PacketLength..] == [];
    ShortBufferKept([]);
  }

  /** However the noisy stream is split into two deliveries, mid-frame
      included, the frames of the first delivery followed by those of what
      it left behind plus the second are the two frames, in order. */
  lemma TwoFramesAnySplit(frame1: seq<bv8>, frame2: seq<bv8>, k: nat)
    requires |frame1| == PacketLength && |frame2| == PacketLength
    requires frame1[0] == RecvStx && frame2[0] == RecvStx
    requires k <= |frame1| + |frame2| + 3
    ensures var stream := NoisyStream(frame1, frame2);
            var first := Resync(stream[..k]);
            first.packets + Resync(first.residue + stream[k..]).packets == [frame1, frame2]
  {
    var stream := NoisyStream(frame1, frame2);
    TwoFramesBehindNoise(frame1, frame2);
    assert stream[..k] + stream[k..] == stream;
    ResyncChunked(stream[..k], stream[k..]);
  }

  // ---------------------------------------------------------------------
  // One pass of the receive loop

  /** Dropping the bytes before the first 0x44 of a full-length buffer
      changes neither the frames nor the residue of the scan. */
  lemma TrimStep(buf: seq<bv8>, start: nat)
    requires |buf| >= PacketLength && start == FindIndex(buf, RecvStx)
    ensures Resync(buf).packets == Resync(buf[start..]).packets
    ensures Resync(buf).residue == Resync(buf[start..]).residue
  {
    var s := buf[start..];
    if |buf| - start < PacketLength {
      PartialFrameKept(buf, start);
      ShortBufferKept(s);
    } else {
      FullFrameCut(buf, start);
      TrimmedFrameCut(buf, start);
      hide Resync;
    }
  }

  lemma TrimmedFrameCut(buf: seq<bv8>, start: nat)
    requires start == FindIndex(buf, RecvStx) && |buf| - start >= PacketLength
    ensures Resync(buf[start..]) ==
              Resync(buf[start + PacketLength..]).Cons([], buf[start..start + PacketLength])
  {
    var s := buf[start..];
    assert FindIndex(s, RecvStx) == 0;
    FullFrameCut(s, 0);
    assert s[PacketLength..] == buf[start + PacketLength..];
    assert s[0..PacketLength] == buf[start..start + PacketLength];
    assert s[..0] == [];
  }

  /** A full-length buffer starting with 0x44: its first 16 bytes are the
      next frame and the scan goes on after them. */
  lemma PacketStep(buf: seq<bv8>)
    requires |buf| >= PacketLength && buf[0] == RecvStx
    ensures Resync(buf).packets == [buf[..PacketLength]] + Resync(buf[PacketLength..]).packets
    ensures Resync(buf).residue == Resync(buf[PacketLength..]).residue
  {
    assert FindIndex(buf, RecvStx) == 0;
    FullFrameCut(buf, 0);
    assert buf[0..PacketLength] == buf[..PacketLength];
  }
}
