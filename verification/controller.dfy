/** The form's protocol state and the event handlers that change it: the
    receive buffer, the two channel stages, the running flag, and the frames
    written to the serial port (kept as a ghost log). */
module Controller {
  import opened Wrappers
  import Crc16
  import Frame
  import Sequences
  import opened Automation

  /** The frames that carry a run of payloads, in order. */
  function Wire(payloads: seq<Frame.Payload>): (frames: seq<seq<bv8>>)
    ensures |frames| == |payloads|
    ensures forall k :: 0 <= k < |payloads| ==> frames[k] == Frame.Encode(payloads[k])
    decreases |payloads|
  {
    if payloads == [] then [] else [Frame.Encode(payloads[0])] + Wire(payloads[1..])
  }

  /** Sending two runs of payloads puts their frames on the wire in turn. */
  lemma WireAppend(a: seq<Frame.Payload>, b: seq<Frame.Payload>)
    ensures Wire(a + b) == Wire(a) + Wire(b)
  {
  }

  /** The frames that reach the port for a run of commands: all of them
      when the port is open, none otherwise. */
  function Emitted(portOpen: bool, payloads: seq<Frame.Payload>): seq<seq<bv8>>
  {
    if portOpen then Wire(payloads) else []
  }

  lemma EmittedAppend(portOpen: bool, a: seq<Frame.Payload>, b: seq<Frame.Payload>)
    ensures Emitted(portOpen, a + b) == Emitted(portOpen, a) + Emitted(portOpen, b)
  {
    WireAppend(a, b);
  }

  /** Bytes that arrive in two pieces are handled as if they had arrived
      at once: the frames cut from the first arrival, then from what it left
      in the buffer followed by the second, are the frames of the whole, and
      handling them in two runs leaves the channels and the commands sent as
      one run would. */
  lemma ArrivalsCompose(c: Channels, buf: seq<bv8>, a: seq<bv8>, b: seq<bv8>)
    ensures var one := Frame.Resync(buf + a);
            var two := Frame.Resync(one.residue + b);
            var whole := Frame.Resync(buf + a + b);
            whole.packets == one.packets + two.packets &&
            LongEnough(one.packets) && LongEnough(two.packets) &&
            var first := OnPackets(c, one.packets);
            var second := OnPackets(first.channels, two.packets);
            OnPackets(c, whole.packets) == Effect(second.channels, first.sends + second.sends)
  {
    var one := Frame.Resync(buf + a);
    var two := Frame.Resync(one.residue + b);
    Frame.ResyncChunked(buf + a, b);
    FramesLongEnough(buf + a);
    FramesLongEnough(one.residue + b);
    OnPacketsConcat(c, one.packets, two.packets);
  }

  /** Every frame of a scan is long enough to hold channel 2's trigger byte. */
  lemma FramesLongEnough(buf: seq<bv8>)
    ensures LongEnough(Frame.Resync(buf).packets)
  {
    Frame.ResyncFramesAnchored(buf);
  }

  /** The receive loop's account of the scan: the frames handled so far,
      followed by the frames still in the buffer, are the frames of the whole
      stream, and the buffer ends as the stream would. */
  ghost predicate ScanSplit(stream: seq<bv8>, done: seq<seq<bv8>>, buf: seq<bv8>)
  {
    Frame.Resync(stream).packets == done + Frame.Resync(buf).packets &&
    Frame.Resync(stream).residue == Frame.Resync(buf).residue
  }

  lemma ScanStart(stream: seq<bv8>)
    ensures ScanSplit(stream, [], stream)
  {
    Sequences.AppendEmpty(Frame.Resync(stream).packets);
  }

  /** A full-length buffer without a start byte is cleared. */
  lemma ScanCleared(stream: seq<bv8>, done: seq<seq<bv8>>, buf: seq<bv8>)
    requires ScanSplit(stream, done, buf)
    requires |buf| >= Frame.PacketLength && Frame.FindIndex(buf, Frame.RecvStx) == -1
    ensures ScanSplit(stream, done, [])
  {
    Frame.FindIndexFirst(buf, Frame.RecvStx);
    Frame.NoStxCleared(buf);
    Frame.ShortBufferKept([]);
  }

  /** Dropping the bytes before the first start byte. */
  lemma ScanTrim(stream: seq<bv8>, done: seq<seq<bv8>>, buf: seq<bv8>, start: nat)
    requires ScanSplit(stream, done, buf)
    requires |buf| >= Frame.PacketLength && start == Frame.FindIndex(buf, Frame.RecvStx)
    ensures ScanSplit(stream, done, buf[start..])
  {
    Frame.TrimStep(buf, start);
  }

  /** Cutting a frame off the front of the buffer moves it from the pending
      scan to the handled frames. */
  lemma ScanAdvance(stream: seq<bv8>, done: seq<seq<bv8>>, buf: seq<bv8>)
    requires ScanSplit(stream, done, buf)
    requires |buf| >= Frame.PacketLength && buf[0] == Frame.RecvStx
    ensures ScanSplit(stream, done + [buf[..Frame.PacketLength]], buf[Frame.PacketLength..])
  {
    Frame.PacketStep(buf);
    Sequences.SeqAssoc(done, [buf[..Frame.PacketLength]], Frame.Resync(buf[Frame.PacketLength..]).packets);
  }

  /** When the loop stops on a short buffer, the handled frames are all the
      frames of the scan and the buffer is its residue. */
  lemma ScanDone(stream: seq<bv8>, done: seq<seq<bv8>>, buf: seq<bv8>)
    requires ScanSplit(stream, done, buf) && |buf| < Frame.PacketLength
    ensures Frame.Resync(stream).packets == done && Frame.Resync(stream).residue == buf
  {
    Frame.ShortBufferKept(buf);
    Sequences.AppendEmpty(done);
  }

  /** The receive loop's account of the handlers: while the automatic mode
      runs, the channels and the frames sent are those of handling the frames
      cut so far; otherwise nothing has changed. */
  ghost predicate Handled(running: bool, portOpen: bool, c0: Channels, log0: seq<seq<bv8>>,
                          done: seq<seq<bv8>>, c: Channels, log: seq<seq<bv8>>)
  {
    LongEnough(done) &&
    (running ==> c == OnPackets(c0, done).channels && log == log0 + Emitted(portOpen, OnPackets(c0, done).sends)) &&
    (!running ==> c == c0 && log == log0)
  }

  lemma HandledUnfold(running: bool, portOpen: bool, c0: Channels, log0: seq<seq<bv8>>,
                      done: seq<seq<bv8>>, c: Channels, log: seq<seq<bv8>>)
    requires Handled(running, portOpen, c0, log0, done, c, log)
    ensures LongEnough(done)
    ensures running ==> c == OnPackets(c0, done).channels && log == log0 + Emitted(portOpen, OnPackets(c0, done).sends)
    ensures !running ==> c == c0 && log == log0
  {
  }

  lemma HandledStart(running: bool, portOpen: bool, c0: Channels, log0: seq<seq<bv8>>)
    ensures Handled(running, portOpen, c0, log0, [], c0, log0)
  {
    Sequences.AppendEmpty(log0);
  }

  /** One more frame, handled when the automatic mode runs. */
  lemma HandledStep(running: bool, portOpen: bool, c0: Channels, log0: seq<seq<bv8>>,
                    done: seq<seq<bv8>>, c: Channels, log: seq<seq<bv8>>,
                    packet: seq<bv8>, c': Channels, log': seq<seq<bv8>>)
    requires Handled(running, portOpen, c0, log0, done, c, log) && TriggerIndex2 < |packet|
    requires running ==> c' == OnPacket(c, packet).channels && log' == log + Emitted(portOpen, OnPacket(c, packet).sends)
    requires !running ==> c' == c && log' == log
    ensures Handled(running, portOpen, c0, log0, done + [packet], c', log')
  {
    OnPacketsAppend(c0, done, packet);
    if running {
      var before := OnPackets(c0, done);
      var last := OnPacket(before.channels, packet);
      EmittedAppend(portOpen, before.sends, last.sends);
      hide OnPackets, OnPacket, Emitted;
      Sequences.SeqAssoc(log0, Emitted(portOpen, before.sends), Emitted(portOpen, last.sends));
    }
  }

  /** An empty delivery leaves a short buffer as it is and handles no frame. */
  lemma NothingArrived(buf: seq<bv8>, c: Channels, portOpen: bool, log: seq<seq<bv8>>)
    requires |buf| < Frame.PacketLength
    ensures var scan := Frame.Resync(buf + []);
            scan.residue == buf && scan.packets == [] && LongEnough(scan.packets) &&
            OnPackets(c, scan.packets) == Effect(c, []) && log + Emitted(portOpen, []) == log
  {
    Sequences.AppendEmpty(buf);
    Frame.ShortBufferKept(buf);
    assert Emitted(portOpen, []) == [];
    Sequences.AppendEmpty(log);
  }

  class ProtocolForm {
    var receiveBuffer: seq<bv8>
    var state1: AutoState
    var state2: AutoState
    var running: bool
    /** Whether the serial port is open; opening and closing it is not part
        of this model. */
    const portOpen: bool
    const crc: Crc16.Crc16Buypass
    /** Every frame written to the serial port, oldest first. */
    ghost var sent: seq<seq<bv8>>

    /** The checksum table is built and at most one channel is away from
        rest: what the handlers rely on, also in the middle of a delivery. */
    ghost predicate Consistent()
      reads this, crc, crc.table
    {
      crc.Valid() && Exclusive(Channels(state1, state2))
    }

    /** Between deliveries, moreover, the receive buffer holds less than a
        frame: the loop that consumes it runs until then. */
    ghost predicate Valid()
      reads this, crc, crc.table
    {
      Consistent() && |receiveBuffer| < Frame.PacketLength
    }

    function Stages(): Channels
      reads this
    {
      Channels(state1, state2)
    }

    constructor (portOpen: bool)
      ensures Valid() && this.portOpen == portOpen
      ensures receiveBuffer == [] && Stages() == Reset && !running && sent == []
    {
      this.portOpen := portOpen;
      crc := new Crc16.Crc16Buypass();
      receiveBuffer := [];
      state1, state2 := Idle, Idle;
      running := false;
      sent := [];
    }

    /** Sends one command frame: nothing when the port is closed, and nothing
        when the payload is longer than nine bytes (the block copy throws and
        the exception is caught); a shorter payload is zero-padded. */
    method SendPacket(data: seq<bv8>)
      requires Consistent()
      modifies this`sent
      ensures Consistent()
      ensures sent == old(sent) +
                (if portOpen && |data| <= Frame.PayloadLength then [Frame.Encode(Frame.Pad(data))] else [])
    {
      if !portOpen {
        return;
      }
      if |data| > Frame.PayloadLength {
        return;
      }
      var packet := Frame.BuildPacket(crc, data);
      sent := sent + [packet];
    }

    /** Sends a nine-byte command: its frame is emitted when the port is open. */
    method Send(p: Frame.Payload)
      requires Consistent()
      modifies this`sent
      ensures Consistent()
      ensures sent == old(sent) + Emitted(portOpen, [p])
    {
      SendPacket(p);
      Frame.PadFull(p);
    }

    /** Channel 1's handler. The break command, which the source sends from
        the task it starts, goes out at this step; the rest of that task is
        `FinishBreakTask1`. */
    method HandleAutoMode1(packet: seq<bv8>)
      requires Consistent()
      modifies this`state1, this`sent
      ensures Consistent()
      ensures var o := Handle1(old(Stages()), packet);
              Stages() == o.channels && sent == old(sent) + Emitted(portOpen, Sends(o.send))
    {
      if state2 != Idle {
        return;
      }
      match state1
      case Idle =>
        if packet == TriggerSignal1 {
          Send(Hold1);
          state1 := VacuumsOn;
        }
      case VacuumsOn =>
        if packet != TriggerSignal1 {
          state1 := ReadyForBreak;
        }
      case ReadyForBreak =>
        if packet == TriggerSignal1 {
          state1 := Breaking;
          Send(Break1);
        }
      case Breaking =>
    }

    /** Channel 2's handler. */
    method HandleAutoMode2(packet: seq<bv8>)
      requires Consistent() && TriggerIndex2 < |packet|
      modifies this`state2, this`sent
      ensures Consistent()
      ensures var o := Handle2(old(Stages()), packet);
              Stages() == o.channels && sent == old(sent) + Emitted(portOpen, Sends(o.send))
    {
      if state1 != Idle {
        return;
      }
      var triggerByte := packet[TriggerIndex2];
      match state2
      case Idle =>
        if triggerByte == TriggerByte2 {
          Send(Hold2);
          state2 := VacuumsOn;
        }
      case VacuumsOn =>
        if triggerByte != TriggerByte2 {
          state2 := ReadyForBreak;
        }
      case ReadyForBreak =>
        if triggerByte == TriggerByte2 {
          state2 := Breaking;
          Send(Break2);
        }
      case Breaking =>
    }

    /** The end of channel 1's break task, after its delay. */
    method FinishBreakTask1()
      requires Valid()
      modifies this`state1, this`sent
      ensures Valid()
      ensures var e := FinishBreak1(old(Stages()));
              Stages() == e.channels && sent == old(sent) + Emitted(portOpen, e.sends)
    {
      Send(Neutral);
      state1 := Idle;
    }

    /** The end of channel 2's break task, after its delay. */
    method FinishBreakTask2()
      requires Valid()
      modifies this`state2, this`sent
      ensures Valid()
      ensures var e := FinishBreak2(old(Stages()));
              Stages() == e.channels && sent == old(sent) + Emitted(portOpen, e.sends)
    {
      Send(Neutral);
      state2 := Idle;
    }

    /** A polling tick: while the automatic mode runs on an open port, one
        frame goes out, chosen by the channel stages. */
    method PollingTimerTick()
      requires Valid()
      modifies this`sent
      ensures Valid()
      ensures sent == old(sent) + (if running && portOpen then [Frame.Encode(TickPayload(Stages()))] else [])
    {
      if running && portOpen {
        var command: Option<Frame.Payload> := None;
        if state1 != Idle {
          if state1 == VacuumsOn || state1 == ReadyForBreak {
            command := Some(Hold1);
          }
        } else if state2 != Idle {
          if state2 == VacuumsOn || state2 == ReadyForBreak {
            command := Some(Hold2);
          }
        }
        if command.None? {
          command := Some(Neutral);
        }
        Send(command.value);
      }
    }

    /** Starting the automatic mode needs an open port; it resets both
        channels. */
    method StartAutoMode()
      requires Valid()
      modifies this`running, this`state1, this`state2
      ensures Valid()
      ensures if portOpen then running && Stages() == Reset
              else running == old(running) && Stages() == old(Stages())
    {
      if !portOpen {
        return;
      }
      running := true;
      state1 := Idle;
      state2 := Idle;
    }

    /** Stopping only clears the running flag: the channel stages stay. */
    method StopAutoMode()
      requires Valid()
      modifies this`running
      ensures Valid() && !running
    {
      running := false;
    }

    /** One frame cut from the receive buffer: while the automatic mode
        runs it goes through channel 1's handler, then channel 2's. */
    method Dispatch(packet: seq<bv8>)
      requires Consistent() && TriggerIndex2 < |packet|
      modifies this`state1, this`state2, this`sent
      ensures Consistent()
      ensures if running then
                var e := OnPacket(old(Stages()), packet);
                Stages() == e.channels && sent == old(sent) + Emitted(portOpen, e.sends)
              else
                Stages() == old(Stages()) && sent == old(sent)
    {
      if running {
        ghost var c, log := Stages(), sent;
        ghost var first := Handle1(c, packet);
        HandleAutoMode1(packet);
        ghost var second := Handle2(first.channels, packet);
        HandleAutoMode2(packet);
        assert OnPacket(c, packet) == Effect(second.channels, Sends(first.send) + Sends(second.send));
        EmittedAppend(portOpen, Sends(first.send), Sends(second.send));
        hide OnPacket, Emitted, Handle1, Handle2;
        Sequences.SeqAssoc(log, Emitted(portOpen, Sends(first.send)), Emitted(portOpen, Sends(second.send)));
      }
    }

    /** Bytes arrive: an empty delivery is ignored; otherwise they are
        appended to the receive buffer and the frames are cut out of it. */
    method DataReceived(chunk: seq<bv8>)
      requires Valid()
      modifies this`receiveBuffer, this`state1, this`state2, this`sent
      ensures Valid()
      ensures var scan := Frame.Resync(old(receiveBuffer) + chunk);
              receiveBuffer == scan.residue && LongEnough(scan.packets) &&
              if running then
                var e := OnPackets(old(Stages()), scan.packets);
                Stages() == e.channels && sent == old(sent) + Emitted(portOpen, e.sends)
              else
                Stages() == old(Stages()) && sent == old(sent)
      ensures chunk == [] ==>
                receiveBuffer == old(receiveBuffer) && Stages() == old(Stages()) && sent == old(sent)
    {
      if chunk == [] {
        NothingArrived(receiveBuffer, Stages(), portOpen, sent);
        return;
      }
      receiveBuffer := receiveBuffer + chunk;
      ConsumeFrames();
    }

    /** The resynchronising loop over the receive buffer; while the automatic
        mode runs, each frame cut out goes through both handlers. */
    method ConsumeFrames()
      requires Consistent()
      modifies this`receiveBuffer, this`state1, this`state2, this`sent
      ensures Valid()
      ensures var scan := Frame.Resync(old(receiveBuffer));
              receiveBuffer == scan.residue && LongEnough(scan.packets) &&
              if running then
                var e := OnPackets(old(Stages()), scan.packets);
                Stages() == e.channels && sent == old(sent) + Emitted(portOpen, e.sends)
              else
                Stages() == old(Stages()) && sent == old(sent)
    {
      ghost var stream := receiveBuffer;
      ghost var done: seq<seq<bv8>> := [];
      ghost var stages0 := Stages();
      ghost var sent0 := sent;
      ScanStart(stream);
      HandledStart(running, portOpen, stages0, sent0);
      hide ScanSplit, Handled;
      while |receiveBuffer| >= Frame.PacketLength
        invariant Consistent()
        invariant ScanSplit(stream, done, receiveBuffer)
        invariant Handled(running, portOpen, stages0, sent0, done, Stages(), sent)
        decreases |receiveBuffer|
      {
        var startIndex := Frame.FindIndex(receiveBuffer, Frame.RecvStx);
        if startIndex == -1 {
          ScanCleared(stream, done, receiveBuffer);
          receiveBuffer := [];
          break;
        }
        ScanTrim(stream, done, receiveBuffer, startIndex);
        if startIndex > 0 {
          receiveBuffer := receiveBuffer[startIndex..];
        }
        if |receiveBuffer| < Frame.PacketLength {
          break;
        }
        var packet := receiveBuffer[..Frame.PacketLength];
        ScanAdvance(stream, done, receiveBuffer);
        ghost var c, log := Stages(), sent;
        Dispatch(packet);
        HandledStep(running, portOpen, stages0, sent0, done, c, log, packet, Stages(), sent);
        done := done + [packet];
        receiveBuffer := receiveBuffer[Frame.PacketLength..];
      }
      ScanDone(stream, done, receiveBuffer);
      HandledUnfold(running, portOpen, stages0, sent0, done, Stages(), sent);
    }
  }
}
