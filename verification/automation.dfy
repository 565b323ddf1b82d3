/** The dual automatic mode as pure functions: two press-release-press
    detectors, one per hand tool, of which at most one is active at a time,
    and the choice of the payload sent on each polling tick. */
module Automation {
  import opened Wrappers
  import Frame
  import Sequences

  /** The stage of one channel's cycle. */
  datatype AutoState = Idle | VacuumsOn | ReadyForBreak | Breaking

  /** The stages of channel 1 and channel 2. */
  datatype Channels = Channels(state1: AutoState, state2: AutoState)

  /** Both channels at rest, as starting the automatic mode leaves them. */
  const Reset: Channels := Channels(Idle, Idle)

  /** The status frame that means "tool 1 pressed". */
  const TriggerSignal1: seq<bv8> :=
    [0x44, 0x10, 0x03, 0x85, 0x00, 0x00, 0x00, 0x00, 0x00, 0xFA, 0x12, 0x00, 0x00, 0x1B, 0x99, 0x55]

  /** Tool 2 is pressed when byte 10 of a status frame (data byte 6) is 0x04. */
  const TriggerIndex2: nat := 10
  const TriggerByte2: bv8 := 0x04

  /** Ejectors 3+4 vacuum on, ejectors 3+4 break, and the same for 5+6. */
  const Hold1: Frame.Payload := [0, 0x50, 0, 0, 0, 0, 0, 0, 0]
  const Break1: Frame.Payload := [0, 0xA0, 0, 0, 0, 0, 0, 0, 0]
  const Hold2: Frame.Payload := [0, 0, 0x05, 0, 0, 0, 0, 0, 0]
  const Break2: Frame.Payload := [0, 0, 0x0A, 0, 0, 0, 0, 0, 0]
  /** The all-zero payload: the status request and the command reset. */
  const Neutral: Frame.Payload := [0, 0, 0, 0, 0, 0, 0, 0, 0]

  predicate Pressed1(packet: seq<bv8>)
  {
    packet == TriggerSignal1
  }

  predicate Pressed2(packet: seq<bv8>)
    requires TriggerIndex2 < |packet|
  {
    packet[TriggerIndex2] == TriggerByte2
  }

  /** What one channel does with a packet: its next stage and the command it
      sends, if any. */
  datatype Reaction = Reaction(next: AutoState, send: Option<Frame.Payload>)

  /** The press-release-press detector of one channel: a press at rest turns
      the vacuum on, a release arms the break, a second press breaks; while
      breaking, packets are ignored. */
  function Detect(state: AutoState, pressed: bool, hold: Frame.Payload, brk: Frame.Payload): (r: Reaction)
    ensures r.send.Some? ==> pressed && r.next != Idle &&
                             ((state == Idle && r.send.value == hold) || (state == ReadyForBreak && r.send.value == brk))
    ensures state != Idle ==> r.next != Idle
  {
    match state
    case Idle => if pressed then Reaction(VacuumsOn, Some(hold)) else Reaction(Idle, None)
    case VacuumsOn => if !pressed then Reaction(ReadyForBreak, None) else Reaction(VacuumsOn, None)
    case ReadyForBreak => if pressed then Reaction(Breaking, Some(brk)) else Reaction(ReadyForBreak, None)
    case Breaking => Reaction(Breaking, None)
  }

  /** The channels after one handler, and the command it sends. */
  datatype Outcome = Outcome(channels: Channels, send: Option<Frame.Payload>)

  /** Channel 1's handler: it does nothing while channel 2 is active. */
  function Handle1(c: Channels, packet: seq<bv8>): (r: Outcome)
    ensures r.channels.state2 == c.state2
    ensures r.send.Some? ==> c.state2 == Idle && r.channels.state1 != Idle &&
                             (r.send.value == Hold1 || r.send.value == Break1)
  {
    if c.state2 != Idle then Outcome(c, None)
    else
      var r := Detect(c.state1, Pressed1(packet), Hold1, Break1);
      Outcome(Channels(r.next, c.state2), r.send)
  }

  /** Channel 2's handler: it does nothing while channel 1 is active. */
  function Handle2(c: Channels, packet: seq<bv8>): (r: Outcome)
    requires TriggerIndex2 < |packet|
    ensures r.channels.state1 == c.state1
    ensures r.send.Some? ==> c.state1 == Idle && r.channels.state2 != Idle &&
                             (r.send.value == Hold2 || r.send.value == Break2)
  {
    if c.state1 != Idle then Outcome(c, None)
    else
      var r := Detect(c.state2, Pressed2(packet), Hold2, Break2);
      Outcome(Channels(c.state1, r.next), r.send)
  }

  /** The channels after some steps, and the commands sent, in order. */
  datatype Effect = Effect(channels: Channels, sends: seq<Frame.Payload>)

  function Sends(send: Option<Frame.Payload>): seq<Frame.Payload>
  {
    if send.Some? then [send.value] else []
  }

  /** A packet received while the automatic mode runs: channel 1's handler,
      then channel 2's on the channels the first one left. */
  function OnPacket(c: Channels, packet: seq<bv8>): (r: Effect)
    requires TriggerIndex2 < |packet|
    ensures |r.sends| <= 1
  {
    var first := Handle1(c, packet);
    var second := Handle2(first.channels, packet);
    Effect(second.channels, Sends(first.send) + Sends(second.send))
  }

  predicate LongEnough(packets: seq<seq<bv8>>)
  {
    forall k :: 0 <= k < |packets| ==> TriggerIndex2 < |packets[k]|
  }

  /** A run of packets, handled in order. */
  function OnPackets(c: Channels, packets: seq<seq<bv8>>): (r: Effect)
    requires LongEnough(packets)
    ensures |r.sends| <= |packets|
    decreases |packets|
  {
    if packets == [] then Effect(c, [])
    else
      var before := OnPackets(c, packets[..|packets| - 1]);
      var last := OnPacket(before.channels, packets[|packets| - 1]);
      Effect(last.channels, before.sends + last.sends)
  }

  /** The end of channel 1's break: after the delay the command reset is
      sent and channel 1 is back at rest. */
  function FinishBreak1(c: Channels): Effect
  {
    Effect(Channels(Idle, c.state2), [Neutral])
  }

  /** The end of channel 2's break. */
  function FinishBreak2(c: Channels): Effect
  {
    Effect(Channels(c.state1, Idle), [Neutral])
  }

  /** The payload of a polling tick: keep the vacuum of the active channel
      on while it waits, otherwise request the status. */
  function TickPayload(c: Channels): (r: Frame.Payload)
    ensures r == Hold1 || r == Hold2 || r == Neutral
  {
    var chosen: Option<Frame.Payload> :=
      if c.state1 != Idle then
        if c.state1 == VacuumsOn || c.state1 == ReadyForBreak then Some(Hold1) else None
      else if c.state2 != Idle then
        if c.state2 == VacuumsOn || c.state2 == ReadyForBreak then Some(Hold2) else None
      else None;
    if chosen.None? then Neutral else chosen.value
  }

  // ---------------------------------------------------------------------
  // Properties

  /** At most one channel is away from rest. */
  predicate Exclusive(c: Channels)
  {
    c.state1 == Idle || c.state2 == Idle
  }

  predicate Holding(s: AutoState)
  {
    s == VacuumsOn || s == ReadyForBreak
  }

  /** Each handler, and both in turn, keep the channels exclusive. */
  lemma HandlersKeepExclusive(c: Channels, packet: seq<bv8>)
    requires Exclusive(c) && TriggerIndex2 < |packet|
    ensures Exclusive(Handle1(c, packet).channels)
    ensures Exclusive(Handle2(c, packet).channels)
    ensures Exclusive(OnPacket(c, packet).channels)
  {
  }

  /** So does any run of packets. */
  lemma {:induction false} OnPacketsKeepExclusive(c: Channels, packets: seq<seq<bv8>>)
    requires Exclusive(c) && LongEnough(packets)
    ensures Exclusive(OnPackets(c, packets).channels)
    decreases |packets|
  {
    if packets != [] {
      var init := packets[..|packets| - 1];
      OnPacketsKeepExclusive(c, init);
      HandlersKeepExclusive(OnPackets(c, init).channels, packets[|packets| - 1]);
    }
  }

  /** Starting the automatic mode leaves the channels exclusive. */
  lemma ResetIsExclusive()
    ensures Exclusive(Reset)
  {
  }

  /** The end of channel 1's break keeps them exclusive, and leaves channel 2
      where it was. */
  lemma FinishBreak1KeepsExclusive(c: Channels)
    requires Exclusive(c)
    ensures Exclusive(FinishBreak1(c).channels)
    ensures FinishBreak1(c).channels.state2 == c.state2
  {
  }

  /** So does the end of channel 2's break, for channel 1. */
  lemma FinishBreak2KeepsExclusive(c: Channels)
    requires Exclusive(c)
    ensures Exclusive(FinishBreak2(c).channels)
    ensures FinishBreak2(c).channels.state1 == c.state1
  {
  }

  /** A packet makes at most one command go out, and it is channel 1's hold
      command exactly when channel 1 leaves rest. */
  lemma AtMostOneCommand(c: Channels, packet: seq<bv8>)
    requires TriggerIndex2 < |packet|
    ensures |OnPacket(c, packet).sends| <= 1
    ensures var e := OnPacket(c, packet);
            e.sends == [Hold1] <==> c.state1 == Idle && e.channels.state1 == VacuumsOn
  {
    assert Hold1[1] != Break1[1] && Hold1[1] != Hold2[1] && Hold1[1] != Break2[1];
    var first := Handle1(c, packet);
    var second := Handle2(first.channels, packet);
    if first.send.Some? {
      assert second.send.None?;
      assert OnPacket(c, packet).sends == [first.send.value];
      assert first.send.value == Hold1 <==> c.state1 == Idle;
    } else {
      assert OnPacket(c, packet).sends == Sends(second.send);
      assert second.send.Some? ==> second.send.value != Hold1;
    }
  }

  /** While channel 1 is away from rest, a packet leaves channel 2 alone:
      channel 2 stays where it was, channel 1 does not return to rest, and
      neither of channel 2's commands goes out. */
  lemma Channel1Blocks2(c: Channels, packet: seq<bv8>)
    requires Exclusive(c) && c.state1 != Idle && TriggerIndex2 < |packet|
    ensures var e := OnPacket(c, packet);
            e.channels.state2 == c.state2 && e.channels.state1 != Idle &&
            Hold2 !in e.sends && Break2 !in e.sends
  {
    assert Hold2[2] != Hold1[2] && Hold2[2] != Break1[2];
    assert Break2[2] != Hold1[2] && Break2[2] != Break1[2];
  }

  /** While channel 2 is away from rest, a packet leaves channel 1 alone. */
  lemma Channel2Blocks1(c: Channels, packet: seq<bv8>)
    requires Exclusive(c) && c.state2 != Idle && TriggerIndex2 < |packet|
    ensures var e := OnPacket(c, packet);
            e.channels.state1 == c.state1 && e.channels.state2 != Idle &&
            Hold1 !in e.sends && Break1 !in e.sends
  {
    assert Hold1[1] != Hold2[1] && Hold1[1] != Break2[1];
    assert Break1[1] != Hold2[1] && Break1[1] != Break2[1];
  }

  /** A run of packets appended to another is handled from where the first
      one left the channels. */
  lemma OnPacketsAppend(c: Channels, packets: seq<seq<bv8>>, packet: seq<bv8>)
    requires LongEnough(packets) && TriggerIndex2 < |packet|
    ensures LongEnough(packets + [packet])
    ensures var before := OnPackets(c, packets);
            var last := OnPacket(before.channels, packet);
            OnPackets(c, packets + [packet]) == Effect(last.channels, before.sends + last.sends)
  {
    assert (packets + [packet])[..|packets|] == packets;
  }

  /** Handling two runs of packets one after the other is handling their
      concatenation. */
  lemma {:induction false} OnPacketsConcat(c: Channels, p: seq<seq<bv8>>, q: seq<seq<bv8>>)
    requires LongEnough(p) && LongEnough(q)
    ensures LongEnough(p + q)
    ensures var first := OnPackets(c, p);
            var second := OnPackets(first.channels, q);
            OnPackets(c, p + q) == Effect(second.channels, first.sends + second.sends)
    decreases |q|
  {
    var first := OnPackets(c, p);
    if q == [] {
      assert p + q == p;
      Sequences.AppendEmpty(first.sends);
    } else {
      var init := q[..|q| - 1];
      var x := q[|q| - 1];
      Sequences.LastSplit(p, q);
      assert LongEnough(init) && TriggerIndex2 < |x|;
      OnPacketsConcat(c, p, init);
      OnPacketsAppend(c, p + init, x);
      OnPacketsAppend(first.channels, init, x);
      var mid := OnPackets(first.channels, init);
      var last := OnPacket(mid.channels, x);
      hide OnPackets, OnPacket, LongEnough;
      Sequences.SeqAssoc(first.sends, mid.sends, last.sends);
    }
  }

  /** The trigger of tool 1 does not press tool 2. */
  lemma TriggersDisjoint(packet: seq<bv8>)
    requires TriggerIndex2 < |packet|
    ensures Pressed1(packet) ==> !Pressed2(packet)
  {
    if Pressed1(packet) {
      assert packet[TriggerIndex2] == 0x12;
    }
  }

  /** Three packets handled in order. */
  lemma OnThree(c: Channels, p1: seq<bv8>, p2: seq<bv8>, p3: seq<bv8>)
    requires TriggerIndex2 < |p1| && TriggerIndex2 < |p2| && TriggerIndex2 < |p3|
    ensures LongEnough([p1, p2, p3])
    ensures var e1 := OnPacket(c, p1);
            var e2 := OnPacket(e1.channels, p2);
            var e3 := OnPacket(e2.channels, p3);
            OnPackets(c, [p1, p2, p3]) == Effect(e3.channels, e1.sends + e2.sends + e3.sends)
  {
    var e1 := OnPacket(c, p1);
    var e2 := OnPacket(e1.channels, p2);
    assert [p1][..0] == [];
    assert [] + e1.sends == e1.sends;
    assert OnPackets(c, [p1]) == e1;
    assert [p1, p2][..1] == [p1];
    assert OnPackets(c, [p1, p2]) == Effect(e2.channels, e1.sends + e2.sends);
    assert [p1, p2, p3][..2] == [p1, p2];
  }

  /** Channel 1's full cycle from rest: press, release, press turns the
      vacuum on, then breaks; the end of the break brings it back to rest
      with the command reset. */
  lemma Channel1Cycle(release: seq<bv8>)
    requires TriggerIndex2 < |release| && !Pressed1(release)
    ensures LongEnough([TriggerSignal1, release, TriggerSignal1])
    ensures var e := OnPackets(Reset, [TriggerSignal1, release, TriggerSignal1]);
            e == Effect(Channels(Breaking, Idle), [Hold1, Break1]) &&
            FinishBreak1(e.channels) == Effect(Reset, [Neutral])
  {
    var t := TriggerSignal1;
    OnThree(Reset, t, release, t);
    assert OnPacket(Reset, t) == Effect(Channels(VacuumsOn, Idle), [Hold1]);
    assert OnPacket(Channels(VacuumsOn, Idle), release) == Effect(Channels(ReadyForBreak, Idle), []);
    assert OnPacket(Channels(ReadyForBreak, Idle), t) == Effect(Channels(Breaking, Idle), [Break1]);
    hide OnPacket, OnPackets;
    assert [Hold1] + [] + [Break1] == [Hold1, Break1];
  }

  /** A press held over two packets turns the vacuum on once: press, press,
      release, press sends the hold command after the first packet, nothing
      after the second and third, and the break command after the fourth. */
  lemma Channel1HeldPress(release: seq<bv8>)
    requires TriggerIndex2 < |release| && !Pressed1(release)
    ensures LongEnough([TriggerSignal1, TriggerSignal1, release, TriggerSignal1])
    ensures OnPackets(Reset, [TriggerSignal1, TriggerSignal1, release, TriggerSignal1]) ==
              Effect(Channels(Breaking, Idle), [Hold1, Break1])
  {
    var t := TriggerSignal1;
    var on := Channels(VacuumsOn, Idle);
    OnThree(on, t, release, t);
    OnPacketsConcat(Reset, [t], [t, release, t]);
    HeldSteps(release);
    hide OnPacket, OnPackets;
    assert [t] + [t, release, t] == [t, t, release, t];
    assert [Hold1] + ([] + [] + [Break1]) == [Hold1, Break1];
  }

  lemma HeldSteps(release: seq<bv8>)
    requires TriggerIndex2 < |release| && !Pressed1(release)
    ensures var t, on := TriggerSignal1, Channels(VacuumsOn, Idle);
            OnPackets(Reset, [t]) == Effect(on, [Hold1]) &&
            OnPacket(on, t) == Effect(on, []) &&
            OnPacket(on, release) == Effect(Channels(ReadyForBreak, Idle), []) &&
            OnPacket(Channels(ReadyForBreak, Idle), t) == Effect(Channels(Breaking, Idle), [Break1])
  {
    assert [TriggerSignal1][..0] == [];
    assert [] + [Hold1] == [Hold1];
  }

  /** Channel 2's full cycle from rest. */
  lemma Channel2Cycle(press: seq<bv8>, release: seq<bv8>, again: seq<bv8>)
    requires TriggerIndex2 < |press| && TriggerIndex2 < |release| && TriggerIndex2 < |again|
    requires Pressed2(press) && !Pressed2(release) && Pressed2(again)
    ensures LongEnough([press, release, again])
    ensures var e := OnPackets(Reset, [press, release, again]);
            e == Effect(Channels(Idle, Breaking), [Hold2, Break2]) &&
            FinishBreak2(e.channels) == Effect(Reset, [Neutral])
  {
    OnThree(Reset, press, release, again);
    Press2FromRest(press);
    assert OnPacket(Channels(Idle, VacuumsOn), release) == Effect(Channels(Idle, ReadyForBreak), []);
    assert OnPacket(Channels(Idle, ReadyForBreak), again) == Effect(Channels(Idle, Breaking), [Break2]);
    hide OnPacket, OnPackets;
    assert [Hold2] + [] + [Break2] == [Hold2, Break2];
  }

  lemma Press2FromRest(press: seq<bv8>)
    requires TriggerIndex2 < |press| && Pressed2(press)
    ensures OnPacket(Reset, press) == Effect(Channels(Idle, VacuumsOn), [Hold2])
  {
    TriggersDisjoint(press);
  }

  /** Holding the press does not break: the release must come first. */
  lemma NoBreakWithoutRelease(c: Channels, packet: seq<bv8>)
    requires TriggerIndex2 < |packet|
    requires c.state1 == VacuumsOn && c.state2 == Idle && Pressed1(packet)
    ensures OnPacket(c, packet) == Effect(c, [])
  {
  }

  /** While a channel breaks, packets change nothing and send nothing. */
  lemma BreakingIgnoresPackets(c: Channels, packet: seq<bv8>)
    requires Exclusive(c) && TriggerIndex2 < |packet|
    requires c.state1 == Breaking || c.state2 == Breaking
    ensures OnPacket(c, packet) == Effect(c, [])
  {
  }

  /** The polling tick: hold 1 exactly while channel 1 waits with the vacuum
      on, hold 2 exactly while channel 1 rests and channel 2 waits, the
      status request otherwise (breaking included). */
  lemma TickChoice(c: Channels)
    ensures TickPayload(c) == Hold1 <==> Holding(c.state1)
    ensures TickPayload(c) == Hold2 <==> c.state1 == Idle && Holding(c.state2)
    ensures TickPayload(c) == Neutral <==> !Holding(c.state1) && !(c.state1 == Idle && Holding(c.state2))
  {
    assert Hold1[1] != Hold2[1] && Hold1[1] != Neutral[1] && Hold2[2] != Neutral[2];
  }
}
