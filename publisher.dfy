/** The `nmea_publisher` node: it fixes a baseline time once the clock is
    running, and on every call after that turns the latest glider status into
    a `$PVGGA` sentence and sends it as one UDP datagram to the vessel
    manager. The socket is modelled as the log of datagrams sent. */
module Publisher {
  import opened Text
  import opened TimeEncoder
  import opened CoordinateEncoder
  import opened Nmea

  /** The vessel manager's address. */
  const UdpIp := "127.0.0.1"
  const UdpPort: nat := 30362

  /** The constructor waits until the clock reads at least this (seconds). */
  const ClockReady: real := 0.01
  /** `publish_NMEA` returns early when less than this has elapsed since `t0`. */
  const MinElapsed: real := 0.001

  /** The characters Python's `str()` of a float can produce. */
  predicate IsFloatText(s: string)
  {
    |s| >= 1 && forall i :: 0 <= i < |s| ==> s[i] in "0123456789+-.einfa"
  }

  /** `str(depth)`: the depth enters the sentence only as this text. */
  type FloatText = s: string | IsFloatText(s) witness "0.0"

  /** One `UwGliderStatus` reading, the three fields the publisher uses. */
  datatype Status = Status(latitude: real, longitude: real, depth: FloatText)

  /** A freshly constructed `UwGliderStatus()`. */
  const DefaultStatus := Status(0.0, 0.0, "0.0")

  const Talker := "PV"
  const Kind := "GGA"

  /** The fourteen data fields of the GGA sentence, in order: time,
      latitude, `N`, longitude, `W`, fix quality `1`, satellites `04`, no
      HDOP, the depth as antenna altitude, `M`, no geoidal separation, `M`,
      no correction age, station `0000`. */
  function GgaFields(now: real, status: Status): seq<string>
  {
    [SecondsToHhmmss(now),
     LatitudeField(status.latitude), LatitudeHemisphere,
     LongitudeField(status.longitude), LongitudeHemisphere,
     "1", "04", "",
     status.depth, "M",
     "", "M", "", "0000"]
  }

  function GgaSentence(now: real, status: Status): Sentence
  {
    Sentence(Talker, Kind, GgaFields(now, status))
  }

  lemma NumericFramable(s: string)
    requires forall i :: 0 <= i < |s| ==> IsDigit(s[i]) || s[i] == '.' || s[i] == '-'
    ensures IsAscii(s) && NoComma(s)
  {
  }

  lemma FloatTextFramable(s: FloatText)
    ensures IsAscii(s) && NoComma(s)
  {
    forall i | 0 <= i < |s| ensures s[i] as int < 128 && s[i] != ',' {
      assert s[i] in "0123456789+-.einfa";
    }
  }

  /** Every GGA field is ASCII without a comma, so the sentence frames. */
  lemma GgaFramable(now: real, status: Status)
    ensures Framable(GgaSentence(now, status))
  {
    hide SecondsToHhmmss, DdToDdm;
    HhmmssChars(now);
    NumericFramable(SecondsToHhmmss(now));
    DdmChars(status.latitude);
    NumericFramable(DdToDdm(status.latitude));
    DdmChars(-status.longitude);
    var lon := LongitudeField(status.longitude);
    assert forall i :: 1 <= i < |lon| ==> lon[i] == DdToDdm(-status.longitude)[i - 1];
    NumericFramable(lon);
    FloatTextFramable(status.depth);
    assert "PV" + "GGA" == "PVGGA";
  }

  /** `MESSAGE = str(msg)`: the rendered GGA sentence, ASCII text. */
  function Message(now: real, status: Status): (m: string)
    ensures IsAscii(m)
  {
    GgaFramable(now, status);
    RenderAscii(GgaSentence(now, status));
    Render(GgaSentence(now, status))
  }

  /** What a receiver learns from the sentence: it passes the checksum and
      reads back as the talker `PV`, the type `GGA` and exactly the fourteen
      fields; the time reads back as the clock's whole hours, minutes and
      seconds (hours not wrapped), the hemisphere letters are `N` and `W`
      whatever the signs, the longitude is "0" followed by the encoding of the
      negated longitude, and the other fields are the fixed literals and the
      depth. */
  lemma GgaReceived(now: real, status: Status)
    ensures Parse(Message(now, status)) == Some(GgaSentence(now, status))
    ensures var f := GgaFields(now, status);
      |f| == 14 &&
      DecodeHhmmss(f[0]) == Some(Split(now.Floor)) &&
      f[1] == DdToDdm(status.latitude) && f[2] == "N" &&
      f[3] == "0" + DdToDdm(-status.longitude) && f[4] == "W" &&
      f[5] == "1" && f[6] == "04" && f[7] == "" &&
      f[8] == status.depth && f[9] == "M" &&
      f[10] == "" && f[11] == "M" && f[12] == "" && f[13] == "0000"
  {
    hide Parse, Render, Body, SecondsToHhmmss, DdToDdm;
    GgaFramable(now, status);
    ParseRender(GgaSentence(now, status));
    HhmmssRoundTrip(now);
  }

  /** A status of 10.5 degrees north, 20.25 degrees west and a depth of
      5.2 at 3725 seconds: the fields of `$PVGGA,010205,1030.000000,N,
      02015.000000,W,1,04,,5.2,M,,M,,0000`. */
  lemma GgaFieldsExample()
    ensures GgaFields(3725.0, Status(10.5, -20.25, "5.2")) ==
      ["010205", "1030.000000", "N", "02015.000000", "W", "1", "04", "",
       "5.2", "M", "", "M", "", "0000"]
  {
    HhmmssExamples();
    DdmTenAndAHalf();
    LongitudeWest();
  }

  /** One UDP datagram: destination address and port, and the bytes sent. */
  datatype Datagram = Datagram(host: string, port: nat, payload: seq<Byte>)

  /** `sock.sendto(MESSAGE.encode(), (UDP_IP, UDP_PORT))`. */
  function Packet(now: real, status: Status): Datagram
  {
    Datagram(UdpIp, UdpPort, AsciiBytes(Message(now, status)))
  }

  /** Each datagram goes to the vessel manager's address, carries one byte
      per character of the sentence, and reads back as the GGA sentence. */
  lemma PacketReceived(now: real, status: Status)
    ensures var d := Packet(now, status);
      d.host == "127.0.0.1" && d.port == 30362 &&
      |d.payload| == |Message(now, status)| &&
      Parse(AsciiText(d.payload)) == Some(GgaSentence(now, status))
  {
    AsciiRoundTrip(Message(now, status));
    GgaReceived(now, status);
    hide Message;
  }

  /** The gate of `publish_NMEA`: less than a millisecond since `t0`. */
  predicate Skips(t0: real, now: real)
  {
    now - t0 < MinElapsed
  }

  /** The wait loop of the constructor over successive clock readings: it
      stops at the first reading of at least `ClockReady`. */
  method WaitForClock(clock: seq<real>) returns (i: nat)
    requires exists k :: 0 <= k < |clock| && clock[k] >= ClockReady
    ensures i < |clock| && clock[i] >= ClockReady
    ensures forall j :: 0 <= j < i ==> clock[j] < ClockReady
  {
    ghost var k :| 0 <= k < |clock| && clock[k] >= ClockReady;
    i := 0;
    var t := clock[0];
    while t < ClockReady
      invariant i <= k && t == clock[i]
      invariant forall j :: 0 <= j < i ==> clock[j] < ClockReady
      decreases k - i
    {
      i := i + 1;
      t := clock[i];
    }
  }

  /** One call of `publish_NMEA`: the clock reading and the status that
      `wait_for_message` returns. */
  datatype Tick = Tick(now: real, status: Status)

  /** The datagrams a run of calls sends, in order. */
  function Outbox(t0: real, ticks: seq<Tick>): seq<Datagram>
  {
    if ticks == [] then []
    else
      var last := ticks[|ticks| - 1];
      Outbox(t0, ticks[..|ticks| - 1]) +
      (if Skips(t0, last.now) then [] else [Packet(last.now, last.status)])
  }

  /** The status a run of calls leaves in `sim_msg`: the last one read. */
  function LastRead(initial: Status, t0: real, ticks: seq<Tick>): Status
  {
    if ticks == [] then initial
    else
      var last := ticks[|ticks| - 1];
      if Skips(t0, last.now) then LastRead(initial, t0, ticks[..|ticks| - 1]) else last.status
  }

  /** While every call falls inside the first millisecond, nothing is sent. */
  lemma {:induction false} OutboxAllSkipped(t0: real, ticks: seq<Tick>)
    requires forall i :: 0 <= i < |ticks| ==> Skips(t0, ticks[i].now)
    ensures Outbox(t0, ticks) == []
  {
    if ticks != [] {
      OutboxAllSkipped(t0, ticks[..|ticks| - 1]);
    }
  }

  /** Once a call passes the gate, every later call whose clock reading is
      no earlier sends exactly one datagram: the baseline is never moved, so
      the gate never closes again. */
  lemma {:induction false} OutboxOnceArmed(t0: real, ticks: seq<Tick>)
    requires |ticks| >= 1 && !Skips(t0, ticks[0].now)
    requires forall i :: 0 <= i < |ticks| ==> ticks[0].now <= ticks[i].now
    ensures |Outbox(t0, ticks)| == |ticks|
    ensures forall i :: 0 <= i < |ticks| ==> Outbox(t0, ticks)[i] == Packet(ticks[i].now, ticks[i].status)
  {
    hide Packet, Message;
    var n := |ticks|;
    var last := ticks[n - 1];
    assert ticks[0].now <= last.now;
    if n > 1 {
      var prefix := ticks[..n - 1];
      assert prefix[0] == ticks[0];
      assert forall i :: 0 <= i < |prefix| ==> prefix[i] == ticks[i];
      OutboxOnceArmed(t0, prefix);
      var o := Outbox(t0, prefix);
      assert Outbox(t0, ticks) == o + [Packet(last.now, last.status)];
      forall i | 0 <= i < n ensures Outbox(t0, ticks)[i] == Packet(ticks[i].now, ticks[i].status) {
        if i < n - 1 {
          assert prefix[i] == ticks[i];
        }
      }
    }
  }

  class Node {
    /** The baseline time, fixed by the constructor and never changed. */
    var t0: real
    /** The last status read (`sim_msg`). */
    var simMsg: Status
    /** Every datagram sent through the socket, oldest first. */
    var sent: seq<Datagram>

    /** `Node()`: reads the clock until it shows at least `ClockReady`, and
        keeps that reading as `t0`. */
    constructor (clock: seq<real>)
      requires exists k :: 0 <= k < |clock| && clock[k] >= ClockReady
      ensures t0 >= ClockReady
      ensures exists i :: 0 <= i < |clock| && t0 == clock[i] &&
                           forall j :: 0 <= j < i ==> clock[j] < ClockReady
      ensures simMsg == DefaultStatus && sent == []
    {
      var i := WaitForClock(clock);
      t0 := clock[i];
      simMsg := DefaultStatus;
      sent := [];
    }

    /** `publish_NMEA()` with the clock reading `now` and the status the
        `status` topic delivers. Within a millisecond of `t0` it returns
        before reading a status, changing nothing; otherwise it records the
        status and sends exactly one datagram. `t0` never changes. */
    method PublishNmea(now: real, status: Status)
      modifies this
      ensures t0 == old(t0)
      ensures Skips(t0, now) ==> simMsg == old(simMsg) && sent == old(sent)
      ensures !Skips(t0, now) ==> simMsg == status && sent == old(sent) + [Packet(now, status)]
    {
      hide Message, Packet;
      var dt := now - t0;
      if dt < MinElapsed {
        return;
      }
      simMsg := status;
      sent := sent + [Packet(now, simMsg)];
    }

    /** The main loop: `publish_NMEA()` once per scheduler tick until shutdown. */
    method Spin(ticks: seq<Tick>)
      modifies this
      ensures t0 == old(t0)
      ensures sent == old(sent) + Outbox(t0, ticks)
      ensures simMsg == LastRead(old(simMsg), t0, ticks)
    {
      hide Packet, Message;
      var i := 0;
      while i < |ticks|
        invariant 0 <= i <= |ticks|
        invariant t0 == old(t0)
        invariant sent == old(sent) + Outbox(t0, ticks[..i])
        invariant simMsg == LastRead(old(simMsg), t0, ticks[..i])
      {
        var tick := ticks[i];
        assert ticks[..i + 1][..i] == ticks[..i] && ticks[..i + 1][i] == tick;
        PublishNmea(tick.now, tick.status);
        i := i + 1;
      }
      assert ticks[..|ticks|] == ticks;
    }
  }
}
