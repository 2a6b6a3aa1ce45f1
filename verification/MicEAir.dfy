/** Mic-E reports on the air: from the encoder through a UI frame and a transmitter's run to the decoder. */
module MicEAir {
  import opened Wrappers
  import opened Bytes
  import opened Hdlc
  import opened Ax25
  import opened AprsTx
  import opened AprsRx
  import MicE

  lemma NextOctet(b: Byte)
    requires b < 128
    ensures (b + 1) as nat == b as nat + 1
  {}

  /** A character of at most seven bits as an octet. */
  function OctetOf(code: nat): (b: Byte)
    requires code <= 128
    ensures b as nat == code && b <= 128
  {
    if code == 0 then 0 else NextOctet(OctetOf(code - 1)); OctetOf(code - 1) + 1
  }

  function AsOctets(codes: seq<nat>): (octets: Text)
    requires forall i :: 0 <= i < |codes| ==> codes[i] < 128
    ensures |octets| == |codes|
  {
    seq(|codes|, i requires 0 <= i < |codes| => OctetOf(codes[i]))
  }

  function AsCodes(octets: Text): (codes: seq<nat>)
    ensures |codes| == |octets|
  {
    seq(|octets|, i requires 0 <= i < |octets| => octets[i] as nat)
  }

  lemma CodesComeBack(codes: seq<nat>)
    requires forall i :: 0 <= i < |codes| ==> codes[i] < 128
    ensures AsCodes(AsOctets(codes)) == codes
  {
    hide OctetOf;
  }

  ghost predicate Ascii(codes: seq<nat>) {
    forall i :: 0 <= i < |codes| ==> codes[i] < 128
  }

  /** A digit or an upper-case letter. */
  predicate CallChar(code: nat) {
    0x30 <= code <= 0x39 || 0x41 <= code <= 0x5A
  }

  lemma DestinationIsCall(p: MicE.Position, i: nat)
    requires MicE.Sendable(p) && i < 6
    ensures CallChar(MicE.Destination(p)[i])
  {
    assert MicE.Digit(MicE.Hundredths(p.lat), i) <= 9;
    hide MicE.Digit, MicE.Hundredths, MicE.Carried;
  }

  lemma SpeedCourseIsAscii(speed: nat, course: nat)
    ensures Ascii(MicE.SpeedCourseCodes(speed, course))
  {
    var s := if speed < 799 then speed else 799;
    var c := if course < 360 then course else 360;
    assert s / 10 <= 79 && s % 10 <= 9 && c / 100 <= 3 && c % 100 <= 99;
  }

  lemma InfoIsAscii(p: MicE.Position)
    requires MicE.Sendable(p) && Ascii(p.status)
    ensures Ascii(MicE.Info(p))
  {
    SpeedCourseIsAscii(p.speed, p.course);
    var info, codes := MicE.Info(p), MicE.SpeedCourseCodes(p.speed, p.course);
    var total := MicE.Hundredths(p.lon);
    var head := [MicE.CURRENT, MicE.DegreesCode(MicE.WholeDegrees(p.lon)), MicE.MinutesCode(MicE.Minutes(total)),
                 total % 100 + MicE.OFFSET];
    assert info == head + codes + [p.code, p.table] + p.status;
    assert Ascii(head) && Ascii([p.code, p.table]);
    hide MicE.Info, MicE.SpeedCourseCodes, MicE.Hundredths, MicE.WholeDegrees, MicE.Minutes, MicE.DegreesCode,
         MicE.MinutesCode;
  }

  /** The information field of a report. */
  ghost function InfoText(p: MicE.Position): Text
    requires MicE.Sendable(p) && Ascii(p.status)
  {
    InfoIsAscii(p);
    AsOctets(MicE.Info(p))
  }

  /** The destination address of a report. */
  ghost function DestinationCall(p: MicE.Position): Ax25.Call
    requires MicE.Sendable(p)
  {
    DestinationIsAscii(p);
    Ax25.Call(AsOctets(MicE.Destination(p)), 0)
  }

  lemma DestinationIsAscii(p: MicE.Position)
    requires MicE.Sendable(p)
    ensures Ascii(MicE.Destination(p))
  {
    forall i | 0 <= i < 6
      ensures MicE.Destination(p)[i] < 128
    {
      DestinationIsCall(p, i);
    }
  }

  lemma DestinationIsCanonical(p: MicE.Position)
    requires MicE.Sendable(p)
    ensures Canonical(DestinationCall(p)) && Written(DestinationCall(p)) == AsOctets(MicE.Destination(p))
  {
    forall i | 0 <= i < 6
      ensures CallChar(MicE.Destination(p)[i])
    {
      DestinationIsCall(p, i);
    }
    hide MicE.Destination;
    var base := DestinationCall(p).base;
    forall i | 0 <= i < |base|
      ensures IsDigit(base[i]) || IsUpper(base[i])
    {
      OctetOfCode(MicE.Destination(p)[i]);
    }
  }

  lemma OctetOfCode(code: nat)
    requires code < 128 && CallChar(code)
    ensures IsDigit(OctetOf(code)) || IsUpper(OctetOf(code))
  {
    hide OctetOf;
  }

  /** A packet's address without its SSID. */
  function AddressChars(call: Text): Text {
    match SplitAtOctet(call, DASH)
    case None => call
    case Some((base, ssid)) => base
  }

  lemma NoDash(p: MicE.Position)
    requires MicE.Sendable(p)
    ensures AddressChars(Written(DestinationCall(p))) == Written(DestinationCall(p))
  {
    DestinationIsCanonical(p);
    var base := DestinationCall(p).base;
    assert DASH !in base;
    hide SplitAtOctet;
  }

  /** The Mic-E report of a received packet. */
  function ReadReport(packet: Packet): Option<MicE.Report> {
    MicE.Decode(AsCodes(AddressChars(packet.destination)), AsCodes(packet.info))
  }

  lemma {:induction false} PacketIsRead(p: MicE.Position, source: Text, path: seq<Text>)
    requires MicE.Sendable(p) && Ascii(p.status)
    ensures ReadReport(PacketOf(source, Written(DestinationCall(p)), path, InfoText(p))) == Some(MicE.Reported(p))
  {
    DestinationIsCanonical(p);
    NoDash(p);
    CodesComeBack(MicE.Destination(p));
    InfoIsAscii(p);
    CodesComeBack(MicE.Info(p));
    hide Written, AsCodes, AsOctets, AddressChars, MicE.Decode, MicE.Info, MicE.Destination, MicE.Reported, Tnc2Line;
    MicE.RoundTrip(p);
  }

  /** A report sent as a UI frame in any run, and accepted, is received once the queue is empty and read as the report
      that was sent: the position with both coordinates blanked alike, speed, course, symbol and message. */
  lemma {:induction false} ReportArrives(mode: Mode, ops: seq<Op>, i: nat, source: Ax25.Call, path: seq<Hop>, p: MicE.Position)
    requires MicE.Sendable(p) && Ascii(p.status)
    requires Canonical(source) && CanonicalPath(path) && |path| <= 8
    requires var w := Run(Begin(mode), ops);
             && w.tx.pending == [] && i < |w.accepted|
             && w.accepted[i] == UiFrame(Written(source), Written(DestinationCall(p)), WrittenPath(path), InfoText(p))
    ensures var w := Run(Begin(mode), ops);
            var received := Received(w.tx.mode, w.samples);
            && |received| == |w.accepted| && ParseFrame(received[i]).Some?
            && ReadReport(ParseFrame(received[i]).value) == Some(MicE.Reported(p))
  {
    DestinationIsCanonical(p);
    hide Run, Received, ParseFrame, UiFrame, Written, WrittenPath, CheckedFrame, Canonical, CanonicalPath, DestinationCall,
         InfoText, MicE.Sendable, Ascii, ReadReport, MicE.Reported, PacketOf;
    MessageArrives(mode, ops, i, source, DestinationCall(p), path, InfoText(p));
    PacketIsRead(p, Written(source), WrittenPath(path));
  }
}
