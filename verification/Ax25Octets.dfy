/** The octets of an AX.25 frame: what the encoder writes in each place, and which octets the decoder reads as what. */
module Ax25Octets {
  import opened Wrappers
  import opened Bytes
  import opened Ax25

  // ---- Written ----

  /** The callsign in address `a`: destination, source, then the path without its marks. */
  function CallAt(source: Text, destination: Text, path: seq<Text>, a: nat): Text
    requires a < 2 + |path|
  {
    if a == 0 then destination else if a == 1 then source else TrimStars(path[a - 2])
  }

  /** The top bit of an address: set for the destination and for the hops that have repeated the frame. */
  predicate MarkAt(path: seq<Text>, a: nat)
    requires a < 2 + |path|
  {
    a == 0 || (a > 1 && EndsWithStar(path[a - 2]))
  }

  ghost predicate FieldHolds(field: seq<Byte>, base: Text, ssid: Byte, mark: bool, last: bool) {
    && |field| == 7
    && (forall k :: 0 <= k < 6 ==>
          field[k] as nat == 2 * ((if k < |base| then ToUpper(base[k]) else 0x20) as nat % 128))
    && field[6] == SsidSum(ssid, mark, last)
  }

  lemma OctetIsDouble(c: Byte)
    ensures ((c & 0x7F) << 1) as nat == 2 * (c as nat % 128)
  {}

  /** Two reserved bits, the low four bits of the SSID doubled, the mark on top and the end of the addresses below. */
  function SsidSum(ssid: Byte, mark: bool, last: bool): Byte {
    0x60 + 2 * (ssid & 0x0F) + (if mark then 0x80 else 0) + (if last then 1 else 0)
  }

  lemma SsidIsSum(ssid: Byte, mark: bool, last: bool)
    ensures SsidOctet(ssid, mark, last) == SsidSum(ssid, mark, last)
  {}

  lemma FieldOctets(call: Text, mark: bool, last: bool)
    ensures var (base, ssid) := CallParts(call); FieldHolds(AddressField(call, mark, last), base, ssid, mark, last)
  {
    var (base, ssid) := CallParts(call);
    var field := AddressField(call, mark, last);
    SsidIsSum(ssid, mark, last);
    hide CallParts, SsidOctet, SsidSum, ToUpper;
    forall k | 0 <= k < 6
      ensures field[k] as nat == 2 * ((if k < |base| then ToUpper(base[k]) else 0x20) as nat % 128)
    {
      OctetIsDouble(if k < |base| then ToUpper(base[k]) else SPACE);
    }
  }

  lemma {:induction false} PathOctets(path: seq<Text>, i: nat)
    requires i < |path|
    ensures |PathFields(path)| == 7 * |path|
    ensures PathFields(path)[7 * i..7 * i + 7]
         == AddressField(TrimStars(path[i]), EndsWithStar(path[i]), i == |path| - 1)
    decreases |path|
  {
    hide AddressField, TrimStars, EndsWithStar;
    var first, rest := AddressField(TrimStars(path[0]), EndsWithStar(path[0]), |path| == 1), path[1..];
    assert PathFields(path) == first + PathFields(rest);
    if |path| > 1 {
      PathOctets(rest, if i == 0 then 0 else i - 1);
    }
    if i == 0 {
      assert PathFields(path)[0..7] == first;
    } else {
      assert PathFields(path)[7 * i..7 * i + 7] == PathFields(rest)[7 * (i - 1)..7 * (i - 1) + 7];
    }
  }

  lemma {:induction false} AddressAt(source: Text, destination: Text, path: seq<Text>, info: Text, a: nat)
    requires a < 2 + |path|
    ensures var frame, n := UiFrame(source, destination, path, info), 2 + |path|;
            && |frame| == 7 * n + 2 + |info|
            && frame[7 * a..7 * a + 7]
               == AddressField(CallAt(source, destination, path, a), MarkAt(path, a), a == n - 1)
            && frame[7 * n..] == [0x03, 0xF0] + info
  {
    hide AddressField, TrimStars, EndsWithStar, PathFields;
    var to, from := AddressField(destination, true, false), AddressField(source, false, path == []);
    var fields := PathFields(path);
    var frame := UiFrame(source, destination, path, info);
    if path == [] {
      NoFields();
    } else {
      PathOctets(path, if a < 2 then 0 else a - 2);
    }
    assert frame == to + from + fields + [0x03, 0xF0] + info;
    if a == 0 {
      assert frame[0..7] == to;
    } else if a == 1 {
      assert frame[7..14] == from;
    } else {
      assert frame[7 * a..7 * a + 7] == fields[7 * (a - 2)..7 * (a - 2) + 7];
    }
  }

  lemma NoFields()
    ensures PathFields([]) == []
  {}

  /** Every octet of a frame that is sent. */
  lemma {:induction false} FrameOctets(source: Text, destination: Text, path: seq<Text>, info: Text, a: nat)
    requires a < 2 + |path|
    ensures var frame, n := UiFrame(source, destination, path, info), 2 + |path|;
            && |frame| == 7 * n + 2 + |info|
            && frame[7 * n] == 0x03 && frame[7 * n + 1] == 0xF0 && frame[7 * n + 2..] == info
            && var (base, ssid) := CallParts(CallAt(source, destination, path, a));
               FieldHolds(frame[7 * a..7 * a + 7], base, ssid, MarkAt(path, a), a == n - 1)
  {
    AddressAt(source, destination, path, info, a);
    FieldOctets(CallAt(source, destination, path, a), MarkAt(path, a), a == 2 + |path| - 1);
    hide UiFrame, CallAt, MarkAt, FieldHolds, CallParts, AddressField;
    var frame, n := UiFrame(source, destination, path, info), 2 + |path|;
    var tail := frame[7 * n..];
    assert tail[0] == 0x03 && tail[1] == 0xF0 && tail[2..] == info;
    assert frame[7 * n + 2..] == tail[2..];
  }

  // ---- Read ----

  /** Letters and digits doubled, then doubled spaces. */
  ghost predicate Spells(octets: seq<Byte>, base: Text) {
    && |base| <= |octets|
    && (forall k :: 0 <= k < |base| ==> IsDigit(base[k]) || IsUpper(base[k]) || IsLower(base[k]))
    && (forall k :: 0 <= k < |octets| ==> octets[k] as nat == 2 * (if k < |base| then base[k] else 0x20) as nat)
  }

  lemma HalfOctet(octet: Byte)
    ensures octet & 1 == 0 <==> octet as nat == 2 * (octet >> 1) as nat
    ensures octet as nat % 2 == 0 ==> octet & 1 == 0
  {}

  lemma IsHalf(octet: Byte, c: Byte)
    requires octet as nat == 2 * c as nat
    ensures octet & 1 == 0 && octet >> 1 == c
  {
    HalfOctet(octet);
  }

  lemma SpellsFirst(octets: seq<Byte>, base: Text)
    requires octets != []
    ensures var letter := if base == [] then 0x20 else base[0];
            Spells(octets, base) <==>
            && octets[0] as nat == 2 * letter as nat
            && (base == [] || IsAlphanumeric(base[0]))
            && Spells(octets[1..], if base == [] then [] else base[1..])
  {
    var rest, after := octets[1..], if base == [] then [] else base[1..];
    hide IsDigit, IsUpper, IsLower;
    if Spells(octets, base) {
      assert forall k :: 0 <= k < |after| ==> after[k] == base[k + 1];
      assert forall k :: 0 <= k < |rest| ==> rest[k] == octets[k + 1];
    }
    if Spells(rest, after) {
      assert forall k :: 1 <= k < |base| ==> base[k] == after[k - 1];
      assert forall k :: 1 <= k < |octets| ==> octets[k] == rest[k - 1];
    }
  }

  /** The letters read from an address are the ones its octets spell; once a space is seen only spaces may follow. */
  lemma {:induction false} LettersAreExact(octets: seq<Byte>, padded: bool, base: Text)
    ensures DecodeCall(octets, padded) == Some(base) <==> Spells(octets, base) && (padded ==> base == [])
    decreases |octets|
  {
    if octets != [] {
      var octet, rest := octets[0], octets[1..];
      HalfOctet(octet);
      SpellsFirst(octets, base);
      LettersAreExact(rest, true, base);
      hide IsAlphanumeric, Spells;
      if base != [] {
        LettersAreExact(rest, false, base[1..]);
        OntoFirst(octet >> 1, DecodeCall(rest, false), base);
      }
    }
  }

  lemma OntoFirst(c: Byte, rest: Option<Text>, base: Text)
    requires base != []
    ensures Onto([c], rest) == Some(base) <==> c == base[0] && rest == Some(base[1..])
  {
    assert base == [base[0]] + base[1..];
    if rest.Some? {
      assert ([c] + rest.value)[1..] == rest.value;
    }
  }

  /** The text of a callsign: its letters, then a dash and the SSID in decimal unless that is zero. */
  function Callsign(base: Text, ssid: Byte): Text
    requires ssid < 16
  {
    if ssid == 0 then base
    else if ssid < 10 then base + [0x2D, 0x30 + ssid]
    else base + [0x2D, 0x31, 0x30 + (ssid - 10)]
  }

  /** Seven octets that are read as one address. */
  ghost predicate FieldIs(field: seq<Byte>, base: Text, address: Address) {
    && |field| == 7 && base != [] && Spells(field[..6], base)
    && address.call == Callsign(base, field[6] / 2 % 16)
    && address.last == (field[6] % 2 == 1)
    && address.repeated == (field[6] >= 0x80)
  }

  ghost predicate Holds(field: seq<Byte>, address: Address) {
    exists base :: FieldIs(field, base, address)
  }

  lemma SsidBits(octet: Byte)
    ensures SsidOf(octet) == octet / 2 % 16
    ensures octet & 0x80 != 0 <==> octet >= 0x80
    ensures octet & 1 != 0 <==> octet % 2 == 1
  {}

  lemma HighSsid(ssid: Byte)
    ensures 0x26 + ssid == 0x30 + (ssid - 10)
  {}

  lemma SsidTextIs(base: Text, ssid: Byte)
    requires ssid < 16
    ensures CallText(base, ssid) == Callsign(base, ssid)
  {
    HighSsid(ssid);
    assert base + [DASH] + [0x30 + ssid] == base + [0x2D, 0x30 + ssid];
    assert base + [DASH] + [0x31, 0x26 + ssid] == base + [0x2D, 0x31, 0x26 + ssid];
  }

  /** An address is read from seven octets exactly when they hold one. */
  lemma {:induction false} AddressIsExact(field: seq<Byte>, address: Address)
    requires |field| == 7
    ensures DecodeAddress(field) == Some(address) <==> Holds(field, address)
  {
    var octet, letters := field[6], field[..6];
    var read := DecodeCall(letters, false);
    SsidBits(octet);
    hide DecodeCall, SsidOf, CallText, Callsign, Spells;
    forall base
      ensures read == Some(base) <==> Spells(letters, base)
    {
      LettersAreExact(letters, false, base);
    }
    if read.Some? {
      SsidTextIs(read.value, SsidOf(octet));
      assert DecodeAddress(field) == Some(address) ==> FieldIs(field, read.value, address);
    }
  }

  /** Addresses one after another in a frame, the last of them alone marked so. */
  ghost predicate Listed(body: seq<Byte>, at: nat, addresses: seq<Address>)
    decreases |addresses|
  {
    && addresses != [] && at + 7 <= |body| && Holds(body[at..at + 7], addresses[0])
    && addresses[0].last == (|addresses| == 1)
    && (|addresses| == 1 || Listed(body, at + 7, addresses[1..]))
  }

  lemma {:induction false} AddressesEnd(body: seq<Byte>, at: nat, count: nat)
    requires count < 10
    ensures var r := DecodeAddresses(body, at, count);
            r.Some? ==> r.value.0 != [] && r.value.1 == at + 7 * |r.value.0|
    decreases 10 - count
  {
    hide DecodeAddress;
    if count < 9 {
      AddressesEnd(body, at + 7, count + 1);
    }
  }

  ghost predicate Gives(r: Option<(seq<Address>, nat)>, addresses: seq<Address>) {
    r.Some? && r.value.0 == addresses
  }

  lemma GivesOne(first: Address, end: nat, addresses: seq<Address>)
    ensures Gives(Some(([first], end)), addresses) <==> |addresses| == 1 && first == addresses[0]
  {}

  lemma GivesMore(first: Address, rest: Option<(seq<Address>, nat)>, addresses: seq<Address>)
    requires addresses != []
    ensures Gives(Following([first], rest), addresses) <==> first == addresses[0] && Gives(rest, addresses[1..])
  {
    assert addresses == [addresses[0]] + addresses[1..];
    if rest.Some? {
      assert ([first] + rest.value.0)[1..] == rest.value.0;
    }
  }

  lemma {:induction false} ListedStep(body: seq<Byte>, at: nat, addresses: seq<Address>)
    requires at + 7 <= |body| && addresses != []
    ensures Listed(body, at, addresses) <==>
            && Holds(body[at..at + 7], addresses[0]) && addresses[0].last == (|addresses| == 1)
            && (|addresses| == 1 || Listed(body, at + 7, addresses[1..]))
  {
    hide Holds;
  }

  /** The addresses of a frame are read exactly when it holds them, up to ten. */
  lemma {:induction false} AddressesAreExact(body: seq<Byte>, at: nat, count: nat, addresses: seq<Address>)
    requires count < 10
    ensures Gives(DecodeAddresses(body, at, count), addresses) <==> Listed(body, at, addresses) && count + |addresses| <= 10
    decreases 10 - count
  {
    AddressesEnd(body, at, count);
    if at + 7 <= |body| && addresses != [] {
      var field, rest := body[at..at + 7], addresses[1..];
      DecodeStep(body, at, count);
      AddressIsExact(field, addresses[0]);
      ListedStep(body, at, addresses);
      hide *;
      if DecodeAddress(field).Some? {
        var first := DecodeAddress(field).value;
        if first.last {
          GivesOne(first, at + 7, addresses);
        } else if count < 9 {
          AddressesAreExact(body, at + 7, count + 1, rest);
          GivesMore(first, DecodeAddresses(body, at + 7, count + 1), addresses);
          NoneListed(body, at + 7);
          AddressesEnd(body, at + 7, count + 1);
        }
      }
      GivesNothing(addresses);
    }
  }

  lemma GivesNothing(addresses: seq<Address>)
    ensures !Gives(None, addresses)
  {}

  lemma NoneListed(body: seq<Byte>, at: nat)
    ensures !Listed(body, at, [])
  {}

  /** The first `n` hops, each after a comma. */
  function AfterCommas(path: seq<Text>, n: nat): Text
    requires n <= |path|
  {
    if n == 0 then [] else AfterCommas(path, n - 1) + [0x2C] + path[n - 1]
  }

  lemma {:induction false} PathTextMore(path: seq<Text>, hop: Text)
    ensures PathText(path + [hop]) == PathText(path) + [0x2C] + hop
  {
    var more := path + [hop];
    if path == [] {
      assert more[0] == hop && more[1..] == [] && PathText([]) == [];
      assert [COMMA] + hop + [] == [] + [0x2C] + hop;
    } else {
      assert more[0] == path[0] && more[1..] == path[1..] + [hop];
      PathTextMore(path[1..], hop);
      var a, b := [COMMA] + path[0], PathText(path[1..]);
      assert a + (b + [0x2C] + hop) == a + b + [0x2C] + hop;
    }
  }

  lemma {:induction false} PathTextIs(path: seq<Text>, n: nat)
    requires n <= |path|
    ensures PathText(path[..n]) == AfterCommas(path, n)
    decreases n
  {
    if n > 0 {
      PathTextIs(path, n - 1);
      PathTextMore(path[..n - 1], path[n - 1]);
      assert path[..n - 1] + [path[n - 1]] == path[..n];
    }
  }

  lemma {:induction false} LineIs(packet: Packet)
    ensures Tnc2Line(packet.source, packet.destination, packet.path, packet.info)
         == packet.source + [0x3E] + packet.destination + AfterCommas(packet.path, |packet.path|) + [0x3A] + packet.info
  {
    PathTextIs(packet.path, |packet.path|);
    assert packet.path[..|packet.path|] == packet.path;
    hide PathText, AfterCommas;
  }

  /** What a frame without its check sequence says: addresses, a control octet, a protocol octet after information and
      UI control octets if anything follows, and text. */
  ghost predicate Says(body: seq<Byte>, addresses: seq<Address>, packet: Packet) {
    var n := |addresses|;
    && 2 <= n <= 10 && 7 * n < |body| && Listed(body, 0, addresses)
    && packet.destination == addresses[0].call && packet.source == addresses[1].call
    && |packet.path| == n - 2
    && (forall i :: 2 <= i < n ==>
          packet.path[i - 2] == addresses[i].call + if addresses[i].repeated then [0x2A] else [])
    && (var protocol := (body[7 * n] % 2 == 0 || body[7 * n] == 0x03 || body[7 * n] == 0x13) && 7 * n + 1 < |body|;
        packet.info == body[7 * n + if protocol then 2 else 1..])
    && packet.tnc2
       == packet.source + [0x3E] + packet.destination + AfterCommas(packet.path, |packet.path|) + [0x3A] + packet.info
  }

  lemma ProtocolFollows(control: Byte)
    ensures CarriesPid(control) <==> control % 2 == 0 || control == 0x03 || control == 0x13
  {}

  lemma HopsAre(hops: seq<Address>, path: seq<Text>)
    ensures path == HopTexts(hops) <==>
            && |path| == |hops|
            && (forall i :: 0 <= i < |hops| ==> path[i] == hops[i].call + if hops[i].repeated then [0x2A] else [])
  {
    forall i | 0 <= i < |hops|
      ensures HopText(hops[i]) == hops[i].call + if hops[i].repeated then [0x2A] else []
    {}
  }

  ghost predicate Heard(body: seq<Byte>, packet: Packet) {
    exists addresses :: Says(body, addresses, packet)
  }

  lemma {:induction false} AddressesOf(body: seq<Byte>, addresses: seq<Address>)
    ensures DecodeAddresses(body, 0, 0) == Some((addresses, 7 * |addresses|))
            <==> Listed(body, 0, addresses) && |addresses| <= 10
    ensures DecodeAddresses(body, 0, 0).Some? ==>
              DecodeAddresses(body, 0, 0).value.1 == 7 * |DecodeAddresses(body, 0, 0).value.0|
  {
    AddressesAreExact(body, 0, 0, addresses);
    AddressesEnd(body, 0, 0);
    hide DecodeAddresses, Listed;
  }

  lemma {:induction false} ParsesAs(body: seq<Byte>, frame: seq<Byte>, addresses: seq<Address>, packet: Packet)
    requires |frame| >= 2 && body == frame[..|frame| - 2]
    requires DecodeAddresses(body, 0, 0) == Some((addresses, 7 * |addresses|))
    requires Listed(body, 0, addresses) && |addresses| <= 10
    ensures ParseFrame(frame) == Some(packet) <==> Says(body, addresses, packet)
  {
    LineIs(packet);
    hide DecodeAddresses, Listed, Tnc2Line, HopTexts, CarriesPid, AfterCommas;
    if |addresses| >= 2 && 7 * |addresses| < |body| {
      ProtocolFollows(body[7 * |addresses|]);
      HopsAre(addresses[2..], packet.path);
      assert forall i :: 2 <= i < |addresses| ==> addresses[2..][i - 2] == addresses[i];
    }
  }

  lemma {:induction false} SaidIsRead(frame: seq<Byte>, addresses: seq<Address>, packet: Packet)
    requires |frame| >= 2 && Says(frame[..|frame| - 2], addresses, packet)
    ensures ParseFrame(frame) == Some(packet)
  {
    var body := frame[..|frame| - 2];
    AddressesOf(body, addresses);
    hide DecodeAddresses, Listed, ParseFrame;
    ParsesAs(body, frame, addresses, packet);
  }

  lemma {:induction false} ReadIsSaid(frame: seq<Byte>, packet: Packet)
    requires ParseFrame(frame) == Some(packet)
    ensures |frame| >= 2 && Heard(frame[..|frame| - 2], packet)
  {
    var body := frame[..|frame| - 2];
    hide DecodeAddresses, Listed;
    var addresses := DecodeAddresses(body, 0, 0).value.0;
    AddressesOf(body, addresses);
    hide ParseFrame, Says;
    ParsesAs(body, frame, addresses, packet);
  }

  /** A frame is read as a packet exactly when its octets say that packet. */
  lemma {:induction false} FrameIsExact(frame: seq<Byte>, packet: Packet)
    ensures ParseFrame(frame) == Some(packet) <==> |frame| >= 2 && Heard(frame[..|frame| - 2], packet)
  {
    if ParseFrame(frame) == Some(packet) {
      ReadIsSaid(frame, packet);
    }
    hide ParseFrame, Says;
    if |frame| >= 2 && Heard(frame[..|frame| - 2], packet) {
      var addresses :| Says(frame[..|frame| - 2], addresses, packet);
      SaidIsRead(frame, addresses, packet);
    }
  }
}
