/** AX.25 address fields and UI frames of `aprs.rs`: the encoder of `push_address` and `ui_frame`
    and the decoder of `decode_address` and `parse_frame`. Text is a sequence of octets. */
module Ax25 {
  import opened Wrappers
  import opened Bytes
  import opened Crc16

  type Text = seq<Byte>

  const ADDRESS_LEN: nat := 7
  const CALL_LEN: nat := 6
  const MAX_ADDRESSES: nat := 10
  const CONTROL_UI: Byte := 0x03
  const CONTROL_PF: Byte := 0x10
  const PID_NO_LAYER3: Byte := 0xF0
  const SSID_RESERVED: Byte := 0x60

  const SPACE: Byte := 0x20
  const DASH: Byte := 0x2D
  const STAR: Byte := 0x2A
  const PLUS: Byte := 0x2B
  const COMMA: Byte := 0x2C
  const COLON: Byte := 0x3A
  const GREATER: Byte := 0x3E

  predicate IsUpper(c: Byte) {
    0x41 <= c <= 0x5A
  }

  predicate IsLower(c: Byte) {
    0x61 <= c <= 0x7A
  }

  predicate IsAlphanumeric(c: Byte) {
    IsDigit(c) || IsUpper(c) || IsLower(c)
  }

  function ToUpper(c: Byte): Byte {
    if IsLower(c) then c - 0x20 else c
  }

  // ---- Encoding ----

  /** The text before and after the first `c`. */
  function SplitAtOctet(text: Text, c: Byte): (r: Option<(Text, Text)>)
    ensures r == None <==> c !in text
    ensures r.Some? ==> text == r.value.0 + [c] + r.value.1 && c !in r.value.0
    decreases |text|
  {
    if text == [] then None
    else if text[0] == c then Some(([], text[1..]))
    else match SplitAtOctet(text[1..], c)
      case None => None
      case Some((before, after)) => Some(([text[0]] + before, after))
  }

  function Number(digits: Text): nat
    requires forall k :: 0 <= k < |digits| ==> IsDigit(digits[k])
    decreases |digits|
  {
    if digits == [] then 0
    else 10 * Number(digits[..|digits| - 1]) + (digits[|digits| - 1] - 0x30) as nat
  }

  /** Parsing as an unsigned octet: an optional plus, then digits worth at most 255. */
  function ParseOctet(text: Text): Option<Byte> {
    var digits := if |text| > 1 && text[0] == PLUS then text[1..] else text;
    if digits == [] || exists k :: 0 <= k < |digits| && !IsDigit(digits[k]) then None
    else if Number(digits) > 255 then None
    else Some(Number(digits) as Byte)
  }

  /** A callsign's letters and its SSID. */
  function CallParts(call: Text): (Text, Byte) {
    match SplitAtOctet(call, DASH)
    case None => (call, 0)
    case Some((base, ssid)) => (base, match ParseOctet(ssid) case None => 0 case Some(n) => n)
  }

  function CallOctet(base: Text, i: nat): Byte {
    ((if i < |base| then ToUpper(base[i]) else SPACE) & 0x7F) << 1
  }

  function SsidOctet(ssid: Byte, command: bool, last: bool): Byte {
    (if command then 0x80 else 0) | SSID_RESERVED | ((ssid & 0x0F) << 1) | (if last then 1 else 0)
  }

  function AddressField(call: Text, command: bool, last: bool): (field: seq<Byte>)
    ensures |field| == ADDRESS_LEN
  {
    var (base, ssid) := CallParts(call);
    seq(CALL_LEN, i requires 0 <= i < CALL_LEN => CallOctet(base, i)) + [SsidOctet(ssid, command, last)]
  }

  method PushAddress(out: seq<Byte>, call: Text, command: bool, last: bool) returns (out': seq<Byte>)
    ensures out' == out + AddressField(call, command, last)
  {
    hide CallParts, SsidOctet, ToUpper;
    var (base, ssid) := CallParts(call);
    var chars := seq(CALL_LEN, _ => SPACE);
    var i := 0;
    while i < CALL_LEN && i < |base|
      invariant i <= CALL_LEN && i <= |base| && |chars| == CALL_LEN
      invariant forall k :: 0 <= k < i ==> chars[k] == ToUpper(base[k])
      invariant forall k :: i <= k < CALL_LEN ==> chars[k] == SPACE
    {
      chars := chars[i := ToUpper(base[i])];
      i := i + 1;
    }
    out' := out;
    for k := 0 to CALL_LEN
      invariant out' == out + AddressField(call, command, last)[..k]
    {
      assert AddressField(call, command, last)[k] == CallOctet(base, k) == (chars[k] & 0x7F) << 1;
      out' := out' + [(chars[k] & 0x7F) << 1];
    }
    out' := out' + [SsidOctet(ssid, command, last)];
  }

  predicate EndsWithStar(hop: Text) {
    hop != [] && hop[|hop| - 1] == STAR
  }

  function TrimStars(hop: Text): Text
    decreases |hop|
  {
    if EndsWithStar(hop) then TrimStars(hop[..|hop| - 1]) else hop
  }

  function PathFields(path: seq<Text>): seq<Byte> {
    if path == [] then []
    else AddressField(TrimStars(path[0]), EndsWithStar(path[0]), |path| == 1) + PathFields(path[1..])
  }

  function UiFrame(source: Text, destination: Text, path: seq<Text>, info: Text): seq<Byte> {
    AddressField(destination, true, false) + AddressField(source, false, path == []) + PathFields(path)
    + [CONTROL_UI, PID_NO_LAYER3] + info
  }

  method BuildUiFrame(source: Text, destination: Text, path: seq<Text>, info: Text) returns (out: seq<Byte>)
    ensures out == UiFrame(source, destination, path, info)
  {
    hide AddressField, TrimStars;
    out := PushAddress([], destination, true, false);
    out := PushAddress(out, source, false, path == []);
    ghost var head := AddressField(destination, true, false) + AddressField(source, false, path == []);
    for i := 0 to |path|
      invariant out + PathFields(path[i..]) == head + PathFields(path)
    {
      assert path[i..][1..] == path[i + 1..];
      out := PushAddress(out, TrimStars(path[i]), EndsWithStar(path[i]), i + 1 == |path|);
    }
    out := out + [CONTROL_UI];
    out := out + [PID_NO_LAYER3];
    out := out + info;
  }

  // ---- Decoding ----

  datatype Address = Address(call: Text, last: bool, repeated: bool)

  /** The letters of an address field; a space ends them and only spaces may follow. */
  function DecodeCall(octets: seq<Byte>, padded: bool): Option<Text>
    decreases |octets|
  {
    if octets == [] then Some([]) else
    var c := octets[0] >> 1;
    if octets[0] & 1 != 0 then None
    else if c == SPACE then DecodeCall(octets[1..], true)
    else if padded || !IsAlphanumeric(c) then None
    else Onto([c], DecodeCall(octets[1..], false))
  }

  /** The decimal text of an SSID. */
  function SsidText(ssid: Byte): Text
    requires ssid < 16
  {
    if ssid < 10 then [0x30 + ssid] else [0x31, 0x26 + ssid]
  }

  function CallText(base: Text, ssid: Byte): Text
    requires ssid < 16
  {
    if ssid == 0 then base else base + [DASH] + SsidText(ssid)
  }

  function SsidOf(octet: Byte): (ssid: Byte)
    ensures ssid < 16
  {
    (octet >> 1) & 0x0F
  }

  function DecodeAddress(field: seq<Byte>): Option<Address> {
    if field == [] then None else
    var octet := field[|field| - 1];
    match DecodeCall(field[..|field| - 1], false)
    case None => None
    case Some(base) =>
      if base == [] then None
      else Some(Address(CallText(base, SsidOf(octet)), octet & 1 != 0, octet & 0x80 != 0))
  }

  function Onto(call: Text, rest: Option<Text>): Option<Text> {
    match rest
    case None => None
    case Some(text) => Some(call + text)
  }

  lemma OntoLaws(call: Text, c: Byte, rest: Option<Text>)
    ensures Onto([], rest) == rest
    ensures Onto(call, Onto([c], rest)) == Onto(call + [c], rest)
  {
    if rest.Some? {
      assert call + ([c] + rest.value) == (call + [c]) + rest.value;
      assert [] + rest.value == rest.value;
    }
  }

  method ReadAddress(field: seq<Byte>) returns (address: Option<Address>)
    ensures address == DecodeAddress(field)
  {
    if field == [] {
      return None;
    }
    hide IsAlphanumeric, SsidText;
    var octet, chars := field[|field| - 1], field[..|field| - 1];
    var call, padded := [], false;
    assert chars[0..] == chars;
    OntoLaws([], 0, DecodeCall(chars, false));
    for i := 0 to |chars|
      invariant DecodeCall(chars, false) == Onto(call, DecodeCall(chars[i..], padded))
    {
      assert chars[i..][1..] == chars[i + 1..];
      OntoLaws(call, chars[i] >> 1, DecodeCall(chars[i + 1..], false));
      if chars[i] & 1 != 0 {
        return None;
      }
      var c := chars[i] >> 1;
      if c == SPACE {
        padded := true;
      } else {
        if padded || !IsAlphanumeric(c) {
          return None;
        }
        call := call + [c];
      }
    }
    assert call + [] == call;
    if call == [] {
      return None;
    }
    address := Some(Address(CallText(call, SsidOf(octet)), octet & 1 != 0, octet & 0x80 != 0));
  }

  /** The addresses from `at` on, up to the one marked last, and where they end. */
  function DecodeAddresses(body: seq<Byte>, at: nat, count: nat): (r: Option<(seq<Address>, nat)>)
    requires count < MAX_ADDRESSES
    ensures r.Some? ==> 1 <= |r.value.0| <= MAX_ADDRESSES - count && at < r.value.1 <= |body|
    decreases MAX_ADDRESSES - count
  {
    if at + ADDRESS_LEN > |body| then None else
    var address :- DecodeAddress(body[at..at + ADDRESS_LEN]);
    if address.last then Some(([address], at + ADDRESS_LEN))
    else if count + 1 == MAX_ADDRESSES then None
    else
      var (rest, end) :- DecodeAddresses(body, at + ADDRESS_LEN, count + 1);
      Some(([address] + rest, end))
  }

  method ReadAddresses(body: seq<Byte>) returns (r: Option<(seq<Address>, nat)>)
    ensures r == DecodeAddresses(body, 0, 0)
  {
    hide DecodeAddress, DecodeAddresses, Following;
    var addresses: seq<Address>, at: nat := [], 0;
    FollowingNothing(DecodeAddresses(body, 0, 0));
    while true
      invariant |addresses| < MAX_ADDRESSES
      invariant DecodeAddresses(body, 0, 0) == Following(addresses, DecodeAddresses(body, at, |addresses|))
      decreases MAX_ADDRESSES - |addresses|
    {
      DecodeStep(body, at, |addresses|);
      FollowingEnds(addresses);
      if at + ADDRESS_LEN > |body| {
        return None;
      }
      var address := ReadAddress(body[at..at + ADDRESS_LEN]);
      if address == None {
        return None;
      }
      at := at + ADDRESS_LEN;
      ghost var before := addresses;
      addresses := addresses + [address.value];
      if address.value.last {
        FollowingLast(before, address.value, at);
        return Some((addresses, at));
      }
      if |addresses| >= MAX_ADDRESSES {
        return None;
      }
      FollowingMore(before, address.value, DecodeAddresses(body, at, |addresses|));
    }
  }

  function Following(before: seq<Address>, r: Option<(seq<Address>, nat)>): Option<(seq<Address>, nat)> {
    match r
    case None => None
    case Some((rest, end)) => Some((before + rest, end))
  }

  lemma {:induction false} DecodeStep(body: seq<Byte>, at: nat, count: nat)
    requires count < MAX_ADDRESSES
    ensures var r := DecodeAddresses(body, at, count);
            if at + ADDRESS_LEN > |body| then r == None else
            match DecodeAddress(body[at..at + ADDRESS_LEN])
            case None => r == None
            case Some(address) =>
              if address.last then r == Some(([address], at + ADDRESS_LEN))
              else if count + 1 == MAX_ADDRESSES then r == None
              else r == Following([address], DecodeAddresses(body, at + ADDRESS_LEN, count + 1))
  {
    hide DecodeAddress;
  }

  lemma FollowingEnds(before: seq<Address>)
    ensures Following(before, None) == None
  {}

  lemma FollowingLast(before: seq<Address>, last: Address, at: nat)
    ensures Following(before, Some(([last], at))) == Some((before + [last], at))
  {}

  lemma FollowingNothing(r: Option<(seq<Address>, nat)>)
    ensures Following([], r) == r
  {
    if r.Some? {
      assert [] + r.value.0 == r.value.0;
    }
  }

  lemma FollowingMore(before: seq<Address>, a: Address, r: Option<(seq<Address>, nat)>)
    ensures Following(before, Following([a], r)) == Following(before + [a], r)
  {
    if r.Some? {
      assert before + ([a] + r.value.0) == (before + [a]) + r.value.0;
    }
  }

  datatype Packet = Packet(source: Text, destination: Text, path: seq<Text>, info: Text, tnc2: Text)

  predicate CarriesPid(control: Byte) {
    control & 1 == 0 || control & !CONTROL_PF == CONTROL_UI
  }

  function HopText(hop: Address): Text {
    if hop.repeated then hop.call + [STAR] else hop.call
  }

  function HopTexts(hops: seq<Address>): (path: seq<Text>)
    ensures |path| == |hops|
  {
    seq(|hops|, i requires 0 <= i < |hops| => HopText(hops[i]))
  }

  function PathText(path: seq<Text>): Text {
    if path == [] then [] else [COMMA] + path[0] + PathText(path[1..])
  }

  function Tnc2Line(source: Text, destination: Text, path: seq<Text>, info: Text): Text {
    source + [GREATER] + destination + PathText(path) + [COLON] + info
  }

  function PacketOf(source: Text, destination: Text, path: seq<Text>, info: Text): Packet {
    Packet(source, destination, path, info, Tnc2Line(source, destination, path, info))
  }

  function ParseFrame(frame: seq<Byte>): Option<Packet> {
    if |frame| < 2 then None else
    var body := frame[..|frame| - 2];
    var (addresses, at) :- DecodeAddresses(body, 0, 0);
    if |addresses| < 2 || at >= |body| then None else
    var start := if CarriesPid(body[at]) && at + 1 < |body| then at + 2 else at + 1;
    Some(PacketOf(addresses[1].call, addresses[0].call, HopTexts(addresses[2..]), body[start..]))
  }

  method ReadFrame(frame: seq<Byte>) returns (packet: Option<Packet>)
    ensures packet == ParseFrame(frame)
  {
    hide DecodeAddresses, CarriesPid, PacketOf;
    if |frame| < 2 {
      return None;
    }
    var body := frame[..|frame| - 2];
    var read := ReadAddresses(body);
    if read == None {
      return None;
    }
    var (addresses, at) := read.value;
    if |addresses| < 2 || at >= |body| {
      return None;
    }
    var start := at + 1;
    if CarriesPid(body[at]) && start < |body| {
      start := start + 1;
    }
    packet := Some(PacketOf(addresses[1].call, addresses[0].call, HopTexts(addresses[2..]), body[start..]));
  }

  // ---- Round trip ----

  /** One to six capital letters and digits. */
  ghost predicate CanonicalBase(base: Text) {
    1 <= |base| <= CALL_LEN && forall k :: 0 <= k < |base| ==> IsDigit(base[k]) || IsUpper(base[k])
  }

  /** A callsign as stations write it: no SSID of zero, no leading zero. */
  datatype Call = Call(base: Text, ssid: Byte)

  ghost predicate Canonical(call: Call) {
    CanonicalBase(call.base) && call.ssid < 16
  }

  function Written(call: Call): Text
    requires call.ssid < 16
  {
    CallText(call.base, call.ssid)
  }

  lemma NumberOne(a: Byte)
    requires IsDigit(a)
    ensures Number([a]) == (a - 0x30) as nat
  {
    assert [a][..0] == [];
  }

  lemma NumberTwo(a: Byte, b: Byte)
    requires IsDigit(a) && IsDigit(b)
    ensures Number([a, b]) == 10 * (a - 0x30) as nat + (b - 0x30) as nat
  {
    assert [a, b][..1] == [a];
    NumberOne(a);
  }

  lemma SsidParses(ssid: Byte)
    requires ssid < 16
    ensures ParseOctet(SsidText(ssid)) == Some(ssid)
  {
    var text := SsidText(ssid);
    if ssid < 10 {
      NumberOne(0x30 + ssid);
      assert (0x30 + ssid) - 0x30 == ssid;
    } else {
      NumberTwo(0x31, 0x26 + ssid);
      assert ssid == 10 || ssid == 11 || ssid == 12 || ssid == 13 || ssid == 14 || ssid == 15;
    }
    hide Number;
  }

  lemma {:induction false} SplitAtDash(base: Text, rest: Text)
    requires DASH !in base
    ensures SplitAtOctet(base + [DASH] + rest, DASH) == Some((base, rest))
    decreases |base|
  {
    var text := base + [DASH] + rest;
    if base == [] {
      assert text[1..] == rest;
    } else {
      assert text[0] == base[0] && text[1..] == base[1..] + [DASH] + rest;
      SplitAtDash(base[1..], rest);
      assert [base[0]] + base[1..] == base;
    }
  }

  lemma PartsOfWritten(call: Call)
    requires Canonical(call)
    ensures CallParts(Written(call)) == (call.base, call.ssid)
  {
    assert DASH !in call.base;
    hide SplitAtOctet, ParseOctet;
    if call.ssid != 0 {
      SplitAtDash(call.base, SsidText(call.ssid));
      SsidParses(call.ssid);
    } else {
      assert SplitAtOctet(call.base, DASH) == None;
    }
  }

  lemma LetterOctet(c: Byte)
    requires IsDigit(c) || IsUpper(c)
    ensures var octet := (ToUpper(c) & 0x7F) << 1; octet & 1 == 0 && octet >> 1 == c && c != SPACE && IsAlphanumeric(c)
  {}

  lemma SpaceOctet()
    ensures var octet: Byte := (SPACE & 0x7F) << 1; octet & 1 == 0 && octet >> 1 == SPACE
  {}

  /** Octets of letters, then of spaces, read back as the letters. */
  lemma {:induction false} CallComesBack(base: Text, octets: seq<Byte>, from: nat)
    requires forall k :: 0 <= k < |base| ==> IsDigit(base[k]) || IsUpper(base[k])
    requires from <= |octets| && |base| <= |octets|
    requires forall k :: 0 <= k < |octets| ==> octets[k] == CallOctet(base, k)
    ensures DecodeCall(octets[from..], from > |base|) == Some(if from <= |base| then base[from..] else [])
    decreases |octets| - from
  {
    var rest := octets[from..];
    if from < |octets| {
      assert rest[0] == octets[from] == CallOctet(base, from) && rest[1..] == octets[from + 1..];
      CallComesBack(base, octets, from + 1);
      if from < |base| {
        LetterOctet(base[from]);
        assert base[from..] == [base[from]] + base[from + 1..];
      } else {
        SpaceOctet();
        assert from == |base| ==> base[from..] == [];
      }
      hide IsAlphanumeric, ToUpper, CallOctet;
    } else {
      assert rest == [] && (from == |base| ==> base[from..] == []);
    }
  }

  lemma SsidComesBack(ssid: Byte, command: bool, last: bool)
    requires ssid < 16
    ensures var octet := SsidOctet(ssid, command, last);
            SsidOf(octet) == ssid && (octet & 1 != 0) == last && (octet & 0x80 != 0) == command
  {}

  /** An address field round trips for every canonical callsign, mark and position. */
  lemma AddressRoundTrip(call: Call, command: bool, last: bool)
    requires Canonical(call)
    ensures DecodeAddress(AddressField(Written(call), command, last)) == Some(Address(Written(call), last, command))
  {
    PartsOfWritten(call);
    SsidComesBack(call.ssid, command, last);
    hide CallParts, SsidOctet, SsidOf, CallOctet, IsDigit, IsUpper;
    var field := AddressField(Written(call), command, last);
    var octets := field[..CALL_LEN];
    CallComesBack(call.base, octets, 0);
    assert octets[0..] == octets && call.base[0..] == call.base;
  }

  /** A hop of a path: a station and whether it has repeated the frame. */
  datatype Hop = Hop(call: Call, repeated: bool)

  function WrittenHop(hop: Hop): Text
    requires hop.call.ssid < 16
  {
    if hop.repeated then Written(hop.call) + [STAR] else Written(hop.call)
  }

  ghost predicate CanonicalPath(path: seq<Hop>) {
    forall k :: 0 <= k < |path| ==> Canonical(path[k].call)
  }

  function WrittenPath(path: seq<Hop>): (texts: seq<Text>)
    requires CanonicalPath(path)
    ensures |texts| == |path|
  {
    seq(|path|, i requires 0 <= i < |path| => WrittenHop(path[i]))
  }

  lemma WrittenHasNoStar(call: Call)
    requires Canonical(call)
    ensures !EndsWithStar(Written(call))
  {}

  lemma StarsTrim(hop: Hop)
    requires Canonical(hop.call)
    ensures TrimStars(WrittenHop(hop)) == Written(hop.call) && EndsWithStar(WrittenHop(hop)) == hop.repeated
  {
    WrittenHasNoStar(hop.call);
    var text := Written(hop.call);
    hide Written;
    if hop.repeated {
      assert (text + [STAR])[..|text|] == text;
    }
  }

  ghost function Hops(path: seq<Hop>): (addresses: seq<Address>)
    requires CanonicalPath(path)
    ensures |addresses| == |path|
  {
    seq(|path|, i requires 0 <= i < |path| => Address(Written(path[i].call), i + 1 == |path|, path[i].repeated))
  }

  /** An address in the middle of a frame is read where it stands. */
  lemma ReadsAddressAt(before: seq<Byte>, call: Call, command: bool, last: bool, after: seq<Byte>, count: nat)
    requires Canonical(call) && count < MAX_ADDRESSES
    ensures var body := before + AddressField(Written(call), command, last) + after;
            var address := Address(Written(call), last, command);
            DecodeAddresses(body, |before|, count) ==
            if last then Some(([address], |before| + ADDRESS_LEN))
            else if count + 1 == MAX_ADDRESSES then None
            else Following([address], DecodeAddresses(body, |before| + ADDRESS_LEN, count + 1))
  {
    AddressRoundTrip(call, command, last);
    hide AddressField, DecodeAddress, Written;
    var field := AddressField(Written(call), command, last);
    var body := before + field + after;
    assert body[|before|..|before| + ADDRESS_LEN] == field;
  }

  lemma {:induction false} PathRoundTrip(before: seq<Byte>, path: seq<Hop>, after: seq<Byte>, count: nat)
    requires CanonicalPath(path) && path != [] && count + |path| <= MAX_ADDRESSES
    ensures var fields := PathFields(WrittenPath(path));
            DecodeAddresses(before + fields + after, |before|, count)
            == Some((Hops(path), |before| + |fields|))
    decreases |path|
  {
    hide DecodeAddresses, AddressField, Written, TrimStars, EndsWithStar, CanonicalBase;
    var rest, last := path[1..], |path| == 1;
    var texts, fields := WrittenPath(path), PathFields(WrittenPath(path));
    assert texts[1..] == WrittenPath(rest);
    StarsTrim(path[0]);
    var field := AddressField(Written(path[0].call), path[0].repeated, last);
    assert fields == field + PathFields(WrittenPath(rest));
    ReadsAddressAt(before, path[0].call, path[0].repeated, last, PathFields(WrittenPath(rest)) + after, count);
    assert before + field + (PathFields(WrittenPath(rest)) + after) == before + fields + after;
    if last {
      assert PathFields(WrittenPath(rest)) == [];
      assert Hops(path) == [Address(Written(path[0].call), true, path[0].repeated)];
    } else {
      PathRoundTrip(before + field, rest, after, count + 1);
      assert before + field + PathFields(WrittenPath(rest)) + after == before + fields + after;
      assert Hops(path) == [Address(Written(path[0].call), false, path[0].repeated)] + Hops(rest);
    }
  }

  /** All the addresses of a frame are read back, in order, up to the control field. */
  lemma AddressesRoundTrip(source: Call, destination: Call, path: seq<Hop>, tail: seq<Byte>)
    requires Canonical(source) && Canonical(destination) && CanonicalPath(path) && |path| <= 8
    ensures var fields := PathFields(WrittenPath(path));
            var body := AddressField(Written(destination), true, false)
                        + AddressField(Written(source), false, path == []) + fields + tail;
            DecodeAddresses(body, 0, 0)
            == Some(([Address(Written(destination), false, true), Address(Written(source), path == [], false)]
                     + Hops(path), 14 + |fields|))
  {
    hide DecodeAddresses, AddressField, Written, CanonicalBase;
    var to, from := AddressField(Written(destination), true, false), AddressField(Written(source), false, path == []);
    var fields := PathFields(WrittenPath(path));
    var body := to + from + fields + tail;
    ReadsAddressAt([], destination, true, false, from + fields + tail, 0);
    assert [] + to + (from + fields + tail) == body;
    ReadsAddressAt(to, source, false, path == [], fields + tail, 1);
    assert to + from + (fields + tail) == body;
    if path != [] {
      PathRoundTrip(to + from, path, tail, 2);
    }
    hide PathFields, WrittenPath;
    var first, second := Address(Written(destination), false, true), Address(Written(source), path == [], false);
    assert [first] + ([second] + Hops(path)) == [first, second] + Hops(path);
    assert path == [] ==> [first] + [second] == [first, second] + Hops(path);
  }

  /** The whole frame round trips: every canonical source and destination, a path of up to eight
      hops with their marks, and any text. */
  lemma FrameRoundTrip(source: Call, destination: Call, path: seq<Hop>, info: Text, fcs: seq<Byte>)
    requires Canonical(source) && Canonical(destination) && CanonicalPath(path) && |path| <= 8 && |fcs| == 2
    ensures ParseFrame(UiFrame(Written(source), Written(destination), WrittenPath(path), info) + fcs)
         == Some(PacketOf(Written(source), Written(destination), WrittenPath(path), info))
  {
    hide DecodeAddresses, AddressField, Written, CanonicalBase, Tnc2Line, PathFields, HopTexts, ParseFrame;
    var tail := [CONTROL_UI, PID_NO_LAYER3] + info;
    AddressesRoundTrip(source, destination, path, tail);
    HopsReadBack(path);
    var fields := PathFields(WrittenPath(path));
    var head := AddressField(Written(destination), true, false) + AddressField(Written(source), false, path == []) + fields;
    var addresses := [Address(Written(destination), false, true), Address(Written(source), path == [], false)] + Hops(path);
    ParsesAfterAddresses(head, info, fcs, addresses);
    assert addresses[2..] == Hops(path);
    assert |WrittenPath(path)| == |path|;
    assert UiFrame(Written(source), Written(destination), WrittenPath(path), info) == head + tail;
  }

  /** After the addresses of a UI frame come control, protocol and text. */
  lemma ParsesAfterAddresses(head: seq<Byte>, info: Text, fcs: seq<Byte>, addresses: seq<Address>)
    requires |fcs| == 2 && |addresses| >= 2
    requires DecodeAddresses(head + ([CONTROL_UI, PID_NO_LAYER3] + info), 0, 0) == Some((addresses, |head|))
    ensures ParseFrame(head + ([CONTROL_UI, PID_NO_LAYER3] + info) + fcs)
         == Some(PacketOf(addresses[1].call, addresses[0].call, HopTexts(addresses[2..]), info))
  {
    hide DecodeAddresses, PacketOf, HopTexts, ParseFrame;
    var body := head + ([CONTROL_UI, PID_NO_LAYER3] + info);
    assert body[|head|] == CONTROL_UI && body[|head| + 2..] == info;
    ParsesUi(body, |head|, fcs, addresses);
  }

  lemma ParsesUi(body: seq<Byte>, at: nat, fcs: seq<Byte>, addresses: seq<Address>)
    requires |fcs| == 2 && |addresses| >= 2 && at + 2 <= |body| && body[at] == CONTROL_UI
    requires DecodeAddresses(body, 0, 0) == Some((addresses, at))
    ensures ParseFrame(body + fcs)
         == Some(PacketOf(addresses[1].call, addresses[0].call, HopTexts(addresses[2..]), body[at + 2..]))
  {
    assert CarriesPid(CONTROL_UI);
    hide DecodeAddresses, PacketOf, HopTexts, CarriesPid;
    assert (body + fcs)[..|body + fcs| - 2] == body;
  }

  lemma HopsReadBack(path: seq<Hop>)
    requires CanonicalPath(path)
    ensures HopTexts(Hops(path)) == WrittenPath(path)
  {
    hide Written, CanonicalBase;
  }
}
