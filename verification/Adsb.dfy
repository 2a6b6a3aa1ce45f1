/** The ADS-B receiver of `adsb.rs` above its demodulator: the aircraft cache, the rule for which
    messages are believed, position pairing, and the log of what was emitted. */
module Adsb {
  import opened Wrappers
  import opened Bytes
  import opened ModeS
  import opened Chase
  import opened Cpr

  const CACHE_LEN: nat := 64
  const ALL_CALL_PI_MAX: Reg := 0x7F
  const PREAMBLE_CHIPS: nat := 16
  const ME_OFFSET: nat := 32

  type Position = (real, real)

  datatype Aircraft = Aircraft(icao: Reg, even: Option<CprFix>, odd: Option<CprFix>, last: nat, proven: Option<nat>)

  type Cache = seq<Aircraft>

  /** One sub-sample phase of the demodulator; its arithmetic is not modelled, only that a window
      of samples determines what it finds. */
  datatype Receiver = Receiver(span: nat, preambleOk: seq<real> -> bool, slice: seq<real> -> Sliced, start: nat -> nat)

  datatype Config = Config(crcFix: bool, reference: Option<Position>, pairMaxAge: nat, rollCallMaxAge: nat,
                           receivers: seq<Receiver>, frameSpan: nat, screen: seq<real> -> set<nat>)

  ghost predicate ValidReceiver(r: Receiver, frameSpan: nat) {
    && r.span <= frameSpan
    && (forall w :: Whole(r.slice(w)))
    && (forall n :: r.start(n) <= r.span)
    && 0 < r.start(Slots(SHORT_BITS)) && 0 < r.start(Slots(LONG_BITS))
  }

  ghost predicate ValidConfig(cfg: Config) {
    cfg.frameSpan > 0 && forall i :: 0 <= i < |cfg.receivers| ==> ValidReceiver(cfg.receivers[i], cfg.frameSpan)
  }

  /** Chips of a preamble and `bits` pulse-position bits. */
  function Slots(bits: nat): nat {
    PREAMBLE_CHIPS + 2 * bits
  }

  // ---- The aircraft cache ----

  function IndexOf(cache: Cache, icao: Reg): (found: Option<nat>)
    ensures found.Some? ==> found.value < |cache| && cache[found.value].icao == icao
    ensures found == None <==> forall k :: 0 <= k < |cache| ==> cache[k].icao != icao
    decreases |cache|
  {
    if cache == [] then None
    else if cache[0].icao == icao then Some(0)
    else match IndexOf(cache[1..], icao)
      case None => None
      case Some(k) => Some(k + 1)
  }

  /** The first entry used longest ago. */
  function Oldest(cache: Cache): (k: nat)
    requires cache != []
    ensures k < |cache|
    ensures forall j :: 0 <= j < |cache| ==> cache[k].last <= cache[j].last
    ensures forall j :: 0 <= j < k ==> cache[k].last < cache[j].last
    decreases |cache|
  {
    if |cache| == 1 then 0 else
    var k := Oldest(cache[..|cache| - 1]);
    if cache[|cache| - 1].last < cache[k].last then |cache| - 1 else k
  }

  function NewAircraft(icao: Reg, at: nat): Aircraft {
    Aircraft(icao, None, None, at, None)
  }

  /** The cache with a slot for `icao`, and where it is. */
  function WithSlot(cache: Cache, icao: Reg, at: nat): (r: (Cache, nat))
    ensures r.1 < |r.0| && r.0[r.1].icao == icao
  {
    match IndexOf(cache, icao)
    case Some(k) => (cache, k)
    case None =>
      if |cache| < CACHE_LEN then (cache + [NewAircraft(icao, at)], |cache|)
      else var k := Oldest(cache); (cache[k := NewAircraft(icao, at)], k)
  }

  function Observed(cache: Cache, icao: Reg, at: nat, proved: bool): Cache {
    var (slotted, k) := WithSlot(cache, icao, at);
    slotted[k := slotted[k].(last := at, proven := if proved then Some(at) else slotted[k].proven)]
  }

  predicate Within(a: nat, b: nat, age: nat) {
    (if a < b then b - a else a - b) <= age
  }

  predicate Vouched(cache: Cache, age: nat, icao: Reg, at: nat) {
    exists k :: 0 <= k < |cache| && cache[k].icao == icao
                && cache[k].proven.Some? && Within(at, cache[k].proven.value, age)
  }

  /** The position two fixes give, when both are there and close enough in time. */
  function Paired(even: Option<CprFix>, odd: Option<CprFix>, age: nat, latestOdd: bool): Option<Position> {
    if even.Some? && odd.Some? && Within(even.value.at, odd.value.at, age)
    then CprGlobal(even.value, odd.value, latestOdd)
    else None
  }

  function WithFix(a: Aircraft, fix: CprFix, odd: bool): Aircraft {
    if odd then a.(last := fix.at, odd := Some(fix)) else a.(last := fix.at, even := Some(fix))
  }

  function PairedCache(cache: Cache, icao: Reg, fix: CprFix, odd: bool): Cache {
    var (slotted, k) := WithSlot(cache, icao, fix.at);
    slotted[k := WithFix(slotted[k], fix, odd)]
  }

  function PairedPosition(cache: Cache, age: nat, icao: Reg, fix: CprFix, odd: bool): Option<Position> {
    var (slotted, k) := WithSlot(cache, icao, fix.at);
    var entry := WithFix(slotted[k], fix, odd);
    Paired(entry.even, entry.odd, age, odd)
  }

  // ---- Which frames are believed ----

  /** A frame found in a window: `proved` when it carries its own checked address, `repaired`
      when its bits were flipped to fit an aircraft already vouched for. */
  datatype Hit = Hit(frame: Bits, df: nat, icao: Reg, proved: bool, repaired: bool, index: nat)

  function Length(df: nat): nat {
    if df >= 16 then LONG_BITS else SHORT_BITS
  }

  predicate Proves(df: nat) {
    df == 11 || df == 17 || df == 18
  }

  predicate RollCall(df: nat) {
    df in {0, 4, 5, 16, 20, 21}
  }

  datatype Attribution = Attribution(icao: Reg, proved: bool, frame: Bits)

  function Attributed(cfg: Config, cache: Cache, frame: Bits, df: nat, at: nat): Option<Attribution>
    requires |frame| == Length(df)
  {
    var overlay := OverlayOf(frame);
    if ExtendedSquitter(df) then
      if overlay == 0 then Some(Attribution(ClearAddress(frame), true, frame)) else
      if !cfg.crcFix then None else
      var bit :- FixSingleBit(frame);
      Some(Attribution(ClearAddress(Flip(frame, bit)), true, Flip(frame, bit)))
    else if df == 11 then
      if overlay <= ALL_CALL_PI_MAX then Some(Attribution(ClearAddress(frame), true, frame)) else None
    else if RollCall(df) then
      if Vouched(cache, cfg.rollCallMaxAge, overlay, at) then Some(Attribution(overlay, false, frame)) else None
    else
      None
  }

  /** What the phase `index` cuts out of a window, when the screen and its preamble let it. */
  function SliceAt(cfg: Config, window: seq<real>, phases: set<nat>, index: nat): (sliced: Option<Sliced>)
    requires ValidConfig(cfg) && index < |cfg.receivers|
    ensures sliced.Some? ==> Whole(sliced.value)
  {
    var receiver := cfg.receivers[index];
    if index !in phases || receiver.span > |window| || !receiver.preambleOk(window[..receiver.span]) then None
    else Some(receiver.slice(window[..receiver.span]))
  }

  function AttributedSlice(cfg: Config, cache: Cache, sliced: Sliced, at: nat): Option<Attribution>
    requires Whole(sliced)
  {
    var df := Df(sliced.frame);
    Attributed(cfg, cache, sliced.frame[..Length(df)], df, at)
  }

  function RepairedHit(cfg: Config, cache: Cache, sliced: Sliced, phase: nat, at: nat): Option<Hit>
    requires Whole(sliced)
  {
    var r :- Chased(sliced, icao => Vouched(cache, cfg.rollCallMaxAge, icao, at));
    Some(Hit(r.frame[..Length(r.df)], r.df, r.icao, false, true, phase))
  }

  /** A refused frame and its phase. */
  type Doubtful = Option<(Sliced, nat)>

  function MoreConfident(doubtful: Doubtful, sliced: Sliced, index: nat): Doubtful {
    if doubtful == None || sliced.confidence > doubtful.value.0.confidence then Some((sliced, index)) else doubtful
  }

  /** The search over the phases from `index` on; the most confident refused frame is kept and
      repaired if nothing better turns up. */
  function FindHit(cfg: Config, cache: Cache, window: seq<real>, phases: set<nat>, at: nat, index: nat, doubtful: Doubtful)
    : Option<Hit>
    requires ValidConfig(cfg) && index <= |cfg.receivers|
    requires doubtful.Some? ==> Whole(doubtful.value.0)
    decreases |cfg.receivers| - index
  {
    if index == |cfg.receivers| then
      if doubtful == None then None else RepairedHit(cfg, cache, doubtful.value.0, doubtful.value.1, at)
    else match SliceAt(cfg, window, phases, index)
      case None => FindHit(cfg, cache, window, phases, at, index + 1, doubtful)
      case Some(sliced) =>
        match AttributedSlice(cfg, cache, sliced, at)
        case Some(a) => Some(Hit(a.frame, Df(sliced.frame), a.icao, a.proved, false, index))
        case None => FindHit(cfg, cache, window, phases, at, index + 1, MoreConfident(doubtful, sliced, index))
  }

  // ---- What is emitted ----

  /** An emitted message. `inserted` says it made its aircraft a new cache slot; `fix` is the
      airborne position code it carried. */
  datatype Event = Event(stamp: nat, df: nat, icao: Reg, proved: bool, repaired: bool, inserted: bool,
                         fix: Option<(CprFix, bool)>, position: Option<Position>, consumed: nat)

  datatype Radio = Radio(cache: Cache, log: seq<Event>)

  /** The type code of an extended squitter. */
  function TypeCode(frame: Bits): nat
    requires |frame| == LONG_BITS
  {
    Value(frame[ME_OFFSET..ME_OFFSET + 5])
  }

  predicate Surface(code: nat) {
    5 <= code <= 8
  }

  predicate Airborne(code: nat) {
    9 <= code <= 18 || 20 <= code <= 22
  }

  function FixOf(frame: Bits, at: nat): (CprFix, bool)
    requires |frame| == LONG_BITS
  {
    (CprFix(Value(frame[ME_OFFSET + 22..ME_OFFSET + 39]), Value(frame[ME_OFFSET + 39..ME_OFFSET + 56]), at),
     frame[ME_OFFSET + 21])
  }

  function LocalPosition(cfg: Config, fix: CprFix, odd: bool, zone: real): Option<Position>
    requires zone > 0.0
  {
    var (lat, lon) :- cfg.reference;
    CprLocal(fix, odd, lat, lon, zone)
  }

  /** A message's airborne position code, if it carries one. */
  function AirborneFix(hit: Hit, at: nat): Option<(CprFix, bool)>
    requires |hit.frame| == Length(hit.df)
  {
    if ExtendedSquitter(hit.df) && Airborne(TypeCode(hit.frame)) then Some(FixOf(hit.frame, at)) else None
  }

  /** A hit is taken: the cache is told, the position solved and the message logged. */
  function Accepted(cfg: Config, radio: Radio, hit: Hit, stamp: nat): Radio
    requires |hit.frame| == Length(hit.df) && hit.index < |cfg.receivers|
  {
    var seen := Observed(radio.cache, hit.icao, stamp, hit.proved);
    var fix := AirborneFix(hit, stamp);
    var surface := ExtendedSquitter(hit.df) && Surface(TypeCode(hit.frame));
    var cache := if fix.Some? then PairedCache(seen, hit.icao, fix.value.0, fix.value.1) else seen;
    var position :=
      if fix.Some? then
        var global := PairedPosition(seen, cfg.pairMaxAge, hit.icao, fix.value.0, fix.value.1);
        if global.Some? then global else LocalPosition(cfg, fix.value.0, fix.value.1, AIRBORNE_ZONE)
      else if surface then
        var (code, odd) := FixOf(hit.frame, stamp);
        LocalPosition(cfg, code, odd, SURFACE_ZONE)
      else
        None;
    Radio(cache, radio.log + [Event(stamp, hit.df, hit.icao, hit.proved, hit.repaired,
                                    IndexOf(radio.cache, hit.icao) == None, fix, position,
                                    cfg.receivers[hit.index].start(Slots(Length(hit.df))))])
  }

  // ---- Every hit is believed for a reason ----

  /** Why a hit is believed: a frame proves itself by its own parity, and any other frame has
      parity that points at an aircraft vouched for. */
  ghost predicate Believable(cfg: Config, cache: Cache, hit: Hit, at: nat) {
    && |hit.frame| == Length(hit.df) && hit.index < |cfg.receivers|
    && (hit.proved ==>
          && Proves(hit.df) && !hit.repaired && hit.icao == ClearAddress(hit.frame)
          && (if hit.df == 11 then OverlayOf(hit.frame) <= ALL_CALL_PI_MAX else OverlayOf(hit.frame) == 0))
    && (!hit.proved ==>
          && Vouched(cache, cfg.rollCallMaxAge, hit.icao, at)
          && (RollCall(hit.df) || (hit.repaired && ExtendedSquitter(hit.df)))
          && (if ExtendedSquitter(hit.df) then OverlayOf(hit.frame) == 0 && hit.icao == ClearAddress(hit.frame)
              else OverlayOf(hit.frame) == hit.icao))
  }

  lemma AttributionIsBelievable(cfg: Config, cache: Cache, sliced: Sliced, at: nat, index: nat)
    requires Whole(sliced) && index < |cfg.receivers| && AttributedSlice(cfg, cache, sliced, at).Some?
    ensures var a := AttributedSlice(cfg, cache, sliced, at).value;
            Believable(cfg, cache, Hit(a.frame, Df(sliced.frame), a.icao, a.proved, false, index), at)
  {
    var df := Df(sliced.frame);
    FixIsExact(sliced.frame[..Length(df)]);
    hide OverlayOf, FixSingleBit, Df, Aligned, Vouched, Flip;
  }

  lemma RepairIsBelievable(cfg: Config, cache: Cache, sliced: Sliced, phase: nat, at: nat)
    requires Whole(sliced) && phase < |cfg.receivers| && RepairedHit(cfg, cache, sliced, phase, at).Some?
    ensures var hit := RepairedHit(cfg, cache, sliced, phase, at).value;
            Believable(cfg, cache, hit, at) && !hit.proved && hit.repaired
  {
    hide OverlayOf, Df, Aligned, Chased, WeakestOf, FlipAll;
    var vouched := icao => Vouched(cache, cfg.rollCallMaxAge, icao, at);
    ChaseIsExact(sliced, vouched);
    var r := Chased(sliced, vouched).value;
    var positions :| SoundRepair(sliced, r, positions, vouched);
    assert r.frame[..r.len] == r.frame[..Length(r.df)];
    assert r.frame[..r.len][8..32] == r.frame[8..32];
  }

  lemma {:induction false} HitIsBelievable(cfg: Config, cache: Cache, window: seq<real>, phases: set<nat>, at: nat,
                                           index: nat, doubtful: Doubtful)
    requires ValidConfig(cfg) && index <= |cfg.receivers|
    requires doubtful.Some? ==> Whole(doubtful.value.0) && doubtful.value.1 < |cfg.receivers|
    ensures var hit := FindHit(cfg, cache, window, phases, at, index, doubtful);
            hit.Some? ==> Believable(cfg, cache, hit.value, at)
    decreases |cfg.receivers| - index
  {
    hide SliceAt, AttributedSlice, RepairedHit, Believable, Df;
    if index == |cfg.receivers| {
      if doubtful.Some? && RepairedHit(cfg, cache, doubtful.value.0, doubtful.value.1, at).Some? {
        RepairIsBelievable(cfg, cache, doubtful.value.0, doubtful.value.1, at);
      }
    } else {
      match SliceAt(cfg, window, phases, index) {
        case None =>
          HitIsBelievable(cfg, cache, window, phases, at, index + 1, doubtful);
        case Some(sliced) =>
          if AttributedSlice(cfg, cache, sliced, at).Some? {
            AttributionIsBelievable(cfg, cache, sliced, at, index);
          } else {
            HitIsBelievable(cfg, cache, window, phases, at, index + 1, MoreConfident(doubtful, sliced, index));
          }
      }
    }
  }

  // ---- Every frame that can be believed is ----

  /** A frame is attributed exactly when its parity is right for its format: zero for a squitter, or one flip from zero
      with repair on; within the interrogator codes for an all-call reply; an address vouched for, for the rest. */
  lemma AttributionIsExact(cfg: Config, cache: Cache, frame: Bits, df: nat, at: nat)
    requires |frame| == Length(df)
    ensures Attributed(cfg, cache, frame, df, at).Some? <==>
            if ExtendedSquitter(df) then
              OverlayOf(frame) == 0 || (cfg.crcFix && exists j :: 0 <= j < |frame| && OverlayOf(Flip(frame, j)) == 0)
            else if df == 11 then OverlayOf(frame) <= ALL_CALL_PI_MAX
            else RollCall(df) && Vouched(cache, cfg.rollCallMaxAge, OverlayOf(frame), at)
  {
    FixIsExact(frame);
    hide OverlayOf, Vouched, Flip, FixSingleBit;
  }

  /** The same by downlink format, from the bits cut out of the air to the address and the proof. */
  lemma SliceIsAttributed(cfg: Config, cache: Cache, sliced: Sliced, at: nat)
    requires Whole(sliced)
    ensures var df, a := Value(sliced.frame[..5]), AttributedSlice(cfg, cache, sliced, at);
            var long, short := sliced.frame, sliced.frame[..56];
            if df == 17 || df == 18 then
              && (a.Some? <==> OverlayOf(long) == 0
                               || (cfg.crcFix && exists j :: 0 <= j < 112 && OverlayOf(Flip(long, j)) == 0))
              && (a.Some? ==> a.value.proved && |a.value.frame| == 112 && OverlayOf(a.value.frame) == 0
                              && a.value.icao == Aligned(a.value.frame[8..32])
                              && (a.value.frame == long || exists j :: 0 <= j < 112 && a.value.frame == Flip(long, j)))
            else if df == 11 then
              a == if OverlayOf(short) <= 0x7F then Some(Attribution(Aligned(short[8..32]), true, short)) else None
            else if df in {0, 4, 5} then
              a == if Vouched(cache, cfg.rollCallMaxAge, OverlayOf(short), at)
                   then Some(Attribution(OverlayOf(short), false, short)) else None
            else if df in {16, 20, 21} then
              a == if Vouched(cache, cfg.rollCallMaxAge, OverlayOf(long), at)
                   then Some(Attribution(OverlayOf(long), false, long)) else None
            else a == None
  {
    assert sliced.frame[..112] == sliced.frame;
    FixIsExact(sliced.frame);
    hide OverlayOf, Vouched, Flip, FixSingleBit, Aligned, Value;
  }

  ghost predicate Sliceable(cfg: Config, window: seq<real>, phases: set<nat>, i: nat)
    requires ValidConfig(cfg)
  {
    i < |cfg.receivers| && i in phases
    && var receiver := cfg.receivers[i];
       receiver.span <= |window| && receiver.preambleOk(window[..receiver.span])
  }

  /** The frame a phase cuts out of a window. */
  ghost function Cut(cfg: Config, window: seq<real>, i: nat): (sliced: Sliced)
    requires ValidConfig(cfg) && i < |cfg.receivers| && cfg.receivers[i].span <= |window|
    ensures Whole(sliced)
  {
    cfg.receivers[i].slice(window[..cfg.receivers[i].span])
  }

  lemma SliceIsCut(cfg: Config, window: seq<real>, phases: set<nat>, i: nat)
    requires ValidConfig(cfg) && i < |cfg.receivers|
    ensures SliceAt(cfg, window, phases, i) == if Sliceable(cfg, window, phases, i) then Some(Cut(cfg, window, i)) else None
  {}

  ghost predicate Direct(cfg: Config, cache: Cache, window: seq<real>, phases: set<nat>, at: nat, i: nat)
    requires ValidConfig(cfg)
  {
    Sliceable(cfg, window, phases, i) && AttributedSlice(cfg, cache, Cut(cfg, window, i), at).Some?
  }

  ghost function DirectHit(cfg: Config, cache: Cache, window: seq<real>, phases: set<nat>, at: nat, i: nat): Hit
    requires ValidConfig(cfg) && Direct(cfg, cache, window, phases, at, i)
  {
    var sliced := Cut(cfg, window, i);
    var a := AttributedSlice(cfg, cache, sliced, at).value;
    Hit(a.frame, Value(sliced.frame[..5]), a.icao, a.proved, false, i)
  }

  /** The refused frame offered for repair: the first of the most confident ones. */
  ghost predicate MostConfident(cfg: Config, window: seq<real>, phases: set<nat>, from: nat, before: Doubtful, best: Doubtful)
    requires ValidConfig(cfg)
  {
    && (best == None <==> before == None && forall i :: i >= from ==> !Sliceable(cfg, window, phases, i))
    && (best.Some? && best != before ==>
          && from <= best.value.1 && Sliceable(cfg, window, phases, best.value.1)
          && best.value.0 == Cut(cfg, window, best.value.1)
          && forall i :: from <= i < best.value.1 && Sliceable(cfg, window, phases, i) ==>
               Cut(cfg, window, i).confidence < best.value.0.confidence)
    && (before.Some? ==> best.Some? && (best == before || before.value.0.confidence < best.value.0.confidence))
    && (forall i :: i >= from && Sliceable(cfg, window, phases, i) ==>
          best.Some? && Cut(cfg, window, i).confidence <= best.value.0.confidence)
  }

  lemma SkipsQuiet(cfg: Config, window: seq<real>, phases: set<nat>, from: nat, before: Doubtful, best: Doubtful)
    requires ValidConfig(cfg) && !Sliceable(cfg, window, phases, from)
    requires MostConfident(cfg, window, phases, from + 1, before, best)
    ensures MostConfident(cfg, window, phases, from, before, best)
  {
    hide Cut;
  }

  lemma TakesRefused(cfg: Config, window: seq<real>, phases: set<nat>, from: nat, before: Doubtful, best: Doubtful)
    requires ValidConfig(cfg) && Sliceable(cfg, window, phases, from)
    requires MostConfident(cfg, window, phases, from + 1,
                           MoreConfident(before, Cut(cfg, window, from), from), best)
    ensures MostConfident(cfg, window, phases, from, before, best)
  {
    hide Cut;
  }

  ghost predicate Refused(cfg: Config, cache: Cache, window: seq<real>, phases: set<nat>, at: nat, i: nat)
    requires ValidConfig(cfg)
  {
    Sliceable(cfg, window, phases, i) && !Direct(cfg, cache, window, phases, at, i)
  }

  /** What one phase does to the search. */
  lemma SearchStep(cfg: Config, cache: Cache, window: seq<real>, phases: set<nat>, at: nat, index: nat, doubtful: Doubtful)
    requires ValidConfig(cfg) && index < |cfg.receivers| && (doubtful.Some? ==> Whole(doubtful.value.0))
    ensures var hit := FindHit(cfg, cache, window, phases, at, index, doubtful);
            && (Direct(cfg, cache, window, phases, at, index) ==>
                  hit == Some(DirectHit(cfg, cache, window, phases, at, index)))
            && (!Sliceable(cfg, window, phases, index) ==>
                  hit == FindHit(cfg, cache, window, phases, at, index + 1, doubtful))
            && (Refused(cfg, cache, window, phases, at, index) ==>
                  hit == FindHit(cfg, cache, window, phases, at, index + 1,
                                 MoreConfident(doubtful, Cut(cfg, window, index), index)))
    ensures Direct(cfg, cache, window, phases, at, index) ==> Sliceable(cfg, window, phases, index)
  {
    SliceIsCut(cfg, window, phases, index);
    hide SliceAt, AttributedSlice, RepairedHit, Cut, MoreConfident;
  }

  /** `who` is the first phase from `index` on whose frame is attributed. */
  ghost predicate Found(cfg: Config, cache: Cache, window: seq<real>, phases: set<nat>, at: nat, index: nat, who: nat,
                        hit: Option<Hit>)
    requires ValidConfig(cfg)
  {
    && index <= who && Direct(cfg, cache, window, phases, at, who)
    && (forall i :: index <= i < who ==> !Direct(cfg, cache, window, phases, at, i))
    && hit == Some(DirectHit(cfg, cache, window, phases, at, who))
  }

  /** No phase from `index` on has one, and `best` is offered for repair. */
  ghost predicate NotFound(cfg: Config, cache: Cache, window: seq<real>, phases: set<nat>, at: nat, index: nat,
                           doubtful: Doubtful, best: Doubtful, hit: Option<Hit>)
    requires ValidConfig(cfg)
  {
    && (best.Some? ==> Whole(best.value.0))
    && (forall i :: index <= i ==> !Direct(cfg, cache, window, phases, at, i))
    && MostConfident(cfg, window, phases, index, doubtful, best)
    && hit == if best == None then None else RepairedHit(cfg, cache, best.value.0, best.value.1, at)
  }

  lemma SearchEnds(cfg: Config, cache: Cache, window: seq<real>, phases: set<nat>, at: nat, doubtful: Doubtful)
    requires ValidConfig(cfg) && (doubtful.Some? ==> Whole(doubtful.value.0))
    ensures NotFound(cfg, cache, window, phases, at, |cfg.receivers|, doubtful, doubtful,
                     FindHit(cfg, cache, window, phases, at, |cfg.receivers|, doubtful))
  {
    hide RepairedHit, Cut;
  }

  lemma FoundHere(cfg: Config, cache: Cache, window: seq<real>, phases: set<nat>, at: nat, index: nat, hit: Option<Hit>)
    requires ValidConfig(cfg) && Direct(cfg, cache, window, phases, at, index)
    requires hit == Some(DirectHit(cfg, cache, window, phases, at, index))
    ensures Found(cfg, cache, window, phases, at, index, index, hit)
  {
    hide Direct, DirectHit;
  }

  lemma RefusedHere(cfg: Config, cache: Cache, window: seq<real>, phases: set<nat>, at: nat, i: nat)
    requires ValidConfig(cfg) && Sliceable(cfg, window, phases, i) && !Direct(cfg, cache, window, phases, at, i)
    ensures Refused(cfg, cache, window, phases, at, i)
  {}

  lemma FoundLater(cfg: Config, cache: Cache, window: seq<real>, phases: set<nat>, at: nat, index: nat, who: nat,
                   hit: Option<Hit>)
    requires ValidConfig(cfg) && !Direct(cfg, cache, window, phases, at, index)
    requires Found(cfg, cache, window, phases, at, index + 1, who, hit)
    ensures Found(cfg, cache, window, phases, at, index, who, hit)
  {
    hide Direct, DirectHit;
  }

  lemma QuietIsNotDirect(cfg: Config, cache: Cache, window: seq<real>, phases: set<nat>, at: nat, i: nat)
    requires ValidConfig(cfg) && !Sliceable(cfg, window, phases, i)
    ensures !Direct(cfg, cache, window, phases, at, i)
  {}

  lemma NotFoundPastQuiet(cfg: Config, cache: Cache, window: seq<real>, phases: set<nat>, at: nat, index: nat,
                          doubtful: Doubtful, best: Doubtful, hit: Option<Hit>)
    requires ValidConfig(cfg) && !Sliceable(cfg, window, phases, index)
    requires NotFound(cfg, cache, window, phases, at, index + 1, doubtful, best, hit)
    ensures NotFound(cfg, cache, window, phases, at, index, doubtful, best, hit)
  {
    QuietIsNotDirect(cfg, cache, window, phases, at, index);
    hide Direct, MostConfident, RepairedHit, Sliceable, ValidReceiver, Cut;
    SkipsQuiet(cfg, window, phases, index, doubtful, best);
  }

  lemma NotFoundPastRefused(cfg: Config, cache: Cache, window: seq<real>, phases: set<nat>, at: nat, index: nat,
                            doubtful: Doubtful, best: Doubtful, hit: Option<Hit>)
    requires ValidConfig(cfg) && Refused(cfg, cache, window, phases, at, index)
    requires NotFound(cfg, cache, window, phases, at, index + 1,
                      MoreConfident(doubtful, Cut(cfg, window, index), index), best, hit)
    ensures NotFound(cfg, cache, window, phases, at, index, doubtful, best, hit)
  {
    TakesRefused(cfg, window, phases, index, doubtful, best);
    hide Direct, MostConfident, RepairedHit, MoreConfident, Cut, Sliceable;
  }

  lemma {:induction false} SearchFrom(cfg: Config, cache: Cache, window: seq<real>, phases: set<nat>, at: nat,
                                      index: nat, doubtful: Doubtful)
    returns (who: nat, best: Doubtful)
    requires ValidConfig(cfg) && index <= |cfg.receivers| && (doubtful.Some? ==> Whole(doubtful.value.0))
    ensures var hit := FindHit(cfg, cache, window, phases, at, index, doubtful);
            if who < |cfg.receivers| then Found(cfg, cache, window, phases, at, index, who, hit)
            else NotFound(cfg, cache, window, phases, at, index, doubtful, best, hit)
    decreases |cfg.receivers| - index
  {
    hide *;
    var hit := FindHit(cfg, cache, window, phases, at, index, doubtful);
    if index == |cfg.receivers| {
      SearchEnds(cfg, cache, window, phases, at, doubtful);
      return index, doubtful;
    }
    SearchStep(cfg, cache, window, phases, at, index, doubtful);
    if Direct(cfg, cache, window, phases, at, index) {
      FoundHere(cfg, cache, window, phases, at, index, hit);
      return index, None;
    }
    if Sliceable(cfg, window, phases, index) {
      SliceableIsLong(cfg, window, phases, index);
      var kept := MoreConfident(doubtful, Cut(cfg, window, index), index);
      KeptIsWhole(doubtful, Cut(cfg, window, index), index);
      RefusedHere(cfg, cache, window, phases, at, index);
      who, best := SearchFrom(cfg, cache, window, phases, at, index + 1, kept);
      if who >= |cfg.receivers| {
        NotFoundPastRefused(cfg, cache, window, phases, at, index, doubtful, best, hit);
      }
    } else {
      who, best := SearchFrom(cfg, cache, window, phases, at, index + 1, doubtful);
      if who >= |cfg.receivers| {
        NotFoundPastQuiet(cfg, cache, window, phases, at, index, doubtful, best, hit);
      }
    }
    if who < |cfg.receivers| {
      FoundLater(cfg, cache, window, phases, at, index, who, hit);
    }
  }

  lemma KeptIsWhole(doubtful: Doubtful, sliced: Sliced, index: nat)
    requires Whole(sliced) && (doubtful.Some? ==> Whole(doubtful.value.0))
    ensures MoreConfident(doubtful, sliced, index).Some? && Whole(MoreConfident(doubtful, sliced, index).value.0)
  {}

  lemma SliceableIsLong(cfg: Config, window: seq<real>, phases: set<nat>, i: nat)
    requires ValidConfig(cfg) && Sliceable(cfg, window, phases, i)
    ensures i < |cfg.receivers| && cfg.receivers[i].span <= |window| && Whole(Cut(cfg, window, i))
  {}

  /** The search is exact: the first phase whose frame is attributed gives the hit; only when there is none is the
      most confident refused frame repaired. */
  lemma FindHitIsExact(cfg: Config, cache: Cache, window: seq<real>, phases: set<nat>, at: nat)
    requires ValidConfig(cfg)
    ensures var hit := FindHit(cfg, cache, window, phases, at, 0, None);
            || (exists who: nat :: Found(cfg, cache, window, phases, at, 0, who, hit))
            || (exists best :: NotFound(cfg, cache, window, phases, at, 0, None, best, hit))
  {
    var who, best := SearchFrom(cfg, cache, window, phases, at, 0, None);
    hide *;
  }

  /** The repair of a refused frame answers exactly when flips the format allows turn it into a message of a vouched
      aircraft, and the answer is such a message. */
  lemma RepairedIsExact(cfg: Config, cache: Cache, sliced: Sliced, phase: nat, at: nat)
    requires Whole(sliced)
    ensures var hit := RepairedHit(cfg, cache, sliced, phase, at);
            var vouched := icao => Vouched(cache, cfg.rollCallMaxAge, icao, at);
            && (hit.Some? <==> Repairable(sliced, vouched))
            && (hit.Some? ==> RepairedBy(sliced, hit.value, vouched)
                              && !hit.value.proved && hit.value.repaired && hit.value.index == phase)
  {
    var vouched := icao => Vouched(cache, cfg.rollCallMaxAge, icao, at);
    RepairIsByFormat(sliced, vouched);
    ChaseIsExact(sliced, vouched);
    hide Unmendable, Chased, Vouched, Repairable, RepairsTo, WeakestOf, FlipAll, Overlay, OverlayOf, Permitted;
    if Chased(sliced, vouched).Some? {
      var r := Chased(sliced, vouched).value;
      var positions :| RepairsTo(sliced, positions, r.icao, vouched) && r.frame == FlipAll(sliced.frame, positions);
      assert FlippedTo(sliced, positions, r.frame[..r.len]);
    }
  }

  /** A hit whose frame is the received one with flips that its format allows. */
  ghost predicate RepairedBy(sliced: Sliced, hit: Hit, vouched: Reg -> bool)
    requires Whole(sliced)
  {
    && hit.df == Value(sliced.frame[..5])
    && exists positions :: RepairsTo(sliced, positions, hit.icao, vouched) && FlippedTo(sliced, positions, hit.frame)
  }

  ghost predicate FlippedTo(sliced: Sliced, positions: seq<nat>, frame: Bits)
    requires Whole(sliced) 
  {
    Inside(positions, 112) && frame == FlipAll(sliced.frame, positions)[..if Value(sliced.frame[..5]) < 16 then 56 else 112]
  }

  // ---- The cache against the log ----

  ghost predicate Distinct(cache: Cache) {
    forall j, k :: 0 <= j < k < |cache| ==> cache[j].icao != cache[k].icao
  }

  /** At most 64 aircraft, no address twice, every one proven no later than it was last used. */
  ghost predicate CacheOk(cache: Cache) {
    && |cache| <= 64 && Distinct(cache)
    && forall k :: 0 <= k < |cache| ==> cache[k].proven.Some? && cache[k].proven.value <= cache[k].last
  }

  /** The latest airborne fix of a parity that the log holds for an address since it last got a
      cache slot. */
  ghost function LatestFix(log: seq<Event>, icao: Reg, odd: bool): Option<CprFix>
    decreases |log|
  {
    if log == [] then None else
    var e := log[|log| - 1];
    if e.icao == icao && e.fix.Some? && e.fix.value.1 == odd then Some(e.fix.value.0)
    else if e.icao == icao && e.inserted then None
    else LatestFix(log[..|log| - 1], icao, odd)
  }

  /** Message `j` proved the address at time `t`. */
  ghost predicate ProvedAt(log: seq<Event>, j: nat, icao: Reg, t: nat) {
    j < |log| && log[j].proved && log[j].icao == icao && log[j].stamp == t
  }

  /** When the latest message from an address was logged. */
  ghost function LastHeard(log: seq<Event>, icao: Reg): Option<nat>
    decreases |log|
  {
    if log == [] then None else
    var e := log[|log| - 1];
    if e.icao == icao then Some(e.stamp) else LastHeard(log[..|log| - 1], icao)
  }

  /** When the latest message that proved an address was logged. */
  ghost function LastProof(log: seq<Event>, icao: Reg): Option<nat>
    decreases |log|
  {
    if log == [] then None else
    var e := log[|log| - 1];
    if e.icao == icao && e.proved then Some(e.stamp) else LastProof(log[..|log| - 1], icao)
  }

  lemma {:induction false} LastProofIsLogged(log: seq<Event>, icao: Reg) returns (j: nat)
    requires LastProof(log, icao).Some?
    ensures ProvedAt(log, j, icao, LastProof(log, icao).value)
    decreases |log|
  {
    var e := log[|log| - 1];
    if e.icao == icao && e.proved {
      j := |log| - 1;
    } else {
      j := LastProofIsLogged(log[..|log| - 1], icao);
    }
  }

  /** One cache entry says what the log says: its fixes, its last use and its latest proof. */
  ghost predicate EntryMatches(a: Aircraft, log: seq<Event>) {
    && a.even == LatestFix(log, a.icao, false) && a.odd == LatestFix(log, a.icao, true)
    && LastHeard(log, a.icao) == Some(a.last)
    && a.proven.Some? && a.proven == LastProof(log, a.icao)
  }

  ghost predicate CacheMatches(cache: Cache, log: seq<Event>) {
    forall k :: 0 <= k < |cache| ==> EntryMatches(cache[k], log)
  }

  /** Everything logged is earlier than `now`. */
  ghost predicate Before(log: seq<Event>, now: nat) {
    forall i :: 0 <= i < |log| ==> log[i].stamp < now
  }

  lemma OthersUnchanged(log: seq<Event>, e: Event, a: Aircraft)
    requires EntryMatches(a, log) && a.icao != e.icao
    ensures EntryMatches(a, log + [e])
  {
    assert (log + [e])[..|log|] == log;
  }

  lemma LatestAfter(log: seq<Event>, e: Event, odd: bool)
    ensures LatestFix(log + [e], e.icao, odd) ==
            if e.fix.Some? && e.fix.value.1 == odd then Some(e.fix.value.0)
            else if e.inserted then None
            else LatestFix(log, e.icao, odd)
  {
    assert (log + [e])[..|log|] == log;
  }

  lemma SlotIsFirst(cache: Cache, k: nat)
    requires Distinct(cache) && k < |cache|
    ensures IndexOf(cache, cache[k].icao) == Some(k)
  {
    var found := IndexOf(cache, cache[k].icao);
    hide IndexOf;
    assert found.Some?;
  }

  /** A new slot takes a free place or that of the aircraft used longest ago; the others stay. */
  lemma SlotKeepsOthers(cache: Cache, icao: Reg, at: nat)
    requires Distinct(cache) && |cache| <= 64
    ensures var (slotted, k) := WithSlot(cache, icao, at);
            && Distinct(slotted) && |slotted| <= 64
            && (forall j :: 0 <= j < |slotted| && j != k ==> j < |cache| && slotted[j] == cache[j])
            && (if IndexOf(cache, icao).Some? then slotted == cache
                else slotted[k] == Aircraft(icao, None, None, at, None))
            && (k < |cache| && cache[k].icao != icao ==>
                  |cache| == 64 && forall j :: 0 <= j < |cache| ==> cache[k].last <= cache[j].last)
  {
    hide IndexOf, Oldest;
  }

  /** The aircraft entry a message leaves behind. */
  ghost function Updated(a: Aircraft, stamp: nat, proved: bool, fix: Option<(CprFix, bool)>): Aircraft {
    var b := a.(last := stamp, proven := if proved then Some(stamp) else a.proven);
    if fix.Some? then WithFix(b, fix.value.0, fix.value.1) else b
  }

  /** Observing and pairing touch one entry only. */
  lemma AcceptedCache(cfg: Config, radio: Radio, hit: Hit, stamp: nat)
    requires |hit.frame| == Length(hit.df) && hit.index < |cfg.receivers|
    requires Distinct(radio.cache) && |radio.cache| <= 64
    ensures var (slotted, k) := WithSlot(radio.cache, hit.icao, stamp);
            var fix := AirborneFix(hit, stamp);
            && Accepted(cfg, radio, hit, stamp).cache == slotted[k := Updated(slotted[k], stamp, hit.proved, fix)]
            && (fix.Some? ==> var entry := Updated(slotted[k], stamp, hit.proved, fix);
                 PairedPosition(Observed(radio.cache, hit.icao, stamp, hit.proved), cfg.pairMaxAge, hit.icao,
                                fix.value.0, fix.value.1)
                 == Paired(entry.even, entry.odd, cfg.pairMaxAge, fix.value.1))
  {
    hide IndexOf, Oldest, CprGlobal, CprLocal, Value, Paired;
    SlotKeepsOthers(radio.cache, hit.icao, stamp);
    var (slotted, k) := WithSlot(radio.cache, hit.icao, stamp);
    var seen := Observed(radio.cache, hit.icao, stamp, hit.proved);
    SlotIsFirst(seen, k);
  }

  // ---- The log ----

  /** Message `i` proves its own address, or an earlier message that did is recent enough. */
  ghost predicate TrustedMessage(log: seq<Event>, age: nat, i: nat)
    requires i < |log|
  {
    var e := log[i];
    if e.proved then e.df in {11, 17, 18} && !e.repaired
    else (e.df in {0, 4, 5, 16, 20, 21} || e.repaired) && exists j :: VouchesFor(log, age, j, i)
  }

  /** Message `j` came before `i`, proved the same address itself, and is not too old. */
  ghost predicate VouchesFor(log: seq<Event>, age: nat, j: nat, i: nat)
    requires i < |log|
  {
    && j < i && log[j].proved && log[j].df in {11, 17, 18} && log[j].icao == log[i].icao
    && log[j].stamp < log[i].stamp <= log[j].stamp + age
  }

  /** The position a message with an airborne fix must carry, from the log alone. */
  ghost function HistoryPosition(cfg: Config, log: seq<Event>): Option<Position>
    requires log != [] && log[|log| - 1].fix.Some?
  {
    var e := log[|log| - 1];
    var (fix, odd) := e.fix.value;
    var global := Paired(LatestFix(log, e.icao, false), LatestFix(log, e.icao, true), cfg.pairMaxAge, odd);
    if global.Some? then global else LocalPosition(cfg, fix, odd, AIRBORNE_ZONE)
  }

  /** What holds of message `i`, given the messages before it. */
  ghost predicate MessageOk(cfg: Config, log: seq<Event>, i: nat)
    requires i < |log|
  {
    && TrustedMessage(log, cfg.rollCallMaxAge, i)
    && (log[i].inserted ==> log[i].proved)
    && (log[i].fix.Some? ==> log[i].position == HistoryPosition(cfg, log[..i + 1]))
    && (log[i].fix.Some? ==> log[i].fix.value.0.at == log[i].stamp)
    && (i > 0 ==> log[i - 1].stamp < log[i].stamp)
  }

  /** What every reachable receiver keeps. */
  ghost predicate RadioOk(cfg: Config, radio: Radio, now: nat) {
    && CacheOk(radio.cache) && CacheMatches(radio.cache, radio.log) && Before(radio.log, now)
    && forall i :: 0 <= i < |radio.log| ==> MessageOk(cfg, radio.log, i)
  }

  lemma MessageStaysOk(cfg: Config, log: seq<Event>, e: Event, i: nat)
    requires i < |log| && MessageOk(cfg, log, i)
    ensures MessageOk(cfg, log + [e], i)
  {
    hide HistoryPosition;
    assert (log + [e])[..i + 1] == log[..i + 1];
    if !log[i].proved {
      var j: nat :| VouchesFor(log, cfg.rollCallMaxAge, j, i);
      assert VouchesFor(log + [e], cfg.rollCallMaxAge, j, i);
    }
  }

  /** The entry a message leaves matches the log it is appended to. */
  lemma UpdatedMatches(a: Aircraft, log: seq<Event>, e: Event)
    requires a.icao == e.icao && (e.fix.Some? ==> e.fix.value.0.at == e.stamp)
    requires if e.inserted then e.proved && a == NewAircraft(e.icao, e.stamp) else EntryMatches(a, log)
    ensures EntryMatches(Updated(a, e.stamp, e.proved, e.fix), log + [e])
  {
    LatestAfter(log, e, false);
    LatestAfter(log, e, true);
    hide LatestFix;
    assert (log + [e])[..|log|] == log;
  }

  /** A vouched address is in the cache already, so only proved messages insert or evict. */
  lemma VouchedIsCached(cache: Cache, age: nat, icao: Reg, at: nat)
    requires Vouched(cache, age, icao, at)
    ensures IndexOf(cache, icao).Some?
  {
    var k :| 0 <= k < |cache| && cache[k].icao == icao && cache[k].proven.Some? && Within(at, cache[k].proven.value, age);
  }

  lemma AcceptKeepsCache(cfg: Config, radio: Radio, hit: Hit, stamp: nat)
    requires RadioOk(cfg, radio, stamp) && Believable(cfg, radio.cache, hit, stamp)
    ensures var radio' := Accepted(cfg, radio, hit, stamp);
            CacheOk(radio'.cache) && CacheMatches(radio'.cache, radio'.log)
  {
    var cache := radio.cache;
    var radio' := Accepted(cfg, radio, hit, stamp);
    var e := radio'.log[|radio.log|];
    assert radio'.log == radio.log + [e];
    assert e.icao == hit.icao && e.stamp == stamp && e.proved == hit.proved && e.fix == AirborneFix(hit, stamp)
           && e.inserted == (IndexOf(cache, hit.icao) == None);
    assert e.fix.Some? ==> e.fix.value.0.at == stamp;
    AcceptedCache(cfg, radio, hit, stamp);
    if !hit.proved {
      VouchedIsCached(cache, cfg.rollCallMaxAge, hit.icao, stamp);
    }
    hide Accepted, Believable, AirborneFix, IndexOf, Vouched;
    SlotKeepsOthers(cache, hit.icao, stamp);
    var (slotted, k) := WithSlot(cache, hit.icao, stamp);
    hide WithSlot;
    UpdatedMatches(slotted[k], radio.log, e);
    forall j | 0 <= j < |radio'.cache|
      ensures EntryMatches(radio'.cache[j], radio'.log)
    {
      if j != k {
        assert slotted[j] == cache[j];
        OthersUnchanged(radio.log, e, cache[j]);
      }
    }
    hide EntryMatches;
    CacheStaysOk(slotted, k, cache, e, radio.log);
  }

  lemma CacheStaysOk(slotted: Cache, k: nat, cache: Cache, e: Event, log: seq<Event>)
    requires CacheOk(cache) && CacheMatches(cache, log) && Before(log, e.stamp)
    requires k < |slotted| <= 64 && Distinct(slotted) && slotted[k].icao == e.icao
    requires forall j :: 0 <= j < |slotted| && j != k ==> j < |cache| && slotted[j] == cache[j]
    requires if e.inserted then e.proved && slotted[k] == NewAircraft(e.icao, e.stamp) else slotted == cache
    requires e.fix.Some? ==> e.fix.value.0.at == e.stamp
    ensures CacheOk(slotted[k := Updated(slotted[k], e.stamp, e.proved, e.fix)])
  {
    if !e.inserted {
      assert EntryMatches(cache[k], log);
      var j := LastProofIsLogged(log, cache[k].icao);
    }
  }

  lemma AcceptedMessageOk(cfg: Config, radio: Radio, hit: Hit, stamp: nat)
    requires RadioOk(cfg, radio, stamp) && Believable(cfg, radio.cache, hit, stamp)
    ensures MessageOk(cfg, Accepted(cfg, radio, hit, stamp).log, |radio.log|)
  {
    var n, log := |radio.log|, Accepted(cfg, radio, hit, stamp).log;
    assert log[..n + 1] == log && log[..n] == radio.log;
    assert log[n].stamp == stamp && log[n].fix == AirborneFix(hit, stamp) && log[n].proved == hit.proved
           && log[n].inserted == (IndexOf(radio.cache, hit.icao) == None);
    assert log[n].fix.Some? ==> log[n].fix.value.0.at == stamp;
    hide Accepted, AirborneFix, IndexOf, CacheMatches, CacheOk, TrustedMessage, HistoryPosition, MessageOk;
    AcceptedIsTrusted(cfg, radio, hit, stamp);
    assert log[n].inserted ==> log[n].proved by {
      if !hit.proved {
        VouchedIsCached(radio.cache, cfg.rollCallMaxAge, hit.icao, stamp);
      }
    }
    assert log[n].fix.Some? ==> log[n].position == HistoryPosition(cfg, log) by {
      hide Believable;
      if log[n].fix.Some? {
        AcceptedPosition(cfg, radio, hit, stamp);
      }
    }
    assert n > 0 ==> log[n - 1] == log[..n][n - 1];
    hide Believable;
    MessageIsOk(cfg, log, n);
  }

  lemma MessageIsOk(cfg: Config, log: seq<Event>, n: nat)
    requires n + 1 == |log| && TrustedMessage(log, cfg.rollCallMaxAge, n) && (log[n].inserted ==> log[n].proved)
    requires log[n].fix.Some? ==> log[n].position == HistoryPosition(cfg, log)
    requires log[n].fix.Some? ==> log[n].fix.value.0.at == log[n].stamp
    requires n > 0 ==> log[n - 1].stamp < log[n].stamp
    ensures MessageOk(cfg, log, n)
  {
    hide TrustedMessage, HistoryPosition;
    assert log[..n + 1] == log;
  }

  lemma AcceptedIsTrusted(cfg: Config, radio: Radio, hit: Hit, stamp: nat)
    requires RadioOk(cfg, radio, stamp) && Believable(cfg, radio.cache, hit, stamp)
    ensures TrustedMessage(Accepted(cfg, radio, hit, stamp).log, cfg.rollCallMaxAge, |radio.log|)
  {
    hide PairedPosition, PairedCache, Observed, AirborneFix, IndexOf, OverlayOf, Aligned, LatestFix;
    var n, log, cache := |radio.log|, Accepted(cfg, radio, hit, stamp).log, radio.cache;
    assert log[..n] == radio.log;
    if !hit.proved {
      var k: nat :| k < |cache| && cache[k].icao == hit.icao && cache[k].proven.Some?
               && Within(stamp, cache[k].proven.value, cfg.rollCallMaxAge);
      assert EntryMatches(cache[k], radio.log);
      var j := LastProofIsLogged(radio.log, hit.icao);
      assert MessageOk(cfg, radio.log, j) && radio.log[j].stamp < stamp;
      assert log[j] == radio.log[j];
      assert VouchesFor(log, cfg.rollCallMaxAge, j, n);
    }
  }

  lemma AcceptedPosition(cfg: Config, radio: Radio, hit: Hit, stamp: nat)
    requires RadioOk(cfg, radio, stamp) && Believable(cfg, radio.cache, hit, stamp)
    requires AirborneFix(hit, stamp).Some?
    ensures var log := Accepted(cfg, radio, hit, stamp).log;
            log[|radio.log|].position == HistoryPosition(cfg, log)
  {
    AcceptKeepsCache(cfg, radio, hit, stamp);
    AcceptedCache(cfg, radio, hit, stamp);
    var radio' := Accepted(cfg, radio, hit, stamp);
    var (slotted, k) := WithSlot(radio.cache, hit.icao, stamp);
    hide Believable, AirborneFix, Observed, PairedCache, PairedPosition, LatestFix, Paired, LocalPosition, WithSlot, IndexOf;
    assert EntryMatches(radio'.cache[k], radio'.log);
  }

  /** Accepting a believable hit keeps everything. */
  lemma AcceptKeepsRadio(cfg: Config, radio: Radio, hit: Hit, stamp: nat)
    requires RadioOk(cfg, radio, stamp) && Believable(cfg, radio.cache, hit, stamp)
    ensures RadioOk(cfg, Accepted(cfg, radio, hit, stamp), stamp + 1)
  {
    AcceptKeepsCache(cfg, radio, hit, stamp);
    AcceptedMessageOk(cfg, radio, hit, stamp);
    var radio' := Accepted(cfg, radio, hit, stamp);
    var e := radio'.log[|radio.log|];
    assert radio'.log == radio.log + [e] && e.stamp == stamp;
    hide Accepted, Believable, CacheOk, CacheMatches, MessageOk;
    forall i | 0 <= i < |radio.log|
      ensures MessageOk(cfg, radio'.log, i)
    {
      MessageStaysOk(cfg, radio.log, e, i);
    }
  }

  /** Trust cannot extend itself: a message that does not prove its address changes no proof and
      moves no aircraft. */
  lemma UnprovedKeepsProofs(cfg: Config, radio: Radio, hit: Hit, stamp: nat)
    requires CacheOk(radio.cache) && Believable(cfg, radio.cache, hit, stamp) && !hit.proved
    ensures var cache := Accepted(cfg, radio, hit, stamp).cache;
            && |cache| == |radio.cache|
            && forall k :: 0 <= k < |cache| ==>
                 cache[k].icao == radio.cache[k].icao && cache[k].proven == radio.cache[k].proven
  {
    AcceptedCache(cfg, radio, hit, stamp);
    VouchedIsCached(radio.cache, cfg.rollCallMaxAge, hit.icao, stamp);
    hide Accepted, Believable, AirborneFix, PairedPosition, Observed;
  }

  lemma GoneIsOldest(cache: Cache, icao: Reg, at: nat, after: Cache, gone: nat)
    requires Distinct(cache) && |cache| <= 64 && gone < |cache|
    requires var (slotted, k) := WithSlot(cache, icao, at);
             && |after| == |slotted| && after[k].icao == icao
             && (forall j :: 0 <= j < |after| && j != k ==> after[j] == slotted[j])
    requires IndexOf(after, cache[gone].icao) == None
    ensures IndexOf(cache, icao) == None && |cache| == 64
    ensures forall j :: 0 <= j < |cache| ==> cache[gone].last <= cache[j].last
  {
    SlotKeepsOthers(cache, icao, at);
    var (slotted, k) := WithSlot(cache, icao, at);
    assert |slotted| >= |cache|;
    hide WithSlot, IndexOf;
    assert after[gone].icao != cache[gone].icao;
    assert gone == k;
  }

  /** Over every run, the aircraft that a message pushes out of a full cache is one heard from no later than any other
      aircraft in it. */
  lemma EvictsLeastRecent(cfg: Config, radio: Radio, hit: Hit, stamp: nat, gone: nat, other: nat)
    requires RadioOk(cfg, radio, stamp) && Believable(cfg, radio.cache, hit, stamp)
    requires gone < |radio.cache| && other < |radio.cache|
    requires IndexOf(Accepted(cfg, radio, hit, stamp).cache, radio.cache[gone].icao) == None
    ensures hit.proved && IndexOf(radio.cache, hit.icao) == None && |radio.cache| == 64
    ensures LastHeard(radio.log, radio.cache[gone].icao).Some? && LastHeard(radio.log, radio.cache[other].icao).Some?
    ensures LastHeard(radio.log, radio.cache[gone].icao).value <= LastHeard(radio.log, radio.cache[other].icao).value
  {
    var cache := radio.cache;
    AcceptedCache(cfg, radio, hit, stamp);
    if !hit.proved {
      VouchedIsCached(cache, cfg.rollCallMaxAge, hit.icao, stamp);
    }
    var after := Accepted(cfg, radio, hit, stamp).cache;
    hide Accepted, Believable, AirborneFix, LastHeard, LastProof, LatestFix, IndexOf, WithSlot;
    GoneIsOldest(cache, hit.icao, stamp, after, gone);
    assert EntryMatches(cache[gone], radio.log) && EntryMatches(cache[other], radio.log);
  }
}
