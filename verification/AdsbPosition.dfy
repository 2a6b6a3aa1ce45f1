/** What an accepted ADS-B message says, from the bits of its frame, and the positions that follow from the log. */
module AdsbPosition {
  import opened Wrappers
  import opened Bytes
  import opened ModeS
  import opened Chase
  import opened Cpr
  import opened Adsb
  import opened Products

  // ---- One message, bit by bit ----

  ghost predicate AirborneSquitter(hit: Hit)
    requires |hit.frame| == Length(hit.df)
  {
    && (hit.df == 17 || hit.df == 18)
    && (var code := Value(hit.frame[32..37]); 9 <= code <= 18 || 20 <= code <= 22)
  }

  ghost predicate SurfaceSquitter(hit: Hit)
    requires |hit.frame| == Length(hit.df)
  {
    (hit.df == 17 || hit.df == 18) && 5 <= Value(hit.frame[32..37]) <= 8
  }

  /** The position code of a squitter: bit 53 is its parity, bits 54 to 70 the latitude, bits 71 to 87 the longitude. */
  ghost predicate Codes(frame: Bits, odd: bool, lat: nat, lon: nat)
    requires |frame| == 112
  {
    frame[53] == odd && Value(frame[54..71]) == lat && Value(frame[71..88]) == lon
  }

  /** The event of an accepted message: its stamp, sender and reach, and its position code if it is airborne. */
  lemma LogsMessage(cfg: Config, radio: Radio, hit: Hit, stamp: nat)
    requires |hit.frame| == Length(hit.df) && hit.index < |cfg.receivers|
    ensures var log := Accepted(cfg, radio, hit, stamp).log;
            && |log| == |radio.log| + 1 && log[..|radio.log|] == radio.log
            && var e := log[|radio.log|];
            && e.stamp == stamp && e.df == hit.df && e.icao == hit.icao
            && e.proved == hit.proved && e.repaired == hit.repaired
            && e.consumed == cfg.receivers[hit.index].start(if hit.df >= 16 then 240 else 128)
            && (e.inserted <==> forall k :: 0 <= k < |radio.cache| ==> radio.cache[k].icao != hit.icao)
            && (e.fix.Some? <==> AirborneSquitter(hit))
            && (e.fix.Some? ==> e.fix.value.0.at == stamp
                                && Codes(hit.frame, e.fix.value.1, e.fix.value.0.lat, e.fix.value.0.lon))
            && (!AirborneSquitter(hit) && !SurfaceSquitter(hit) ==> e.position == None)
  {
    hide Value, PairedPosition, PairedCache, Observed, LocalPosition;
  }

  /** A squitter on the surface is placed by the local decoder with the ninety-degree zone, and by nothing else. */
  lemma SurfaceIsLocal(cfg: Config, radio: Radio, hit: Hit, stamp: nat, odd: bool, lat: nat, lon: nat)
    requires |hit.frame| == Length(hit.df) && hit.index < |cfg.receivers| && SurfaceSquitter(hit)
    requires Codes(hit.frame, odd, lat, lon)
    ensures var e := Accepted(cfg, radio, hit, stamp).log[|radio.log|];
            e.position == if cfg.reference.None? then None
                          else CprLocal(CprFix(lat, lon, stamp), odd, cfg.reference.value.0, cfg.reference.value.1, 90.0)
  {
    hide Value, PairedPosition, PairedCache, Observed, CprLocal;
  }

  // ---- The partner of a squitter, in the log ----

  /** Message `j` is the latest airborne one of that parity from an aircraft since it last got a cache slot. */
  ghost predicate IsLatest(log: seq<Event>, j: nat, icao: Reg, odd: bool) {
    && j < |log| && log[j].icao == icao && log[j].fix.Some? && log[j].fix.value.1 == odd
    && forall k :: j < k < |log| && log[k].icao == icao ==> Passes(log[k], odd)
  }

  ghost predicate Passes(e: Event, odd: bool) {
    !e.inserted && (e.fix.Some? ==> e.fix.value.1 != odd)
  }

  lemma {:induction false} LatestIsFound(log: seq<Event>, j: nat, icao: Reg, odd: bool)
    requires IsLatest(log, j, icao, odd)
    ensures LatestFix(log, icao, odd) == Some(log[j].fix.value.0)
    decreases |log|
  {
    var n := |log| - 1;
    if j < n {
      assert log[n].icao == icao ==> Passes(log[n], odd);
      assert IsLatest(log[..n], j, icao, odd) by {
        assert forall k :: j < k < n ==> log[..n][k] == log[k];
      }
      LatestIsFound(log[..n], j, icao, odd);
    }
  }

  lemma {:induction false} LatestIsThere(log: seq<Event>, icao: Reg, odd: bool) returns (j: nat)
    requires LatestFix(log, icao, odd).Some?
    ensures IsLatest(log, j, icao, odd)
    decreases |log|
  {
    var n := |log| - 1;
    var e := log[n];
    if e.icao == icao && e.fix.Some? && e.fix.value.1 == odd {
      j := n;
    } else {
      j := LatestIsThere(log[..n], icao, odd);
      assert forall k :: j < k < n ==> log[..n][k] == log[k];
      assert e.icao == icao ==> Passes(e, odd);
    }
  }

  /** What the log determines for a message with a fix, in terms of its partner before that message. */
  ghost function FromPartner(cfg: Config, fix: CprFix, odd: bool, other: Option<CprFix>, stamp: nat): Option<Position> {
    var placed := if cfg.reference.None? then None
                  else CprLocal(fix, odd, cfg.reference.value.0, cfg.reference.value.1, 360.0);
    if other.None? || stamp - other.value.at > cfg.pairMaxAge then placed else
    var solved := if odd then CprGlobal(other.value, fix, true) else CprGlobal(fix, other.value, false);
    if solved.Some? then solved else placed
  }

  lemma HistoryIs(cfg: Config, log: seq<Event>, e: Event, fix: CprFix, odd: bool)
    requires e.fix == Some((fix, odd)) && !e.inserted && fix.at == e.stamp
    requires LatestFix(log, e.icao, !odd).Some? ==> LatestFix(log, e.icao, !odd).value.at < e.stamp
    ensures HistoryPosition(cfg, log + [e]) == FromPartner(cfg, fix, odd, LatestFix(log, e.icao, !odd), e.stamp)
  {
    LatestAfter(log, e, odd);
    LatestAfter(log, e, !odd);
    hide LatestFix, CprGlobal, CprLocal;
  }

  /** The position of an airborne squitter: paired with the latest of the other parity from its aircraft when there is
      one no older than the age allowed and the two solve, and placed locally otherwise. */
  lemma {:induction false} AirbornePosition(cfg: Config, radio: Radio, hit: Hit, stamp: nat, odd: bool, lat: nat, lon: nat)
    requires RadioOk(cfg, radio, stamp) && Believable(cfg, radio.cache, hit, stamp) && AirborneSquitter(hit)
    requires Codes(hit.frame, odd, lat, lon) && IndexOf(radio.cache, hit.icao).Some?
    ensures var e := Accepted(cfg, radio, hit, stamp).log[|radio.log|];
            e.position
            == FromPartner(cfg, CprFix(lat, lon, stamp), odd, LatestFix(radio.log, hit.icao, !odd), stamp)
  {
    LogsMessage(cfg, radio, hit, stamp);
    var log := Accepted(cfg, radio, hit, stamp).log;
    var e := log[|radio.log|];
    assert log == radio.log + [e];
    AcceptedPosition(cfg, radio, hit, stamp);
    assert e.fix == Some((CprFix(lat, lon, stamp), odd));
    assert !e.inserted;
    hide *;
    if LatestFix(radio.log, hit.icao, !odd).Some? {
      PartnerIsEarlier(cfg, radio, stamp, hit.icao, !odd);
    }
    HistoryIs(cfg, radio.log, e, CprFix(lat, lon, stamp), odd);
  }

  lemma PartnerIsEarlier(cfg: Config, radio: Radio, stamp: nat, icao: Reg, odd: bool)
    requires RadioOk(cfg, radio, stamp) && LatestFix(radio.log, icao, odd).Some?
    ensures LatestFix(radio.log, icao, odd).value.at < stamp
  {
    var j := LatestIsThere(radio.log, icao, odd);
    LatestIsFound(radio.log, j, icao, odd);
    assert MessageOk(cfg, radio.log, j);
    hide LatestFix, TrustedMessage, HistoryPosition;
  }

  /** A squitter that carries the encoding of a point. */
  ghost predicate Sends(frame: Bits, odd: bool, lat: real, lon: real)
    requires |frame| == 112
  {
    Codes(frame, odd, CprEncode(lat, lon, odd, 360.0).0, CprEncode(lat, lon, odd, 360.0).1)
  }

  /** A position within half a step of a point, in the steps of one parity, longitude up to whole turns. */
  ghost predicate Places(position: Option<Position>, odd: bool, lat: real, lon: real, turns: int) {
    && position.Some?
    && Abs(position.value.0 - lat) <= (if odd then 360.0 / 59.0 else 6.0) / 262144.0
    && Abs(position.value.1 - (lon + 360.0 * turns as real)) <= LonWidth(lat, odd) / 262144.0
  }

  lemma PairSolves(lat: real, lon: real, odd: bool, at: nat, otherAt: nat) returns (turns: int)
    requires InLatitude(lat) && CprNl(SnappedLat(lat, false)) == CprNl(SnappedLat(lat, true))
    ensures var fix := EncodedFix(lat, lon, odd, 360.0, at);
            var other := EncodedFix(lat, lon, !odd, 360.0, otherAt);
            Places(if odd then CprGlobal(other, fix, true) else CprGlobal(fix, other, false), odd, lat, lon, turns)
  {
    turns := GlobalRoundTrip(lat, lon, odd, if odd then otherAt else at, if odd then at else otherAt);
    assert HalfStep(Width(360.0, LatZones(odd))) == (if odd then 360.0 / 59.0 else 6.0) / 262144.0;
    assert HalfStep(LonWidth(lat, odd)) == LonWidth(lat, odd) / 262144.0;
    hide CprNl, CprGlobal, EncodedFix, HalfStep, LonWidth, SnappedLat, Snap;
  }

  /** From bits to a place: when a squitter carries a point and the latest of the other parity from its aircraft, no
      older than the age allowed, carried the same point, the position logged is that point within half a step. */
  lemma {:induction false} PairIsPlaced(cfg: Config, radio: Radio, hit: Hit, stamp: nat, j: nat, odd: bool,
                                        lat: real, lon: real)
    returns (turns: int)
    requires RadioOk(cfg, radio, stamp) && Believable(cfg, radio.cache, hit, stamp) && AirborneSquitter(hit)
    requires IndexOf(radio.cache, hit.icao).Some? && InLatitude(lat) && Sends(hit.frame, odd, lat, lon)
    requires CprNl(SnappedLat(lat, false)) == CprNl(SnappedLat(lat, true))
    requires IsLatest(radio.log, j, hit.icao, !odd) && stamp - radio.log[j].stamp <= cfg.pairMaxAge
    requires radio.log[j].fix.value.0 == EncodedFix(lat, lon, !odd, 360.0, radio.log[j].stamp)
    ensures Places(Accepted(cfg, radio, hit, stamp).log[|radio.log|].position, odd, lat, lon, turns)
  {
    var code := EncodedFix(lat, lon, odd, 360.0, stamp);
    assert Codes(hit.frame, odd, code.lat, code.lon);
    assert code == CprFix(code.lat, code.lon, stamp);
    assert radio.log[j].fix.value.0.at == radio.log[j].stamp;
    hide EncodedFix, Sends, Codes, Places, Believable, RadioOk, CprGlobal, CprLocal, CprNl, SnappedLat, LatestFix, Accepted,
         IndexOf;
    LatestIsFound(radio.log, j, hit.icao, !odd);
    AirbornePosition(cfg, radio, hit, stamp, odd, code.lat, code.lon);
    turns := PairSolves(lat, lon, odd, stamp, radio.log[j].stamp);
    assert (if odd then CprGlobal(radio.log[j].fix.value.0, code, true)
            else CprGlobal(code, radio.log[j].fix.value.0, false)).Some? by { PlacesSome(odd, lat, lon, turns); }
  }

  lemma PlacesSome(odd: bool, lat: real, lon: real, turns: int)
    ensures forall p :: Places(p, odd, lat, lon, turns) ==> p.Some?
  {}

  /** The same for two squitters received one after the other, from any state that keeps the invariant. */
  lemma {:induction false} TwoSquittersArePlaced(cfg: Config, radio: Radio, first: Hit, second: Hit, s: nat, t: nat,
                                                 odd: bool, lat: real, lon: real)
    returns (turns: int)
    requires RadioOk(cfg, radio, s) && Believable(cfg, radio.cache, first, s) && s < t <= s + cfg.pairMaxAge
    requires Believable(cfg, Accepted(cfg, radio, first, s).cache, second, t)
    requires AirborneSquitter(first) && AirborneSquitter(second) && first.icao == second.icao
    requires Sends(first.frame, !odd, lat, lon) && Sends(second.frame, odd, lat, lon)
    requires InLatitude(lat) && CprNl(SnappedLat(lat, false)) == CprNl(SnappedLat(lat, true))
    ensures var between := Accepted(cfg, radio, first, s);
            Places(Accepted(cfg, between, second, t).log[|between.log|].position, odd, lat, lon, turns)
  {
    var between := Accepted(cfg, radio, first, s);
    var j, code := |radio.log|, EncodedFix(lat, lon, !odd, 360.0, s);
    AcceptKeepsRadio(cfg, radio, first, s);
    RadioWaits(cfg, between, s + 1, t);
    LogsMessage(cfg, radio, first, s);
    assert Codes(first.frame, !odd, code.lat, code.lon);
    assert between.log[j].fix == Some((code, !odd));
    AcceptedIsCached(cfg, radio, first, s);
    assert IsLatest(between.log, j, first.icao, !odd);
    hide EncodedFix, Sends, Codes, Places, Believable, RadioOk, CprNl, SnappedLat, LatestFix, Accepted, IndexOf, IsLatest;
    turns := PairIsPlaced(cfg, between, second, t, j, odd, lat, lon);
  }

  lemma RadioWaits(cfg: Config, radio: Radio, now: nat, later: nat)
    requires RadioOk(cfg, radio, now) && now <= later
    ensures RadioOk(cfg, radio, later)
  {
    hide MessageOk, CacheOk, CacheMatches;
  }

  lemma AcceptedIsCached(cfg: Config, radio: Radio, hit: Hit, stamp: nat)
    requires RadioOk(cfg, radio, stamp) && Believable(cfg, radio.cache, hit, stamp)
    ensures IndexOf(Accepted(cfg, radio, hit, stamp).cache, hit.icao).Some?
  {
    AcceptedCache(cfg, radio, hit, stamp);
    var (slotted, k) := WithSlot(radio.cache, hit.icao, stamp);
    var after := Accepted(cfg, radio, hit, stamp).cache;
    assert after[k].icao == hit.icao;
    hide Accepted, IndexOf;
  }

  // ---- Vouching, from the log ----

  lemma {:induction false} LatestProofIsLast(cfg: Config, log: seq<Event>, icao: Reg, j: nat)
    requires j < |log| && log[j].proved && log[j].icao == icao
    requires forall i :: 0 <= i < |log| ==> MessageOk(cfg, log, i)
    ensures LastProof(log, icao).Some? && log[j].stamp <= LastProof(log, icao).value
    decreases |log|
  {
    hide TrustedMessage, HistoryPosition;
    var n := |log| - 1;
    StampsRise(cfg, log, j, n);
    if !(log[n].icao == icao && log[n].proved) {
      forall i | 0 <= i < n
        ensures MessageOk(cfg, log[..n], i)
      {
        PrefixIsOk(cfg, log, n, i);
      }
      LatestProofIsLast(cfg, log[..n], icao, j);
    }
  }

  lemma {:induction false} StampsRise(cfg: Config, log: seq<Event>, i: nat, j: nat)
    requires i <= j < |log| && forall k :: 0 <= k < |log| ==> MessageOk(cfg, log, k)
    ensures log[i].stamp <= log[j].stamp
    decreases j
  {
    hide TrustedMessage, HistoryPosition;
    if i < j {
      assert MessageOk(cfg, log, j);
      hide MessageOk;
      StampsRise(cfg, log, i, j - 1);
    }
  }

  lemma PrefixIsOk(cfg: Config, log: seq<Event>, n: nat, i: nat)
    requires i < n <= |log| && MessageOk(cfg, log, i)
    ensures MessageOk(cfg, log[..n], i)
  {
    hide HistoryPosition;
    assert log[..n][..i + 1] == log[..i + 1];
    if !log[i].proved {
      var j: nat :| VouchesFor(log, cfg.rollCallMaxAge, j, i);
      assert VouchesFor(log[..n], cfg.rollCallMaxAge, j, i);
    }
  }

  /** An address is vouched for exactly when its aircraft is in the cache and some logged message proved it no more than
      the age allowed before. */
  lemma {:induction false} VouchedIsExact(cfg: Config, radio: Radio, icao: Reg, at: nat)
    requires RadioOk(cfg, radio, at)
    ensures Vouched(radio.cache, cfg.rollCallMaxAge, icao, at)
       <==> (exists k :: 0 <= k < |radio.cache| && radio.cache[k].icao == icao)
            && (exists j :: RecentProof(radio.log, j, icao, at, cfg.rollCallMaxAge))
  {
    hide MessageOk, LastProof, LatestFix, LastHeard;
    var cache, log, age := radio.cache, radio.log, cfg.rollCallMaxAge;
    if Vouched(cache, age, icao, at) {
      var k :| 0 <= k < |cache| && cache[k].icao == icao && cache[k].proven.Some? && Within(at, cache[k].proven.value, age);
      assert EntryMatches(cache[k], log);
      var j := LastProofIsLogged(log, icao);
      assert log[j].stamp < at;
      assert RecentProof(log, j, icao, at, age);
    }
    if exists k, j :: 0 <= k < |cache| && cache[k].icao == icao && RecentProof(log, j, icao, at, age) {
      var k, j :| 0 <= k < |cache| && cache[k].icao == icao && RecentProof(log, j, icao, at, age);
      assert EntryMatches(cache[k], log);
      LatestProofIsLast(cfg, log, icao, j);
      var last := LastProofIsLogged(log, icao);
      assert log[last].stamp < at;
      assert Within(at, cache[k].proven.value, age);
    }
  }

  ghost predicate RecentProof(log: seq<Event>, j: nat, icao: Reg, at: nat, age: nat) {
    j < |log| && log[j].proved && log[j].icao == icao && log[j].stamp <= at <= log[j].stamp + age
  }
}
