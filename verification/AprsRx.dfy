/** The APRS receiver of `aprs.rs` behind its deframer: short-burst repair of the check sequence,
    parsing, and the filter that emits a frame heard by several lanes once. */
module AprsRx {
  import opened Wrappers
  import opened Bytes
  import opened Crc16
  import opened Hdlc
  import opened Ax25
  import opened AprsTx

  const DEDUP_SAMPLES: nat := 48000

  // ---- Repair ----

  function FlipBit(frame: Frame, at: nat): (flipped: Frame)
    requires at < 8 * |frame|
    ensures |flipped| == |frame|
  {
    frame[at / 8 := frame[at / 8] ^ Mask(at % 8)]
  }

  /** One bit, or two neighbours, flipped. */
  function FlipBurst(frame: Frame, at: nat, span: nat): (flipped: Frame)
    requires 1 <= span <= 2 && at + span <= 8 * |frame|
    ensures |flipped| == |frame|
  {
    if span == 1 then FlipBit(frame, at) else FlipBit(FlipBit(frame, at), at + 1)
  }

  ghost predicate IsBurst(frame: Frame, at: nat, span: nat) {
    1 <= span <= 2 && at + span <= 8 * |frame|
  }

  function SearchBurst(frame: Frame, span: nat, at: nat): (r: Option<Frame>)
    requires 1 <= span <= 2
    ensures r.Some? ==> |r.value| == |frame|
    decreases 8 * |frame| - at
  {
    if at + span > 8 * |frame| then None
    else if FcsOk(FlipBurst(frame, at, span)) then Some(FlipBurst(frame, at, span))
    else SearchBurst(frame, span, at + 1)
  }

  function HdlcRepair(frame: Frame): (r: Option<Frame>)
    ensures r.Some? ==> |r.value| == |frame|
  {
    if FcsOk(frame) then Some(frame) else
    var single := SearchBurst(frame, 1, 0);
    if single.Some? then single else SearchBurst(frame, 2, 0)
  }

  lemma {:induction false} SearchIsExact(frame: Frame, span: nat, at: nat) returns (where: nat)
    requires 1 <= span <= 2
    ensures var r := SearchBurst(frame, span, at);
            if r.Some? then
              && at <= where && where + span <= 8 * |frame| && r.value == FlipBurst(frame, where, span) && FcsOk(r.value)
              && forall k: nat :: at <= k < where ==> !FcsOk(FlipBurst(frame, k, span))
            else
              forall k: nat :: at <= k && k + span <= 8 * |frame| ==> !FcsOk(FlipBurst(frame, k, span))
    decreases 8 * |frame| - at
  {
    hide FcsOk, FlipBurst;
    where := at;
    if at + span <= 8 * |frame| && !FcsOk(FlipBurst(frame, at, span)) {
      where := SearchIsExact(frame, span, at + 1);
    }
  }

  /** Repair is exact: a frame comes back with a good check sequence and at most a burst of two
      bits changed, and a frame is given up only when no such burst mends it. */
  lemma RepairIsExact(frame: Frame)
    ensures FcsOk(frame) ==> HdlcRepair(frame) == Some(frame)
    ensures HdlcRepair(frame).Some? ==> FcsOk(HdlcRepair(frame).value)
    ensures HdlcRepair(frame).Some? && !FcsOk(frame) ==>
              exists at, span :: IsBurst(frame, at, span) && HdlcRepair(frame).value == FlipBurst(frame, at, span)
    ensures HdlcRepair(frame) == None ==>
              !FcsOk(frame) && forall at, span :: IsBurst(frame, at, span) ==> !FcsOk(FlipBurst(frame, at, span))
  {
    hide FcsOk, FlipBurst, SearchBurst;
    var one := SearchIsExact(frame, 1, 0);
    var two := SearchIsExact(frame, 2, 0);
    assert SearchBurst(frame, 1, 0).Some? ==> IsBurst(frame, one, 1);
    assert SearchBurst(frame, 2, 0).Some? ==> IsBurst(frame, two, 2);
  }

  /** `checked_packet`: parse, mend, parse again. */
  function CheckedFrame(frame: Frame): Option<Frame> {
    if ParseFrame(frame) == None then None else
    var repaired :- HdlcRepair(frame);
    if ParseFrame(repaired) == None then None else Some(repaired)
  }

  // ---- What a delivered frame becomes, bit by bit ----

  /** `r` is `f` with `span` neighbouring bits flipped from `at` on, in the order they are sent. */
  ghost predicate Differ(f: Frame, r: Frame, at: nat, span: nat) {
    |r| == |f| && forall i :: 0 <= i < 8 * |f| ==> Octets(r)[i] == (Octets(f)[i] != (at <= i < at + span))
  }

  ghost predicate MendedBy(f: Frame, r: Frame, at: nat, span: nat) {
    1 <= span <= 2 && at + span <= 8 * |f| && Differ(f, r, at, span) && FcsOk(r)
  }

  /** No burst mends `f` before this one: single bits come before pairs, and earlier bits before later ones. */
  ghost predicate FirstMend(f: Frame, r: Frame, at: nat, span: nat) {
    && MendedBy(f, r, at, span)
    && forall g, a: nat, s: nat :: s < span || (s == span && a < at) ==> !MendedBy(f, g, a, s)
  }

  /** A delivered frame `f` becomes `r`: both parse, `r` passes the check, and `r` is `f` or, when `f` does not pass,
      `f` with the first burst of one or two bits that mends it. */
  ghost predicate Becomes(f: Frame, r: Frame) {
    && ParseFrame(f).Some? && ParseFrame(r).Some? && FcsOk(r)
    && if FcsOk(f) then r == f else exists at: nat, span: nat :: FirstMend(f, r, at, span)
  }

  lemma {:induction false} OctetsAt(bytes: seq<Byte>, i: nat)
    requires i < 8 * |bytes|
    ensures Octets(bytes)[i] == BitOf(bytes[i / 8], i % 8)
    decreases |bytes|
  {
    hide BitOf;
    if i >= 8 {
      OctetsAt(bytes[1..], i - 8);
      assert (i - 8) / 8 == i / 8 - 1 && (i - 8) % 8 == i % 8;
    }
  }

  lemma {:induction false} FlipBitAt(f: Frame, at: nat, i: nat)
    requires at < 8 * |f| && i < 8 * |f|
    ensures Octets(FlipBit(f, at))[i] == (Octets(f)[i] != (i == at))
  {
    var r := FlipBit(f, at);
    OctetsAt(f, i);
    OctetsAt(r, i);
    MaskFlips(f[at / 8], at % 8, i % 8);
    assert i == at <==> i / 8 == at / 8 && i % 8 == at % 8 by { SamePlace(i, at); }
    hide BitOf, Mask, Octets;
  }

  lemma SamePlace(i: nat, j: nat)
    ensures i == j <==> i / 8 == j / 8 && i % 8 == j % 8
  {}

  lemma {:induction false} FlipBitDiffers(f: Frame, at: nat)
    requires at < 8 * |f|
    ensures Differ(f, FlipBit(f, at), at, 1)
  {
    forall i | 0 <= i < 8 * |f|
      ensures Octets(FlipBit(f, at))[i] == (Octets(f)[i] != (at <= i < at + 1))
    {
      FlipBitAt(f, at, i);
    }
    hide Octets, FlipBit;
  }

  lemma {:induction false} BurstDiffers(f: Frame, at: nat, span: nat)
    requires IsBurst(f, at, span)
    ensures Differ(f, FlipBurst(f, at, span), at, span)
  {
    hide Octets, FlipBit;
    FlipBitDiffers(f, at);
    if span == 2 {
      FlipBitDiffers(FlipBit(f, at), at + 1);
    }
  }

  lemma {:induction false} DifferIsBurst(f: Frame, r: Frame, at: nat, span: nat)
    requires IsBurst(f, at, span) && Differ(f, r, at, span)
    ensures r == FlipBurst(f, at, span)
  {
    BurstDiffers(f, at, span);
    var g := FlipBurst(f, at, span);
    hide FlipBurst, BitOf, Octets;
    forall n | 0 <= n < |f|
      ensures r[n] == g[n]
    {
      forall k: nat | k < 8
        ensures BitOf(r[n], k) == BitOf(g[n], k)
      {
        var i := 8 * n + k;
        assert i / 8 == n && i % 8 == k;
        OctetsAt(r, i);
        OctetsAt(g, i);
      }
      SameBits(r[n], g[n]);
    }
  }

  lemma {:induction false} MendedIsFlip(f: Frame, r: Frame, at: nat, span: nat)
    ensures MendedBy(f, r, at, span) <==> IsBurst(f, at, span) && r == FlipBurst(f, at, span) && FcsOk(r)
  {
    hide FcsOk, FlipBurst, Differ;
    if IsBurst(f, at, span) {
      BurstDiffers(f, at, span);
      if Differ(f, r, at, span) {
        DifferIsBurst(f, r, at, span);
      }
    }
  }

  /** The repair of a frame that fails the check is its first mend. */
  lemma {:induction false} RepairIsFirst(f: Frame) returns (at: nat, span: nat)
    requires !FcsOk(f)
    ensures HdlcRepair(f).Some? ==> FirstMend(f, HdlcRepair(f).value, at, span)
    ensures HdlcRepair(f) == None ==> forall r, a: nat, s: nat :: !MendedBy(f, r, a, s)
  {
    hide FcsOk, FlipBurst, SearchBurst, MendedBy;
    var one := SearchIsExact(f, 1, 0);
    var two := SearchIsExact(f, 2, 0);
    forall r, a: nat, s: nat
      ensures MendedBy(f, r, a, s) <==> IsBurst(f, a, s) && r == FlipBurst(f, a, s) && FcsOk(r)
    {
      MendedIsFlip(f, r, a, s);
    }
    if SearchBurst(f, 1, 0).Some? {
      at, span := one, 1;
    } else {
      at, span := two, 2;
    }
  }

  lemma {:induction false} FirstIsOnly(f: Frame, r: Frame, at: nat, span: nat, q: Frame, a: nat, s: nat)
    requires FirstMend(f, r, at, span) && FirstMend(f, q, a, s)
    ensures q == r
  {
    hide FcsOk, FlipBurst, MendedBy;
    MendedIsFlip(f, r, at, span);
    MendedIsFlip(f, q, a, s);
  }

  /** What the channel checks is what delivered frames become. */
  lemma {:induction false} CheckedIsExact(f: Frame, r: Frame)
    ensures CheckedFrame(f) == Some(r) <==> Becomes(f, r)
  {
    hide ParseFrame, FcsOk, FirstMend, HdlcRepair;
    RepairIsExact(f);
    if !FcsOk(f) {
      var at, span := RepairIsFirst(f);
      if Becomes(f, r) {
        var a: nat, s: nat :| FirstMend(f, r, a, s);
        assert MendedBy(f, r, a, s) by { FirstMends(f, r, a, s); }
        FirstIsOnly(f, HdlcRepair(f).value, at, span, r, a, s);
      }
    }
  }

  lemma FirstMends(f: Frame, r: Frame, at: nat, span: nat)
    requires FirstMend(f, r, at, span)
    ensures MendedBy(f, r, at, span)
  {}

  /** What a delivered frame becomes, if anything. */
  ghost function Outcome(f: Frame): Option<Frame> {
    if exists r :: Becomes(f, r) then var r :| Becomes(f, r); Some(r) else None
  }

  lemma OutcomeIsChecked(f: Frame)
    ensures Outcome(f) == CheckedFrame(f)
  {
    hide Becomes, CheckedFrame;
    forall r
      ensures CheckedFrame(f) == Some(r) <==> Becomes(f, r)
    {
      CheckedIsExact(f, r);
    }
  }

  // ---- The duplicate filter ----

  /** A frame and the sample clock it was emitted at. */
  datatype Heard = Heard(clock: nat, frame: Frame)

  /** The frame's last emission is recent enough to hold it back. */
  predicate Holds(e: Heard, clock: nat) {
    clock < e.clock + DEDUP_SAMPLES
  }

  function Retained(recent: seq<Heard>, clock: nat): (kept: seq<Heard>)
    decreases |recent|
  {
    if recent == [] then []
    else (if Holds(recent[0], clock) then [recent[0]] else []) + Retained(recent[1..], clock)
  }

  predicate Has(recent: seq<Heard>, frame: Frame) {
    exists k :: 0 <= k < |recent| && recent[k].frame == frame
  }

  /** One call of `process`: so many samples, then the frames the lanes delivered. */
  datatype Delivery = Delivery(samples: nat, frames: seq<Frame>)

  datatype Filter = Filter(recent: seq<Heard>, clock: nat)

  /** The loop over a call's frames; also what it emits. */
  function FilterFrames(recent: seq<Heard>, clock: nat, frames: seq<Frame>): (seq<Heard>, seq<Heard>)
    decreases |frames|
  {
    if frames == [] then (recent, []) else
    match CheckedFrame(frames[0])
    case None => FilterFrames(recent, clock, frames[1..])
    case Some(frame) =>
      if Has(recent, frame) then FilterFrames(recent, clock, frames[1..])
      else
        var (after, out) := FilterFrames(recent + [Heard(clock, frame)], clock, frames[1..]);
        (after, [Heard(clock, frame)] + out)
  }

  function Processed(f: Filter, call: Delivery): (Filter, seq<Heard>) {
    var clock := f.clock + call.samples;
    var (recent, out) := FilterFrames(Retained(f.recent, clock), clock, call.frames);
    (Filter(recent, clock), out)
  }

  class AprsChannel {
    var recent: seq<Heard>
    var clock: nat

    ghost function State(): Filter
      reads this
    {
      Filter(recent, clock)
    }

    constructor ()
      ensures State() == Filter([], 0)
    {
      recent, clock := [], 0;
    }

    method Process(samples: nat, frames: seq<Frame>) returns (events: seq<Heard>)
      modifies this
      ensures (State(), events) == Processed(old(State()), Delivery(samples, frames))
    {
      hide CheckedFrame;
      clock := clock + samples;
      recent := Retained(recent, clock);
      ghost var kept := recent;
      events := [];
      assert frames[0..] == frames;
      assert [] + FilterFrames(kept, clock, frames).1 == FilterFrames(kept, clock, frames).1;
      for i := 0 to |frames|
        invariant clock == old(clock) + samples
        invariant FilterFrames(kept, clock, frames)
               == (FilterFrames(recent, clock, frames[i..]).0, events + FilterFrames(recent, clock, frames[i..]).1)
      {
        assert frames[i..][1..] == frames[i + 1..];
        var checked := CheckedFrame(frames[i]);
        if checked.Some? && !Has(recent, checked.value) {
          ghost var rest := FilterFrames(recent + [Heard(clock, checked.value)], clock, frames[i + 1..]).1;
          assert events + ([Heard(clock, checked.value)] + rest) == (events + [Heard(clock, checked.value)]) + rest;
          recent := recent + [Heard(clock, checked.value)];
          events := events + [Heard(clock, checked.value)];
        }
      }
      assert events + [] == events;
    }
  }

  // ---- The filter against its rule ----

  /** Something emitted holds this frame back. */
  ghost predicate HeldBack(log: seq<Heard>, clock: nat, frame: Frame) {
    exists k :: 0 <= k < |log| && log[k].frame == frame && clock < log[k].clock + 48000
  }

  /** The rule, over everything ever emitted: what a delivered frame becomes goes out unless an equal frame went out
      less than 48000 samples earlier. */
  ghost function Admitted(log: seq<Heard>, clock: nat, frames: seq<Frame>): seq<Heard>
    decreases |frames|
  {
    if frames == [] then log else
    match Outcome(frames[0])
    case None => Admitted(log, clock, frames[1..])
    case Some(frame) =>
      Admitted(if HeldBack(log, clock, frame) then log else log + [Heard(clock, frame)], clock, frames[1..])
  }

  ghost function AdmittedRun(log: seq<Heard>, clock: nat, calls: seq<Delivery>): seq<Heard>
    decreases |calls|
  {
    if calls == [] then log
    else AdmittedRun(Admitted(log, clock + calls[0].samples, calls[0].frames), clock + calls[0].samples, calls[1..])
  }

  function RunFilter(f: Filter, calls: seq<Delivery>): seq<Heard>
    decreases |calls|
  {
    if calls == [] then [] else
    var (f1, out) := Processed(f, calls[0]);
    out + RunFilter(f1, calls[1..])
  }

  lemma {:induction false} RetainedAppend(a: seq<Heard>, b: seq<Heard>, clock: nat)
    ensures Retained(a + b, clock) == Retained(a, clock) + Retained(b, clock)
    decreases |a|
  {
    hide Holds;
    if a == [] {
      assert a + b == b;
    } else {
      RetainedAppend(a[1..], b, clock);
      assert (a + b)[0] == a[0] && (a + b)[1..] == a[1..] + b;
      var first, x, y := if Holds(a[0], clock) then [a[0]] else [], Retained(a[1..], clock), Retained(b, clock);
      assert Retained(a, clock) == first + x && Retained(a + b, clock) == first + (x + y);
      hide Retained;
      assert first + (x + y) == (first + x) + y;
    }
  }

  lemma {:induction false} RetainedHas(log: seq<Heard>, clock: nat, frame: Frame)
    ensures Has(Retained(log, clock), frame) <==> HeldBack(log, clock, frame)
    decreases |log|
  {
    if log != [] {
      var rest, kept := log[1..], Retained(log[1..], clock);
      RetainedHas(rest, clock, frame);
      assert HeldBack(log, clock, frame)
          <==> (log[0].frame == frame && Holds(log[0], clock)) || HeldBack(rest, clock, frame) by {
        assert forall k :: 0 < k < |log| ==> log[k] == rest[k - 1];
        assert forall k :: 0 <= k < |rest| ==> rest[k] == log[k + 1];
      }
      if Holds(log[0], clock) {
        var all := [log[0]] + kept;
        assert forall k :: 0 <= k < |kept| ==> all[k + 1] == kept[k];
        assert forall k :: 0 < k < |all| ==> all[k] == kept[k - 1];
        assert all[0].frame == log[0].frame;
        assert Has(all, frame) <==> log[0].frame == frame || Has(kept, frame);
      } else {
        assert [] + kept == kept;
      }
    }
  }

  lemma {:induction false} RetainedTwice(log: seq<Heard>, earlier: nat, later: nat)
    requires earlier <= later
    ensures Retained(Retained(log, earlier), later) == Retained(log, later)
    decreases |log|
  {
    if log != [] {
      RetainedTwice(log[1..], earlier, later);
      if Holds(log[0], earlier) {
        var kept := [log[0]] + Retained(log[1..], earlier);
        assert kept[1..] == Retained(log[1..], earlier);
      } else {
        assert [] + Retained(log[1..], earlier) == Retained(log[1..], earlier);
      }
    }
  }

  /** Within a call the short memory decides as the whole log would. */
  lemma {:induction false} FramesFollowRule(log: seq<Heard>, clock: nat, frames: seq<Frame>)
    ensures var (after, out) := FilterFrames(Retained(log, clock), clock, frames);
            && log + out == Admitted(log, clock, frames)
            && after == Retained(Admitted(log, clock, frames), clock)
    decreases |frames|
  {
    hide CheckedFrame, Retained, Has, HeldBack, Outcome;
    if frames == [] {
      assert log + [] == log;
    } else {
      OutcomeIsChecked(frames[0]);
      match CheckedFrame(frames[0]) {
        case None => FramesFollowRule(log, clock, frames[1..]);
        case Some(frame) =>
          RetainedHas(log, clock, frame);
          if HeldBack(log, clock, frame) {
            FramesFollowRule(log, clock, frames[1..]);
          } else {
            var e := Heard(clock, frame);
            RetainedAppend(log, [e], clock);
            KeepsNew(e);
            FramesFollowRule(log + [e], clock, frames[1..]);
            var out := FilterFrames(Retained(log + [e], clock), clock, frames[1..]).1;
            assert (log + [e]) + out == log + ([e] + out);
          }
      }
    }
  }

  lemma KeepsNew(e: Heard)
    ensures Retained([e], e.clock) == [e]
  {
    assert [e][1..] == [] && Retained([], e.clock) == [];
  }

  lemma {:induction false} RunFollowsRule(f: Filter, log: seq<Heard>, calls: seq<Delivery>)
    requires f.recent == Retained(log, f.clock)
    ensures log + RunFilter(f, calls) == AdmittedRun(log, f.clock, calls)
    decreases |calls|
  {
    hide Retained, Admitted, FilterFrames;
    if calls == [] {
      assert log + [] == log;
    } else {
      var clock := f.clock + calls[0].samples;
      RetainedTwice(log, f.clock, clock);
      FramesFollowRule(log, clock, calls[0].frames);
      var (f1, out) := Processed(f, calls[0]);
      RunFollowsRule(f1, log + out, calls[1..]);
      assert (log + out) + RunFilter(f1, calls[1..]) == log + (out + RunFilter(f1, calls[1..]));
    }
  }

  /** The filter is exact: over every run it emits precisely what the rule admits. */
  lemma FilterIsExact(calls: seq<Delivery>)
    ensures RunFilter(Filter([], 0), calls) == AdmittedRun([], 0, calls)
  {
    RunFollowsRule(Filter([], 0), [], calls);
    assert [] + RunFilter(Filter([], 0), calls) == RunFilter(Filter([], 0), calls);
  }

  lemma OneFrame(recent: seq<Heard>, clock: nat, f: Frame)
    ensures FilterFrames(recent, clock, [f]).1
         == match CheckedFrame(f)
            case None => []
            case Some(r) => if Has(recent, r) then [] else [Heard(clock, r)]
  {
    hide CheckedFrame, Has;
    assert [f][1..] == [];
    assert FilterFrames(recent, clock, []) == (recent, []);
    match CheckedFrame(f)
    case None =>
    case Some(r) =>
      var e := Heard(clock, r);
      assert FilterFrames(recent + [e], clock, []) == (recent + [e], []);
      assert [e] + [] == [e];
  }

  /** One frame of a call: it goes out as what it becomes, unless the memory of recent frames holds that. */
  lemma FrameGoesOut(recent: seq<Heard>, clock: nat, f: Frame, r: Frame)
    ensures FilterFrames(recent, clock, [f]).1 == [Heard(clock, r)]
       <==> Becomes(f, r) && forall k :: 0 <= k < |recent| ==> recent[k].frame != r
    ensures FilterFrames(recent, clock, [f]).1 == []
       <==> forall q :: Becomes(f, q) ==> exists k :: 0 <= k < |recent| && recent[k].frame == q
  {
    OneFrame(recent, clock, f);
    forall q
      ensures CheckedFrame(f) == Some(q) <==> Becomes(f, q)
    {
      CheckedIsExact(f, q);
    }
    hide Becomes, CheckedFrame, FilterFrames;
  }

  /** Clocks do not run backwards, and equal frames are far apart. */
  ghost predicate FarApart(log: seq<Heard>, clock: nat) {
    && (forall k :: 0 <= k < |log| ==> log[k].clock <= clock)
    && forall j, k :: 0 <= j < k < |log| && log[j].frame == log[k].frame ==> log[j].clock + 48000 <= log[k].clock
  }

  lemma {:induction false} AdmittedFarApart(log: seq<Heard>, clock: nat, frames: seq<Frame>)
    requires FarApart(log, clock)
    ensures FarApart(Admitted(log, clock, frames), clock)
    decreases |frames|
  {
    hide Outcome;
    if frames != [] {
      var next := match Outcome(frames[0])
        case None => log
        case Some(frame) => if HeldBack(log, clock, frame) then log else log + [Heard(clock, frame)];
      AdmittedFarApart(next, clock, frames[1..]);
    }
  }

  lemma {:induction false} RunFarApart(log: seq<Heard>, clock: nat, calls: seq<Delivery>) returns (end: nat)
    requires FarApart(log, clock)
    ensures FarApart(AdmittedRun(log, clock, calls), end)
    decreases |calls|
  {
    end := clock;
    if calls != [] {
      var later := clock + calls[0].samples;
      assert FarApart(log, later);
      AdmittedFarApart(log, later, calls[0].frames);
      hide FarApart, Admitted;
      end := RunFarApart(Admitted(log, later, calls[0].frames), later, calls[1..]);
    }
  }

  /** Two equal emissions of any run are at least 48000 samples apart. */
  lemma EqualEmissionsAreFarApart(calls: seq<Delivery>, j: nat, k: nat)
    requires j < k < |RunFilter(Filter([], 0), calls)|
    ensures var out := RunFilter(Filter([], 0), calls);
            out[j].frame == out[k].frame ==> out[j].clock + 48000 <= out[k].clock
  {
    FilterIsExact(calls);
    var end := RunFarApart([], 0, calls);
  }

  // ---- From one station to the other ----

  /** A message sent as a UI frame arrives as the same packet: whatever else is submitted, however the
      sending is cut up and whatever modes were set before it, once the queue is empty every accepted frame has been
      received, passes the check unmended, and parses to what was written. */
  lemma MessageArrives(mode: Mode, ops: seq<Op>, i: nat, source: Ax25.Call, destination: Ax25.Call, path: seq<Hop>, info: Text)
    requires var w := Run(Begin(mode), ops); w.tx.pending == [] && i < |w.accepted|
    requires Canonical(source) && Canonical(destination) && CanonicalPath(path) && |path| <= 8
    requires Run(Begin(mode), ops).accepted[i]
          == UiFrame(Written(source), Written(destination), WrittenPath(path), info)
    ensures var w := Run(Begin(mode), ops);
            var received := Received(w.tx.mode, w.samples);
            && |received| == |w.accepted|
            && CheckedFrame(received[i]) == Some(received[i])
            && ParseFrame(received[i])
               == Some(PacketOf(Written(source), Written(destination), WrittenPath(path), info))
  {
    var w := Run(Begin(mode), ops);
    var frame := w.accepted[i];
    EveryAcceptedFrameArrives(mode, ops);
    FrameRoundTrip(source, destination, path, info, LittleEndian(X25(frame)));
    assert frame != [];
    WithFcsOk(frame);
    hide Run, Received, ParseFrame, FcsOk, UiFrame, X25;
  }
}
