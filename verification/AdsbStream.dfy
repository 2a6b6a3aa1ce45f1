/** The receiver of `adsb.rs` on a stream of samples: the scan over candidate positions, the sliding
    buffer between calls, and what cutting the stream into blocks can change. */
module AdsbStream {
  import opened Wrappers
  import opened Bytes
  import opened ModeS
  import opened Chase
  import opened Cpr
  import opened Adsb

  type Samples = seq<real>

  const SILENT := Radio([], [])

  /** Start positions whose whole frame fits in `n` samples are those below this. */
  function ScanLimit(cfg: Config, n: nat): nat {
    if n + 1 > cfg.frameSpan then n + 1 - cfg.frameSpan else 0
  }

  /** One candidate position: the receiver with the frame found there taken, if there is one. */
  function TryAt(cfg: Config, window: Samples, at: nat, radio: Radio): (r: Option<Radio>)
    requires ValidConfig(cfg)
    ensures r.Some? ==> |r.value.log| == |radio.log| + 1 && r.value.log[..|radio.log|] == radio.log
    ensures r.Some? ==> var e := r.value.log[|radio.log|]; e.stamp == at && e.consumed > 0
  {
    var phases := cfg.screen(window);
    if phases == {} then None else
    var hit :- FindHit(cfg, radio.cache, window, phases, at, 0, None);
    assert Believable(cfg, radio.cache, hit, at) by {
      HitIsBelievable(cfg, radio.cache, window, phases, at, 0, None);
    }
    Some(Accepted(cfg, radio, hit, at))
  }

  /** The scan of positions `at` up to `limit`; a taken frame is skipped whole. Also where it ends. */
  function Scan(cfg: Config, stream: Samples, at: nat, limit: nat, radio: Radio): (r: (Radio, nat))
    requires ValidConfig(cfg) && limit <= ScanLimit(cfg, |stream|)
    ensures r.1 >= limit && r.1 >= at
    decreases limit - at
  {
    if at >= limit then (radio, at) else
    match TryAt(cfg, stream[at..at + cfg.frameSpan], at, radio)
    case None => Scan(cfg, stream, at + 1, limit, radio)
    case Some(radio') => Scan(cfg, stream, at + radio'.log[|radio.log|].consumed, limit, radio')
  }

  /** One call of `process` after the samples `stream`. */
  function Processed(cfg: Config, stream: Samples, radio: Radio, block: Samples): Radio
    requires ValidConfig(cfg)
  {
    Scan(cfg, stream + block, ScanLimit(cfg, |stream|), ScanLimit(cfg, |stream + block|), radio).0
  }

  function RunBlocks(cfg: Config, stream: Samples, radio: Radio, blocks: seq<Samples>): Radio
    requires ValidConfig(cfg)
    decreases |blocks|
  {
    if blocks == [] then radio
    else RunBlocks(cfg, stream + blocks[0], Processed(cfg, stream, radio, blocks[0]), blocks[1..])
  }

  function Flatten(blocks: seq<Samples>): Samples {
    if blocks == [] then [] else blocks[0] + Flatten(blocks[1..])
  }

  // ---- Every run keeps the receiver's invariant ----

  lemma TryKeepsRadio(cfg: Config, window: Samples, at: nat, radio: Radio)
    requires ValidConfig(cfg) && RadioOk(cfg, radio, at)
    ensures TryAt(cfg, window, at, radio).Some? ==> RadioOk(cfg, TryAt(cfg, window, at, radio).value, at + 1)
  {
    hide RadioOk, FindHit, Accepted, Believable;
    var phases := cfg.screen(window);
    HitIsBelievable(cfg, radio.cache, window, phases, at, 0, None);
    var hit := FindHit(cfg, radio.cache, window, phases, at, 0, None);
    if phases != {} && hit.Some? {
      AcceptKeepsRadio(cfg, radio, hit.value, at);
    }
  }

  lemma LaterIsFine(cfg: Config, radio: Radio, now: nat, later: nat)
    requires RadioOk(cfg, radio, now) && now <= later
    ensures RadioOk(cfg, radio, later)
  {
    hide CacheOk, CacheMatches, MessageOk;
  }

  lemma {:induction false} ScanKeepsRadio(cfg: Config, stream: Samples, at: nat, limit: nat, radio: Radio)
    requires ValidConfig(cfg) && limit <= ScanLimit(cfg, |stream|) && at <= limit && RadioOk(cfg, radio, at)
    ensures RadioOk(cfg, Scan(cfg, stream, at, limit, radio).0, limit)
    decreases limit - at
  {
    hide RadioOk, TryAt;
    if at < limit {
      var window := stream[at..at + cfg.frameSpan];
      TryKeepsRadio(cfg, window, at, radio);
      match TryAt(cfg, window, at, radio) {
        case None =>
          LaterIsFine(cfg, radio, at, at + 1);
          ScanKeepsRadio(cfg, stream, at + 1, limit, radio);
        case Some(radio') =>
          var next := at + radio'.log[|radio.log|].consumed;
          if next <= limit {
            LaterIsFine(cfg, radio', at + 1, next);
            ScanKeepsRadio(cfg, stream, next, limit, radio');
          } else {
            LaterIsFine(cfg, radio', at + 1, limit);
          }
      }
    }
  }

  lemma {:induction false} BlocksKeepRadio(cfg: Config, stream: Samples, radio: Radio, blocks: seq<Samples>)
    requires ValidConfig(cfg) && RadioOk(cfg, radio, ScanLimit(cfg, |stream|))
    ensures RadioOk(cfg, RunBlocks(cfg, stream, radio, blocks), ScanLimit(cfg, |stream + Flatten(blocks)|))
    decreases |blocks|
  {
    hide RadioOk, Scan;
    if blocks == [] {
      assert stream + Flatten(blocks) == stream;
    } else {
      var more := stream + blocks[0];
      ScanKeepsRadio(cfg, more, ScanLimit(cfg, |stream|), ScanLimit(cfg, |more|), radio);
      BlocksKeepRadio(cfg, more, Processed(cfg, stream, radio, blocks[0]), blocks[1..]);
      assert more + Flatten(blocks[1..]) == stream + Flatten(blocks);
    }
  }

  /** Trust safety and the cache invariant over every run, however the stream is cut: each
      message proves its own address or follows, within the age allowed, one that proved the same
      address; only proved messages take cache slots; stamps rise; every airborne position comes
      from the latest fixes in the log; and the cache is bounded, distinct and proven. */
  lemma EveryRunIsSafe(cfg: Config, blocks: seq<Samples>)
    requires ValidConfig(cfg)
    ensures RadioOk(cfg, RunBlocks(cfg, [], SILENT, blocks), ScanLimit(cfg, |Flatten(blocks)|))
  {
    assert ScanLimit(cfg, 0) == 0;
    BlocksKeepRadio(cfg, [], SILENT, blocks);
    assert [] + Flatten(blocks) == Flatten(blocks);
  }

  // ---- What cutting the stream can change ----

  /** The first sample after the last message's frame. */
  function End(log: seq<Event>): nat {
    if log == [] then 0 else log[|log| - 1].stamp + log[|log| - 1].consumed
  }

  /** No message starts inside the frame of the one before it. */
  ghost predicate NoOverlap(log: seq<Event>) {
    forall i :: 0 < i < |log| ==> log[i - 1].stamp + log[i - 1].consumed <= log[i].stamp
  }

  lemma {:induction false} ScanExtends(cfg: Config, stream: Samples, at: nat, limit: nat, radio: Radio)
    requires ValidConfig(cfg) && limit <= ScanLimit(cfg, |stream|)
    ensures radio.log <= Scan(cfg, stream, at, limit, radio).0.log
    decreases limit - at
  {
    hide TryAt;
    if at < limit {
      match TryAt(cfg, stream[at..at + cfg.frameSpan], at, radio) {
        case None => ScanExtends(cfg, stream, at + 1, limit, radio);
        case Some(radio') =>
          assert radio.log <= radio'.log;
          ScanExtends(cfg, stream, at + radio'.log[|radio.log|].consumed, limit, radio');
      }
    }
  }

  /** A single scan never overlaps, and ends at its limit or at the end of its last frame. */
  lemma {:induction false} ScanNeverOverlaps(cfg: Config, stream: Samples, at: nat, limit: nat, radio: Radio)
    requires ValidConfig(cfg) && limit <= ScanLimit(cfg, |stream|)
    requires NoOverlap(radio.log) && End(radio.log) <= at
    ensures var (radio', end) := Scan(cfg, stream, at, limit, radio);
            && NoOverlap(radio'.log) && End(radio'.log) <= end
            && (at <= limit ==> end == limit || end == End(radio'.log))
    decreases limit - at
  {
    hide TryAt;
    if at < limit {
      match TryAt(cfg, stream[at..at + cfg.frameSpan], at, radio) {
        case None =>
          ScanNeverOverlaps(cfg, stream, at + 1, limit, radio);
        case Some(radio') =>
          var next := at + radio'.log[|radio.log|].consumed;
          assert forall i :: 0 <= i < |radio.log| ==> radio'.log[i] == radio'.log[..|radio.log|][i];
          ScanNeverOverlaps(cfg, stream, next, limit, radio');
      }
    }
  }

  /** A scan can be stopped and taken up where it ended. */
  lemma {:induction false} ScanResumes(cfg: Config, stream: Samples, at: nat, mid: nat, limit: nat, radio: Radio)
    requires ValidConfig(cfg) && mid <= limit <= ScanLimit(cfg, |stream|)
    ensures var (radio', end) := Scan(cfg, stream, at, mid, radio);
            Scan(cfg, stream, at, limit, radio) == Scan(cfg, stream, end, limit, radio')
    decreases mid - at
  {
    hide TryAt;
    if at < mid {
      match TryAt(cfg, stream[at..at + cfg.frameSpan], at, radio) {
        case None => ScanResumes(cfg, stream, at + 1, mid, limit, radio);
        case Some(radio') =>
          ScanResumes(cfg, stream, at + radio'.log[|radio.log|].consumed, mid, limit, radio');
      }
    }
  }

  /** Later samples do not change an earlier scan. */
  lemma {:induction false} ScanPrefix(cfg: Config, stream: Samples, more: Samples, at: nat, limit: nat, radio: Radio)
    requires ValidConfig(cfg) && limit <= ScanLimit(cfg, |stream|)
    ensures limit <= ScanLimit(cfg, |stream + more|)
    ensures Scan(cfg, stream + more, at, limit, radio) == Scan(cfg, stream, at, limit, radio)
    decreases limit - at
  {
    hide TryAt;
    if at < limit {
      assert (stream + more)[at..at + cfg.frameSpan] == stream[at..at + cfg.frameSpan];
      match TryAt(cfg, stream[at..at + cfg.frameSpan], at, radio) {
        case None => ScanPrefix(cfg, stream, more, at + 1, limit, radio);
        case Some(radio') =>
          ScanPrefix(cfg, stream, more, at + radio'.log[|radio.log|].consumed, limit, radio');
      }
    }
  }

  /** A message that starts inside the frame before it stays an overlap in every longer log. */
  lemma OverlapStays(log: seq<Event>, e: Event, longer: seq<Event>)
    requires log != [] && e.stamp < End(log) && log + [e] <= longer
    ensures !NoOverlap(longer)
  {
    var n := |log|;
    assert longer[n] == (log + [e])[n] == e && longer[n - 1] == (log + [e])[n - 1] == log[n - 1];
  }

  /** Looking again at positions inside the last frame changes nothing unless it finds a message
      that overlaps. */
  lemma {:induction false} RescanIsIdle(cfg: Config, stream: Samples, at: nat, end: nat, limit: nat, radio: Radio)
    requires ValidConfig(cfg) && limit <= ScanLimit(cfg, |stream|) && at <= end
    requires at == end || (radio.log != [] && end == End(radio.log))
    ensures NoOverlap(Scan(cfg, stream, at, limit, radio).0.log) ==>
            Scan(cfg, stream, at, limit, radio).0 == Scan(cfg, stream, end, limit, radio).0
    decreases end - at
  {
    hide TryAt;
    if at < limit && at < end {
      match TryAt(cfg, stream[at..at + cfg.frameSpan], at, radio) {
        case None => RescanIsIdle(cfg, stream, at + 1, end, limit, radio);
        case Some(radio') =>
          var e := radio'.log[|radio.log|];
          ScanExtends(cfg, stream, at + e.consumed, limit, radio');
          assert radio'.log == radio.log + [e];
          OverlapStays(radio.log, e, Scan(cfg, stream, at, limit, radio).0.log);
      }
    }
  }

  lemma OverlapPrefix(log: seq<Event>, longer: seq<Event>)
    requires log <= longer && NoOverlap(longer)
    ensures NoOverlap(log)
  {
    assert forall i :: 0 <= i < |log| ==> log[i] == longer[i];
  }

  lemma {:induction false} BlocksExtend(cfg: Config, stream: Samples, radio: Radio, blocks: seq<Samples>)
    requires ValidConfig(cfg)
    ensures radio.log <= RunBlocks(cfg, stream, radio, blocks).log
    decreases |blocks|
  {
    hide Scan;
    if blocks != [] {
      var more := stream + blocks[0];
      ScanExtends(cfg, more, ScanLimit(cfg, |stream|), ScanLimit(cfg, |more|), radio);
      BlocksExtend(cfg, more, Processed(cfg, stream, radio, blocks[0]), blocks[1..]);
    }
  }

  /** The receiver after `stream` in one block: its state and where the scan ended. */
  function InOne(cfg: Config, stream: Samples): (Radio, nat)
    requires ValidConfig(cfg)
  {
    Scan(cfg, stream, 0, ScanLimit(cfg, |stream|), SILENT)
  }

  lemma InOneGrows(cfg: Config, stream: Samples, block: Samples)
    requires ValidConfig(cfg)
    ensures var (radio, end) := InOne(cfg, stream);
            InOne(cfg, stream + block) == Scan(cfg, stream + block, end, ScanLimit(cfg, |stream + block|), radio)
    ensures var (radio, end) := InOne(cfg, stream);
            var limit := ScanLimit(cfg, |stream|);
            end == limit || (radio.log != [] && end == End(radio.log) && end >= limit)
  {
    hide Scan;
    ScanPrefix(cfg, stream, block, 0, ScanLimit(cfg, |stream|), SILENT);
    ScanResumes(cfg, stream + block, 0, ScanLimit(cfg, |stream|), ScanLimit(cfg, |stream + block|), SILENT);
    ScanNeverOverlaps(cfg, stream, 0, ScanLimit(cfg, |stream|), SILENT);
  }

  /** As long as nothing overlaps, block by block is the same as in one block. */
  lemma {:induction false} BlocksAgree(cfg: Config, stream: Samples, blocks: seq<Samples>)
    requires ValidConfig(cfg)
    ensures var split := RunBlocks(cfg, stream, InOne(cfg, stream).0, blocks);
            NoOverlap(split.log) ==> split == InOne(cfg, stream + Flatten(blocks)).0
    decreases |blocks|
  {
    hide Scan, NoOverlap;
    var (radio, end) := InOne(cfg, stream);
    if blocks == [] {
      assert stream + Flatten(blocks) == stream;
    } else {
      var block := blocks[0];
      var more, limit := stream + block, ScanLimit(cfg, |stream|);
      var next := Processed(cfg, stream, radio, block);
      InOneGrows(cfg, stream, block);
      RescanIsIdle(cfg, more, limit, end, ScanLimit(cfg, |more|), radio);
      BlocksExtend(cfg, more, next, blocks[1..]);
      if NoOverlap(RunBlocks(cfg, stream, radio, blocks).log) {
        OverlapPrefix(next.log, RunBlocks(cfg, stream, radio, blocks).log);
      }
      BlocksAgree(cfg, more, blocks[1..]);
      assert more + Flatten(blocks[1..]) == stream + Flatten(blocks);
    }
  }

  /** Cutting a stream into blocks leaves the messages as they are exactly when the cut run emits
      no message that starts inside the frame of the one before it. */
  lemma CuttingIsExact(cfg: Config, blocks: seq<Samples>)
    requires ValidConfig(cfg)
    ensures var cut, whole := RunBlocks(cfg, [], SILENT, blocks), RunBlocks(cfg, [], SILENT, [Flatten(blocks)]);
            && (cut.log == whole.log <==> NoOverlap(cut.log))
            && (NoOverlap(cut.log) ==> cut == whole)
  {
    hide NoOverlap;
    assert InOne(cfg, []).0 == SILENT;
    BlocksAgree(cfg, [], blocks);
    assert [] + Flatten(blocks) == Flatten(blocks);
    OneBlock(cfg, Flatten(blocks));
    NothingOverlaps();
    ScanNeverOverlaps(cfg, Flatten(blocks), 0, ScanLimit(cfg, |Flatten(blocks)|), SILENT);
  }

  lemma NothingOverlaps()
    ensures NoOverlap([]) && End([]) == 0
  {}

  lemma OneBlock(cfg: Config, stream: Samples)
    requires ValidConfig(cfg)
    ensures RunBlocks(cfg, [], SILENT, [stream]) == InOne(cfg, stream).0
  {
    hide Scan;
    assert [stream][1..] == [] && [] + stream == stream;
    assert ScanLimit(cfg, 0) == 0;
  }

  /** In the single-block run, nothing is found at the positions that lie past the limit but inside the frame that
      reaches over it. */
  ghost predicate QuietAt(cfg: Config, whole: Samples, limit: nat)
    requires ValidConfig(cfg) && limit <= ScanLimit(cfg, |whole|)
  {
    var (radio, end) := Scan(cfg, whole, 0, limit, SILENT);
    NothingIn(cfg, whole, limit, if end < ScanLimit(cfg, |whole|) then end else ScanLimit(cfg, |whole|), radio)
  }

  ghost predicate NothingIn(cfg: Config, stream: Samples, from: nat, to: nat, radio: Radio)
    requires ValidConfig(cfg) && to <= ScanLimit(cfg, |stream|)
  {
    forall p: nat :: from <= p < to ==> NothingAt(cfg, stream, p, radio)
  }

  ghost predicate NothingAt(cfg: Config, stream: Samples, p: nat, radio: Radio)
    requires ValidConfig(cfg) && p < ScanLimit(cfg, |stream|)
  {
    TryAt(cfg, stream[p..p + cfg.frameSpan], p, radio) == None
  }

  /** Quiet at every cut: `done` samples are behind the next block. */
  ghost predicate QuietCuts(cfg: Config, whole: Samples, done: nat, blocks: seq<Samples>)
    requires ValidConfig(cfg) && done + |Flatten(blocks)| == |whole|
    decreases |blocks|
  {
    blocks == [] ||
    (QuietAt(cfg, whole, ScanLimit(cfg, done)) && QuietCuts(cfg, whole, done + |blocks[0]|, blocks[1..]))
  }

  lemma {:induction false} SkipsNothing(cfg: Config, stream: Samples, at: nat, stop: nat, limit: nat, radio: Radio)
    requires ValidConfig(cfg) && at <= stop && limit <= ScanLimit(cfg, |stream|)
    requires NothingIn(cfg, stream, at, if stop < limit then stop else limit, radio)
    ensures Scan(cfg, stream, at, limit, radio).0 == Scan(cfg, stream, stop, limit, radio).0
    decreases if at < stop then stop - at else 0
  {
    hide TryAt;
    if at < stop && at < limit {
      assert NothingAt(cfg, stream, at, radio);
      SkipsNothing(cfg, stream, at + 1, stop, limit, radio);
    }
  }

  lemma {:induction false} FindsOverlap(cfg: Config, stream: Samples, at: nat, stop: nat, limit: nat, radio: Radio)
    requires ValidConfig(cfg) && limit <= ScanLimit(cfg, |stream|) && stop <= limit
    requires !NothingIn(cfg, stream, at, stop, radio) && radio.log != [] && stop <= End(radio.log)
    ensures !NoOverlap(Scan(cfg, stream, at, limit, radio).0.log)
    decreases if at < stop then stop - at else 0
  {
    hide TryAt, NoOverlap, End;
    assert NothingAt(cfg, stream, at, radio) <==> TryAt(cfg, stream[at..at + cfg.frameSpan], at, radio) == None;
    match TryAt(cfg, stream[at..at + cfg.frameSpan], at, radio) {
      case None => FindsOverlap(cfg, stream, at + 1, stop, limit, radio);
      case Some(radio') =>
        var e := radio'.log[|radio.log|];
        ScanExtends(cfg, stream, at + e.consumed, limit, radio');
        assert radio'.log == radio.log + [e];
        OverlapStays(radio.log, e, Scan(cfg, stream, at, limit, radio).0.log);
    }
  }

  /** The next block, seen in the whole stream: it overlaps unless the cut is quiet up to the next limit, and then it
      leaves what the single-block run has at that limit. */
  lemma {:induction false} NextBlock(cfg: Config, whole: Samples, limit: nat, next: nat)
    requires ValidConfig(cfg) && limit <= next <= ScanLimit(cfg, |whole|)
    ensures var (radio, end) := Scan(cfg, whole, 0, limit, SILENT);
            var got := Scan(cfg, whole, limit, next, radio).0;
            if NothingIn(cfg, whole, limit, if end < next then end else next, radio)
            then got == Scan(cfg, whole, 0, next, SILENT).0
            else !NoOverlap(got.log)
  {
    hide TryAt, NoOverlap, NothingIn, End;
    var (radio, end) := Scan(cfg, whole, 0, limit, SILENT);
    NothingOverlaps();
    ScanNeverOverlaps(cfg, whole, 0, limit, SILENT);
    ScanResumes(cfg, whole, 0, limit, next, SILENT);
    hide Scan;
    var to := if end < next then end else next;
    if NothingIn(cfg, whole, limit, to, radio) {
      SkipsNothing(cfg, whole, limit, end, next, radio);
    } else {
      NothingMeansSomething(cfg, whole, limit, to, radio);
      FindsOverlap(cfg, whole, limit, to, next, radio);
    }
  }

  lemma NothingMeansSomething(cfg: Config, stream: Samples, from: nat, to: nat, radio: Radio)
    requires ValidConfig(cfg) && to <= ScanLimit(cfg, |stream|) && !NothingIn(cfg, stream, from, to, radio)
    ensures from < to
  {}

  /** A cut that is quiet up to the next limit is quiet altogether if the next cut is. */
  lemma {:induction false} QuietGoesOn(cfg: Config, whole: Samples, limit: nat, next: nat)
    requires ValidConfig(cfg) && limit <= next <= ScanLimit(cfg, |whole|)
    requires next == ScanLimit(cfg, |whole|) || QuietAt(cfg, whole, next)
    ensures var (radio, end) := Scan(cfg, whole, 0, limit, SILENT);
            QuietAt(cfg, whole, limit) <==> NothingIn(cfg, whole, limit, if end < next then end else next, radio)
  {
    hide TryAt;
    var (radio, end) := Scan(cfg, whole, 0, limit, SILENT);
    if end > next {
      ScanResumes(cfg, whole, 0, limit, next, SILENT);
      ScanEnds(cfg, whole, end, next, radio);
      assert Scan(cfg, whole, 0, next, SILENT) == (radio, end);
    }
    hide Scan;
  }

  lemma {:induction false} QuietCutsAgree(cfg: Config, stream: Samples, blocks: seq<Samples>)
    requires ValidConfig(cfg)
    ensures var whole := stream + Flatten(blocks);
            NoOverlap(RunBlocks(cfg, stream, InOne(cfg, stream).0, blocks).log)
            <==> QuietCuts(cfg, whole, |stream|, blocks)
    decreases |blocks|
  {
    hide Scan, NoOverlap, QuietAt, NothingIn;
    var whole := stream + Flatten(blocks);
    if blocks == [] {
      NothingOverlaps();
      ScanNeverOverlaps(cfg, stream, 0, ScanLimit(cfg, |stream|), SILENT);
    } else {
      var block, rest := blocks[0], blocks[1..];
      var more := stream + block;
      var limit, next := ScanLimit(cfg, |stream|), ScanLimit(cfg, |more|);
      var radio := InOne(cfg, stream).0;
      var got := Processed(cfg, stream, radio, block);
      assert whole == more + Flatten(rest) && whole == stream + (block + Flatten(rest));
      ScanPrefix(cfg, stream, block + Flatten(rest), 0, limit, SILENT);
      ScanPrefix(cfg, more, Flatten(rest), limit, next, radio);
      ScanPrefix(cfg, more, Flatten(rest), 0, next, SILENT);
      NextBlock(cfg, whole, limit, next);
      BlocksExtend(cfg, more, got, rest);
      if NoOverlap(RunBlocks(cfg, stream, radio, blocks).log) {
        OverlapPrefix(got.log, RunBlocks(cfg, stream, radio, blocks).log);
      }
      QuietCutsAgree(cfg, more, rest);
      QuietStep(cfg, whole, |stream|, blocks);
    }
  }

  /** The first cut of several: quiet up to the next limit is all that the later cuts do not say. */
  lemma {:induction false} QuietStep(cfg: Config, whole: Samples, done: nat, blocks: seq<Samples>)
    requires ValidConfig(cfg) && blocks != [] && done + |Flatten(blocks)| == |whole|
    ensures var limit, next := ScanLimit(cfg, done), ScanLimit(cfg, done + |blocks[0]|);
            var (radio, end) := Scan(cfg, whole, 0, limit, SILENT);
            QuietCuts(cfg, whole, done, blocks)
            <==> NothingIn(cfg, whole, limit, if end < next then end else next, radio)
                 && QuietCuts(cfg, whole, done + |blocks[0]|, blocks[1..])
  {
    hide Scan, QuietAt, NothingIn;
    var limit, next := ScanLimit(cfg, done), ScanLimit(cfg, done + |blocks[0]|);
    assert blocks[1..] == [] ==> Flatten(blocks[1..]) == [];
    if QuietCuts(cfg, whole, done + |blocks[0]|, blocks[1..]) {
      QuietGoesOn(cfg, whole, limit, next);
    }
  }

  /** The same condition on the single-block run and the cut points: cutting changes nothing exactly when, wherever a
      frame of that run reaches over a cut's scan limit, nothing is found from the limit to the frame's end. */
  lemma CuttingIsQuiet(cfg: Config, blocks: seq<Samples>)
    requires ValidConfig(cfg)
    ensures RunBlocks(cfg, [], SILENT, blocks).log == RunBlocks(cfg, [], SILENT, [Flatten(blocks)]).log
       <==> QuietCuts(cfg, Flatten(blocks), 0, blocks)
  {
    hide NoOverlap, RunBlocks, QuietCuts;
    assert InOne(cfg, []).0 == SILENT;
    assert [] + Flatten(blocks) == Flatten(blocks);
    CuttingIsExact(cfg, blocks);
    QuietCutsAgree(cfg, [], blocks);
  }

  /** No accepted frame reaches past the scan limit of its block. */
  ghost predicate NeverCrosses(cfg: Config, stream: Samples, radio: Radio, blocks: seq<Samples>)
    requires ValidConfig(cfg)
    decreases |blocks|
  {
    blocks == [] ||
    (var more := stream + blocks[0];
     && Scan(cfg, more, ScanLimit(cfg, |stream|), ScanLimit(cfg, |more|), radio).1 == ScanLimit(cfg, |more|)
     && NeverCrosses(cfg, more, Processed(cfg, stream, radio, blocks[0]), blocks[1..]))
  }

  lemma {:induction false} CrossingIsTheOnlyWay(cfg: Config, stream: Samples, radio: Radio, blocks: seq<Samples>)
    requires ValidConfig(cfg) && NeverCrosses(cfg, stream, radio, blocks)
    requires NoOverlap(radio.log) && End(radio.log) <= ScanLimit(cfg, |stream|)
    ensures NoOverlap(RunBlocks(cfg, stream, radio, blocks).log)
    decreases |blocks|
  {
    hide Scan, NoOverlap;
    if blocks != [] {
      var more := stream + blocks[0];
      ScanNeverOverlaps(cfg, more, ScanLimit(cfg, |stream|), ScanLimit(cfg, |more|), radio);
      CrossingIsTheOnlyWay(cfg, more, Processed(cfg, stream, radio, blocks[0]), blocks[1..]);
    }
  }

  /** Streaming equivalence: with no frame across a scan limit, any cutting gives the same messages. */
  lemma CleanCutsAreInvisible(cfg: Config, blocks: seq<Samples>)
    requires ValidConfig(cfg) && NeverCrosses(cfg, [], SILENT, blocks)
    ensures RunBlocks(cfg, [], SILENT, blocks) == RunBlocks(cfg, [], SILENT, [Flatten(blocks)])
  {
    hide NoOverlap, RunBlocks, NeverCrosses;
    NothingOverlaps();
    CrossingIsTheOnlyWay(cfg, [], SILENT, blocks);
    CuttingIsExact(cfg, blocks);
  }

  // ---- Cutting does matter ----

  const PHASES: nat := 8

  /** The first sample of a chip at 2.4 MHz, 1.2 samples to the chip, for a sampling phase in eighths of a sample. */
  function ChipStart(chip: nat, phase: nat): nat {
    if chip <= Slots(LONG_BITS) then (48 * chip + 5 * phase) / 40 else 0
  }

  function FrameSamples(phase: nat): nat {
    if phase == 0 then 288 else 289
  }

  /** The eight receivers of the channel, with their frame geometry. */
  function Geometry(preambleOk: nat -> Samples -> bool, slice: nat -> Samples -> Sliced, screen: Samples -> set<nat>): Config {
    Config(false, None, 24000000, 144000000,
           seq(PHASES, p requires 0 <= p < PHASES => PhaseReceiver(preambleOk(p), slice(p), p)), FrameSamples(1), screen)
  }

  function PhaseReceiver(preambleOk: Samples -> bool, slice: Samples -> Sliced, phase: nat): Receiver {
    Receiver(FrameSamples(phase), preambleOk, slice, chip => ChipStart(chip, phase))
  }

  lemma PhaseReceiverIsValid(preambleOk: Samples -> bool, slice: Samples -> Sliced, phase: nat)
    requires phase < PHASES && forall w :: Whole(slice(w))
    ensures ValidReceiver(PhaseReceiver(preambleOk, slice, phase), FrameSamples(1))
  {
    var r := PhaseReceiver(preambleOk, slice, phase);
    forall chip
      ensures r.start(chip) <= r.span
    {
      assert r.start(chip) == ChipStart(chip, phase);
    }
    assert r.start(Slots(SHORT_BITS)) == ChipStart(128, phase) && r.start(Slots(LONG_BITS)) == ChipStart(240, phase);
  }

  /** A squitter of format 17, otherwise zero, with its parity. */
  function Squitter(): Bits {
    WithOverlay([true, false, false, false, true] + seq(83, _ => false), 0)
  }

  lemma SquitterIsGood()
    ensures |Squitter()| == LONG_BITS && Df(Squitter()) == 17 && OverlayOf(Squitter()) == 0
  {
    var body := [true, false, false, false, true] + seq(83, _ => false);
    OverlayComesBack(body, 0);
    var head := Squitter()[..DF_BITS];
    hide OverlayOf, WithOverlay;
    assert head == [true, false, false, false, true] by {
      assert WithOverlay(body, 0)[..88] == body by { BodyStays(body); }
    }
    SeventeenBits();
  }

  lemma BodyStays(body: Bits)
    ensures |body| <= |WithOverlay(body, 0)| && WithOverlay(body, 0)[..|body|] == body
  {}

  lemma SeventeenBits()
    ensures Value([true, false, false, false, true]) == 17
  {
    var b := [true, false, false, false, true];
    assert b[..4] == [true, false, false, false] && b[..4][..3] == [true, false, false] && b[..4][..3][..2] == [true, false];
    assert b[..4][..3][..2][..1] == [true] && [true][..0] == [];
    assert Value([true]) == 1;
    assert Value([true, false]) == 2;
    assert Value([true, false, false]) == 4;
    assert Value([true, false, false, false]) == 8;
  }

  lemma GeometryIsValid(preambleOk: nat -> Samples -> bool, slice: nat -> Samples -> Sliced, screen: Samples -> set<nat>)
    requires forall p: nat, w: Samples :: p < PHASES ==> Whole(slice(p)(w))
    ensures ValidConfig(Geometry(preambleOk, slice, screen))
  {
    var cfg := Geometry(preambleOk, slice, screen);
    hide ValidReceiver;
    forall p | 0 <= p < PHASES
      ensures ValidReceiver(cfg.receivers[p], cfg.frameSpan)
    {
      forall w
        ensures Whole(slice(p)(w))
      {
      }
      PhaseReceiverIsValid(preambleOk(p), slice(p), p);
    }
  }

  predicate Pulse(window: Samples) {
    window != [] && window[0] == 1.0
  }

  function Heard(): Sliced {
    Sliced(Squitter(), seq(LONG_BITS, _ => 1.0), 112.0)
  }

  function OnPulse(phase: nat): Samples -> bool {
    w => phase == 0 && Pulse(w)
  }

  function SliceHeard(phase: nat): Samples -> Sliced {
    w => Heard()
  }

  function ScreenPulse(window: Samples): set<nat> {
    if Pulse(window) then {0} else {}
  }

  /** The squitter as the first receiver hears it, in every window that begins with a pulse. */
  function Doubled(): Config {
    Geometry(OnPulse, SliceHeard, ScreenPulse)
  }

  lemma DoubledIsValid()
    ensures ValidConfig(Doubled()) && Doubled().frameSpan == 289
  {
    SquitterIsGood();
    hide Squitter, ValidConfig;
    assert Whole(Heard());
    GeometryIsValid(OnPulse, SliceHeard, ScreenPulse);
  }

  /** What the first receiver makes of a window that begins with a pulse. */
  lemma FirstReceiver(window: Samples)
    requires Pulse(window)
    ensures |Doubled().receivers| > 0 && Doubled().screen(window) == {0}
    ensures var r := Doubled().receivers[0];
            r.span == 288 && r.preambleOk(window) && r.slice(window) == Heard() && r.start(Slots(LONG_BITS)) == 288
  {
    hide Heard;
    var r := PhaseReceiver(OnPulse(0), SliceHeard(0), 0);
    assert Doubled().receivers[0] == r;
    assert r.start(Slots(LONG_BITS)) == ChipStart(240, 0);
    assert r.preambleOk(window) && r.slice(window) == Heard();
  }

  lemma PulseIsHeard(window: Samples, at: nat, radio: Radio)
    requires ValidConfig(Doubled()) && |window| == 289 && Pulse(window)
    ensures TryAt(Doubled(), window, at, radio).Some?
    ensures var log := TryAt(Doubled(), window, at, radio).value.log; log[|radio.log|].consumed == 288
  {
    var cfg, frame := Doubled(), Squitter();
    SquitterIsGood();
    FirstReceiver(window);
    FirstReceiver(window[..288]);
    assert frame[..LONG_BITS] == frame;
    hide OverlayOf, Df, Chased, Squitter, Doubled, ValidConfig, Observed, PairedCache, PairedPosition, AirborneFix, IndexOf;
    var sliced := Heard();
    assert SliceAt(cfg, window, {0}, 0) == Some(sliced);
    assert AttributedSlice(cfg, radio.cache, sliced, at).Some?;
    hide Heard, SliceAt, AttributedSlice;
    var hit := FindHit(cfg, radio.cache, window, {0}, at, 0, None);
    assert hit.Some? && hit.value.df == 17 && hit.value.index == 0;
  }

  /** Pulses at the first two samples, and silence after them. */
  function TwoPulses(): Samples {
    [1.0, 1.0] + seq(288, _ => 0.0)
  }

  lemma TwoHitsOverlap(cfg: Config, samples: Samples, first: Radio, second: Radio)
    requires ValidConfig(cfg) && cfg.frameSpan == 289 && |samples| == 290
    requires TryAt(cfg, samples[..289], 0, SILENT) == Some(first) && TryAt(cfg, samples[1..], 1, first) == Some(second)
    requires first.log[0].consumed == 288 && second.log[1].consumed == 288
    ensures !NoOverlap(RunBlocks(cfg, [], SILENT, [samples[..289], samples[289..]]).log)
  {
    var a, b := samples[..289], samples[289..];
    hide ValidConfig, TryAt, Scan, RunBlocks, NoOverlap;
    assert a[0..289] == a && samples[1..290] == samples[1..] && a + b == samples && [] + a == a;
    OneHit(cfg, a, 0, 1, SILENT);
    OneHit(cfg, samples, 1, 2, first);
    TwoBlocks(cfg, a, b);
    OverlapStays(first.log, second.log[1], second.log);
  }

  lemma CutRunOverlaps()
    ensures ValidConfig(Doubled())
    ensures !NoOverlap(RunBlocks(Doubled(), [], SILENT, [TwoPulses()[..289], TwoPulses()[289..]]).log)
  {
    DoubledIsValid();
    var cfg, samples := Doubled(), TwoPulses();
    hide Doubled, ValidConfig, TryAt, RunBlocks, NoOverlap;
    assert samples[..289][0] == 1.0 && samples[1..][0] == 1.0;
    PulseIsHeard(samples[..289], 0, SILENT);
    var first := TryAt(cfg, samples[..289], 0, SILENT).value;
    PulseIsHeard(samples[1..], 1, first);
    hide TwoPulses;
    TwoHitsOverlap(cfg, samples, first, TryAt(cfg, samples[1..], 1, first).value);
  }

  /** 290 samples in blocks of 289 and 1: the frame found at 0 reaches to 288, but the second call starts again at 1
      and finds another inside it. */
  lemma CuttingMatters()
    ensures ValidConfig(Doubled())
    ensures RunBlocks(Doubled(), [], SILENT, [TwoPulses()[..289], TwoPulses()[289..]]).log
         != RunBlocks(Doubled(), [], SILENT, [TwoPulses()]).log
  {
    hide Doubled, NoOverlap, RunBlocks, ValidConfig, Processed;
    var cfg, samples := Doubled(), TwoPulses();
    CutRunOverlaps();
    TwoBlocks(cfg, samples[..289], samples[289..]);
    assert samples[..289] + samples[289..] == samples;
    CuttingIsExact(cfg, [samples[..289], samples[289..]]);
  }

  lemma OneHit(cfg: Config, stream: Samples, at: nat, limit: nat, radio: Radio)
    requires ValidConfig(cfg) && at < limit <= ScanLimit(cfg, |stream|)
    requires var hit := TryAt(cfg, stream[at..at + cfg.frameSpan], at, radio);
             hit.Some? && limit <= at + hit.value.log[|radio.log|].consumed
    ensures Scan(cfg, stream, at, limit, radio).0 == TryAt(cfg, stream[at..at + cfg.frameSpan], at, radio).value
  {
    hide TryAt;
  }

  lemma TwoBlocks(cfg: Config, a: Samples, b: Samples)
    requires ValidConfig(cfg)
    ensures RunBlocks(cfg, [], SILENT, [a, b]) == Processed(cfg, a, Processed(cfg, [], SILENT, a), b)
    ensures Flatten([a, b]) == a + b
  {
    hide Processed;
    assert [] + a == a && [a, b][1..] == [b] && [b][1..] == [];
    assert Flatten([b]) == b + Flatten([]) == b;
    var first := Processed(cfg, [], SILENT, a);
    assert RunBlocks(cfg, a, first, [b]) == Processed(cfg, a, first, b);
  }

  /** The screen lets nothing through at position `p`. */
  predicate Quiet(cfg: Config, samples: Samples, p: nat) {
    p + cfg.frameSpan <= |samples| && cfg.screen(samples[p..p + cfg.frameSpan]) == {}
  }

  /** Positions the screen passes over leave the scan where it was. */
  lemma {:induction false} ScanSkipsQuiet(cfg: Config, stream: Samples, at: nat, next: nat, limit: nat, radio: Radio)
    requires ValidConfig(cfg) && at <= next <= limit <= ScanLimit(cfg, |stream|)
    requires forall p :: at <= p < next ==> Quiet(cfg, stream, p)
    ensures Scan(cfg, stream, at, limit, radio) == Scan(cfg, stream, next, limit, radio)
    decreases next - at
  {
    if at < next {
      assert Quiet(cfg, stream, at);
      assert TryAt(cfg, stream[at..at + cfg.frameSpan], at, radio) == None;
      hide TryAt, Quiet;
      ScanSkipsQuiet(cfg, stream, at + 1, next, limit, radio);
    }
  }

  lemma ScanStep(cfg: Config, stream: Samples, at: nat, limit: nat, radio: Radio)
    requires ValidConfig(cfg) && at < limit <= ScanLimit(cfg, |stream|)
    ensures Scan(cfg, stream, at, limit, radio) ==
            match TryAt(cfg, stream[at..at + cfg.frameSpan], at, radio)
            case None => Scan(cfg, stream, at + 1, limit, radio)
            case Some(radio') => Scan(cfg, stream, at + radio'.log[|radio.log|].consumed, limit, radio')
  {
    hide TryAt;
  }

  /** The same two facts about the buffer, the tail of the stream from `start`. */
  lemma BufferSkipsQuiet(cfg: Config, stream: Samples, start: nat, at: nat, next: nat, limit: nat, radio: Radio)
    requires ValidConfig(cfg) && at <= next && start + next <= limit <= ScanLimit(cfg, |stream|) && start <= |stream|
    requires forall p :: at <= p < next ==> Quiet(cfg, stream[start..], p)
    ensures Scan(cfg, stream, start + at, limit, radio) == Scan(cfg, stream, start + next, limit, radio)
  {
    hide Scan;
    forall p | start + at <= p < start + next
      ensures Quiet(cfg, stream, p)
    {
      assert Quiet(cfg, stream[start..], p - start);
      assert stream[p..p + cfg.frameSpan] == stream[start..][p - start..p - start + cfg.frameSpan];
    }
    ScanSkipsQuiet(cfg, stream, start + at, start + next, limit, radio);
  }

  lemma BufferStep(cfg: Config, stream: Samples, start: nat, at: nat, limit: nat, radio: Radio)
    requires ValidConfig(cfg) && start + at < limit <= ScanLimit(cfg, |stream|)
    ensures Scan(cfg, stream, start + at, limit, radio) ==
            match TryAt(cfg, stream[start..][at..at + cfg.frameSpan], start + at, radio)
            case None => Scan(cfg, stream, start + at + 1, limit, radio)
            case Some(radio') => Scan(cfg, stream, start + at + radio'.log[|radio.log|].consumed, limit, radio')
  {
    hide Scan, TryAt;
    assert stream[start + at..start + at + cfg.frameSpan] == stream[start..][at..at + cfg.frameSpan];
    ScanStep(cfg, stream, start + at, limit, radio);
  }

  lemma ScanEnds(cfg: Config, stream: Samples, at: nat, limit: nat, radio: Radio)
    requires ValidConfig(cfg) && limit <= ScanLimit(cfg, |stream|) && at >= limit
    ensures Scan(cfg, stream, at, limit, radio) == (radio, at)
  {}

  // ---- The channel as the source keeps it ----

  class AdsbChannel {
    const cfg: Config
    var mag: Samples
    var streamPos: nat
    var cpr: Cache
    var events: seq<Event>
    /** Every sample received so far. */
    ghost var stream: Samples

    ghost predicate Valid()
      reads this
    {
      && ValidConfig(cfg)
      && streamPos == ScanLimit(cfg, |stream|)
      && mag == stream[streamPos..]
    }

    /** The buffer holds the tail of the stream that no whole frame has been sought in. */
    lemma BufferIsTail()
      requires Valid()
      ensures streamPos + |mag| == |stream| && |mag| < cfg.frameSpan
    {}

    ghost function Heard(): Radio
      reads this
    {
      Radio(cpr, events)
    }

    constructor (cfg: Config)
      requires ValidConfig(cfg)
      ensures Valid() && this.cfg == cfg && stream == [] && Heard() == SILENT
    {
      this.cfg := cfg;
      mag, streamPos, cpr, events, stream := [], 0, [], [], [];
    }

    method Slot(icao: Reg, at: nat) returns (k: nat)
      modifies this`cpr
      ensures (cpr, k) == WithSlot(old(cpr), icao, at)
    {
      var found := IndexOf(cpr, icao);
      if found.Some? {
        return found.value;
      }
      if |cpr| < CACHE_LEN {
        cpr := cpr + [NewAircraft(icao, at)];
        return |cpr| - 1;
      }
      k := Oldest(cpr);
      cpr := cpr[k := NewAircraft(icao, at)];
    }

    method Pair(icao: Reg, fix: CprFix, odd: bool) returns (position: Option<Position>)
      modifies this`cpr
      ensures cpr == PairedCache(old(cpr), icao, fix, odd)
      ensures position == PairedPosition(old(cpr), cfg.pairMaxAge, icao, fix, odd)
    {
      hide WithSlot, CprGlobal;
      var k := Slot(icao, fix.at);
      var entry := WithFix(cpr[k], fix, odd);
      cpr := cpr[k := entry];
      position := Paired(entry.even, entry.odd, cfg.pairMaxAge, odd);
    }

    method Observe(icao: Reg, at: nat, proved: bool)
      modifies this`cpr
      ensures cpr == Observed(old(cpr), icao, at, proved)
    {
      hide WithSlot;
      var k := Slot(icao, at);
      cpr := cpr[k := cpr[k].(last := at)];
      if proved {
        cpr := cpr[k := cpr[k].(proven := Some(at))];
      }
    }

    /** Takes a hit: the cache is told, the position solved, the message pushed out. */
    method Take(hit: Hit, stamp: nat)
      requires |hit.frame| == Length(hit.df) && hit.index < |cfg.receivers|
      modifies this`cpr, this`events
      ensures Heard() == Accepted(cfg, old(Heard()), hit, stamp)
    {
      hide IndexOf, Observed, PairedCache, PairedPosition, Value, CprLocal;
      ghost var before := cpr;
      var inserted := IndexOf(cpr, hit.icao) == None;
      Observe(hit.icao, stamp, hit.proved);
      var fix := AirborneFix(hit, stamp);
      var position := None;
      if fix.Some? {
        position := Pair(hit.icao, fix.value.0, fix.value.1);
        if position == None {
          position := LocalPosition(cfg, fix.value.0, fix.value.1, AIRBORNE_ZONE);
        }
      } else if ExtendedSquitter(hit.df) && Surface(TypeCode(hit.frame)) {
        var (code, odd) := FixOf(hit.frame, stamp);
        position := LocalPosition(cfg, code, odd, SURFACE_ZONE);
      }
      var consumed := cfg.receivers[hit.index].start(Slots(Length(hit.df)));
      events := events + [Event(stamp, hit.df, hit.icao, hit.proved, hit.repaired, inserted, fix, position, consumed)];
    }

    /** The candidate at `at`: every phase is tried in turn, then the best refused frame repaired. */
    method TryFrame(at: nat, phases: set<nat>) returns (consumed: Option<nat>)
      requires ValidConfig(cfg) && at + cfg.frameSpan <= |mag|
      requires phases == cfg.screen(mag[at..at + cfg.frameSpan]) && phases != {}
      modifies this`cpr, this`events
      ensures match TryAt(cfg, mag[at..at + cfg.frameSpan], streamPos + at, old(Heard()))
              case None => consumed == None && Heard() == old(Heard())
              case Some(radio) => consumed == Some(radio.log[|old(events)|].consumed) && Heard() == radio
    {
      hide SliceAt, AttributedSlice, RepairedHit, Df;
      var window, stamp := mag[at..at + cfg.frameSpan], streamPos + at;
      var hit := None;
      var doubtful: Doubtful := None;
      var index := 0;
      while index < |cfg.receivers| && hit == None
        invariant index <= |cfg.receivers|
        invariant doubtful.Some? ==> Whole(doubtful.value.0)
        invariant FindHit(cfg, cpr, window, phases, stamp, 0, None)
               == if hit.Some? then hit else FindHit(cfg, cpr, window, phases, stamp, index, doubtful)
      {
        var sliced := SliceAt(cfg, window, phases, index);
        if sliced.Some? {
          var a := AttributedSlice(cfg, cpr, sliced.value, stamp);
          if a.Some? {
            hit := Some(Hit(a.value.frame, Df(sliced.value.frame), a.value.icao, a.value.proved, false, index));
          } else {
            doubtful := MoreConfident(doubtful, sliced.value, index);
          }
        }
        index := index + 1;
      }
      if hit == None && doubtful.Some? {
        hit := RepairedHit(cfg, cpr, doubtful.value.0, doubtful.value.1, stamp);
      }
      HitIsBelievable(cfg, cpr, window, phases, stamp, 0, None);
      if hit == None {
        return None;
      }
      Take(hit.value, stamp);
      hide FindHit;
      return Some(cfg.receivers[hit.value.index].start(Slots(Length(hit.value.df))));
    }

    /** The screen's next candidate from `from` on, with the phases it lets through. */
    method NextCandidate(from: nat, positions: nat) returns (next: Option<(nat, set<nat>)>)
      requires from <= positions && (positions > 0 ==> positions - 1 + cfg.frameSpan <= |mag|)
      ensures next == None ==> forall p :: from <= p < positions ==> Quiet(cfg, mag, p)
      ensures next.Some? ==> var (at, phases) := next.value;
                from <= at < positions && phases == cfg.screen(mag[at..at + cfg.frameSpan]) && phases != {}
                && forall p :: from <= p < at ==> Quiet(cfg, mag, p)
    {
      var at := from;
      while at < positions
        invariant from <= at <= positions
        invariant forall p :: from <= p < at ==> Quiet(cfg, mag, p)
      {
        var phases := cfg.screen(mag[at..at + cfg.frameSpan]);
        if phases != {} {
          return Some((at, phases));
        }
        at := at + 1;
      }
      return None;
    }

    /** One turn of the loop in `process`: on to the next candidate, and past what it holds. */
    method Advance(at: nat, positions: nat) returns (next: nat)
      requires ValidConfig(cfg) && streamPos <= |stream| && mag == stream[streamPos..] && at < positions
      requires streamPos + positions == ScanLimit(cfg, |stream|)
      modifies this`cpr, this`events
      ensures next > at
      ensures Scan(cfg, stream, streamPos + at, streamPos + positions, old(Heard()))
           == Scan(cfg, stream, streamPos + next, streamPos + positions, Heard())
    {
      hide Scan, TryAt, Quiet;
      var candidate := NextCandidate(at, positions);
      ghost var limit := streamPos + positions;
      if candidate == None {
        BufferSkipsQuiet(cfg, stream, streamPos, at, positions, limit, Heard());
        return positions;
      }
      var (found, phases) := candidate.value;
      BufferSkipsQuiet(cfg, stream, streamPos, at, found, limit, Heard());
      BufferStep(cfg, stream, streamPos, found, limit, Heard());
      var consumed := TryFrame(found, phases);
      next := found + (if consumed.Some? then consumed.value else 1);
    }

    /** A block of samples: the positions whose frame is now whole are scanned, once each, and the
        samples before the first position left are let go. */
    method Process(block: Samples)
      requires Valid()
      modifies this
      ensures Valid() && stream == old(stream) + block
      ensures Heard() == Processed(cfg, old(stream), old(Heard()), block)
      ensures streamPos == ScanLimit(cfg, |stream|) && old(streamPos) == ScanLimit(cfg, old(|stream|)) <= streamPos
    {
      hide Scan;
      stream := stream + block;
      mag := mag + block;
      assert mag == stream[streamPos..];
      var positions := if |mag| + 1 > cfg.frameSpan then |mag| + 1 - cfg.frameSpan else 0;
      var at := 0;
      while at < positions
        invariant stream == old(stream) + block && streamPos == old(streamPos) && mag == stream[streamPos..]
        invariant Processed(cfg, old(stream), old(Heard()), block)
               == Scan(cfg, stream, streamPos + at, streamPos + positions, Heard()).0
        decreases positions - at
      {
        at := Advance(at, positions);
      }
      ScanEnds(cfg, stream, streamPos + at, streamPos + positions, Heard());
      mag := mag[positions..];
      streamPos := streamPos + positions;
    }
  }
}
