/** The APRS transmitter of `aprs.rs`: its queue, line coder, keying envelope and the state
    machine that turns accepted frames into samples. */
module AprsTx {
  import opened Wrappers
  import opened Bytes
  import opened Hdlc
  import opened Crc16

  datatype Mode = Afsk1200 | G3ruh9600

  const MAX_QUEUE_S: nat := 5
  const RAMP_LEN: nat := 96
  const PREAMBLE_FLAGS: nat := 24
  const TRAILING_FLAGS: nat := 2

  function Baud(mode: Mode): nat {
    match mode
    case Afsk1200 => 1200
    case G3ruh9600 => 9600
  }

  /** Samples of one symbol at 48 kHz. */
  function SamplesPerSymbol(mode: Mode): (n: nat)
    ensures n > 0
  {
    48000 / Baud(mode)
  }

  // ---- Line coding ----

  /** NRZI level and, in G3RUH mode, the scrambler's register. */
  datatype Line = Line(level: bool, reg: bv32)

  /** Taps 17 and 12 of the scrambler polynomial. */
  predicate Feedback(reg: bv32) {
    (reg & 0x10000 != 0) != (reg & 0x800 != 0)
  }

  function Shift(reg: bv32, bit: bool): bv32 {
    (reg << 1) | (if bit then 1 else 0)
  }

  /** A zero toggles the level; G3RUH then scrambles it. */
  function LinePush(mode: Mode, line: Line, bit: bool): (Line, bool) {
    var level := if bit then line.level else !line.level;
    if mode.Afsk1200? then (line.(level := level), level)
    else var out := level != Feedback(line.reg); (Line(level, Shift(line.reg, out)), out)
  }

  function LineEncode(mode: Mode, line: Line, bits: Bits): (r: (Line, Bits))
    ensures |r.1| == |bits|
    decreases |bits|
  {
    if bits == [] then (line, []) else
    var (line1, level) := LinePush(mode, line, bits[0]);
    var (line2, levels) := LineEncode(mode, line1, bits[1..]);
    (line2, [level] + levels)
  }

  /** The receiver's inverse: descramble in G3RUH mode, then a bit is one while the level holds. */
  function LinePull(mode: Mode, line: Line, level: bool): (Line, bool) {
    if mode.Afsk1200? then (line.(level := level), level == line.level)
    else var out := level != Feedback(line.reg); (Line(out, Shift(line.reg, level)), out == line.level)
  }

  function LineDecode(mode: Mode, line: Line, levels: Bits): Bits
    decreases |levels|
  {
    if levels == [] then [] else
    var (line1, bit) := LinePull(mode, line, levels[0]);
    [bit] + LineDecode(mode, line1, levels[1..])
  }

  /** Line coding loses nothing: the receiver reads back exactly the bits, in both modes. */
  lemma {:induction false} LineRoundTrip(mode: Mode, line: Line, bits: Bits)
    ensures LineDecode(mode, line, LineEncode(mode, line, bits).1) == bits
    decreases |bits|
  {
    if bits != [] {
      var (line1, level) := LinePush(mode, line, bits[0]);
      assert LinePull(mode, line, level) == (line1, bits[0]);
      LineRoundTrip(mode, line1, bits[1..]);
      hide LinePush, LinePull;
      var levels := LineEncode(mode, line1, bits[1..]).1;
      assert ([level] + levels)[1..] == levels;
    }
  }

  lemma {:induction false} LineEncodeAppend(mode: Mode, line: Line, a: Bits, b: Bits)
    ensures var (line1, x) := LineEncode(mode, line, a);
            var (line2, y) := LineEncode(mode, line1, b);
            LineEncode(mode, line, a + b) == (line2, x + y)
    decreases |a|
  {
    hide LinePush;
    if a == [] {
      assert a + b == b;
      assert [] + LineEncode(mode, line, b).1 == LineEncode(mode, line, b).1;
    } else {
      var (line1, level) := LinePush(mode, line, a[0]);
      LineEncodeAppend(mode, line1, a[1..], b);
      assert (a + b)[0] == a[0] && (a + b)[1..] == a[1..] + b;
      var x, y := LineEncode(mode, line1, a[1..]).1, LineEncode(mode, LineEncode(mode, line1, a[1..]).0, b).1;
      assert [level] + (x + y) == ([level] + x) + y;
    }
  }

  // ---- Keying envelope ----

  datatype Burst = Idle | Rising(k: nat) | Running | Falling(k: nat)

  /** A ramp step, or the full carrier. */
  datatype Envelope = Ramp(step: nat) | Full

  function BurstNext(burst: Burst, more: bool): Option<(Burst, Envelope)> {
    match burst
    case Idle => if more then Some((Rising(1), Ramp(0))) else None
    case Running => if more then Some((Running, Full)) else Some((Falling(1), Ramp(RAMP_LEN - 1)))
    case Rising(k) => Some((if k + 1 < RAMP_LEN then Rising(k + 1) else Running, Ramp(k)))
    case Falling(k) =>
      Some((if k + 1 < RAMP_LEN then Falling(k + 1) else Idle, Ramp(if k < RAMP_LEN then RAMP_LEN - 1 - k else 0)))
  }

  // ---- The transmitter as a state machine ----

  /** One output sample: the level keyed, the envelope, and whether it carries a queued symbol
      or belongs to the ramp-down. */
  datatype Sample = Sample(level: bool, envelope: Envelope, keyed: bool)

  datatype Tx = Tx(mode: Mode, capacity: nat, pending: Bits, line: Line, remaining: nat, level: bool, burst: Burst)

  function Started(mode: Mode): Tx {
    Tx(mode, Capacity(mode), [], Line(false, 0), 0, false, Idle)
  }

  /** A new mode drops what is queued and restarts the line; the queue keeps its capacity, the carrier its ramp. */
  function Applied(tx: Tx, mode: Mode): Tx {
    if mode == tx.mode then tx else Started(mode).(capacity := tx.capacity, level := tx.level, burst := tx.burst)
  }

  /** Bits the queue of a transmitter made in this mode can hold. */
  function Capacity(mode: Mode): nat {
    MAX_QUEUE_S * Baud(mode)
  }

  /** The bits a frame adds to the queue. */
  function Staged(pending: Bits, frame: Frame): Bits {
    (if pending == [] then Flags(PREAMBLE_FLAGS) else []) + FrameBits(frame) + Flags(TRAILING_FLAGS)
  }

  predicate Accepts(tx: Tx, frame: Frame) {
    && MIN_FRAME_BYTES <= |frame| + 2 <= MAX_FRAME_BYTES
    && |tx.pending| + |Staged(tx.pending, frame)| <= tx.capacity
  }

  function Submitted(tx: Tx, frame: Frame): Tx {
    if Accepts(tx, frame) then tx.(pending := tx.pending + Staged(tx.pending, frame)) else tx
  }

  /** Starts the next queued symbol when the current one has run out. */
  function Reload(tx: Tx): Tx {
    if tx.remaining == 0 && tx.pending != [] then
      var (line, level) := LinePush(tx.mode, tx.line, tx.pending[0]);
      tx.(pending := tx.pending[1..], line := line, level := level, remaining := SamplesPerSymbol(tx.mode))
    else
      tx
  }

  /** One pass of the sample loop: `None` when the burst has ended. */
  function Step(tx: Tx): Option<(Tx, Sample)> {
    var loaded := Reload(tx);
    var (burst, envelope) :- BurstNext(loaded.burst, loaded.remaining > 0);
    Some((loaded.(burst := burst, remaining := if loaded.remaining > 0 then loaded.remaining - 1 else 0),
          Sample(loaded.level, envelope, loaded.remaining > 0)))
  }

  /** Up to `n` samples; fewer when the burst ends. */
  function Generated(tx: Tx, n: nat): (r: (Tx, seq<Sample>))
    ensures |r.1| <= n
    decreases n
  {
    if n == 0 || Step(tx) == None then (tx, []) else
    var (tx1, sample) := Step(tx).value;
    var (tx2, samples) := Generated(tx1, n - 1);
    (tx2, [sample] + samples)
  }

  /** Output does not depend on how the caller cuts it into buffers. */
  lemma {:induction false} GeneratedSplits(tx: Tx, n: nat, m: nat)
    ensures var (tx1, a) := Generated(tx, n);
            var (tx2, b) := Generated(tx1, m);
            Generated(tx, n + m) == (tx2, a + b)
    decreases n
  {
    hide Step;
    if n == 0 || Step(tx) == None {
      assert m == 0 || n == 0 || Generated(tx, m) == (tx, []);
      assert [] + Generated(tx, m).1 == Generated(tx, m).1;
    } else {
      var (tx1, sample) := Step(tx).value;
      GeneratedSplits(tx1, n - 1, m);
      var a, b := Generated(tx1, n - 1).1, Generated(Generated(tx1, n - 1).0, m).1;
      assert [sample] + (a + b) == ([sample] + a) + b;
    }
  }

  class AprsTransmitter {
    var mode: Mode
    const capacity: nat
    var pending: Bits
    var staging: Bits
    var line: Line
    var remaining: nat
    var level: bool
    var burst: Burst

    ghost function State(): Tx
      reads this
    {
      Tx(mode, capacity, pending, line, remaining, level, burst)
    }

    constructor (mode: Mode)
      ensures State() == Started(mode)
    {
      this.mode := mode;
      capacity := Capacity(mode);
      pending, staging, line := [], [], Line(false, 0);
      remaining, level, burst := 0, false, Idle;
    }

    /** Changing the mode drops what is queued and restarts the line, but the queue keeps the capacity it was made
        with; the same mode changes nothing. */
    method Apply(mode: Mode)
      modifies this
      ensures State() == Applied(old(State()), mode)
    {
      if mode != this.mode {
        this.mode := mode;
        pending := [];
        line := Line(false, 0);
        remaining := 0;
      }
    }

    method Submit(frame: Frame) returns (ok: bool)
      modifies this
      ensures ok == Accepts(old(State()), frame)
      ensures State() == Submitted(old(State()), frame)
    {
      if !(MIN_FRAME_BYTES - 2 <= |frame| <= MAX_FRAME_BYTES - 2) {
        return false;
      }
      staging := [];
      if pending == [] {
        staging := PushFlags(staging, PREAMBLE_FLAGS);
      }
      staging := PushFrame(staging, frame);
      staging := PushFlags(staging, TRAILING_FLAGS);
      assert staging == Staged(pending, frame) by {
        assert [] + Flags(PREAMBLE_FLAGS) == Flags(PREAMBLE_FLAGS);
      }
      if |pending| + |staging| > capacity {
        return false;
      }
      pending := pending + staging;
      ok := true;
    }

    method NextLevel() returns (next: Option<bool>)
      modifies this`pending, this`line
      ensures old(pending) == [] ==> next == None && State() == old(State())
      ensures old(pending) != [] ==>
                var (line', level') := LinePush(mode, old(line), old(pending)[0]);
                next == Some(level') && State() == old(State()).(pending := old(pending)[1..], line := line')
    {
      if pending == [] {
        return None;
      }
      var bit := pending[0];
      pending := pending[1..];
      var (line', level') := LinePush(mode, line, bit);
      line := line';
      next := Some(level');
    }

    /** One pass of the loop in `generate`. */
    method NextSample() returns (sample: Option<Sample>)
      modifies this
      ensures match Step(old(State()))
              case None => sample == None && State() == old(State())
              case Some((tx, s)) => sample == Some(s) && State() == tx
    {
      if remaining == 0 {
        var next := NextLevel();
        if next.Some? {
          level := next.value;
          remaining := SamplesPerSymbol(mode);
        }
      }
      assert State() == Reload(old(State()));
      var envelope := BurstNext(burst, remaining > 0);
      if envelope == None {
        return None;
      }
      burst := envelope.value.0;
      sample := Some(Sample(level, envelope.value.1, remaining > 0));
      remaining := if remaining > 0 then remaining - 1 else 0;
    }

    method Generate(out: array<Sample>) returns (written: nat)
      modifies this, out
      ensures written <= out.Length
      ensures (State(), out[..written]) == Generated(old(State()), out.Length)
      ensures out[written..] == old(out[..])[written..]
    {
      hide Step;
      written := 0;
      while written < out.Length
        invariant written <= out.Length
        invariant Generated(old(State()), written) == (State(), out[..written])
        invariant out[written..] == old(out[..])[written..]
      {
        ghost var before, done := State(), out[..written];
        GeneratedSplits(old(State()), written, out.Length - written);
        GeneratedSplits(old(State()), written, 1);
        var sample := NextSample();
        if sample == None {
          assert done + [] == done;
          return;
        }
        OneSample(before);
        out[written] := sample.value;
        assert out[..written + 1] == done + [sample.value];
        written := written + 1;
      }
      assert out[..out.Length] == out[..written];
    }
  }

  lemma OneSample(tx: Tx)
    requires Step(tx).Some?
    ensures Generated(tx, 1) == (Step(tx).value.0, [Step(tx).value.1])
  {
    var sample := Step(tx).value.1;
    assert [sample] + [] == [sample];
    assert Generated(tx, 1) == (Generated(Step(tx).value.0, 0).0, [sample] + Generated(Step(tx).value.0, 0).1);
  }

  // ---- Whole runs ----

  datatype Op = SubmitFrame(frame: Frame) | TakeSample | SetMode(mode: Mode)

  /** The transmitter with what has happened to it since its mode was last set: the frames accepted, the bits taken
      off the queue and the samples written. */
  datatype World = World(tx: Tx, accepted: seq<Frame>, popped: Bits, samples: seq<Sample>)

  function Advance(w: World, op: Op): World {
    match op
    case SubmitFrame(frame) =>
      w.(tx := Submitted(w.tx, frame),
         accepted := if Accepts(w.tx, frame) then w.accepted + [frame] else w.accepted)
    case TakeSample =>
      if Step(w.tx) == None then w else
      var (tx, sample) := Step(w.tx).value;
      w.(tx := tx, samples := w.samples + [sample], popped := w.popped + Taken(w.tx))
    case SetMode(mode) =>
      if mode == w.tx.mode then w else World(Applied(w.tx, mode), [], [], [])
  }

  /** The bit that writing the next sample takes off the queue. */
  function Taken(tx: Tx): Bits {
    if tx.remaining == 0 && tx.pending != [] then [tx.pending[0]] else []
  }

  function Run(w: World, ops: seq<Op>): World
    decreases |ops|
  {
    if ops == [] then w else Run(Advance(w, ops[0]), ops[1..])
  }

  function Begin(mode: Mode): World {
    World(Started(mode), [], [], [])
  }

  function Repeat(level: bool, n: nat): (levels: Bits)
    ensures |levels| == n
  {
    seq(n, _ => level)
  }

  /** Every level held for `n` samples. */
  function Expand(levels: Bits, n: nat): (r: Bits)
    ensures |r| == n * |levels|
  {
    if levels == [] then [] else
    assert n * |levels| == n + n * (|levels| - 1);
    Repeat(levels[0], n) + Expand(levels[1..], n)
  }

  /** The levels of the samples that carry a queued symbol. */
  function Keyed(samples: seq<Sample>): Bits {
    if samples == [] then []
    else (if samples[0].keyed then [samples[0].level] else []) + Keyed(samples[1..])
  }

  /** A receiver's symbols: the first sample of every `n`. */
  function Symbols(levels: Bits, n: nat): Bits
    requires n > 0
    decreases |levels|
  {
    if levels == [] then [] else
    [levels[0]] + Symbols(if |levels| <= n then [] else levels[n..], n)
  }

  function Checked(frames: seq<Frame>): seq<Frame> {
    seq(|frames|, i requires 0 <= i < |frames| => WithFcs(frames[i]))
  }

  const LINE_START := Line(false, 0)

  /** Everything queued so far, sent or not, deframes to the accepted frames. */
  ghost predicate QueueInv(w: World) {
    Deframe(STARTED, w.popped + w.tx.pending)
      == (if w.accepted == [] then STARTED else SYNCED, Checked(w.accepted))
    && (w.accepted == [] ==> w.tx.pending == [])
  }

  /** The samples spell the line coding of the bits taken, the last symbol still running. */
  ghost predicate LineInv(w: World) {
    var (line, levels) := LineEncode(w.tx.mode, LINE_START, w.popped);
    && w.tx.line == line
    && w.tx.remaining < SamplesPerSymbol(w.tx.mode)
    && Keyed(w.samples) + Repeat(w.tx.level, w.tx.remaining) == Expand(levels, SamplesPerSymbol(w.tx.mode))
  }

  lemma {:induction false} CheckedAppend(frames: seq<Frame>, frame: Frame)
    ensures Checked(frames + [frame]) == Checked(frames) + [WithFcs(frame)]
  {}

  /** A frame added to the queue adds itself, and nothing else, to what a receiver will get. */
  lemma {:induction false} StagedDeframes(d: Deframer, pending: Bits, frame: Frame)
    requires d == SYNCED || (d == STARTED && pending == [])
    requires MIN_FRAME_BYTES <= |frame| + 2 <= MAX_FRAME_BYTES
    ensures Deframe(d, Staged(pending, frame)) == (SYNCED, [WithFcs(frame)])
  {
    hide FrameBits, Flags, WithFcs;
    var head := if pending == [] then Flags(PREAMBLE_FLAGS) else [];
    if pending == [] {
      FlagsAreSilent(d, PREAMBLE_FLAGS);
    }
    assert Deframe(d, head) == (SYNCED, []);
    FrameComesBack(frame);
    FlagsAreSilent(SYNCED, TRAILING_FLAGS);
    DeframeAppend(d, head, FrameBits(frame));
    DeframeAppend(d, head + FrameBits(frame), Flags(TRAILING_FLAGS));
    var one := [WithFcs(frame)];
    assert [] + one == one && one + [] == one;
  }

  lemma {:induction false} SubmitKeepsQueue(w: World, frame: Frame)
    requires QueueInv(w)
    ensures QueueInv(Advance(w, SubmitFrame(frame)))
  {
    hide Staged, WithFcs, Deframe;
    if Accepts(w.tx, frame) {
      var before, staged := w.popped + w.tx.pending, Staged(w.tx.pending, frame);
      DeframeAppend(STARTED, before, staged);
      StagedDeframes(Deframe(STARTED, before).0, w.tx.pending, frame);
      CheckedAppend(w.accepted, frame);
      assert w.popped + (w.tx.pending + staged) == before + staged;
    }
  }

  lemma {:induction false} SampleKeepsQueue(w: World)
    requires QueueInv(w)
    ensures QueueInv(Advance(w, TakeSample))
  {
    hide Deframe, LinePush, BurstNext;
    if Step(w.tx).Some? {
      var w' := Advance(w, TakeSample);
      assert w'.popped + w'.tx.pending == w.popped + w.tx.pending;
    }
  }

  lemma {:induction false} KeyedAppend(samples: seq<Sample>, sample: Sample)
    ensures Keyed(samples + [sample]) == Keyed(samples) + (if sample.keyed then [sample.level] else [])
    decreases |samples|
  {
    if samples == [] {
      assert samples + [sample] == [sample];
    } else {
      KeyedAppend(samples[1..], sample);
      assert (samples + [sample])[1..] == samples[1..] + [sample];
      var x := if samples[0].keyed then [samples[0].level] else [];
      var z := if sample.keyed then [sample.level] else [];
      assert x + (Keyed(samples[1..]) + z) == (x + Keyed(samples[1..])) + z;
    }
  }

  lemma {:induction false} ExpandAppend(levels: Bits, level: bool, n: nat)
    ensures Expand(levels + [level], n) == Expand(levels, n) + Repeat(level, n)
    decreases |levels|
  {
    hide Repeat;
    if levels == [] {
      assert levels + [level] == [level] && [level][1..] == [];
      assert Repeat(level, n) + [] == [] + Repeat(level, n);
    } else {
      ExpandAppend(levels[1..], level, n);
      assert (levels + [level])[0] == levels[0] && (levels + [level])[1..] == levels[1..] + [level];
      var x, y, z := Repeat(levels[0], n), Expand(levels[1..], n), Repeat(level, n);
      assert x + (y + z) == (x + y) + z;
    }
  }

  /** Taking a bit off the queue starts its symbol; a sample then carries one part of it. */
  lemma {:induction false} SampleKeepsLine(w: World)
    requires LineInv(w)
    ensures LineInv(Advance(w, TakeSample))
  {
    hide LinePush, BurstNext, Expand, Keyed, SamplesPerSymbol, LineEncode;
    if Step(w.tx).Some? {
      var w', n := Advance(w, TakeSample), SamplesPerSymbol(w.tx.mode);
      var loaded := Reload(w.tx);
      TakenEncodes(w);
      var levels' := LineEncode(w.tx.mode, LINE_START, w'.popped).1;
      assert Keyed(w.samples) + Repeat(loaded.level, loaded.remaining) == Expand(levels', n);
      var sample := Step(w.tx).value.1;
      KeyedAppend(w.samples, sample);
      if loaded.remaining > 0 {
        assert Repeat(loaded.level, loaded.remaining) == [loaded.level] + Repeat(loaded.level, loaded.remaining - 1);
      }
    }
  }

  lemma {:induction false} TakenEncodes(w: World)
    requires LineInv(w)
    ensures var loaded, n := Reload(w.tx), SamplesPerSymbol(w.tx.mode);
            var (line, levels) := LineEncode(w.tx.mode, LINE_START, w.popped + Taken(w.tx));
            && loaded.line == line && loaded.remaining <= n
            && Keyed(w.samples) + Repeat(loaded.level, loaded.remaining) == Expand(levels, n)
  {
    hide LinePush, Keyed, SamplesPerSymbol;
    var n := SamplesPerSymbol(w.tx.mode);
    var (line, levels) := LineEncode(w.tx.mode, LINE_START, w.popped);
    if Taken(w.tx) == [] {
      assert w.popped + Taken(w.tx) == w.popped;
    } else {
      var level := LinePush(w.tx.mode, line, w.tx.pending[0]).1;
      OneLevel(w.tx.mode, line, w.tx.pending[0]);
      LineEncodeAppend(w.tx.mode, LINE_START, w.popped, Taken(w.tx));
      hide LineEncode;
      ExpandAppend(levels, level, n);
      hide Expand;
      assert Keyed(w.samples) + Repeat(w.tx.level, 0) == Keyed(w.samples);
    }
  }

  lemma {:induction false} OneLevel(mode: Mode, line: Line, bit: bool)
    ensures LineEncode(mode, line, [bit]) == (LinePush(mode, line, bit).0, [LinePush(mode, line, bit).1])
  {
    hide LinePush;
    var level := LinePush(mode, line, bit).1;
    assert [bit][1..] == [] && [level] + [] == [level];
  }

  lemma {:induction false} RunKeepsInvariants(w: World, ops: seq<Op>)
    requires QueueInv(w) && LineInv(w)
    ensures QueueInv(Run(w, ops)) && LineInv(Run(w, ops))
    decreases |ops|
  {
    if ops != [] {
      StepKeepsInvariants(w, ops[0]);
      hide Advance, QueueInv, LineInv;
      RunKeepsInvariants(Advance(w, ops[0]), ops[1..]);
    }
  }

  /** A transmitter in a new mode has nothing queued and nothing sent. */
  lemma {:induction false} NewModeHolds(w: World, mode: Mode)
    requires mode != w.tx.mode
    ensures QueueInv(Advance(w, SetMode(mode))) && LineInv(Advance(w, SetMode(mode)))
  {
    assert Checked([]) == [];
    assert Deframe(STARTED, []) == (STARTED, []);
  }

  lemma {:induction false} StepKeepsInvariants(w: World, op: Op)
    requires QueueInv(w) && LineInv(w)
    ensures QueueInv(Advance(w, op)) && LineInv(Advance(w, op))
  {
    match op {
      case SubmitFrame(frame) =>
        SubmitKeepsQueue(w, frame);
        hide QueueInv, Staged;
        assert w.tx.line == Advance(w, op).tx.line;
      case TakeSample =>
        SampleKeepsQueue(w);
        SampleKeepsLine(w);
        hide QueueInv, LineInv, LinePush, BurstNext;
      case SetMode(mode) =>
        if mode != w.tx.mode {
          NewModeHolds(w, mode);
        }
        hide QueueInv, LineInv;
    }
  }

  /** A call of `generate` with room for `n` samples is a run of `n` sample steps. */
  lemma {:induction false} GenerateIsARun(w: World, n: nat)
    ensures var w' := Run(w, seq(n, _ => TakeSample));
            && w'.tx == Generated(w.tx, n).0
            && w'.samples == w.samples + Generated(w.tx, n).1
            && w'.accepted == w.accepted
    decreases n
  {
    hide Step;
    var ops := seq(n, _ => TakeSample);
    if n == 0 {
      assert w.samples + [] == w.samples;
    } else {
      assert ops[1..] == seq(n - 1, _ => TakeSample);
      var w1 := Advance(w, TakeSample);
      GenerateIsARun(w1, n - 1);
      if Step(w.tx) == None {
        assert w1 == w && (n == 1 || Generated(w.tx, n - 1) == (w.tx, []));
        assert Generated(w.tx, n - 1).1 == [];
      } else {
        var sample := Step(w.tx).value.1;
        var rest := Generated(w1.tx, n - 1).1;
        assert (w.samples + [sample]) + rest == w.samples + ([sample] + rest);
      }
    }
  }

  /** The samples still owed to the queue. */
  function Due(tx: Tx): nat {
    tx.remaining + SamplesPerSymbol(tx.mode) * |tx.pending|
  }

  /** Every sample owed brings the end of the queue one sample nearer. */
  lemma StepPaysOne(tx: Tx)
    ensures Due(tx) > 0 ==> Step(tx).Some? && Due(Step(tx).value.0) == Due(tx) - 1
    ensures tx.pending == [] && Step(tx).Some? ==> Step(tx).value.0.pending == []
  {
    hide LinePush;
    var n := SamplesPerSymbol(tx.mode);
    if tx.remaining == 0 && tx.pending != [] {
      assert n * |tx.pending| == n + n * (|tx.pending| - 1);
    }
  }

  /** The queue does empty: taking the samples owed takes every queued bit. */
  lemma {:induction false} QueueDrains(w: World, n: nat)
    requires Due(w.tx) <= n
    ensures Run(w, seq(n, _ => TakeSample)).tx.pending == []
    decreases n
  {
    var ops := seq(n, _ => TakeSample);
    StepPaysOne(w.tx);
    hide Step;
    if n == 0 {
      NothingOwed(w.tx);
    } else {
      assert ops[1..] == seq(n - 1, _ => TakeSample);
      if Due(w.tx) == 0 {
        NothingOwed(w.tx);
        StaysDrained(Advance(w, TakeSample), n - 1);
      } else {
        QueueDrains(Advance(w, TakeSample), n - 1);
      }
    }
  }

  lemma NothingOwed(tx: Tx)
    ensures Due(tx) == 0 ==> tx.pending == []
  {
    if tx.pending != [] {
      assert SamplesPerSymbol(tx.mode) * |tx.pending| >= |tx.pending|;
    }
  }

  lemma {:induction false} StaysDrained(w: World, n: nat)
    requires w.tx.pending == []
    ensures Run(w, seq(n, _ => TakeSample)).tx.pending == []
    decreases n
  {
    StepPaysOne(w.tx);
    hide Step;
    if n > 0 {
      assert seq(n, _ => TakeSample)[1..] == seq(n - 1, _ => TakeSample);
      StaysDrained(Advance(w, TakeSample), n - 1);
    }
  }

  // ---- The whole channel ----

  lemma {:induction false} SymbolsOfExpanded(levels: Bits, n: nat, cut: nat)
    requires cut < n
    requires cut <= n * |levels|
    ensures Symbols(Expand(levels, n)[..n * |levels| - cut], n) == levels
    decreases |levels|
  {
    if levels == [] {
      assert Expand(levels, n)[..0] == [];
    } else {
      var all, rest := Expand(levels, n), Expand(levels[1..], n);
      var size := n * (|levels| - 1);
      assert n * |levels| == size + n;
      var line := all[..size + n - cut];
      assert line[0] == levels[0];
      if |levels| == 1 {
        assert size == 0;
        assert Symbols([], n) == [];
      } else {
        assert size >= n;
        assert line[n..] == rest[..size - cut];
        SymbolsOfExpanded(levels[1..], n, cut);
      }
    }
  }

  /** The frames a receiver gets from a run of samples: symbols, line decoding, deframing. */
  function Received(mode: Mode, samples: seq<Sample>): seq<Frame> {
    Deframe(STARTED, LineDecode(mode, LINE_START, Symbols(Keyed(samples), SamplesPerSymbol(mode)))).1
  }

  /** A receiver recovers from the samples exactly the bits taken off the queue, and the samples
      account for every one of them. */
  lemma {:induction false} SamplesCarryBits(mode: Mode, ops: seq<Op>)
    ensures var w := Run(Begin(mode), ops);
            && LineDecode(w.tx.mode, LINE_START, Symbols(Keyed(w.samples), SamplesPerSymbol(w.tx.mode))) == w.popped
            && |Keyed(w.samples)| + w.tx.remaining == SamplesPerSymbol(w.tx.mode) * |w.popped|
  {
    BeginHolds(mode);
    RunKeepsInvariants(Begin(mode), ops);
    var w := Run(Begin(mode), ops);
    var n := SamplesPerSymbol(w.tx.mode);
    hide Run, SamplesPerSymbol, QueueInv;
    var levels := LineEncode(w.tx.mode, LINE_START, w.popped).1;
    LineRoundTrip(w.tx.mode, LINE_START, w.popped);
    hide LineEncode, LineDecode;
    var keyed := Keyed(w.samples);
    assert keyed == Expand(levels, n)[..n * |levels| - w.tx.remaining];
    hide Expand, Keyed;
    SymbolsOfExpanded(levels, n, w.tx.remaining);
  }

  lemma {:induction false} BeginHolds(mode: Mode)
    ensures QueueInv(Begin(mode)) && LineInv(Begin(mode))
  {
    assert Checked([]) == [];
  }

  /** Framing transparency over whole runs, mode changes among them: whatever is submitted and however sending is
      interleaved with it, a receiver in the mode last set gets the frames accepted since then with their check
      sequences, in order and once each; the ones it has not got yet are in the queue. */
  lemma {:induction false} EveryAcceptedFrameArrives(mode: Mode, ops: seq<Op>)
    ensures var w := Run(Begin(mode), ops);
            && Received(w.tx.mode, w.samples) <= Checked(w.accepted)
            && (w.tx.pending == [] ==> Received(w.tx.mode, w.samples) == Checked(w.accepted))
  {
    SamplesCarryBits(mode, ops);
    BeginHolds(mode);
    RunKeepsInvariants(Begin(mode), ops);
    var w := Run(Begin(mode), ops);
    hide Run, LineInv, LineDecode, Symbols, Keyed;
    DeframeAppend(STARTED, w.popped, w.tx.pending);
    assert w.popped + [] == w.popped;
  }
}
