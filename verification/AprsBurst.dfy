/** One burst of the APRS transmitter from its first sample to its last, and what a queue takes. */
module AprsBurst {
  import opened Wrappers
  import opened Bytes
  import opened Crc16
  import opened Hdlc
  import opened AprsTx

  /** A frame is taken when it is 15 to 328 octets long and its bits fit: a preamble of 24 flags unless the queue holds
      something, the stuffed octets and check sequence, a flag that ends it and two more. */
  lemma {:induction false} AcceptsIsExact(tx: Tx, frame: Frame)
    ensures Accepts(tx, frame) <==>
            && 15 <= |frame| <= 328
            && |tx.pending| + (if tx.pending == [] then 192 else 0) + |Stuff(Octets(WithFcs(frame)), 0)| + 24 <= tx.capacity
  {
    hide Octets, WithFcs, Stuff;
    FlagsLength(24);
    FlagsLength(2);
    FlagsLength(1);
  }

  lemma {:induction false} FlagsLength(count: nat)
    ensures |Flags(count)| == 8 * count
  {
    if count > 0 {
      FlagsLength(count - 1);
    }
  }

  /** Five seconds of bits, 40 or 5 samples to a bit. */
  lemma StartedIsExact(mode: Mode, bits: Bits)
    ensures Started(mode).capacity == (if mode.Afsk1200? then 6000 else 48000)
    ensures Due(Started(mode).(pending := bits)) == (if mode.Afsk1200? then 40 else 5) * |bits|
  {}

  // ---- The envelope ----

  /** How the carrier stands `t` samples into a burst with `n` keyed samples. */
  function BurstAt(n: nat, t: nat): Burst {
    if t == 0 then Idle
    else if t < 96 then Rising(t)
    else if t <= n then Running
    else if t < n + 96 then Falling(t - n)
    else Idle
  }

  /** The envelope of sample `t`. */
  function Shape(n: nat, t: nat): Envelope {
    if t < 96 then Ramp(t) else if t < n then Full else if t < n + 96 then Ramp(n + 95 - t) else Ramp(0)
  }

  ghost predicate Midway(tx: Tx, n: nat, t: nat) {
    tx.burst == BurstAt(n, t) && Due(tx) == if t < n then n - t else 0
  }

  lemma ReloadOwes(tx: Tx)
    ensures Reload(tx).remaining > 0 <==> Due(tx) > 0
    ensures Reload(tx).burst == tx.burst && Due(Reload(tx)) == Due(tx)
  {
    hide LinePush;
    var n := SamplesPerSymbol(tx.mode);
    if tx.remaining == 0 && tx.pending != [] {
      assert n * |tx.pending| == n + n * (|tx.pending| - 1);
    } else if tx.pending == [] {
      assert n * |tx.pending| == 0;
    }
  }

  lemma StepShape(tx: Tx, n: nat, t: nat)
    requires n >= 96 && t < n + 96 && Midway(tx, n, t)
    ensures Step(tx).Some?
    ensures var (next, sample) := Step(tx).value;
            && Midway(next, n, t + 1) && sample.envelope == Shape(n, t) && sample.keyed == (t < n)
  {
    ReloadOwes(tx);
    StepPaysOne(tx);
    StepFrom(tx);
    hide Reload, Step;
  }

  lemma StepFrom(tx: Tx)
    ensures var more := Reload(tx).remaining > 0;
            Step(tx) == match BurstNext(Reload(tx).burst, more)
                        case None => None
                        case Some((burst, envelope)) =>
                          Some((Reload(tx).(burst := burst, remaining := if more then Reload(tx).remaining - 1 else 0),
                                Sample(Reload(tx).level, envelope, more)))
    ensures Due(tx) == 0 && Step(tx).Some? ==> Due(Step(tx).value.0) == 0
  {
    hide LinePush, BurstNext;
    if Due(tx) == 0 {
      NothingOwed(tx);
    }
  }

  lemma {:induction false} ShapeFrom(tx: Tx, n: nat, t: nat, count: nat, i: nat)
    requires n >= 96 && t <= n + 96 && Midway(tx, n, t) && count >= n + 96 - t && i < n + 96 - t
    ensures |Generated(tx, count).1| == n + 96 - t
    ensures var sample := Generated(tx, count).1[i]; sample.envelope == Shape(n, t + i) && sample.keyed == (t + i < n)
    decreases count
  {
    StepShape(tx, n, t);
    hide Step, Midway, Shape;
    var (next, sample) := Step(tx).value;
    var rest := Generated(next, count - 1).1;
    assert Generated(tx, count).1 == [sample] + rest;
    if t + 1 < n + 96 {
      ShapeFrom(next, n, t + 1, count - 1, if i == 0 then 0 else i - 1);
    } else {
      BurstIsOver(next, n, count - 1);
    }
  }

  lemma BurstIsOver(tx: Tx, n: nat, count: nat)
    requires n >= 96 && Midway(tx, n, n + 96)
    ensures Generated(tx, count).1 == []
  {
    ReloadOwes(tx);
    StepFrom(tx);
    hide Reload, Step;
  }

  /** A burst left to run: the carrier rises over 96 samples, stands until every queued bit has been sent, falls over
      96 more and is gone. */
  lemma {:induction false} BurstIsWhole(tx: Tx, count: nat, i: nat)
    requires tx.burst == Idle && tx.remaining == 0 && |tx.pending| >= 20
    ensures var n := (if tx.mode.Afsk1200? then 40 else 5) * |tx.pending|;
            var samples := Generated(tx, count).1;
            && (count >= n + 96 ==> |samples| == n + 96)
            && (count >= n + 96 && i < n + 96 ==>
                  && samples[i].keyed == (i < n)
                  && samples[i].envelope == if i < 96 then Ramp(i) else if i < n then Full else Ramp(n + 95 - i))
  {
    var n := (if tx.mode.Afsk1200? then 40 else 5) * |tx.pending|;
    assert n == Due(tx) >= 96;
    if count >= n + 96 {
      ShapeFrom(tx, n, 0, count, if i < n + 96 then i else 0);
    }
    hide Generated;
  }

  /** What an accepted frame adds to an empty queue is enough for a whole burst. */
  lemma {:induction false} AcceptedIsLong(tx: Tx, frame: Frame)
    requires tx.pending == [] && Accepts(tx, frame)
    ensures |Submitted(tx, frame).pending| >= 20
  {
    FlagsLength(24);
    hide FrameBits, Flags;
  }
}
