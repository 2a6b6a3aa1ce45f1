/** Soft-decision repair of `adsb.rs`: the six least reliable bits are flipped in every
    combination until the parity points at an aircraft that is vouched for. */
module Chase {
  import opened Wrappers
  import opened Bytes
  import opened ModeS

  const DF_BITS: nat := 5
  const CHASE_BITS: nat := 6
  const ADDRESS_PARITY_FLIPS: nat := 2

  // ---- The weakest bits ----

  /** A bit and how far apart its two slots were; `Unset` stands for the initial infinity. */
  datatype Entry = Unset | Entry(reliability: real, bit: nat)

  predicate Below(a: Entry, b: Entry) {
    a.Entry? && (b.Unset? || a.reliability < b.reliability)
  }

  /** A stable sort of a list that is sorted but for a new last entry. */
  function Insert(sorted: seq<Entry>, e: Entry): (w: seq<Entry>)
    ensures |w| == |sorted| + 1
    decreases |sorted|
  {
    if sorted == [] then [e]
    else if Below(e, sorted[0]) then [e] + sorted
    else [sorted[0]] + Insert(sorted[1..], e)
  }

  function Consider(weakest: seq<Entry>, e: Entry): (w: seq<Entry>)
    requires |weakest| == CHASE_BITS
    ensures |w| == CHASE_BITS
  {
    if Below(e, weakest[CHASE_BITS - 1]) then Insert(weakest[..CHASE_BITS - 1], e) else weakest
  }

  /** The six weakest of the bits after the format field and before `n`. */
  function WeakestBefore(reliability: seq<real>, n: nat): (w: seq<Entry>)
    requires DF_BITS <= n <= |reliability|
    ensures |w| == CHASE_BITS
    decreases n
  {
    if n == DF_BITS then seq(CHASE_BITS, _ => Unset)
    else Consider(WeakestBefore(reliability, n - 1), Entry(reliability[n - 1], n - 1))
  }

  function Position(e: Entry): nat {
    if e.Unset? then 0 else e.bit
  }

  function WeakestOf(reliability: seq<real>): (bits: seq<nat>)
    requires |reliability| >= DF_BITS
    ensures |bits| == CHASE_BITS
  {
    var w := WeakestBefore(reliability, |reliability|);
    seq(CHASE_BITS, k requires 0 <= k < CHASE_BITS => Position(w[k]))
  }

  method WeakestBits(reliability: seq<real>) returns (bits: seq<nat>)
    requires |reliability| >= DF_BITS
    ensures bits == WeakestOf(reliability)
  {
    hide Consider;
    var weakest := seq(CHASE_BITS, _ => Unset);
    for bit := DF_BITS to |reliability|
      invariant weakest == WeakestBefore(reliability, bit)
    {
      weakest := Consider(weakest, Entry(reliability[bit], bit));
    }
    bits := seq(CHASE_BITS, k requires 0 <= k < CHASE_BITS => Position(weakest[k]));
  }

  /** Less reliable, or as reliable and earlier. */
  ghost predicate Precedes(a: Entry, b: Entry) {
    a.Entry? && (b.Unset? || a.reliability < b.reliability || (a.reliability == b.reliability && a.bit < b.bit))
  }

  ghost predicate Ordered(w: seq<Entry>) {
    forall j, k :: 0 <= j < k < |w| ==> w[k].Unset? || Precedes(w[j], w[k])
  }

  /** `e` comes after everything in the list. */
  ghost predicate Later(w: seq<Entry>, e: Entry) {
    e.Entry? && forall x :: x in w && x.Entry? ==> x.bit < e.bit
  }

  lemma {:induction false} InsertContents(sorted: seq<Entry>, e: Entry)
    ensures multiset(Insert(sorted, e)) == multiset(sorted) + multiset{e}
    decreases |sorted|
  {
    if sorted != [] {
      assert sorted == [sorted[0]] + sorted[1..];
      InsertContents(sorted[1..], e);
    }
  }

  lemma {:induction false} InsertOrdered(sorted: seq<Entry>, e: Entry)
    requires Ordered(sorted) && Later(sorted, e)
    ensures Ordered(Insert(sorted, e))
    decreases |sorted|
  {
    if sorted != [] {
      var head, tail := sorted[0], sorted[1..];
      if Below(e, head) {
        assert forall k :: 0 <= k < |sorted| ==> sorted[k].Unset? || Precedes(e, sorted[k]);
      } else {
        InsertOrdered(tail, e);
        InsertContents(tail, e);
        var w := Insert(tail, e);
        forall k | 0 <= k < |w|
          ensures w[k].Unset? || Precedes(head, w[k])
        {
          MemberOf(w, k, tail, e);
          assert head in sorted;
        }
      }
    }
  }

  /** An entry of a list with the contents of `tail` and `e` is `e` or one of `tail`. */
  lemma MemberOf(w: seq<Entry>, k: nat, tail: seq<Entry>, e: Entry)
    requires multiset(w) == multiset(tail) + multiset{e} && k < |w|
    ensures w[k] == e || exists j :: 0 <= j < |tail| && tail[j] == w[k]
  {
    assert w[k] in multiset(w);
    assert w[k] == e || w[k] in multiset(tail);
  }

  /** `w` holds the weakest bits from the format field up to `n`, each once. */
  ghost predicate Weakest(reliability: seq<real>, n: nat, w: seq<Entry>)
    requires DF_BITS <= n <= |reliability|
  {
    && |w| == CHASE_BITS && Ordered(w)
    && Genuine(reliability, n, w) && Once(w) && AllKept(reliability, n, w)
    && multiset(w)[Unset] == Vacant(n)
  }

  ghost predicate Genuine(reliability: seq<real>, n: nat, w: seq<Entry>)
    requires n <= |reliability|
  {
    forall e :: e in w && e.Entry? ==> DF_BITS <= e.bit < n && e.reliability == reliability[e.bit]
  }

  ghost predicate Once(w: seq<Entry>) {
    forall e :: e in w && e.Entry? ==> multiset(w)[e] == 1
  }

  ghost predicate AllKept(reliability: seq<real>, n: nat, w: seq<Entry>)
    requires |w| == CHASE_BITS && n <= |reliability|
  {
    forall p :: DF_BITS <= p < n ==> Kept(w, Entry(reliability[p], p))
  }

  /** Places still unset after the bits before `n`. */
  function Vacant(n: nat): nat {
    if n < DF_BITS + CHASE_BITS then DF_BITS + CHASE_BITS - n else 0
  }

  /** An entry is in the list, or comes after the last of it. */
  ghost predicate Kept(w: seq<Entry>, e: Entry)
    requires |w| == CHASE_BITS
  {
    e in w || Precedes(w[CHASE_BITS - 1], e)
  }

  lemma NoUnset(w: seq<Entry>)
    requires |w| == CHASE_BITS && Ordered(w) && w[CHASE_BITS - 1].Entry?
    ensures Unset !in w && multiset(w)[Unset] == 0
  {
    forall k | 0 <= k < CHASE_BITS
      ensures w[k] != Unset
    {
      assert k < CHASE_BITS - 1 ==> Precedes(w[k], w[CHASE_BITS - 1]);
    }
  }

  /** Taking in one entry drops the last of the list, and that one alone. */
  lemma ConsiderContents(w: seq<Entry>, e: Entry)
    requires |w| == CHASE_BITS && Ordered(w) && Below(e, w[CHASE_BITS - 1]) && Later(w, e)
    ensures var last := w[CHASE_BITS - 1];
            && multiset(Consider(w, e)) == multiset(w) - multiset{last} + multiset{e}
            && Ordered(Consider(w, e))
            && (last.Unset? || Precedes(Consider(w, e)[CHASE_BITS - 1], last))
  {
    var head, last := w[..CHASE_BITS - 1], w[CHASE_BITS - 1];
    assert w == head + [last];
    InsertContents(head, e);
    InsertOrdered(head, e);
    var w' := Consider(w, e);
    hide Insert, Ordered;
    MemberOf(w', CHASE_BITS - 1, head, e);
    assert forall j :: 0 <= j < |head| ==> last.Unset? || Precedes(head[j], last) by {
      assert forall j :: 0 <= j < |head| ==> head[j] == w[j];
      OrderedLast(w);
    }
  }

  lemma OrderedLast(w: seq<Entry>)
    requires |w| == CHASE_BITS && Ordered(w)
    ensures forall j :: 0 <= j < CHASE_BITS - 1 ==> w[CHASE_BITS - 1].Unset? || Precedes(w[j], w[CHASE_BITS - 1])
  {}

  lemma ConsiderKeeps(w: seq<Entry>, e: Entry, p: Entry)
    requires |w| == CHASE_BITS && Ordered(w) && Below(e, w[CHASE_BITS - 1]) && Later(w, e) && Kept(w, p) && p.Entry?
    ensures Kept(Consider(w, e), p)
  {
    ConsiderContents(w, e);
    var w', last := Consider(w, e), w[CHASE_BITS - 1];
    hide Consider, Ordered;
    if p in w && p != last {
      assert p in multiset(w) && multiset(w')[p] >= multiset(w)[p];
      assert p in multiset(w');
    }
  }

  lemma TakesIn(reliability: seq<real>, n: nat, w: seq<Entry>)
    requires DF_BITS <= n < |reliability| && Weakest(reliability, n, w)
    requires Below(Entry(reliability[n], n), w[CHASE_BITS - 1])
    ensures Weakest(reliability, n + 1, Consider(w, Entry(reliability[n], n)))
  {
    var e, last := Entry(reliability[n], n), w[CHASE_BITS - 1];
    var w' := Consider(w, e);
    GenuineIsEarlier(reliability, n, w);
    hide Consider, Below, Ordered, Insert, Kept, Later;
    ConsiderContents(w, e);
    ContentsStep(w, w', e, last);
    forall p | DF_BITS <= p < n + 1
      ensures Kept(w', Entry(reliability[p], p))
    {
      if p == n {
        KeptMember(w', e);
      } else {
        ConsiderKeeps(w, e, Entry(reliability[p], p));
      }
    }
    if last.Entry? {
      NoUnset(w);
    }
  }

  lemma GenuineIsEarlier(reliability: seq<real>, n: nat, w: seq<Entry>)
    requires n < |reliability| && Genuine(reliability, n, w)
    ensures Later(w, Entry(reliability[n], n))
  {}

  lemma KeptMember(w: seq<Entry>, e: Entry)
    requires |w| == CHASE_BITS && e in w
    ensures Kept(w, e)
  {}

  lemma ConsiderStep(reliability: seq<real>, n: nat, w: seq<Entry>)
    requires DF_BITS <= n < |reliability| && Weakest(reliability, n, w)
    ensures Weakest(reliability, n + 1, Consider(w, Entry(reliability[n], n)))
  {
    if Below(Entry(reliability[n], n), w[CHASE_BITS - 1]) {
      TakesIn(reliability, n, w);
    } else {
      NoUnset(w);
      assert w[CHASE_BITS - 1] in w;
    }
  }

  lemma ContentsStep(w: seq<Entry>, w': seq<Entry>, e: Entry, last: Entry)
    requires multiset(w') == multiset(w) - multiset{last} + multiset{e}
    requires e !in w && last in w && Once(w)
    ensures e in w' && Once(w')
    ensures forall x :: x in w' ==> x == e || x in w
    ensures multiset(w')[Unset] == multiset(w)[Unset] - (if last == Unset then 1 else 0) + (if e == Unset then 1 else 0)
  {
    assert last in multiset(w);
    assert e in multiset(w');
    forall x | x in w'
      ensures (x == e || x in w) && (x.Entry? ==> multiset(w')[x] == 1)
    {
      assert x in multiset(w');
      assert x != e ==> x in multiset(w);
    }
  }

  lemma {:induction false} WeakestBeforeHolds(reliability: seq<real>, n: nat)
    requires DF_BITS <= n <= |reliability|
    ensures Weakest(reliability, n, WeakestBefore(reliability, n))
    decreases n
  {
    hide Weakest, Consider;
    if n == DF_BITS {
      NothingConsidered(reliability);
    } else {
      WeakestBeforeHolds(reliability, n - 1);
      ConsiderStep(reliability, n - 1, WeakestBefore(reliability, n - 1));
    }
  }

  lemma NothingConsidered(reliability: seq<real>)
    requires |reliability| >= DF_BITS
    ensures Weakest(reliability, DF_BITS, WeakestBefore(reliability, DF_BITS))
  {
    var w := WeakestBefore(reliability, DF_BITS);
    assert w == [Unset, Unset, Unset, Unset, Unset, Unset];
  }

  /** For all finite reliabilities of a whole frame: six distinct bits outside the format field, the least reliable first,
      and any bit left out comes after all of them; of bits equally reliable the earlier comes first. */
  lemma WeakestAreWeakest(reliability: seq<real>)
    requires |reliability| >= 11
    ensures var bits := WeakestOf(reliability);
            && |bits| == 6
            && (forall k :: 0 <= k < 6 ==> 5 <= bits[k] < |reliability|)
            && (forall j, k :: 0 <= j < k < 6 ==> Weaker(reliability, bits[j], bits[k]))
            && (forall k, p :: 0 <= k < 6 && 5 <= p < |reliability| && p !in bits ==> Weaker(reliability, bits[k], p))
  {
    var n, bits := |reliability|, WeakestOf(reliability);
    var w := WeakestBefore(reliability, n);
    WeakestBeforeHolds(reliability, n);
    hide WeakestBefore;
    forall k | 0 <= k < CHASE_BITS
      ensures w[k].Entry? && w[k] == Entry(reliability[bits[k]], bits[k]) && DF_BITS <= bits[k] < n
    {
      assert w[k] in multiset(w);
    }
    forall j, k | 0 <= j < k < CHASE_BITS
      ensures Weaker(reliability, bits[j], bits[k])
    {
      assert Precedes(w[j], w[k]);
    }
    forall k, p | 0 <= k < CHASE_BITS && DF_BITS <= p < n && p !in bits
      ensures Weaker(reliability, bits[k], p)
    {
      var e := Entry(reliability[p], p);
      assert Kept(w, e);
      assert forall j :: 0 <= j < CHASE_BITS ==> bits[j] != p && w[j] != e;
      assert k < CHASE_BITS - 1 ==> Precedes(w[k], w[CHASE_BITS - 1]);
    }
  }

  ghost predicate Weaker(reliability: seq<real>, a: nat, b: nat)
    requires a < |reliability| && b < |reliability|
  {
    reliability[a] < reliability[b] || (reliability[a] == reliability[b] && a < b)
  }

  // ---- The repair ----

  /** A received frame: its bits and their reliabilities. */
  datatype Sliced = Sliced(frame: Bits, reliability: seq<real>, confidence: real)

  ghost predicate Whole(sliced: Sliced) {
    |sliced.frame| == LONG_BITS && |sliced.reliability| == LONG_BITS
  }

  /** The format number, the first five bits. */
  function Df(frame: Bits): nat
    requires |frame| >= DF_BITS
  {
    Value(frame[..DF_BITS])
  }

  /** The address carried in clear. */
  function ClearAddress(frame: Bits): Reg
    requires |frame| >= 32
  {
    Aligned(frame[8..32])
  }

  predicate ExtendedSquitter(df: nat) {
    df == 17 || df == 18
  }

  /** Length of the formats the repair takes on, in bits. */
  function ChaseLength(df: nat): Option<nat> {
    if df in {0, 4, 5} then Some(SHORT_BITS)
    else if df in {16, 17, 18, 20, 21} then Some(LONG_BITS)
    else None
  }

  function MostFlips(df: nat): nat {
    if ExtendedSquitter(df) then CHASE_BITS else ADDRESS_PARITY_FLIPS
  }

  /** The positions whose place in `weakest` has its bit set in `mask`. */
  function Chosen(weakest: seq<nat>, mask: nat): (positions: seq<nat>)
    ensures forall p :: p in positions ==> p in weakest
    decreases |weakest|
  {
    if weakest == [] then []
    else (if mask % 2 == 1 then [weakest[0]] else []) + Chosen(weakest[1..], mask / 2)
  }

  function CountOnes(mask: nat): nat {
    if mask == 0 then 0 else mask % 2 + CountOnes(mask / 2)
  }

  /** The address a flipped frame points at, if its parity allows one. */
  function PointsAt(df: nat, overlay: Reg, flipped: Bits): Option<Reg>
    requires |flipped| >= 32
  {
    if !ExtendedSquitter(df) then Some(overlay)
    else if overlay == 0 then Some(ClearAddress(flipped))
    else None
  }

  ghost predicate Inside(positions: seq<nat>, n: nat) {
    forall k :: 0 <= k < |positions| ==> positions[k] < n
  }

  datatype Repair = Repair(df: nat, len: nat, icao: Reg, frame: Bits)

  /** One combination of flips, judged by the accumulated overlay. */
  function Attempt(frame: Bits, df: nat, len: nat, weakest: seq<nat>, mask: nat, vouched: Reg -> bool)
    : (r: Option<Repair>)
    requires |frame| == LONG_BITS && 32 <= len <= LONG_BITS && Inside(weakest, len)
    ensures r.Some? ==> |r.value.frame| == LONG_BITS && r.value.df == df && r.value.len == len
  {
    var positions := Chosen(weakest, mask);
    assert Inside(positions, len) by { ChosenInside(weakest, mask, len); }
    var overlay := Accumulated(OverlayOf(frame[..len]), BitOverlays(len), positions);
    var flipped := FlipAll(frame, positions);
    var icao :- PointsAt(df, overlay, flipped);
    if vouched(icao) then Some(Repair(df, len, icao, flipped)) else None
  }

  lemma ChosenInside(weakest: seq<nat>, mask: nat, n: nat)
    requires Inside(weakest, n)
    ensures Inside(Chosen(weakest, mask), n)
  {
    forall k | 0 <= k < |Chosen(weakest, mask)|
      ensures Chosen(weakest, mask)[k] < n
    {
      assert Chosen(weakest, mask)[k] in weakest;
    }
  }

  const MASKS: nat := 64

  predicate Tried(df: nat, mask: nat) {
    1 <= mask < MASKS && CountOnes(mask) <= MostFlips(df)
  }

  /** The first combination from `mask` on that works. */
  function FirstRepair(frame: Bits, df: nat, len: nat, weakest: seq<nat>, mask: nat, vouched: Reg -> bool)
    : (r: Option<Repair>)
    requires |frame| == LONG_BITS && 32 <= len <= LONG_BITS && Inside(weakest, len) && mask <= MASKS
    ensures r.Some? ==> |r.value.frame| == LONG_BITS && r.value.df == df && r.value.len == len
    decreases MASKS - mask
  {
    if mask == MASKS then None
    else if Tried(df, mask) && Attempt(frame, df, len, weakest, mask, vouched).Some?
    then Attempt(frame, df, len, weakest, mask, vouched)
    else FirstRepair(frame, df, len, weakest, mask + 1, vouched)
  }

  lemma WeakestInside(reliability: seq<real>)
    requires |reliability| >= DF_BITS + CHASE_BITS
    ensures Inside(WeakestOf(reliability), |reliability|)
  {
    WeakestAreWeakest(reliability);
  }

  function Chased(sliced: Sliced, vouched: Reg -> bool): (r: Option<Repair>)
    requires Whole(sliced)
    ensures r.Some? ==> |r.value.frame| == LONG_BITS && ChaseLength(r.value.df) == Some(r.value.len)
  {
    var df := Df(sliced.frame);
    var len :- ChaseLength(df);
    var weakest := WeakestOf(sliced.reliability[..len]);
    assert Inside(weakest, len) by { WeakestInside(sliced.reliability[..len]); }
    FirstRepair(sliced.frame, df, len, weakest, 1, vouched)
  }

  /** The loop of `chase` over the masks. */
  method Chase(sliced: Sliced, vouched: Reg -> bool) returns (repair: Option<Repair>)
    requires Whole(sliced)
    ensures repair == Chased(sliced, vouched)
  {
    hide WeakestOf, Attempt, Df, CountOnes;
    var df := Df(sliced.frame);
    var length := ChaseLength(df);
    if length == None {
      return None;
    }
    var len := length.value;
    var weakest := WeakestBits(sliced.reliability[..len]);
    WeakestInside(sliced.reliability[..len]);
    for mask := 1 to MASKS
      invariant Chased(sliced, vouched) == FirstRepair(sliced.frame, df, len, weakest, mask, vouched)
    {
      if CountOnes(mask) <= MostFlips(df) {
        var attempt := Attempt(sliced.frame, df, len, weakest, mask, vouched);
        if attempt.Some? {
          return attempt;
        }
      }
    }
    return None;
  }

  // ---- Soundness of the repair ----

  lemma {:induction false} FlipAllPrefix(frame: Bits, positions: seq<nat>, n: nat)
    requires n <= |frame| && Inside(positions, n)
    ensures FlipAll(frame, positions)[..n] == FlipAll(frame[..n], positions)
    decreases |positions|
  {
    if positions != [] {
      assert Flip(frame, positions[0])[..n] == Flip(frame[..n], positions[0]);
      FlipAllPrefix(Flip(frame, positions[0]), positions[1..], n);
    }
  }

  lemma {:induction false} CountIsChosen(weakest: seq<nat>, mask: nat, limit: nat)
    requires limit == Power(|weakest|) && mask < limit
    ensures |Chosen(weakest, mask)| == CountOnes(mask)
    decreases |weakest|
  {
    if weakest != [] {
      CountIsChosen(weakest[1..], mask / 2, Power(|weakest| - 1));
    }
  }

  function Power(k: nat): nat {
    if k == 0 then 1 else 2 * Power(k - 1)
  }

  ghost predicate Unrepeated(positions: seq<nat>) {
    forall j, k :: 0 <= j < k < |positions| ==> positions[j] != positions[k]
  }

  /** A combination the repair may flip: one or more of the weakest bits, each once, as many as the format allows. */
  ghost predicate Permitted(sliced: Sliced, df: nat, len: nat, positions: seq<nat>)
    requires Whole(sliced) && DF_BITS <= len <= LONG_BITS
  {
    && 1 <= |positions| <= MostFlips(df) && Inside(positions, len) && Unrepeated(positions)
    && forall k :: 0 <= k < |positions| ==> positions[k] in WeakestOf(sliced.reliability[..len])
  }

  /** The flipped frame's own parity points at an address that is vouched for. */
  ghost predicate Mends(sliced: Sliced, df: nat, len: nat, positions: seq<nat>, vouched: Reg -> bool)
    requires Whole(sliced) && 32 <= len <= LONG_BITS && Inside(positions, len)
  {
    var flipped := FlipAll(sliced.frame, positions);
    if ExtendedSquitter(df) then Overlay(flipped[..len]) == Some(0) && vouched(ClearAddress(flipped))
    else Overlay(flipped[..len]).Some? && vouched(Overlay(flipped[..len]).value)
  }

  /** What a repair must be, said without the table: a few of the weakest bits flipped, and a
      frame whose own parity gives the address. */
  ghost predicate SoundRepair(sliced: Sliced, r: Repair, positions: seq<nat>, vouched: Reg -> bool)
    requires Whole(sliced)
  {
    && ChaseLength(r.df) == Some(r.len) && r.df == Df(sliced.frame)
    && Permitted(sliced, r.df, r.len, positions)
    && r.frame == FlipAll(sliced.frame, positions)
    && Df(r.frame) == r.df
    && vouched(r.icao)
    && (if ExtendedSquitter(r.df) then Overlay(r.frame[..r.len]) == Some(0) && r.icao == ClearAddress(r.frame)
        else Overlay(r.frame[..r.len]) == Some(r.icao))
  }

  /** Flips outside the format field leave the format alone. */
  lemma FormatKept(frame: Bits, positions: seq<nat>)
    requires |frame| >= DF_BITS && Inside(positions, |frame|)
    requires forall k :: 0 <= k < |positions| ==> DF_BITS <= positions[k]
    ensures Df(FlipAll(frame, positions)) == Df(frame)
  {
    var flipped := FlipAll(frame, positions);
    forall i | 0 <= i < DF_BITS
      ensures flipped[i] == frame[i]
    {
      FlipAllElsewhere(frame, positions, i);
    }
    assert flipped[..DF_BITS] == frame[..DF_BITS];
  }

  lemma AttemptIsSound(sliced: Sliced, df: nat, len: nat, mask: nat, vouched: Reg -> bool)
    requires Whole(sliced) && df == Df(sliced.frame) && ChaseLength(df) == Some(len) && Tried(df, mask)
    requires var weakest := WeakestOf(sliced.reliability[..len]);
             Inside(weakest, len) && Attempt(sliced.frame, df, len, weakest, mask, vouched).Some?
    ensures var weakest := WeakestOf(sliced.reliability[..len]);
            SoundRepair(sliced, Attempt(sliced.frame, df, len, weakest, mask, vouched).value,
                        Chosen(weakest, mask), vouched)
  {
    hide WeakestOf, OverlayOf, Aligned, Value, Accumulated, BitOverlays, Chosen, Df, FlipAll, CountOnes;
    var positions := Chosen(WeakestOf(sliced.reliability[..len]), mask);
    ChosenFacts(sliced.reliability[..len], df, mask);
    AccumulatedIsExact(sliced.frame[..len], positions);
    FlipAllPrefix(sliced.frame, positions, len);
    FormatKept(sliced.frame, positions);
  }

  lemma {:induction false} ChosenDistinct(weakest: seq<nat>, mask: nat)
    requires Unrepeated(weakest)
    ensures Unrepeated(Chosen(weakest, mask))
    decreases |weakest|
  {
    if weakest != [] {
      var rest := Chosen(weakest[1..], mask / 2);
      ChosenDistinct(weakest[1..], mask / 2);
      assert weakest[0] !in weakest[1..];
      hide Chosen;
      assert weakest[0] !in rest;
      assert Unrepeated([weakest[0]] + rest);
      assert [] + rest == rest;
    }
  }

  /** The flips of one attempt: not none, not too many, each once, and only among the weakest bits. */
  lemma ChosenFacts(reliability: seq<real>, df: nat, mask: nat)
    requires |reliability| >= DF_BITS + CHASE_BITS && Tried(df, mask)
    ensures var weakest := WeakestOf(reliability);
            var positions := Chosen(weakest, mask);
            && 1 <= |positions| <= MostFlips(df)
            && Inside(positions, |reliability|) && Unrepeated(positions)
            && forall k :: 0 <= k < |positions| ==> DF_BITS <= positions[k] && positions[k] in weakest
  {
    var weakest := WeakestOf(reliability);
    WeakestAreWeakest(reliability);
    hide WeakestOf;
    assert Power(6) == 64;
    CountIsChosen(weakest, mask, MASKS);
    SomeOne(mask);
    ChosenInside(weakest, mask, |reliability|);
    ChosenDistinct(weakest, mask);
    var positions := Chosen(weakest, mask);
    hide Chosen, CountOnes, Unrepeated;
    forall k | 0 <= k < |positions|
      ensures DF_BITS <= positions[k] && positions[k] in weakest
    {
      assert positions[k] in positions;
    }
  }

  lemma SomeOne(mask: nat)
    ensures mask > 0 ==> CountOnes(mask) > 0
  {}

  lemma {:induction false} FirstRepairSearches(frame: Bits, df: nat, len: nat, weakest: seq<nat>, mask: nat,
                                               vouched: Reg -> bool)
    returns (found: nat)
    requires |frame| == LONG_BITS && 32 <= len <= LONG_BITS && Inside(weakest, len) && mask <= MASKS
    ensures var r := FirstRepair(frame, df, len, weakest, mask, vouched);
            if r.Some? then
              Tried(df, found) && r == Attempt(frame, df, len, weakest, found, vouched)
            else
              forall m :: mask <= m && Tried(df, m) ==> Attempt(frame, df, len, weakest, m, vouched) == None
    decreases MASKS - mask
  {
    hide Attempt, CountOnes;
    found := mask;
    if mask < MASKS && !(Tried(df, mask) && Attempt(frame, df, len, weakest, mask, vouched).Some?) {
      found := FirstRepairSearches(frame, df, len, weakest, mask + 1, vouched);
    }
  }

  // ---- Every combination is tried ----

  ghost predicate Unmendable(sliced: Sliced, df: nat, len: nat, vouched: Reg -> bool)
    requires Whole(sliced) && 32 <= len <= LONG_BITS
  {
    forall positions :: Permitted(sliced, df, len, positions) ==> !Mends(sliced, df, len, positions, vouched)
  }

  function MaskOf(weakest: seq<nat>, wanted: seq<nat>): nat {
    if weakest == [] then 0 else (if weakest[0] in wanted then 1 else 0) + 2 * MaskOf(weakest[1..], wanted)
  }

  lemma {:induction false} MaskChooses(weakest: seq<nat>, wanted: seq<nat>)
    ensures MaskOf(weakest, wanted) < Power(|weakest|)
    ensures forall p :: p in Chosen(weakest, MaskOf(weakest, wanted)) <==> p in weakest && p in wanted
    decreases |weakest|
  {
    if weakest != [] {
      var first, rest := weakest[0], weakest[1..];
      MaskChooses(rest, wanted);
      var m := MaskOf(rest, wanted);
      var mask := MaskOf(weakest, wanted);
      assert mask / 2 == m && (mask % 2 == 1 <==> first in wanted);
      assert Chosen(weakest, mask) == (if first in wanted then [first] else []) + Chosen(rest, m);
      hide Chosen, MaskOf;
      assert forall p :: p in weakest <==> p == first || p in rest;
    }
  }

  function SetOf(a: seq<nat>): set<nat> {
    set p | p in a
  }

  lemma {:induction false} DistinctSize(a: seq<nat>)
    requires Unrepeated(a)
    ensures |SetOf(a)| == |a|
    decreases |a|
  {
    if a == [] {
      assert SetOf(a) == {};
    } else {
      DistinctSize(a[1..]);
      assert a[0] !in a[1..];
      var rest := SetOf(a[1..]);
      assert a[0] !in rest && SetOf(a) == rest + {a[0]};
      hide SetOf;
    }
  }

  lemma {:induction false} FlipAllFlips(frame: Bits, positions: seq<nat>, i: nat)
    requires Inside(positions, |frame|) && Unrepeated(positions) && i < |frame|
    ensures FlipAll(frame, positions)[i] == (frame[i] != (i in positions))
    decreases |positions|
  {
    if positions != [] {
      assert positions[0] !in positions[1..];
      FlipAllFlips(Flip(frame, positions[0]), positions[1..], i);
      hide FlipAll;
      assert i in positions <==> i == positions[0] || i in positions[1..];
    }
  }

  /** Unrepeated lists of the same positions flip the same bits. */
  lemma {:induction false} SameFlips(frame: Bits, a: seq<nat>, b: seq<nat>)
    requires Inside(a, |frame|) && Inside(b, |frame|) && Unrepeated(a) && Unrepeated(b) && (forall p :: p in a <==> p in b)
    ensures |a| == |b| && FlipAll(frame, a) == FlipAll(frame, b)
  {
    DistinctSize(a);
    DistinctSize(b);
    assert SetOf(a) == SetOf(b);
    hide FlipAll, Unrepeated;
    forall i | 0 <= i < |frame|
      ensures FlipAll(frame, a)[i] == FlipAll(frame, b)[i]
    {
      FlipAllFlips(frame, a, i);
      FlipAllFlips(frame, b, i);
    }
  }

  lemma {:induction false} CombinationIsTried(sliced: Sliced, df: nat, len: nat, positions: seq<nat>) returns (mask: nat)
    requires Whole(sliced) && 32 <= len <= LONG_BITS && Permitted(sliced, df, len, positions)
    ensures Tried(df, mask)
    ensures var chosen := Chosen(WeakestOf(sliced.reliability[..len]), mask);
            Inside(chosen, len) && FlipAll(sliced.frame, chosen) == FlipAll(sliced.frame, positions)
  {
    var weakest := WeakestOf(sliced.reliability[..len]);
    WeakestAreWeakest(sliced.reliability[..len]);
    mask := MaskOf(weakest, positions);
    var chosen := Chosen(weakest, mask);
    MaskChooses(weakest, positions);
    assert Power(6) == 64;
    CountIsChosen(weakest, mask, MASKS);
    ChosenDistinct(weakest, mask);
    ChosenInside(weakest, mask, len);
    hide WeakestOf, Chosen, MaskOf, FlipAll, Unrepeated, CountOnes;
    assert forall p :: p in positions ==> p in weakest;
    SameFlips(sliced.frame, chosen, positions);
    assert CountOnes(0) == 0 by { NoOnes(); }
  }

  lemma NoOnes()
    ensures CountOnes(0) == 0
  {}

  lemma AttemptMends(sliced: Sliced, df: nat, len: nat, mask: nat, vouched: Reg -> bool)
    requires Whole(sliced) && ChaseLength(df) == Some(len) && Tried(df, mask)
    requires Inside(WeakestOf(sliced.reliability[..len]), len)
    ensures var weakest := WeakestOf(sliced.reliability[..len]);
            Inside(Chosen(weakest, mask), len)
            && (Attempt(sliced.frame, df, len, weakest, mask, vouched).Some?
                <==> Mends(sliced, df, len, Chosen(weakest, mask), vouched))
  {
    hide WeakestOf, OverlayOf, Aligned, Value, Accumulated, BitOverlays, Chosen, Df, FlipAll, CountOnes;
    var weakest := WeakestOf(sliced.reliability[..len]);
    var positions := Chosen(weakest, mask);
    ChosenInside(weakest, mask, len);
    AccumulatedIsExact(sliced.frame[..len], positions);
    FlipAllPrefix(sliced.frame, positions, len);
  }

  /** Repair is exact: what comes back is a sound repair, and nothing comes back only when no permitted combination of
      the weakest bits gives, by the flipped frame's own parity, an address that is vouched for. */
  lemma ChaseIsExact(sliced: Sliced, vouched: Reg -> bool)
    requires Whole(sliced)
    ensures var r, df := Chased(sliced, vouched), Df(sliced.frame);
            && (r.Some? ==> exists positions :: SoundRepair(sliced, r.value, positions, vouched))
            && (r == None <==> ChaseLength(df) == None || Unmendable(sliced, df, ChaseLength(df).value, vouched))
  {
    var df := Df(sliced.frame);
    if ChaseLength(df).Some? {
      var len := ChaseLength(df).value;
      var weakest := WeakestOf(sliced.reliability[..len]);
      WeakestInside(sliced.reliability[..len]);
      hide WeakestOf, Attempt, Df, CountOnes, SoundRepair, Permitted, Mends, FlipAll;
      var found := FirstRepairSearches(sliced.frame, df, len, weakest, 1, vouched);
      if Chased(sliced, vouched).Some? {
        AttemptIsSound(sliced, df, len, found, vouched);
        SoundWorks(sliced, Chased(sliced, vouched).value, Chosen(weakest, found), vouched);
      } else {
        forall positions | Permitted(sliced, df, len, positions)
          ensures !Mends(sliced, df, len, positions, vouched)
        {
          var mask := CombinationIsTried(sliced, df, len, positions);
          AttemptMends(sliced, df, len, mask, vouched);
          SameMends(sliced, df, len, Chosen(weakest, mask), positions, vouched);
        }
      }
    }
  }

  lemma SoundWorks(sliced: Sliced, r: Repair, positions: seq<nat>, vouched: Reg -> bool)
    requires Whole(sliced) && SoundRepair(sliced, r, positions, vouched)
    ensures Permitted(sliced, r.df, r.len, positions) && Mends(sliced, r.df, r.len, positions, vouched)
  {
    hide WeakestOf, Overlay, FlipAll, Df, Aligned;
  }

  lemma SameMends(sliced: Sliced, df: nat, len: nat, a: seq<nat>, b: seq<nat>, vouched: Reg -> bool)
    requires Whole(sliced) && 32 <= len <= LONG_BITS && Inside(a, len) && Inside(b, len)
    requires FlipAll(sliced.frame, a) == FlipAll(sliced.frame, b)
    ensures Mends(sliced, df, len, a, vouched) <==> Mends(sliced, df, len, b, vouched)
  {
    hide FlipAll, Overlay;
  }

  // ---- The same, format by format ----

  ghost predicate AmongWeakest(positions: seq<nat>, reliability: seq<real>)
    requires |reliability| >= 11
  {
    forall k :: 0 <= k < |positions| ==> positions[k] in WeakestOf(reliability)
  }

  /** Flips that turn what was received into a message of the aircraft `icao`: up to six that leave an extended
      squitter without remainder, or up to two that leave the address of a reply over its parity. */
  ghost predicate RepairsTo(sliced: Sliced, positions: seq<nat>, icao: Reg, vouched: Reg -> bool)
    requires Whole(sliced)
  {
    && positions != [] && Inside(positions, 112) && Unrepeated(positions) && vouched(icao)
    && var df, flipped := Value(sliced.frame[..5]), FlipAll(sliced.frame, positions);
       if df in {17, 18} then
         && |positions| <= 6 && AmongWeakest(positions, sliced.reliability)
         && OverlayOf(flipped) == 0 && icao == Aligned(flipped[8..32])
       else if df in {16, 20, 21} then
         |positions| <= 2 && AmongWeakest(positions, sliced.reliability) && icao == OverlayOf(flipped)
       else
         && df in {0, 4, 5}
         && |positions| <= 2 && AmongWeakest(positions, sliced.reliability[..56]) && icao == OverlayOf(flipped[..56])
  }

  ghost predicate Repairable(sliced: Sliced, vouched: Reg -> bool)
    requires Whole(sliced)
  {
    exists positions, icao :: RepairsTo(sliced, positions, icao, vouched)
  }

  lemma AmongIsInside(positions: seq<nat>, reliability: seq<real>)
    requires |reliability| >= 11 && AmongWeakest(positions, reliability)
    ensures Inside(positions, |reliability|)
  {
    WeakestAreWeakest(reliability);
    hide WeakestOf;
  }

  /** The combinations tried are the ones a format allows. */
  lemma RepairsAreMends(sliced: Sliced, positions: seq<nat>, icao: Reg, vouched: Reg -> bool)
    requires Whole(sliced)
    ensures RepairsTo(sliced, positions, icao, vouched) <==>
            var df := Df(sliced.frame);
            && ChaseLength(df).Some?
            && (var len := ChaseLength(df).value;
                && Permitted(sliced, df, len, positions)
                && SoundFor(df, len, FlipAll(sliced.frame, positions), icao) && vouched(icao))
  {
    hide WeakestOf, Overlay, OverlayOf, FlipAll, Unrepeated, Aligned, Value;
    assert sliced.reliability[..112] == sliced.reliability;
    if Inside(positions, 112) {
      var flipped := FlipAll(sliced.frame, positions);
      assert flipped[..112] == flipped;
      OverlayAt(flipped);
      OverlayAt(flipped[..56]);
    }
    if AmongWeakest(positions, sliced.reliability) {
      AmongIsInside(positions, sliced.reliability);
    }
    if AmongWeakest(positions, sliced.reliability[..56]) {
      AmongIsInside(positions, sliced.reliability[..56]);
    }
  }

  lemma OverlayAt(frame: Bits)
    requires |frame| == 56 || |frame| == 112
    ensures Overlay(frame) == Some(OverlayOf(frame))
  {
    hide OverlayOf;
  }

  ghost predicate SoundFor(df: nat, len: nat, flipped: Bits, icao: Reg)
    requires |flipped| >= 32 && len <= |flipped|
  {
    if ExtendedSquitter(df) then Overlay(flipped[..len]) == Some(0) && icao == ClearAddress(flipped)
    else Overlay(flipped[..len]) == Some(icao)
  }

  /** Repair by downlink format: something comes back exactly when some flips turn the frame into a message of an
      aircraft that is vouched for, and it is such a message. */
  lemma RepairIsByFormat(sliced: Sliced, vouched: Reg -> bool)
    requires Whole(sliced)
    ensures var r := Chased(sliced, vouched);
            && (r.Some? <==> Repairable(sliced, vouched))
            && (r.Some? ==> exists positions ::
                  RepairsTo(sliced, positions, r.value.icao, vouched) && r.value.frame == FlipAll(sliced.frame, positions))
  {
    var r, df := Chased(sliced, vouched), Df(sliced.frame);
    ChaseIsExact(sliced, vouched);
    hide Chased, Df, FlipAll, Overlay, RepairsTo, Permitted, WeakestOf;
    if r.Some? {
      var positions :| SoundRepair(sliced, r.value, positions, vouched);
      RepairsAreMends(sliced, positions, r.value.icao, vouched);
      assert RepairsTo(sliced, positions, r.value.icao, vouched);
    } else {
      forall positions, icao
        ensures !RepairsTo(sliced, positions, icao, vouched)
      {
        RepairsAreMends(sliced, positions, icao, vouched);
        if ChaseLength(df).Some? {
          assert !(Permitted(sliced, df, ChaseLength(df).value, positions)
                   && Mends(sliced, df, ChaseLength(df).value, positions, vouched));
        }
      }
    }
  }
}
