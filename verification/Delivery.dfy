/** From captured packets to the monitor's display, under every interleaving of the capture thread and
    the monitor thread. */
module Delivery {
  import opened Bytes
  import opened Protocol
  import opened Parser
  import opened Stream
  import opened Resync
  import opened BusController
  import opened Capture
  import opened MonitorText
  import opened Monitor
  import opened Display

  /** `inHand` is the monitor thread's local buffer between taking a payload from the queue and handing it
      to the parser; `rounds` and `batches` record what was parsed and what was taken for the callbacks. */
  datatype State = State(
    queue: seq<seq<byte>>, inHand: seq<byte>, rounds: seq<Round>, relay: Relay, batches: seq<Batch>)

  /** Each step is one critical section: a push by the capture thread, a pop by the monitor thread, or
      the monitor thread's processing of what it popped. */
  datatype Step =
    | Push(payload: seq<byte>)
    | Pop
    | Process(observe: nat -> Observed, now: int)

  function Started(now: int): Relay { Relay([], "", {}, now) }

  function Initial(now: int): State { State([], [], [], Started(now), []) }

  /** A step whose thread is not ready for it changes nothing. */
  function Next(s: State, step: Step): State {
    match step
    case Push(payload) =>
      if payload == [] then s else s.(queue := s.queue + [payload])
    case Pop =>
      if s.inHand != [] || s.queue == [] then s
      else s.(inHand := Clipped(s.queue[0], BUFFER_BYTES), queue := s.queue[1..])
    case Process(observe, now) =>
      if s.inHand == [] then s
      else
        var round := Round(s.inHand, observe, now);
        var (relay, batch) := AfterRound(s.relay, round);
        s.(inHand := [], rounds := s.rounds + [round], relay := relay,
           batches := s.batches + if batch.Some? then [batch.value] else [])
  }

  function Exec(start: int, steps: seq<Step>): State {
    if steps == [] then Initial(start) else Next(Exec(start, steps[..|steps| - 1]), steps[|steps| - 1])
  }

  function Adds(step: Step): seq<seq<byte>> {
    if step.Push? && step.payload != [] then [step.payload] else []
  }

  /** The payloads of a run, by its steps alone: what each push brings, unless it is empty. */
  function Pushed(steps: seq<Step>): seq<seq<byte>> {
    if steps == [] then [] else Pushed(steps[..|steps| - 1]) + Adds(steps[|steps| - 1])
  }

  function ClipAll(payloads: seq<seq<byte>>): (r: seq<seq<byte>>)
    ensures |r| == |payloads|
  {
    seq(|payloads|, i requires 0 <= i < |payloads| => Clipped(payloads[i], BUFFER_BYTES))
  }

  function Hand(s: State): seq<seq<byte>> {
    if s.inHand == [] then [] else [s.inHand]
  }

  ghost predicate Inv(start: int, pushed: seq<seq<byte>>, s: State) {
    && (forall p :: p in s.queue ==> p != [])
    && ClipAll(pushed) == Buffers(s.rounds) + Hand(s) + ClipAll(s.queue)
    && Run(Started(start), s.rounds) == Trace(s.relay, s.batches)
  }

  lemma ClipAllConcat(a: seq<seq<byte>>, b: seq<seq<byte>>)
    ensures ClipAll(a + b) == ClipAll(a) + ClipAll(b)
  {
  }

  lemma {:induction false} BuffersConcat(a: seq<Round>, b: seq<Round>)
    ensures Buffers(a + b) == Buffers(a) + Buffers(b)
  {
    if a == [] {
      assert a + b == b;
    } else {
      BuffersConcat(a[1..], b);
      assert (a + b)[1..] == a[1..] + b;
      ConcatAssociates([a[0].buffer], Buffers(a[1..]), Buffers(b));
    }
  }

  lemma PushKeepsInv(start: int, pushed: seq<seq<byte>>, s: State, payload: seq<byte>)
    requires Inv(start, pushed, s)
    ensures Inv(start, pushed + Adds(Push(payload)), Next(s, Push(payload)))
  {
    hide Run, AfterRound;
    assert pushed + [] == pushed;
    ClipAllConcat(pushed, [payload]);
    ClipAllConcat(s.queue, [payload]);
    ConcatAssociates(Buffers(s.rounds) + Hand(s), ClipAll(s.queue), ClipAll([payload]));
  }

  lemma PopKeepsInv(start: int, pushed: seq<seq<byte>>, s: State)
    requires Inv(start, pushed, s)
    ensures Inv(start, pushed, Next(s, Pop))
  {
    hide Run, AfterRound, Clipped, Flatten;
    if s.inHand == [] && s.queue != [] {
      var p, rest := s.queue[0], s.queue[1..];
      SomethingIsKept(p);
      assert p in s.queue && forall q :: q in rest ==> q in s.queue;
      assert s.queue == [p] + rest;
      ClipAllConcat([p], rest);
      ConcatAssociates(Buffers(s.rounds), [Clipped(p, BUFFER_BYTES)], ClipAll(rest));
    }
  }

  lemma SomethingIsKept(p: seq<byte>)
    ensures p != [] ==> Clipped(p, BUFFER_BYTES) != []
  {
  }

  lemma ProcessKeepsInv(start: int, pushed: seq<seq<byte>>, s: State, observe: nat -> Observed, now: int)
    requires Inv(start, pushed, s)
    ensures Inv(start, pushed, Next(s, Process(observe, now)))
  {
    hide Run, AfterRound;
    if s.inHand != [] {
      var round := Round(s.inHand, observe, now);
      RunSnoc(Started(start), s.rounds, round);
      BuffersConcat(s.rounds, [round]);
      assert Buffers([round]) == [s.inHand] + Buffers([round][1..]);
    }
  }

  /** Every state of every interleaving satisfies the invariant. */
  lemma {:induction false} InvHolds(start: int, steps: seq<Step>)
    ensures Inv(start, Pushed(steps), Exec(start, steps))
  {
    if steps == [] {
      assert Inv(start, [], Initial(start));
    } else {
      var k := |steps| - 1;
      InvHolds(start, steps[..k]);
      hide Inv, Next, Adds;
      StepKeepsInv(start, Pushed(steps[..k]), Exec(start, steps[..k]), steps[k]);
    }
  }

  lemma StepKeepsInv(start: int, pushed: seq<seq<byte>>, s: State, step: Step)
    requires Inv(start, pushed, s)
    ensures Inv(start, pushed + Adds(step), Next(s, step))
  {
    hide Inv, Next;
    assert pushed + [] == pushed;
    match step
    case Push(payload) => PushKeepsInv(start, pushed, s, payload);
    case Pop => PopKeepsInv(start, pushed, s);
    case Process(observe, now) => ProcessKeepsInv(start, pushed, s, observe, now);
  }

  /** The bytes the parser has been given so far. */
  function Fed(s: State): seq<byte> {
    Flatten(Buffers(s.rounds))
  }

  /** Under every interleaving, the bytes parsed, then those in hand, then those queued are the payloads
      pushed, in order, each cut at the size of the monitor's buffer. */
  lemma InOrderDelivery(start: int, steps: seq<Step>)
    ensures var s := Exec(start, steps);
      Fed(s) + s.inHand + Flatten(ClipAll(s.queue)) == Flatten(ClipAll(Pushed(steps)))
  {
    hide Run, Exec;
    var s := Exec(start, steps);
    InvHolds(start, steps);
    FlattenConcat(Buffers(s.rounds) + Hand(s), ClipAll(s.queue));
    FlattenConcat(Buffers(s.rounds), Hand(s));
    if s.inHand != [] {
      assert Flatten([s.inHand]) == s.inHand + Flatten([s.inHand][1..]);
    }
  }

  // ---- How far the threads have come ----

  datatype Turn = Turn(observe: nat -> Observed, now: int)

  /** A run counted by its steps alone: how many payloads wait, whether one is in hand, and which of the
      Process steps found one. */
  datatype Tally = Tally(waiting: nat, hand: bool, turns: seq<Turn>)

  function Count(tally: Tally, step: Step): Tally {
    match step
    case Push(payload) => if payload == [] then tally else tally.(waiting := tally.waiting + 1)
    case Pop =>
      if tally.hand || tally.waiting == 0 then tally else tally.(waiting := tally.waiting - 1, hand := true)
    case Process(observe, now) =>
      if tally.hand then tally.(hand := false, turns := tally.turns + [Turn(observe, now)]) else tally
  }

  function TallyOf(steps: seq<Step>): Tally {
    if steps == [] then Tally(0, false, []) else Count(TallyOf(steps[..|steps| - 1]), steps[|steps| - 1])
  }

  ghost predicate Tallies(s: State, tally: Tally) {
    && |s.queue| == tally.waiting && (s.inHand != []) == tally.hand && |s.rounds| == |tally.turns|
    && forall i :: 0 <= i < |s.rounds| ==> tally.turns[i] == Turn(s.rounds[i].observe, s.rounds[i].now)
  }

  lemma CountKeepsTally(start: int, pushed: seq<seq<byte>>, s: State, tally: Tally, step: Step)
    requires Inv(start, pushed, s) && Tallies(s, tally)
    ensures Tallies(Next(s, step), Count(tally, step))
  {
    hide Run, AfterRound, ClipAll, Buffers;
    if step.Pop? && s.queue != [] {
      assert s.queue[0] in s.queue;
    }
  }

  /** Whether a payload waits or is in hand, and with which reads and clock each round is made, follows from
      the order of the steps alone: no push, pop or round is skipped. */
  lemma {:induction false} StepsAreCounted(start: int, steps: seq<Step>)
    ensures Tallies(Exec(start, steps), TallyOf(steps))
  {
    if steps != [] {
      var k := |steps| - 1;
      StepsAreCounted(start, steps[..k]);
      InvHolds(start, steps[..k]);
      hide Inv, Tallies, Next, Count;
      CountKeepsTally(start, Pushed(steps[..k]), Exec(start, steps[..k]), TallyOf(steps[..k]), steps[k]);
    }
  }

  /** The monitor thread running alone: it processes what it holds, then n payloads more. */
  function DrainSteps(n: nat, observe: nat -> Observed, now: int): (steps: seq<Step>)
    ensures |steps| == 2 * n + 1 && forall i :: 0 <= i < |steps| ==> !steps[i].Push?
  {
    if n == 0 then [Process(observe, now)] else DrainSteps(n - 1, observe, now) + [Pop, Process(observe, now)]
  }

  lemma {:induction false} DrainCounts(steps: seq<Step>, n: nat, observe: nat -> Observed, now: int)
    requires n <= TallyOf(steps).waiting
    ensures var tally := TallyOf(steps + DrainSteps(n, observe, now));
      tally.waiting == TallyOf(steps).waiting - n && !tally.hand
    decreases n
  {
    if n == 0 {
      TallySnoc(steps, Process(observe, now));
    } else {
      DrainCounts(steps, n - 1, observe, now);
      var before := steps + DrainSteps(n - 1, observe, now);
      TallySnoc(before, Pop);
      TallySnoc(before + [Pop], Process(observe, now));
      assert steps + DrainSteps(n, observe, now) == (before + [Pop]) + [Process(observe, now)];
    }
  }

  lemma TallySnoc(steps: seq<Step>, step: Step)
    ensures TallyOf(steps + [step]) == Count(TallyOf(steps), step)
  {
    assert (steps + [step])[..|steps|] == steps;
  }

  lemma {:induction false} NothingPushed(steps: seq<Step>, more: seq<Step>)
    requires forall i :: 0 <= i < |more| ==> !more[i].Push?
    ensures Pushed(steps + more) == Pushed(steps)
    decreases |more|
  {
    if more == [] {
      assert steps + more == steps;
    } else {
      NothingPushed(steps, more[..|more| - 1]);
      TakeOfConcat(steps, more, |more| - 1);
    }
  }

  /** From every state the monitor thread can drain the queue, one turn for each payload that waits; all that
      was pushed has then been parsed, each payload up to the size of the buffer. */
  lemma QueueDrains(start: int, steps: seq<Step>, observe: nat -> Observed, now: int)
    ensures var s := Exec(start, steps + DrainSteps(|Exec(start, steps).queue|, observe, now));
      Drained(s) && Fed(s) == Flatten(ClipAll(Pushed(steps)))
  {
    hide Exec, TallyOf, Pushed, DrainSteps, ClipAll, Fed;
    var n := |Exec(start, steps).queue|;
    var all := steps + DrainSteps(n, observe, now);
    StepsAreCounted(start, steps);
    DrainCounts(steps, n, observe, now);
    StepsAreCounted(start, all);
    DrainedIsAllParsed(start, all);
    NothingPushed(steps, DrainSteps(n, observe, now));
  }

  /** A pop and a process together are one turn of the monitor's loop, a push is the packet handler's. */
  lemma TurnIsPopThenProcess(s: State, observe: nat -> Observed, now: int)
    requires s.inHand == []
    ensures var n := Next(Next(s, Pop), Process(observe, now));
      && n.inHand == []
      && n.queue == (if s.queue == [] then [] else s.queue[1..])
      && (s.queue == [] || s.queue[0] == [] ==> n.relay == s.relay && n.batches == s.batches)
      && (s.queue != [] && s.queue[0] != [] ==>
            var (after, batch) := AfterRound(s.relay, Round(Clipped(s.queue[0], 4096), observe, now));
            n.relay == after && n.batches == s.batches + if batch.Some? then [batch.value] else [])
  {
    hide AfterRound;
  }

  ghost predicate AllFit(payloads: seq<seq<byte>>) {
    forall i :: 0 <= i < |payloads| ==> |payloads[i]| <= 4096
  }

  ghost predicate Drained(s: State) {
    s.queue == [] && s.inHand == []
  }

  lemma {:induction false} ClippingLosesLongPayloads(payloads: seq<seq<byte>>)
    ensures |Flatten(ClipAll(payloads))| <= |Flatten(payloads)|
    ensures |Flatten(ClipAll(payloads))| == |Flatten(payloads)| <==> AllFit(payloads)
    decreases |payloads|
  {
    if payloads != [] {
      var rest := payloads[1..];
      ClippingLosesLongPayloads(rest);
      assert ClipAll(payloads)[1..] == ClipAll(rest);
      assert AllFit(payloads) <==> |payloads[0]| <= BUFFER_BYTES && AllFit(rest) by {
        assert forall i :: 1 <= i < |payloads| ==> payloads[i] == rest[i - 1];
        assert forall i :: 0 <= i < |rest| ==> rest[i] == payloads[i + 1];
      }
    }
  }

  lemma FittingPayloadsAreKept(payloads: seq<seq<byte>>)
    requires AllFit(payloads)
    ensures ClipAll(payloads) == payloads
  {
    forall i | 0 <= i < |payloads|
      ensures ClipAll(payloads)[i] == payloads[i]
    {
      assert payloads[i][..|payloads[i]|] == payloads[i];
    }
  }

  lemma DrainedIsAllParsed(start: int, steps: seq<Step>)
    requires Drained(Exec(start, steps))
    ensures Fed(Exec(start, steps)) == Flatten(ClipAll(Pushed(steps)))
  {
    hide Exec, Pushed;
    InOrderDelivery(start, steps);
    assert Flatten(ClipAll([])) == [];
  }

  /** Once everything is processed, nothing was lost if and only if no payload pushed was longer than the
      monitor's buffer. */
  lemma LosslessIffPayloadsFit(start: int, steps: seq<Step>)
    requires Drained(Exec(start, steps))
    ensures Fed(Exec(start, steps)) == Flatten(Pushed(steps)) <==> AllFit(Pushed(steps))
  {
    DrainedIsAllParsed(start, steps);
    ClippingLosesLongPayloads(Pushed(steps));
    if AllFit(Pushed(steps)) {
      FittingPayloadsAreKept(Pushed(steps));
    }
  }

  /** A prefix of a train of encoded frames decodes to the messages of the frames complete in it. */
  lemma PrefixOfTrain(configs: seq<FrameConfig>, bytes: seq<byte>)
    requires bytes <= Flatten(Encodings(configs))
    ensures var k := |bytes| / FRAME_BYTES;
      k <= |configs| && Decoded(bytes) == DecodeEach(Encodings(configs[..k]))
    ensures |Flatten(Encodings(configs))| == FRAME_BYTES * |configs|
  {
    var fs, all := Encodings(configs), Flatten(Encodings(configs));
    EncodingsAreFrames(configs);
    assert all[0..] == all;
    FlattenIsTrain(all, 0, fs);
    InStepStaysInStep(all, 0, fs);
    assert Starts(all, 0) == Grid(0, |fs|);
    PrefixReportsCompletedFrames(bytes, all);
    var k := |Starts(bytes, 0)|;
    CompleteFrames(|bytes|, |configs|, k);
    assert Starts(bytes, 0) == Grid(0, k);
    DecodePrefix(bytes, all, Grid(0, k));
    assert TrainAt(all, 0, fs[..k]) by {
      assert forall i :: 0 <= i < k ==> fs[..k][i] == fs[i];
    }
    DecodeGrid(all, 0, fs[..k]);
    assert fs[..k] == Encodings(configs[..k]);
  }

  lemma CompleteFrames(bytes: nat, n: nat, k: nat)
    requires bytes <= FRAME_BYTES * n && k <= n
    requires forall i: nat :: i < n ==> (i < k <==> Grid(0, n)[i] + FRAME_BYTES <= bytes)
    ensures k == bytes / FRAME_BYTES
  {
    if k > 0 {
      assert Grid(0, n)[k - 1] == FRAME_BYTES * (k - 1);
    }
    if k < n {
      assert Grid(0, n)[k] == FRAME_BYTES * k;
    }
  }

  /** In every state of every interleaving, the display is the text of what has been parsed. */
  lemma DisplayMatchesParsed(start: int, steps: seq<Step>)
    ensures var s := Exec(start, steps);
      && |AllReads([], s.rounds)| == |Decoded(Fed(s))|
      && BatchText(s.batches) + s.relay.text == TextFor(Decoded(Fed(s)), AllReads([], s.rounds))
      && BatchKeys(s.batches) + s.relay.keys == KeysFor(Decoded(Fed(s)), AllReads([], s.rounds))
      && s.relay.acc == Residue(Fed(s))
  {
    hide TextFor, KeysFor, AfterRound, Exec, Run, Decoded, Residue, Settled, AllReads, BatchText, BatchKeys, Buffers;
    var s := Exec(start, steps);
    InvHolds(start, steps);
    NothingDecodedYet();
    GuiConservation(Started(start), s.rounds);
    RunDecodesStream(Started(start), s.rounds);
    assert [] + Fed(s) == Fed(s);
  }

  /** End to end: while one side sends encoded frames, captured without loss in payloads of any cut, the
      display (what was handed over, then what is pending) always shows the messages of exactly the
      first k frames, filtered, where k is the number of frames wholly parsed; and of all of them once
      the queue has drained. */
  lemma DisplayShowsSentFrames(start: int, steps: seq<Step>, configs: seq<FrameConfig>)
    requires AllFit(Pushed(steps)) && Flatten(Pushed(steps)) <= Flatten(Encodings(configs))
    ensures var s := Exec(start, steps);
      var k := |Fed(s)| / FRAME_BYTES;
      && k <= |configs|
      && var ts, os := DecodeEach(Encodings(configs[..k])), AllReads([], s.rounds);
      && |os| == k
      && BatchText(s.batches) + s.relay.text == TextFor(ts, os)
      && BatchKeys(s.batches) + s.relay.keys == KeysFor(ts, os)
      && (Drained(s) && Flatten(Pushed(steps)) == Flatten(Encodings(configs)) ==> k == |configs| && s.relay.acc == [])
  {
    hide TextFor, KeysFor, AfterRound, Exec, Decoded, Residue, AllReads, BatchText, BatchKeys, DecodeEach, Encodings;
    var s := Exec(start, steps);
    InOrderDelivery(start, steps);
    FittingPayloadsAreKept(Pushed(steps));
    PrefixOfTrain(configs, Fed(s));
    DisplayMatchesParsed(start, steps);
    if Drained(s) {
      DrainedIsAllParsed(start, steps);
      TrainRoundTrip(configs);
    }
  }

  lemma NothingDecodedYet()
    ensures Settled([])
  {
  }

  /** With every configuration in range, those messages are the ones the configurations intend. */
  lemma ParsedMessagesAreIntended(start: int, steps: seq<Step>, configs: seq<FrameConfig>)
    requires AllFit(Pushed(steps)) && Flatten(Pushed(steps)) <= Flatten(Encodings(configs))
    requires forall i :: 0 <= i < |configs| ==> InRange(configs[i])
    ensures var s := Exec(start, steps);
      |Fed(s)| / FRAME_BYTES <= |configs|
      && ReadEach(Decoded(Fed(s))) == IntendedEach(configs[..|Fed(s)| / FRAME_BYTES])
  {
    hide Exec;
    var s := Exec(start, steps);
    InOrderDelivery(start, steps);
    FittingPayloadsAreKept(Pushed(steps));
    PrefixOfTrain(configs, Fed(s));
    var sent := configs[..|Fed(s)| / FRAME_BYTES];
    TrainRoundTrip(sent);
    EncodingsAreFrames(sent);
    WholeFramesDecode(Encodings(sent));
  }

  // ---- What the user reads ----

  /** All reads of this round find the filter set to the same values, and all stamps are k characters long. */
  ghost predicate Steady(observe: nat -> Observed, on: bool, rt: int, sa: int, k: nat) {
    forall i: nat :: SetTo(observe(i), on, rt, sa) && |observe(i).stamp| == k
  }

  ghost predicate SteadySteps(steps: seq<Step>, on: bool, rt: int, sa: int, k: nat) {
    forall i :: 0 <= i < |steps| && steps[i].Process? ==> Steady(steps[i].observe, on, rt, sa, k)
  }

  lemma {:induction false} TurnsAreSteady(steps: seq<Step>, on: bool, rt: int, sa: int, k: nat)
    requires SteadySteps(steps, on, rt, sa, k)
    ensures forall i :: 0 <= i < |TallyOf(steps).turns| ==> Steady(TallyOf(steps).turns[i].observe, on, rt, sa, k)
  {
    hide Steady;
    if steps != [] {
      var m := |steps| - 1;
      assert forall i :: 0 <= i < m ==> steps[..m][i] == steps[i];
      TurnsAreSteady(steps[..m], on, rt, sa, k);
    }
  }

  lemma {:induction false} SteadyRounds(acc: seq<byte>, rounds: seq<Round>, on: bool, rt: int, sa: int, k: nat)
    requires forall i :: 0 <= i < |rounds| ==> Steady(rounds[i].observe, on, rt, sa, k)
    ensures Fixed(AllReads(acc, rounds), on, rt, sa)
    ensures forall i :: 0 <= i < |AllReads(acc, rounds)| ==> |AllReads(acc, rounds)[i].stamp| == k
    decreases |rounds|
  {
    hide Decoded, Residue, SetTo;
    if rounds != [] {
      var rest := rounds[1..];
      assert forall i :: 0 <= i < |rest| ==> rest[i] == rounds[i + 1];
      SteadyRounds(Residue(acc + rounds[0].buffer), rest, on, rt, sa, k);
      assert Steady(rounds[0].observe, on, rt, sa, k);
    }
  }

  lemma ReadsAreSteady(start: int, steps: seq<Step>, on: bool, rt: int, sa: int, k: nat)
    requires SteadySteps(steps, on, rt, sa, k)
    ensures var os := AllReads([], Exec(start, steps).rounds);
      Fixed(os, on, rt, sa) && forall i :: 0 <= i < |os| ==> |os[i].stamp| == k
  {
    hide Exec, TallyOf, Steady, SteadySteps, Fixed;
    StepsAreCounted(start, steps);
    TurnsAreSteady(steps, on, rt, sa, k);
    SteadyRounds([], Exec(start, steps).rounds, on, rt, sa, k);
  }

  /** From the configuration to what the user reads: frames with fields in range are sent, captured without
      loss in payloads of any cut, and handled by the two threads in any interleaving, while the filter keeps
      its setting. Then the text displayed or pending, read back, is exactly the configurations the filter asks
      for among the first n, in order and with every field and word, the tree knows exactly their terminals,
      and n is all of them once the queue has drained. */
  lemma DisplayShowsSelection(start: int, steps: seq<Step>, configs: seq<FrameConfig>,
                              on: bool, rt: int, sa: int, k: nat)
    requires AllFit(Pushed(steps)) && Flatten(Pushed(steps)) <= Flatten(Encodings(configs))
    requires AllInRange(configs) && SteadySteps(steps, on, rt, sa, k)
    ensures var s := Exec(start, steps);
      var n := |Fed(s)| / FRAME_BYTES;
      && n <= |configs|
      && ReadAll(BatchText(s.batches) + s.relay.text, k) == Selection(configs[..n], on, rt, sa)
      && BatchKeys(s.batches) + s.relay.keys == SelectedKeys(configs[..n], on, rt, sa)
      && (Drained(s) && Flatten(Pushed(steps)) == Flatten(Encodings(configs)) ==> n == |configs|)
  {
    hide TextFor, KeysFor, Exec, Decoded, AllReads, BatchText, BatchKeys, DecodeEach, Encodings, Fed, Pushed;
    hide Selection, SelectedKeys, ReadAll, SteadySteps, InRange, Fixed;
    var s := Exec(start, steps);
    DisplayShowsSentFrames(start, steps, configs);
    ReadsAreSteady(start, steps, on, rt, sa, k);
    var sent, os := configs[..|Fed(s)| / FRAME_BYTES], AllReads([], s.rounds);
    assert AllInRange(sent) by {
      assert forall i :: 0 <= i < |sent| ==> sent[i] == configs[i];
    }
    DisplayReadsBack(sent, os, on, rt, sa, k);
    FilteredKeys(sent, os, on, rt, sa);
  }

  // ---- Two directions through one parser ----

  /** Interleaves two sequences: true takes the next of xs, false the next of ys. */
  function Merge<T>(schedule: seq<bool>, xs: seq<T>, ys: seq<T>): seq<T> {
    if schedule == [] then []
    else
      var rest := schedule[1..];
      if schedule[0] then (if xs == [] then Merge(rest, xs, ys) else [xs[0]] + Merge(rest, xs[1..], ys))
      else (if ys == [] then Merge(rest, xs, ys) else [ys[0]] + Merge(rest, xs, ys[1..]))
  }

  function CountTrue(schedule: seq<bool>): (n: nat)
    ensures n <= |schedule|
  {
    if schedule == [] then 0 else (if schedule[0] then 1 else 0) + CountTrue(schedule[1..])
  }

  /** The elements of a merge that satisfy p, in order. */
  function Keep<T>(p: T -> bool, s: seq<T>): seq<T> {
    if s == [] then [] else (if p(s[0]) then [s[0]] else []) + Keep(p, s[1..])
  }

  function FirstOf<T>(s: seq<T>, n: nat): seq<T> {
    if n <= |s| then s[..n] else s
  }

  /** A merge drops, duplicates and reorders nothing: told apart by some property, the elements of either side
      are the first of that side, one for each of its turns. */
  lemma {:induction false} MergeKeepsOrder<T>(schedule: seq<bool>, xs: seq<T>, ys: seq<T>, ofX: T -> bool, x: bool)
    requires (forall e :: e in xs ==> ofX(e)) && (forall e :: e in ys ==> !ofX(e))
    ensures Keep(e => ofX(e) == x, Merge(schedule, xs, ys))
            == if x then FirstOf(xs, CountTrue(schedule)) else FirstOf(ys, |schedule| - CountTrue(schedule))
    decreases |schedule|
  {
    hide Keep, FirstOf;
    var p := e => ofX(e) == x;
    NothingKept(p, xs, ys);
    if schedule != [] {
      var rest := schedule[1..];
      if schedule[0] && xs != [] {
        MergeKeepsOrder(rest, xs[1..], ys, ofX, x);
        KeepCons(p, xs[0], Merge(rest, xs[1..], ys));
        FirstCons(xs, CountTrue(rest));
      } else if !schedule[0] && ys != [] {
        MergeKeepsOrder(rest, xs, ys[1..], ofX, x);
        KeepCons(p, ys[0], Merge(rest, xs, ys[1..]));
        FirstCons(ys, |rest| - CountTrue(rest));
      } else {
        MergeKeepsOrder(rest, xs, ys, ofX, x);
      }
    }
  }

  lemma NothingKept<T>(p: T -> bool, xs: seq<T>, ys: seq<T>)
    ensures Keep(p, []) == [] && FirstOf(xs, 0) == [] && FirstOf(ys, 0) == []
    ensures forall n: nat :: FirstOf<T>([], n) == []
  {
  }

  lemma KeepCons<T>(p: T -> bool, x: T, s: seq<T>)
    ensures Keep(p, [x] + s) == (if p(x) then [x] else []) + Keep(p, s)
  {
    assert ([x] + s)[1..] == s;
  }

  lemma FirstCons<T>(s: seq<T>, n: nat)
    requires s != []
    ensures FirstOf(s, n + 1) == [s[0]] + FirstOf(s[1..], n)
  {
  }

  /** A payload made of whole packets, given by the list of its packets. */
  ghost predicate WholePayloads(payloads: seq<seq<seq<byte>>>) {
    forall i :: 0 <= i < |payloads| ==> AllFrames(payloads[i])
  }

  function Joined(payloads: seq<seq<seq<byte>>>): (r: seq<seq<byte>>)
    ensures |r| == |payloads|
  {
    seq(|payloads|, i requires 0 <= i < |payloads| => Flatten(payloads[i]))
  }

  ghost function MessagesOf(payloads: seq<seq<seq<byte>>>): seq<seq<Transaction>>
    requires WholePayloads(payloads)
  {
    seq(|payloads|, i requires 0 <= i < |payloads| => DecodeEach(payloads[i]))
  }

  lemma {:induction false} WholePayloadsDecodeAlone(payloads: seq<seq<seq<byte>>>)
    requires WholePayloads(payloads)
    ensures CallOutputs([], Joined(payloads)) == MessagesOf(payloads) && CallResidue([], Joined(payloads)) == []
    decreases |payloads|
  {
    hide Decoded, Residue;
    if payloads != [] {
      var p, rest := payloads[0], payloads[1..];
      assert WholePayloads(rest) by {
        assert forall i :: 0 <= i < |rest| ==> rest[i] == payloads[i + 1];
      }
      WholeFramesDecode(p);
      WholePayloadsDecodeAlone(rest);
      assert Joined(payloads)[1..] == Joined(rest);
      assert [] + Flatten(p) == Flatten(p);
      assert MessagesOf(payloads) == [DecodeEach(p)] + MessagesOf(rest);
    }
  }

  lemma {:induction false} MergeKeepsWhole(schedule: seq<bool>, a: seq<seq<seq<byte>>>, b: seq<seq<seq<byte>>>)
    requires WholePayloads(a) && WholePayloads(b)
    ensures WholePayloads(Merge(schedule, a, b))
    ensures MessagesOf(Merge(schedule, a, b)) == Merge(schedule, MessagesOf(a), MessagesOf(b))
    decreases |schedule|
  {
    if schedule != [] {
      var rest := schedule[1..];
      if schedule[0] && a != [] {
        TailIsWhole(a);
        MergeKeepsWhole(rest, a[1..], b);
        MessagesCons(a[0], Merge(rest, a[1..], b));
      } else if !schedule[0] && b != [] {
        TailIsWhole(b);
        MergeKeepsWhole(rest, a, b[1..]);
        MessagesCons(b[0], Merge(rest, a, b[1..]));
      } else {
        MergeKeepsWhole(rest, a, b);
      }
    }
  }

  lemma TailIsWhole(a: seq<seq<seq<byte>>>)
    requires a != [] && WholePayloads(a)
    ensures WholePayloads(a[1..]) && MessagesOf(a)[1..] == MessagesOf(a[1..])
  {
    assert forall i :: 0 <= i < |a[1..]| ==> a[1..][i] == a[i + 1];
  }

  lemma MessagesCons(p: seq<seq<byte>>, rest: seq<seq<seq<byte>>>)
    requires AllFrames(p) && WholePayloads(rest)
    ensures WholePayloads([p] + rest) && MessagesOf([p] + rest) == [DecodeEach(p)] + MessagesOf(rest)
  {
  }

  /** Both directions of the connection feed one parser. If every payload is a whole number of packets,
      every interleaving of the two decodes call by call to the same interleaving of their messages, and
      the accumulator is empty after every call. */
  lemma MergedDirectionsDecode(schedule: seq<bool>, a: seq<seq<seq<byte>>>, b: seq<seq<seq<byte>>>, j: nat)
    requires WholePayloads(a) && WholePayloads(b)
    requires j <= |Merge(schedule, a, b)|
    ensures WholePayloads(Merge(schedule, a, b))
    ensures var chunks := Joined(Merge(schedule, a, b));
      && CallOutputs([], chunks) == Merge(schedule, MessagesOf(a), MessagesOf(b))
      && CallResidue([], chunks[..j]) == []
  {
    var m := Merge(schedule, a, b);
    MergeKeepsWhole(schedule, a, b);
    WholePayloadsDecodeAlone(m);
    assert WholePayloads(m[..j]) by {
      assert forall i :: 0 <= i < j ==> m[..j][i] == m[i];
    }
    WholePayloadsDecodeAlone(m[..j]);
    assert Joined(m)[..j] == Joined(m[..j]);
  }

  /** Packet f, cut after j bytes, with packet g of the other direction captured between its parts. */
  function Spliced(f: seq<byte>, g: seq<byte>, j: nat): seq<byte>
    requires j <= |f|
  {
    f[..j] + g + f[j..]
  }

  /** The 70 bytes a parser takes for f: its first j bytes and the first bytes of g. */
  function Mixed(f: seq<byte>, g: seq<byte>, j: nat): (m: seq<byte>)
    requires |f| == |g| == FRAME_BYTES && j <= FRAME_BYTES
    ensures |m| == FRAME_BYTES
  {
    f[..j] + g[..FRAME_BYTES - j]
  }

  /** The last j bytes of g followed by what was left of f. */
  function Remainder(f: seq<byte>, g: seq<byte>, j: nat): (m: seq<byte>)
    requires |f| == |g| == FRAME_BYTES && j <= FRAME_BYTES
    ensures |m| == FRAME_BYTES
  {
    g[FRAME_BYTES - j..] + f[j..]
  }

  /** The cut lies at a packet boundary, or a header inside g begins exactly 70 bytes after f does. */
  ghost predicate CutInStep(f: seq<byte>, g: seq<byte>, j: nat)
    requires |f| == |g| == FRAME_BYTES && j <= FRAME_BYTES
  {
    j == 0 || j == FRAME_BYTES || (3 <= j && MagicAt(g, FRAME_BYTES - j) && ModeAt(g, FRAME_BYTES - j))
  }

  lemma SplicedIsTwo(f: seq<byte>, g: seq<byte>, j: nat)
    requires |f| == |g| == FRAME_BYTES && j <= FRAME_BYTES
    ensures Spliced(f, g, j) == Mixed(f, g, j) + Remainder(f, g, j)
    ensures Spliced(f, g, j)[..FRAME_BYTES] == Mixed(f, g, j)
    ensures Spliced(f, g, j)[FRAME_BYTES..] == Remainder(f, g, j)
    ensures Spliced(f, g, j)[j..j + FRAME_BYTES] == g
  {
    assert g == g[..FRAME_BYTES - j] + g[FRAME_BYTES - j..];
  }

  lemma CutInHeader(f: seq<byte>, g: seq<byte>, j: nat)
    requires IsFrame(f) && IsFrame(g) && 0 < j < 3
    ensures Decoded(Spliced(f, g, j)) == [Decode(g)]
  {
    var s := Spliced(f, g, j);
    SplicedIsTwo(f, g, j);
    assert s[j] == g[0] && s[0] == f[0] && (j == 2 ==> s[1] == f[1]);
    HeadFrame(s, j, g);
    assert Starts(s, 0) == Starts(s, 1) == Starts(s, j);
    ShortTailHoldsNoFrame(s, j + FRAME_BYTES);
    assert Starts(s, 0) == [j];
  }

  lemma CutBehindHeader(f: seq<byte>, g: seq<byte>, j: nat)
    requires IsFrame(f) && IsFrame(g) && 3 <= j <= FRAME_BYTES
    ensures var first := Decode(Mixed(f, g, j));
      Decoded(Spliced(f, g, j)) == if CutInStep(f, g, j) then [first, Decode(Remainder(f, g, j))] else [first]
  {
    hide Decode;
    var s := Spliced(f, g, j);
    SplicedIsTwo(f, g, j);
    var m, r := Mixed(f, g, j), Remainder(f, g, j);
    assert m[0] == f[0] && m[1] == f[1] && m[2] == f[2];
    var k := FRAME_BYTES - j;
    assert r[0] == g[k] && r[1] == g[k + 1] && r[2] == g[k + 2];
    hide Mixed, Remainder, Spliced;
    assert s[0..FRAME_BYTES] == m;
    HeadFrame(s, 0, m);
    assert s[FRAME_BYTES] == r[0] && s[FRAME_BYTES + 1] == r[1] && s[FRAME_BYTES + 2] == r[2];
    if CutInStep(f, g, j) {
      assert s[FRAME_BYTES..FRAME_BYTES + FRAME_BYTES] == r;
      HeadFrame(s, FRAME_BYTES, r);
      ShortTailHoldsNoFrame(s, 2 * FRAME_BYTES);
      assert Starts(s, 0) == [0, FRAME_BYTES];
    } else {
      assert Skips(s, FRAME_BYTES);
      ShortTailHoldsNoFrame(s, FRAME_BYTES + 1);
      assert Starts(s, 0) == [0];
    }
  }

  lemma CutAtBoundary(f: seq<byte>, g: seq<byte>)
    requires IsFrame(f) && IsFrame(g)
    ensures Decoded(Spliced(f, g, 0)) == [Decode(g), Decode(f)]
  {
    SplicedIsTwo(g, f, FRAME_BYTES);
    assert Spliced(f, g, 0) == g + f == Spliced(g, f, FRAME_BYTES);
    CutBehindHeader(g, f, FRAME_BYTES);
    assert Mixed(g, f, FRAME_BYTES) == g && Remainder(g, f, FRAME_BYTES) == f;
  }

  /** A cut behind the words that f's WC byte asks for leaves f's message as it is. */
  lemma LateCutKeepsMessage(f: seq<byte>, g: seq<byte>, j: nat)
    requires IsFrame(f) && IsFrame(g) && HEADER_BYTES + 2 * WordCount(f[5]) <= j <= FRAME_BYTES
    ensures Decode(Mixed(f, g, j)) == Decode(f)
  {
    hide CommandWord;
    var m := Mixed(f, g, j);
    assert forall i :: 0 <= i < j ==> m[i] == f[i];
    forall i: nat | i < WordCount(f[5])
      ensures PayloadWord(m, i) == PayloadWord(f, i)
    {
    }
    assert Decode(m).dataWords == Decode(f).dataWords;
  }

  /** Without whole payloads the two directions mix. For every cut of f around g: both packets come out
      as two messages exactly when the cut is in step; inside the magic pair or before the mode byte only g
      is reported; behind it the first message is f's beginning filled up from g, which is f's own message
      if the cut lies behind f's last word. */
  lemma SplitPacket(f: seq<byte>, g: seq<byte>, j: nat)
    requires IsFrame(f) && IsFrame(g) && j <= FRAME_BYTES
    ensures var out := Flatten(CallOutputs([], [f[..j], g, f[j..]]));
      && out == Decoded(Spliced(f, g, j))
      && (|out| == 2 <==> CutInStep(f, g, j))
      && (!CutInStep(f, g, j) ==> |out| == 1)
      && (j == 0 ==> out == [Decode(g), Decode(f)])
      && (j == FRAME_BYTES ==> out == [Decode(f), Decode(g)])
      && (0 < j < 3 ==> out == [Decode(g)])
      && (3 <= j ==> out[0] == Decode(Mixed(f, g, j)) && (|out| == 2 ==> out[1] == Decode(Remainder(f, g, j))))
      && (HEADER_BYTES + 2 * WordCount(f[5]) <= j ==> out[0] == Decode(f))
  {
    hide Decode, Starts, CallOutputs, CallResidue, Flatten;
    var chunks := [f[..j], g, f[j..]];
    ChunkIndependence([], chunks);
    FlattenThree(f[..j], g, f[j..]);
    assert [] + Flatten(chunks) == Spliced(f, g, j);
    if j == 0 {
      CutAtBoundary(f, g);
    } else if j < 3 {
      CutInHeader(f, g, j);
    } else {
      CutBehindHeader(f, g, j);
      if HEADER_BYTES + 2 * WordCount(f[5]) <= j {
        LateCutKeepsMessage(f, g, j);
      }
      if j == FRAME_BYTES {
        assert Mixed(f, g, j) == f && Remainder(f, g, j) == g;
      }
    }
  }

  lemma FlattenThree(a: seq<byte>, b: seq<byte>, c: seq<byte>)
    ensures Flatten([a, b, c]) == a + b + c
  {
    FlattenConcat([a, b], [c]);
    FlattenConcat([a], [b]);
    assert [a, b] + [c] == [a, b, c] && [a] + [b] == [a, b];
    FlattenSnoc([], a);
    FlattenSnoc([], b);
    FlattenSnoc([], c);
  }

  lemma {:induction false} ShortTailHoldsNoFrame(s: seq<byte>, p: nat)
    requires p <= |s| < p + FRAME_BYTES
    ensures Starts(s, p) == []
    decreases |s| - p
  {
    if Skips(s, p) {
      ShortTailHoldsNoFrame(s, p + 1);
    }
  }
}
