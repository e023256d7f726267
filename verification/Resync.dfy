/** Staying in step with a stream of packets, and getting back into step after garbage. */
module Resync {
  import opened Bytes
  import opened Protocol
  import opened Parser
  import opened Stream

  ghost predicate IsFrame(f: seq<byte>) {
    |f| == FRAME_BYTES && FrameAt(f, 0)
  }

  ghost predicate AllFrames(fs: seq<seq<byte>>) {
    forall i :: 0 <= i < |fs| ==> IsFrame(fs[i])
  }

  /** The packet holds no second header `AA 55 00` or `AA 55 01` at an inner offset. */
  ghost predicate HeaderFree(f: seq<byte>) {
    |f| == FRAME_BYTES && forall k: nat :: 1 <= k <= FRAME_BYTES - 3 ==> !(MagicAt(f, k) && ModeAt(f, k))
  }

  /** Offsets base, base + 70, ... of n adjacent packets. */
  function Grid(base: nat, n: nat): (ps: seq<nat>)
    ensures |ps| == n && forall i :: 0 <= i < n ==> ps[i] == base + FRAME_BYTES * i
  {
    seq(n, i requires 0 <= i => base + FRAME_BYTES * i)
  }

  function DecodeEach(fs: seq<seq<byte>>): (ts: seq<Transaction>)
    requires forall i :: 0 <= i < |fs| ==> |fs[i]| == FRAME_BYTES
    ensures |ts| == |fs|
  {
    seq(|fs|, i requires 0 <= i < |fs| => Decode(fs[i]))
  }

  function Offset(base: nat, i: nat): nat { base + FRAME_BYTES * i }

  /** From `base` on, s holds the packets fs side by side. */
  ghost predicate TrainAt(s: seq<byte>, base: nat, fs: seq<seq<byte>>) {
    && Offset(base, |fs|) <= |s|
    && AllFrames(fs)
    && forall i {:trigger fs[i]} :: 0 <= i < |fs| ==> s[Offset(base, i)..Offset(base, i) + FRAME_BYTES] == fs[i]
  }

  lemma TrainTail(s: seq<byte>, base: nat, fs: seq<seq<byte>>)
    requires fs != [] && TrainAt(s, base, fs)
    ensures s[base..base + FRAME_BYTES] == fs[0] && TrainAt(s, base + FRAME_BYTES, fs[1..])
  {
    assert Offset(base, 0) == base;
    forall i | 0 <= i < |fs| - 1
      ensures Offset(base + FRAME_BYTES, i) == Offset(base, i + 1) && fs[1..][i] == fs[i + 1]
    {
    }
    assert Offset(base + FRAME_BYTES, |fs| - 1) == Offset(base, |fs|);
  }

  lemma {:induction false} FlattenIsTrain(s: seq<byte>, base: nat, fs: seq<seq<byte>>)
    requires base <= |s| && AllFrames(fs) && Flatten(fs) <= s[base..]
    ensures TrainAt(s, base, fs) && |Flatten(fs)| == FRAME_BYTES * |fs|
    decreases |fs|
  {
    if fs != [] {
      var rest, next := fs[1..], base + FRAME_BYTES;
      assert Flatten(fs) == fs[0] + Flatten(rest);
      assert s[base..next] == fs[0] by {
        assert s[base..][..FRAME_BYTES] == Flatten(fs)[..FRAME_BYTES];
      }
      assert Flatten(rest) <= s[next..] by {
        assert s[next..] == s[base..][FRAME_BYTES..];
      }
      FlattenIsTrain(s, next, rest);
      forall i | 0 <= i < |fs|
        ensures Offset(base, i) + FRAME_BYTES <= |s| && s[Offset(base, i)..Offset(base, i) + FRAME_BYTES] == fs[i]
      {
        if i > 0 {
          assert fs[i] == rest[i - 1];
          assert Offset(base, i) == Offset(next, i - 1);
        }
      }
    }
  }

  /** Once in step, the decoder stays in step whatever the packets carry, embedded headers included. */
  lemma {:induction false} InStepStaysInStep(s: seq<byte>, base: nat, fs: seq<seq<byte>>)
    requires TrainAt(s, base, fs)
    ensures Starts(s, base) == Grid(base, |fs|) + Starts(s, Offset(base, |fs|))
    ensures Stop(s, base) == Stop(s, Offset(base, |fs|))
    decreases |fs|
  {
    if fs != [] {
      var rest, next := fs[1..], base + FRAME_BYTES;
      TrainTail(s, base, fs);
      HeadFrame(s, base, fs[0]);
      InStepStaysInStep(s, next, rest);
      assert Offset(next, |rest|) == Offset(base, |fs|);
      GridCons(base, |fs|, Starts(s, Offset(base, |fs|)));
    }
  }

  lemma GridCons(base: nat, n: nat, later: seq<nat>)
    requires n > 0
    ensures [base] + (Grid(base + FRAME_BYTES, n - 1) + later) == Grid(base, n) + later
  {
  }

  lemma HeadFrame(s: seq<byte>, p: nat, f: seq<byte>)
    requires IsFrame(f) && p + FRAME_BYTES <= |s| && s[p..p + FRAME_BYTES] == f
    ensures FrameAt(s, p)
    ensures Starts(s, p) == [p] + Starts(s, p + FRAME_BYTES) && Stop(s, p) == Stop(s, p + FRAME_BYTES)
  {
    assert s[p] == f[0] && s[p + 1] == f[1] && s[p + 2] == f[2];
  }

  lemma DecodeGrid(s: seq<byte>, base: nat, fs: seq<seq<byte>>)
    requires TrainAt(s, base, fs)
    ensures DecodeAt(s, Grid(base, |fs|)) == DecodeEach(fs)
  {
    var ps := Grid(base, |fs|);
    forall i | 0 <= i < |fs|
      ensures ps[i] == Offset(base, i) && s[ps[i]..ps[i] + FRAME_BYTES] == fs[i]
    {
      assert s[Offset(base, i)..Offset(base, i) + FRAME_BYTES] == fs[i];
    }
  }

  /** A stream of whole packets decodes to one message a packet and leaves nothing over. */
  lemma WholeFramesDecode(fs: seq<seq<byte>>)
    requires AllFrames(fs)
    ensures Decoded(Flatten(fs)) == DecodeEach(fs) && Residue(Flatten(fs)) == []
  {
    var s := Flatten(fs);
    assert s[0..] == s;
    FlattenIsTrain(s, 0, fs);
    InStepStaysInStep(s, 0, fs);
    DecodeGrid(s, 0, fs);
    assert Offset(0, |fs|) == |s|;
    assert Starts(s, 0) == Grid(0, |fs|);
  }

  // ---- Resynchronisation ----

  lemma InnerOffsetsHoldNoFrame(s: seq<byte>, base: nat, f: seq<byte>, q: nat)
    requires HeaderFree(f) && base + FRAME_BYTES < |s| && s[base..base + FRAME_BYTES] == f
    requires s[base + FRAME_BYTES] == 0xAA
    requires base < q < base + FRAME_BYTES
    ensures !FrameAt(s, q)
  {
    var k := q - base;
    if k <= FRAME_BYTES - 3 {
      assert f[k] == s[q] && f[k + 1] == s[q + 1] && f[k + 2] == s[q + 2];
      assert !(MagicAt(f, k) && ModeAt(f, k));
    }
  }

  /** A scan that starts anywhere up to the second packet is in step from the second packet on, and
      what it decodes before that begins in the garbage or is the first packet. */
  lemma {:induction false} ScanFallsIntoStep(s: seq<byte>, base: nat, f: seq<byte>, p: nat) returns (early: seq<nat>)
    requires HeaderFree(f) && base + 2 * FRAME_BYTES <= |s|
    requires s[base..base + FRAME_BYTES] == f && s[base + FRAME_BYTES] == 0xAA
    requires p <= base + FRAME_BYTES
    ensures Starts(s, p) == early + Starts(s, base + FRAME_BYTES)
    ensures Stop(s, p) == Stop(s, base + FRAME_BYTES)
    ensures forall i :: 0 <= i < |early| ==> early[i] <= base
    decreases base + FRAME_BYTES - p
  {
    if p == base + FRAME_BYTES {
      early := [];
    } else if Skips(s, p) {
      early := ScanFallsIntoStep(s, base, f, p + 1);
    } else {
      assert FrameAt(s, p);
      if p > base {
        InnerOffsetsHoldNoFrame(s, base, f, p);
      }
      var more := ScanFallsIntoStep(s, base, f, p + FRAME_BYTES);
      early := [p] + more;
      assert Starts(s, p) == [p] + Starts(s, p + FRAME_BYTES);
      assert [p] + (more + Starts(s, base + FRAME_BYTES)) == early + Starts(s, base + FRAME_BYTES);
    }
  }

  /** After any garbage whatsoever, false headers included, a train of two or more packets costs at most
      its first: packets 2..n are the last n-1 messages decoded and nothing is left over. */
  lemma Resynchronises(garbage: seq<byte>, fs: seq<seq<byte>>)
    requires |fs| >= 2 && AllFrames(fs) && HeaderFree(fs[0])
    ensures var s := garbage + Flatten(fs);
      var early := |Decoded(s)| - (|fs| - 1);
      && early >= 0
      && Decoded(s)[early..] == DecodeEach(fs[1..])
      && Residue(s) == []
      && forall k :: 0 <= k < early ==> Starts(s, 0)[k] <= |garbage|
  {
    var s, base, rest := garbage + Flatten(fs), |garbage|, fs[1..];
    assert s[base..] == Flatten(fs);
    var second := base + FRAME_BYTES;
    FlattenIsTrain(s, base, fs);
    TrainTail(s, base, fs);
    TrainTail(s, second, rest);
    InStepStaysInStep(s, second, rest);
    DecodeGrid(s, second, rest);
    assert Offset(second, |rest|) == |s|;
    assert s[second] == s[second..second + FRAME_BYTES][0] == 0xAA;
    var early := ScanFallsIntoStep(s, base, fs[0], 0);
    assert Starts(s, second) == Grid(second, |rest|);
    DecodeConcat(s, early, Grid(second, |rest|));
  }

  /** The same, however the bytes are cut into calls and whatever the accumulator held. */
  lemma ResynchronisesAcrossCalls(acc: seq<byte>, garbage: seq<byte>, fs: seq<seq<byte>>, chunks: seq<seq<byte>>)
    requires |fs| >= 2 && AllFrames(fs) && HeaderFree(fs[0])
    requires Flatten(chunks) == garbage + Flatten(fs)
    ensures var out := Flatten(CallOutputs(acc, chunks));
      |out| >= |fs| - 1 && out[|out| - (|fs| - 1)..] == DecodeEach(fs[1..])
    ensures CallResidue(acc, chunks) == []
  {
    assert |Flatten(fs)| >= |fs[0]|;
    ChunkIndependence(acc, chunks);
    assert acc + Flatten(chunks) == (acc + garbage) + Flatten(fs);
    Resynchronises(acc + garbage, fs);
  }

  /** Behind this garbage every packet of the train but perhaps the first is decoded. */
  ghost predicate LosesAtMostFirst(garbage: seq<byte>, fs: seq<seq<byte>>) {
    forall i: nat :: 1 <= i < |fs| ==> Offset(|garbage|, i) in Starts(garbage + Flatten(fs), 0)
  }

  lemma HeaderFreeLosesAtMostFirst(garbage: seq<byte>, fs: seq<seq<byte>>)
    requires |fs| >= 2 && AllFrames(fs) && HeaderFree(fs[0])
    ensures LosesAtMostFirst(garbage, fs)
  {
    var s, base, rest := garbage + Flatten(fs), |garbage|, fs[1..];
    assert s[base..] == Flatten(fs);
    var second := base + FRAME_BYTES;
    FlattenIsTrain(s, base, fs);
    TrainTail(s, base, fs);
    TrainTail(s, second, rest);
    InStepStaysInStep(s, second, rest);
    assert s[second] == s[second..second + FRAME_BYTES][0] == 0xAA;
    var early := ScanFallsIntoStep(s, base, fs[0], 0);
    var train := Grid(second, |rest|);
    forall i: nat | 1 <= i < |fs|
      ensures Offset(base, i) in Starts(s, 0)
    {
      assert train[i - 1] == Offset(base, i);
      assert train[i - 1] in Starts(s, second);
    }
  }

  const FALSE_HEADER: seq<byte> := [0xAA, 0x55, 0x00]

  /** A header and zeros, 70 - k bytes in all. */
  function FalseStart(k: nat): (g: seq<byte>)
    requires k <= FRAME_BYTES - 3
    ensures |g| == FRAME_BYTES - k
  {
    FALSE_HEADER + seq(FRAME_BYTES - 3 - k, _ => 0)
  }

  /** A false packet that ends where a header inside packet 1 begins takes packet 2 with it. */
  lemma InnerHeaderCostsSecond(fs: seq<seq<byte>>, k: nat)
    requires |fs| >= 2 && AllFrames(fs)
    requires 1 <= k <= FRAME_BYTES - 3 && MagicAt(fs[0], k) && ModeAt(fs[0], k)
    ensures !LosesAtMostFirst(FalseStart(k), fs)
  {
    hide Flatten, Starts;
    var g := FalseStart(k);
    var s := g + Flatten(fs);
    var base := |g|;
    assert s[base..] == Flatten(fs);
    FlattenIsTrain(s, base, fs);
    TrainTail(s, base, fs);
    assert s[base + k..base + k + 3] == fs[0][k..k + 3];
    assert base + k == FRAME_BYTES && |s| >= base + 2 * FRAME_BYTES;
    assert s[FRAME_BYTES] == fs[0][k] && s[FRAME_BYTES + 1] == fs[0][k + 1] && s[FRAME_BYTES + 2] == fs[0][k + 2];
    assert FrameAt(s, 0) && FrameAt(s, FRAME_BYTES);
    FrameStarts(s, 0);
    FrameStarts(s, FRAME_BYTES);
    StartsAreFrames(s, 2 * FRAME_BYTES);
    assert Offset(base, 1) == 2 * FRAME_BYTES - k;
    assert Offset(base, 1) !in Starts(s, 0);
  }

  lemma FrameStarts(s: seq<byte>, p: nat)
    requires FrameAt(s, p)
    ensures Starts(s, p) == [p] + Starts(s, p + FRAME_BYTES)
  {
  }

  /** At most the first packet is lost behind every garbage exactly when the first packet is header-free. */
  lemma AtMostFirstLostIffHeaderFree(fs: seq<seq<byte>>)
    requires |fs| >= 2 && AllFrames(fs)
    ensures (forall garbage: seq<byte> :: LosesAtMostFirst(garbage, fs)) <==> HeaderFree(fs[0])
  {
    if HeaderFree(fs[0]) {
      forall garbage: seq<byte>
        ensures LosesAtMostFirst(garbage, fs)
      {
        HeaderFreeLosesAtMostFirst(garbage, fs);
      }
    } else {
      var k: nat :| 1 <= k <= FRAME_BYTES - 3 && MagicAt(fs[0], k) && ModeAt(fs[0], k);
      InnerHeaderCostsSecond(fs, k);
    }
  }

  /** The first packet is lost exactly when a false packet that begins in the last 69 bytes of the
      garbage swallows its beginning. */
  lemma FirstFrameKeptUnlessOverlapped(garbage: seq<byte>, f: seq<byte>, rest: seq<byte>)
    requires IsFrame(f)
    ensures var ps := Starts(garbage + f + rest, 0);
      |garbage| in ps <==> !Overlaps(ps, |garbage|)
  {
    var s := garbage + f + rest;
    var ps := Starts(s, 0);
    assert s[|garbage|..|garbage| + FRAME_BYTES] == f;
    HeadFrame(s, |garbage|, f);
    ReachedOrOverlapped(s, |garbage|, 0);
    StartsAreSpaced(s, 0);
  }

  /** One of the packets at ps begins before offset b and runs past it. */
  ghost predicate Overlaps(ps: seq<nat>, b: nat) {
    exists q: nat :: q in ps && b - FRAME_BYTES < q < b
  }

  lemma {:induction false} ReachedOrOverlapped(s: seq<byte>, b: nat, p: nat)
    requires FrameAt(s, b) && p <= b
    ensures b in Starts(s, p) || Overlaps(Starts(s, p), b)
    decreases b - p
  {
    if p < b {
      if Skips(s, p) {
        ReachedOrOverlapped(s, b, p + 1);
      } else {
        var ps, later := Starts(s, p), Starts(s, p + FRAME_BYTES);
        assert ps == [p] + later;
        assert forall q :: q in later ==> q in ps;
        if p + FRAME_BYTES <= b {
          ReachedOrOverlapped(s, b, p + FRAME_BYTES);
        } else {
          assert p in ps;
        }
      }
    }
  }

  lemma {:induction false} StartsAreSpaced(s: seq<byte>, p: nat)
    requires p <= |s|
    ensures forall i, j :: 0 <= i < j < |Starts(s, p)| ==> Starts(s, p)[i] + FRAME_BYTES <= Starts(s, p)[j]
    decreases |s| - p
  {
    if Blocked(s, p) {
    } else if Skips(s, p) {
      StartsAreSpaced(s, p + 1);
    } else {
      StartsAreFrames(s, p + FRAME_BYTES);
      StartsAreSpaced(s, p + FRAME_BYTES);
    }
  }

  // ---- Where the guarantee ends ----

  /** No header `AA 55 00` or `AA 55 01` begins in t. */
  ghost predicate HoldsNoHeader(t: seq<byte>) {
    forall k: nat :: k + 3 <= |t| ==> !(MagicAt(t, k) && ModeAt(t, k))
  }

  /** The packet f behind garbage that ends in t is decoded. */
  ghost predicate KeptBehind(e: seq<byte>, t: seq<byte>, f: seq<byte>, rest: seq<byte>) {
    |e + t| in Starts((e + t) + f + rest, 0)
  }

  lemma CleanEndKeeps(e: seq<byte>, t: seq<byte>, f: seq<byte>, rest: seq<byte>)
    requires |t| == FRAME_BYTES - 1 && IsFrame(f) && HoldsNoHeader(t)
    ensures KeptBehind(e, t, f, rest)
  {
    hide Starts;
    var garbage := e + t;
    var s := garbage + f + rest;
    FirstFrameKeptUnlessOverlapped(garbage, f, rest);
    StartsAreFrames(s, 0);
    forall q: nat | |garbage| - FRAME_BYTES < q < |garbage|
      ensures q !in Starts(s, 0)
    {
      var k := q - |e|;
      assert s[q] == t[k] && s[|garbage|] == f[0] == 0xAA;
      if k + 3 <= |t| {
        assert s[q + 1] == t[k + 1] && s[q + 2] == t[k + 2];
        assert !(MagicAt(t, k) && ModeAt(t, k));
      }
      assert !FrameAt(s, q);
    }
  }

  lemma HeaderAtEndCosts(t: seq<byte>, f: seq<byte>, rest: seq<byte>, k: nat)
    requires |t| == FRAME_BYTES - 1 && IsFrame(f) && k + 3 <= |t| && MagicAt(t, k) && ModeAt(t, k)
    ensures !KeptBehind([], t, f, rest)
  {
    hide Starts;
    assert [] + t == t;
    var s := t + f + rest;
    var ps := Starts(s, 0);
    assert s[k] == t[k] && s[k + 1] == t[k + 1] && s[k + 2] == t[k + 2];
    ReachedOrOverlapped(s, k, 0);
    var q: nat :| q in ps && q <= k;
    assert Overlaps(ps, |t|);
    FirstFrameKeptUnlessOverlapped(t, f, rest);
  }

  /** The first packet is kept behind all garbage that ends in the 69 bytes t exactly when t holds no header. */
  lemma FirstFrameKeptIffCleanEnd(t: seq<byte>, f: seq<byte>, rest: seq<byte>)
    requires |t| == FRAME_BYTES - 1 && IsFrame(f)
    ensures (forall e: seq<byte> :: KeptBehind(e, t, f, rest)) <==> HoldsNoHeader(t)
  {
    if HoldsNoHeader(t) {
      forall e: seq<byte>
        ensures KeptBehind(e, t, f, rest)
      {
        CleanEndKeeps(e, t, f, rest);
      }
    } else {
      var k: nat :| k + 3 <= |t| && MagicAt(t, k) && ModeAt(t, k);
      HeaderAtEndCosts(t, f, rest, k);
    }
  }

  /** Header-freedom cannot be dropped: behind the three bytes AA 55 00, packets that all end in
      AA 55 00 are never decoded, however many there are; every decoded packet is three bytes off. */
  lemma EmbeddedHeadersCanDesynchroniseForever(fs: seq<seq<byte>>)
    requires AllFrames(fs) && forall i :: 0 <= i < |fs| ==> fs[i][FRAME_BYTES - 3..] == FALSE_HEADER
    ensures Starts(FALSE_HEADER + Flatten(fs), 0) == Grid(0, |fs|)
    ensures forall i: nat :: |FALSE_HEADER| + FRAME_BYTES * i !in Starts(FALSE_HEADER + Flatten(fs), 0)
    ensures Residue(FALSE_HEADER + Flatten(fs)) == FALSE_HEADER
  {
    var s := FALSE_HEADER + Flatten(fs);
    var gs := Rotate(fs);
    TrainThenRest(gs, FALSE_HEADER);
    forall i: nat
      ensures |FALSE_HEADER| + FRAME_BYTES * i !in Starts(s, 0)
    {
      OffGrid(|fs|, i);
    }
  }

  lemma OffGrid(n: nat, i: nat)
    ensures 3 + FRAME_BYTES * i !in Grid(0, n)
  {
    forall j | 0 <= j < n
      ensures Grid(0, n)[j] != 3 + FRAME_BYTES * i
    {
    }
  }

  lemma TrainThenRest(gs: seq<seq<byte>>, rest: seq<byte>)
    requires AllFrames(gs) && |rest| < HEADER_BYTES
    ensures Starts(Flatten(gs) + rest, 0) == Grid(0, |gs|) && Residue(Flatten(gs) + rest) == rest
  {
    var s := Flatten(gs) + rest;
    assert s[0..] == s;
    FlattenIsTrain(s, 0, gs);
    InStepStaysInStep(s, 0, gs);
    assert Starts(s, Offset(0, |gs|)) == [];
    assert s[Offset(0, |gs|)..] == rest;
  }

  lemma {:induction false} Rotate(fs: seq<seq<byte>>) returns (gs: seq<seq<byte>>)
    requires AllFrames(fs) && forall i :: 0 <= i < |fs| ==> fs[i][FRAME_BYTES - 3..] == FALSE_HEADER
    ensures |gs| == |fs| && AllFrames(gs)
    ensures FALSE_HEADER + Flatten(fs) == Flatten(gs) + FALSE_HEADER
    decreases |fs|
  {
    if fs == [] {
      gs := [];
    } else {
      var more := Rotate(fs[1..]);
      var body := fs[0][..FRAME_BYTES - 3];
      var g := FALSE_HEADER + body;
      assert IsFrame(g);
      gs := [g] + more;
      assert Flatten(gs) == g + Flatten(more) by {
        assert gs[1..] == more;
      }
      assert fs[0] == body + FALSE_HEADER;
      ConcatAssociates(body, FALSE_HEADER, Flatten(fs[1..]));
      ConcatAssociates(FALSE_HEADER, body, FALSE_HEADER + Flatten(fs[1..]));
      ConcatAssociates(g, Flatten(more), FALSE_HEADER);
    }
  }
}
