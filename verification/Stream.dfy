/** What the decoder does over whole streams, however they are cut into calls. */
module Stream {
  import opened Bytes
  import opened Protocol
  import opened Parser

  // ---- The scan as a declarative statement ----

  /** Where the search for packet k of ps begins: at `from`, or just past the packet before it. */
  function SearchFrom(from: nat, ps: seq<nat>, k: nat): nat
    requires k <= |ps|
  {
    if k == 0 then from else ps[k - 1] + FRAME_BYTES
  }

  ghost predicate NoFrameIn(s: seq<byte>, lo: nat, hi: nat) {
    forall q: nat :: lo <= q < hi ==> !FrameAt(s, q)
  }

  /** q is the leftmost packet at or after lo. */
  ghost predicate IsNext(s: seq<byte>, lo: nat, q: nat) {
    lo <= q && FrameAt(s, q) && NoFrameIn(s, lo, q)
  }

  /** ps lists non-overlapping packets, each the leftmost one past its predecessor, and none follows the last. */
  ghost predicate IsGreedy(s: seq<byte>, from: nat, ps: seq<nat>) {
    && (forall k {:trigger SearchFrom(from, ps, k)} :: 0 <= k < |ps| ==> IsNext(s, SearchFrom(from, ps, k), ps[k]))
    && NoFrameIn(s, SearchFrom(from, ps, |ps|), |s|)
  }

  lemma GreedyUncons(s: seq<byte>, from: nat, ps: seq<nat>)
    requires ps != [] && IsGreedy(s, from, ps)
    ensures IsNext(s, from, ps[0]) && IsGreedy(s, ps[0] + FRAME_BYTES, ps[1..])
  {
    var next, qs := ps[0] + FRAME_BYTES, ps[1..];
    assert IsNext(s, SearchFrom(from, ps, 0), ps[0]);
    assert SearchFrom(next, qs, |qs|) == SearchFrom(from, ps, |ps|);
    forall k | 0 <= k < |qs|
      ensures IsNext(s, SearchFrom(next, qs, k), qs[k])
    {
      assert SearchFrom(next, qs, k) == SearchFrom(from, ps, k + 1);
      assert IsNext(s, SearchFrom(from, ps, k + 1), ps[k + 1]);
    }
  }

  lemma GreedyCons(s: seq<byte>, from: nat, q: nat, qs: seq<nat>)
    requires IsNext(s, from, q) && IsGreedy(s, q + FRAME_BYTES, qs)
    ensures IsGreedy(s, from, [q] + qs)
  {
    var ps := [q] + qs;
    assert SearchFrom(q + FRAME_BYTES, qs, |qs|) == SearchFrom(from, ps, |ps|);
    forall k | 0 <= k < |ps|
      ensures IsNext(s, SearchFrom(from, ps, k), ps[k])
    {
      if k > 0 {
        assert SearchFrom(q + FRAME_BYTES, qs, k - 1) == SearchFrom(from, ps, k);
        assert IsNext(s, SearchFrom(q + FRAME_BYTES, qs, k - 1), qs[k - 1]);
      }
    }
  }

  lemma GreedyAfterSkip(s: seq<byte>, p: nat, ps: seq<nat>)
    requires Skips(s, p) && IsGreedy(s, p + 1, ps)
    ensures IsGreedy(s, p, ps)
  {
    if ps != [] {
      GreedyUncons(s, p + 1, ps);
      assert IsNext(s, p, ps[0]);
      GreedyCons(s, p, ps[0], ps[1..]);
      assert [ps[0]] + ps[1..] == ps;
    }
  }

  lemma {:induction false} StartsAreGreedy(s: seq<byte>, p: nat)
    requires p <= |s|
    ensures IsGreedy(s, p, Starts(s, p))
    decreases |s| - p
  {
    if Blocked(s, p) {
      assert Starts(s, p) == [];
    } else if Skips(s, p) {
      StartsAreGreedy(s, p + 1);
      GreedyAfterSkip(s, p, Starts(s, p + 1));
    } else {
      StartsAreGreedy(s, p + FRAME_BYTES);
      GreedyCons(s, p, p, Starts(s, p + FRAME_BYTES));
    }
  }

  lemma NextIsUnique(s: seq<byte>, lo: nat, q: nat, r: nat)
    requires IsNext(s, lo, q) && IsNext(s, lo, r)
    ensures q == r
  {
  }

  lemma {:induction false} GreedyIsUnique(s: seq<byte>, from: nat, ps: seq<nat>, qs: seq<nat>)
    requires IsGreedy(s, from, ps) && IsGreedy(s, from, qs)
    ensures ps == qs
    decreases |ps|
  {
    if ps == [] || qs == [] {
      if ps != [] { GreedyUncons(s, from, ps); }
      if qs != [] { GreedyUncons(s, from, qs); }
    } else {
      GreedyUncons(s, from, ps);
      GreedyUncons(s, from, qs);
      NextIsUnique(s, from, ps[0], qs[0]);
      GreedyIsUnique(s, ps[0] + FRAME_BYTES, ps[1..], qs[1..]);
    }
  }

  /** The decoder implements the declarative scan, which has exactly one answer. */
  lemma DecoderIsGreedyScan(s: seq<byte>, ps: seq<nat>)
    ensures IsGreedy(s, 0, ps) <==> ps == Starts(s, 0)
  {
    StartsAreGreedy(s, 0);
    if IsGreedy(s, 0, ps) {
      GreedyIsUnique(s, 0, ps, Starts(s, 0));
    }
  }

  /** The accumulator keeps the stream from the first blocked offset after the last packet, and that is all. */
  lemma {:induction false} StopIsFirstBlocked(s: seq<byte>, p: nat)
    requires p <= |s|
    ensures var ps := Starts(s, p);
      && SearchFrom(p, ps, |ps|) <= Stop(s, p)
      && Blocked(s, Stop(s, p))
      && forall q: nat :: SearchFrom(p, ps, |ps|) <= q < Stop(s, p) ==> !Blocked(s, q)
    decreases |s| - p
  {
    if Blocked(s, p) {
    } else if Skips(s, p) {
      StopIsFirstBlocked(s, p + 1);
    } else {
      StopIsFirstBlocked(s, p + FRAME_BYTES);
    }
  }

  /** The accumulator never holds as much as a packet, and six bytes or more only behind a magic pair. */
  lemma BoundedMemory(s: seq<byte>)
    ensures |Residue(s)| < HEADER_BYTES || (|Residue(s)| < FRAME_BYTES && MagicAt(Residue(s), 0))
  {
    StopIsFirstBlocked(s, 0);
  }

  // ---- Byte conservation ----

  datatype Tile = Frame(start: nat) | Skipped(at: nat)

  function TileBytes(s: seq<byte>, t: Tile): seq<byte> {
    match t
    case Frame(p) => if FrameAt(s, p) then s[p..p + FRAME_BYTES] else []
    case Skipped(p) => if p < |s| && !FrameAt(s, p) then [s[p]] else []
  }

  function LaidOut(s: seq<byte>, tiles: seq<Tile>): seq<byte> {
    if tiles == [] then [] else TileBytes(s, tiles[0]) + LaidOut(s, tiles[1..])
  }

  function FrameTiles(tiles: seq<Tile>): seq<nat> {
    if tiles == [] then []
    else (if tiles[0].Frame? then [tiles[0].start] else []) + FrameTiles(tiles[1..])
  }

  /** Nothing is duplicated, reordered or invented: the stream is its packets and the single bytes
      skipped between them, in order, followed by the accumulator. */
  lemma {:induction false} BytesAreConserved(s: seq<byte>, p: nat) returns (tiles: seq<Tile>)
    requires p <= |s|
    ensures LaidOut(s, tiles) + s[Stop(s, p)..] == s[p..]
    ensures FrameTiles(tiles) == Starts(s, p)
    decreases |s| - p
  {
    if Blocked(s, p) {
      tiles := [];
    } else {
      var next := if Skips(s, p) then p + 1 else p + FRAME_BYTES;
      var tile := if Skips(s, p) then Skipped(p) else Frame(p);
      assert TileBytes(s, tile) == s[p..next];
      var more := BytesAreConserved(s, next);
      tiles := [tile] + more;
      LayOutOne(s, tile, more);
      assert LaidOut(s, tiles) + s[Stop(s, next)..] == s[p..] by {
        ConcatAssociates(s[p..next], LaidOut(s, more), s[Stop(s, next)..]);
        CutAt(s, p, next);
      }
    }
  }

  lemma LayOutOne(s: seq<byte>, tile: Tile, more: seq<Tile>)
    ensures LaidOut(s, [tile] + more) == TileBytes(s, tile) + LaidOut(s, more)
    ensures FrameTiles([tile] + more) == (if tile.Frame? then [tile.start] else []) + FrameTiles(more)
  {
    assert ([tile] + more)[1..] == more;
  }

  // ---- Chunk independence ----

  lemma {:induction false} StartsExtend(a: seq<byte>, s: seq<byte>, p: nat)
    requires p <= |a| && a <= s
    ensures Starts(s, p) == Starts(a, p) + Starts(s, Stop(a, p))
    ensures Stop(s, p) == Stop(s, Stop(a, p))
    decreases |a| - p
  {
    if Blocked(a, p) {
      assert Starts(a, p) == [];
    } else if Skips(a, p) {
      assert Skips(s, p);
      StartsExtend(a, s, p + 1);
    } else {
      assert FrameAt(s, p);
      StartsExtend(a, s, p + FRAME_BYTES);
      ConcatAssociates([p], Starts(a, p + FRAME_BYTES), Starts(s, Stop(a, p)));
    }
  }

  ghost predicate MovedBy(k: nat, ps: seq<nat>, qs: seq<nat>) {
    |ps| == |qs| && forall i :: 0 <= i < |ps| ==> ps[i] == k + qs[i]
  }

  lemma MovedCons(k: nat, p: nat, ps: seq<nat>, qs: seq<nat>)
    requires MovedBy(k, ps, qs)
    ensures MovedBy(k, [k + p] + ps, [p] + qs)
  {
  }

  lemma CasesShift(s: seq<byte>, k: nat, p: nat)
    requires k + p <= |s|
    ensures Blocked(s, k + p) == Blocked(s[k..], p) && Skips(s, k + p) == Skips(s[k..], p)
    ensures FrameAt(s, k + p) == FrameAt(s[k..], p)
  {
  }

  lemma {:induction false} StartsShift(s: seq<byte>, k: nat, p: nat)
    requires k + p <= |s|
    ensures MovedBy(k, Starts(s, k + p), Starts(s[k..], p))
    ensures Stop(s, k + p) == k + Stop(s[k..], p)
    decreases |s| - p
  {
    CasesShift(s, k, p);
    if Blocked(s, k + p) {
    } else if Skips(s, k + p) {
      StartsShift(s, k, p + 1);
    } else {
      StartsShift(s, k, p + FRAME_BYTES);
      MovedCons(k, p, Starts(s, k + p + FRAME_BYTES), Starts(s[k..], p + FRAME_BYTES));
    }
  }

  lemma DecodeShifted(s: seq<byte>, k: nat, ps: seq<nat>, qs: seq<nat>)
    requires k <= |s| && MovedBy(k, ps, qs)
    requires forall i :: 0 <= i < |ps| ==> ps[i] + FRAME_BYTES <= |s|
    ensures DecodeAt(s, ps) == DecodeAt(s[k..], qs)
  {
    forall i | 0 <= i < |ps|
      ensures s[k..][qs[i]..qs[i] + FRAME_BYTES] == s[ps[i]..ps[i] + FRAME_BYTES]
    {
    }
  }

  lemma DecodePrefix(a: seq<byte>, s: seq<byte>, ps: seq<nat>)
    requires a <= s && forall i :: 0 <= i < |ps| ==> ps[i] + FRAME_BYTES <= |a|
    ensures DecodeAt(s, ps) == DecodeAt(a, ps)
  {
    forall i | 0 <= i < |ps|
      ensures s[ps[i]..ps[i] + FRAME_BYTES] == a[ps[i]..ps[i] + FRAME_BYTES]
    {
    }
  }

  lemma DecodeConcat(s: seq<byte>, ps: seq<nat>, qs: seq<nat>)
    requires forall i :: 0 <= i < |ps| ==> ps[i] + FRAME_BYTES <= |s|
    requires forall i :: 0 <= i < |qs| ==> qs[i] + FRAME_BYTES <= |s|
    ensures forall i :: 0 <= i < |ps + qs| ==> (ps + qs)[i] + FRAME_BYTES <= |s|
    ensures DecodeAt(s, ps + qs) == DecodeAt(s, ps) + DecodeAt(s, qs)
  {
  }

  lemma DecodeFrom(s: seq<byte>, k: nat)
    requires k <= |s|
    ensures DecodeAt(s, Starts(s, k)) == Decoded(s[k..])
    ensures s[Stop(s, k)..] == Residue(s[k..])
  {
    StartsShift(s, k, 0);
    DecodeShifted(s, k, Starts(s, k), Starts(s[k..], 0));
  }

  /** One cut: decoding a and then b from what a left behind is decoding a + b. */
  lemma SplitAnywhere(a: seq<byte>, b: seq<byte>)
    ensures Decoded(a + b) == Decoded(a) + Decoded(Residue(a) + b)
    ensures Residue(a + b) == Residue(Residue(a) + b)
  {
    var s, k := a + b, Stop(a, 0);
    StartsExtend(a, s, 0);
    assert s[k..] == Residue(a) + b;
    DecodeFrom(s, k);
    DecodePrefix(a, s, Starts(a, 0));
    DecodeConcat(s, Starts(a, 0), Starts(s, k));
  }

  /** The messages reported by each of a series of ParseStream calls. */
  function CallOutputs(acc: seq<byte>, chunks: seq<seq<byte>>): (outs: seq<seq<Transaction>>)
    ensures |outs| == |chunks|
    decreases |chunks|
  {
    if chunks == [] then []
    else [Decoded(acc + chunks[0])] + CallOutputs(Residue(acc + chunks[0]), chunks[1..])
  }

  /** The accumulator after a series of ParseStream calls. */
  function CallResidue(acc: seq<byte>, chunks: seq<seq<byte>>): seq<byte>
    decreases |chunks|
  {
    if chunks == [] then acc else CallResidue(Residue(acc + chunks[0]), chunks[1..])
  }

  /** The accumulator is as every call and every reset leaves it: under 6 bytes, or under 70 behind a
      magic pair. */
  predicate Settled(acc: seq<byte>) {
    Blocked(acc, 0)
  }

  /** Settled accumulators are exactly those that a call without new bytes leaves alone. */
  lemma SettledMeansIdle(acc: seq<byte>)
    ensures Settled(acc) <==> Decoded(acc) == [] && Residue(acc) == acc
  {
    StopIsFirstBlocked(acc, 0);
    if Residue(acc) == acc {
      assert Stop(acc, 0) == 0;
    }
    if Settled(acc) {
      assert Starts(acc, 0) == [];
    }
  }

  lemma ResidueIsSettled(s: seq<byte>)
    ensures Settled(Residue(s))
  {
    StopIsFirstBlocked(s, 0);
  }

  lemma OutputsCons(acc: seq<byte>, chunks: seq<seq<byte>>)
    requires chunks != []
    ensures var s := acc + chunks[0];
      Flatten(CallOutputs(acc, chunks)) == Decoded(s) + Flatten(CallOutputs(Residue(s), chunks[1..]))
  {
    var s := acc + chunks[0];
    assert CallOutputs(acc, chunks)[1..] == CallOutputs(Residue(s), chunks[1..]);
  }

  /** However a stream is cut into calls, from any accumulator, the messages and the final accumulator
      are those of one call on the whole stream. */
  lemma {:induction false} ChunkIndependence(acc: seq<byte>, chunks: seq<seq<byte>>)
    requires chunks != [] || Settled(acc)
    ensures Flatten(CallOutputs(acc, chunks)) == Decoded(acc + Flatten(chunks))
    ensures CallResidue(acc, chunks) == Residue(acc + Flatten(chunks))
    decreases |chunks|
  {
    if chunks == [] {
      assert acc + [] == acc;
      SettledMeansIdle(acc);
    } else {
      var s, rest := acc + chunks[0], Flatten(chunks[1..]);
      ResidueIsSettled(s);
      ChunkIndependence(Residue(s), chunks[1..]);
      SplitAnywhere(s, rest);
      ConcatAssociates(acc, chunks[0], rest);
      OutputsCons(acc, chunks);
    }
  }

  // ---- Emission time ----

  /** More input never revises what was reported: the packets found in a prefix are the packets of the
      whole stream that end inside the prefix. */
  lemma PrefixReportsCompletedFrames(a: seq<byte>, s: seq<byte>)
    requires a <= s
    ensures Starts(a, 0) <= Starts(s, 0)
    ensures forall k :: 0 <= k < |Starts(s, 0)| ==> (k < |Starts(a, 0)| <==> Starts(s, 0)[k] + FRAME_BYTES <= |a|)
  {
    StartsExtend(a, s, 0);
    StartsAreFrames(s, Stop(a, 0));
    forall k | |Starts(a, 0)| <= k < |Starts(s, 0)|
      ensures Starts(s, 0)[k] + FRAME_BYTES > |a|
    {
      var q := Starts(s, Stop(a, 0))[k - |Starts(a, 0)|];
      assert Starts(s, 0)[k] == q;
      LaterFrameEndsLater(a, s, q);
    }
  }

  lemma LaterFrameEndsLater(a: seq<byte>, s: seq<byte>, q: nat)
    requires a <= s && Stop(a, 0) <= q && FrameAt(s, q)
    ensures q + FRAME_BYTES > |a|
  {
    StartsAreGreedy(a, 0);
    StopIsFirstBlocked(a, 0);
    assert FrameAt(a, q) <==> q + FRAME_BYTES <= |a|;
  }

  /** The j-th call works on what the calls before it left behind. */
  lemma {:induction false} OutputOfCall(acc: seq<byte>, chunks: seq<seq<byte>>, j: nat)
    requires j < |chunks|
    ensures CallOutputs(acc, chunks)[j] == Decoded(CallResidue(acc, chunks[..j]) + chunks[j])
    decreases j
  {
    if j > 0 {
      OutputOfCall(Residue(acc + chunks[0]), chunks[1..], j - 1);
      assert chunks[..j][1..] == chunks[1..][..j - 1];
    }
  }

  /** Call j reports exactly the packets whose last byte it delivers, whatever settled accumulator the
      calls started from: packet k, at offset p of the accumulator and the stream, comes out of the call
      that supplies byte p + 69. */
  lemma ExactEmissionTime(acc: seq<byte>, chunks: seq<seq<byte>>, j: nat)
    requires Settled(acc) && j < |chunks|
    ensures var s := acc + Flatten(chunks);
      var before, after := acc + Flatten(chunks[..j]), acc + Flatten(chunks[..j + 1]);
      var lo, hi := |Starts(before, 0)|, |Starts(after, 0)|;
      && lo <= hi <= |Starts(s, 0)|
      && CallOutputs(acc, chunks)[j] == Decoded(s)[lo..hi]
      && forall k :: 0 <= k < |Starts(s, 0)| ==>
           (lo <= k < hi <==> |before| < Starts(s, 0)[k] + FRAME_BYTES <= |after|)
  {
    hide Starts, Stop, Flatten, CallOutputs, CallResidue;
    var s := acc + Flatten(chunks);
    var before, after := acc + Flatten(chunks[..j]), acc + Flatten(chunks[..j + 1]);
    var rest := Flatten(chunks[j + 1..]);
    assert after == before + chunks[j] by {
      assert chunks[..j + 1] == chunks[..j] + [chunks[j]];
      FlattenSnoc(chunks[..j], chunks[j]);
      ConcatAssociates(acc, Flatten(chunks[..j]), chunks[j]);
    }
    assert s == after + rest by {
      assert chunks == chunks[..j + 1] + chunks[j + 1..];
      FlattenConcat(chunks[..j + 1], chunks[j + 1..]);
      ConcatAssociates(acc, Flatten(chunks[..j + 1]), rest);
    }
    assert before <= s;
    PrefixReportsCompletedFrames(after, s);
    PrefixReportsCompletedFrames(before, s);
    PrefixReportsCompletedFrames(before, after);
    SplitAnywhere(before, chunks[j]);
    SplitAnywhere(after, rest);
    ChunkIndependence(acc, chunks[..j]);
    OutputOfCall(acc, chunks, j);
  }
}
