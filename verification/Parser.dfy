/** The resynchronising stream decoder (protocol_parser.cpp). */
module Parser {
  import opened Bytes
  import opened Protocol

  predicate MagicAt(s: seq<byte>, p: nat)
    requires p + 2 <= |s|
  {
    s[p] == 0xAA && s[p + 1] == 0x55
  }

  predicate ModeAt(s: seq<byte>, p: nat)
    requires p + 3 <= |s|
  {
    s[p + 2] == 0x00 || s[p + 2] == 0x01
  }

  /** A complete packet with a valid header occupies the 70 bytes from p. */
  predicate FrameAt(s: seq<byte>, p: nat) {
    p + FRAME_BYTES <= |s| && MagicAt(s, p) && ModeAt(s, p)
  }

  /** The offsets at which a scan of s from p on decodes a packet. */
  function Starts(s: seq<byte>, p: nat): (ps: seq<nat>)
    requires p <= |s|
    ensures forall i :: 0 <= i < |ps| ==> ps[i] + FRAME_BYTES <= |s|
    decreases |s| - p
  {
    if |s| - p < HEADER_BYTES then []
    else if !MagicAt(s, p) then Starts(s, p + 1)
    else if |s| - p < FRAME_BYTES then []
    else if !ModeAt(s, p) then Starts(s, p + 1)
    else [p] + Starts(s, p + FRAME_BYTES)
  }

  lemma {:induction false} StartsAreFrames(s: seq<byte>, p: nat)
    requires p <= |s|
    ensures forall i :: 0 <= i < |Starts(s, p)| ==> p <= Starts(s, p)[i] && FrameAt(s, Starts(s, p)[i])
    decreases |s| - p
  {
    if p + HEADER_BYTES <= |s| {
      if !MagicAt(s, p) {
        StartsAreFrames(s, p + 1);
      } else if p + FRAME_BYTES <= |s| {
        StartsAreFrames(s, p + if ModeAt(s, p) then FRAME_BYTES else 1);
      }
    }
  }

  /** The offset at which a scan of s from p on runs out of bytes. */
  function Stop(s: seq<byte>, p: nat): (r: nat)
    requires p <= |s|
    ensures p <= r <= |s|
    decreases |s| - p
  {
    if |s| - p < HEADER_BYTES then p
    else if !MagicAt(s, p) then Stop(s, p + 1)
    else if |s| - p < FRAME_BYTES then p
    else if !ModeAt(s, p) then Stop(s, p + 1)
    else Stop(s, p + FRAME_BYTES)
  }

  function PayloadWord(frame: seq<byte>, i: nat): word
    requires |frame| == FRAME_BYTES && i < MAX_WORDS
  {
    Join(frame[HEADER_BYTES + 2 * i], frame[HEADER_BYTES + 2 * i + 1])
  }

  /** The message that a 70-byte packet stands for. */
  function Decode(frame: seq<byte>): Transaction
    requires |frame| == FRAME_BYTES
  {
    CLEARED.(
    cmd1 := Slot(CommandWord(frame[3], frame[2] == 1, frame[4], frame[5]), 'A', true),
    dataWords := seq(WordCount(frame[5]), i requires 0 <= i < MAX_WORDS => PayloadWord(frame, i)))
  }

  function DecodeAt(s: seq<byte>, ps: seq<nat>): (ts: seq<Transaction>)
    requires forall i :: 0 <= i < |ps| ==> ps[i] + FRAME_BYTES <= |s|
  {
    seq(|ps|, i requires 0 <= i < |ps| => Decode(s[ps[i]..ps[i] + FRAME_BYTES]))
  }

  /** What one call reports when the accumulator and the new bytes together are s. */
  function Decoded(s: seq<byte>): seq<Transaction> {
    DecodeAt(s, Starts(s, 0))
  }

  /** What that call leaves in the accumulator. */
  function Residue(s: seq<byte>): seq<byte> {
    s[Stop(s, 0)..]
  }

  /** Having read s up to p, the decoder has reported `out`. */
  ghost predicate Reached(s: seq<byte>, p: nat, out: seq<Transaction>) {
    p <= |s| && out + DecodeAt(s, Starts(s, p)) == Decoded(s) && Stop(s, p) == Stop(s, 0)
  }

  predicate Skips(s: seq<byte>, p: nat) {
    p + HEADER_BYTES <= |s| && (!MagicAt(s, p) || (p + FRAME_BYTES <= |s| && !ModeAt(s, p)))
  }

  /** The scan can go no further from p: too few bytes for a header, or a header without its packet. */
  predicate Blocked(s: seq<byte>, p: nat) {
    p <= |s| && (|s| - p < HEADER_BYTES || (MagicAt(s, p) && |s| - p < FRAME_BYTES))
  }

  lemma ReachedBySkip(s: seq<byte>, p: nat, out: seq<Transaction>)
    requires Reached(s, p, out) && Skips(s, p)
    ensures Reached(s, p + 1, out)
  {
  }

  lemma ReachedByFrame(s: seq<byte>, p: nat, out: seq<Transaction>)
    requires Reached(s, p, out) && FrameAt(s, p)
    ensures Reached(s, p + FRAME_BYTES, out + [Decode(s[p..p + FRAME_BYTES])])
  {
    var t := Decode(s[p..p + FRAME_BYTES]);
    var later := DecodeAt(s, Starts(s, p + FRAME_BYTES));
    assert Starts(s, p) == [p] + Starts(s, p + FRAME_BYTES);
    assert DecodeAt(s, Starts(s, p)) == [t] + later;
    ConcatAssociates(out, [t], later);
  }

  lemma ReachedEnd(s: seq<byte>, p: nat, out: seq<Transaction>)
    requires Reached(s, p, out) && Blocked(s, p)
    ensures out == Decoded(s) && s[p..] == Residue(s)
  {
    assert Starts(s, p) == [];
  }

  class ProtocolParser {
    var accumulator: seq<byte>

    constructor ()
      ensures accumulator == []
    {
      accumulator := [];
    }

    /** `out` lists the messages handed to the callback, in order. */
    method ParseStream(buffer: seq<byte>) returns (out: seq<Transaction>)
      modifies this
      ensures out == Decoded(old(accumulator) + buffer)
      ensures accumulator == Residue(old(accumulator) + buffer)
    {
      accumulator := accumulator + buffer;
      out := [];
      ghost var s, p: nat := accumulator, 0;
      while |accumulator| >= HEADER_BYTES
        invariant p <= |s| && accumulator == s[p..]
        invariant Reached(s, p, out)
        decreases |accumulator|
      {
        if accumulator[0] != 0xAA || accumulator[1] != 0x55 {
          ReachedBySkip(s, p, out);
          accumulator := accumulator[1..];
          p := p + 1;
          continue;
        }
        if |accumulator| < FRAME_BYTES {
          break;
        }
        var mode, rt, sa, wc := accumulator[2], accumulator[3], accumulator[4], accumulator[5];
        if mode != 0x00 && mode != 0x01 {
          ReachedBySkip(s, p, out);
          accumulator := accumulator[1..];
          p := p + 1;
          continue;
        }
        var trans := DecodeHead(accumulator, mode, rt, sa, wc);
        assert accumulator[..FRAME_BYTES] == s[p..p + FRAME_BYTES];
        ReachedByFrame(s, p, out);
        out := out + [trans.Value()];
        accumulator := accumulator[FRAME_BYTES..];
        p := p + FRAME_BYTES;
      }
      ReachedEnd(s, p, out);
    }

    /** Fills a cleared record from the packet at the head of the accumulator. */
    static method DecodeHead(bytes: seq<byte>, mode: byte, rt: byte, sa: byte, wc: byte)
      returns (trans: MessageTransaction)
      requires |bytes| >= FRAME_BYTES && bytes[2..6] == [mode, rt, sa, wc]
      ensures fresh(trans) && trans.Value() == Decode(bytes[..FRAME_BYTES]) && !trans.IsEmpty()
    {
      assert bytes[2..6][0] == mode && bytes[2..6][1] == rt && bytes[2..6][2] == sa && bytes[2..6][3] == wc;
      ghost var goal := Decode(bytes[..FRAME_BYTES]);
      trans := new MessageTransaction();
      trans.Clear();
      trans.cmd1 := Slot(CommandWord(rt, mode == 0x01, sa, wc), 'A', true);
      var words: nat := if wc == 0 then 32 else wc;
      if words > 32 {
        words := 32;
      }
      var i := 0;
      while i < words
        invariant 0 <= i <= words == |goal.dataWords|
        invariant trans.Value() == CLEARED.(cmd1 := goal.cmd1, dataWords := goal.dataWords[..i])
      {
        trans.dataWords := trans.dataWords + [Join(bytes[HEADER_BYTES + 2 * i], bytes[HEADER_BYTES + 2 * i + 1])];
        i := i + 1;
      }
      trans.stat1 := trans.stat1.(value := 0, valid := false);
    }

    method Reset()
      modifies this
      ensures accumulator == []
    {
      accumulator := [];
    }
  }
}
