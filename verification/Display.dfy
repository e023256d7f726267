/** What the monitor shows of the frames that were configured: the path from configuration to text and tree,
    with the filter in between. */
module Display {
  import opened Bytes
  import opened Protocol
  import opened Parser
  import opened Resync
  import opened BusController
  import opened MonitorText
  import opened Monitor

  // ---- One message ----

  /** The record of any packet: a valid command on bus A, the payload's big-endian words as far as WC counts
      them, and no status, second command, error or time tag. */
  lemma RecordOfPacket(f: seq<byte>)
    requires |f| == FRAME_BYTES
    ensures var t := Decode(f);
      && t.cmd1.valid && t.cmd1.bus == 'A'
      && |t.dataWords| == (if 1 <= f[5] <= 32 then f[5] else 32)
      && (forall i :: 0 <= i < |t.dataWords| ==> t.dataWords[i] == 256 * (f[6 + 2 * i] as int) + f[7 + 2 * i])
      && !t.stat1.valid && t.stat1.value == 0 && !t.stat2.valid && !t.cmd2.valid
      && !t.errorValid && t.errorWord == 0
      && t.fullTimetag == 0 && t.lastTimetagLow == 0 && t.lastTimetagHigh == 0
  {
  }

  /** What the display should show of a configuration. */
  function Shown(config: FrameConfig): Reading
    requires InRange(config)
  {
    var header := Header('A', config.mode == RtToBc, config.rt, config.sa, Requested(config.wc));
    Reading(Some(header), Intended(config).words)
  }

  lemma ReadingOfSent(config: FrameConfig)
    requires InRange(config)
    ensures var t := Decode(FrameBytes(config)); t.cmd1.valid && ReadingOf(t) == Shown(config)
    ensures KeyOf(Decode(FrameBytes(config))) == Terminal(config)
  {
    hide FrameBytes;
    var t := Decode(FrameBytes(config));
    RecordOfPacket(FrameBytes(config));
    InRangeRoundTrip(config);
    assert Read(t) == Intended(config);
  }

  /** The header line of a configuration that was sent says on bus A what was configured, and without a filter
      the tree is told of just that terminal. */
  lemma SentFrameIsShown(config: FrameConfig, o: Observed)
    requires InRange(config)
    ensures var t := Decode(FrameBytes(config));
      && |HeaderLine(t.cmd1)| >= 26
      && ReadHeader(HeaderLine(t.cmd1))
         == Header('A', config.mode == RtToBc, config.rt, config.sa, Requested(config.wc))
      && (!o.enabled ==> KeysFor([t], [o]) == {Key('A', config.rt, config.sa)})
  {
    hide Decode, FrameBytes, HeaderLine, ReadHeader;
    var t := Decode(FrameBytes(config));
    ReadingOfSent(config);
    HeaderReadsBack(t.cmd1);
    KeysOfOne(t, o);
  }

  lemma KeysOfOne(t: Transaction, o: Observed)
    ensures KeysFor([t], [o]) == if Passes(t, o) && t.cmd1.valid then {KeyOf(t)} else {}
  {
    KeysSnoc([t], [o], 0);
    NothingYet([t], [o]);
    assert [t][..1] == [t] && [o][..1] == [o];
  }

  // ---- The filter ----

  /** Whatever the filter fields are at each of their loads, a message is held back exactly when the filter is
      on and a field that is set differs from what was configured. */
  lemma FilterOnSent(config: FrameConfig, o: Observed)
    requires InRange(config)
    ensures !Passes(Decode(FrameBytes(config)), o) <==>
      o.enabled && ((o.rtSet != -1 && config.rt != o.rtWanted) || (o.saSet != -1 && config.sa != o.saWanted))
  {
    hide Decode, FrameBytes, InRange;
    ReadingOfSent(config);
  }

  /** Every message was filtered with the same settings. */
  ghost predicate Fixed(os: seq<Observed>, on: bool, rt: int, sa: int) {
    forall i :: 0 <= i < |os| ==> SetTo(os[i], on, rt, sa)
  }

  predicate SetTo(o: Observed, on: bool, rt: int, sa: int) {
    o.enabled == on && o.rtSet == rt && o.rtWanted == rt && o.saSet == sa && o.saWanted == sa
  }

  /** The filter asks for this configuration; -1 stands for any RT or SA. */
  predicate Selected(config: FrameConfig, on: bool, rt: int, sa: int) {
    !on || ((rt == -1 || config.rt == rt) && (sa == -1 || config.sa == sa))
  }

  function SelectedText(configs: seq<FrameConfig>, stamps: seq<string>, on: bool, rt: int, sa: int): string
    requires |stamps| == |configs|
  {
    if configs == [] then ""
    else
      var k := |configs| - 1;
      var earlier := SelectedText(configs[..k], stamps[..k], on, rt, sa);
      var piece := Formatted(Decode(FrameBytes(configs[k])), stamps[k]);
      if Selected(configs[k], on, rt, sa) then earlier + piece else earlier
  }

  function Terminal(config: FrameConfig): Key
    requires InRange(config)
  {
    Key('A', config.rt, config.sa)
  }

  function SelectedKeys(configs: seq<FrameConfig>, on: bool, rt: int, sa: int): set<Key>
    requires forall i :: 0 <= i < |configs| ==> InRange(configs[i])
  {
    set i | 0 <= i < |configs| && Selected(configs[i], on, rt, sa) :: Terminal(configs[i])
  }

  function Stamps(os: seq<Observed>): (r: seq<string>)
    ensures |r| == |os|
  {
    seq(|os|, i requires 0 <= i < |os| => os[i].stamp)
  }

  ghost predicate AllInRange(configs: seq<FrameConfig>) {
    forall i :: 0 <= i < |configs| ==> InRange(configs[i])
  }

  function Messages(configs: seq<FrameConfig>): (ts: seq<Transaction>)
    ensures |ts| == |configs|
  {
    DecodeEach(Encodings(configs))
  }

  lemma MessagesFront(configs: seq<FrameConfig>, k: nat)
    requires k < |configs|
    ensures Messages(configs)[..k] == Messages(configs[..k])
    ensures Messages(configs)[k] == Decode(FrameBytes(configs[k]))
  {
  }

  lemma SelectsSent(config: FrameConfig, o: Observed, on: bool, rt: int, sa: int)
    requires InRange(config) && SetTo(o, on, rt, sa)
    ensures Passes(Decode(FrameBytes(config)), o) <==> Selected(config, on, rt, sa)
  {
    hide Decode, FrameBytes, Passes;
    FilterOnSent(config, o);
  }

  /** Of a train of frames, the text shown is that of exactly the frames the filter asks for, in order. */
  lemma {:induction false} FilteredText(configs: seq<FrameConfig>, os: seq<Observed>, on: bool, rt: int, sa: int)
    requires AllInRange(configs) && |os| == |configs| && Fixed(os, on, rt, sa)
    ensures TextFor(Messages(configs), os) == SelectedText(configs, Stamps(os), on, rt, sa)
    decreases |configs|
  {
    hide Decode, FrameBytes, Passes, Formatted, Selected, InRange, SetTo, Messages;
    if configs != [] {
      var k := |configs| - 1;
      FilteredText(configs[..k], os[..k], on, rt, sa);
      MessagesFront(configs, k);
      TextOfLast(Messages(configs), os);
      assert Stamps(os)[..k] == Stamps(os[..k]);
      SelectsSent(configs[k], os[k], on, rt, sa);
    }
  }

  /** And the terminals announced are those of the same frames. */
  lemma FilteredKeys(configs: seq<FrameConfig>, os: seq<Observed>, on: bool, rt: int, sa: int)
    requires AllInRange(configs) && |os| == |configs| && Fixed(os, on, rt, sa)
    ensures KeysFor(Messages(configs), os) == SelectedKeys(configs, on, rt, sa)
  {
    hide Decode, FrameBytes, Passes, Selected, InRange, SetTo, Messages, KeyOf;
    var ts := Messages(configs);
    forall i | 0 <= i < |configs|
      ensures KeyOf(ts[i]) == Terminal(configs[i]) && ts[i].cmd1.valid
      ensures Passes(ts[i], os[i]) <==> Selected(configs[i], on, rt, sa)
    {
      MessagesFront(configs, i);
      ReadingOfSent(configs[i]);
      SelectsSent(configs[i], os[i], on, rt, sa);
    }
  }

  // ---- Reading the display back ----

  /** The configurations the filter asks for, as the display should show them, in order. */
  function Selection(configs: seq<FrameConfig>, on: bool, rt: int, sa: int): seq<Reading>
    requires forall i :: 0 <= i < |configs| ==> InRange(configs[i])
  {
    if configs == [] then []
    else
      var k := |configs| - 1;
      Selection(configs[..k], on, rt, sa) + if Selected(configs[k], on, rt, sa) then [Shown(configs[k])] else []
  }

  lemma ReadAllCons(t: Transaction, stamp: string, rest: string)
    requires t.cmd1.valid
    ensures ReadAll(Formatted(t, stamp) + rest, |stamp|) == [ReadingOf(t)] + ReadAll(rest, |stamp|)
  {
    hide ReadMessage, Formatted;
    TextReadsBack(t, stamp, rest);
    assert Formatted(t, stamp) != "";
  }

  lemma {:induction false} ReadAllOfTrain(configs: seq<FrameConfig>, stamps: seq<string>, on: bool, rt: int, sa: int,
                                          k: nat, rest: string)
    requires AllInRange(configs) && |stamps| == |configs| && forall i :: 0 <= i < |stamps| ==> |stamps[i]| == k
    ensures ReadAll(SelectedText(configs, stamps, on, rt, sa) + rest, k)
            == Selection(configs, on, rt, sa) + ReadAll(rest, k)
    decreases |configs|
  {
    hide Decode, FrameBytes, Formatted, Selected, InRange, ReadAll;
    if configs == [] {
      assert "" + rest == rest;
    } else {
      var m := |configs| - 1;
      var t := Decode(FrameBytes(configs[m]));
      var earlier := SelectedText(configs[..m], stamps[..m], on, rt, sa);
      var front := Selection(configs[..m], on, rt, sa);
      if Selected(configs[m], on, rt, sa) {
        var piece := Formatted(t, stamps[m]);
        ReadAllOfTrain(configs[..m], stamps[..m], on, rt, sa, k, piece + rest);
        ReadingOfSent(configs[m]);
        ReadAllCons(t, stamps[m], rest);
        ConcatAssociates(earlier, piece, rest);
        ConcatAssociates(front, [Shown(configs[m])], ReadAll(rest, k));
      } else {
        ReadAllOfTrain(configs[..m], stamps[..m], on, rt, sa, k, rest);
        assert front + [] == front;
      }
    }
  }

  /** Reading the display of a train of frames gives back, field by field and word by word, exactly the
      configurations the filter asks for, in order. */
  lemma DisplayReadsBack(configs: seq<FrameConfig>, os: seq<Observed>, on: bool, rt: int, sa: int, k: nat)
    requires AllInRange(configs) && |os| == |configs| && Fixed(os, on, rt, sa)
    requires forall i :: 0 <= i < |os| ==> |os[i].stamp| == k
    ensures ReadAll(TextFor(Messages(configs), os), k) == Selection(configs, on, rt, sa)
  {
    hide ReadMessage, TextFor, SelectedText, Selection, Messages;
    FilteredText(configs, os, on, rt, sa);
    ReadAllOfTrain(configs, Stamps(os), on, rt, sa, k, "");
    var text := SelectedText(configs, Stamps(os), on, rt, sa);
    assert text + "" == text;
    assert ReadAll("", k) == [];
  }
}
