/** The bus monitor's relay: filter, pending batch and timed flush (BM in bm.cpp). */
module Monitor {
  import opened Bytes
  import opened Protocol
  import opened Parser
  import opened Stream
  import opened MonitorText
  import opened Capture

  const BUFFER_BYTES: nat := 4096
  const NANOS_PER_MS: int := 1_000_000
  const FLUSH_MS: int := 50

  datatype Key = Key(bus: char, rt: nat, sa: nat)

  /** What processing one message reads from outside: the filter switch, each atomic filter field as
      it is loaded (RT and SA are loaded twice, without the mutex), and the wall-clock text. */
  datatype Observed = Observed(enabled: bool, rtSet: int, rtWanted: int, saSet: int, saWanted: int, stamp: string)

  predicate Passes(t: Transaction, o: Observed) {
    !o.enabled
    || ((o.rtSet == -1 || RtField(t.cmd1.value) == o.rtWanted)
        && (o.saSet == -1 || SaField(t.cmd1.value) == o.saWanted))
  }

  function KeyOf(t: Transaction): Key {
    Key(t.cmd1.bus, RtField(t.cmd1.value), SaField(t.cmd1.value))
  }

  /** What one message adds to the pending text. */
  function Piece(t: Transaction, o: Observed): string {
    if Passes(t, o) then Formatted(t, o.stamp) else ""
  }

  /** The texts of the messages that pass, in order. */
  function TextFor(ts: seq<Transaction>, os: seq<Observed>): string
    requires |ts| == |os|
  {
    if ts == [] then ""
    else
      var k := |ts| - 1;
      TextFor(ts[..k], os[..k]) + Piece(ts[k], os[k])
  }

  /** The terminals that the messages which pass belong to. */
  function KeysFor(ts: seq<Transaction>, os: seq<Observed>): set<Key>
    requires |ts| == |os|
  {
    set i | 0 <= i < |ts| && Passes(ts[i], os[i]) && ts[i].cmd1.valid :: KeyOf(ts[i])
  }

  datatype Relay = Relay(acc: seq<byte>, text: string, keys: set<Key>, lastUpdate: int)

  /** One round of the monitor thread: the bytes received, the reads made for message 0, 1, ... of the
      round, and the steady clock (nanoseconds) at its end. */
  datatype Round = Round(buffer: seq<byte>, observe: nat -> Observed, now: int)

  datatype Batch = Batch(text: string, keys: set<Key>)

  function ReadsOf(acc: seq<byte>, round: Round): (os: seq<Observed>)
    ensures |os| == |Decoded(acc + round.buffer)| && forall i :: 0 <= i < |os| ==> os[i] == round.observe(i)
  {
    seq(|Decoded(acc + round.buffer)|, i requires 0 <= i => round.observe(i))
  }

  /** The relay after one round, and the batch taken out of it if the round flushed. */
  function AfterRound(r: Relay, round: Round): (Relay, Option<Batch>) {
    var s := r.acc + round.buffer;
    var text := r.text + TextFor(Decoded(s), ReadsOf(r.acc, round));
    var keys := r.keys + KeysFor(Decoded(s), ReadsOf(r.acc, round));
    if (round.now - r.lastUpdate) / NANOS_PER_MS > FLUSH_MS
    then (Relay(Residue(s), "", {}, round.now), Some(Batch(text, keys)))
    else (Relay(Residue(s), text, keys, r.lastUpdate), None)
  }

  function HandedText(batch: Option<Batch>, callbackSet: bool): seq<string> {
    if batch.Some? && callbackSet && batch.value.text != "" then [batch.value.text] else []
  }

  function HandedKeys(batch: Option<Batch>, callbackSet: bool): set<Key> {
    if batch.Some? && callbackSet then batch.value.keys else {}
  }

  /** One call of the tree callback. */
  datatype TreeCall = TreeCall(key: Key, isActive: bool)

  /** The order of std::set<RtSaKey>: by bus, then RT, then SA. */
  predicate Before(a: Key, b: Key) {
    if a.bus != b.bus then a.bus < b.bus
    else if a.rt != b.rt then a.rt < b.rt
    else a.sa < b.sa
  }

  /** Terminals of one bus come in the order of their RT numbers, those of one RT in that of their subaddresses. */
  lemma OrderIsNumeric(a: Key, b: Key)
    requires a.sa <= 31 && b.sa <= 31 && a.rt <= 31 && b.rt <= 31
    ensures Before(a, b)
            <==> 1024 * (a.bus as int) + 32 * a.rt + a.sa < 1024 * (b.bus as int) + 32 * b.rt + b.sa
  {
  }

  /** The calls announce each of the keys as active, once, in ascending order. */
  ghost predicate Announces(calls: seq<TreeCall>, keys: set<Key>) {
    && (forall i :: 0 <= i < |calls| ==> calls[i].isActive && calls[i].key in keys)
    && (forall i, j :: 0 <= i < j < |calls| ==> Before(calls[i].key, calls[j].key))
    && (forall k :: k in keys ==> exists i :: 0 <= i < |calls| && calls[i].key == k)
  }

  lemma AnnouncesTail(calls: seq<TreeCall>, keys: set<Key>)
    requires Announces(calls, keys) && calls != []
    ensures calls[0].key in keys && Announces(calls[1..], keys - {calls[0].key})
    ensures forall k :: k in keys ==> k == calls[0].key || Before(calls[0].key, k)
  {
    forall k | k in keys - {calls[0].key}
      ensures exists i :: 0 <= i < |calls[1..]| && calls[1..][i].key == k
    {
      var i :| 0 <= i < |calls| && calls[i].key == k;
      assert calls[1..][i - 1].key == k;
    }
  }

  lemma NoCallsWithoutKeys(calls: seq<TreeCall>, keys: set<Key>)
    requires Announces(calls, keys)
    ensures calls == [] <==> keys == {}
  {
    if calls != [] {
      assert calls[0].key in keys;
    }
  }

  lemma NothingToAnnounce()
    ensures Announces([], {})
  {
  }

  /** There is only one such series of calls. */
  lemma {:induction false} AnnouncedOneWay(a: seq<TreeCall>, b: seq<TreeCall>, keys: set<Key>)
    requires Announces(a, keys) && Announces(b, keys)
    ensures a == b
    decreases |a|
  {
    NoCallsWithoutKeys(a, keys);
    NoCallsWithoutKeys(b, keys);
    if a != [] {
      AnnouncesTail(a, keys);
      AnnouncesTail(b, keys);
      assert a[0] == b[0];
      AnnouncedOneWay(a[1..], b[1..], keys - {a[0].key});
    }
  }

  /** A set of keys has a first one. */
  lemma {:induction false} FirstExists(keys: set<Key>)
    requires keys != {}
    ensures exists f :: f in keys && forall k :: k in keys ==> k == f || Before(f, k)
    decreases |keys|
  {
    var any :| any in keys;
    var rest := keys - {any};
    assert forall k :: k in keys ==> k == any || k in rest;
    if rest != {} {
      FirstExists(rest);
      var f :| f in rest && forall k :: k in rest ==> k == f || Before(f, k);
      FirstOfTwo(keys, any, f);
    }
  }

  /** If f is first among the keys but one, either of the two is first among all. */
  lemma FirstOfTwo(keys: set<Key>, any: Key, f: Key)
    requires any in keys && f in keys && f != any
    requires forall k :: k in keys ==> k == any || k == f || Before(f, k)
    ensures exists g :: g in keys && forall k :: k in keys ==> k == g || Before(g, k)
  {
    if !Before(f, any) {
      forall k | k in keys
        ensures k == any || Before(any, k)
      {
      }
    }
  }

  /** Walks an ordered set from its first key to its last. */
  method AnnounceAll(keys: set<Key>) returns (calls: seq<TreeCall>)
    ensures Announces(calls, keys)
  {
    calls := [];
    var rest := keys;
    while rest != {}
      invariant rest <= keys && Announces(calls, keys - rest)
      invariant forall i, k :: 0 <= i < |calls| && k in rest ==> Before(calls[i].key, k)
    {
      FirstExists(rest);
      var key :| key in rest && forall k :: k in rest ==> k == key || Before(key, k);
      AnnounceNext(calls, keys - rest, key);
      assert keys - rest + {key} == keys - (rest - {key});
      calls := calls + [TreeCall(key, true)];
      rest := rest - {key};
    }
    assert keys - rest == keys;
  }

  lemma AnnounceNext(calls: seq<TreeCall>, keys: set<Key>, key: Key)
    requires Announces(calls, keys) && forall i :: 0 <= i < |calls| ==> Before(calls[i].key, key)
    ensures Announces(calls + [TreeCall(key, true)], keys + {key})
  {
    var longer := calls + [TreeCall(key, true)];
    forall k | k in keys + {key}
      ensures exists i :: 0 <= i < |longer| && longer[i].key == k
    {
      if k in keys {
        var i :| 0 <= i < |calls| && calls[i].key == k;
        assert longer[i].key == k;
      } else {
        assert longer[|calls|].key == k;
      }
    }
  }

  class BM {
    const proxy: TcpProxy
    const parser: ProtocolParser
    var pendingMessages: string
    var pendingActiveKeys: set<Key>
    var lastGuiUpdate: int
    var messagesCallbackSet: bool
    var treeCallbackSet: bool

    constructor ()
      ensures fresh(proxy) && fresh(parser) && proxy.payloadQueue == []
    {
      proxy := new TcpProxy();
      parser := new ProtocolParser();
      pendingMessages, pendingActiveKeys, lastGuiUpdate := "", {}, 0;
      messagesCallbackSet, treeCallbackSet := false, false;
    }

    function State(): Relay
      reads this, parser
    {
      Relay(parser.accumulator, pendingMessages, pendingActiveKeys, lastGuiUpdate)
    }

    /** The part of start() that clears what an earlier run left behind; the payload queue is not part of it. */
    method ClearForStart(now: int)
      modifies this, parser
      ensures State() == Relay([], "", {}, now)
      ensures messagesCallbackSet == old(messagesCallbackSet) && treeCallbackSet == old(treeCallbackSet)
    {
      parser.Reset();
      pendingMessages := "";
      pendingActiveKeys := {};
      lastGuiUpdate := now;
    }

    /** `texts` and `calls` are what the two callbacks are called with, in order. */
    method ProcessAndRelayData(buffer: seq<byte>, observe: nat -> Observed, now: int)
      returns (texts: seq<string>, calls: seq<TreeCall>)
      modifies this, parser
      ensures var (after, batch) := AfterRound(old(State()), Round(buffer, observe, now));
        && State() == after
        && texts == HandedText(batch, old(messagesCallbackSet))
        && Announces(calls, HandedKeys(batch, old(treeCallbackSet)))
      ensures messagesCallbackSet == old(messagesCallbackSet) && treeCallbackSet == old(treeCallbackSet)
    {
      hide Decoded, Residue, TextFor, KeysFor, Announces;
      ghost var os := ReadsOf(parser.accumulator, Round(buffer, observe, now));
      var ts := parser.ParseStream(buffer);
      Collect(ts, observe, os);
      texts, calls := [], [];
      NothingToAnnounce();
      if (now - lastGuiUpdate) / NANOS_PER_MS > FLUSH_MS {
        var toSend, keysToSend := pendingMessages, pendingActiveKeys;
        pendingMessages, pendingActiveKeys := "", {};
        if messagesCallbackSet && toSend != "" {
          texts := [toSend];
        }
        if treeCallbackSet && keysToSend != {} {
          calls := AnnounceAll(keysToSend);
        }
        lastGuiUpdate := now;
      }
    }

    /** The parser's callback, once for each decoded message. */
    method Collect(ts: seq<Transaction>, observe: nat -> Observed, ghost os: seq<Observed>)
      requires |os| == |ts| && forall i :: 0 <= i < |ts| ==> os[i] == observe(i)
      modifies this`pendingMessages, this`pendingActiveKeys
      ensures pendingMessages == old(pendingMessages) + TextFor(ts, os)
      ensures pendingActiveKeys == old(pendingActiveKeys) + KeysFor(ts, os)
    {
      hide Formatted, TextFor, KeysFor;
      var i := 0;
      NothingYet(ts, os);
      while i < |ts|
        invariant 0 <= i <= |ts|
        invariant pendingMessages == old(pendingMessages) + TextFor(ts[..i], os[..i])
        invariant pendingActiveKeys == old(pendingActiveKeys) + KeysFor(ts[..i], os[..i])
      {
        var t, o := ts[i], observe(i);
        TextSnoc(ts, os, i);
        KeysSnoc(ts, os, i);
        ConcatAssociates(old(pendingMessages), TextFor(ts[..i], os[..i]), Piece(t, o));
        i := i + 1;
        if o.enabled {
          var rt, sa := RtField(t.cmd1.value), SaField(t.cmd1.value);
          if o.rtSet != -1 && rt != o.rtWanted {
            continue;
          }
          if o.saSet != -1 && sa != o.saWanted {
            continue;
          }
        }
        var formatted := FormatTransaction(t, o.stamp);
        pendingMessages := pendingMessages + formatted;
        if t.cmd1.valid {
          pendingActiveKeys := pendingActiveKeys + {Key(t.cmd1.bus, RtField(t.cmd1.value), SaField(t.cmd1.value))};
        }
      }
      assert ts[..i] == ts && os[..i] == os;
    }

    /** One turn of the monitor thread's loop. */
    method MonitorTurn(observe: nat -> Observed, now: int) returns (texts: seq<string>, calls: seq<TreeCall>)
      modifies this, parser, proxy
      ensures proxy.payloadQueue == if old(proxy.payloadQueue) == [] then [] else old(proxy.payloadQueue)[1..]
      ensures old(proxy.payloadQueue) == [] || old(proxy.payloadQueue)[0] == [] ==>
        State() == old(State()) && texts == [] && calls == []
      ensures old(proxy.payloadQueue) != [] && old(proxy.payloadQueue)[0] != [] ==>
        var received := Clipped(old(proxy.payloadQueue)[0], BUFFER_BYTES);
        var (after, batch) := AfterRound(old(State()), Round(received, observe, now));
        && State() == after
        && texts == HandedText(batch, old(messagesCallbackSet))
        && Announces(calls, HandedKeys(batch, old(treeCallbackSet)))
    {
      hide Formatted, TextFor, KeysFor, AfterRound, Announces, Clipped;
      NothingToAnnounce();
      texts, calls := [], [];
      var buffer := new byte[BUFFER_BYTES];
      var bytesRead := proxy.ReceiveData(buffer, BUFFER_BYTES);
      if bytesRead > 0 {
        texts, calls := ProcessAndRelayData(buffer[..bytesRead], observe, now);
      }
    }
  }

  lemma NothingYet(ts: seq<Transaction>, os: seq<Observed>)
    requires |ts| == |os|
    ensures TextFor(ts[..0], os[..0]) == "" && KeysFor(ts[..0], os[..0]) == {}
  {
  }

  lemma TextSnoc(ts: seq<Transaction>, os: seq<Observed>, i: nat)
    requires i < |ts| == |os|
    ensures TextFor(ts[..i + 1], os[..i + 1])
            == TextFor(ts[..i], os[..i]) + Piece(ts[i], os[i])
  {
    assert ts[..i + 1][..i] == ts[..i] && os[..i + 1][..i] == os[..i];
  }

  lemma KeysSnoc(ts: seq<Transaction>, os: seq<Observed>, i: nat)
    requires i < |ts| == |os|
    ensures KeysFor(ts[..i + 1], os[..i + 1])
            == KeysFor(ts[..i], os[..i]) + if Passes(ts[i], os[i]) && ts[i].cmd1.valid then {KeyOf(ts[i])} else {}
  {
    KeysConcat(ts[..i], [ts[i]], os[..i], [os[i]]);
    assert ts[..i + 1] == ts[..i] + [ts[i]] && os[..i + 1] == os[..i] + [os[i]];
    assert KeysFor([ts[i]], [os[i]]) == if Passes(ts[i], os[i]) && ts[i].cmd1.valid then {KeyOf(ts[i])} else {} by {
      assert [ts[i]][0] == ts[i] && [os[i]][0] == os[i];
    }
  }

  lemma KeysConcat(a: seq<Transaction>, b: seq<Transaction>, oa: seq<Observed>, ob: seq<Observed>)
    requires |a| == |oa| && |b| == |ob|
    ensures KeysFor(a + b, oa + ob) == KeysFor(a, oa) + KeysFor(b, ob)
  {
    var ts, os := a + b, oa + ob;
    forall k | k in KeysFor(b, ob)
      ensures k in KeysFor(ts, os)
    {
      var i :| 0 <= i < |b| && Passes(b[i], ob[i]) && b[i].cmd1.valid && KeyOf(b[i]) == k;
      assert ts[|a| + i] == b[i] && os[|a| + i] == ob[i];
    }
    forall k | k in KeysFor(a, oa)
      ensures k in KeysFor(ts, os)
    {
      var i :| 0 <= i < |a| && Passes(a[i], oa[i]) && a[i].cmd1.valid && KeyOf(a[i]) == k;
      assert ts[i] == a[i] && os[i] == oa[i];
    }
    forall k | k in KeysFor(ts, os)
      ensures k in KeysFor(a, oa) + KeysFor(b, ob)
    {
      var i :| 0 <= i < |ts| && Passes(ts[i], os[i]) && ts[i].cmd1.valid && KeyOf(ts[i]) == k;
      if i < |a| {
        assert ts[i] == a[i] && os[i] == oa[i];
      } else {
        assert ts[i] == b[i - |a|] && os[i] == ob[i - |a|];
      }
    }
  }

  lemma {:induction false} TextConcat(a: seq<Transaction>, b: seq<Transaction>, oa: seq<Observed>, ob: seq<Observed>)
    requires |a| == |oa| && |b| == |ob|
    ensures TextFor(a + b, oa + ob) == TextFor(a, oa) + TextFor(b, ob)
    decreases |b|
  {
    if b == [] {
      assert a + b == a && oa + ob == oa;
    } else {
      hide TextFor, Piece;
      var k := |b| - 1;
      TextConcat(a, b[..k], oa, ob[..k]);
      TextOfLast(b, ob);
      TextOfLast(a + b, oa + ob);
      TakeOfConcat(a, b, k);
      TakeOfConcat(oa, ob, k);
      ConcatAssociates(TextFor(a, oa), TextFor(b[..k], ob[..k]), Piece(b[k], ob[k]));
    }
  }

  lemma TextOfLast(ts: seq<Transaction>, os: seq<Observed>)
    requires |ts| == |os| && ts != []
    ensures var k := |ts| - 1; TextFor(ts, os) == TextFor(ts[..k], os[..k]) + Piece(ts[k], os[k])
  {
  }

  // ---- Whole runs ----

  datatype Trace = Trace(relay: Relay, batches: seq<Batch>)

  function Run(r: Relay, rounds: seq<Round>): Trace
    decreases |rounds|
  {
    if rounds == [] then Trace(r, [])
    else
      var (next, batch) := AfterRound(r, rounds[0]);
      var later := Run(next, rounds[1..]);
      Trace(later.relay, (if batch.Some? then [batch.value] else []) + later.batches)
  }

  function Buffers(rounds: seq<Round>): seq<seq<byte>> {
    if rounds == [] then [] else [rounds[0].buffer] + Buffers(rounds[1..])
  }

  /** All reads of a run, one for each message decoded, in order. */
  function AllReads(acc: seq<byte>, rounds: seq<Round>): seq<Observed>
    decreases |rounds|
  {
    if rounds == [] then []
    else ReadsOf(acc, rounds[0]) + AllReads(Residue(acc + rounds[0].buffer), rounds[1..])
  }

  function BatchText(batches: seq<Batch>): string {
    if batches == [] then "" else batches[0].text + BatchText(batches[1..])
  }

  function BatchKeys(batches: seq<Batch>): set<Key> {
    if batches == [] then {} else batches[0].keys + BatchKeys(batches[1..])
  }

  lemma RunCons(r: Relay, rounds: seq<Round>)
    requires rounds != []
    ensures var (next, batch) := AfterRound(r, rounds[0]);
      var later := Run(next, rounds[1..]);
      && Run(r, rounds).relay == later.relay
      && BatchText(Run(r, rounds).batches) == (if batch.Some? then batch.value.text else "") + BatchText(later.batches)
      && BatchKeys(Run(r, rounds).batches) == (if batch.Some? then batch.value.keys else {}) + BatchKeys(later.batches)
      && |Run(r, rounds).batches| == (if batch.Some? then 1 else 0) + |later.batches|
  {
    var (next, batch) := AfterRound(r, rounds[0]);
    var later := Run(next, rounds[1..]);
    if batch.Some? {
      assert ([batch.value] + later.batches)[1..] == later.batches;
    } else {
      assert [] + later.batches == later.batches;
    }
  }

  lemma RoundConserves(r: Relay, round: Round)
    ensures var (next, batch) := AfterRound(r, round);
      var ts, os := Decoded(r.acc + round.buffer), ReadsOf(r.acc, round);
      && (if batch.Some? then batch.value.text else "") + next.text == r.text + TextFor(ts, os)
      && (if batch.Some? then batch.value.keys else {}) + next.keys == r.keys + KeysFor(ts, os)
      && next.acc == Residue(r.acc + round.buffer)
      && (batch.Some? ==> next.text == "" && next.keys == {})
  {
    hide Decoded, Residue, TextFor, KeysFor;
    var text := r.text + TextFor(Decoded(r.acc + round.buffer), ReadsOf(r.acc, round));
    assert "" + text == text && text + "" == text;
  }

  lemma {:induction false} RunSnoc(r: Relay, rounds: seq<Round>, round: Round)
    ensures var t := Run(r, rounds);
      var (relay, batch) := AfterRound(t.relay, round);
      Run(r, rounds + [round]) == Trace(relay, t.batches + if batch.Some? then [batch.value] else [])
    decreases |rounds|
  {
    hide AfterRound;
    if rounds == [] {
      assert [] + [round] == [round] && [round][1..] == [];
    } else {
      var next := AfterRound(r, rounds[0]).0;
      RunSnoc(next, rounds[1..], round);
      assert (rounds + [round])[1..] == rounds[1..] + [round];
    }
  }

  /** The stream of a run: its first round, then the rest on top of what the first left behind. */
  lemma StreamCons(acc: seq<byte>, rounds: seq<Round>)
    requires rounds != []
    ensures var s := acc + rounds[0].buffer;
      var whole, rest := acc + Flatten(Buffers(rounds)), Residue(s) + Flatten(Buffers(rounds[1..]));
      Decoded(whole) == Decoded(s) + Decoded(rest) && Residue(whole) == Residue(rest)
  {
    hide Decoded, Residue;
    var s, rest := acc + rounds[0].buffer, Flatten(Buffers(rounds[1..]));
    SplitAnywhere(s, rest);
    ConcatAssociates(acc, rounds[0].buffer, rest);
    assert Buffers(rounds)[1..] == Buffers(rounds[1..]);
  }

  lemma {:induction false} RunDecodesStream(r: Relay, rounds: seq<Round>)
    requires Settled(r.acc)
    ensures Run(r, rounds).relay.acc == Residue(r.acc + Flatten(Buffers(rounds)))
    ensures |AllReads(r.acc, rounds)| == |Decoded(r.acc + Flatten(Buffers(rounds)))|
    decreases |rounds|
  {
    hide TextFor, KeysFor, Decoded, Residue;
    if rounds == [] {
      assert r.acc + [] == r.acc;
      SettledMeansIdle(r.acc);
    } else {
      StreamCons(r.acc, rounds);
      ResidueIsSettled(r.acc + rounds[0].buffer);
      RunDecodesStream(AfterRound(r, rounds[0]).0, rounds[1..]);
      RunCons(r, rounds);
    }
  }

  /** Over any run, the batches taken for the callbacks followed by what is still pending are the texts of
      the messages of the whole byte stream that passed the filter values read for them, each once, in
      order; and the keys taken together with the pending ones are exactly the terminals of those messages. */
  lemma {:induction false} GuiConservation(r: Relay, rounds: seq<Round>)
    requires Settled(r.acc)
    ensures |AllReads(r.acc, rounds)| == |Decoded(r.acc + Flatten(Buffers(rounds)))|
    ensures var t := Run(r, rounds);
      var ts, os := Decoded(r.acc + Flatten(Buffers(rounds))), AllReads(r.acc, rounds);
      && BatchText(t.batches) + t.relay.text == r.text + TextFor(ts, os)
      && BatchKeys(t.batches) + t.relay.keys == r.keys + KeysFor(ts, os)
    decreases |rounds|
  {
    hide *;
    if rounds == [] {
      EmptyRun(r);
    } else {
      ConservationStep(r, rounds);
    }
  }

  lemma EmptyRun(r: Relay)
    requires Settled(r.acc)
    ensures Decoded(r.acc + Flatten(Buffers([]))) == [] && AllReads(r.acc, []) == []
    ensures Run(r, []) == Trace(r, []) && BatchText([]) == "" && BatchKeys([]) == {}
    ensures TextFor([], []) == "" && KeysFor([], []) == {}
  {
    hide Decoded, Residue;
    assert r.acc + [] == r.acc;
    SettledMeansIdle(r.acc);
  }

  lemma {:induction false} ConservationStep(r: Relay, rounds: seq<Round>)
    requires Settled(r.acc) && rounds != []
    ensures |AllReads(r.acc, rounds)| == |Decoded(r.acc + Flatten(Buffers(rounds)))|
    ensures var t := Run(r, rounds);
      var ts, os := Decoded(r.acc + Flatten(Buffers(rounds))), AllReads(r.acc, rounds);
      && BatchText(t.batches) + t.relay.text == r.text + TextFor(ts, os)
      && BatchKeys(t.batches) + t.relay.keys == r.keys + KeysFor(ts, os)
    decreases |rounds|, 0
  {
    hide TextFor, KeysFor, Decoded, Residue, BatchText, BatchKeys, Settled;
    var s := r.acc + rounds[0].buffer;
    var (next, batch) := AfterRound(r, rounds[0]);
    StreamCons(r.acc, rounds);
    ResidueIsSettled(s);
    GuiConservation(next, rounds[1..]);
    RunCons(r, rounds);
    var ts, os := Decoded(s), ReadsOf(r.acc, rounds[0]);
    var us, later := Decoded(next.acc + Flatten(Buffers(rounds[1..]))), AllReads(next.acc, rounds[1..]);
    assert AllReads(r.acc, rounds) == os + later;
    TextConcat(ts, us, os, later);
    KeysConcat(ts, us, os, later);
    RoundConserves(r, rounds[0]);
    var t := Run(next, rounds[1..]);
    var taken := if batch.Some? then batch.value.text else "";
    JoinTexts(taken, BatchText(t.batches), t.relay.text, next.text, TextFor(us, later), r.text, TextFor(ts, os));
  }

  lemma JoinTexts(taken: string, laterTaken: string, pending: string, next: string, later: string,
                  before: string, now: string)
    requires laterTaken + pending == next + later && taken + next == before + now
    ensures (taken + laterTaken) + pending == before + (now + later)
  {
    ConcatAssociates(taken, laterTaken, pending);
    ConcatAssociates(taken, next, later);
    ConcatAssociates(before, now, later);
  }

  /** A flush takes all that has gathered since the one before, or since start(), and nothing older: if it is
      the first of a run, its batch is the text and the keys of the run's messages behind what was pending, and
      nothing stays pending. */
  lemma FlushTakesAll(r: Relay, rounds: seq<Round>, round: Round)
    requires Settled(r.acc) && Run(r, rounds).batches == []
    ensures var all := rounds + [round];
      var t, ts, os := Run(r, all), Decoded(r.acc + Flatten(Buffers(all))), AllReads(r.acc, all);
      && |os| == |ts|
      && |t.batches| <= 1
      && (t.batches != [] ==>
            && t.batches == [Batch(r.text + TextFor(ts, os), r.keys + KeysFor(ts, os))]
            && t.relay.text == "" && t.relay.keys == {})
      && (t.batches == [] ==> t.relay.text == r.text + TextFor(ts, os) && t.relay.keys == r.keys + KeysFor(ts, os))
  {
    hide TextFor, KeysFor, Decoded, Residue, Run, AfterRound, AllReads, Buffers, Settled;
    var all := rounds + [round];
    GuiConservation(r, all);
    RunSnoc(r, rounds, round);
    RoundConserves(Run(r, rounds).relay, round);
    OneBatch(Run(r, all).batches);
    assert BatchText(Run(r, all).batches) + "" == BatchText(Run(r, all).batches);
  }

  lemma OneBatch(batches: seq<Batch>)
    requires |batches| <= 1
    ensures if batches == [] then BatchText(batches) == "" && BatchKeys(batches) == {}
      else BatchText(batches) == batches[0].text && BatchKeys(batches) == batches[0].keys
  {
    if batches != [] {
      assert batches[1..] == [];
    }
  }

  /** What the text callback is called with over a run. */
  function TextsHanded(batches: seq<Batch>, callbackSet: bool): seq<string> {
    if batches == [] then [] else HandedText(Some(batches[0]), callbackSet) + TextsHanded(batches[1..], callbackSet)
  }

  /** The callback receives all the text of the batches, except when none is set and there is text to lose. */
  lemma {:induction false} TextReachesCallback(batches: seq<Batch>, callbackSet: bool)
    ensures Flatten(TextsHanded(batches, callbackSet)) == BatchText(batches)
            <==> (callbackSet || BatchText(batches) == "")
    ensures !callbackSet ==> TextsHanded(batches, callbackSet) == []
    ensures forall text :: text in TextsHanded(batches, callbackSet) ==> text != ""
    decreases |batches|
  {
    if batches != [] {
      TextReachesCallback(batches[1..], callbackSet);
      var head := HandedText(Some(batches[0]), callbackSet);
      FlattenConcat(head, TextsHanded(batches[1..], callbackSet));
      if head != [] {
        assert Flatten(head) == batches[0].text + Flatten(head[1..]);
      }
    }
  }

  /** The terminals that the tree callback is told of over a run. */
  function KeysHanded(batches: seq<Batch>, callbackSet: bool): set<Key> {
    if batches == [] then {} else HandedKeys(Some(batches[0]), callbackSet) + KeysHanded(batches[1..], callbackSet)
  }

  /** The tree callback is told of all terminals of the batches, except when none is set and there are any. */
  lemma {:induction false} KeysReachCallback(batches: seq<Batch>, callbackSet: bool)
    ensures KeysHanded(batches, callbackSet) == BatchKeys(batches) <==> (callbackSet || BatchKeys(batches) == {})
    ensures !callbackSet ==> KeysHanded(batches, callbackSet) == {}
    decreases |batches|
  {
    if batches != [] {
      KeysReachCallback(batches[1..], callbackSet);
    }
  }

  // ---- Flush rate ----

  /** Every flush is at least 51 ms of the steady clock after the one before, or after start(). */
  lemma {:induction false} FlushesAreSpaced(r: Relay, rounds: seq<Round>)
    ensures 51_000_000 * |Run(r, rounds).batches| <= Run(r, rounds).relay.lastUpdate - r.lastUpdate
    decreases |rounds|
  {
    hide TextFor, KeysFor, Decoded, Residue;
    if rounds != [] {
      RunCons(r, rounds);
      FlushesAreSpaced(AfterRound(r, rounds[0]).0, rounds[1..]);
    }
  }

  /** The clock never runs backwards from `from` through the rounds. */
  ghost predicate Monotone(from: int, rounds: seq<Round>)
    decreases |rounds|
  {
    rounds == [] || (from <= rounds[0].now && Monotone(rounds[0].now, rounds[1..]))
  }

  function Clock(from: int, rounds: seq<Round>): int {
    if rounds == [] then from else rounds[|rounds| - 1].now
  }

  lemma {:induction false} LastUpdateIsPast(r: Relay, from: int, rounds: seq<Round>)
    requires Monotone(from, rounds) && r.lastUpdate <= from
    ensures Run(r, rounds).relay.lastUpdate <= Clock(from, rounds)
    decreases |rounds|
  {
    hide TextFor, KeysFor, Decoded, Residue;
    if rounds != [] {
      RunCons(r, rounds);
      LastUpdateIsPast(AfterRound(r, rounds[0]).0, rounds[0].now, rounds[1..]);
    }
  }

  /** With a monotone clock, k flushes since start() mean that at least 51 * k milliseconds have passed. */
  lemma FlushRateBound(r: Relay, rounds: seq<Round>)
    requires Monotone(r.lastUpdate, rounds)
    ensures 51_000_000 * |Run(r, rounds).batches| <= Clock(r.lastUpdate, rounds) - r.lastUpdate
  {
    FlushesAreSpaced(r, rounds);
    LastUpdateIsPast(r, r.lastUpdate, rounds);
  }

  /** Flushes are not put off either: after any round less than 51 ms separate the clock from the last
      flush, or from start(). */
  lemma {:induction false} FlushedWhenDue(r: Relay, rounds: seq<Round>)
    requires rounds != []
    ensures Clock(r.lastUpdate, rounds) - Run(r, rounds).relay.lastUpdate < 51_000_000
    decreases |rounds|
  {
    hide TextFor, KeysFor, Decoded, Residue;
    RunCons(r, rounds);
    var next := AfterRound(r, rounds[0]).0;
    if |rounds| == 1 {
      assert rounds[1..] == [];
    } else {
      FlushedWhenDue(next, rounds[1..]);
      assert rounds[1..][|rounds| - 2] == rounds[|rounds| - 1];
    }
  }
}
