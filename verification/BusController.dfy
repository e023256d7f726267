/** The frame encoder and the reply decoder (BusController::sendAcyclicFrame in bc.cpp). */
module BusController {
  import opened Bytes
  import opened Protocol
  import opened Parser
  import opened Hex
  import Resync

  datatype BcMode = BcToRt | RtToBc | RtToRt | ModeCodeNoData | ModeCodeWithData

  datatype FrameConfig = FrameConfig(
    title: string, bus: char, rt: int, sa: int, rt2: int, sa2: int, wc: int, mode: BcMode, data: seq<string>)

  // ---- Byte order ----

  /** The byte order of the machine the program runs on. */
  datatype ByteOrder = LittleEndian | BigEndian

  function Swap(v: word): word { v % 256 * 256 + v / 256 }

  /** htons and ntohs are the same conversion. */
  function NetworkOrder(host: ByteOrder, v: word): word {
    if host.LittleEndian? then Swap(v) else v
  }

  /** The two bytes of a uint16_t in memory. */
  function Stored(host: ByteOrder, v: word): seq<byte> {
    if host.LittleEndian? then [v % 256, v / 256] else [v / 256, v % 256]
  }

  function Loaded(host: ByteOrder, first: byte, second: byte): word {
    if host.LittleEndian? then Join(second, first) else Join(first, second)
  }

  /** Whatever the host, a word goes out high byte first. */
  lemma StoredBigEndian(host: ByteOrder, v: word)
    ensures Stored(host, NetworkOrder(host, v)) == [v / 256, v % 256]
  {
  }

  /** Whatever the host, a word comes in high byte first. */
  lemma LoadedBigEndian(host: ByteOrder, hi: byte, lo: byte)
    ensures NetworkOrder(host, Loaded(host, hi, lo)) == Join(hi, lo)
  {
  }

  /** The packed 70-byte structure as the program addresses it. */
  class Packet {
    var magic0: byte
    var magic1: byte
    var mode: byte
    var rt: byte
    var sa: byte
    var wc: byte
    const dataWords: array<word>

    constructor ()
      ensures fresh(dataWords) && dataWords.Length == MAX_WORDS
    {
      magic0, magic1, mode, rt, sa, wc := 0, 0, 0, 0, 0, 0;
      dataWords := new word[MAX_WORDS];
    }

    /** The memory image that write() sends. */
    function Image(host: ByteOrder): seq<byte>
      reads this, dataWords
    {
      [magic0, magic1, mode, rt, sa, wc] + StoredAll(host, dataWords[..])
    }
  }

  function StoredAll(host: ByteOrder, ws: seq<word>): (s: seq<byte>)
    ensures |s| == 2 * |ws|
  {
    seq(2 * |ws|, k requires 0 <= k < 2 * |ws| => Stored(host, ws[k / 2])[k % 2])
  }

  // ---- Encoding ----

  function ModeByte(mode: BcMode): byte {
    match mode
    case BcToRt => 0x00
    case RtToBc => 0x01
    case _ => 0x00
  }

  function DataWord(config: FrameConfig, i: nat): word {
    if i < |config.data| then FieldWord(config.data[i]) else 0
  }

  function HeaderOf(config: FrameConfig): (h: seq<byte>)
    ensures |h| == HEADER_BYTES
  {
    [0xAA, 0x55, ModeByte(config.mode), config.rt % 256, config.sa % 256, config.wc % 256]
  }

  function PayloadByte(config: FrameConfig, k: nat): byte {
    if k % 2 == 0 then DataWord(config, k / 2) / 256 else DataWord(config, k / 2) % 256
  }

  function PayloadOf(config: FrameConfig): (p: seq<byte>)
    ensures |p| == 2 * MAX_WORDS
  {
    seq(2 * MAX_WORDS, k requires 0 <= k => PayloadByte(config, k))
  }

  /** The 70 bytes on the wire for one configured frame: header, then 32 big-endian words. */
  function FrameBytes(config: FrameConfig): (f: seq<byte>)
    ensures |f| == FRAME_BYTES
  {
    HeaderOf(config) + PayloadOf(config)
  }

  lemma StoredPayload(host: ByteOrder, config: FrameConfig, ws: seq<word>)
    requires |ws| == MAX_WORDS && forall k: nat :: k < MAX_WORDS ==> ws[k] == NetworkOrder(host, DataWord(config, k))
    ensures StoredAll(host, ws) == PayloadOf(config)
  {
    forall k: nat | k < 2 * MAX_WORDS
      ensures StoredAll(host, ws)[k] == PayloadOf(config)[k]
    {
      StoredBigEndian(host, DataWord(config, k / 2));
    }
  }

  method EncodeFrame(host: ByteOrder, config: FrameConfig) returns (packet: Packet)
    ensures fresh(packet) && packet.Image(host) == FrameBytes(config)
  {
    packet := new Packet();
    packet.magic0 := 0xAA;
    packet.magic1 := 0x55;
    if config.mode == BcToRt {
      packet.mode := 0x00;
    } else if config.mode == RtToBc {
      packet.mode := 0x01;
    } else {
      packet.mode := 0x00;
    }
    packet.rt := config.rt % 256;
    packet.sa := config.sa % 256;
    packet.wc := config.wc % 256;
    FillDataWords(host, config, packet.dataWords);
    StoredPayload(host, config, packet.dataWords[..]);
  }

  /** The 32 data words in network order; a field that is absent or that std::stoul rejects becomes 0. */
  method FillDataWords(host: ByteOrder, config: FrameConfig, dataWords: array<word>)
    requires dataWords.Length == MAX_WORDS
    modifies dataWords
    ensures forall k: nat :: k < MAX_WORDS ==> dataWords[k] == NetworkOrder(host, DataWord(config, k))
  {
    hide StoulHex, NetworkOrder;
    var i := 0;
    while i < MAX_WORDS
      invariant 0 <= i <= MAX_WORDS
      invariant forall k: nat :: k < i ==> dataWords[k] == NetworkOrder(host, DataWord(config, k))
    {
      var value: word := 0;
      if i < |config.data| {
        var parsed := StoulHex(config.data[i]);
        if parsed.Some? {
          value := parsed.value % 65536;
        }
      }
      assert value == DataWord(config, i);
      dataWords[i] := NetworkOrder(host, value);
      i := i + 1;
    }
  }

  // ---- Decoding a reply ----

  /** The caller's array after a reply: the decoded words, then whatever stood behind them. */
  function Overlaid(words: seq<word>, before: seq<word>): (after: seq<word>)
    requires |words| <= |before|
    ensures |after| == |before|
    ensures forall j :: 0 <= j < |after| ==> after[j] == if j < |words| then words[j] else before[j]
  {
    words + before[|words|..]
  }

  /** The structure's bytes after a read: those delivered, then whatever the memory held before. */
  function ReadInto(reply: seq<byte>, memory: seq<byte>): (image: seq<byte>)
    requires |reply| <= |memory| == FRAME_BYTES
    ensures |image| == FRAME_BYTES && reply <= image
  {
    reply + memory[|reply|..]
  }

  /** The packed structure as those bytes read. */
  method LoadPacket(host: ByteOrder, reply: seq<byte>) returns (response: Packet)
    requires |reply| == FRAME_BYTES
    ensures fresh(response) && fresh(response.dataWords) && response.dataWords.Length == MAX_WORDS
    ensures response.wc == reply[5]
    ensures forall j: nat :: j < MAX_WORDS ==> NetworkOrder(host, response.dataWords[j]) == PayloadWord(reply, j)
  {
    response := new Packet();
    response.magic0, response.magic1, response.mode := reply[0], reply[1], reply[2];
    response.rt, response.sa, response.wc := reply[3], reply[4], reply[5];
    var k := 0;
    while k < MAX_WORDS
      modifies response.dataWords
      invariant 0 <= k <= MAX_WORDS
      invariant forall j: nat :: j < k ==> NetworkOrder(host, response.dataWords[j]) == PayloadWord(reply, j)
    {
      LoadedBigEndian(host, reply[HEADER_BYTES + 2 * k], reply[HEADER_BYTES + 2 * k + 1]);
      response.dataWords[k] := Loaded(host, reply[HEADER_BYTES + 2 * k], reply[HEADER_BYTES + 2 * k + 1]);
      k := k + 1;
    }
  }

  /** Copies out the words that the reply's WC announces, converting each from network order; they are
      the words the monitor's parser would report for the structure's bytes. */
  method DecodeReply(host: ByteOrder, reply: seq<byte>, memory: seq<byte>, received: array<word>)
    requires HEADER_BYTES <= |reply| <= FRAME_BYTES && |memory| == FRAME_BYTES && received.Length == MAX_WORDS
    modifies received
    ensures received[..] == Overlaid(Decode(ReadInto(reply, memory)).dataWords, old(received[..]))
  {
    var image := ReadInto(reply, memory);
    var response := LoadPacket(host, image);
    ghost var before := received[..];
    var receivedWords: nat := if response.wc == 0 then 32 else response.wc;
    var i := 0;
    while i < receivedWords && i < 32
      modifies received
      invariant 0 <= i <= WordCount(image[5])
      invariant forall j: nat :: j < i ==> received[j] == PayloadWord(image, j)
      invariant forall j: nat :: i <= j < MAX_WORDS ==> received[j] == before[j]
    {
      received[i] := NetworkOrder(host, response.dataWords[i]);
      i := i + 1;
    }
    OverlaidAt(image, before, received[..]);
  }

  /** The words copied out depend on the reply alone. */
  ghost predicate SelfContained(reply: seq<byte>)
    requires HEADER_BYTES <= |reply| <= FRAME_BYTES
  {
    forall m1, m2 :: |m1| == |m2| == FRAME_BYTES ==>
      Decode(ReadInto(reply, m1)).dataWords == Decode(ReadInto(reply, m2)).dataWords
  }

  /** The code only asks that a reply has six bytes. The caller's words come from the reply, and not from
      unset memory, exactly when the reply is as long as its own WC announces. */
  lemma ReplyIsSelfContained(reply: seq<byte>)
    requires HEADER_BYTES <= |reply| <= FRAME_BYTES
    ensures SelfContained(reply) <==> HEADER_BYTES + 2 * WordCount(reply[5]) <= |reply|
  {
    hide CommandWord, WordCount;
    var n := WordCount(reply[5]);
    if HEADER_BYTES + 2 * n <= |reply| {
      forall m1, m2 | |m1| == |m2| == FRAME_BYTES
        ensures Decode(ReadInto(reply, m1)).dataWords == Decode(ReadInto(reply, m2)).dataWords
      {
        var a, b := ReadInto(reply, m1), ReadInto(reply, m2);
        assert forall k :: 0 <= k < |reply| ==> a[k] == b[k] == reply[k];
        assert forall i: nat :: i < n ==> PayloadWord(a, i) == PayloadWord(b, i);
      }
    } else {
      var zeros: seq<byte> := seq(FRAME_BYTES, _ => 0);
      var ones: seq<byte> := seq(FRAME_BYTES, _ => 1);
      var a, b := ReadInto(reply, zeros), ReadInto(reply, ones);
      var last := HEADER_BYTES + 2 * (n - 1);
      assert a[5] == b[5] == reply[5];
      assert a[last + 1] == 0 && b[last + 1] == 1;
      assert Decode(a).dataWords[n - 1] == Join(a[last], 0);
      assert Decode(b).dataWords[n - 1] == Join(b[last], 1);
      assert Join(a[last], 0) % 256 == 0 && Join(b[last], 1) % 256 == 1;
    }
  }

  lemma OverlaidAt(reply: seq<byte>, before: seq<word>, after: seq<word>)
    requires |reply| == FRAME_BYTES && |before| == |after| == MAX_WORDS
    requires forall j: nat :: j < WordCount(reply[5]) ==> after[j] == PayloadWord(reply, j)
    requires forall j: nat :: WordCount(reply[5]) <= j < MAX_WORDS ==> after[j] == before[j]
    ensures after == Overlaid(Decode(reply).dataWords, before)
  {
  }

  /** Sends one frame and, for a transmit command, waits for the answer. `clientFd` is what the atomic load
      returned, `written` what write() returned, `reply` what read() delivered unless it failed, `memory`
      what the response structure held before. `sent` are the bytes the kernel took. */
  method SendAcyclicFrame(host: ByteOrder, clientFd: int, frame: Option<FrameConfig>, written: int,
                          reply: Option<seq<byte>>, memory: seq<byte>, received: array<word>)
    returns (ret: int, sent: seq<byte>)
    requires written <= FRAME_BYTES && (reply.Some? ==> |reply.value| <= FRAME_BYTES)
    requires |memory| == FRAME_BYTES && received.Length == MAX_WORDS
    modifies received
    ensures sent == if clientFd >= 0 && frame.Some? && written >= 0 then FrameBytes(frame.value)[..written] else []
    ensures ret == 0 <==>
      && clientFd >= 0 && frame.Some? && written >= 0
      && (frame.value.mode == RtToBc ==> reply.Some? && |reply.value| >= HEADER_BYTES)
    ensures ret == 0 || ret == -1
    ensures received[..] == if ret == 0 && frame.value.mode == RtToBc
      then Overlaid(Decode(ReadInto(reply.value, memory)).dataWords, old(received[..])) else old(received[..])
  {
    if clientFd < 0 {
      return -1, [];
    }
    if frame.None? {
      return -1, [];
    }
    var config := frame.value;
    var packet := EncodeFrame(host, config);
    if written < 0 {
      return -1, [];
    }
    sent := packet.Image(host)[..written];
    if config.mode == RtToBc {
      if reply.Some? && |reply.value| >= 6 {
        DecodeReply(host, reply.value, memory, received);
        return 0, sent;
      } else {
        return -1, sent;
      }
    }
    return 0, sent;
  }

  /** The reply decoder never checks the header: of all 70-byte replies, the monitor's parser reports the
      same message exactly when magic and mode are valid, and reports nothing otherwise. */
  lemma TwoDecodersAgree(reply: seq<byte>)
    requires |reply| == FRAME_BYTES
    ensures var valid := reply[0] == 0xAA && reply[1] == 0x55 && (reply[2] == 0 || reply[2] == 1);
      Decoded(reply) == if valid then [Decode(reply)] else []
  {
    if FrameAt(reply, 0) {
      assert Starts(reply, 0) == [0] + Starts(reply, FRAME_BYTES);
      assert Starts(reply, FRAME_BYTES) == [];
      assert reply[0..0 + FRAME_BYTES] == reply;
    } else {
      StartsAreFrames(reply, 0);
      var ps := Starts(reply, 0);
      assert ps != [] ==> FrameAt(reply, ps[0]);
    }
  }

  // ---- Round trip ----

  /** What a bus message says, independent of how it is packed. */
  datatype Message = Message(transmit: bool, rt: int, sa: int, count: int, words: seq<word>)

  /** A message as its reader unpacks it from the command word and the data words. */
  function Read(t: Transaction): Message {
    var cmd := t.cmd1.value;
    Message(TransmitField(cmd), RtField(cmd), SaField(cmd), CountField(cmd), t.dataWords)
  }

  /** The number of words a configured count asks for. */
  function Requested(wc: int): nat {
    if wc == 0 then 32 else if wc > 0 then wc else 0
  }

  /** The message a configuration is meant to put on the bus. */
  function Intended(config: FrameConfig): Message {
    Message(config.mode == RtToBc, config.rt, config.sa, Requested(config.wc),
            seq(Requested(config.wc), i requires 0 <= i => DataWord(config, i)))
  }

  predicate InRange(config: FrameConfig) {
    0 <= config.rt <= 31 && 0 <= config.sa <= 31 && 0 <= config.wc <= 32
  }

  /** The encoding is a packet with the configured fields, cut to bytes, and the configured words. */
  lemma FrameBytesDecode(config: FrameConfig)
    ensures Resync.IsFrame(FrameBytes(config))
    ensures FrameBytes(config)[..6] == [0xAA, 0x55, if config.mode == RtToBc then 1 else 0,
                                        config.rt % 256, config.sa % 256, config.wc % 256]
    ensures forall i :: 0 <= i < MAX_WORDS ==> PayloadWord(FrameBytes(config), i) == DataWord(config, i)
    ensures forall i :: 0 <= i < MAX_WORDS ==>
      PayloadWord(FrameBytes(config), i) == if i < |config.data| then FieldWord(config.data[i]) else 0
  {
    var f := FrameBytes(config);
    forall i | 0 <= i < MAX_WORDS
      ensures PayloadWord(f, i) == DataWord(config, i)
    {
      PayloadBytes(config, i);
    }
  }

  lemma HeaderFields(config: FrameConfig)
    ensures var f := FrameBytes(config);
      f[2] == ModeByte(config.mode) && f[3] == config.rt % 256 && f[4] == config.sa % 256 && f[5] == config.wc % 256
  {
    assert FrameBytes(config)[..HEADER_BYTES] == HeaderOf(config);
  }

  /** The command word the monitor reports for a configuration. */
  function BusCommand(config: FrameConfig): word {
    Decode(FrameBytes(config)).cmd1.value
  }

  function TransmitBit(config: FrameConfig): nat {
    if config.mode == RtToBc then 1024 else 0
  }

  lemma BusCommandIsSum(config: FrameConfig)
    requires InRange(config)
    ensures BusCommand(config) == 2048 * config.rt + TransmitBit(config) + 32 * config.sa + config.wc % 32
  {
    hide CommandWord;
    HeaderFields(config);
    CommandWordIsSum(config.rt, config.mode == RtToBc, config.sa, config.wc);
  }

  lemma FramePayloadByte(config: FrameConfig, k: nat)
    requires k < 2 * MAX_WORDS
    ensures FrameBytes(config)[HEADER_BYTES + k] == PayloadByte(config, k)
  {
    hide PayloadByte;
    assert FrameBytes(config)[HEADER_BYTES + k] == PayloadOf(config)[k];
  }

  lemma PayloadPair(config: FrameConfig, i: nat)
    ensures PayloadByte(config, 2 * i) == DataWord(config, i) / 256
    ensures PayloadByte(config, 2 * i + 1) == DataWord(config, i) % 256
  {
    hide DataWord;
    assert 2 * i / 2 == i && (2 * i + 1) / 2 == i;
  }

  lemma PayloadBytes(config: FrameConfig, i: nat)
    requires i < MAX_WORDS
    ensures PayloadWord(FrameBytes(config), i) == DataWord(config, i)
  {
    FramePayloadByte(config, 2 * i);
    FramePayloadByte(config, 2 * i + 1);
    PayloadPair(config, i);
  }

  lemma CountRoundTrip(cmd: word, wc: nat)
    requires wc <= 32 && cmd % 32 == wc % 32
    ensures CountField(cmd) == Requested(wc)
  {
  }

  lemma CommandRoundTrip(cmd: word, config: FrameConfig)
    requires InRange(config)
    requires cmd == CommandWord(config.rt, config.mode == RtToBc, config.sa, config.wc)
    ensures RtField(cmd) == config.rt && TransmitField(cmd) == (config.mode == RtToBc) && SaField(cmd) == config.sa
    ensures CountField(cmd) == Requested(config.wc)
  {
    var transmit, wc: byte := config.mode == RtToBc, config.wc;
    CommandWordIsSum(config.rt, transmit, config.sa, wc);
    FieldsOfSum(cmd, config.rt, transmit, config.sa, wc % 32);
    CountRoundTrip(cmd, wc);
  }

  lemma InRangeRoundTrip(config: FrameConfig)
    requires InRange(config)
    ensures Read(Decode(FrameBytes(config))) == Intended(config)
  {
    hide CommandWord, DataWord;
    var f := FrameBytes(config);
    HeaderFields(config);
    FrameBytesDecode(config);
    CommandRoundTrip(Decode(f).cmd1.value, config);
    assert Decode(f).dataWords == Intended(config).words;
  }

  lemma RoundTripInRange(config: FrameConfig)
    requires Read(Decode(FrameBytes(config))) == Intended(config)
    ensures InRange(config)
  {
    var t := Decode(FrameBytes(config));
    FieldBounds(t.cmd1.value);
    assert Read(t).rt == config.rt && Read(t).sa == config.sa;
    assert |t.dataWords| == Requested(config.wc);
  }

  /** Encoding then decoding gives the intended message back exactly for the addresses and counts that
      MIL-STD-1553B has room for. */
  lemma FrameRoundTrip(config: FrameConfig)
    ensures Read(Decode(FrameBytes(config))) == Intended(config) <==> InRange(config)
  {
    if InRange(config) {
      InRangeRoundTrip(config);
    }
    if Read(Decode(FrameBytes(config))) == Intended(config) {
      RoundTripInRange(config);
    }
  }

  function Encodings(configs: seq<FrameConfig>): (fs: seq<seq<byte>>)
    ensures |fs| == |configs| && forall i :: 0 <= i < |fs| ==> |fs[i]| == FRAME_BYTES
  {
    seq(|configs|, i requires 0 <= i < |configs| => FrameBytes(configs[i]))
  }

  function ReadEach(ts: seq<Transaction>): seq<Message> {
    seq(|ts|, i requires 0 <= i < |ts| => Read(ts[i]))
  }

  function IntendedEach(configs: seq<FrameConfig>): seq<Message> {
    seq(|configs|, i requires 0 <= i < |configs| => Intended(configs[i]))
  }

  lemma EncodingsAreFrames(configs: seq<FrameConfig>)
    ensures Resync.AllFrames(Encodings(configs))
  {
    forall i | 0 <= i < |configs|
      ensures Resync.IsFrame(Encodings(configs)[i])
    {
      FrameBytesDecode(configs[i]);
    }
  }

  /** A whole train of frames decodes back to the list of intended messages, whatever the payloads carry,
      if and only if every configuration is in range. */
  lemma TrainRoundTrip(configs: seq<FrameConfig>)
    ensures ReadEach(Decoded(Flatten(Encodings(configs)))) == IntendedEach(configs)
            <==> forall i :: 0 <= i < |configs| ==> InRange(configs[i])
    ensures Residue(Flatten(Encodings(configs))) == []
  {
    var fs := Encodings(configs);
    EncodingsAreFrames(configs);
    Resync.WholeFramesDecode(fs);
    var ms := ReadEach(Decoded(Flatten(fs)));
    forall i | 0 <= i < |configs|
      ensures ms[i] == IntendedEach(configs)[i] <==> InRange(configs[i])
    {
      FrameRoundTrip(configs[i]);
    }
  }

  /** The count the monitor displays is the number of data words it prints below it, except for WC bytes
      past 32 that are not a multiple of 32, whatever RT and SA are. */
  lemma DisplayedCountIsWordCount(frame: seq<byte>)
    requires |frame| == FRAME_BYTES
    ensures var t := Decode(frame);
      CountField(t.cmd1.value) == |t.dataWords| <==> (frame[5] <= 32 || frame[5] % 32 == 0)
  {
    CountBits(frame[3], frame[2] == 1, frame[4], frame[5]);
    CountAgainstWords(Decode(frame).cmd1.value, frame[5]);
  }

  lemma CountAgainstWords(cmd: word, wc: byte)
    requires cmd % 32 == wc % 32
    ensures CountField(cmd) == WordCount(wc) <==> (wc <= 32 || wc % 32 == 0)
  {
  }
}
