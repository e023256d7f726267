/** The frame editor's side of a transfer: showing a configuration and storing received words (FrameComponent.cpp). */
module FrameEditor {
  import opened Bytes
  import opened Protocol
  import opened Parser
  import opened Hex
  import opened BusController

  /** A C++ int as its 32 bits. */
  function Bits(n: int): nat { n % 0x1_0000_0000 }

  /** The command word shown in brackets: unlike the packet's, its fields are not cut to bytes first, and it
      never has a T/R bit. */
  function ShownCommand(config: FrameConfig): word {
    Or(Or(Bits(2048 * config.rt), Bits(32 * config.sa)), config.wc % 32) % 65536
  }

  predicate IsModeCode(mode: BcMode) {
    mode == ModeCodeNoData || mode == ModeCodeWithData
  }

  function WordsToShow(config: FrameConfig): int {
    if !IsModeCode(config.mode) then (if config.wc == 0 then 32 else config.wc)
    else if config.mode == ModeCodeWithData then 1
    else 0
  }

  predicate CellShown(config: FrameConfig, i: nat) {
    i < WordsToShow(config)
  }

  class FrameComponent {
    var config: FrameConfig
    var shown: seq<string>

    ghost predicate Valid()
      reads this
    {
      |config.data| == MAX_WORDS
    }

    constructor (config: FrameConfig)
      requires |config.data| == MAX_WORDS
      ensures Valid() && this.config == config
    {
      this.config := config;
      shown := [];
    }

    /** The data grid: the words in use, blanks behind them. */
    method UpdateValues(config: FrameConfig)
      requires |config.data| == MAX_WORDS
      modifies this
      ensures Valid() && this.config == config
      ensures |shown| == MAX_WORDS
      ensures forall i :: 0 <= i < MAX_WORDS ==> shown[i] == if CellShown(config, i) then config.data[i] else ""
    {
      this.config := config;
      var wordsToShow := 0;
      if !IsModeCode(config.mode) {
        wordsToShow := if config.wc == 0 then 32 else config.wc;
      } else if config.mode == ModeCodeWithData {
        wordsToShow := 1;
      }
      shown := [];
      var i := 0;
      while i < MAX_WORDS
        invariant 0 <= i == |shown| <= MAX_WORDS && this.config == config
        invariant forall k :: 0 <= k < i ==> shown[k] == if k < wordsToShow then config.data[k] else ""
      {
        if i < wordsToShow {
          shown := shown + [config.data[i]];
        } else {
          shown := shown + [""];
        }
        i := i + 1;
      }
    }

    /** Stores the words of a reply as text. Sending the frame again puts the very same words on the wire,
        whatever mode it is then sent in. */
    method StoreReceived(received: seq<word>)
      requires Valid() && |received| == MAX_WORDS
      modifies this
      ensures Valid()
      ensures config == old(config).(data := config.data)
      ensures forall i :: 0 <= i < MAX_WORDS ==> config.data[i] == RenderWord(received[i])
      ensures forall i :: 0 <= i < MAX_WORDS ==> PayloadWord(FrameBytes(config), i) == received[i]
    {
      var i := 0;
      while i < MAX_WORDS
        invariant 0 <= i <= MAX_WORDS
        invariant |config.data| == MAX_WORDS && config == old(config).(data := config.data)
        invariant forall k :: 0 <= k < i ==> config.data[k] == RenderWord(received[k])
      {
        config := config.(data := config.data[i := RenderWord(received[i])]);
        i := i + 1;
      }
      UpdateValues(config);
      ResendsSameWords(config, received);
    }
  }

  lemma ResendsSameWords(config: FrameConfig, received: seq<word>)
    requires |received| == |config.data| == MAX_WORDS
    requires forall i :: 0 <= i < MAX_WORDS ==> config.data[i] == RenderWord(received[i])
    ensures forall i :: 0 <= i < MAX_WORDS ==> PayloadWord(FrameBytes(config), i) == received[i]
  {
    forall i | 0 <= i < MAX_WORDS
      ensures PayloadWord(FrameBytes(config), i) == received[i]
    {
      PayloadBytes(config, i);
      RenderThenRead(received[i]);
    }
  }

  /** The three bits of SA above its low byte that reach the shown word, where they meet the upper RT bits. */
  function HighSa(config: FrameConfig): nat { config.sa / 256 % 8 }

  function HighRt(config: FrameConfig): nat { config.rt % 32 / 4 }

  lemma LowSixteen(n: int, q: int, r: nat)
    requires r < 65536 && n == 65536 * q + r
    ensures Below(Bits(n), 65536) == r
  {
    assert n == 0x1_0000_0000 * (q / 65536) + (65536 * (q % 65536) + r);
    assert Bits(n) == 65536 * (q % 65536) + r;
  }

  lemma ShiftedRt(config: FrameConfig)
    ensures Below(Bits(2048 * config.rt), 65536) == 2048 * (config.rt % 32)
  {
    LowSixteen(2048 * config.rt, config.rt / 32, 2048 * (config.rt % 32));
  }

  lemma ShiftedSa(config: FrameConfig)
    ensures Below(Bits(32 * config.sa), 65536) == 8192 * HighSa(config) + 32 * (config.sa % 256)
  {
    LowSixteen(32 * config.sa, config.sa / 256 / 8, 8192 * HighSa(config) + 32 * (config.sa % 256));
  }

  lemma SmallIsLow(w: nat)
    requires w < 65536
    ensures Below(w, 65536) == w
  {
  }

  lemma ShownIsLow(config: FrameConfig)
    ensures ShownCommand(config) == Below(Or(Or(Bits(2048 * config.rt), Bits(32 * config.sa)), config.wc % 32), 65536)
  {
    hide Or, Bits;
  }

  lemma ShownCommandParts(config: FrameConfig)
    ensures ShownCommand(config)
            == Or(Or(2048 * (config.rt % 32), Or(8192 * HighSa(config), 32 * (config.sa % 256))), config.wc % 32)
  {
    hide Or, PowerOfTwo, Bits, Below, HighSa, ShownCommand;
    var x, y, w := Bits(2048 * config.rt), Bits(32 * config.sa), config.wc % 32;
    SplitWidths();
    ShownIsLow(config);
    OrSplits(x, y, 65536);
    OrSplits(Or(x, y), w, 65536);
    ShiftedRt(config);
    ShiftedSa(config);
    SmallIsLow(w);
    OrDisjoint(HighSa(config), 8192, 32 * (config.sa % 256));
  }

  lemma LowByteKeepsFive(n: int)
    ensures n % 256 % 32 == n % 32
  {
    assert n == 32 * (8 * (n / 256) + n % 256 / 32) + n % 256 % 32;
  }

  lemma BusCommandIsWord(config: FrameConfig)
    ensures BusCommand(config)
            == CommandWord(config.rt % 256, config.mode == RtToBc, config.sa % 256, config.wc % 256)
  {
    hide CommandWord;
    HeaderFields(config);
  }

  lemma BusCommandParts(config: FrameConfig)
    ensures BusCommand(config)
            == Or(Or(Or(2048 * (config.rt % 32), TransmitBit(config)), 32 * (config.sa % 256)), config.wc % 32)
  {
    hide Or, CommandWord, BusCommand;
    BusCommandIsWord(config);
    CommandWordParts(config.rt % 256, config.mode == RtToBc, config.sa % 256, config.wc % 256);
    LowByteKeepsFive(config.rt);
    LowByteKeepsFive(config.wc);
  }

  /** Or-ing two more fields in, or sorting the fields otherwise, is the same. */
  lemma FieldsReorder(a: nat, h: nat, l: nat, w: nat, t: nat)
    ensures Or(Or(Or(a, Or(h, l)), w), t) == Or(Or(Or(Or(a, t), l), w), h)
  {
    hide Or;
    var r := Or(Or(a, t), l);
    calc {
      Or(Or(Or(a, Or(h, l)), w), t);
    == { OrAssociates(Or(a, Or(h, l)), w, t); OrCommutes(w, t); OrAssociates(Or(a, Or(h, l)), t, w); }
      Or(Or(Or(a, Or(h, l)), t), w);
    == { OrAssociates(a, Or(h, l), t); OrCommutes(Or(h, l), t); OrAssociates(a, t, Or(h, l)); }
      Or(Or(Or(a, t), Or(h, l)), w);
    == { OrCommutes(h, l); OrAssociates(Or(a, t), l, h); }
      Or(Or(r, h), w);
    == { OrAssociates(r, h, w); OrCommutes(h, w); OrAssociates(r, w, h); }
      Or(Or(r, w), h);
    }
  }

  lemma BusCommandTop(config: FrameConfig)
    ensures Above(BusCommand(config), 8192) == HighRt(config)
  {
    hide Or, PowerOfTwo;
    var a, s, w := 2048 * (config.rt % 32), 32 * (config.sa % 256), config.wc % 32;
    SplitWidths();
    BusCommandParts(config);
    LowPartOfFields(a, TransmitBit(config), s, w, 8192);
    assert Above(a, 8192) == HighRt(config);
    assert Above(TransmitBit(config), 8192) == 0 && Above(s, 8192) == 0 && Above(w, 8192) == 0;
    OrWithZeros(HighRt(config));
  }

  lemma OrWithZeros(d: nat)
    ensures Or(d, 0) == d && Or(0, d) == d
  {
  }

  /** For every configuration, the editor shows the command word the monitor will report, less the T/R bit,
      exactly when the bits of SA above its low byte are covered by the upper bits of RT; within the ranges
      of the standard they are, and the two words differ by the T/R bit alone. */
  lemma ShownCommandMatchesBus(config: FrameConfig)
    ensures BusCommand(config) == Or(ShownCommand(config), TransmitBit(config))
            <==> Or(HighRt(config), HighSa(config)) == HighRt(config)
    ensures InRange(config) ==> BusCommand(config) == ShownCommand(config) + TransmitBit(config)
  {
    hide Or, PowerOfTwo;
    var bus, high := BusCommand(config), 8192 * HighSa(config);
    SplitWidths();
    ShownCommandParts(config);
    BusCommandParts(config);
    FieldsReorder(2048 * (config.rt % 32), high, 32 * (config.sa % 256), config.wc % 32, TransmitBit(config));
    assert Or(ShownCommand(config), TransmitBit(config)) == Or(bus, high);
    OrSplits(bus, high, 8192);
    BusCommandTop(config);
    assert Above(high, 8192) == HighSa(config) && Below(high, 8192) == 0;
    OrWithZeros(Below(bus, 8192));
    SplitsEqual(bus, Or(bus, high), 8192);
    if InRange(config) {
      BusCommandIsSum(config);
      ShownCommandIsSum(config);
    }
  }

  lemma SplitsEqual(a: nat, b: nat, m: nat)
    requires m > 0
    ensures a == b <==> Above(a, m) == Above(b, m) && Below(a, m) == Below(b, m)
  {
  }

  lemma ShownCommandIsSum(config: FrameConfig)
    requires InRange(config)
    ensures ShownCommand(config) == 2048 * config.rt + 32 * config.sa + config.wc % 32
  {
    hide Or, PowerOfTwo;
    FieldWidths();
    OrDisjoint(config.rt, 2048, 32 * config.sa);
    OrDisjoint(64 * config.rt + config.sa, 32, config.wc % 32);
  }

  /** The grid shows a word in each cell for which the monitor decodes one, and in no other. */
  ghost predicate GridMatchesBus(config: FrameConfig) {
    forall i: nat :: i < MAX_WORDS ==> (CellShown(config, i) <==> i < |Decode(FrameBytes(config)).dataWords|)
  }

  /** This is so exactly if a mode code has its one data word; without mode codes, unless WC is negative, or
      is more than 32 while its low byte asks for fewer words. */
  lemma ShownWordsMatchBus(config: FrameConfig)
    ensures GridMatchesBus(config) <==>
      match config.mode
      case ModeCodeNoData => false
      case ModeCodeWithData => config.wc % 256 == 1
      case _ => 0 <= config.wc <= 32 || (config.wc > 32 && !(0 < config.wc % 256 < 32))
  {
    HeaderFields(config);
    var n, d := WordsToShow(config), WordCount(config.wc % 256);
    assert CellShown(config, d - 1) <==> d <= n;
    assert CellShown(config, d) <==> d < n;
    assert GridMatchesBus(config) <==> n == d || (d == MAX_WORDS && n >= MAX_WORDS);
  }
}
