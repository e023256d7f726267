/** The 70-byte packet and the decoded message record (protocol.hpp). */
module Protocol {
  import opened Bytes

  const HEADER_BYTES: nat := 6
  const FRAME_BYTES: nat := 70
  const MAX_WORDS: nat := 32

  /** A command or status word together with its bus letter and validity flag. */
  datatype Slot = Slot(value: word, bus: char, valid: bool)

  /** What a callback sees: the value of a MessageTransaction at one moment. */
  datatype Transaction = Transaction(
    fullTimetag: nat, lastTimetagLow: nat, lastTimetagHigh: nat,
    cmd1: Slot, cmd2: Slot, stat1: Slot, stat2: Slot,
    dataWords: seq<word>, errorWord: nat, errorValid: bool)

  const NO_SLOT := Slot(0, '\0', false)
  const CLEARED := Transaction(0, 0, 0, NO_SLOT, NO_SLOT, NO_SLOT, NO_SLOT, [], 0, false)

  class MessageTransaction {
    var fullTimetag: nat
    var lastTimetagLow: nat
    var lastTimetagHigh: nat
    var cmd1: Slot
    var cmd2: Slot
    var stat1: Slot
    var stat2: Slot
    var dataWords: seq<word>
    var errorWord: nat
    var errorValid: bool

    function Value(): Transaction
      reads this
    {
      Transaction(
        fullTimetag, lastTimetagLow, lastTimetagHigh, cmd1, cmd2, stat1, stat2, dataWords, errorWord, errorValid)
    }

    predicate IsEmpty()
      reads this
    {
      !cmd1.valid && !errorValid && fullTimetag == 0 && dataWords == []
    }

    constructor ()
      ensures Value() == CLEARED
    {
      fullTimetag, lastTimetagLow, lastTimetagHigh := 0, 0, 0;
      cmd1, cmd2, stat1, stat2 := NO_SLOT, NO_SLOT, NO_SLOT, NO_SLOT;
      dataWords, errorWord, errorValid := [], 0, false;
    }

    /** Forgets everything an earlier message left behind. */
    method Clear()
      modifies this
      ensures Value() == CLEARED && IsEmpty()
    {
      fullTimetag, lastTimetagLow, lastTimetagHigh := 0, 0, 0;
      cmd1, cmd2, stat1, stat2 := NO_SLOT, NO_SLOT, NO_SLOT, NO_SLOT;
      dataWords := [];
      errorWord, errorValid := 0, false;
    }
  }

  /** The number of meaningful words a WC byte stands for: 0 reads as 32 and more than 32 is cut. */
  function WordCount(wc: byte): (n: nat)
    ensures 1 <= n <= MAX_WORDS
    ensures n == wc <==> 1 <= wc <= MAX_WORDS
    ensures n != wc ==> n == MAX_WORDS
  {
    if wc == 0 || wc > 32 then 32 else wc
  }

  /** The 16-bit command word: RT in bits 11-15, T/R in bit 10, SA in bits 5-9, count in bits 0-4.
      Neither RT nor SA is masked, so a large SA spills into the T/R and RT bits. */
  function CommandWord(rt: byte, transmit: bool, sa: byte, wc: byte): word {
    Or(Or(Or(2048 * (rt as int), if transmit then 1024 else 0), 32 * (sa as int)), wc % 32) % 65536
  }

  function RtField(cmd: word): nat { cmd / 2048 % 32 }

  predicate TransmitField(cmd: word) { cmd / 1024 % 2 == 1 }

  function SaField(cmd: word): nat { cmd / 32 % 32 }

  /** The count field as MIL-STD-1553B section 4.3.3.5.1.5 reads it: 0 is 32 words. */
  function CountField(cmd: word): nat { if cmd % 32 == 0 then 32 else cmd % 32 }

  lemma CommandWordIsSum(rt: byte, transmit: bool, sa: byte, wc: byte)
    requires rt <= 31 && sa <= 31
    ensures CommandWord(rt, transmit, sa, wc)
            == 2048 * (rt as int) + (if transmit then 1024 else 0) + 32 * (sa as int) + wc % 32
  {
    hide Or, PowerOfTwo;
    var tr: nat := if transmit then 1 else 0;
    var top: nat := 2 * (rt as int) + tr;
    FieldWidths();
    OrDisjoint(rt, 2048, 1024 * tr);
    OrDisjoint(top, 1024, 32 * (sa as int));
    OrDisjoint(32 * top + sa, 32, wc % 32);
  }

  lemma FieldWidths()
    ensures PowerOfTwo(32) && PowerOfTwo(1024) && PowerOfTwo(2048)
  {
    assert PowerOfTwo(8);
    assert PowerOfTwo(32);
    assert PowerOfTwo(128);
    assert PowerOfTwo(512);
  }

  lemma FieldBounds(cmd: word)
    ensures RtField(cmd) <= 31 && SaField(cmd) <= 31
  {
  }

  lemma FieldsOfSum(cmd: word, rt: nat, transmit: bool, sa: nat, low: nat)
    requires rt <= 31 && sa <= 31 && low <= 31
    requires cmd == 2048 * rt + (if transmit then 1024 else 0) + 32 * sa + low
    ensures RtField(cmd) == rt && TransmitField(cmd) == transmit && SaField(cmd) == sa && cmd % 32 == low
  {
    var top := 2 * rt + if transmit then 1 else 0;
    assert cmd / 32 == 32 * top + sa;
    assert cmd / 1024 == top;
    assert cmd / 2048 == rt;
  }

  lemma SplitWidths()
    ensures PowerOfTwo(32) && PowerOfTwo(8192) && PowerOfTwo(65536)
  {
    FieldWidths();
    assert PowerOfTwo(4096) && PowerOfTwo(8192);
    assert PowerOfTwo(32768);
  }

  /** The part of a below m, for an or of four fields. */
  lemma LowPartOfFields(a: nat, b: nat, c: nat, d: nat, m: nat)
    requires m > 0 && PowerOfTwo(m)
    ensures Below(Or(Or(Or(a, b), c), d), m) == Or(Or(Or(Below(a, m), Below(b, m)), Below(c, m)), Below(d, m))
    ensures Above(Or(Or(Or(a, b), c), d), m) == Or(Or(Or(Above(a, m), Above(b, m)), Above(c, m)), Above(d, m))
  {
    hide Or, Below, Above, PowerOfTwo;
    OrSplits(a, b, m);
    OrSplits(Or(a, b), c, m);
    OrSplits(Or(Or(a, b), c), d, m);
  }

  /** Of the RT byte five bits reach the word, of the SA byte all eight. */
  lemma CommandWordParts(rt: byte, transmit: bool, sa: byte, wc: byte)
    ensures CommandWord(rt, transmit, sa, wc)
            == Or(Or(Or(2048 * (rt % 32), if transmit then 1024 else 0), 32 * (sa as int)), wc % 32)
  {
    hide Or, PowerOfTwo;
    SplitWidths();
    LowPartOfFields(2048 * (rt as int), if transmit then 1024 else 0, 32 * (sa as int), wc % 32, 65536);
  }

  /** Whatever the other bytes, the count field holds WC mod 32. */
  lemma CountBits(rt: byte, transmit: bool, sa: byte, wc: byte)
    ensures CommandWord(rt, transmit, sa, wc) % 32 == wc % 32
  {
    hide Or, PowerOfTwo;
    SplitWidths();
    var x: nat := 2048 * (rt % 32);
    var y: nat := if transmit then 1024 else 0;
    CommandWordParts(rt, transmit, sa, wc);
    LowPartOfFields(x, y, 32 * (sa as int), wc % 32, 32);
    assert Below(x, 32) == 0 && Below(y, 32) == 0 && Below(32 * (sa as int), 32) == 0;
    OrZeros(wc % 32);
  }

  lemma OrZeros(d: nat)
    ensures Or(Or(Or(0, 0), 0), d) == d
  {
  }

  /** The command word carries RT, T/R and SA back out exactly when both addresses fit in five bits
      (MIL-STD-1553B section 4.3.3.5.1); the code never checks that they do. */
  lemma CommandWordUnpacks(rt: byte, transmit: bool, sa: byte, wc: byte)
    ensures var cmd := CommandWord(rt, transmit, sa, wc);
      (RtField(cmd) == rt && TransmitField(cmd) == transmit && SaField(cmd) == sa) <==> (rt <= 31 && sa <= 31)
    ensures CommandWord(rt, transmit, sa, wc) % 32 == wc % 32
  {
    CountBits(rt, transmit, sa, wc);
    var cmd := CommandWord(rt, transmit, sa, wc);
    if rt <= 31 && sa <= 31 {
      CommandWordIsSum(rt, transmit, sa, wc);
      FieldsOfSum(cmd, rt, transmit, sa, wc % 32);
    } else {
      FieldBounds(cmd);
    }
  }

  /** An SA of 32 or more corrupts its neighbours: SA 32 reads back as a transmit command to SA 0. */
  lemma LargeSubaddressSpills()
    ensures TransmitField(CommandWord(0, false, 32, 1)) && SaField(CommandWord(0, false, 32, 1)) == 0
  {
    FieldWidths();
    assert 32 * 32 == 1024;
    OrDisjoint(1, 1024, 1);
  }
}
