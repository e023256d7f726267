/** The text the bus monitor shows for one message (BM::formatAndRelayTransaction in bm.cpp). */
module MonitorText {
  import opened Bytes
  import opened Protocol
  import opened Hex

  const WORDS_PER_LINE: nat := 8

  function Decimal(n: nat): string {
    if n < 10 then [DIGITS[n]] else Decimal(n / 10) + [DIGITS[n % 10]]
  }

  function Lead(cmd1: Slot): string {
    "Bus: " + [cmd1.bus] + " Type: " + (if TransmitField(cmd1.value) then "RT to BC" else "BC to RT") + " RT: "
  }

  function Numbers(rt: string, sa: string, count: string): string {
    rt + " SA: " + sa + " WC: " + count + " Header: AA 55\n"
  }

  function HeaderLine(cmd1: Slot): string {
    if cmd1.valid then
      Lead(cmd1) + Numbers(Decimal(RtField(cmd1.value)), Decimal(SaField(cmd1.value)), Decimal(CountField(cmd1.value)))
    else ""
  }

  /** What follows word i - 1 of n: a line break after every eighth word but the last, else a blank. */
  function Separator(i: nat, n: nat): string {
    if i % WORDS_PER_LINE != 0 then " " else if i < n then "\n      " else ""
  }

  /** The data section up to and including word i - 1 and what follows it. */
  function Dump(ws: seq<word>, i: nat): string
    requires i <= |ws|
  {
    if i == 0 then "Data: " else Dump(ws, i - 1) + RenderWord(ws[i - 1]) + Separator(i, |ws|)
  }

  function DataSection(ws: seq<word>): string {
    if ws == [] then "" else Dump(ws, |ws|) + "\n"
  }

  /** `stamp` is the wall-clock text of the moment of formatting. */
  function Formatted(t: Transaction, stamp: string): string {
    "Time: " + stamp + "us\n" + HeaderLine(t.cmd1) + DataSection(t.dataWords) + "\n"
  }

  method FormatTransaction(t: Transaction, stamp: string) returns (out: string)
    ensures out == Formatted(t, stamp)
  {
    hide RenderWord;
    out := "Time: " + stamp + "us\n";
    if t.cmd1.valid {
      var rt, sa := t.cmd1.value / 2048 % 32, t.cmd1.value / 32 % 32;
      var wc := t.cmd1.value % 32;
      var actualWc := if wc == 0 then 32 else wc;
      var typeText := if t.cmd1.value / 1024 % 2 == 1 then "RT to BC" else "BC to RT";
      var line := "Bus: " + [t.cmd1.bus] + " Type: " + typeText + " RT: ";
      line := line + (Decimal(rt) + " SA: " + Decimal(sa) + " WC: " + Decimal(actualWc) + " Header: AA 55\n");
      assert line == HeaderLine(t.cmd1);
      out := out + line;
    }
    ghost var head := "Time: " + stamp + "us\n" + HeaderLine(t.cmd1);
    assert out == head;
    if t.dataWords != [] {
      var section := "Data: ";
      var i := 0;
      while i < |t.dataWords|
        invariant 0 <= i <= |t.dataWords|
        invariant section == Dump(t.dataWords, i)
      {
        section := section + RenderWord(t.dataWords[i]);
        if (i + 1) % 8 == 0 {
          if i + 1 < |t.dataWords| {
            section := section + "\n      ";
          }
        } else {
          section := section + " ";
        }
        i := i + 1;
      }
      out := out + (section + "\n");
    }
    out := out + "\n";
  }

  // ---- Layout of the grid ----

  /** The character of the data section at which word i begins. */
  function Column(i: nat): nat {
    6 + 46 * (i / WORDS_PER_LINE) + 5 * (i % WORDS_PER_LINE)
  }

  lemma {:induction false} DumpLength(ws: seq<word>, i: nat)
    requires i <= |ws|
    ensures |Dump(ws, i)| == if i == |ws| && i > 0 && i % WORDS_PER_LINE == 0 then Column(i) - 7 else Column(i)
  {
    if i > 0 {
      DumpLength(ws, i - 1);
      RenderIsFourDigits(ws[i - 1]);
      NextColumn(i);
    }
  }

  lemma NextColumn(i: nat)
    requires i > 0
    ensures Column(i) == Column(i - 1) + if i % WORDS_PER_LINE == 0 then 11 else 5
  {
  }

  lemma {:induction false} DumpGrows(ws: seq<word>, i: nat, j: nat)
    requires i <= j <= |ws|
    ensures Dump(ws, i) <= Dump(ws, j)
    decreases j - i
  {
    if i < j {
      DumpGrows(ws, i, j - 1);
    }
  }

  /** Word i of the dump stands at its grid position, four digits wide, whatever the number of words. */
  lemma WordAtColumn(ws: seq<word>, i: nat)
    requires i < |ws|
    ensures Column(i) + 4 <= |DataSection(ws)|
    ensures DataSection(ws)[Column(i)..Column(i) + 4] == RenderWord(ws[i])
  {
    DumpLength(ws, i);
    RenderIsFourDigits(ws[i]);
    DumpGrows(ws, i + 1, |ws|);
    var upTo, all := Dump(ws, i + 1), DataSection(ws);
    assert upTo <= all;
    assert upTo[Column(i)..Column(i) + 4] == RenderWord(ws[i]);
  }

  /** Reads the groups of four back, position by position, until the section ends. */
  function ReadGrid(section: string, i: nat): seq<word>
    decreases |section| - Column(i)
  {
    if Column(i) + 4 > |section| then []
    else
      (NextColumn(i + 1); [FieldWord(section[Column(i)..Column(i) + 4])] + ReadGrid(section, i + 1))
  }

  lemma {:induction false} ReadGridFrom(ws: seq<word>, i: nat)
    requires i <= |ws|
    ensures ReadGrid(DataSection(ws), i) == ws[i..]
    decreases |ws| - i
  {
    hide RenderWord, FieldWord, DataSection, Column;
    SectionEnds(ws);
    if i < |ws| {
      WordAtColumn(ws, i);
      RenderThenRead(ws[i]);
      ReadGridFrom(ws, i + 1);
    }
  }

  lemma SectionEnds(ws: seq<word>)
    ensures Column(|ws|) + 4 > |DataSection(ws)|
  {
    DumpLength(ws, |ws|);
  }

  /** The printed dump loses nothing: reading it back gives the data words, however many there are. */
  lemma GridReadsBack(ws: seq<word>)
    ensures ReadGrid(DataSection(ws), 0) == ws
  {
    ReadGridFrom(ws, 0);
  }

  /** Between the words stand blanks, behind every eighth a line break and six blanks; the section opens with
      its label and ends with one line break. */
  lemma GridSeparators(ws: seq<word>, i: nat)
    requires i < |ws|
    ensures Column(i) + 4 <= |DataSection(ws)|
    ensures "Data: " <= DataSection(ws)
    ensures var gap := DataSection(ws)[Column(i) + 4..];
      if i + 1 == |ws| then gap == if |ws| % 8 == 0 then "\n" else " \n"
      else if (i + 1) % 8 == 0 then "\n      " <= gap && Column(i + 1) == Column(i) + 11
      else " " <= gap && Column(i + 1) == Column(i) + 5
  {
    hide RenderWord, Column, Dump, DataSection;
    WordAtColumn(ws, i);
    NextColumn(i + 1);
    BehindWord(ws, i);
    assert |ws| % WORDS_PER_LINE == |ws| % 8;
  }

  lemma BehindWord(ws: seq<word>, i: nat)
    requires i < |ws|
    ensures "Data: " <= DataSection(ws)
    ensures Column(i) + 4 <= |DataSection(ws)|
    ensures Separator(i + 1, |ws|) <= DataSection(ws)[Column(i) + 4..]
    ensures i + 1 == |ws| ==> DataSection(ws)[Column(i) + 4..] == Separator(i + 1, |ws|) + "\n"
  {
    hide RenderWord, Column, Separator;
    var head, sep := Dump(ws, i) + RenderWord(ws[i]), Separator(i + 1, |ws|);
    DumpLength(ws, i);
    ColumnAt(i);
    RenderIsFourDigits(ws[i]);
    DumpGrows(ws, i + 1, |ws|);
    DumpGrows(ws, 0, i + 1);
    assert Dump(ws, 0) == "Data: ";
    assert Dump(ws, i + 1) == head + sep;
    CutBehind(head, sep, Dump(ws, |ws|)[|head + sep|..] + "\n", DataSection(ws));
  }

  lemma ColumnAt(i: nat)
    ensures Column(i) >= 6
  {
  }

  lemma CutBehind(head: string, sep: string, tail: string, all: string)
    requires all == head + sep + tail
    ensures all[|head|..] == sep + tail
  {
  }

  // ---- Reading the header line back ----

  predicate IsDigit(c: char) { '0' <= c <= '9' }

  predicate AllDigits(s: string) { forall i :: 0 <= i < |s| ==> IsDigit(s[i]) }

  function DecimalValue(s: string): nat
    requires AllDigits(s)
  {
    if s == [] then 0 else 10 * DecimalValue(s[..|s| - 1]) + (s[|s| - 1] as int - '0' as int)
  }

  function DigitsPrefix(s: string): (d: string)
    ensures AllDigits(d) && d <= s
  {
    if s != [] && IsDigit(s[0]) then [s[0]] + DigitsPrefix(s[1..]) else []
  }

  lemma {:induction false} DecimalDenotes(n: nat)
    ensures AllDigits(Decimal(n)) && DecimalValue(Decimal(n)) == n
    ensures Decimal(n) != [] && (n > 0 ==> Decimal(n)[0] != '0')
  {
    DigitChar(n % 10);
    if n >= 10 {
      DecimalDenotes(n / 10);
      assert Decimal(n)[..|Decimal(n)| - 1] == Decimal(n / 10);
    }
  }

  lemma DigitChar(k: nat)
    requires k < 10
    ensures IsDigit(DIGITS[k]) && DIGITS[k] as int - '0' as int == k
  {
  }

  lemma {:induction false} PrefixStopsAtBlank(d: string, rest: string)
    requires AllDigits(d) && rest != [] && !IsDigit(rest[0])
    ensures DigitsPrefix(d + rest) == d
  {
    if d == [] {
      assert d + rest == rest;
    } else {
      PrefixStopsAtBlank(d[1..], rest);
      assert (d + rest)[1..] == d[1..] + rest;
    }
  }

  /** What a header line says. */
  datatype Header = Header(bus: char, transmit: bool, rt: nat, sa: nat, count: nat)

  function From(s: string, k: nat): string { if k <= |s| then s[k..] else "" }

  /** The bus letter, the type, and the three numbers behind their labels. */
  function ReadHeader(line: string): Header
    requires |line| >= 26
  {
    var rt := DigitsPrefix(From(line, 26));
    var afterRt := From(line, 26 + |rt| + 5);
    var sa := DigitsPrefix(afterRt);
    var count := DigitsPrefix(From(afterRt, |sa| + 5));
    Header(line[5], line[13..21] == "RT to BC", DecimalValue(rt), DecimalValue(sa), DecimalValue(count))
  }

  lemma NumbersNest(rt: string, sa: string, count: string)
    ensures Numbers(rt, sa, count) == rt + (" SA: " + (sa + (" WC: " + (count + " Header: AA 55\n"))))
  {
    var tail := " Header: AA 55\n";
    ConcatAssociates(rt + " SA: " + sa + " WC: ", count, tail);
    ConcatAssociates(rt + " SA: " + sa, " WC: ", count + tail);
    ConcatAssociates(rt + " SA: ", sa, " WC: " + (count + tail));
    ConcatAssociates(rt, " SA: ", sa + (" WC: " + (count + tail)));
  }

  lemma NumbersReadBack(lead: string, rt: string, sa: string, count: string)
    requires |lead| == 26 && AllDigits(rt) && AllDigits(sa) && AllDigits(count)
    ensures var line := lead + Numbers(rt, sa, count);
      && DigitsPrefix(From(line, 26)) == rt
      && DigitsPrefix(From(line, 26 + |rt| + 5)) == sa
      && DigitsPrefix(From(From(line, 26 + |rt| + 5), |sa| + 5)) == count
  {
    hide DigitsPrefix, Numbers;
    var line := lead + Numbers(rt, sa, count);
    var afterCount := " Header: AA 55\n";
    var afterSa := " WC: " + (count + afterCount);
    var afterRt := " SA: " + (sa + afterSa);
    NumbersNest(rt, sa, count);
    PrefixStopsAtBlank(rt, afterRt);
    PrefixStopsAtBlank(sa, afterSa);
    PrefixStopsAtBlank(count, afterCount);
    assert From(line, 26) == rt + afterRt;
    assert From(line, 26 + |rt| + 5) == sa + afterSa;
    assert From(sa + afterSa, |sa| + 5) == count + afterCount;
  }

  /** The header line carries the bus, the direction, RT, SA and the count back out. */
  lemma HeaderReadsBack(cmd1: Slot)
    requires cmd1.valid
    ensures |HeaderLine(cmd1)| >= 26
    ensures ReadHeader(HeaderLine(cmd1))
            == Header(cmd1.bus, TransmitField(cmd1.value), RtField(cmd1.value), SaField(cmd1.value),
                      CountField(cmd1.value))
  {
    hide Decimal, DigitsPrefix, DecimalValue, Numbers, From;
    var rt, sa, count := Decimal(RtField(cmd1.value)), Decimal(SaField(cmd1.value)), Decimal(CountField(cmd1.value));
    DecimalDenotes(RtField(cmd1.value));
    DecimalDenotes(SaField(cmd1.value));
    DecimalDenotes(CountField(cmd1.value));
    NumbersReadBack(Lead(cmd1), rt, sa, count);
    assert HeaderLine(cmd1)[13..21] == Lead(cmd1)[13..21]
           == if TransmitField(cmd1.value) then "RT to BC" else "BC to RT";
  }

  lemma DecimalExamples()
    ensures Decimal(2) == "2" && Decimal(15) == "15" && Decimal(24) == "24"
  {
    assert Decimal(1) == "1" && Decimal(2) == "2";
    assert Decimal(15) == Decimal(1) + "5";
    assert Decimal(24) == Decimal(2) + "4";
  }

  lemma NumbersExample()
    ensures Numbers("15", "2", "24") == "15 SA: 2 WC: 24 Header: AA 55\n"
  {
    assert "15" + " SA: " + "2" == "15 SA: 2";
    assert "15 SA: 2" + " WC: " + "24" == "15 SA: 2 WC: 24";
  }

  lemma LeadExample(cmd1: Slot)
    requires cmd1.bus == 'A' && TransmitField(cmd1.value)
    ensures Lead(cmd1) == "Bus: A Type: RT to BC RT: "
  {
    assert "Bus: " + ['A'] == "Bus: A";
    assert "Bus: A" + " Type: " == "Bus: A Type: ";
  }

  lemma FieldsExample()
    ensures var cmd := 15 * 2048 + 1024 + 2 * 32 + 24;
      RtField(cmd) == 15 && TransmitField(cmd) && SaField(cmd) == 2 && CountField(cmd) == 24
  {
  }

  /** The line that the source's own remark gives as an example, for command word 7C58. */
  lemma HeaderExample()
    ensures HeaderLine(Slot(0x7C58, 'A', true))
            == "Bus: A Type: RT to BC RT: " + "15 SA: 2 WC: 24 Header: AA 55\n"
  {
    hide Decimal, Numbers, Lead, RtField, SaField, CountField, TransmitField;
    DecimalExamples();
    FieldsExample();
    LeadExample(Slot(0x7C58, 'A', true));
    NumbersExample();
  }

  // ---- Reading a whole text back ----

  predicate NoBreak(s: string) { forall i :: 0 <= i < |s| ==> s[i] != '\n' }

  /** Just behind the first line break at or after i. */
  function LineEnd(s: string, i: nat): (e: nat)
    requires i <= |s|
    ensures i <= e <= |s|
    decreases |s| - i
  {
    if i == |s| then i else if s[i] == '\n' then i + 1 else LineEnd(s, i + 1)
  }

  /** Just behind the first line break at or after i that a second one follows. */
  function BlankLine(s: string, i: nat): (e: nat)
    requires i <= |s|
    ensures i <= e <= |s|
    decreases |s| - i
  {
    if i + 1 >= |s| then |s| else if s[i] == '\n' && s[i + 1] == '\n' then i + 1 else BlankLine(s, i + 1)
  }

  /** What one message's text says; there is a header line only if the command is valid. */
  datatype Reading = Reading(header: Option<Header>, words: seq<word>)

  const NO_HEADER := Header('\0', false, 0, 0, 0)

  function HeaderOf(line: string): Header {
    if |line| >= 26 then ReadHeader(line) else NO_HEADER
  }

  /** Reads the data section, if there is one, up to the blank line, and returns what follows. */
  function ReadSection(text: string): (r: (seq<word>, string))
    ensures |r.1| <= |text|
  {
    if text == "" || text[0] == '\n' then ([], From(text, 1))
    else
      var e := BlankLine(text, 0);
      (ReadGrid(text[..e], 0), From(text, e + 1))
  }

  /** Reads the first message of a text back: behind the time line, whose stamp has k characters, the header
      line if there is one (its sixth character is the bus letter, whichever it is), then the data section. */
  function ReadMessage(text: string, k: nat, headed: bool): (r: (Reading, string))
    ensures text != "" ==> |r.1| < |text|
  {
    var body := From(text, k + 9);
    if headed then
      var h := if |body| < 6 then |body| else LineEnd(body, 6);
      var (words, rest) := ReadSection(body[h..]);
      (Reading(Some(HeaderOf(body[..h])), words), rest)
    else
      var (words, rest) := ReadSection(body);
      (Reading(None, words), rest)
  }

  lemma {:induction false} LineEndIs(s: string, i: nat, a: string, b: string)
    requires s == a + "\n" + b && i <= |a| && NoBreak(a[i..])
    ensures LineEnd(s, i) == |a| + 1
    decreases |a| - i
  {
    if i == |a| {
      assert s[i] == '\n';
    } else {
      assert s[i] == a[i] == a[i..][0];
      assert NoBreak(a[i + 1..]) by {
        assert a[i + 1..] == a[i..][1..];
      }
      LineEndIs(s, i + 1, a, b);
    }
  }

  lemma DigitsHoldNoBreak(d: string)
    requires AllDigits(d)
    ensures NoBreak(d)
  {
  }

  lemma NoBreakConcat(a: string, b: string)
    requires NoBreak(a) && NoBreak(b)
    ensures NoBreak(a + b)
  {
  }

  /** The header line holds one line break behind its bus letter, its last character. */
  lemma HeaderIsOneLine(cmd1: Slot) returns (a: string)
    requires cmd1.valid
    ensures HeaderLine(cmd1) == a + "\n" && |a| >= 26 && NoBreak(a[6..])
  {
    hide Decimal;
    var rt, sa, count := Decimal(RtField(cmd1.value)), Decimal(SaField(cmd1.value)), Decimal(CountField(cmd1.value));
    DecimalDenotes(RtField(cmd1.value));
    DecimalDenotes(SaField(cmd1.value));
    DecimalDenotes(CountField(cmd1.value));
    var lead := Lead(cmd1);
    var tail := rt + " SA: " + sa + " WC: " + count + " Header: AA 55";
    DigitsHoldNoBreak(rt);
    DigitsHoldNoBreak(sa);
    DigitsHoldNoBreak(count);
    NoBreakConcat(rt, " SA: ");
    NoBreakConcat(rt + " SA: ", sa);
    NoBreakConcat(rt + " SA: " + sa, " WC: ");
    NoBreakConcat(rt + " SA: " + sa + " WC: ", count);
    NoBreakConcat(rt + " SA: " + sa + " WC: " + count, " Header: AA 55");
    LeadHoldsNoBreak(cmd1);
    a := lead + tail;
    NoBreakConcat(lead[6..], tail);
    assert a[6..] == lead[6..] + tail;
    assert Numbers(rt, sa, count) == tail + "\n";
    ConcatAssociates(lead, tail, "\n");
  }

  lemma LeadHoldsNoBreak(cmd1: Slot)
    ensures |Lead(cmd1)| == 26 && NoBreak(Lead(cmd1)[6..])
  {
  }

  /** No two line breaks stand side by side, and the last character is none. */
  predicate Calm(s: string) {
    s != "" && s[|s| - 1] != '\n' && forall i :: 0 <= i < |s| - 1 ==> !(s[i] == '\n' && s[i + 1] == '\n')
  }

  lemma CalmConcat(a: string, b: string)
    requires Calm(a) && Calm(b)
    ensures Calm(a + b) && a != "" && (a + b)[0] == a[0]
  {
    forall i | 0 <= i < |a + b| - 1
      ensures !((a + b)[i] == '\n' && (a + b)[i + 1] == '\n')
    {
      if i >= |a| {
        assert (a + b)[i] == b[i - |a|] && (a + b)[i + 1] == b[i - |a| + 1];
      }
    }
  }

  lemma WordIsCalm(w: word)
    ensures Calm(RenderWord(w))
  {
    RenderIsFourDigits(w);
    assert forall i :: 0 <= i < 4 ==> IsHex(RenderWord(w)[i]);
  }

  lemma DumpStep(ws: seq<word>, i: nat)
    requires 0 < i <= |ws|
    ensures Dump(ws, i) == Dump(ws, i - 1) + RenderWord(ws[i - 1]) + Separator(i, |ws|)
  {
  }

  lemma {:induction false} DumpIsCalm(ws: seq<word>, i: nat)
    requires i <= |ws|
    ensures Calm(Dump(ws, i)) && Dump(ws, i)[0] == 'D'
  {
    if i > 0 {
      DumpIsCalm(ws, i - 1);
      hide RenderWord, Calm, Dump, Separator;
      var before, w, sep := Dump(ws, i - 1), RenderWord(ws[i - 1]), Separator(i, |ws|);
      DumpStep(ws, i);
      WordIsCalm(ws[i - 1]);
      CalmConcat(before, w);
      if sep == "" {
        assert before + w + sep == before + w;
      } else {
        SeparatorIsCalm(i, |ws|);
        CalmConcat(before + w, sep);
      }
    }
  }

  lemma SeparatorIsCalm(i: nat, n: nat)
    requires Separator(i, n) != ""
    ensures Calm(Separator(i, n))
  {
  }

  lemma {:induction false} BlankLineIs(s: string, i: nat, a: string, rest: string)
    requires s == a + "\n" + "\n" + rest && Calm(a) && i <= |a|
    ensures BlankLine(s, i) == |a| + 1
    decreases |a| - i
  {
    if i < |a| {
      assert s[i] == a[i] && (i + 1 < |a| ==> s[i + 1] == a[i + 1]);
      BlankLineIs(s, i + 1, a, rest);
    }
  }

  lemma SectionReadsBack(ws: seq<word>, rest: string)
    ensures ReadSection(DataSection(ws) + "\n" + rest) == (ws, rest)
  {
    hide ReadGrid, BlankLine, Dump;
    var text := DataSection(ws) + "\n" + rest;
    if ws == [] {
      assert text == "\n" + rest && text[1..] == rest;
    } else {
      var a := Dump(ws, |ws|);
      DumpIsCalm(ws, |ws|);
      assert text[0] == a[0];
      BlankLineIs(text, 0, a, rest);
      assert text[..|a| + 1] == DataSection(ws) && text[|a| + 2..] == rest;
      GridReadsBack(ws);
    }
  }

  /** What a message's text should say. */
  function ReadingOf(t: Transaction): Reading {
    var cmd := t.cmd1.value;
    Reading(
      if t.cmd1.valid
      then Some(Header(t.cmd1.bus, TransmitField(cmd), RtField(cmd), SaField(cmd), CountField(cmd))) else None,
      t.dataWords)
  }

  /** The whole text of a message, whatever follows it, reads back: the stamp, each field of the command if it
      is valid, and every data word; without data words a blank line follows at once. */
  lemma TextReadsBack(t: Transaction, stamp: string, rest: string)
    ensures "Time: " + stamp + "us\n" <= Formatted(t, stamp)
    ensures ReadMessage(Formatted(t, stamp) + rest, |stamp|, t.cmd1.valid) == (ReadingOf(t), rest)
    ensures t.dataWords == [] ==>
      Formatted(t, stamp)[|stamp| + 9..] == (if t.cmd1.valid then HeaderLine(t.cmd1) else "") + "\n"
  {
    hide HeaderLine, DataSection, LineEnd, ReadSection, ReadHeader;
    var section := DataSection(t.dataWords);
    var line := if t.cmd1.valid then HeaderLine(t.cmd1) else "";
    var after := section + "\n" + rest;
    SectionReadsBack(t.dataWords, rest);
    TextParts(t, stamp, rest);
    var body := line + after;
    assert From(Formatted(t, stamp) + rest, |stamp| + 9) == body;
    if t.cmd1.valid {
      var a := HeaderIsOneLine(t.cmd1);
      ConcatAssociates(a, "\n", after);
      LineEndIs(body, 6, a, after);
      assert body[..|a| + 1] == line && body[|a| + 1..] == after;
      HeaderReadsBack(t.cmd1);
    } else {
      assert body == after;
    }
  }

  lemma TextParts(t: Transaction, stamp: string, rest: string)
    ensures var line := if t.cmd1.valid then HeaderLine(t.cmd1) else "";
      var section := DataSection(t.dataWords);
      && |"Time: " + stamp + "us\n"| == |stamp| + 9
      && Formatted(t, stamp) == ("Time: " + stamp + "us\n") + (line + (section + "\n"))
      && Formatted(t, stamp) + rest == ("Time: " + stamp + "us\n") + (line + (section + "\n" + rest))
      && (t.dataWords == [] ==> section == "")
  {
    hide Dump, Lead, Numbers;
    var time, line, section := "Time: " + stamp + "us\n", HeaderLine(t.cmd1), DataSection(t.dataWords);
    ConcatAssociates(time + line, section, "\n");
    ConcatAssociates(time, line, section + "\n");
    ConcatAssociates(time, line + (section + "\n"), rest);
    ConcatAssociates(line, section + "\n", rest);
  }

  /** Reads a whole display, message by message. */
  function ReadAll(text: string, k: nat): seq<Reading>
    decreases |text|
  {
    if text == "" then []
    else
      var (message, rest) := ReadMessage(text, k, true);
      [message] + ReadAll(rest, k)
  }
}
