/** Hexadecimal text: what `std::hex << std::setw(4)` prints and what `std::stoul(s, nullptr, 16)` reads. */
module Hex {
  import opened Bytes

  const DIGITS: string := "0123456789ABCDEF"
  const ULONG_LIMIT: nat := 0x1_0000_0000_0000_0000

  predicate IsHex(c: char) {
    '0' <= c <= '9' || 'A' <= c <= 'F' || 'a' <= c <= 'f'
  }

  predicate IsSpace(c: char) {
    c == ' ' || '\t' <= c <= '\r'
  }

  predicate IsUpperHex(c: char) {
    '0' <= c <= '9' || 'A' <= c <= 'F'
  }

  predicate AllUpperHex(s: string) {
    forall i :: 0 <= i < |s| ==> IsUpperHex(s[i])
  }

  predicate AllHex(s: string) {
    forall i :: 0 <= i < |s| ==> IsHex(s[i])
  }

  function DigitValue(c: char): (v: nat)
    requires IsHex(c)
    ensures v < 16
  {
    if c <= '9' then c as int - '0' as int
    else if c <= 'F' then c as int - 'A' as int + 10
    else c as int - 'a' as int + 10
  }

  function HexValue(s: string): nat
    requires AllHex(s)
  {
    if s == [] then 0 else 16 * HexValue(s[..|s| - 1]) + DigitValue(s[|s| - 1])
  }

  function Pow16(k: nat): nat {
    if k == 0 then 1 else 16 * Pow16(k - 1)
  }

  lemma FourDigits()
    ensures Pow16(4) == 65536
  {
    assert Pow16(2) == 256;
  }

  // ---- Printing ----

  function HexDigits(n: nat): string {
    if n < 16 then [DIGITS[n]] else HexDigits(n / 16) + [DIGITS[n % 16]]
  }

  /** Zero fill to a width of four. */
  function ZeroPadded(s: string): string
    decreases 4 - |s|
  {
    if |s| >= 4 then s else ZeroPadded("0" + s)
  }

  /** A word as the grid and the frame editor show it. */
  function RenderWord(w: word): string {
    ZeroPadded(HexDigits(w))
  }

  lemma {:induction false} HexDigitsValue(n: nat)
    ensures AllHex(HexDigits(n)) && HexValue(HexDigits(n)) == n && HexDigits(n) != []
  {
    HexDigitChar(n % 16);
    if n >= 16 {
      HexDigitsValue(n / 16);
      assert HexDigits(n)[..|HexDigits(n)| - 1] == HexDigits(n / 16);
    }
  }

  lemma {:induction false} HexDigitsAreUpper(n: nat)
    ensures AllUpperHex(HexDigits(n))
  {
    HexDigitChar(n % 16);
    if n >= 16 {
      HexDigitsAreUpper(n / 16);
    }
  }

  lemma HexDigitChar(k: nat)
    requires k < 16
    ensures IsUpperHex(DIGITS[k]) && DigitValue(DIGITS[k]) == k
  {
  }

  lemma {:induction false} HexDigitsLength(n: nat, k: nat)
    requires k > 0 && n < Pow16(k)
    ensures |HexDigits(n)| <= k
    decreases k
  {
    if n >= 16 {
      HexDigitsLength(n / 16, k - 1);
    }
  }

  lemma {:induction false} LeadingZero(s: string)
    requires AllHex(s)
    ensures AllHex("0" + s) && HexValue("0" + s) == HexValue(s)
    decreases |s|
  {
    if s != [] {
      LeadingZero(s[..|s| - 1]);
      assert ("0" + s)[..|s|] == "0" + s[..|s| - 1];
    } else {
      assert ("0" + s)[..0] == [];
    }
  }

  lemma {:induction false} PaddingKeepsValue(s: string)
    requires AllHex(s)
    ensures AllHex(ZeroPadded(s)) && HexValue(ZeroPadded(s)) == HexValue(s)
    ensures |ZeroPadded(s)| == if |s| >= 4 then |s| else 4
    ensures AllUpperHex(s) ==> AllUpperHex(ZeroPadded(s))
    decreases 4 - |s|
  {
    if |s| < 4 {
      LeadingZero(s);
      PaddingKeepsValue("0" + s);
    }
  }

  /** Every word prints as exactly four hex digits in upper case, which denote it. */
  lemma RenderIsFourDigits(w: word)
    ensures |RenderWord(w)| == 4 && AllUpperHex(RenderWord(w))
    ensures AllHex(RenderWord(w)) && HexValue(RenderWord(w)) == w
  {
    hide HexValue, HexDigits, ZeroPadded;
    HexDigitsValue(w);
    HexDigitsAreUpper(w);
    FourDigits();
    HexDigitsLength(w, 4);
    PaddingKeepsValue(HexDigits(w));
  }

  // ---- Reading ----

  function SkipSpace(s: string): string {
    if s != [] && IsSpace(s[0]) then SkipSpace(s[1..]) else s
  }

  /** The longest run of hex digits at the front. */
  function HexPrefix(s: string): (d: string)
    ensures AllHex(d) && d <= s
    ensures |d| < |s| ==> !IsHex(s[|d|])
  {
    if s != [] && IsHex(s[0]) then [s[0]] + HexPrefix(s[1..]) else []
  }

  /** The 0x that strtoul drops, if a digit follows it. */
  function Unprefixed(u: string): string {
    if |u| >= 3 && u[0] == '0' && (u[1] == 'x' || u[1] == 'X') && IsHex(u[2]) then u[2..] else u
  }

  /** strtoul with base 16 behind std::stoul: white space, a sign, an optional 0x, then as many digits as
      there are. None stands for either exception: no digit at all, or a value past 64 bits. */
  function StoulHex(s: string): Option<nat> {
    var t := SkipSpace(s);
    var negative := t != [] && t[0] == '-';
    var u := if t != [] && (t[0] == '-' || t[0] == '+') then t[1..] else t;
    var digits := HexPrefix(Unprefixed(u));
    if digits == [] || HexValue(digits) >= ULONG_LIMIT then None
    else if negative then Some((ULONG_LIMIT - HexValue(digits)) % ULONG_LIMIT)
    else Some(HexValue(digits))
  }

  /** The word sent for one text field: the low 16 bits, or 0 where std::stoul throws. */
  function FieldWord(s: string): word {
    match StoulHex(s)
    case None => 0
    case Some(v) => v % 65536
  }

  lemma {:induction false} HexPrefixOfHex(s: string)
    requires AllHex(s)
    ensures HexPrefix(s) == s
  {
    if s != [] {
      HexPrefixOfHex(s[1..]);
    }
  }

  lemma {:induction false} HexValueConcat(a: string, b: string)
    requires AllHex(a) && AllHex(b)
    ensures AllHex(a + b) && HexValue(a + b) == HexValue(a) * Pow16(|b|) + HexValue(b)
    decreases |b|
  {
    if b == [] {
      assert a + b == a;
    } else {
      var c := b[..|b| - 1];
      HexValueConcat(a, c);
      assert (a + b)[..|a + b| - 1] == a + c;
      assert (a + b)[|a + b| - 1] == b[|b| - 1];
      ScaleBy16(HexValue(a), Pow16(|c|));
    }
  }

  lemma ScaleBy16(x: nat, y: nat)
    ensures 16 * (x * y) == x * (16 * y)
  {
  }

  function LastFour(s: string): string {
    if |s| <= 4 then s else s[|s| - 4..]
  }

  lemma PureHexReads(s: string)
    requires s != [] && AllHex(s)
    ensures StoulHex(s) == if HexValue(s) < ULONG_LIMIT then Some(HexValue(s)) else None
  {
    HexPrefixOfHex(s);
    assert !IsSpace(s[0]);
  }

  lemma LowWordIsLastFour(s: string)
    requires AllHex(s)
    ensures AllHex(LastFour(s)) && HexValue(s) % 65536 == HexValue(LastFour(s))
  {
    FourDigits();
    if |s| <= 4 {
      HexValueBound(s);
      Pow16Monotone(|s|, 4);
    } else {
      var a, b := s[..|s| - 4], s[|s| - 4..];
      assert s == a + b;
      HexValueConcat(a, b);
      HexValueBound(b);
      DropHighWords(HexValue(a), HexValue(b));
    }
  }

  lemma {:induction false} Pow16Monotone(j: nat, k: nat)
    requires j <= k
    ensures Pow16(j) <= Pow16(k)
    decreases k
  {
    if j < k {
      Pow16Monotone(j, k - 1);
    }
  }

  lemma DropHighWords(x: nat, y: nat)
    requires y < 65536
    ensures (x * 65536 + y) % 65536 == y
  {
  }

  lemma {:induction false} HexValueBound(s: string)
    requires AllHex(s)
    ensures HexValue(s) < Pow16(|s|)
  {
    if s != [] {
      HexValueBound(s[..|s| - 1]);
    }
  }

  /** A pure hex string of any length sends the value of its last four digits exactly when the whole
      number fits in 64 bits, or when those digits are zero anyway; past 64 bits it silently sends 0. */
  lemma FieldWordOfPureHex(s: string)
    requires s != [] && AllHex(s)
    ensures AllHex(LastFour(s))
    ensures FieldWord(s) == HexValue(LastFour(s)) <==> (HexValue(s) < ULONG_LIMIT || HexValue(LastFour(s)) == 0)
    ensures HexValue(s) >= ULONG_LIMIT ==> FieldWord(s) == 0
  {
    PureHexReads(s);
    LowWordIsLastFour(s);
  }

  /** Printing a word and reading the text back gives the word. */
  lemma RenderThenRead(w: word)
    ensures FieldWord(RenderWord(w)) == w
  {
    RenderIsFourDigits(w);
    PureHexReads(RenderWord(w));
  }

  // ---- What std::stoul accepts ----

  predicate AllSpace(s: string) { forall i :: 0 <= i < |s| ==> IsSpace(s[i]) }

  /** Digits read the same in either case. */
  lemma DigitsInEitherCase(k: nat)
    ensures k < 10 ==> DigitValue(('0' as int + k) as char) == k
    ensures k < 6 ==> DigitValue(('A' as int + k) as char) == 10 + k == DigitValue(('a' as int + k) as char)
  {
  }

  lemma {:induction false} SkipsAllSpace(space: string, u: string)
    requires AllSpace(space) && (u == "" || !IsSpace(u[0]))
    ensures SkipSpace(space + u) == u
    decreases |space|
  {
    if space == "" {
      assert space + u == u;
    } else {
      assert (space + u)[1..] == space[1..] + u;
      SkipsAllSpace(space[1..], u);
    }
  }

  lemma {:induction false} PrefixStops(d: string, rest: string)
    requires AllHex(d) && (rest == "" || !IsHex(rest[0]))
    ensures HexPrefix(d + rest) == d
    decreases |d|
  {
    if d == "" {
      assert d + rest == rest;
    } else {
      assert (d + rest)[1..] == d[1..] + rest;
      PrefixStops(d[1..], rest);
    }
  }

  /** The text that follows the digits does not turn a leading zero into a prefix. */
  predicate NoHiddenPrefix(prefix: string, d: string, rest: string) {
    prefix != "" || d != "0" || |rest| < 2 || (rest[0] != 'x' && rest[0] != 'X') || !IsHex(rest[1])
  }

  predicate IsPrefix(prefix: string) { prefix == "" || prefix == "0x" || prefix == "0X" }

  predicate IsSign(sign: string) { sign == "" || sign == "+" || sign == "-" }

  lemma PrefixIsDropped(prefix: string, d: string, rest: string)
    requires IsPrefix(prefix) && d != "" && AllHex(d) && (rest == "" || !IsHex(rest[0]))
    requires NoHiddenPrefix(prefix, d, rest)
    ensures Unprefixed(prefix + d + rest) == d + rest
  {
    var u := prefix + d + rest;
    if prefix == "" {
      assert u == d + rest && u[0] == d[0];
      if |d| > 1 {
        assert u[1] == d[1];
      } else if |rest| > 1 {
        assert u[1] == rest[0] && u[2] == rest[1];
      }
    } else {
      assert u[2..] == d + rest && u[2] == d[0];
    }
  }

  /** White space, a sign, a prefix and digits are read whatever follows them: the value, negated modulo 2^64
      behind a minus sign, or an exception past 64 bits. */
  lemma StoulReads(space: string, sign: string, prefix: string, d: string, rest: string)
    requires AllSpace(space) && IsSign(sign) && IsPrefix(prefix)
    requires d != "" && AllHex(d) && (rest == "" || !IsHex(rest[0])) && NoHiddenPrefix(prefix, d, rest)
    ensures StoulHex(space + (sign + (prefix + d + rest)))
            == if HexValue(d) >= 0x1_0000_0000_0000_0000 then None
               else if sign == "-" then Some((0x1_0000_0000_0000_0000 - HexValue(d)) % 0x1_0000_0000_0000_0000)
               else Some(HexValue(d))
  {
    hide HexValue, HexPrefix, SkipSpace, AllSpace;
    var u := prefix + d + rest;
    var t := sign + u;
    assert u[0] == if prefix == "" then d[0] else '0';
    assert t[0] == if sign == "" then u[0] else sign[0];
    SkipsAllSpace(space, t);
    assert sign == "" ==> t == u;
    assert sign != "" ==> t[1..] == u;
    PrefixIsDropped(prefix, d, rest);
    PrefixStops(d, rest);
  }

  /** Without a digit behind white space and sign there is an exception, and 0 is sent. */
  lemma StoulRejects(space: string, sign: string, rest: string)
    requires AllSpace(space) && IsSign(sign) && (rest == "" || !IsHex(rest[0]))
    requires sign == "" && rest != "" ==> !IsSpace(rest[0]) && rest[0] != '+' && rest[0] != '-'
    ensures StoulHex(space + (sign + rest)) == None && FieldWord(space + (sign + rest)) == 0
  {
    hide HexValue, HexPrefix, SkipSpace, AllSpace;
    var t := sign + rest;
    SkipsAllSpace(space, t);
    assert sign == "" ==> t == rest;
    assert sign != "" ==> t[1..] == rest;
    PrefixStops("", rest);
    assert "" + rest == rest;
  }
}
