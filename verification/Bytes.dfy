/** Bytes, 16-bit words, shifts and the sequence operations that the other modules share. */
module Bytes {
  type byte = x: int | 0 <= x < 256
  type word = x: int | 0 <= x < 65536

  datatype Option<+T> = None | Some(value: T)

  /** The concatenation of a sequence of pieces, in order. */
  function Flatten<T>(parts: seq<seq<T>>): seq<T> {
    if parts == [] then [] else parts[0] + Flatten(parts[1..])
  }

  lemma ConcatAssociates<T>(a: seq<T>, b: seq<T>, c: seq<T>)
    ensures (a + b) + c == a + (b + c)
  {
  }

  lemma {:induction false} FlattenConcat<T>(a: seq<seq<T>>, b: seq<seq<T>>)
    ensures Flatten(a + b) == Flatten(a) + Flatten(b)
  {
    if a == [] {
      assert a + b == b;
    } else {
      FlattenConcat(a[1..], b);
      assert (a + b)[1..] == a[1..] + b;
      ConcatAssociates(a[0], Flatten(a[1..]), Flatten(b));
    }
  }

  lemma FlattenSnoc<T>(a: seq<seq<T>>, x: seq<T>)
    ensures Flatten(a + [x]) == Flatten(a) + x
  {
    FlattenConcat(a, [x]);
    assert Flatten([x]) == x + Flatten([x][1..]);
  }

  lemma CutAt<T>(s: seq<T>, i: nat, j: nat)
    requires i <= j <= |s|
    ensures s[i..] == s[i..j] + s[j..] && s[i..][j - i..] == s[j..]
  {
  }

  lemma TakeOfConcat<T>(a: seq<T>, b: seq<T>, k: nat)
    requires k <= |b|
    ensures (a + b)[..|a| + k] == a + b[..k]
  {
  }

  /** Bitwise or, bit by bit from the least significant end. */
  function Or(a: nat, b: nat): nat {
    if a == 0 then b
    else if b == 0 then a
    else 2 * Or(a / 2, b / 2) + if a % 2 == 1 || b % 2 == 1 then 1 else 0
  }

  predicate PowerOfTwo(m: nat) {
    m == 1 || (m > 1 && m % 2 == 0 && PowerOfTwo(m / 2))
  }

  /** Or-ing a field into the zero bits below a shifted value is addition. */
  lemma {:induction false} OrDisjoint(a: nat, m: nat, b: nat)
    requires PowerOfTwo(m) && b < m
    ensures Or(a * m, b) == a * m + b
    decreases m
  {
    if m > 1 {
      var h := m / 2;
      assert a * m == 2 * (a * h);
      OrDisjoint(a, h, b / 2);
    }
  }

  // ---- Laws of bitwise or ----

  function LowBit(a: nat, b: nat): nat {
    if a % 2 == 1 || b % 2 == 1 then 1 else 0
  }

  lemma OrStep(a: nat, b: nat)
    ensures Or(a, b) == 2 * Or(a / 2, b / 2) + LowBit(a, b)
    ensures Or(a, b) / 2 == Or(a / 2, b / 2) && Or(a, b) % 2 == LowBit(a, b)
  {
  }

  lemma SameLowBit(a: nat, b: nat, c: nat, d: nat)
    requires a % 2 == c % 2 && b % 2 == d % 2
    ensures LowBit(a, b) == LowBit(c, d)
  {
  }

  lemma {:induction false} OrCommutes(a: nat, b: nat)
    ensures Or(a, b) == Or(b, a)
    decreases a + b
  {
    if a > 0 && b > 0 {
      OrCommutes(a / 2, b / 2);
    }
  }

  lemma {:induction false} OrAssociates(a: nat, b: nat, c: nat)
    ensures Or(Or(a, b), c) == Or(a, Or(b, c))
    decreases a + b + c
  {
    if a > 0 && b > 0 && c > 0 {
      hide Or;
      OrStep(a, b);
      OrStep(b, c);
      OrStep(Or(a, b), c);
      OrStep(a, Or(b, c));
      OrAssociates(a / 2, b / 2, c / 2);
    }
  }

  /** The bits of a from the power of two m upwards, and those below it. */
  function Above(a: nat, m: nat): nat
    requires m > 0
  {
    a / m
  }

  function Below(a: nat, m: nat): nat
    requires m > 0
  {
    a % m
  }

  lemma DivModUnique(a: nat, m: nat, q: nat, r: nat)
    requires m > 0 && r < m && a == m * q + r
    ensures a / m == q && a % m == r
  {
    var d := a / m - q;
    assert m * d == r - a % m;
    MultipleBounds(m, d);
  }

  lemma MultipleBounds(m: nat, d: int)
    requires m > 0
    ensures d >= 1 ==> m * d >= m
    ensures d <= -1 ==> m * d <= -(m as int)
  {
    if d >= 1 {
      assert m * (d - 1) >= 0;
    } else if d <= -1 {
      assert m * (-1 - d) >= 0;
    }
  }

  /** Halving before or after a split gives the same. */
  lemma HalveSplit(a: nat, m: nat)
    requires m > 0 && m % 2 == 0
    ensures Above(a, m) == Above(a / 2, m / 2)
    ensures Below(a, m) == 2 * Below(a / 2, m / 2) + a % 2
    ensures Below(a, m) / 2 == Below(a / 2, m / 2) && Below(a, m) % 2 == a % 2
  {
    var h := m / 2;
    var q, r := a / 2 / h, a / 2 % h;
    assert a == 2 * (h * q + r) + a % 2;
    assert 2 * (h * q) == 2 * h * q;
    DivModUnique(a, 2 * h, q, 2 * r + a % 2);
  }

  /** Or acts on high and low parts separately. */
  lemma {:induction false} OrSplits(a: nat, b: nat, m: nat)
    requires PowerOfTwo(m) && m > 0
    ensures Above(Or(a, b), m) == Or(Above(a, m), Above(b, m))
    ensures Below(Or(a, b), m) == Or(Below(a, m), Below(b, m))
    decreases m
  {
    if m > 1 {
      hide Or, Above, Below;
      OrSplits(a / 2, b / 2, m / 2);
      JoinHalves(a, b, m);
    }
  }

  lemma JoinHalves(a: nat, b: nat, m: nat)
    requires m > 0 && m % 2 == 0
    requires Above(Or(a / 2, b / 2), m / 2) == Or(Above(a / 2, m / 2), Above(b / 2, m / 2))
    requires Below(Or(a / 2, b / 2), m / 2) == Or(Below(a / 2, m / 2), Below(b / 2, m / 2))
    ensures Above(Or(a, b), m) == Or(Above(a, m), Above(b, m))
    ensures Below(Or(a, b), m) == Or(Below(a, m), Below(b, m))
  {
    hide Or, Above, Below, LowBit;
    var x, y, z := Below(a, m), Below(b, m), Below(Or(a, b), m);
    OrStep(a, b);
    OrStep(x, y);
    HalveSplit(a, m);
    HalveSplit(b, m);
    HalveSplit(Or(a, b), m);
    SameLowBit(a, b, x, y);
    assert z / 2 == Or(x, y) / 2 && z % 2 == Or(x, y) % 2;
  }

  /** A big-endian byte pair as a word. */
  function Join(hi: byte, lo: byte): word {
    256 * (hi as int) + lo
  }

  /** Join is `hi << 8 | lo`. */
  lemma JoinIsShiftOr(hi: byte, lo: byte)
    ensures Join(hi, lo) == Or(256 * (hi as int), lo)
  {
    assert PowerOfTwo(16);
    assert PowerOfTwo(256);
    OrDisjoint(hi, 256, lo);
  }
}
