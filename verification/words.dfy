/**
 Fixed-width integers as the Go code uses them: ranges of `int` with every wrap-around
 written out, and words as bit sequences where the code works on bits.
 */
module Words {

  type byte = x: int | 0 <= x < 0x100
  type u16 = x: int | 0 <= x < 0x1_0000
  type u32 = x: int | 0 <= x < 0x1_0000_0000

  /** Go's wrapping subtraction and addition on uint8, uint16 and uint32. */
  function Sub8(a: byte, b: byte): byte {
    if a >= b then a - b else 0x100 + a - b
  }

  function Add8(a: byte, b: byte): byte {
    if a + b < 0x100 then a + b else a + b - 0x100
  }

  function Sub16(a: u16, b: u16): u16 {
    if a >= b then a - b else 0x1_0000 + a - b
  }

  function Add16(a: u16, b: u16): u16 {
    if a + b < 0x1_0000 then a + b else a + b - 0x1_0000
  }

  function Sub32(a: u32, b: u32): u32 {
    if a >= b then a - b else 0x1_0000_0000 + a - b
  }

  function Add32(a: u32, b: u32): u32 {
    if a + b < 0x1_0000_0000 then a + b else a + b - 0x1_0000_0000
  }

  // ---------------------------------------------------------------- conversions

  /** The conversion to uint16: x modulo 2^16 (Low16IsMod), reached by whole cycles. */
  function Low16(x: int): u16
    decreases if x < 0 then 0x1_0000 - x else x
  {
    if x < 0 then Low16(x + 0x1_0000) else if x >= 0x1_0000 then Low16(x - 0x1_0000) else x
  }

  /** The conversion to uint32. */
  function Low32(x: int): u32
    decreases if x < 0 then 0x1_0000_0000 - x else x
  {
    if x < 0 then Low32(x + 0x1_0000_0000) else if x >= 0x1_0000_0000 then Low32(x - 0x1_0000_0000) else x
  }

  lemma {:induction false} Low16Rounds(x: int) returns (rounds: int)
    ensures x == Low16(x) + rounds * 0x1_0000
    decreases if x < 0 then 0x1_0000 - x else x
  {
    if x < 0 {
      rounds := Low16Rounds(x + 0x1_0000);
      rounds := rounds - 1;
    } else if x >= 0x1_0000 {
      rounds := Low16Rounds(x - 0x1_0000);
      rounds := rounds + 1;
    } else {
      rounds := 0;
    }
  }

  lemma Low16IsMod(x: int)
    ensures Low16(x) == x % 0x1_0000
  {
    var rounds := Low16Rounds(x);
  }

  lemma {:induction false} Low32Rounds(x: int) returns (rounds: int)
    ensures x == Low32(x) + rounds * 0x1_0000_0000
    decreases if x < 0 then 0x1_0000_0000 - x else x
  {
    if x < 0 {
      rounds := Low32Rounds(x + 0x1_0000_0000);
      rounds := rounds - 1;
    } else if x >= 0x1_0000_0000 {
      rounds := Low32Rounds(x - 0x1_0000_0000);
      rounds := rounds + 1;
    } else {
      rounds := 0;
    }
  }

  lemma Low32IsMod(x: int)
    ensures Low32(x) == x % 0x1_0000_0000
  {
    var rounds := Low32Rounds(x);
  }

  /** Going on by less than a cycle is the wrapping addition or subtraction. */
  lemma {:induction false} Low16Sum(x: int, d: u16)
    ensures Low16(x + d) == Add16(Low16(x), d) && Low16(x - d) == Sub16(Low16(x), d)
    decreases if x < 0 then 0x1_0000 - x else x
  {
    if x < 0 {
      Low16Sum(x + 0x1_0000, d);
    } else if x >= 0x1_0000 {
      Low16Sum(x - 0x1_0000, d);
    }
  }

  lemma {:induction false} Low32Sum(x: int, d: u32)
    ensures Low32(x + d) == Add32(Low32(x), d) && Low32(x - d) == Sub32(Low32(x), d)
    decreases if x < 0 then 0x1_0000_0000 - x else x
  {
    if x < 0 {
      Low32Sum(x + 0x1_0000_0000, d);
    } else if x >= 0x1_0000_0000 {
      Low32Sum(x - 0x1_0000_0000, d);
    }
  }

  /** Whole cycles do not show. */
  lemma {:induction false} Low16Cycles(x: int, n: nat)
    ensures Low16(x + n * 0x1_0000) == Low16(x)
  {
    if n > 0 {
      Low16Cycles(x, n - 1);
      Low16Step(x + (n - 1) * 0x1_0000);
    }
  }

  lemma {:induction false} Low16Step(x: int)
    ensures Low16(x + 0x1_0000) == Low16(x)
    decreases if x < 0 then 0x1_0000 - x else x
  {
    if x < 0 {
      Low16Step(x + 0x1_0000);
    } else if x >= 0x1_0000 {
      Low16Step(x - 0x1_0000);
    }
  }

  /** The low 24 bits. */
  function Low24(x: int): nat
    decreases if x < 0 then 0x100_0000 - x else x
  {
    if x < 0 then Low24(x + 0x100_0000) else if x >= 0x100_0000 then Low24(x - 0x100_0000) else x
  }

  lemma {:induction false} Low24Cycles(x: int, n: nat)
    ensures Low24(x + n * 0x100_0000) == Low24(x)
  {
    if n > 0 {
      Low24Cycles(x, n - 1);
      Low24Step(x + (n - 1) * 0x100_0000);
    }
  }

  lemma {:induction false} Low24Step(x: int)
    ensures Low24(x + 0x100_0000) == Low24(x) < 0x100_0000
    decreases if x < 0 then 0x100_0000 - x else x
  {
    if x < 0 {
      Low24Step(x + 0x100_0000);
    } else if x >= 0x100_0000 {
      Low24Step(x - 0x100_0000);
    }
  }

  lemma {:induction false} Low24OfLow32(x: int)
    ensures Low24(Low32(x)) == Low24(x)
    decreases if x < 0 then 0x1_0000_0000 - x else x
  {
    if x < 0 {
      Low24OfLow32(x + 0x1_0000_0000);
      Low24Cycles(x, 0x100);
    } else if x >= 0x1_0000_0000 {
      Low24OfLow32(x - 0x1_0000_0000);
      Low24Cycles(x - 0x1_0000_0000, 0x100);
    }
  }

  lemma {:induction false} Low16OfLow32(x: int)
    ensures Low16(Low32(x)) == Low16(x)
    decreases if x < 0 then 0x1_0000_0000 - x else x
  {
    if x < 0 {
      Low16OfLow32(x + 0x1_0000_0000);
      Low16Cycles(x, 0x1_0000);
    } else if x >= 0x1_0000_0000 {
      Low16OfLow32(x - 0x1_0000_0000);
      Low16Cycles(x - 0x1_0000_0000, 0x1_0000);
    }
  }

  lemma {:induction false} Low16Below(x: nat)
    ensures Low16(x) <= x
  {
    if x >= 0x1_0000 {
      Low16Below(x - 0x1_0000);
    }
  }

  lemma {:induction false} Low32Below(x: nat)
    ensures Low32(x) <= x
  {
    if x >= 0x1_0000_0000 {
      Low32Below(x - 0x1_0000_0000);
    }
  }

  /** The conversion to uint8, and the shift right by 16 bits. */
  function Low8(x: nat): byte {
    if x >= 0x100 then Low8(x - 0x100) else x
  }

  function High16(x: nat): (r: nat)
    ensures x == r * 0x1_0000 + Low16(x)
  {
    if x >= 0x1_0000 then 1 + High16(x - 0x1_0000) else 0
  }

  lemma {:induction false} High16Of(hi: nat, lo: u16)
    ensures High16(hi * 0x1_0000 + lo) == hi
  {
    if hi > 0 {
      High16Of(hi - 1, lo);
    }
  }

  /** Numbers less than a cycle apart have the same low bits only if they are equal. */
  lemma {:induction false} Low16Injective(x: int, d: nat)
    requires 0 < d < 0x1_0000
    ensures Low16(x + d) != Low16(x)
  {
    Low16Sum(x, d);
  }

  /** Go's integer division, which truncates toward zero (GoDivTruncates). */
  function GoDiv(a: int, b: int): int
    requires b > 0
    decreases if a < 0 then -a else a
  {
    if a >= b then GoDiv(a - b, b) + 1 else if a <= -b then GoDiv(a + b, b) - 1 else 0
  }

  lemma {:induction false} GoDivTruncates(a: int, b: int)
    requires b > 0
    ensures a >= 0 ==> GoDiv(a, b) >= 0 && 0 <= a - GoDiv(a, b) * b < b
    ensures a < 0 ==> GoDiv(a, b) <= 0 && -b < a - GoDiv(a, b) * b <= 0
    decreases if a < 0 then -a else a
  {
    if a >= b {
      GoDivTruncates(a - b, b);
      Distribute(GoDiv(a - b, b), -1, b);
    } else if a <= -b {
      GoDivTruncates(a + b, b);
      Distribute(GoDiv(a + b, b), 1, b);
    }
  }

  // ---------------------------------------------------------------- bytes

  /** The high and the low byte of a word. */
  function High8(x: nat): (r: nat)
    ensures x == r * 0x100 + Low8(x)
  {
    if x >= 0x100 then 1 + High8(x - 0x100) else 0
  }

  lemma {:induction false} High8Of(hi: nat, lo: byte)
    ensures High8(hi * 0x100 + lo) == hi && Low8(hi * 0x100 + lo) == lo
  {
    if hi > 0 {
      High8Of(hi - 1, lo);
    }
  }

  /** binary.BigEndian.PutUint16 and Uint16. */
  function Be16(x: u16): (r: seq<byte>)
    ensures |r| == 2
  {
    [High8(x), Low8(x)]
  }

  function FromBe16(hi: byte, lo: byte): u16 {
    hi * 0x100 + lo
  }

  /** The high byte comes first. */
  lemma Be16RoundTrip(x: u16)
    ensures FromBe16(Be16(x)[0], Be16(x)[1]) == x == 0x100 * Be16(x)[0] as int + Be16(x)[1] as int
  {}

  /** binary.BigEndian.PutUint32 and Uint32. */
  function Be32(x: u32): (r: seq<byte>)
    ensures |r| == 4
  {
    Be16(High16(x)) + Be16(Low16(x))
  }

  function FromBe32(b: seq<byte>): u32
    requires |b| == 4
  {
    FromBe16(b[0], b[1]) * 0x1_0000 + FromBe16(b[2], b[3])
  }

  lemma Be32RoundTrip(x: u32)
    ensures FromBe32(Be32(x)) == x
    ensures var b := Be32(x); x == 0x1_0000 * (0x100 * b[0] as int + b[1] as int) + 0x100 * b[2] as int + b[3]
  {
    Be16RoundTrip(High16(x));
    Be16RoundTrip(Low16(x));
  }

  /** A byte without one of its bits, from the top bit down. */
  function Drop(b: byte, bit: byte): byte {
    if b >= bit then b - bit else b
  }

  // ---------------------------------------------------------------- bits, most significant first

  function Pow2(n: nat): (p: nat)
    ensures p > 0
  {
    if n == 0 then 1 else 2 * Pow2(n - 1)
  }

  function Num(bits: seq<bool>): nat {
    if bits == [] then 0 else 2 * Num(bits[..|bits| - 1]) + (if bits[|bits| - 1] then 1 else 0)
  }

  function BitsOf(n: nat, v: nat): (bits: seq<bool>)
    ensures |bits| == n
  {
    if n == 0 then [] else BitsOf(n - 1, v / 2) + [v % 2 == 1]
  }

  function Zeros(n: nat): (r: seq<bool>)
    ensures |r| == n && forall i :: 0 <= i < n ==> !r[i]
  {
    if n == 0 then [] else Zeros(n - 1) + [false]
  }

  function OrBits(a: seq<bool>, b: seq<bool>): (r: seq<bool>)
    requires |a| == |b|
    ensures |r| == |a| && forall i :: 0 <= i < |r| ==> r[i] == (a[i] || b[i])
  {
    if a == [] then [] else [a[0] || b[0]] + OrBits(a[1..], b[1..])
  }

  /** Shift left within the word: the top bits fall out, zeros come in. */
  function Shl(a: seq<bool>, k: nat): (r: seq<bool>)
    requires k <= |a|
    ensures |r| == |a|
  {
    a[k..] + Zeros(k)
  }

  lemma {:induction false} BitsOfNum(bits: seq<bool>)
    ensures BitsOf(|bits|, Num(bits)) == bits
  {
    if bits != [] {
      BitsOfNum(bits[..|bits| - 1]);
    }
  }

  lemma {:induction false} NumOfBitsOf(n: nat, v: nat)
    ensures Num(BitsOf(n, v)) == v % Pow2(n)
  {
    if n > 0 {
      NumOfBitsOf(n - 1, v / 2);
      assert BitsOf(n, v)[..n - 1] == BitsOf(n - 1, v / 2);
      HalfMod(v, Pow2(n - 1));
    }
  }

  lemma HalfMod(v: nat, p: nat)
    requires p > 0
    ensures v % (2 * p) == 2 * (v / 2 % p) + v % 2
  {
    var q, r := v / 2 / p, v / 2 % p;
    assert v == 2 * (q * p + r) + v % 2;
    Regroup(q, p);
    DivModUnique(v, 2 * p, q, 2 * r + v % 2);
  }

  lemma Regroup(q: nat, p: nat)
    ensures 2 * (q * p) == q * (2 * p)
  {}

  lemma DivModUnique(x: nat, m: nat, q: nat, r: nat)
    requires m > 0 && r < m && x == q * m + r
    ensures x / m == q && x % m == r
  {
    var d := q - x / m;
    assert x == x / m * m + x % m;
    assert d * m == x % m - r by { Distribute(q, x / m, m); }
    SmallMultiple(d, m);
  }

  lemma Distribute(a: int, b: int, m: int)
    ensures (a - b) * m == a * m - b * m
  {}

  lemma SmallMultiple(d: int, m: int)
    requires m > 0
    ensures d >= 1 ==> d * m >= m
    ensures d <= -1 ==> d * m <= -m
  {}

  lemma Pow2Facts()
    ensures Pow2(0) == 1 && Pow2(1) == 2 && Pow2(2) == 4 && Pow2(8) == 0x100
    ensures Pow2(13) == 0x2000 && Pow2(15) == 0x8000 && Pow2(16) == 0x1_0000
  {
    assert Pow2(4) == 16;
    assert Pow2(8) == 256;
    assert Pow2(12) == 4096;
    assert Pow2(16) == 65536;
  }

  function Weight(bit: bool, weight: nat): nat {
    if bit then weight else 0
  }

  /** The first bit is the most significant one. */
  lemma EightBits(b: seq<bool>)
    requires |b| == 8
    ensures Num(b) == Weight(b[0], 128) + Weight(b[1], 64) + Weight(b[2], 32) + Weight(b[3], 16)
                      + Weight(b[4], 8) + Weight(b[5], 4) + Weight(b[6], 2) + Weight(b[7], 1)
  {
    FourBits(b[..4]);
    assert b[..5][..4] == b[..4] && b[..6][..5] == b[..5] && b[..7][..6] == b[..6];
    assert Num(b[..6]) == 4 * Num(b[..4]) + Weight(b[4], 2) + Weight(b[5], 1);
    assert Num(b) == 4 * Num(b[..6]) + Weight(b[6], 2) + Weight(b[7], 1);
  }

  lemma FourBits(b: seq<bool>)
    requires |b| == 4
    ensures Num(b) == Weight(b[0], 8) + Weight(b[1], 4) + Weight(b[2], 2) + Weight(b[3], 1)
  {
    assert b[..1][..0] == [] && b[..2][..1] == b[..1] && b[..3][..2] == b[..2];
    assert Num(b[..1]) == Weight(b[0], 1);
    assert Num(b[..2]) == Weight(b[0], 2) + Weight(b[1], 1);
    assert Num(b[..3]) == Weight(b[0], 4) + Weight(b[1], 2) + Weight(b[2], 1);
  }

  /** The low k bits of a word written in n bits. */
  lemma {:induction false} LowBits(n: nat, k: nat, v: nat)
    requires k <= n
    ensures BitsOf(n, v)[n - k..] == BitsOf(k, v)
  {
    if k > 0 {
      LowBits(n - 1, k - 1, v / 2);
      assert BitsOf(n, v)[n - k..] == BitsOf(n - 1, v / 2)[n - k..] + [v % 2 == 1];
    }
  }

  /** A number below 2^k has nothing above its low k bits. */
  lemma {:induction false} HighBitsClear(n: nat, k: nat, v: nat)
    requires k <= n && v < Pow2(k)
    ensures BitsOf(n, v) == Zeros(n - k) + BitsOf(k, v)
  {
    if k > 0 {
      HighBitsClear(n - 1, k - 1, v / 2);
    } else if n > 0 {
      HighBitsClear(n - 1, 0, 0);
      assert Zeros(n) == Zeros(n - 1) + [false];
    }
  }
}
