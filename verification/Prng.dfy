/** internal/hydrate/prng.go: the splitmix64 generator of a cell, and what is hashed
    into its seed. */
module Prng {
  import opened Numbers

  /** A uint64. */
  type Word = x: int | 0 <= x < TWO_64

  const GAMMA: Word := 0x9E37_79B9_7F4A_7C15

  function Plus(a: Word, b: Word): Word {
    (a + b) % TWO_64
  }

  function Times(a: Word, b: Word): Word {
    (a * b) % TWO_64
  }

  /** x ^ (x >> k). */
  function XorShifted(x: Word, k: nat): Word
    requires k < 64
  {
    ((x as bv64) ^ ((x as bv64) >> k)) as int
  }

  /** The scrambling of splitmix64. */
  function Mix(s: Word): Word {
    XorShifted(Times(XorShifted(Times(XorShifted(s, 30), 0xBF58_476D_1CE4_E5B9), 27), 0x94D0_49BB_1331_11EB), 31)
  }

  /** The state after k draws. */
  function Advanced(s: Word, k: nat): Word
    decreases k
  {
    if k == 0 then s else Advanced(Plus(s, GAMMA), k - 1)
  }

  /** A scrambling of the state: Mix in the program. */
  type Scramble = Word -> Word

  /** The k-th draw from a fresh generator, counted from zero. */
  function Draw(mix: Scramble, s: Word, k: nat): Word {
    mix(Advanced(s, k + 1))
  }

  lemma {:induction false} AdvancedNext(s: Word, k: nat)
    ensures Advanced(s, k + 1) == Plus(Advanced(s, k), GAMMA)
    decreases k
  {
    if k > 0 {
      AdvancedNext(Plus(s, GAMMA), k - 1);
    } else {
      assert Advanced(Plus(s, GAMMA), 0) == Plus(s, GAMMA);
    }
  }

  lemma FirstShift()
    ensures XorShifted(0x9E37_79B9_7F4A_7C15, 30) == 0x9E37_79BB_0797_9AF0
  {
    var z: bv64 := 0x9E37_79B9_7F4A_7C15;
    assert z ^ (z >> 30) == 0x9E37_79BB_0797_9AF0;
  }

  lemma SecondShift()
    ensures XorShifted(0x6F68_261B_57E7_A770, 27) == 0x6F68_2616_BAE3_641A
  {
    var z: bv64 := 0x6F68_261B_57E7_A770;
    assert z ^ (z >> 27) == 0x6F68_2616_BAE3_641A;
  }

  lemma ThirdShift()
    ensures XorShifted(0xE220_A838_BF5C_9DDE, 31) == 0xE220_A839_7B1D_CDAF
  {
    var z: bv64 := 0xE220_A838_BF5C_9DDE;
    assert z ^ (z >> 31) == 0xE220_A839_7B1D_CDAF;
  }

  lemma Products()
    ensures Times(0x9E37_79BB_0797_9AF0, 0xBF58_476D_1CE4_E5B9) == 0x6F68_261B_57E7_A770
    ensures Times(0x6F68_2616_BAE3_641A, 0x94D0_49BB_1331_11EB) == 0xE220_A838_BF5C_9DDE
  {
  }

  lemma MixOfGamma()
    ensures Mix(GAMMA) == 0xE220_A839_7B1D_CDAF
  {
    FirstShift();
    SecondShift();
    ThirdShift();
    Products();
  }

  /** The stream of seed 0 starts with the number published for splitmix64. */
  lemma PublishedStart()
    ensures Draw(Mix, 0, 0) == 0xE220_A839_7B1D_CDAF
  {
    assert Plus(0, GAMMA) == GAMMA && Advanced(GAMMA, 0) == GAMMA;
    assert Advanced(0, 1) == GAMMA;
    MixOfGamma();
  }

  class Rng {
    var state: Word
    const mix: Scramble
    ghost const seed: Word
    ghost var drawn: nat

    ghost predicate Valid()
      reads this
    {
      state == Advanced(seed, drawn)
    }

    constructor (mix: Scramble, seed: Word)
      ensures Valid() && this.mix == mix && this.seed == seed && drawn == 0
    {
      this.mix := mix;
      state, drawn := seed, 0;
      this.seed := seed;
    }

    /** The next number of the cell's stream. */
    method Next() returns (z: Word)
      requires Valid()
      modifies this
      ensures Valid() && z == Draw(mix, seed, old(drawn)) && drawn == old(drawn) + 1
    {
      AdvancedNext(seed, drawn);
      state := Plus(state, GAMMA);
      drawn := drawn + 1;
      z := mix(state);
    }

    /** A number below n, 0 without a draw when there is none. */
    method Intn(n: int) returns (r: int)
      requires Valid()
      modifies this
      ensures Valid()
      ensures n <= 0 ==> r == 0 && drawn == old(drawn)
      ensures n > 0 ==> 0 <= r < n && r == Draw(mix, seed, old(drawn)) % n && drawn == old(drawn) + 1
    {
      if n <= 0 {
        return 0;
      }
      var z := Next();
      r := z % n;
    }

    /** The top 53 bits of the next number as a fraction. */
    method Float64() returns (r: real)
      requires Valid()
      modifies this
      ensures Valid() && drawn == old(drawn) + 1
      ensures r == Fraction(Draw(mix, seed, old(drawn)))
    {
      var z := Next();
      r := Fraction(z);
    }
  }

  const TWO_53: nat := 0x20_0000_0000_0000

  /** float64 of a draw. */
  function Fraction(draw: nat): real {
    (draw / 2048) as real / TWO_53 as real
  }

  // ----- cellSeed -----

  type Byte = x: int | 0 <= x < 256

  /** A number below 256^k, most significant byte first. */
  function BigEndian(x: nat, k: nat): (b: seq<Byte>)
    ensures |b| == k
  {
    if k == 0 then [] else BigEndian(x / 256, k - 1) + [x % 256]
  }

  lemma {:induction false} BigEndianInjective(x: nat, y: nat, k: nat)
    requires x < Power(256, k) && y < Power(256, k) && BigEndian(x, k) == BigEndian(y, k)
    ensures x == y
  {
    if k > 0 {
      var a, b := BigEndian(x / 256, k - 1), BigEndian(y / 256, k - 1);
      assert BigEndian(x, k)[..k - 1] == a && BigEndian(y, k)[..k - 1] == b;
      assert BigEndian(x, k)[k - 1] == x % 256 && BigEndian(y, k)[k - 1] == y % 256;
      BigEndianInjective(x / 256, y / 256, k - 1);
    }
  }

  /** The eight bytes of an int64 in two's complement. */
  function Eight(x: int): seq<Byte> {
    BigEndian(x % TWO_64, 8)
  }

  lemma EightInjective(x: int, y: int)
    requires IsInt64(x) && IsInt64(y) && Eight(x) == Eight(y)
    ensures x == y
  {
    assert Power(256, 8) == TWO_64 by {
      assert Power(256, 4) == 0x1_0000_0000;
      assert Power(256, 8) == 256 * (256 * (256 * (256 * Power(256, 4))));
    }
    BigEndianInjective(x % TWO_64, y % TWO_64, 8);
  }

  function Framed(s: seq<Byte>): seq<Byte> {
    Eight(|s|) + s
  }

  /** The bytes cellSeed hashes. */
  function CellKey(seed: int, table: seq<Byte>, column: seq<Byte>, ordinal: int): seq<Byte> {
    Eight(seed) + (Framed(table) + (Framed(column) + Eight(ordinal)))
  }

  lemma FramedApart(s: seq<Byte>, t: seq<Byte>, x: seq<Byte>, y: seq<Byte>)
    requires |s| <= MAX_INT64 && |t| <= MAX_INT64 && Framed(s) + x == Framed(t) + y
    ensures s == t && x == y
  {
    var a, b := Framed(s) + x, Framed(t) + y;
    assert a[..8] == Eight(|s|) && b[..8] == Eight(|t|);
    EightInjective(|s|, |t|);
    assert s == a[8..8 + |s|] && t == b[8..8 + |t|];
    assert x == a[8 + |s|..] && y == b[8 + |t|..];
  }

  /** Two cells hash the same bytes only if they are the same cell: the length prefixes
      leave no doubt where the table name ends. */
  lemma CellKeyInjective(seed: int, table: seq<Byte>, column: seq<Byte>, ordinal: int,
                         seed': int, table': seq<Byte>, column': seq<Byte>, ordinal': int)
    requires IsInt64(seed) && IsInt64(ordinal) && |table| <= MAX_INT64 && |column| <= MAX_INT64
    requires IsInt64(seed') && IsInt64(ordinal') && |table'| <= MAX_INT64 && |column'| <= MAX_INT64
    requires CellKey(seed, table, column, ordinal) == CellKey(seed', table', column', ordinal')
    ensures seed == seed' && table == table' && column == column' && ordinal == ordinal'
  {
    var a, b := CellKey(seed, table, column, ordinal), CellKey(seed', table', column', ordinal');
    var x, y := Framed(column) + Eight(ordinal), Framed(column') + Eight(ordinal');
    assert a[..8] == Eight(seed) && b[..8] == Eight(seed');
    assert a[8..] == Framed(table) + x && b[8..] == Framed(table') + y;
    EightInjective(seed, seed');
    FramedApart(table, table', x, y);
    FramedApart(column, column', Eight(ordinal), Eight(ordinal'));
    EightInjective(ordinal, ordinal');
  }

  /** A name as Go holds it; the names are ASCII. */
  function NameBytes(s: string): seq<Byte> {
    seq(|s|, i requires 0 <= i < |s| => s[i] as int % 256)
  }

  /** The fresh generator of a cell: hash is the first eight bytes of SHA-256. */
  method CellRng(hash: seq<Byte> -> Word, seed: int, table: string, column: string, ordinal: int) returns (r: Rng)
    ensures fresh(r) && r.Valid() && r.drawn == 0 && r.mix == Mix
    ensures r.seed == hash(CellKey(seed, NameBytes(table), NameBytes(column), ordinal))
  {
    r := new Rng(Mix, hash(CellKey(seed, NameBytes(table), NameBytes(column), ordinal)));
  }
}
