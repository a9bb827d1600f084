/**
 * The section decoder (`DecodeAsync`): unpack the section body 4 characters to 3 bytes, split the
 * bytes at the first zero into a name and a compressed payload, inflate the payload.
 *
 * The unpacking is not base64: in each group the FIRST character carries the LEAST significant
 * six bits, and the bytes come out least significant first.
 */
module SectionDecoder {
  import opened Types
  import opened Numerics
  import opened Sequences

  /** The symbol at index `i` of `B64`, computed from code points. */
  function SymbolAt(i: int): char
    requires 0 <= i < 65
  {
    if i < 26 then ('A' as int + i) as char
    else if i < 52 then ('a' as int + i - 26) as char
    else if i < 62 then ('0' as int + i - 52) as char
    else if i == 62 then '+'
    else if i == 63 then '/'
    else '='
  }

  /**
   * The symbol table `B64`: the base64 alphabet with `=` added at index 64. It is built index by
   * index (AlphabetText shows it is the literal) so that the verifier can index into it cheaply.
   */
  function Alphabet(): string
  {
    seq(65, i requires 0 <= i < 65 => SymbolAt(i))
  }

  lemma AlphabetText()
    ensures Alphabet()
         == "ABCDEFGHIJKLMNOPQRSTUVWXYZ" + "abcdefghijklmnopqrstuvwxyz" + "0123456789" + "+/="
  {
    UpperCase();
    LowerCase();
    Decimal();
    assert Alphabet()[62..] == "+/=";
    assert Alphabet() == Alphabet()[..26] + Alphabet()[26..52] + Alphabet()[52..62] + Alphabet()[62..];
  }

  lemma UpperCase()
    ensures Alphabet()[..26] == "ABCDEFGHIJKLMNOPQRSTUVWXYZ"
  {
  }

  lemma LowerCase()
    ensures Alphabet()[26..52] == "abcdefghijklmnopqrstuvwxyz"
  {
  }

  lemma Decimal()
    ensures Alphabet()[52..62] == "0123456789"
  {
  }

  lemma AlphabetLength()
    ensures |Alphabet()| == 65
  {
  }

  /** The index a symbol has in the alphabet, computed from its code point instead of by search. */
  function SymbolRank(c: char): int
  {
    if 'A' <= c <= 'Z' then c as int - 'A' as int
    else if 'a' <= c <= 'z' then c as int - 'a' as int + 26
    else if '0' <= c <= '9' then c as int - '0' as int + 52
    else if c == '+' then 62
    else if c == '/' then 63
    else if c == '=' then 64
    else -1
  }

  lemma SymbolRankAt(i: int)
    requires 0 <= i < 65
    ensures SymbolRank(Alphabet()[i]) == i
  {
  }

  /** Looking a symbol up in the alphabet gives back its index. */
  lemma {:induction false} IndexOfSymbol(i: int)
    requires 0 <= i < |Alphabet()|
    ensures IndexOf(Alphabet(), Alphabet()[i]) == i
  {
    forall j, k | 0 <= j < k < |Alphabet()| ensures Alphabet()[j] != Alphabet()[k] {
      SymbolRankAt(j);
      SymbolRankAt(k);
    }
    IndexOfDistinct(Alphabet(), i);
  }

  /** A symbol of rank `r` stands at index `r` of the alphabet. */
  lemma AlphabetAtRank(c: char)
    requires 0 <= SymbolRank(c)
    ensures SymbolRank(c) < |Alphabet()| && Alphabet()[SymbolRank(c)] == c
  {
  }

  /** Exactly the characters with a rank are in the alphabet. */
  lemma InAlphabet(c: char)
    ensures c in Alphabet() <==> SymbolRank(c) >= 0
  {
    if SymbolRank(c) >= 0 {
      AlphabetAtRank(c);
    } else {
      forall i | 0 <= i < |Alphabet()| ensures Alphabet()[i] != c {
        SymbolRankAt(i);
      }
    }
  }

  /**
   * `B64.IndexOf(c) % 64` with C#'s truncating `%`: the symbol's index below 64, 0 for `=` (index
   * 64), and -1 (not 63) for a character outside the alphabet.
   */
  function IndexMod64(c: char): int
  {
    TruncRem(IndexOf(Alphabet(), c), 64)
  }

  /** The six bits a character stands for, from its code point; -1 for one outside the alphabet. */
  function Digit(c: char): (r: int)
    ensures -1 <= r < 64
  {
    if SymbolRank(c) < 0 then -1 else SymbolRank(c) % 64
  }

  /**
   * Looking a character up in `B64` gives its digit: its index below 64, 0 for `=`, and -1
   * exactly for the characters outside the alphabet.
   */
  lemma DigitIsIndexMod64(c: char)
    ensures IndexMod64(c) == Digit(c)
    ensures Digit(c) == -1 <==> c !in Alphabet()
  {
    AlphabetLength();
    IndexOfFirst(Alphabet(), c);
    InAlphabet(c);
    if SymbolRank(c) >= 0 {
      AlphabetAtRank(c);
      IndexOfSymbol(SymbolRank(c));
    }
  }

  /** Some character of the group at position `k` or below is outside the alphabet. */
  predicate MissedBy(g: seq<char>, k: int)
    requires |g| == 4 && k < 4
  {
    k >= 0 && (Digit(g[k]) == -1 || MissedBy(g, k - 1))
  }

  lemma {:induction false} MissedIff(g: seq<char>, k: int)
    requires |g| == 4 && k < 4
    ensures MissedBy(g, k) <==> exists i :: 0 <= i <= k && Digit(g[i]) == -1
    decreases k
  {
    if k >= 0 {
      MissedIff(g, k - 1);
    }
  }

  /**
   * The six bits that position `k` of the group contributes to the word: its digit, or all ones
   * once a miss at `k` or below has set every bit from there upward.
   */
  function EffectiveDigit(g: seq<char>, k: int): (r: int)
    requires |g| == 4 && 0 <= k < 4
    ensures 0 <= r < 64
  {
    if MissedBy(g, k) then 63 else Digit(g[k])
  }

  /** The 24 bits the group stands for, first character least significant. */
  function GroupValue(g: seq<char>): (v: int)
    requires |g| == 4
    ensures 0 <= v < 0x100_0000
  {
    EffectiveDigit(g, 0) + 64 * EffectiveDigit(g, 1) + 4096 * EffectiveDigit(g, 2)
    + 262144 * EffectiveDigit(g, 3)
  }

  /** The three bytes of `v`, least significant first. */
  function Triple(v: int): (t: seq<byte>)
    requires 0 <= v < 0x100_0000
    ensures |t| == 3 && t[0] as int + 256 * t[1] as int + 65536 * t[2] as int == v
  {
    [v % 256, (v / 256) % 256, v / 65536]
  }

  /** The three bytes a group of four characters stands for (nothing for any other length). */
  function GroupBytes(g: seq<char>): (t: seq<byte>)
    ensures |g| == 4 ==> |t| == 3
  {
    if |g| == 4 then Triple(GroupValue(g)) else []
  }

  // ---------------------------------------------------------------------------------------------
  // The C# expressions for one group
  // ---------------------------------------------------------------------------------------------

  lemma Pow2Six(s: nat)
    ensures Pow2(s + 6) == 64 * Pow2(s)
  {
    assert Pow2(s + 6) == 2 * Pow2(s + 5) == 4 * Pow2(s + 4) == 8 * Pow2(s + 3);
    assert Pow2(s + 3) == 2 * Pow2(s + 2) == 4 * Pow2(s + 1) == 8 * Pow2(s);
  }

  lemma MulBelow(d: int, p: int)
    requires 0 <= d < 64 && p >= 1
    ensures 0 <= d * p < 64 * p
  {
  }

  lemma MulShift(h: int, d: int, p: int)
    ensures h * (64 * p) + d * p == (h * 64 + d) * p
    ensures h * (64 * p) == (h * 64) * p
  {
  }

  /** The bits from position `s` upward after OR-ing digit `d` at `s` under bits `h` at `s + 6`. */
  function Partial(h: int, d: int): int
  {
    if d >= 0 then h * 64 + d else -1
  }

  /**
   * A word whose bits from `s + 6` upward read as `h` (and are clear below), OR-ed with digit `d`
   * shifted to `s`, where `p` is `2^s`.
   */
  lemma {:induction false} OrDigit(h: int, d: int, s: nat, p: int)
    requires -1 <= d < 64 && p == Pow2(s)
    ensures Or(h * (64 * p), d * p) == Partial(h, d) * p
  {
    Pow2Six(s);
    MulShift(h, d, p);
    if d >= 0 {
      MulBelow(d, p);
      OrDisjoint(h, d * p, s + 6);
    } else {
      OrAbsorb(h * 64, s);
    }
  }

  /**
   * The C# expression
   * `B64.IndexOf(g[3]) % 64 << 18 | B64.IndexOf(g[2]) % 64 << 12 | B64.IndexOf(g[1]) % 64 << 6 | B64.IndexOf(g[0]) % 64`
   * (`%` binds tighter than `<<`, which binds tighter than `|`; `|` groups to the left).
   */
  function Word(g: seq<char>): int
    requires |g| == 4
  {
    Or(Or(Or(ShiftLeft(IndexMod64(g[3]), 18), ShiftLeft(IndexMod64(g[2]), 12)), ShiftLeft(IndexMod64(g[1]), 6)),
       IndexMod64(g[0]))
  }

  /** The word's bits as the OR chain builds them, from the most significant digit down. */
  function Chain(d0: int, d1: int, d2: int, d3: int): int
  {
    Partial(Partial(Partial(d3, d2), d1), d0)
  }

  lemma ShiftDigit(d: int, s: nat, p: int)
    requires -1 <= d < 64
    requires s <= 18 && p == Pow2(s) && p <= 262144
    ensures ShiftLeft(d, s) == d * p
  {
    if d >= 0 {
      MulBelow(d, p);
    }
    assert -262144 <= d * p < 64 * 262144;
  }

  predicate IsDigit(d: int) { -1 <= d < 64 }

  lemma {:induction false} OrChain(d0: int, d1: int, d2: int, d3: int)
    requires IsDigit(d0) && IsDigit(d1) && IsDigit(d2) && IsDigit(d3)
    ensures Or(Or(Or(ShiftLeft(d3, 18), ShiftLeft(d2, 12)), ShiftLeft(d1, 6)), d0) == Chain(d0, d1, d2, d3)
  {
    assert Pow2(0) == 1 && Pow2(6) == 64 && Pow2(12) == 4096 && Pow2(18) == 262144;
    ShiftDigit(d3, 18, 262144);
    ShiftDigit(d2, 12, 4096);
    ShiftDigit(d1, 6, 64);
    var x3, x2, x1 := ShiftLeft(d3, 18), ShiftLeft(d2, 12), ShiftLeft(d1, 6);
    OrDigit(d3, d2, 12, 4096);
    var h2 := Partial(d3, d2);
    assert Or(x3, x2) == h2 * 4096;
    OrDigit(h2, d1, 6, 64);
    var h1 := Partial(h2, d1);
    assert Or(Or(x3, x2), x1) == h1 * 64;
    OrDigit(h1, d0, 0, 1);
  }

  /** The value Chain gives position `k`: 63 once a miss at or below `k` occurred. */
  lemma ChainDigits(d0: int, d1: int, d2: int, d3: int)
    requires IsDigit(d0) && IsDigit(d1) && IsDigit(d2) && IsDigit(d3)
    ensures var m0, m1, m2, m3 := d0 < 0, d0 < 0 || d1 < 0, d0 < 0 || d1 < 0 || d2 < 0, d0 < 0 || d1 < 0 || d2 < 0 || d3 < 0;
      Chain(d0, d1, d2, d3)
      == (if m0 then 63 else d0) + 64 * (if m1 then 63 else d1) + 4096 * (if m2 then 63 else d2)
         + 262144 * (if m3 then 63 else d3) - (if m3 then 0x100_0000 else 0)
  {
  }

  /**
   * The word holds the group's effective 24 bits; after a miss it is negative, every bit from 24
   * upward set.
   */
  lemma {:induction false} WordValue(g: seq<char>)
    requires |g| == 4
    ensures Word(g) == GroupValue(g) - (if MissedBy(g, 3) then 0x100_0000 else 0)
    ensures IsInt32(Word(g))
  {
    DigitIsIndexMod64(g[0]);
    DigitIsIndexMod64(g[1]);
    DigitIsIndexMod64(g[2]);
    DigitIsIndexMod64(g[3]);
    var d0, d1, d2, d3 := Digit(g[0]), Digit(g[1]), Digit(g[2]), Digit(g[3]);
    OrChain(d0, d1, d2, d3);
    ChainDigits(d0, d1, d2, d3);
    assert MissedBy(g, 0) == (d0 < 0);
    assert MissedBy(g, 1) == (d0 < 0 || d1 < 0);
    assert MissedBy(g, 2) == (d0 < 0 || d1 < 0 || d2 < 0);
    assert MissedBy(g, 3) == (d0 < 0 || d1 < 0 || d2 < 0 || d3 < 0);
  }

  /** Adding a multiple of 256 moves the quotient by that multiple and keeps the remainder. */
  lemma AddMultiple256(x: int, k: int)
    ensures (x + 256 * k) / 256 == x / 256 + k && (x + 256 * k) % 256 == x % 256
  {
    assert x + 256 * k == 256 * (x / 256 + k) + x % 256;
  }

  /** Adding a multiple of 65536 moves the quotient by that multiple. */
  lemma AddMultiple65536(x: int, k: int)
    ensures (x + 65536 * k) / 65536 == x / 65536 + k
  {
    assert x + 65536 * k == 65536 * (x / 65536 + k) + x % 65536;
  }

  /** Taking away `2^24` leaves the three low bytes as they were. */
  lemma LowBytesModulo(v: int, o: int, m: int)
    requires 0 <= v < 0x100_0000 && o == v - m * 0x100_0000
    ensures o % 256 == v % 256
    ensures (o / 256) % 256 == (v / 256) % 256
    ensures (o / 65536) % 256 == v / 65536
  {
    AddMultiple256(v, -m * 65536);
    AddMultiple256(v / 256, -m * 256);
    AddMultiple65536(v, -m * 256);
    AddMultiple256(v / 65536, -m);
  }

  /** `(byte)(x % 256)`. */
  function LowByte(x: int): (b: byte)
    ensures b == x % 256
  {
    CastTruncRem(x);
    CastByte(TruncRem(x, 256))
  }

  /** `(byte)(o % 256)`, `(byte)((o >> 8) % 256)`, `(byte)((o >> 16) % 256)`. */
  function WordBytes(o: int): seq<byte>
    requires IsInt32(o)
  {
    [LowByte(o), LowByte(ShiftRight(o, 8)), LowByte(ShiftRight(o, 16))]
  }

  /**
   * The three bytes the C# expressions add for a group are the three bytes of the group's
   * effective 24 bits, least significant first.
   */
  lemma UnpackGroup(g: seq<char>)
    requires |g| == 4
    ensures IsInt32(Word(g)) && WordBytes(Word(g)) == GroupBytes(g)
  {
    WordValue(g);
    LowBytesModulo(GroupValue(g), Word(g), if MissedBy(g, 3) then 1 else 0);
    assert Pow2(8) == 256 && Pow2(16) == 65536;
  }

  // ---------------------------------------------------------------------------------------------
  // What a group decodes to
  // ---------------------------------------------------------------------------------------------

  /**
   * For a group of alphabet symbols the bytes are those of `v3 << 18 | v2 << 12 | v1 << 6 | v0`
   * with `vk` the digit of `g[k]`, which is `B64.IndexOf(g[k]) % 64` (DigitIsIndexMod64): the
   * first symbol is the least significant, and `=` (index 64) counts as 0.
   */
  lemma GroupFormula(g: seq<char>)
    requires |g| == 4
    requires forall k :: 0 <= k < 4 ==> g[k] in Alphabet()
    ensures var v0, v1, v2, v3 := Digit(g[0]), Digit(g[1]), Digit(g[2]), Digit(g[3]);
      0 <= v0 < 64 && 0 <= v1 < 64 && 0 <= v2 < 64 && 0 <= v3 < 64
      && GroupBytes(g) == Triple(v0 + 64 * v1 + 4096 * v2 + 262144 * v3)
  {
    assert g[0] in Alphabet() && g[1] in Alphabet() && g[2] in Alphabet() && g[3] in Alphabet();
    InAlphabet(g[0]);
    InAlphabet(g[1]);
    InAlphabet(g[2]);
    InAlphabet(g[3]);
    HitBytes(g);
  }

  lemma HitBytes(g: seq<char>)
    requires |g| == 4 && Digit(g[0]) >= 0 && Digit(g[1]) >= 0 && Digit(g[2]) >= 0 && Digit(g[3]) >= 0
    ensures GroupBytes(g)
         == Triple(Digit(g[0]) + 64 * Digit(g[1]) + 4096 * Digit(g[2]) + 262144 * Digit(g[3]))
  {
    HitValue(g);
  }

  /** `=` (index 64) decodes exactly like `A` (index 0), wherever it stands in the group. */
  lemma PadActsAsA(g: seq<char>, k: int)
    requires |g| == 4 && 0 <= k < 4 && g[k] == '='
    ensures GroupBytes(g) == GroupBytes(g[k := 'A'])
  {
    var f := g[k := 'A'];
    assert Digit('=') == Digit('A') == 0;
    forall j | 0 <= j < 4 ensures Digit(g[j]) == Digit(f[j]) {
    }
    assert MissedBy(g, 0) == MissedBy(f, 0);
    assert MissedBy(g, 1) == MissedBy(f, 1);
    assert MissedBy(g, 2) == MissedBy(f, 2);
    assert MissedBy(g, 3) == MissedBy(f, 3);
  }

  /**
   * A character outside the alphabet at position `k` (with none below it) acts as the symbol `/`
   * (value 63) at `k` AND at every higher position, whatever stands there.
   */
  lemma MissActsAsAllOnes(g: seq<char>, k: int)
    requires |g| == 4 && 0 <= k < 4
    requires g[k] !in Alphabet()
    requires forall j :: 0 <= j < k ==> g[j] in Alphabet()
    ensures GroupBytes(g) == GroupBytes(g[..k] + "////"[k..])
  {
    var f := g[..k] + "////"[k..];
    assert |f| == 4;
    InAlphabet(g[k]);
    forall j | 0 <= j <= k ensures Digit(g[j]) == -1 <==> j == k {
      InAlphabet(g[j]);
    }
    forall j | 0 <= j < 4 ensures Digit(f[j]) != -1 && (j < k ==> f[j] == g[j]) && (k <= j ==> f[j] == '/') {
      InAlphabet(f[j]);
    }
    forall j | 0 <= j < 4 ensures EffectiveDigit(g, j) == EffectiveDigit(f, j) {
      MissedIff(g, j);
      MissedIff(f, j);
    }
  }

  /** The smallest example: a miss in the first position turns all three bytes into 0xFF. */
  lemma MissFirst(g: seq<char>)
    requires |g| == 4 && g[0] !in Alphabet()
    ensures GroupBytes(g) == [0xFF, 0xFF, 0xFF]
  {
    InAlphabet(g[0]);
    assert MissedBy(g, 0) && MissedBy(g, 1) && MissedBy(g, 2) && MissedBy(g, 3);
    assert GroupValue(g) == 0xFF_FFFF;
  }

  // ---------------------------------------------------------------------------------------------
  // The whole body: the loop of `DecodeAsync`
  // ---------------------------------------------------------------------------------------------

  /** The bytes of a body made of whole groups, three per group, in group order. */
  function Groups(s: string): seq<byte>
  {
    MapQuads(s, GroupBytes)
  }

  /**
   * What the unpacking loop produces: for a body whose length is not a multiple of 4 the access
   * `sec[i + 3]` in the last, partial group throws, and nothing is produced.
   */
  function Unpacked(sec: string): (r: Result<seq<byte>>)
    ensures r.Success? <==> |sec| % 4 == 0
    ensures r.Failure? ==> r.error == IndexOutOfRange
  {
    if |sec| % 4 != 0 then Failure(IndexOutOfRange) else Success(Groups(sec))
  }

  /** A body of `4 m` characters unpacks to `3 m` bytes. */
  lemma UnpackedLength(sec: string, m: nat)
    requires |sec| == 4 * m
    ensures Unpacked(sec).Success? && |Unpacked(sec).value| == 3 * m
  {
    WholeGroups(m);
    MapQuadsLength(sec, GroupBytes, m);
  }

  /** Bytes `3j`, `3j+1`, `3j+2` depend on characters `4j` to `4j+3` and on nothing else. */
  lemma UnpackedAt(sec: string, m: nat, j: int)
    requires |sec| == 4 * m && 0 <= j < m
    ensures Unpacked(sec).Success? && |Unpacked(sec).value| == 3 * m
    ensures Unpacked(sec).value[3 * j..3 * j + 3] == GroupBytes(sec[4 * j..4 * j + 4])
  {
    UnpackedLength(sec, m);
    MapQuadsAt(sec, GroupBytes, m, j);
  }

  lemma WholeGroups(m: int)
    ensures (4 * m) % 4 == 0
  {
  }

  /** One more group: the three bytes the loop adds for it extend the bytes of the groups before. */
  lemma UnpackStep(sec: string, i: int)
    requires 0 <= i && i + 4 <= |sec|
    ensures IsInt32(Word(sec[i..i + 4]))
    ensures Groups(sec[..i]) + WordBytes(Word(sec[i..i + 4])) == Groups(sec[..i + 4])
  {
    UnpackGroup(sec[i..i + 4]);
    MapQuadsSnoc(sec[..i], sec[i..i + 4], GroupBytes);
    assert sec[..i] + sec[i..i + 4] == sec[..i + 4];
  }

  /** A last group of fewer than four characters: the access past the end throws. */
  lemma PartialGroup(sec: string, k: int)
    requires 4 * k < |sec| < 4 * k + 4
    ensures Unpacked(sec) == Failure(IndexOutOfRange)
  {
  }

  /** Whole groups only: the bytes of all the groups. */
  lemma AllGroups(sec: string, m: int)
    requires |sec| == 4 * m
    ensures Unpacked(sec) == Success(Groups(sec))
  {
    WholeGroups(m);
  }

  /** The unpacking loop of `DecodeAsync`: four characters in, three bytes out, `i += 4`. */
  method Unpack(sec: string) returns (r: Result<seq<byte>>)
    ensures r == Unpacked(sec)
  {
    var outBytes: seq<byte> := [];
    var i := 0;
    ghost var groups := 0;
    while i < |sec|
      invariant 0 <= i <= |sec| && i == 4 * groups
      invariant outBytes == Groups(sec[..i])
    {
      if i + 3 >= |sec| {
        PartialGroup(sec, groups);
        return Failure(IndexOutOfRange);
      }
      var o := Word(sec[i..i + 4]);
      UnpackStep(sec, i);
      outBytes := outBytes + [LowByte(o), LowByte(ShiftRight(o, 8)), LowByte(ShiftRight(o, 16))];
      i, groups := i + 4, groups + 1;
    }
    assert sec[..i] == sec;
    AllGroups(sec, groups);
    return Success(outBytes);
  }

  // ---------------------------------------------------------------------------------------------
  // An encoder with the inverse bit layout
  // ---------------------------------------------------------------------------------------------

  /** The four symbols for 24 bits, six at a time, low first. */
  function Symbols(v: int): (g: string)
    requires 0 <= v < 0x100_0000
    ensures |g| == 4
  {
    AlphabetLength();
    [Alphabet()[v % 64], Alphabet()[(v / 64) % 64], Alphabet()[(v / 4096) % 64], Alphabet()[v / 262144]]
  }

  /**
   * The four symbols for three bytes: the 24 bits `t0 + 256 t1 + 65536 t2` (nothing for any other
   * length).
   */
  function EncodeGroup(t: seq<byte>): (g: string)
    ensures |t| == 3 ==> |g| == 4
  {
    if |t| != 3 then "" else Symbols(t[0] as int + 256 * t[1] as int + 65536 * t[2] as int)
  }

  /** A data symbol: one of the 64 symbols before `=`, that is a letter, a decimal digit, `+` or `/`. */
  predicate IsDataSymbol(c: char)
  {
    0 <= SymbolRank(c) < 64
  }

  lemma DigitOfSymbol(d: int)
    requires 0 <= d < 64
    ensures |Alphabet()| == 65 && Digit(Alphabet()[d]) == d && IsDataSymbol(Alphabet()[d])
  {
    AlphabetLength();
    SymbolRankAt(d);
  }

  /** The encoder emits data symbols only: never `=` and never a character outside the alphabet. */
  lemma EncodeGroupData(t: seq<byte>)
    requires |t| == 3
    ensures |EncodeGroup(t)| == 4 && forall k :: 0 <= k < 4 ==> IsDataSymbol(EncodeGroup(t)[k])
  {
    var v := t[0] as int + 256 * t[1] as int + 65536 * t[2] as int;
    TripleRange(t);
    assert EncodeGroup(t) == Symbols(v);
    SymbolsData(v);
  }

  lemma TripleRange(t: seq<byte>)
    requires |t| == 3
    ensures 0 <= t[0] as int + 256 * t[1] as int + 65536 * t[2] as int < 0x100_0000
  {
  }

  lemma SymbolsData(v: int)
    requires 0 <= v < 0x100_0000
    ensures forall k :: 0 <= k < 4 ==> IsDataSymbol(Symbols(v)[k])
  {
    var g := Symbols(v);
    DigitOfSymbol(v % 64);
    DigitOfSymbol((v / 64) % 64);
    DigitOfSymbol((v / 4096) % 64);
    DigitOfSymbol(v / 262144);
    assert IsDataSymbol(g[0]) && IsDataSymbol(g[1]) && IsDataSymbol(g[2]) && IsDataSymbol(g[3]);
  }

  lemma DataSymbolDigit(c: char)
    requires IsDataSymbol(c)
    ensures 0 <= Digit(c) < 64 && Alphabet()[Digit(c)] == c
  {
    AlphabetAtRank(c);
  }

  lemma Base64Digits(v: int)
    requires 0 <= v < 0x100_0000
    ensures v % 64 + 64 * ((v / 64) % 64) + 4096 * ((v / 4096) % 64) + 262144 * (v / 262144) == v
  {
    assert v == 64 * (v / 64) + v % 64;
    assert v / 64 == 64 * (v / 4096) + (v / 64) % 64;
    assert v / 4096 == 64 * (v / 262144) + (v / 4096) % 64;
  }

  lemma Base64Split(d0: int, d1: int, d2: int, d3: int)
    requires 0 <= d0 < 64 && 0 <= d1 < 64 && 0 <= d2 < 64 && 0 <= d3 < 64
    ensures var v := d0 + 64 * d1 + 4096 * d2 + 262144 * d3;
      v % 64 == d0 && (v / 64) % 64 == d1 && (v / 4096) % 64 == d2 && v / 262144 == d3
  {
    var v := d0 + 64 * d1 + 4096 * d2 + 262144 * d3;
    assert v == 64 * (d1 + 64 * d2 + 4096 * d3) + d0;
    assert v / 64 == d1 + 64 * d2 + 4096 * d3;
    assert v / 64 == 64 * (d2 + 64 * d3) + d1;
    assert v / 4096 == d2 + 64 * d3;
    assert v / 262144 == d3;
  }

  lemma Base256Digits(t: seq<byte>)
    requires |t| == 3
    ensures Triple(t[0] as int + 256 * t[1] as int + 65536 * t[2] as int) == t
  {
    var v := t[0] as int + 256 * t[1] as int + 65536 * t[2] as int;
    assert v / 256 == t[1] as int + 256 * t[2] as int;
    assert v / 65536 == t[2] as int;
  }

  /** A group of symbols with no miss stands for its four digits. */
  lemma HitValue(g: seq<char>)
    requires |g| == 4 && Digit(g[0]) >= 0 && Digit(g[1]) >= 0 && Digit(g[2]) >= 0 && Digit(g[3]) >= 0
    ensures GroupValue(g)
         == Digit(g[0]) + 64 * Digit(g[1]) + 4096 * Digit(g[2]) + 262144 * Digit(g[3])
  {
    assert !MissedBy(g, 0) && !MissedBy(g, 1) && !MissedBy(g, 2) && !MissedBy(g, 3);
  }

  /** Decoding the symbols for `v` gives `v` back. */
  lemma SymbolsValue(v: int)
    requires 0 <= v < 0x100_0000
    ensures GroupValue(Symbols(v)) == v
  {
    var g := Symbols(v);
    DigitOfSymbol(v % 64);
    DigitOfSymbol((v / 64) % 64);
    DigitOfSymbol((v / 4096) % 64);
    DigitOfSymbol(v / 262144);
    HitValue(g);
    Base64Digits(v);
  }

  /** Encoding three bytes and decoding the group gives the bytes back. */
  lemma GroupRoundTrip(t: seq<byte>)
    requires |t| == 3
    ensures GroupBytes(EncodeGroup(t)) == t
  {
    SymbolsValue(t[0] as int + 256 * t[1] as int + 65536 * t[2] as int);
    Base256Digits(t);
  }

  /** The symbols for four digits are the symbols of the digits. */
  lemma SymbolsOfDigits(d0: int, d1: int, d2: int, d3: int)
    requires 0 <= d0 < 64 && 0 <= d1 < 64 && 0 <= d2 < 64 && 0 <= d3 < 64
    ensures Symbols(d0 + 64 * d1 + 4096 * d2 + 262144 * d3)
         == [Alphabet()[d0], Alphabet()[d1], Alphabet()[d2], Alphabet()[d3]]
  {
    AlphabetLength();
    Base64Split(d0, d1, d2, d3);
  }

  /** Encoding the three bytes of `v` gives the symbols of `v`. */
  lemma EncodeTriple(v: int)
    requires 0 <= v < 0x100_0000
    ensures EncodeGroup(Triple(v)) == Symbols(v)
  {
  }

  /** Decoding a group of data symbols and encoding the bytes gives the group back. */
  lemma GroupInverse(g: seq<char>)
    requires |g| == 4 && forall k :: 0 <= k < 4 ==> IsDataSymbol(g[k])
    ensures EncodeGroup(GroupBytes(g)) == g
  {
    assert IsDataSymbol(g[0]) && IsDataSymbol(g[1]) && IsDataSymbol(g[2]) && IsDataSymbol(g[3]);
    DataGroupInverse(g);
  }

  lemma DataGroupInverse(g: seq<char>)
    requires |g| == 4 && IsDataSymbol(g[0]) && IsDataSymbol(g[1]) && IsDataSymbol(g[2]) && IsDataSymbol(g[3])
    ensures EncodeGroup(GroupBytes(g)) == g
  {
    DataGroupSymbols(g);
    EncodeTriple(GroupValue(g));
  }

  /** The symbols for the value of a group of data symbols are the group. */
  lemma DataGroupSymbols(g: seq<char>)
    requires |g| == 4 && IsDataSymbol(g[0]) && IsDataSymbol(g[1]) && IsDataSymbol(g[2]) && IsDataSymbol(g[3])
    ensures Symbols(GroupValue(g)) == g
  {
    DataSymbolDigit(g[0]);
    DataSymbolDigit(g[1]);
    DataSymbolDigit(g[2]);
    DataSymbolDigit(g[3]);
    var d0, d1, d2, d3 := Digit(g[0]), Digit(g[1]), Digit(g[2]), Digit(g[3]);
    HitValue(g);
    SymbolsOfDigits(d0, d1, d2, d3);
    assert g == [g[0], g[1], g[2], g[3]];
  }

  /** The symbols for a byte sequence, four per triple, in triple order. */
  function EncodeGroups(bs: seq<byte>): string
  {
    MapTriples(bs, EncodeGroup)
  }

  /** Zero bytes that bring the length up to a multiple of three. */
  function Padding(bs: seq<byte>): (z: seq<byte>)
    ensures |bs| + |z| == 3 * ((|bs| + 2) / 3) && |z| < 3
    ensures forall k :: 0 <= k < |z| ==> z[k] == 0
  {
    seq((3 - |bs| % 3) % 3, _ => 0)
  }

  /** A section body for the bytes `bs`, padded with zero bytes to whole groups. */
  function Pack(bs: seq<byte>): (s: string)
    ensures |s| == 4 * ((|bs| + 2) / 3)
  {
    MapTriplesLength(bs + Padding(bs), EncodeGroup, (|bs| + 2) / 3);
    EncodeGroups(bs + Padding(bs))
  }

  /** A packed body holds data symbols only. */
  lemma PackData(bs: seq<byte>)
    ensures forall k :: 0 <= k < |Pack(bs)| ==> IsDataSymbol(Pack(bs)[k])
  {
    forall t, k | |t| == 3 && 0 <= k < |EncodeGroup(t)| ensures IsDataSymbol(EncodeGroup(t)[k]) {
      EncodeGroupData(t);
    }
    MapTriplesAll(bs + Padding(bs), EncodeGroup, IsDataSymbol, (|bs| + 2) / 3);
  }

  lemma GroupsOfEncodeGroups(bs: seq<byte>, m: nat)
    requires |bs| == 3 * m
    ensures Groups(EncodeGroups(bs)) == bs
  {
    forall t | |t| == 3 ensures |EncodeGroup(t)| == 4 && GroupBytes(EncodeGroup(t)) == t {
      GroupRoundTrip(t);
    }
    MapQuadsOfTriples(bs, EncodeGroup, GroupBytes, m);
  }

  lemma EncodeGroupsOfGroups(s: string, m: nat)
    requires |s| == 4 * m && forall k :: 0 <= k < |s| ==> IsDataSymbol(s[k])
    ensures EncodeGroups(Groups(s)) == s
  {
    forall g | |g| == 4 && (forall k :: 0 <= k < 4 ==> IsDataSymbol(g[k]))
      ensures EncodeGroup(GroupBytes(g)) == g
    {
      GroupInverse(g);
    }
    MapTriplesOfQuads(s, GroupBytes, EncodeGroup, IsDataSymbol, m);
  }

  /** Round trip one way: unpacking a packed byte sequence gives the bytes, with the padding. */
  lemma UnpackPack(bs: seq<byte>)
    ensures Unpacked(Pack(bs)) == Success(bs + Padding(bs))
  {
    var m := (|bs| + 2) / 3;
    GroupsOfEncodeGroups(bs + Padding(bs), m);
    WholeGroups(m);
  }

  /** Round trip the other way: a body of data symbols is the packing of what it unpacks to. */
  lemma PackUnpack(sec: string)
    requires |sec| % 4 == 0 && forall k :: 0 <= k < |sec| ==> IsDataSymbol(sec[k])
    ensures Unpacked(sec).Success? && EncodeGroups(Unpacked(sec).value) == sec
    ensures Pack(Unpacked(sec).value) == sec
  {
    var m := |sec| / 4;
    EncodeGroupsOfGroups(sec, m);
    UnpackedLength(sec, m);
    var bs := Unpacked(sec).value;
    assert (|bs| + 2) / 3 == m;
    assert Padding(bs) == [] && bs + Padding(bs) == bs;
  }

  // ---------------------------------------------------------------------------------------------
  // Name and payload
  // ---------------------------------------------------------------------------------------------

  /**
   * `Take(secSplit)` and `Skip(secSplit + 1)` around `secSplit = Array.IndexOf(bytes, 0)`: the
   * bytes before the first zero and those after it. Without a zero byte `secSplit` is -1, so the
   * name is empty and the payload is every byte.
   */
  function Split(bs: seq<byte>): (r: (seq<byte>, seq<byte>))
    ensures 0 in bs ==> bs == r.0 + [0] + r.1 && 0 !in r.0
    ensures 0 !in bs ==> r.0 == [] && r.1 == bs
  {
    var k := IndexOf(bs, 0);
    IndexOfFirst(bs, 0);
    (Take(bs, k), Skip(bs, k + 1))
  }

  /** A name without a zero byte, a zero and a payload split back into the name and the payload. */
  lemma SplitJoin(name: seq<byte>, payload: seq<byte>)
    requires 0 !in name
    ensures Split(name + [0] + payload) == (name, payload)
  {
    var bs := name + [0] + payload;
    assert bs[..|name|] == name && bs[|name|] == 0;
    IndexOfFirst(bs, 0);
    var k := IndexOf(bs, 0);
    assert 0 <= k <= |name| by {
      assert 0 in bs;
    }
    assert k == |name|;
    assert bs[k + 1..] == payload;
  }

  /** The ZLib decompression of the payload; a stream that is not valid ZLib throws. */
  function Inflated(data: seq<byte>, lib: Library): (r: Result<seq<byte>>)
    ensures r.Success? <==> lib.inflate(data).Some?
    ensures r.Failure? ==> r.error == InvalidData
  {
    match lib.inflate(data)
    case Some(raw) => Success(raw)
    case None => Failure(InvalidData)
  }

  /** What `DecodeAsync(sec)` returns: the section's name and its decompressed text, or the exception. */
  function Decoded(sec: string, lib: Library): (r: Result<(string, string)>)
    ensures |sec| % 4 != 0 ==> r == Failure(IndexOutOfRange)
    ensures |sec| % 4 == 0 ==> (r.Success? <==> lib.inflate(Split(Groups(sec)).1).Some?)
  {
    var bytes :- Unpacked(sec);
    var (name, data) := Split(bytes);
    var raw :- Inflated(data, lib);
    Success((lib.utf8(name), lib.utf8(raw)))
  }

  /** `DecodeAsync`: unpack the body, split off the name, inflate the rest. */
  method DecodeSection(sec: string, lib: Library) returns (r: Result<(string, string)>)
    ensures r == Decoded(sec, lib)
  {
    var bytes := Unpack(sec);
    if bytes.Failure? {
      return Failure(bytes.error);
    }
    var k := IndexOf(bytes.value, 0);
    var name := Take(bytes.value, k);
    var data := Skip(bytes.value, k + 1);
    var inflated := lib.inflate(data);
    if inflated.None? {
      return Failure(InvalidData);
    }
    return Success((lib.utf8(name), lib.utf8(inflated.value)));
  }

  /**
   * A section packed from a name (without a zero byte), a zero byte and a payload decodes to the
   * name and the text the payload inflates to.
   */
  lemma DecodedRoundTrip(name: seq<byte>, payload: seq<byte>, raw: seq<byte>, lib: Library)
    requires 0 !in name
    requires lib.inflate(payload + Padding(name + [0] + payload)) == Some(raw)
    ensures Decoded(Pack(name + [0] + payload), lib) == Success((lib.utf8(name), lib.utf8(raw)))
  {
    var bs := name + [0] + payload;
    UnpackPack(bs);
    assert bs + Padding(bs) == name + [0] + (payload + Padding(bs));
    SplitJoin(name, payload + Padding(bs));
  }
}
