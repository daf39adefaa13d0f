/** Bob Jenkins' hash as the packet program uses it: the mix, the hash of a byte string, the
    faster hash of a word array, the hash of exactly three words, and the packing of a flow. */
module Jhash {
  import opened NumberTheory
  import opened Words

  const GOLDEN_RATIO: Word32 := 0x9e3779b9

  datatype State = State(a: Word32, b: Word32, c: Word32)

  // ---------- the mix ----------

  /** `x -= y; x -= z; x ^= t`. */
  function Scramble(x: Word32, y: Word32, z: Word32, t: Word32): Word32 {
    Xor32(Sub32(Sub32(x, y), z), t)
  }

  function Unscramble(x: Word32, y: Word32, z: Word32, t: Word32): Word32 {
    Add32(Add32(Xor32(x, t), z), y)
  }

  lemma ScrambleInverse(x: Word32, y: Word32, z: Word32, t: Word32)
    ensures Unscramble(Scramble(x, y, z, t), y, z, t) == x
    ensures Scramble(Unscramble(x, y, z, t), y, z, t) == x
  {
    XorTwice(Sub32(Sub32(x, y), z), t);
    XorTwice(x, t);
  }

  /** A line of the mix changes one word, by the other two and a shift of the word before it. */
  datatype Line = OnA(right: nat) | OnB(left: nat) | OnC(right: nat)

  const MIX: seq<Line> := [OnA(13), OnB(8), OnC(13), OnA(12), OnB(16), OnC(5), OnA(3), OnB(10), OnC(15)]

  function Do(s: State, l: Line): State {
    match l
    case OnA(k) => s.(a := Scramble(s.a, s.b, s.c, Shr(s.c, k)))
    case OnB(k) => s.(b := Scramble(s.b, s.c, s.a, Shl(s.a, k)))
    case OnC(k) => s.(c := Scramble(s.c, s.a, s.b, Shr(s.b, k)))
  }

  function Undo(s: State, l: Line): State {
    match l
    case OnA(k) => s.(a := Unscramble(s.a, s.b, s.c, Shr(s.c, k)))
    case OnB(k) => s.(b := Unscramble(s.b, s.c, s.a, Shl(s.a, k)))
    case OnC(k) => s.(c := Unscramble(s.c, s.a, s.b, Shr(s.b, k)))
  }

  lemma UndoDo(s: State, l: Line)
    ensures Undo(Do(s, l), l) == s
    ensures Do(Undo(s, l), l) == s
  {
    match l
    case OnA(k) => ScrambleInverse(s.a, s.b, s.c, Shr(s.c, k));
    case OnB(k) => ScrambleInverse(s.b, s.c, s.a, Shl(s.a, k));
    case OnC(k) => ScrambleInverse(s.c, s.a, s.b, Shr(s.b, k));
  }

  function DoAll(s: State, ls: seq<Line>): State
    decreases ls
  {
    if ls == [] then s else DoAll(Do(s, ls[0]), ls[1..])
  }

  function UndoAll(s: State, ls: seq<Line>): State
    decreases ls
  {
    if ls == [] then s else Undo(UndoAll(s, ls[1..]), ls[0])
  }

  lemma {:induction false} UndoAllDoAll(s: State, ls: seq<Line>)
    ensures UndoAll(DoAll(s, ls), ls) == s
    ensures DoAll(UndoAll(s, ls), ls) == s
    decreases ls
  {
    if ls != [] {
      UndoDo(s, ls[0]);
      UndoAllDoAll(Do(s, ls[0]), ls[1..]);
      UndoDo(UndoAll(s, ls[1..]), ls[0]);
      UndoAllDoAll(s, ls[1..]);
    }
  }

  function Mix(s: State): State {
    DoAll(s, MIX)
  }

  function Unmix(s: State): State {
    UndoAll(s, MIX)
  }

  /** The mix is a bijection on 96-bit states: `Unmix` undoes it on both sides. */
  lemma MixBijection(s: State)
    ensures Unmix(Mix(s)) == s
    ensures Mix(Unmix(s)) == s
  {
    UndoAllDoAll(s, MIX);
  }

  /** A right shift divides. */
  lemma {:induction false} ShrDivides(x: Word32, k: nat)
    ensures Shr(x, k) == x / Pow2(k)
    decreases k
  {
    if k > 0 {
      ShrDivides(x / 2, k - 1);
      HalfOfQuotient(x, Pow2(k - 1));
    }
  }

  lemma DoubledProduct(x: nat, p: nat, y: nat)
    requires y == 2 * x || y + 0x1_0000_0000 == 2 * x
    ensures x * (2 * p) == if y == 2 * x then y * p else y * p + p * 0x1_0000_0000
  {
    assert x * (2 * p) == (2 * x) * p;
    assert (y + 0x1_0000_0000) * p == y * p + p * 0x1_0000_0000;
  }

  /** A left shift multiplies modulo 2^32. */
  lemma {:induction false} ShlMultiplies(x: Word32, k: nat)
    ensures Shl(x, k) == x * Pow2(k) % 0x1_0000_0000
    decreases k
  {
    if k == 0 {
      ModUnique(x, 0x1_0000_0000, 0, x);
    } else {
      var p, y := Pow2(k - 1), Add32(x, x);
      ShlMultiplies(y, k - 1);
      DoubledProduct(x, p, y);
      ModAddMultiple(y * p, p, 0x1_0000_0000);
    }
  }

  /** `x - y - z` in uint32, xor-ed with `t`. */
  lemma ScrambleIsLine(x: Word32, y: Word32, z: Word32, t: Word32)
    ensures Scramble(x, y, z, t) == Xor32((x - y - z) % 0x1_0000_0000, t)
  {
  }

  function Round(s: State, i: nat, j: nat, k: nat): State {
    Do(Do(Do(s, OnA(i)), OnB(j)), OnC(k))
  }

  lemma MixIsThreeRounds(s: State)
    ensures Mix(s) == Round(Round(Round(s, 13, 8, 13), 12, 16, 5), 3, 10, 15)
  {
    var s1 := Round(s, 13, 8, 13);
    var s2 := Round(s1, 12, 16, 5);
    assert DoAll(s, MIX) == DoAll(s1, MIX[3..]);
    assert DoAll(s1, MIX[3..]) == DoAll(s2, MIX[6..]);
  }

  lemma RoundInArithmetic(a: Word32, b: Word32, c: Word32, i: nat, j: nat, k: nat) returns (a': Word32, b': Word32, c': Word32)
    ensures a' == Xor32((a - b - c) % 0x1_0000_0000, Shr(c, i))
    ensures b' == Xor32((b - c - a') % 0x1_0000_0000, Shl(a', j))
    ensures c' == Xor32((c - a' - b') % 0x1_0000_0000, Shr(b', k))
    ensures Round(State(a, b, c), i, j, k) == State(a', b', c')
  {
    ScrambleIsLine(a, b, c, Shr(c, i));
    a' := Scramble(a, b, c, Shr(c, i));
    ScrambleIsLine(b, c, a', Shl(a', j));
    b' := Scramble(b, c, a', Shl(a', j));
    ScrambleIsLine(c, a', b', Shr(b', k));
    c' := Scramble(c, a', b', Shr(b', k));
  }

  /** The nine lines of the mix, in arithmetic modulo 2^32. */
  lemma MixInArithmetic(a0: Word32, b0: Word32, c0: Word32)
    returns (a1: Word32, b1: Word32, c1: Word32, a2: Word32, b2: Word32, c2: Word32, a3: Word32, b3: Word32, c3: Word32)
    ensures a1 == Xor32((a0 - b0 - c0) % 0x1_0000_0000, Shr(c0, 13))
    ensures b1 == Xor32((b0 - c0 - a1) % 0x1_0000_0000, Shl(a1, 8))
    ensures c1 == Xor32((c0 - a1 - b1) % 0x1_0000_0000, Shr(b1, 13))
    ensures a2 == Xor32((a1 - b1 - c1) % 0x1_0000_0000, Shr(c1, 12))
    ensures b2 == Xor32((b1 - c1 - a2) % 0x1_0000_0000, Shl(a2, 16))
    ensures c2 == Xor32((c1 - a2 - b2) % 0x1_0000_0000, Shr(b2, 5))
    ensures a3 == Xor32((a2 - b2 - c2) % 0x1_0000_0000, Shr(c2, 3))
    ensures b3 == Xor32((b2 - c2 - a3) % 0x1_0000_0000, Shl(a3, 10))
    ensures c3 == Xor32((c2 - a3 - b3) % 0x1_0000_0000, Shr(b3, 15))
    ensures Mix(State(a0, b0, c0)) == State(a3, b3, c3)
  {
    MixIsThreeRounds(State(a0, b0, c0));
    a1, b1, c1 := RoundInArithmetic(a0, b0, c0, 13, 8, 13);
    a2, b2, c2 := RoundInArithmetic(a1, b1, c1, 12, 16, 5);
    a3, b3, c3 := RoundInArithmetic(a2, b2, c2, 3, 10, 15);
  }

  /** The macro itself: nine lines of assignments in place. */
  method JhashMix(a0: Word32, b0: Word32, c0: Word32) returns (a: Word32, b: Word32, c: Word32)
    ensures State(a, b, c) == Mix(State(a0, b0, c0))
  {
    a, b, c := a0, b0, c0;
    ghost var s := State(a, b, c);
    a := Sub32(a, b); a := Sub32(a, c); a := Xor32(a, Shr(c, 13));
    assert DoAll(State(a, b, c), MIX[1..]) == Mix(s);
    b := Sub32(b, c); b := Sub32(b, a); b := Xor32(b, Shl(a, 8));
    assert DoAll(State(a, b, c), MIX[2..]) == Mix(s);
    c := Sub32(c, a); c := Sub32(c, b); c := Xor32(c, Shr(b, 13));
    assert DoAll(State(a, b, c), MIX[3..]) == Mix(s);
    a := Sub32(a, b); a := Sub32(a, c); a := Xor32(a, Shr(c, 12));
    assert DoAll(State(a, b, c), MIX[4..]) == Mix(s);
    b := Sub32(b, c); b := Sub32(b, a); b := Xor32(b, Shl(a, 16));
    assert DoAll(State(a, b, c), MIX[5..]) == Mix(s);
    c := Sub32(c, a); c := Sub32(c, b); c := Xor32(c, Shr(b, 5));
    assert DoAll(State(a, b, c), MIX[6..]) == Mix(s);
    a := Sub32(a, b); a := Sub32(a, c); a := Xor32(a, Shr(c, 3));
    assert DoAll(State(a, b, c), MIX[7..]) == Mix(s);
    b := Sub32(b, c); b := Sub32(b, a); b := Xor32(b, Shl(a, 10));
    assert DoAll(State(a, b, c), MIX[8..]) == Mix(s);
    c := Sub32(c, a); c := Sub32(c, b); c := Xor32(c, Shr(b, 15));
  }

  // ---------- hashing words and bytes ----------

  function Absorb(s: State, x: Word32, y: Word32, z: Word32): State {
    State(Add32(s.a, x), Add32(s.b, y), Add32(s.c, z))
  }

  function ByteAt(k: seq<Byte>, i: nat): Byte {
    if i < |k| then k[i] else 0
  }

  /** The word with these little-endian bytes. */
  function Word(b0: Byte, b1: Byte, b2: Byte, b3: Byte): Word32 {
    b0 as nat + b1 as nat * 0x100 + b2 as nat * 0x1_0000 + b3 as nat * 0x100_0000
  }

  function WordOf(k: seq<Byte>, i: nat): Word32 {
    Word(ByteAt(k, i), ByteAt(k, i + 1), ByteAt(k, i + 2), ByteAt(k, i + 3))
  }

  /** The last bytes of a tail, shifted up by one byte to leave room for the length. */
  function ShortWordOf(k: seq<Byte>, i: nat): Word32 {
    Word(0, ByteAt(k, i), ByteAt(k, i + 1), ByteAt(k, i + 2))
  }

  /** What happens to three words in the middle of the input. */
  function Block(s: State, x: Word32, y: Word32, z: Word32): State {
    Mix(Absorb(s, x, y, z))
  }

  /** What happens to the words of the tail: the length goes into the third word. */
  function Finish(s: State, x: Word32, y: Word32, z: Word32, length: Word32): Word32 {
    var t := Absorb(s, x, y, length);
    Mix(t.(c := Add32(t.c, z))).c
  }

  type Blocks = (State, Word32, Word32, Word32) -> State
  type Tail = (State, Word32, Word32, Word32, Word32) -> Word32

  /** The hash of bytes: blocks of twelve, then a tail. */
  function HashBytes(block: Blocks, tail: Tail, s: State, k: seq<Byte>, length: Word32): Word32
    decreases |k|
  {
    if |k| >= 12 then
      HashBytes(block, tail, block(s, WordOf(k, 0), WordOf(k, 4), WordOf(k, 8)), k[12..], length)
    else
      tail(s, WordOf(k, 0), WordOf(k, 4), ShortWordOf(k, 8), length)
  }

  /** The hash of words: blocks of three, then the one or two words left over. */
  function HashWords(block: Blocks, tail: Tail, s: State, k: seq<Word32>, length: Word32): Word32
    decreases |k|
  {
    if |k| >= 3 then
      HashWords(block, tail, block(s, k[0], k[1], k[2]), k[3..], length)
    else
      tail(s, if |k| >= 1 then k[0] else 0, if |k| >= 2 then k[1] else 0, 0, length)
  }

  function Start(initval: Word32): State {
    State(GOLDEN_RATIO, GOLDEN_RATIO, initval)
  }

  /** The `n`-byte little-endian number at `k[i..]`; bytes behind the end count as 0. */
  function LittleEndian(k: seq<Byte>, i: nat, n: nat): nat
    decreases n
  {
    if n == 0 || i >= |k| then 0 else k[i] as nat + 0x100 * LittleEndian(k, i + 1, n - 1)
  }

  lemma LittleEndianWords(k: seq<Byte>, i: nat)
    ensures LittleEndian(k, i, 4) == WordOf(k, i)
    ensures 0x100 * LittleEndian(k, i, 3) == ShortWordOf(k, i)
  {
    LittleEndianBytes(k, i, 4);
    LittleEndianBytes(k, i + 1, 3);
    LittleEndianBytes(k, i + 2, 2);
    LittleEndianBytes(k, i + 3, 1);
    LittleEndianBytes(k, i, 3);
    LittleEndianBytes(k, i + 1, 2);
    LittleEndianBytes(k, i + 2, 1);
  }

  lemma LittleEndianBytes(k: seq<Byte>, i: nat, n: nat)
    requires n > 0
    ensures LittleEndian(k, i, n) == ByteAt(k, i) as nat + 0x100 * LittleEndian(k, i + 1, n - 1)
  {
  }

  /** What is added to the three words: the length goes into the third one at the end, before the
      bytes that leave room for it; the hash is the third word. */
  lemma BlockByBlock(s: State, k: seq<Byte>, length: Word32)
    ensures Start(length) == State(0x9e3779b9, 0x9e3779b9, length)
    ensures HashBytes(Block, Finish, s, k, length) ==
      if |k| >= 12 then
        HashBytes(Block, Finish, Mix(State(Add32(s.a, WordOf(k, 0)), Add32(s.b, WordOf(k, 4)), Add32(s.c, WordOf(k, 8)))), k[12..], length)
      else
        Mix(State(Add32(s.a, WordOf(k, 0)), Add32(s.b, WordOf(k, 4)), Add32(Add32(s.c, length), ShortWordOf(k, 8)))).c
  {
  }

  lemma AddFour(x: Word32, p: Word32, q: Word32, r: Word32, s: Word32)
    requires p + q + r + s < 0x1_0000_0000
    ensures Add32(Add32(Add32(Add32(x, p), q), r), s) == Add32(x, p + q + r + s)
  {
  }

  /** A byte of the tail in its place in the word. */
  function Part(k: seq<Byte>, i: nat, place: nat): Word32
    requires place < 4
  {
    if place == 0 then ByteAt(k, i)
    else if place == 1 then ByteAt(k, i) as nat * 0x100
    else if place == 2 then ByteAt(k, i) as nat * 0x1_0000
    else ByteAt(k, i) as nat * 0x100_0000
  }

  lemma PartsOfWord(k: seq<Byte>, i: nat)
    ensures Part(k, i + 3, 3) + Part(k, i + 2, 2) + Part(k, i + 1, 1) + Part(k, i, 0) == WordOf(k, i)
    ensures Part(k, i + 2, 3) + Part(k, i + 1, 2) + Part(k, i, 1) == ShortWordOf(k, i)
  {
  }

  /** One case of the switch. */
  method AddIf(x0: Word32, present: bool, v: Word32) returns (x: Word32)
    requires !present ==> v == 0
    ensures x == Add32(x0, v)
  {
    x := x0;
    if present { x := Add32(x, v); }
  }

  /** Four cases, which fall through: add the bytes `k[i..i + 4]` that exist. */
  method AddWord(x0: Word32, k: seq<Byte>, i: nat) returns (x: Word32)
    ensures x == Add32(x0, WordOf(k, i))
  {
    var p3, p2, p1, p0 := Part(k, i + 3, 3), Part(k, i + 2, 2), Part(k, i + 1, 1), Part(k, i, 0);
    x := AddIf(x0, |k| > i + 3, p3);
    x := AddIf(x, |k| > i + 2, p2);
    x := AddIf(x, |k| > i + 1, p1);
    x := AddIf(x, |k| > i, p0);
    PartsOfWord(k, i);
    AddFour(x0, p3, p2, p1, p0);
  }

  /** The three cases whose bytes are shifted up by one more byte. */
  method AddShortWord(x0: Word32, k: seq<Byte>, i: nat) returns (x: Word32)
    ensures x == Add32(x0, ShortWordOf(k, i))
  {
    var p3, p2, p1 := Part(k, i + 2, 3), Part(k, i + 1, 2), Part(k, i, 1);
    x := AddIf(x0, |k| > i + 2, p3);
    x := AddIf(x, |k| > i + 1, p2);
    x := AddIf(x, |k| > i, p1);
    PartsOfWord(k, i);
    AddFour(x0, p3, p2, p1, 0);
  }

  method HashBlock(a0: Word32, b0: Word32, c0: Word32, x: Word32, y: Word32, z: Word32)
    returns (a: Word32, b: Word32, c: Word32)
    ensures State(a, b, c) == Block(State(a0, b0, c0), x, y, z)
  {
    a, b, c := Add32(a0, x), Add32(b0, y), Add32(c0, z);
    a, b, c := JhashMix(a, b, c);
  }

  method HashTail(a0: Word32, b0: Word32, c0: Word32, k: seq<Byte>, length: Word32) returns (h: Word32)
    requires |k| < 12
    ensures h == Finish(State(a0, b0, c0), WordOf(k, 0), WordOf(k, 4), ShortWordOf(k, 8), length)
  {
    var a, b, c := a0, b0, Add32(c0, length);
    c := AddShortWord(c, k, 8);
    b := AddWord(b, k, 4);
    a := AddWord(a, k, 0);
    a, b, c := JhashMix(a, b, c);
    return c;
  }

  lemma RestWord(key: seq<Byte>, k: nat, i: nat)
    requires k + i + 4 <= |key|
    ensures WordOf(key[k..], i) == Word(key[k + i], key[k + i + 1], key[k + i + 2], key[k + i + 3])
  {
  }

  method Jhash(key: seq<Byte>, initval: Word32) returns (h: Word32)
    requires |key| < 0x1_0000_0000
    ensures h == HashBytes(Block, Finish, Start(initval), key, |key|)
  {
    var len, k: nat := |key|, 0;
    var a, b, c := GOLDEN_RATIO, GOLDEN_RATIO, initval;
    while len >= 12
      invariant 0 <= len && k + len == |key|
      invariant HashBytes(Block, Finish, State(a, b, c), key[k..], |key|) == HashBytes(Block, Finish, Start(initval), key, |key|)
    {
      ghost var rest := key[k..];
      assert rest[12..] == key[k + 12..];
      RestWord(key, k, 0);
      RestWord(key, k, 4);
      RestWord(key, k, 8);
      a, b, c := HashBlock(a, b, c,
        Word(key[k], key[k + 1], key[k + 2], key[k + 3]),
        Word(key[k + 4], key[k + 5], key[k + 6], key[k + 7]),
        Word(key[k + 8], key[k + 9], key[k + 10], key[k + 11]));
      k := k + 12;
      len := len - 12;
    }
    h := HashTail(a, b, c, key[k..], |key|);
  }

  /** The tail of the word hash: at most two words are left. */
  method HashLastWords(a0: Word32, b0: Word32, c0: Word32, k: seq<Word32>, length: Word32) returns (h: Word32)
    requires |k| < 3
    ensures h == HashWords(Block, Finish, State(a0, b0, c0), k, length)
  {
    var a, b, c := a0, b0, Add32(c0, length);
    if |k| >= 2 { b := Add32(b, k[1]); }
    if |k| >= 1 { a := Add32(a, k[0]); }
    AddZero(a0);
    AddZero(b0);
    AddZero(c);
    a, b, c := JhashMix(a, b, c);
    return c;
  }

  lemma AddZero(x: Word32)
    ensures Add32(x, 0) == x
  {
  }

  lemma OneBlockOfWords(block: Blocks, tail: Tail, s: State, k: seq<Word32>, length: Word32)
    requires |k| >= 3
    ensures HashWords(block, tail, s, k, length) == HashWords(block, tail, block(s, k[0], k[1], k[2]), k[3..], length)
  {
  }

  method Jhash2(key: seq<Word32>, initval: Word32) returns (h: Word32)
    requires |key| < 0x1_0000_0000
    ensures h == HashWords(Block, Finish, Start(initval), key, Wrap32(|key| * 4))
  {
    var len, k: nat := |key|, 0;
    var a, b, c := GOLDEN_RATIO, GOLDEN_RATIO, initval;
    while len >= 3
      invariant 0 <= len && k + len == |key|
      invariant HashWords(Block, Finish, State(a, b, c), key[k..], Wrap32(|key| * 4))
             == HashWords(Block, Finish, Start(initval), key, Wrap32(|key| * 4))
    {
      ghost var rest := key[k..];
      OneBlockOfWords(Block, Finish, State(a, b, c), rest, Wrap32(|key| * 4));
      a, b, c := HashBlock(a, b, c, key[k], key[k + 1], key[k + 2]);
      assert rest[3..] == key[k + 3..];
      k := k + 3;
      len := len - 3;
    }
    h := HashLastWords(a, b, c, key[k..], Wrap32(|key| * 4));
  }

  // ---------- the word hash refines the byte hash ----------

  function WordBytes(w: Word32): (r: seq<Byte>)
    ensures |r| == 4
  {
    [w % 0x100, w / 0x100 % 0x100, w / 0x100 / 0x100 % 0x100, w / 0x100 / 0x100 / 0x100]
  }

  lemma WordOfWordBytes(w: Word32)
    ensures WordOf(WordBytes(w), 0) == w
  {
  }

  function Bytes(k: seq<Word32>): (r: seq<Byte>)
    ensures |r| == 4 * |k|
  {
    if k == [] then [] else WordBytes(k[0]) + Bytes(k[1..])
  }

  ghost predicate BytesOf(b: seq<Byte>, k: seq<Word32>) {
    |b| == 4 * |k| && forall i: nat :: i < |k| ==> WordOf(b, 4 * i) == k[i]
  }

  lemma {:induction false} BytesAreBytesOf(k: seq<Word32>)
    ensures BytesOf(Bytes(k), k)
  {
    var b := Bytes(k);
    if k != [] {
      BytesAreBytesOf(k[1..]);
      WordOfWordBytes(k[0]);
      WordOfPrefix(b, WordBytes(k[0]), 0);
      forall i: nat | i < |k|
        ensures WordOf(b, 4 * i) == k[i]
      {
        if i > 0 {
          assert WordOf(Bytes(k[1..]), 4 * (i - 1)) == k[1..][i - 1];
          WordOfRest(b, Bytes(k[1..]), 4, 4 * (i - 1));
        }
      }
    }
  }

  lemma WordOfPrefix(b: seq<Byte>, p: seq<Byte>, i: nat)
    requires p <= b && i + 4 <= |p|
    ensures WordOf(b, i) == WordOf(p, i)
  {
  }

  lemma WordOfRest(b: seq<Byte>, rest: seq<Byte>, n: nat, i: nat)
    requires n <= |b| && rest == b[n..]
    ensures WordOf(rest, i) == WordOf(b, n + i)
  {
  }

  lemma BytesOfRest(b: seq<Byte>, k: seq<Word32>)
    requires BytesOf(b, k) && |k| >= 3
    ensures BytesOf(b[12..], k[3..])
  {
    forall i: nat | i < |k[3..]|
      ensures WordOf(b[12..], 4 * i) == k[3..][i]
    {
      assert WordOf(b, 4 * (i + 3)) == k[i + 3];
      WordOfRest(b, b[12..], 12, 4 * i);
    }
  }

  lemma {:induction false} WordsRefineBytes(block: Blocks, tail: Tail, s: State, b: seq<Byte>, k: seq<Word32>, length: Word32)
    requires BytesOf(b, k)
    ensures HashBytes(block, tail, s, b, length) == HashWords(block, tail, s, k, length)
    decreases |k|
  {
    assert |k| >= 1 ==> WordOf(b, 4 * 0) == k[0];
    assert |k| >= 2 ==> WordOf(b, 4 * 1) == k[1];
    if |k| >= 3 {
      assert WordOf(b, 4 * 2) == k[2];
      BytesOfRest(b, k);
      WordsRefineBytes(block, tail, block(s, k[0], k[1], k[2]), b[12..], k[3..], length);
    }
  }

  /** `jhash2` of a word array is `jhash` of the bytes that hold those words little-endian. */
  lemma Jhash2IsJhash(k: seq<Word32>, b: seq<Byte>, initval: Word32)
    requires 4 * |k| < 0x1_0000_0000 && BytesOf(b, k)
    ensures HashWords(Block, Finish, Start(initval), k, Wrap32(|k| * 4))
         == HashBytes(Block, Finish, Start(initval), b, |b|)
  {
    WrapSmall(|b|);
    WordsRefineBytes(Block, Finish, Start(initval), b, k, |b|);
  }
}
