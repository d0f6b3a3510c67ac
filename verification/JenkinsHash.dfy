/** Bob Jenkins' byte-string hash as used for string keys.

    The key lies at address `ptr` of a byte memory.  Depending on the alignment of that address
    the hash reads 32-bit words, 16-bit half-words or single bytes; all three must agree. */
module JenkinsHash {

  /** The internal state, three 32-bit accumulators. */
  datatype State = State(a: bv32, b: bv32, c: bv32)

  // 32-bit arithmetic, named so that proofs can treat it abstractly.

  function Plus(u: bv32, v: bv32): bv32 { u + v }

  function Minus(u: bv32, v: bv32): bv32 { u - v }

  function Xor(u: bv32, v: bv32): bv32 { u ^ v }

  function Rot(x: bv32, k: nat): bv32
    requires k < 32
  {
    (x << k) ^ (x >> (32 - k))
  }

  lemma Cancels(u: bv32, v: bv32)
    ensures Minus(Plus(u, v), v) == u
    ensures Plus(Minus(u, v), v) == u
    ensures Xor(Xor(u, v), v) == u
  {
    hide *;
    MinusUndoesPlus(u, v);
    PlusUndoesMinus(u, v);
    XorUndoesXor(u, v);
  }

  lemma MinusUndoesPlus(u: bv32, v: bv32)
    ensures Minus(Plus(u, v), v) == u
  {
    calc { Minus(Plus(u, v), v); Minus(u + v, v); (u + v) - v; u; }
  }

  lemma PlusUndoesMinus(u: bv32, v: bv32)
    ensures Plus(Minus(u, v), v) == u
  {
    calc { Plus(Minus(u, v), v); Plus(u - v, v); (u - v) + v; u; }
  }

  lemma XorUndoesXor(u: bv32, v: bv32)
    ensures Xor(Xor(u, v), v) == u
  {
    calc { Xor(Xor(u, v), v); Xor(u ^ v, v); (u ^ v) ^ v; u; }
  }

  // ----- mixing and its inverse -----

  /** One of the six arrangements inside `mix`: p -= r; p ^= rot(r,k); r += q. */
  function Stir(p: bv32, q: bv32, r: bv32, k: nat): (bv32, bv32)
    requires k < 32
  {
    (Xor(Minus(p, r), Rot(r, k)), Plus(r, q))
  }

  function Unstir(p: bv32, q: bv32, r: bv32, k: nat): (bv32, bv32)
    requires k < 32
  {
    var r0 := Minus(r, q);
    (Plus(Xor(p, Rot(r0, k)), r0), r0)
  }

  lemma StirInverse(p: bv32, q: bv32, r: bv32, k: nat)
    requires k < 32
    ensures var (x, z) := Stir(p, q, r, k); Unstir(x, q, z, k) == (p, r)
    ensures var (x, z) := Unstir(p, q, r, k); Stir(x, q, z, k) == (p, r)
  {
    hide Rot, Plus, Minus, Xor;
    var mask := Rot(r, k);
    Cancels(r, q);
    Cancels(Minus(p, r), mask);
    Cancels(p, r);
    var r0 := Minus(r, q);
    Cancels(p, Rot(r0, k));
    Cancels(Xor(p, Rot(r0, k)), r0);
  }

  function Mix(s: State): State {
    var (a1, c1) := Stir(s.a, s.b, s.c, 4);
    var (b1, a2) := Stir(s.b, c1, a1, 6);
    var (c2, b2) := Stir(c1, a2, b1, 8);
    var (a3, c3) := Stir(a2, b2, c2, 16);
    var (b3, a4) := Stir(b2, c3, a3, 19);
    var (c4, b4) := Stir(c3, a4, b3, 4);
    State(a4, b4, c4)
  }

  function Unmix(s: State): State {
    var (c3, b3) := Unstir(s.c, s.a, s.b, 4);
    var (b2, a3) := Unstir(b3, c3, s.a, 19);
    var (a2, c2) := Unstir(a3, b2, c3, 16);
    var (c1, b1) := Unstir(c2, a2, b2, 8);
    var (b, a1) := Unstir(b1, c1, a2, 6);
    var (a, c) := Unstir(a1, b, c1, 4);
    State(a, b, c)
  }

  /** `mix` is reversible in both directions. */
  lemma MixIsBijective(s: State)
    ensures Unmix(Mix(s)) == s
    ensures Mix(Unmix(s)) == s
  {
    MixThenUnmix(s);
    UnmixThenMix(s);
  }

  lemma MixThenUnmix(s: State)
    ensures Unmix(Mix(s)) == s
  {
    hide Stir, Unstir;
    var (a1, c1) := Stir(s.a, s.b, s.c, 4);
    var (b1, a2) := Stir(s.b, c1, a1, 6);
    var (c2, b2) := Stir(c1, a2, b1, 8);
    var (a3, c3) := Stir(a2, b2, c2, 16);
    var (b3, a4) := Stir(b2, c3, a3, 19);
    StirInverse(s.a, s.b, s.c, 4);
    StirInverse(s.b, c1, a1, 6);
    StirInverse(c1, a2, b1, 8);
    StirInverse(a2, b2, c2, 16);
    StirInverse(b2, c3, a3, 19);
    StirInverse(c3, a4, b3, 4);
  }

  lemma UnmixThenMix(s: State)
    ensures Mix(Unmix(s)) == s
  {
    hide Stir, Unstir;
    var (c3, b3) := Unstir(s.c, s.a, s.b, 4);
    var (b2, a3) := Unstir(b3, c3, s.a, 19);
    var (a2, c2) := Unstir(a3, b2, c3, 16);
    var (c1, b1) := Unstir(c2, a2, b2, 8);
    var (b, a1) := Unstir(b1, c1, a2, 6);
    StirInverse(s.c, s.a, s.b, 4);
    StirInverse(b3, c3, s.a, 19);
    StirInverse(a3, b2, c3, 16);
    StirInverse(c2, a2, b2, 8);
    StirInverse(b1, c1, a2, 6);
    StirInverse(a1, b, c1, 4);
  }

  // ----- final mixing and its inverse -----

  /** One of the seven arrangements inside `final`: p ^= q; p -= rot(q,k). */
  function Fold(p: bv32, q: bv32, k: nat): bv32
    requires k < 32
  {
    Minus(Xor(p, q), Rot(q, k))
  }

  function Unfold(p: bv32, q: bv32, k: nat): bv32
    requires k < 32
  {
    Xor(Plus(p, Rot(q, k)), q)
  }

  lemma FoldInverse(p: bv32, q: bv32, k: nat)
    requires k < 32
    ensures Unfold(Fold(p, q, k), q, k) == p
    ensures Fold(Unfold(p, q, k), q, k) == p
  {
    hide Rot, Plus, Minus, Xor;
    Cancels(Xor(p, q), Rot(q, k));
    Cancels(p, q);
    Cancels(p, Rot(q, k));
    Cancels(Plus(p, Rot(q, k)), q);
  }

  function FinalMix(s: State): State {
    var c1 := Fold(s.c, s.b, 14);
    var a1 := Fold(s.a, c1, 11);
    var b1 := Fold(s.b, a1, 25);
    var c2 := Fold(c1, b1, 16);
    var a2 := Fold(a1, c2, 4);
    var b2 := Fold(b1, a2, 14);
    State(a2, b2, Fold(c2, b2, 24))
  }

  function FinalUnmix(s: State): State {
    var c2 := Unfold(s.c, s.b, 24);
    var b1 := Unfold(s.b, s.a, 14);
    var a1 := Unfold(s.a, c2, 4);
    var c1 := Unfold(c2, b1, 16);
    var b := Unfold(b1, a1, 25);
    State(Unfold(a1, c1, 11), b, Unfold(c1, b, 14))
  }

  /** `final` is reversible in both directions: the hash, its third word, is all that is dropped of the state. */
  lemma FinalIsBijective(s: State)
    ensures FinalUnmix(FinalMix(s)) == s
    ensures FinalMix(FinalUnmix(s)) == s
  {
    hide Fold, Unfold;
    FinalThenUnmix(s);
    FinalUnmixThen(s);
  }

  lemma FinalThenUnmix(s: State)
    ensures FinalUnmix(FinalMix(s)) == s
  {
    hide Fold, Unfold;
    var c1 := Fold(s.c, s.b, 14);
    var a1 := Fold(s.a, c1, 11);
    var b1 := Fold(s.b, a1, 25);
    var c2 := Fold(c1, b1, 16);
    var a2 := Fold(a1, c2, 4);
    var b2 := Fold(b1, a2, 14);
    FoldInverse(s.c, s.b, 14);
    FoldInverse(s.a, c1, 11);
    FoldInverse(s.b, a1, 25);
    FoldInverse(c1, b1, 16);
    FoldInverse(a1, c2, 4);
    FoldInverse(b1, a2, 14);
    FoldInverse(c2, b2, 24);
  }

  lemma FinalUnmixThen(s: State)
    ensures FinalMix(FinalUnmix(s)) == s
  {
    hide Fold, Unfold;
    var c2 := Unfold(s.c, s.b, 24);
    var b1 := Unfold(s.b, s.a, 14);
    var a1 := Unfold(s.a, c2, 4);
    var c1 := Unfold(c2, b1, 16);
    var b := Unfold(b1, a1, 25);
    FoldInverse(s.c, s.b, 24);
    FoldInverse(s.b, s.a, 14);
    FoldInverse(s.a, c2, 4);
    FoldInverse(c2, b1, 16);
    FoldInverse(b1, a1, 25);
    FoldInverse(a1, c1, 11);
    FoldInverse(c1, b, 14);
  }

  /** The hash is the third word of the state after the final mixing. */
  function Final(s: State): bv32 {
    FinalMix(s).c
  }

  // ----- the hash of a byte string, with no mention of alignment -----

  /** Byte i of a string, zero beyond its end. */
  function ByteAt(key: seq<bv8>, i: nat): bv8 {
    if i < |key| then key[i] else 0
  }

  /** A byte moved to its place in a 32-bit word. */
  function Shifted(w: bv8, k: nat): bv32
    requires k == 0 || k == 8 || k == 16 || k == 24
  {
    (w as bv32) << k
  }

  /** Four bytes as a little-endian number. */
  function Little(w: bv8, x: bv8, y: bv8, z: bv8): bv32 {
    (w as bv32) | ((x as bv32) << 8) | ((y as bv32) << 16) | ((z as bv32) << 24)
  }

  function WordAt(key: seq<bv8>, i: nat): bv32 {
    Little(ByteAt(key, i), ByteAt(key, i + 1), ByteAt(key, i + 2), ByteAt(key, i + 3))
  }

  /** The first (up to) twelve bytes of a string added into the state. */
  function AddBlock(s: State, key: seq<bv8>): State {
    State(Plus(s.a, WordAt(key, 0)), Plus(s.b, WordAt(key, 4)), Plus(s.c, WordAt(key, 8)))
  }

  function SubBlock(s: State, key: seq<bv8>): State {
    State(Minus(s.a, WordAt(key, 0)), Minus(s.b, WordAt(key, 4)), Minus(s.c, WordAt(key, 8)))
  }

  /** Absorb all full blocks but the last (probably partial) one. */
  function Absorb(s: State, key: seq<bv8>): State
    decreases |key|
  {
    if |key| <= 12 then s else Absorb(Mix(AddBlock(s, key)), key[12..])
  }

  /** Run the block loop backwards. */
  function Unabsorb(s: State, key: seq<bv8>): State
    decreases |key|
  {
    if |key| <= 12 then s else SubBlock(Unmix(Unabsorb(s, key[12..])), key)
  }

  /** For a fixed key the block loop permutes the states: no state information is lost. */
  lemma {:induction false} AbsorbIsBijective(s: State, key: seq<bv8>)
    ensures Unabsorb(Absorb(s, key), key) == s
    ensures Absorb(Unabsorb(s, key), key) == s
    decreases |key|
  {
    hide Mix, Unmix, AddBlock, SubBlock;
    if |key| > 12 {
      var t := AddBlock(s, key);
      AbsorbIsBijective(Mix(t), key[12..]);
      MixIsBijective(t);
      BlocksCancel(s, key);
      AbsorbIsBijective(s, key[12..]);
      MixIsBijective(Unabsorb(s, key[12..]));
      BlocksCancel(Unmix(Unabsorb(s, key[12..])), key);
    }
  }

  lemma BlocksCancel(s: State, key: seq<bv8>)
    ensures SubBlock(AddBlock(s, key), key) == s == AddBlock(SubBlock(s, key), key)
  {
    hide WordAt, Plus, Minus;
    Cancels(s.a, WordAt(key, 0));
    Cancels(s.b, WordAt(key, 4));
    Cancels(s.c, WordAt(key, 8));
  }

  function Start(length: nat): State {
    var x: bv32 := 0xdeadbeef + (length % 0x1_0000_0000) as bv32;
    State(x, x, x)
  }

  /** What the hash of a key is, whatever the address it is stored at. */
  function HashOf(key: seq<bv8>): bv32 {
    var s := Absorb(Start(|key|), key);
    if |key| == 0 then s.c else Final(AddBlock(s, LastPart(key)))
  }

  function LastPart(key: seq<bv8>): (t: seq<bv8>)
    ensures |t| <= 12
  {
    if |key| <= 12 then key else LastPart(key[12..])
  }

  // ----- known hashes -----

  /** The empty key is not mixed at all. */
  lemma HashOfEmpty()
    ensures HashOf([]) == 0xdeadbeef
  {
  }

  lemma HashOfOneByte()
    ensures HashOf([0x61]) == 0x58d68708
    ensures HashOf([0x62]) == 0x7ff5c395
  {
    hide *;
    OneByteStart();
    OneByteBlock(0x61);
    OneByteBlock(0x62);
    HashFromLast(Start(1), [0x61]);
    HashFromLast(Start(1), [0x62]);
    HashFromStart([0x61]);
    HashFromStart([0x62]);
    OneByteFinal();
  }

  lemma OneByteStart()
    ensures Start(1) == State(0xdeadbef0, 0xdeadbef0, 0xdeadbef0)
  {
  }

  lemma OneByteBlock(x: bv8)
    ensures AddBlock(State(0xdeadbef0, 0xdeadbef0, 0xdeadbef0), [x])
         == State(0xdeadbef0 + (x as bv32), 0xdeadbef0, 0xdeadbef0)
  {
  }

  lemma OneByteFinal()
    ensures Final(State(0xdeadbef0 + (0x61 as bv8) as bv32, 0xdeadbef0, 0xdeadbef0)) == 0x58d68708
    ensures Final(State(0xdeadbef0 + (0x62 as bv8) as bv32, 0xdeadbef0, 0xdeadbef0)) == 0x7ff5c395
  {
  }

  /** A full block that is not the last. */
  lemma FirstBlock(s: State, x: seq<bv8>, rest: seq<bv8>)
    requires |x| == 12 && rest != []
    ensures Absorb(s, x + rest) == Absorb(Mix(AddBlock(s, x)), rest) && LastPart(x + rest) == LastPart(rest)
  {
    hide Mix, AddBlock;
    assert (x + rest)[12..] == rest;
    BlockOnly(s, x, rest);
  }

  lemma BlockOnly(s: State, x: seq<bv8>, rest: seq<bv8>)
    requires |x| == 12
    ensures AddBlock(s, x + rest) == AddBlock(s, x)
  {
    hide Little, Plus;
  }

  /** Thirty bytes: two blocks go through the mixing, the last six through the final one. */
  lemma HashOfSentence()
    ensures HashOf([0x46, 0x6f, 0x75, 0x72, 0x20, 0x73, 0x63, 0x6f, 0x72, 0x65, 0x20, 0x61] +
                   [0x6e, 0x64, 0x20, 0x73, 0x65, 0x76, 0x65, 0x6e, 0x20, 0x79, 0x65, 0x61] +
                   [0x72, 0x73, 0x20, 0x61, 0x67, 0x6f]) == 0x17770551
  {
    var x: seq<bv8> := [0x46, 0x6f, 0x75, 0x72, 0x20, 0x73, 0x63, 0x6f, 0x72, 0x65, 0x20, 0x61];
    var y: seq<bv8> := [0x6e, 0x64, 0x20, 0x73, 0x65, 0x76, 0x65, 0x6e, 0x20, 0x79, 0x65, 0x61];
    var z: seq<bv8> := [0x72, 0x73, 0x20, 0x61, 0x67, 0x6f];
    SentenceBlocks(x, y, z);
    hide *;
    ThreeParts(x, y, z);
  }

  lemma ThreeParts(x: seq<bv8>, y: seq<bv8>, z: seq<bv8>)
    requires |x| == 12 == |y| && |z| == 6
    requires AddBlock(State(0xdeadbf0d, 0xdeadbf0d, 0xdeadbf0d), x) == State(0x51232e53, 0x4e11322d, 0x3fce247f)
    requires AddBlock(State(0xf859ad7a, 0x4bc57ae, 0x40dddd7e), y) == State(0x6b7a11e8, 0x7321ce13, 0xa243569e)
    requires Final(AddBlock(State(0x336aded2, 0x59f2642, 0xbd02ebd5), z)) == 0x17770551
    ensures HashOf(x + y + z) == 0x17770551
  {
    hide *;
    assert x + y + z == x + (y + z);
    SentenceStart();
    HashFromStart(x + y + z);
    FirstBlock(Start(30), x, y + z);
    FirstMix();
    FirstBlock(State(0xf859ad7a, 0x4bc57ae, 0x40dddd7e), y, z);
    SecondMix();
    PartOnly(State(0x336aded2, 0x59f2642, 0xbd02ebd5), z);
    HashFromParts(Start(30), x + y + z);
  }

  lemma SentenceStart()
    ensures Start(30) == State(0xdeadbf0d, 0xdeadbf0d, 0xdeadbf0d)
  {
  }

  lemma SentenceBlocks(x: seq<bv8>, y: seq<bv8>, z: seq<bv8>)
    requires x == [0x46, 0x6f, 0x75, 0x72, 0x20, 0x73, 0x63, 0x6f, 0x72, 0x65, 0x20, 0x61]
    requires y == [0x6e, 0x64, 0x20, 0x73, 0x65, 0x76, 0x65, 0x6e, 0x20, 0x79, 0x65, 0x61]
    requires z == [0x72, 0x73, 0x20, 0x61, 0x67, 0x6f]
    ensures AddBlock(State(0xdeadbf0d, 0xdeadbf0d, 0xdeadbf0d), x) == State(0x51232e53, 0x4e11322d, 0x3fce247f)
    ensures AddBlock(State(0xf859ad7a, 0x4bc57ae, 0x40dddd7e), y) == State(0x6b7a11e8, 0x7321ce13, 0xa243569e)
    ensures Final(AddBlock(State(0x336aded2, 0x59f2642, 0xbd02ebd5), z)) == 0x17770551
  {
  }

  lemma FirstMix()
    ensures Mix(State(0x51232e53, 0x4e11322d, 0x3fce247f)) == State(0xf859ad7a, 0x4bc57ae, 0x40dddd7e)
  {
  }

  lemma SecondMix()
    ensures Mix(State(0x6b7a11e8, 0x7321ce13, 0xa243569e)) == State(0x336aded2, 0x59f2642, 0xbd02ebd5)
  {
  }

  lemma PartOnly(s: State, z: seq<bv8>)
    requires |z| <= 12
    ensures Absorb(s, z) == s && LastPart(z) == z
  {
  }

  lemma HashFromParts(s: State, rest: seq<bv8>)
    ensures HashFrom(s, rest) == Final(AddBlock(Absorb(s, rest), LastPart(rest)))
  {
  }

  // ----- loads of different widths -----

  function Join2(w: bv8, x: bv8): bv32 {
    (w as bv32) | ((x as bv32) << 8)
  }

  function High(u: bv32): bv32 { u << 16 }

  function Low24(u: bv32): bv32 { u & 0xffffff }
  function Low16(u: bv32): bv32 { u & 0xffff }
  function Low8(u: bv32): bv32 { u & 0xff }

  // Masking a 32-bit load keeps only its low bytes.

  lemma Low24Law(w: bv8, x: bv8, y: bv8, z: bv8)
    ensures Low24(Little(w, x, y, z)) == Little(w, x, y, 0)
  {
    calc {
      Low24(Little(w, x, y, z));
      ((w as bv32) | ((x as bv32) << 8) | ((y as bv32) << 16) | ((z as bv32) << 24)) & 0xffffff;
      (w as bv32) | ((x as bv32) << 8) | ((y as bv32) << 16) | ((0 as bv32) << 24);
    }
  }

  lemma Low16Law(w: bv8, x: bv8, y: bv8, z: bv8)
    ensures Low16(Little(w, x, y, z)) == Little(w, x, 0, 0)
  {
    calc {
      Low16(Little(w, x, y, z));
      ((w as bv32) | ((x as bv32) << 8) | ((y as bv32) << 16) | ((z as bv32) << 24)) & 0xffff;
      (w as bv32) | ((x as bv32) << 8) | ((0 as bv32) << 16) | ((0 as bv32) << 24);
    }
  }

  lemma Low8Law(w: bv8, x: bv8, y: bv8, z: bv8)
    ensures Low8(Little(w, x, y, z)) == Little(w, 0, 0, 0)
  {
    calc {
      Low8(Little(w, x, y, z));
      ((w as bv32) | ((x as bv32) << 8) | ((y as bv32) << 16) | ((z as bv32) << 24)) & 0xff;
      (w as bv32) | ((0 as bv32) << 8) | ((0 as bv32) << 16) | ((0 as bv32) << 24);
    }
  }

  // Two 16-bit loads, or one and a byte, read the same number.

  lemma TwoHalves(w: bv8, x: bv8, y: bv8, z: bv8)
    ensures Plus(Join2(w, x), High(Join2(y, z))) == Little(w, x, y, z)
  {
    hide Plus;
    DisjointSum(Join2(w, x), High(Join2(y, z)));
  }

  lemma OneHalf(w: bv8, x: bv8)
    ensures Join2(w, x) == Little(w, x, 0, 0)
  {
  }

  lemma HalfPlusByte(w: bv8, x: bv8, y: bv8)
    ensures Plus(Join2(w, x), Shifted(y, 16)) == Little(w, x, y, 0)
  {
    hide Plus;
    DisjointSum(Join2(w, x), Shifted(y, 16));
  }

  // Four byte loads read it too, added in either direction.

  lemma TwoBytes(w: bv8, x: bv8)
    ensures Plus(Shifted(w, 0), Shifted(x, 8)) == Join2(w, x)
  {
    hide Plus;
    DisjointSum(Shifted(w, 0), Shifted(x, 8));
  }

  lemma ThreeAndOne(w: bv8, x: bv8, y: bv8, z: bv8)
    ensures Plus(Little(w, x, y, 0), Shifted(z, 24)) == Little(w, x, y, z)
  {
    hide Plus;
    DisjointSum(Little(w, x, y, 0), Shifted(z, 24));
  }

  /** Adding words that share no bit is joining them. */
  lemma DisjointSum(u: bv32, v: bv32)
    requires u & v == 0
    ensures Plus(u, v) == u | v
  {
    calc { Plus(u, v); u + v; { NoCarry(u, v); } u | v; }
  }

  lemma NoCarry(u: bv32, v: bv32)
    requires u & v == 0
    ensures u + v == u | v
  {
  }

  lemma BytesMakeLittle(w: bv8, x: bv8, y: bv8, z: bv8)
    ensures Plus(Plus(Plus(Shifted(w, 0), Shifted(x, 8)), Shifted(y, 16)), Shifted(z, 24)) == Little(w, x, y, z)
  {
    hide *;
    TwoBytes(w, x);
    HalfPlusByte(w, x, y);
    ThreeAndOne(w, x, y, z);
  }

  lemma PlusFour(a: bv32, p: bv32, q: bv32, r: bv32, t: bv32)
    ensures Plus(Plus(Plus(Plus(a, p), q), r), t) == Plus(a, Plus(Plus(Plus(p, q), r), t))
  {
    hide *;
    PlusAssociates(a, p, q);
    PlusAssociates(a, Plus(p, q), r);
    PlusAssociates(a, Plus(Plus(p, q), r), t);
  }

  lemma ChainUp(a: bv32, w: bv8, x: bv8, y: bv8, z: bv8)
    ensures Plus(Plus(Plus(Plus(a, Shifted(w, 0)), Shifted(x, 8)), Shifted(y, 16)), Shifted(z, 24))
      == Plus(a, Little(w, x, y, z))
  {
    hide *;
    PlusFour(a, Shifted(w, 0), Shifted(x, 8), Shifted(y, 16), Shifted(z, 24));
    BytesMakeLittle(w, x, y, z);
  }

  lemma ChainDown(a: bv32, w: bv8, x: bv8, y: bv8, z: bv8)
    ensures Plus(Plus(Plus(Plus(a, Shifted(z, 24)), Shifted(y, 16)), Shifted(x, 8)), Shifted(w, 0))
      == Plus(a, Little(w, x, y, z))
  {
    hide *;
    PlusFour(a, Shifted(z, 24), Shifted(y, 16), Shifted(x, 8), Shifted(w, 0));
    Reversed(Shifted(w, 0), Shifted(x, 8), Shifted(y, 16), Shifted(z, 24));
    BytesMakeLittle(w, x, y, z);
  }

  lemma Reversed(p: bv32, q: bv32, r: bv32, t: bv32)
    ensures Plus(Plus(Plus(p, q), r), t) == Plus(Plus(Plus(t, r), q), p)
  {
    hide *;
    PlusAssociates(t, r, q);
    PlusCommutes(r, q);
    PlusCommutes(t, Plus(q, r));
    PlusAssociates(q, r, t);
    PlusCommutes(Plus(q, Plus(r, t)), p);
    PlusAssociates(p, q, Plus(r, t));
    PlusAssociates(Plus(p, q), r, t);
  }

  lemma PlusAssociates(u: bv32, v: bv32, w: bv32)
    ensures Plus(Plus(u, v), w) == Plus(u, Plus(v, w))
  {
    calc { Plus(Plus(u, v), w); Plus(u + v, w); u + v + w; u + (v + w); Plus(u, v + w); }
  }

  lemma PlusCommutes(u: bv32, v: bv32)
    ensures Plus(u, v) == Plus(v, u)
  {
  }

  lemma ZeroAdds(a: bv32)
    ensures Plus(a, 0) == a
  {
  }

  lemma ZeroShifts()
    ensures Shifted(0, 0) == Shifted(0, 8) == Shifted(0, 16) == Shifted(0, 24) == 0
    ensures Little(0, 0, 0, 0) == 0
  {
  }

  /** A half-word and a byte added one after the other. */
  lemma HalfAndByte(a: bv32, w: bv8, x: bv8, y: bv8)
    ensures Plus(Plus(a, Shifted(y, 16)), Join2(w, x)) == Plus(a, Little(w, x, y, 0))
  {
    hide *;
    PlusAssociates(a, Shifted(y, 16), Join2(w, x));
    PlusCommutes(Shifted(y, 16), Join2(w, x));
    HalfPlusByte(w, x, y);
  }

  // ----- the hash as the code computes it -----

  function Load32(mem: seq<bv8>, p: nat): bv32
    requires p + 4 <= |mem|
  {
    Little(mem[p], mem[p + 1], mem[p + 2], mem[p + 3])
  }

  function Load16(mem: seq<bv8>, p: nat): bv32
    requires p + 2 <= |mem|
  {
    Join2(mem[p], mem[p + 1])
  }

  function Load8(mem: seq<bv8>, p: nat): bv32
    requires p < |mem|
  {
    Shifted(mem[p], 0)
  }

  /** The hash of the part of a key that is still to be read. */
  function HashFrom(s: State, rest: seq<bv8>): bv32 {
    Final(AddBlock(Absorb(s, rest), LastPart(rest)))
  }

  lemma {:induction false} HashFromBlock(mem: seq<bv8>, p: nat, length: nat, s: State)
    requires p + length <= |mem| && length > 12
    ensures HashFrom(s, mem[p..p + length])
         == HashFrom(Mix(AddBlock(s, mem[p..p + length])), mem[p + 12..p + 12 + (length - 12)])
  {
    hide Mix, AddBlock, Final;
    var rest := mem[p..p + length];
    assert rest[12..] == mem[p + 12..p + 12 + (length - 12)];
  }

  lemma NoWord(mem: seq<bv8>, p: nat, length: nat, i: nat, acc: bv32)
    requires p + length <= |mem| && length <= i
    ensures Plus(acc, WordAt(mem[p..p + length], i)) == acc
  {
    hide Little, Plus;
    ZeroAdds(acc);
    ZeroShifts();
  }

  /** Reading word i of the rest of a key with one 32-bit load, masked at the end of the key. */
  lemma ReadAsWord(mem: seq<bv8>, p: nat, length: nat, i: nat)
    requires p + length <= |mem| && i < length && p + i + 4 <= |mem|
    ensures var load, word := Load32(mem, p + i), WordAt(mem[p..p + length], i);
      && (length >= i + 4 ==> load == word)
      && (length == i + 3 ==> Low24(load) == word)
      && (length == i + 2 ==> Low16(load) == word)
      && (length == i + 1 ==> Low8(load) == word)
  {
    hide Little, Low24, Low16, Low8;
    Low24Law(mem[p + i], mem[p + i + 1], mem[p + i + 2], mem[p + i + 3]);
    Low16Law(mem[p + i], mem[p + i + 1], mem[p + i + 2], mem[p + i + 3]);
    Low8Law(mem[p + i], mem[p + i + 1], mem[p + i + 2], mem[p + i + 3]);
  }

  /** Reading it with 16-bit and 8-bit loads. */
  lemma ReadAsHalves(mem: seq<bv8>, p: nat, length: nat, i: nat, acc: bv32)
    requires p + length <= |mem| && i < length
    ensures var word := WordAt(mem[p..p + length], i);
      && (length >= i + 4 ==> Plus(Load16(mem, p + i), High(Load16(mem, p + i + 2))) == word)
      && (length == i + 3 ==> Plus(Plus(acc, Shifted(mem[p + i + 2], 16)), Load16(mem, p + i)) == Plus(acc, word))
      && (length == i + 2 ==> Load16(mem, p + i) == word)
      && (length == i + 1 ==> Load8(mem, p + i) == word)
  {
    hide Little, Join2, High, Plus, Shifted;
    var at := k requires p + i <= k => if k < |mem| then mem[k] else 0;
    TwoHalves(at(p + i), at(p + i + 1), at(p + i + 2), at(p + i + 3));
    OneHalf(at(p + i), at(p + i + 1));
    HalfAndByte(acc, at(p + i), at(p + i + 1), at(p + i + 2));
    OneByte(at(p + i));
  }

  lemma OneByte(w: bv8)
    ensures Shifted(w, 0) == Little(w, 0, 0, 0)
  {
  }

  /** Reading it byte by byte, the last byte first. */
  lemma ReadAsBytes(mem: seq<bv8>, p: nat, length: nat, i: nat, acc: bv32)
    requires p + length <= |mem|
    ensures Plus(acc, WordAt(mem[p..p + length], i)) == AddBytes(mem, p, length, i, acc)
  {
    hide Plus, Shifted, Little;
    var rest := mem[p..p + length];
    ChainDown(acc, ByteAt(rest, i), ByteAt(rest, i + 1), ByteAt(rest, i + 2), ByteAt(rest, i + 3));
    ZeroShifts();
    ZeroAdds(acc);
    ZeroAdds(Plus(acc, Shifted(0, 24)));
  }

  /** The fall-through cases of the byte-wise switch for one accumulator. */
  function AddBytes(mem: seq<bv8>, p: nat, length: nat, i: nat, acc: bv32): bv32
    requires p + length <= |mem|
  {
    var a := if length >= i + 4 then Plus(acc, Shifted(mem[p + i + 3], 24)) else acc;
    var a := if length >= i + 3 then Plus(a, Shifted(mem[p + i + 2], 16)) else a;
    var a := if length >= i + 2 then Plus(a, Shifted(mem[p + i + 1], 8)) else a;
    if length >= i + 1 then Plus(a, Shifted(mem[p + i], 0)) else a
  }

  /** In the block loop the bytes of a word are added first byte first. */
  lemma ReadAsBytesUp(mem: seq<bv8>, p: nat, length: nat, i: nat, acc: bv32)
    requires p + length <= |mem| && i + 4 <= length
    ensures Plus(Plus(Plus(Plus(acc, Shifted(mem[p + i], 0)), Shifted(mem[p + i + 1], 8)),
      Shifted(mem[p + i + 2], 16)), Shifted(mem[p + i + 3], 24))
         == Plus(acc, WordAt(mem[p..p + length], i))
  {
    hide Plus, Shifted, Little;
    ChainUp(acc, mem[p + i], mem[p + i + 1], mem[p + i + 2], mem[p + i + 3]);
  }

  lemma BlockIs(s: State, rest: seq<bv8>, a: bv32, b: bv32, c: bv32)
    requires a == Plus(s.a, WordAt(rest, 0)) && b == Plus(s.b, WordAt(rest, 4)) && c == Plus(s.c, WordAt(rest, 8))
    ensures State(a, b, c) == AddBlock(s, rest)
  {
  }

  lemma HashFromStart(key: seq<bv8>)
    ensures HashOf(key) == if |key| == 0 then Start(0).c else HashFrom(Start(|key|), key)
  {
  }

  lemma HashFromLast(s: State, rest: seq<bv8>)
    requires |rest| <= 12
    ensures HashFrom(s, rest) == Final(AddBlock(s, rest))
  {
  }

  /** The loop for keys at 32-bit aligned addresses.  It may read past the end of the key, up to
      the end of the aligned word. */
  method HashWords(mem: seq<bv8>, ptr: nat, length0: nat) returns (h: bv32)
    requires ptr + length0 <= |mem| && ptr % 4 == 0 && |mem| % 4 == 0
    ensures h == HashOf(mem[ptr..ptr + length0])
  {
    hide *;
    var s := Start(length0);
    var k, length := ptr, length0;
    HashFromStart(mem[ptr..ptr + length0]);
    while length > 12
      invariant k % 4 == 0 && k + length == ptr + length0
      invariant length == 0 <==> length0 == 0
      invariant HashFrom(Start(length0), mem[ptr..ptr + length0]) == HashFrom(s, mem[k..k + length])
      invariant length0 == 0 ==> s == Start(0)
    {
      HashFromBlock(mem, k, length, s);
      ReadAsWord(mem, k, length, 0);
      ReadAsWord(mem, k, length, 4);
      ReadAsWord(mem, k, length, 8);
      var a, b, c := Plus(s.a, Load32(mem, k)), Plus(s.b, Load32(mem, k + 4)), Plus(s.c, Load32(mem, k + 8));
      BlockIs(s, mem[k..k + length], a, b, c);
      s := Mix(State(a, b, c));
      length, k := length - 12, k + 12;
    }
    if length == 0 { return s.c; }
    HashFromLast(s, mem[k..k + length]);
    s := LastWords(mem, k, length, s);
    h := Final(s);
  }

  method LastWords(mem: seq<bv8>, k: nat, length: nat, s: State) returns (t: State)
    requires k + length <= |mem| && 1 <= length <= 12
    requires k + 4 <= |mem| && (length > 4 ==> k + 8 <= |mem|) && (length > 8 ==> k + 12 <= |mem|)
    ensures t == AddBlock(s, mem[k..k + length])
  {
    hide *;
    var (a, b, c) := (s.a, s.b, s.c);
    ReadAsWord(mem, k, length, 0);
    if length > 4 { ReadAsWord(mem, k, length, 4); } else { NoWord(mem, k, length, 4, b); }
    if length > 8 { ReadAsWord(mem, k, length, 8); } else { NoWord(mem, k, length, 8, c); }
    match length {
    case 12 => c, b, a := Plus(c, Load32(mem, k + 8)), Plus(b, Load32(mem, k + 4)), Plus(a, Load32(mem, k));
    case 11 => c, b, a := Plus(c, Low24(Load32(mem, k + 8))), Plus(b, Load32(mem, k + 4)), Plus(a, Load32(mem, k));
    case 10 => c, b, a := Plus(c, Low16(Load32(mem, k + 8))), Plus(b, Load32(mem, k + 4)), Plus(a, Load32(mem, k));
    case 9 => c, b, a := Plus(c, Low8(Load32(mem, k + 8))), Plus(b, Load32(mem, k + 4)), Plus(a, Load32(mem, k));
    case 8 => b, a := Plus(b, Load32(mem, k + 4)), Plus(a, Load32(mem, k));
    case 7 => b, a := Plus(b, Low24(Load32(mem, k + 4))), Plus(a, Load32(mem, k));
    case 6 => b, a := Plus(b, Low16(Load32(mem, k + 4))), Plus(a, Load32(mem, k));
    case 5 => b, a := Plus(b, Low8(Load32(mem, k + 4))), Plus(a, Load32(mem, k));
    case 4 => a := Plus(a, Load32(mem, k));
    case 3 => a := Plus(a, Low24(Load32(mem, k)));
    case 2 => a := Plus(a, Low16(Load32(mem, k)));
    case _ => a := Plus(a, Low8(Load32(mem, k)));
    }
    BlockIs(s, mem[k..k + length], a, b, c);
    t := State(a, b, c);
  }

  /** The loop for keys at 16-bit aligned addresses. */
  method HashHalves(mem: seq<bv8>, ptr: nat, length0: nat) returns (h: bv32)
    requires ptr + length0 <= |mem|
    ensures h == HashOf(mem[ptr..ptr + length0])
  {
    hide *;
    var s := Start(length0);
    var k, length := ptr, length0;
    HashFromStart(mem[ptr..ptr + length0]);
    while length > 12
      invariant k + length == ptr + length0
      invariant length == 0 <==> length0 == 0
      invariant HashFrom(Start(length0), mem[ptr..ptr + length0]) == HashFrom(s, mem[k..k + length])
      invariant length0 == 0 ==> s == Start(0)
    {
      HashFromBlock(mem, k, length, s);
      ReadAsHalves(mem, k, length, 0, s.a);
      ReadAsHalves(mem, k, length, 4, s.b);
      ReadAsHalves(mem, k, length, 8, s.c);
      var a := Plus(s.a, Plus(Load16(mem, k), High(Load16(mem, k + 2))));
      var b := Plus(s.b, Plus(Load16(mem, k + 4), High(Load16(mem, k + 6))));
      var c := Plus(s.c, Plus(Load16(mem, k + 8), High(Load16(mem, k + 10))));
      BlockIs(s, mem[k..k + length], a, b, c);
      s := Mix(State(a, b, c));
      length, k := length - 12, k + 12;
    }
    if length == 0 { return s.c; }
    HashFromLast(s, mem[k..k + length]);
    s := LastHalves(mem, k, length, s);
    h := Final(s);
  }

  method LastHalves(mem: seq<bv8>, k: nat, length: nat, s: State) returns (t: State)
    requires k + length <= |mem| && 1 <= length <= 12
    ensures t == AddBlock(s, mem[k..k + length])
  {
    hide *;
    var (a, b, c) := (s.a, s.b, s.c);
    ReadAsHalves(mem, k, length, 0, a);
    if length > 4 { ReadAsHalves(mem, k, length, 4, b); } else { NoWord(mem, k, length, 4, b); }
    if length > 8 { ReadAsHalves(mem, k, length, 8, c); } else { NoWord(mem, k, length, 8, c); }
    if length == 12 {
      c := Plus(c, Plus(Load16(mem, k + 8), High(Load16(mem, k + 10))));
    } else if length >= 10 {
      if length == 11 { c := Plus(c, Shifted(mem[k + 10], 16)); }
      c := Plus(c, Load16(mem, k + 8));
    } else if length == 9 {
      c := Plus(c, Load8(mem, k + 8));
    }
    if length >= 8 {
      b := Plus(b, Plus(Load16(mem, k + 4), High(Load16(mem, k + 6))));
    } else if length >= 6 {
      if length == 7 { b := Plus(b, Shifted(mem[k + 6], 16)); }
      b := Plus(b, Load16(mem, k + 4));
    } else if length == 5 {
      b := Plus(b, Load8(mem, k + 4));
    }
    if length >= 4 {
      a := Plus(a, Plus(Load16(mem, k), High(Load16(mem, k + 2))));
    } else if length >= 2 {
      if length == 3 { a := Plus(a, Shifted(mem[k + 2], 16)); }
      a := Plus(a, Load16(mem, k));
    } else {
      a := Plus(a, Load8(mem, k));
    }
    BlockIs(s, mem[k..k + length], a, b, c);
    t := State(a, b, c);
  }

  /** The loop for keys at odd addresses. */
  method HashBytes(mem: seq<bv8>, ptr: nat, length0: nat) returns (h: bv32)
    requires ptr + length0 <= |mem|
    ensures h == HashOf(mem[ptr..ptr + length0])
  {
    hide *;
    var s := Start(length0);
    var k, length := ptr, length0;
    HashFromStart(mem[ptr..ptr + length0]);
    while length > 12
      invariant k + length == ptr + length0
      invariant length == 0 <==> length0 == 0
      invariant HashFrom(Start(length0), mem[ptr..ptr + length0]) == HashFrom(s, mem[k..k + length])
      invariant length0 == 0 ==> s == Start(0)
    {
      HashFromBlock(mem, k, length, s);
      var a := AddBytesUp(mem, k, length, 0, s.a);
      var b := AddBytesUp(mem, k, length, 4, s.b);
      var c := AddBytesUp(mem, k, length, 8, s.c);
      BlockIs(s, mem[k..k + length], a, b, c);
      s := Mix(State(a, b, c));
      length, k := length - 12, k + 12;
    }
    if length == 0 { return s.c; }
    HashFromLast(s, mem[k..k + length]);
    s := LastBytes(mem, k, length, s);
    h := Final(s);
  }

  method AddBytesUp(mem: seq<bv8>, k: nat, length: nat, i: nat, acc0: bv32) returns (acc: bv32)
    requires k + length <= |mem| && i + 4 <= length
    ensures acc == Plus(acc0, WordAt(mem[k..k + length], i))
  {
    hide *;
    acc := Plus(acc0, Shifted(mem[k + i], 0));
    acc := Plus(acc, Shifted(mem[k + i + 1], 8));
    acc := Plus(acc, Shifted(mem[k + i + 2], 16));
    acc := Plus(acc, Shifted(mem[k + i + 3], 24));
    ReadAsBytesUp(mem, k, length, i, acc0);
  }

  method LastBytes(mem: seq<bv8>, k: nat, length: nat, s: State) returns (t: State)
    requires k + length <= |mem| && 1 <= length <= 12
    ensures t == AddBlock(s, mem[k..k + length])
  {
    hide Plus, Shifted, WordAt, AddBlock;
    var (a, b, c) := (s.a, s.b, s.c);
    ReadAsBytes(mem, k, length, 0, a);
    ReadAsBytes(mem, k, length, 4, b);
    ReadAsBytes(mem, k, length, 8, c);
    if length >= 12 { c := Plus(c, Shifted(mem[k + 11], 24)); }
    if length >= 11 { c := Plus(c, Shifted(mem[k + 10], 16)); }
    if length >= 10 { c := Plus(c, Shifted(mem[k + 9], 8)); }
    if length >= 9 { c := Plus(c, Shifted(mem[k + 8], 0)); }
    if length >= 8 { b := Plus(b, Shifted(mem[k + 7], 24)); }
    if length >= 7 { b := Plus(b, Shifted(mem[k + 6], 16)); }
    if length >= 6 { b := Plus(b, Shifted(mem[k + 5], 8)); }
    if length >= 5 { b := Plus(b, Shifted(mem[k + 4], 0)); }
    if length >= 4 { a := Plus(a, Shifted(mem[k + 3], 24)); }
    if length >= 3 { a := Plus(a, Shifted(mem[k + 2], 16)); }
    if length >= 2 { a := Plus(a, Shifted(mem[k + 1], 8)); }
    a := Plus(a, Shifted(mem[k], 0));
    BlockIs(s, mem[k..k + length], a, b, c);
    t := State(a, b, c);
  }

  /** The hash of the key at an address: it depends on the key only, not on the address. */
  method Hash(mem: seq<bv8>, ptr: nat, length: nat) returns (h: bv32)
    requires ptr + length <= |mem| && |mem| % 4 == 0
    ensures h == HashOf(mem[ptr..ptr + length])
  {
    if ptr % 4 == 0 {
      h := HashWords(mem, ptr, length);
    } else if ptr % 2 == 0 {
      h := HashHalves(mem, ptr, length);
    } else {
      h := HashBytes(mem, ptr, length);
    }
  }
}
