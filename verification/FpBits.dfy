/** Searching a bitmap word by word for the next set or clear bit.  A word is the sequence of its 64
    bits, the least significant first; shifts and masks appear by what they do to each bit. */
module FpBits {
  const BITS: nat := 64

  type Word = s: seq<bool> | |s| == 64 witness seq(64, _ => false)

  function And(u: Word, v: Word): (w: Word)
    ensures forall i :: 0 <= i < 64 ==> (w[i] <==> u[i] && v[i])
  {
    seq(64, i requires 0 <= i < 64 => u[i] && v[i])
  }

  function Or(u: Word, v: Word): (w: Word)
    ensures forall i :: 0 <= i < 64 ==> (w[i] <==> u[i] || v[i])
  {
    seq(64, i requires 0 <= i < 64 => u[i] || v[i])
  }

  function Not(u: Word): (w: Word)
    ensures forall i :: 0 <= i < 64 ==> (w[i] <==> !u[i])
  {
    seq(64, i requires 0 <= i < 64 => !u[i])
  }

  /** `~0UL << k` */
  function From(k: nat): (w: Word)
    ensures forall i :: 0 <= i < 64 ==> (w[i] <==> k <= i)
  {
    seq(64, i requires 0 <= i < 64 => k <= i)
  }

  /** `~0UL >> (64 - k)` */
  function Below(k: nat): (w: Word)
    ensures forall i :: 0 <= i < 64 ==> (w[i] <==> i < k)
  {
    seq(64, i requires 0 <= i < 64 => i < k)
  }

  predicate IsZero(w: Word) {
    forall i :: 0 <= i < 64 ==> !w[i]
  }

  /** `__ffs`: the least significant set bit. */
  function LowestSet(w: Word): (k: nat)
    requires !IsZero(w)
    ensures k < 64 && w[k] && forall i :: 0 <= i < k ==> !w[i]
  {
    LowestFrom(w, 0)
  }

  function LowestFrom(w: Word, i: nat): (k: nat)
    requires i <= 64 && (forall j :: 0 <= j < i ==> !w[j]) && !IsZero(w)
    ensures k < 64 && w[k] && forall j :: 0 <= j < k ==> !w[j]
    decreases 64 - i
  {
    if w[i] then i else LowestFrom(w, i + 1)
  }

  /** Bit i of a bitmap. */
  function Bit(addr: seq<Word>, i: nat): bool {
    i / 64 < |addr| && addr[i / 64][i % 64]
  }

  /** The first bit from offset on that has the value, or size. */
  ghost predicate IsNext(addr: seq<Word>, size: nat, offset: nat, value: bool, r: nat) {
    && (offset >= size ==> r == size)
    && (offset < size ==> offset <= r <= size && (r < size ==> Bit(addr, r) == value))
    && forall i :: offset <= i < r && i < size ==> Bit(addr, i) != value
  }

  /** No bit of the first words, from offset on, has the value. */
  ghost predicate NoneYet(addr: seq<Word>, offset: nat, value: bool, result: nat) {
    forall i :: offset <= i < result ==> Bit(addr, i) != value
  }

  lemma WordBit(addr: seq<Word>, p: nat, j: nat)
    requires p < |addr| && j < 64
    ensures Bit(addr, 64 * p + j) == addr[p][j]
  {
    assert (64 * p + j) / 64 == p && (64 * p + j) % 64 == j;
  }

  /** The bits of word p up to k, in place. */
  lemma NoneInWord(addr: seq<Word>, offset: nat, value: bool, p: nat, k: nat)
    requires p < |addr| && k <= 64 && NoneYet(addr, offset, value, 64 * p)
    requires forall j :: 0 <= j < k && offset <= 64 * p + j ==> addr[p][j] != value
    ensures NoneYet(addr, offset, value, 64 * p + k)
  {
    forall i | offset <= i < 64 * p + k ensures Bit(addr, i) != value {
      if i >= 64 * p { WordBit(addr, p, i - 64 * p); }
    }
  }

  /** `found_middle`: the set bits of tmp are those of word p with the value, from offset on. */
  method InWord(addr: seq<Word>, size: nat, offset: nat, ghost value: bool, p: nat, tmp: Word) returns (r: nat)
    requires 64 * p + 64 <= size <= 64 * |addr| && offset < size && NoneYet(addr, offset, value, 64 * p)
    requires forall j :: 0 <= j < 64 ==> (tmp[j] <==> addr[p][j] == value && offset <= 64 * p + j)
    requires !IsZero(tmp)
    ensures IsNext(addr, size, offset, value, r)
  {
    var k := LowestSet(tmp);
    r := 64 * p + k;
    NoneInWord(addr, offset, value, p, k) by {
      forall j | 0 <= j < k && offset <= 64 * p + j ensures addr[p][j] != value { assert !tmp[j]; }
    }
    WordBit(addr, p, k);
    assert tmp[k];
  }

  /** `found_first`: the last word, of which size - 64p bits count; tmp is masked accordingly. */
  method InLastWord(addr: seq<Word>, size: nat, offset: nat, ghost value: bool, p: nat, tmp: Word) returns (r: nat)
    requires 64 * p < size < 64 * p + 64 && size <= 64 * |addr| && offset < size && NoneYet(addr, offset, value, 64 * p)
    requires forall j :: 0 <= j < 64 ==> (tmp[j] <==> addr[p][j] == value && offset <= 64 * p + j && j < size - 64 * p)
    ensures IsNext(addr, size, offset, value, r)
  {
    if IsZero(tmp) {
      r := size;
      NoneInWord(addr, offset, value, p, size - 64 * p) by {
        forall j | 0 <= j < size - 64 * p && offset <= 64 * p + j ensures addr[p][j] != value { assert !tmp[j]; }
      }
    } else {
      var k := LowestSet(tmp);
      r := 64 * p + k;
      assert tmp[k];
      NoneInWord(addr, offset, value, p, k) by {
        forall j | 0 <= j < k && offset <= 64 * p + j ensures addr[p][j] != value { assert !tmp[j]; }
      }
      WordBit(addr, p, k);
    }
  }

  method FindNextBit(addr: seq<Word>, size0: nat, offset0: nat) returns (r: nat)
    requires size0 <= 64 * |addr|
    ensures IsNext(addr, size0, offset0, true, r)
  {
    if offset0 >= size0 { return size0; }
    var p, result := offset0 / 64, 64 * (offset0 / 64);
    var size, offset := size0 - result, offset0 % 64;
    var tmp: Word;
    if offset != 0 {
      tmp := And(addr[p], From(offset));
      if size < 64 {
        r := InLastWord(addr, size0, offset0, true, p, And(tmp, Below(size)));
        return;
      }
      if !IsZero(tmp) {
        r := InWord(addr, size0, offset0, true, p, tmp);
        return;
      }
      NoneInWord(addr, offset0, true, p, 64) by {
        forall j | 0 <= j < 64 && offset0 <= 64 * p + j ensures !addr[p][j] { assert !tmp[j]; }
      }
      p, size, result := p + 1, size - 64, result + 64;
    }
    while size >= 64
      invariant result == 64 * p <= size0 && size == size0 - result
      invariant NoneYet(addr, offset0, true, result) && offset0 <= result
    {
      tmp := addr[p];
      if !IsZero(tmp) {
        r := InWord(addr, size0, offset0, true, p, tmp);
        return;
      }
      NoneInWord(addr, offset0, true, p, 64);
      result, size, p := result + 64, size - 64, p + 1;
    }
    if size == 0 { return result; }
    r := InLastWord(addr, size0, offset0, true, p, And(addr[p], Below(size)));
  }

  method FindNextZeroBit(addr: seq<Word>, size0: nat, offset0: nat) returns (r: nat)
    requires size0 <= 64 * |addr|
    ensures IsNext(addr, size0, offset0, false, r)
  {
    if offset0 >= size0 { return size0; }
    var p, result := offset0 / 64, 64 * (offset0 / 64);
    var size, offset := size0 - result, offset0 % 64;
    var tmp: Word;
    if offset != 0 {
      tmp := Or(addr[p], Below(offset));
      if size < 64 {
        r := InLastWord(addr, size0, offset0, false, p, Not(Or(tmp, From(size))));
        return;
      }
      if !IsZero(Not(tmp)) {
        r := InWord(addr, size0, offset0, false, p, Not(tmp));
        return;
      }
      NoneInWord(addr, offset0, false, p, 64) by {
        forall j | 0 <= j < 64 && offset0 <= 64 * p + j ensures addr[p][j] { assert !Not(tmp)[j]; }
      }
      p, size, result := p + 1, size - 64, result + 64;
    }
    while size >= 64
      invariant result == 64 * p <= size0 && size == size0 - result
      invariant NoneYet(addr, offset0, false, result) && offset0 <= result
    {
      tmp := addr[p];
      if !IsZero(Not(tmp)) {
        r := InWord(addr, size0, offset0, false, p, Not(tmp));
        return;
      }
      NoneInWord(addr, offset0, false, p, 64) by {
        forall j | 0 <= j < 64 ensures addr[p][j] { assert !Not(tmp)[j]; }
      }
      result, size, p := result + 64, size - 64, p + 1;
    }
    if size == 0 { return result; }
    r := InLastWord(addr, size0, offset0, false, p, Not(Or(addr[p], From(size))));
  }
}
