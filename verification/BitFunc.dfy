/**
  bitfunc.c: tests of a bit range on packed bytes, with byte masks at both ends
  and word-sized reads in the middle.
 */
module BitFunc {
  import opened Bits
  import opened Kernel

  function Flags(b: bv8): (s: Octet) {
    [b & 0x01 != 0, b & 0x02 != 0, b & 0x04 != 0, b & 0x08 != 0,
     b & 0x10 != 0, b & 0x20 != 0, b & 0x40 != 0, b & 0x80 != 0]
  }

  function And(a: Octet, b: Octet): Octet {
    seq(8, k requires 0 <= k < 8 => a[k] && b[k])
  }

  /** Eight bits `v`: 0x00 or 0xFF. */
  function Full(v: bool): Octet {
    seq(8, _ => v)
  }

  // fill_mask[i]: the first i bits are ones; zero_mask[i]: the first i bits are zeroes
  const FILL_MASK: seq<Octet> := [Flags(0x00), Flags(0x01), Flags(0x03), Flags(0x07), Flags(0x0F),
                                 Flags(0x1F), Flags(0x3F), Flags(0x7F), Flags(0xFF)]
  const ZERO_MASK: seq<Octet> := [Flags(0xFF), Flags(0xFE), Flags(0xFC), Flags(0xF8), Flags(0xF0),
                                 Flags(0xE0), Flags(0xC0), Flags(0x80), Flags(0x00)]

  /** The two mask tables hold what their comments say. */
  lemma Masks(p: nat)
    requires p <= 8
    ensures forall k :: 0 <= k < 8 ==> (FILL_MASK[p][k] <==> k < p) && (ZERO_MASK[p][k] <==> p <= k)
  {
  }

  // ----- memory

  /** The bytes that may be read, by address. A read of any other byte has no meaning. */
  type Store = map<nat, Octet>

  ghost predicate Has(mem: Store, lo: nat, hi: nat) {
    forall m :: lo <= m < hi ==> m in mem
  }

  /** The first byte past those that hold the bits before `bit`. */
  function BytesFor(bit: nat): nat { (bit + 7) / 8 }

  /** Every bit of [lo, hi) is `v`. */
  ghost predicate AllBits(mem: Store, lo: nat, hi: nat, v: bool) {
    forall i: nat :: lo <= i < hi ==> BitIs(mem, i, v)
  }

  ghost predicate BitIs(mem: Store, i: nat, v: bool) {
    i / 8 in mem && mem[i / 8][i % 8] == v
  }

  ghost predicate AllBytes(mem: Store, lo: nat, hi: nat, v: bool) {
    forall m :: lo <= m < hi ==> m in mem && mem[m] == Full(v)
  }

  lemma JoinBits(mem: Store, lo: nat, mid: nat, hi: nat, v: bool)
    requires lo <= mid <= hi
    ensures AllBits(mem, lo, hi, v) <==> AllBits(mem, lo, mid, v) && AllBits(mem, mid, hi, v)
  {
  }

  /** Bits [lo, hi) of byte `m`, read as positions in memory. */
  lemma BitsOfByte(mem: Store, m: nat, lo: nat, hi: nat, v: bool)
    requires m in mem && lo <= hi <= 8
    ensures AllBits(mem, 8 * m + lo, 8 * m + hi, v) <==> forall k :: lo <= k < hi ==> mem[m][k] == v
  {
    if AllBits(mem, 8 * m + lo, 8 * m + hi, v) {
      forall k | lo <= k < hi
        ensures mem[m][k] == v
      {
        assert BitIs(mem, 8 * m + k, v);
      }
    }
  }

  /** What a test of byte `m` under a mask of ones on [lo, hi) says about memory. */
  lemma MaskedBits(mem: Store, m: nat, mask: Octet, lo: nat, hi: nat)
    requires m in mem && lo <= hi <= 8
    requires forall k :: 0 <= k < 8 ==> (mask[k] <==> lo <= k < hi)
    ensures And(mem[m], mask) == Full(false) <==> AllBits(mem, 8 * m + lo, 8 * m + hi, false)
    ensures And(mem[m], mask) == mask <==> AllBits(mem, 8 * m + lo, 8 * m + hi, true)
  {
    BitsOfByte(mem, m, lo, hi, false);
    BitsOfByte(mem, m, lo, hi, true);
    var kept := And(mem[m], mask);
    assert forall k :: 0 <= k < 8 ==> kept[k] == (mem[m][k] && mask[k]);
  }

  /** A range within byte `m`: both masks at once. */
  lemma WithinByte(mem: Store, m: nat, lo: nat, hi: nat)
    requires m in mem && lo <= hi <= 8
    ensures And(And(mem[m], FILL_MASK[hi]), ZERO_MASK[lo]) == Full(false) <==>
              AllBits(mem, 8 * m + lo, 8 * m + hi, false)
    ensures var mask := And(FILL_MASK[hi], ZERO_MASK[lo]);
            And(mem[m], mask) == mask <==> AllBits(mem, 8 * m + lo, 8 * m + hi, true)
  {
    Masks(lo);
    Masks(hi);
    var mask := And(FILL_MASK[hi], ZERO_MASK[lo]);
    MaskedBits(mem, m, mask, lo, hi);
    assert And(And(mem[m], FILL_MASK[hi]), ZERO_MASK[lo]) == And(mem[m], mask);
  }

  lemma {:induction false} BytesOfBits(mem: Store, lo: nat, hi: nat, v: bool)
    requires lo <= hi && Has(mem, lo, hi)
    ensures AllBits(mem, 8 * lo, 8 * hi, v) <==> AllBytes(mem, lo, hi, v)
    decreases hi - lo
  {
    if lo < hi {
      BytesOfBits(mem, lo + 1, hi, v);
      BitsOfByte(mem, lo, 0, 8, v);
      JoinBits(mem, 8 * lo, 8 * lo + 8, 8 * hi, v);
    }
  }

  /** The last, partial byte of a range that starts on a byte boundary. */
  ghost predicate TailIs(mem: Store, m: nat, n: nat, v: bool)
    requires n < 8 && (n != 0 ==> m in mem)
  {
    n != 0 ==> And(mem[m], FILL_MASK[n]) == if v then FILL_MASK[n] else Full(false)
  }

  lemma BytesAndTail(mem: Store, m: nat, n: nat, v: bool)
    requires Has(mem, m, m + BytesFor(n))
    ensures n % 8 != 0 ==> m + n / 8 in mem
    ensures AllBits(mem, 8 * m, 8 * m + n, v) <==>
            AllBytes(mem, m, m + n / 8, v) && TailIs(mem, m + n / 8, n % 8, v)
  {
    var mid := m + n / 8;
    JoinBits(mem, 8 * m, 8 * mid, 8 * m + n, v);
    BytesOfBits(mem, m, mid, v);
    if n % 8 != 0 {
      Masks(n % 8);
      MaskedBits(mem, mid, FILL_MASK[n % 8], 0, n % 8);
    }
  }

  // ----- the loops

  /** A byte loop of the scan: `n` bytes from `at` are all `v`. */
  method BytesAre(mem: Store, at: nat, n: nat, v: bool) returns (r: bool)
    requires Has(mem, at, at + n)
    ensures r <==> AllBytes(mem, at, at + n, v)
  {
    var pos: nat := n;
    while pos != 0
      invariant pos <= n && AllBytes(mem, at, at + n - pos, v)
    {
      if mem[at + n - pos] != Full(v) {
        return false;
      }
      pos := pos - 1;
    }
    return true;
  }

  /** The word at `m`: its bytes are read at once. */
  function Word(mem: Store, size: nat, m: nat): seq<Octet>
    requires Has(mem, m, m + size)
  {
    seq(size, k requires 0 <= k < size => mem[m + k])
  }

  lemma WordAllAre(mem: Store, size: nat, m: nat, v: bool)
    requires Has(mem, m, m + size)
    ensures Word(mem, size, m) == seq(size, _ => Full(v)) <==> AllBytes(mem, m, m + size, v)
  {
    var w := Word(mem, size, m);
    if w == seq(size, _ => Full(v)) {
      forall k | m <= k < m + size
        ensures mem[k] == Full(v)
      {
        assert w[k - m] == mem[k];
      }
    }
  }

  /** The word loop: `words` words of `size` bytes, `n` bytes in all, from `at`. */
  method WordsAre(mem: Store, size: nat, at: nat, words: nat, n: nat, v: bool) returns (r: bool)
    requires size == 4 || size == 8
    requires n == size * words && Has(mem, at, at + n)
    ensures r <==> AllBytes(mem, at, at + n, v)
  {
    var pos: nat, m: nat := words, at;
    while pos != 0
      invariant at <= m && m + size * pos == at + n && AllBytes(mem, at, m, v)
      decreases pos
    {
      WordAllAre(mem, size, m, v);
      JoinBytes(mem, at, m, m + size, v);
      JoinBytes(mem, at, m + size, at + n, v);
      if Word(mem, size, m) != seq(size, _ => Full(v)) {
        return false;
      }
      pos, m := pos - 1, m + size;
    }
    return true;
  }

  lemma JoinBytes(mem: Store, lo: nat, mid: nat, hi: nat, v: bool)
    requires lo <= mid <= hi
    ensures AllBytes(mem, lo, hi, v) <==> AllBytes(mem, lo, mid, v) && AllBytes(mem, mid, hi, v)
  {
  }

  /** nbits / BITS_IN_SIZE_T and (nbits % BITS_IN_SIZE_T) >> 3. */
  function Words(size: nat, n: nat): nat
    requires size == 4 || size == 8
  {
    if size == 4 then n / 32 else n / 64
  }

  function RestBytes(size: nat, n: nat): nat
    requires size == 4 || size == 8
  {
    if size == 4 then n % 32 / 8 else n % 64 / 8
  }

  lemma WordsThenBytes(size: nat, n: nat)
    requires size == 4 || size == 8
    ensures 0 <= size * Words(size, n) && size * Words(size, n) + RestBytes(size, n) == n / 8
    ensures BytesFor(n) == n / 8 + if n % 8 == 0 then 0 else 1
  {
  }

  /** From a word boundary on: words, bytes, a masked byte. */
  method FromWord(mem: Store, size: nat, at: nat, nbits: nat, v: bool) returns (r: bool)
    requires (size == 4 || size == 8) && Has(mem, at, at + BytesFor(nbits))
    ensures nbits % 8 != 0 ==> at + nbits / 8 in mem
    ensures r <==> AllBytes(mem, at, at + nbits / 8, v) && TailIs(mem, at + nbits / 8, nbits % 8, v)
  {
    hide Words, RestBytes, BytesFor, AllBytes;
    WordsThenBytes(size, nbits);
    var words, rest, pos := Words(size, nbits), RestBytes(size, nbits), nbits % 8;
    var n: nat := size * words;
    var mid, end := at + n, at + n + rest;
    JoinBytes(mem, at, mid, end, v);
    r := WordsAre(mem, size, at, words, n, v);
    if r {
      r := BytesAre(mem, mid, rest, v);
    }
    if r && pos != 0 {
      r := And(mem[end], FILL_MASK[pos]) == if v then FILL_MASK[pos] else Full(false);
    }
  }

  /** From a byte boundary on: bytes up to a word boundary if the range reaches it, then the rest. */
  method FromByte(mem: Store, size: nat, at: nat, nbits: nat, v: bool) returns (r: bool)
    requires (size == 4 || size == 8) && Has(mem, at, at + BytesFor(nbits))
    ensures r <==> AllBits(mem, 8 * at, 8 * at + nbits, v)
  {
    var pos: nat := at % size;
    if pos != 0 {
      pos := size - pos;
    }
    BytesAndTail(mem, at, nbits, v);
    if pos != 0 && nbits >= pos * 8 {
      var left, mid := nbits - pos * 8, at + pos;
      assert mid + left / 8 == at + nbits / 8 && left % 8 == nbits % 8;
      JoinBytes(mem, at, mid, mid + left / 8, v);
      r := BytesAre(mem, at, pos, v);
      if r {
        r := FromWord(mem, size, mid, left, v);
      }
    } else {
      r := FromWord(mem, size, at, nbits, v);
    }
  }

  /**
    are_bits_clear for the bits [bit, bit + nbits) of memory, `size` being sizeof(size_t). Only the
    bytes that hold these bits need to be readable.
   */
  method AreBitsClear(mem: Store, size: nat, bit: nat, nbits: nat) returns (r: bool)
    requires (size == 4 || size == 8) && Has(mem, bit / 8, BytesFor(bit + nbits))
    ensures r <==> AllBits(mem, bit, bit + nbits, false)
  {
    var pos: nat, at: nat := bit % 8, bit / 8;
    if pos == 0 {
      r := FromByte(mem, size, at, nbits, false);
    } else if 8 - pos >= nbits {
      if nbits == 0 {
        return true;
      }
      WithinByte(mem, at, pos, pos + nbits);
      return And(And(mem[at], FILL_MASK[pos + nbits]), ZERO_MASK[pos]) == Full(false);
    } else {
      Masks(pos);
      MaskedBits(mem, at, ZERO_MASK[pos], pos, 8);
      JoinBits(mem, bit, 8 * at + 8, bit + nbits, false);
      if And(mem[at], ZERO_MASK[pos]) != Full(false) {
        return false;
      }
      r := FromByte(mem, size, at + 1, nbits - (8 - pos), false);
    }
  }

  /** are_bits_set, likewise. */
  method AreBitsSet(mem: Store, size: nat, bit: nat, nbits: nat) returns (r: bool)
    requires (size == 4 || size == 8) && Has(mem, bit / 8, BytesFor(bit + nbits))
    ensures r <==> AllBits(mem, bit, bit + nbits, true)
  {
    var pos: nat, at: nat := bit % 8, bit / 8;
    if pos == 0 {
      r := FromByte(mem, size, at, nbits, true);
    } else if 8 - pos >= nbits {
      if nbits == 0 {
        return true;
      }
      var mask := And(FILL_MASK[pos + nbits], ZERO_MASK[pos]);
      WithinByte(mem, at, pos, pos + nbits);
      return And(mem[at], mask) == mask;
    } else {
      var mask := ZERO_MASK[pos];
      Masks(pos);
      MaskedBits(mem, at, mask, pos, 8);
      JoinBits(mem, bit, 8 * at + 8, bit + nbits, true);
      if And(mem[at], mask) != mask {
        return false;
      }
      r := FromByte(mem, size, at + 1, nbits - (8 - pos), true);
    }
  }

  // ----- blocks of a bitmap

  /** From address `addr` on, `mem` holds the `w` flags of `s` from `lo` on, packed, and nothing else. */
  ghost predicate Packs(mem: Store, addr: nat, s: seq<bool>, lo: nat, w: nat)
    requires lo + w <= |s|
  {
    && (forall m :: addr <= m < addr + w / 8 <==> m in mem)
    && forall i :: 0 <= i < w ==> FlagAt(mem, addr, s, lo, i)
  }

  ghost predicate FlagAt(mem: Store, addr: nat, s: seq<bool>, lo: nat, i: nat)
    requires lo + i < |s|
  {
    BitIs(mem, 8 * addr + i, s[lo + i])
  }

  /** The byte at address `m` of that block. */
  function BlockByte(s: seq<bool>, lo: nat, addr: nat, m: nat): Octet
    requires addr <= m && lo + 8 * (m - addr) + 8 <= |s|
  {
    s[lo + 8 * (m - addr)..lo + 8 * (m - addr) + 8]
  }

  /** A block of the bitmap in memory, wherever the buffer lies. */
  method ReadBlock(s: seq<bool>, lo: nat, w: nat, addr: nat) returns (mem: Store)
    requires lo + w <= |s| && w % 8 == 0
    ensures Packs(mem, addr, s, lo, w)
  {
    mem := map m: nat | addr <= m < addr + w / 8 :: BlockByte(s, lo, addr, m);
    forall i | 0 <= i < w
      ensures FlagAt(mem, addr, s, lo, i)
    {
      var m := addr + i / 8;
      assert (8 * addr + i) / 8 == m && (8 * addr + i) % 8 == i % 8;
      assert mem[m] == BlockByte(s, lo, addr, m);
    }
  }

  /** A test on a packed block is a test on the bitmap. */
  lemma PackedBits(mem: Store, addr: nat, s: seq<bool>, lo: nat, w: nat, from: nat, to: nat, v: bool)
    requires lo + w <= |s| && w % 8 == 0 && Packs(mem, addr, s, lo, w) && from <= to <= w
    ensures Has(mem, (8 * addr + from) / 8, BytesFor(8 * addr + to))
    ensures AllBits(mem, 8 * addr + from, 8 * addr + to, v) <==> AllAre(s, lo + from, lo + to, v)
  {
    if AllBits(mem, 8 * addr + from, 8 * addr + to, v) {
      forall i | lo + from <= i < lo + to
        ensures s[i] == v
      {
        assert FlagAt(mem, addr, s, lo, i - lo);
        assert BitIs(mem, 8 * addr + (i - lo), v);
      }
    }
    if AllAre(s, lo + from, lo + to, v) {
      forall i: nat | 8 * addr + from <= i < 8 * addr + to
        ensures BitIs(mem, i, v)
      {
        assert FlagAt(mem, addr, s, lo, i - 8 * addr);
      }
    }
  }
}
