/**
 * Megablock address arithmetic (rts/storage/Block.h, 64-bit words): a megablock of 2^20 bytes
 * starts with the descriptors of its 256 blocks of 2^12 bytes, and the data blocks follow.
 */
module Megablock {
  import opened Bits

  const BLOCK_SIZE := 0x1000
  const BLOCK_MASK := 0xFFF
  const MBLOCK_SIZE := 0x10_0000
  const MBLOCK_MASK := 0xF_FFFF
  const BLOCK_SHIFT := 12
  const BDESCR_SHIFT := 6
  const BDESCR_SIZE := 0x40
  const WORDS := 0x1_0000_0000_0000_0000

  /** `BLOCK_ROUND_UP(BDESCR_SIZE * (MBLOCK_SIZE / BLOCK_SIZE))` */
  const FIRST_BLOCK_OFF := 0x4000

  const BLOCKS_PER_MBLOCK := 252

  // The same sizes in words of eight bytes.
  const BLOCK_SIZE_W := 512
  const MBLOCK_SIZE_W := 0x2_0000
  const FIRST_BLOCK_W := 2048

  /** The configured sizes, and how the other constants follow from them. */
  lemma Constants()
    ensures BLOCK_SIZE == 4096 && MBLOCK_SIZE == 1048576 && BDESCR_SIZE == 64 && BDESCR_SHIFT == 6
    ensures BLOCK_MASK == BLOCK_SIZE - 1 && MBLOCK_MASK == MBLOCK_SIZE - 1
    ensures BLOCK_SIZE == Pow2(BLOCK_SHIFT) && MBLOCK_SIZE == Pow2(20) && BDESCR_SIZE == Pow2(BDESCR_SHIFT)
    ensures var descriptors := BDESCR_SIZE * (MBLOCK_SIZE / BLOCK_SIZE);
      descriptors <= FIRST_BLOCK_OFF < descriptors + BLOCK_SIZE
    ensures FIRST_BLOCK_OFF % BLOCK_SIZE == 0 && BLOCKS_PER_MBLOCK == (MBLOCK_SIZE - FIRST_BLOCK_OFF) / BLOCK_SIZE
    ensures BLOCK_SIZE_W == BLOCK_SIZE / 8 && MBLOCK_SIZE_W == MBLOCK_SIZE / 8 && FIRST_BLOCK_W == FIRST_BLOCK_OFF / 8
  {
    Pow2Small();
  }

  // ---------------------------------------------------------------------------
  // Addresses
  // ---------------------------------------------------------------------------

  /** The megablock an address is in, and the number of its block there. */
  function Base(p: Word64): nat {
    p - p % MBLOCK_SIZE
  }

  function Index(p: Word64): nat {
    p % MBLOCK_SIZE / BLOCK_SIZE
  }

  predicate IsData(p: Word64) {
    p % MBLOCK_SIZE >= FIRST_BLOCK_OFF
  }

  /** `Bdescr`: the C function. */
  function Bdescr(p: Word64): nat {
    Or(Shr(And(And(p, MBLOCK_MASK), Not64(BLOCK_MASK)), BLOCK_SHIFT - BDESCR_SHIFT), And(p, Not64(MBLOCK_MASK)))
  }

  /** `Bdescr`: the macro the Cmm sources see. */
  function CmmBdescr(p: Word64): nat {
    (And(p, Not64(MBLOCK_MASK)) + Shr(FIRST_BLOCK_OFF, BLOCK_SHIFT - BDESCR_SHIFT)) % WORDS
  }

  /** `~x` in a 64-bit word. */
  function Not64(x: Word64): Word64 {
    WORDS - 1 - x
  }

  lemma ClearLow(x: Word64, k: nat, p: nat)
    requires k <= 64 && p == Pow2(k) <= WORDS
    ensures And(x, Not64(p - 1)) == x - x % p
  {
    hide And, Pow2;
    Pow2Large();
    AndHighMask(x, k, 64);
  }

  /** The masks and shifts compute descriptor `Index(p)` of the megablock of `p`. */
  lemma BdescrIs(p: Word64)
    ensures Bdescr(p) == Base(p) + BDESCR_SIZE * Index(p)
  {
    hide And, Or, Shr, Pow2;
    Pow2Small();
    AndLowMask(p, 20, MBLOCK_SIZE);
    var offset := p % MBLOCK_SIZE;
    ClearLow(offset, 12, BLOCK_SIZE);
    ClearLow(p, 20, MBLOCK_SIZE);
    ShrIsDiv(offset - offset % BLOCK_SIZE, 6, 64);
    var low := BDESCR_SIZE * Index(p);
    assert (offset - offset % BLOCK_SIZE) / 64 == low;
    assert Base(p) == MBLOCK_SIZE * (p / MBLOCK_SIZE);
    OrDisjoint(20, MBLOCK_SIZE, low, p / MBLOCK_SIZE);
  }

  /** One descriptor for each block: shared within it, and with no other. */
  lemma BdescrPerBlock(p: Word64, q: Word64)
    ensures Bdescr(p) == Bdescr(q) <==> p / BLOCK_SIZE == q / BLOCK_SIZE
  {
    hide Bdescr;
    BdescrIs(p);
    BdescrIs(q);
    BlockNumber(p);
    BlockNumber(q);
  }

  lemma BlockNumber(p: Word64)
    ensures p / BLOCK_SIZE == 256 * (p / MBLOCK_SIZE) + Index(p) && Index(p) < 256
    ensures Base(p) == MBLOCK_SIZE * (p / MBLOCK_SIZE)
  {
  }

  /** The descriptors of data blocks lie in the descriptor area, between FIRST_BDESCR and LAST_BDESCR and
      clear of all data; an address of no data block has a descriptor no data block uses. */
  lemma BdescrOfData(p: Word64)
    ensures IsData(p) <==> Base(p) + FIRST_BLOCK_OFF / 64 <= Bdescr(p)
    ensures Bdescr(p) + BDESCR_SIZE <= Base(p) + FIRST_BLOCK_OFF
    ensures Bdescr(p) <= Base(p) + (MBLOCK_SIZE - BLOCK_SIZE) / 64
    ensures !IsData(Bdescr(p))
  {
    hide Bdescr;
    BdescrIs(p);
    BlockNumber(p);
    ModUnique(Bdescr(p), MBLOCK_SIZE, p / MBLOCK_SIZE, BDESCR_SIZE * Index(p));
  }

  /** The Cmm macro finds the descriptor of the first data block, whatever block the address is in. */
  lemma CmmBdescrAgrees(p: Word64)
    ensures CmmBdescr(p) == Bdescr(p) <==> Index(p) == FIRST_BLOCK_OFF / BLOCK_SIZE
  {
    hide Bdescr, And, Shr, Pow2;
    BdescrIs(p);
    BlockNumber(p);
    Pow2Small();
    ClearLow(p, 20, MBLOCK_SIZE);
    ShrIsDiv(FIRST_BLOCK_OFF, 6, 64);
  }

  // ---------------------------------------------------------------------------
  // Group sizes
  // ---------------------------------------------------------------------------

  /** `MBLOCK_GROUP_BLOCKS`: only the first of `k` adjacent megablocks gives up blocks to descriptors; each has 256. */
  function GroupBlocks(k: nat): nat
    requires k >= 1
  {
    BLOCKS_PER_MBLOCK + (k - 1) * 256
  }

  /** `BLOCKS_TO_MBLOCKS`, in unsigned words that wrap. */
  function BlocksToMblocks(n: Word64): nat {
    1 + And((ExtraBytes(n) + MBLOCK_SIZE - 1) % WORDS, Not64(MBLOCK_MASK)) / MBLOCK_SIZE
  }

  /** `(n - BLOCKS_PER_MBLOCK) * BLOCK_SIZE` */
  function ExtraBytes(n: Word64): Word64 {
    (n + WORDS - BLOCKS_PER_MBLOCK) % WORDS * BLOCK_SIZE % WORDS
  }

  ghost predicate LeastGroup(n: nat, k: nat) {
    k >= 1 && GroupBlocks(k) >= n && forall j | 1 <= j < k :: GroupBlocks(j) < n
  }

  /** The least group that holds `n` blocks, exactly as long as its size in bytes fits; below 252 the wraps cancel. */
  lemma BlocksToMblocksIsLeast(n: Word64)
    ensures LeastGroup(n, BlocksToMblocks(n)) <==> n <= 0x10_0000_0000_0000 - 4
  {
    hide And;
    var up := (ExtraBytes(n) + MBLOCK_SIZE - 1) % WORDS;
    ClearLow(up, 20, MBLOCK_SIZE) by { Pow2Small(); }
    WholeUnits(up);
    assert BlocksToMblocks(n) == 1 + up / MBLOCK_SIZE <= 0x1000_0000_0000;
    if n < BLOCKS_PER_MBLOCK {
      WrapBelow(n);
    } else if n <= 0x10_0000_0000_0000 - 4 {
      NoWrap(n);
    }
  }

  lemma WholeUnits(x: nat)
    ensures (x - x % MBLOCK_SIZE) / MBLOCK_SIZE == x / MBLOCK_SIZE
  {
  }

  lemma WrapBelow(n: Word64)
    requires n < BLOCKS_PER_MBLOCK
    ensures (ExtraBytes(n) + MBLOCK_SIZE - 1) % WORDS < MBLOCK_SIZE
  {
    var extra := WORDS + (n - BLOCKS_PER_MBLOCK) * BLOCK_SIZE;
    ModUnique((n + WORDS - BLOCKS_PER_MBLOCK) % WORDS * BLOCK_SIZE, WORDS, BLOCK_SIZE - 1, extra);
    ModUnique(extra + MBLOCK_SIZE - 1, WORDS, 1, extra + MBLOCK_SIZE - 1 - WORDS);
  }

  lemma NoWrap(n: Word64)
    requires BLOCKS_PER_MBLOCK <= n <= 0x10_0000_0000_0000 - 4
    ensures (ExtraBytes(n) + MBLOCK_SIZE - 1) % WORDS == (n - BLOCKS_PER_MBLOCK) * BLOCK_SIZE + MBLOCK_SIZE - 1
  {
    ModUnique(n + WORDS - BLOCKS_PER_MBLOCK, WORDS, 1, n - BLOCKS_PER_MBLOCK);
  }

  // ---------------------------------------------------------------------------
  // Rounding to a group
  // ---------------------------------------------------------------------------

  /** The words a group of `k` megablocks holds. */
  function GroupWords(k: nat): nat
    requires k >= 1
  {
    GroupBlocks(k) * BLOCK_SIZE_W
  }

  /** The nearest group size, the larger of two equally near; what fits one megablock is left alone. */
  ghost predicate Rounded(words: nat, r: nat) {
    if words <= GroupWords(1) then r == words
    else exists k: nat :: IsGroup(k, r) && -0x1_0000 <= words - r < 0x1_0000
  }

  predicate IsGroup(k: nat, r: nat) {
    k >= 1 && r == GroupWords(k)
  }

  lemma GroupIs(k: nat)
    requires k >= 1
    ensures GroupWords(k) == k * MBLOCK_SIZE_W - FIRST_BLOCK_W
  {
  }

  /** There is one such size; it grows with the request, and rounding it again changes nothing. */
  lemma RoundedIsUnique(words: nat, r: nat, r': nat)
    requires Rounded(words, r) && Rounded(words, r')
    ensures r == r'
  {
    RoundedIsMonotone(words, r, words, r');
    RoundedIsMonotone(words, r', words, r);
  }

  lemma RoundedIsMonotone(words: nat, r: nat, words': nat, r': nat)
    requires Rounded(words, r) && Rounded(words', r') && words <= words'
    ensures r <= r'
  {
    if words > GroupWords(1) {
      var k: nat :| IsGroup(k, r) && -0x1_0000 <= words - r < 0x1_0000;
      var k': nat :| IsGroup(k', r') && -0x1_0000 <= words' - r' < 0x1_0000;
      GroupIs(k);
      GroupIs(k');
    } else if words' > GroupWords(1) {
      var k': nat :| IsGroup(k', r');
      GroupIs(k');
    }
  }

  lemma RoundedIsIdempotent(words: nat, r: nat)
    requires Rounded(words, r)
    ensures Rounded(r, r)
  {
  }

  /** `round_to_mblocks`: also where the sum or the result passes 2^64, the words wrap back. */
  method RoundToMblocks(request: Word64) returns (words: Word64)
    ensures Rounded(request, words)
  {
    words := request;
    if words > BLOCKS_PER_MBLOCK * BLOCK_SIZE_W {
      words := (words + FIRST_BLOCK_W) % WORDS;
      assert words == request + FIRST_BLOCK_W - (if request + FIRST_BLOCK_W < WORDS then 0 else WORDS);
      if words % MBLOCK_SIZE_W < MBLOCK_SIZE_W / 2 {
        words := words / MBLOCK_SIZE_W * MBLOCK_SIZE_W;
      } else {
        words := (words / MBLOCK_SIZE_W + 1) * MBLOCK_SIZE_W % WORDS;
      }
      words := (words + WORDS - FIRST_BLOCK_W) % WORDS;
      ghost var k := NearestGroup(request);
      GroupIs(k);
      assert IsGroup(k, words);
    }
  }

  lemma NearestGroup(request: Word64) returns (k: nat)
    requires request > BLOCKS_PER_MBLOCK * BLOCK_SIZE_W
    ensures k == (request + FIRST_BLOCK_W + MBLOCK_SIZE_W / 2) / MBLOCK_SIZE_W
    ensures 1 <= k <= WORDS / MBLOCK_SIZE_W
  {
    k := (request + FIRST_BLOCK_W + MBLOCK_SIZE_W / 2) / MBLOCK_SIZE_W;
  }
}
