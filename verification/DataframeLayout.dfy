/**
 The column layout of a dataframe: what `allocate_data` builds, block by block, and
 what `attr_offset::evaluate` looks up must be the same places. Offsets are in
 4-byte words; the row capacity is 2^log2Rows.
 */
module DataframeLayout {
  import opened Bits
  import opened ColumnBits

  const BLOCK_WIDTH: nat := 32

  function BlockCount(columns: nat): nat {
    (columns + BLOCK_WIDTH - 1) / BLOCK_WIDTH
  }

  /** The 8-byte flags of the columns of block `b`. */
  function BlockBits(wide: seq<bool>, b: nat): (bits: seq<bool>)
    requires b < BlockCount(|wide|)
    ensures 0 < |bits| <= BLOCK_WIDTH && |bits| == Min(|wide| - b * BLOCK_WIDTH, BLOCK_WIDTH)
    ensures forall i {:trigger bits[i]} | 0 <= i < |bits| ::
      b * BLOCK_WIDTH + i < |wide| && bits[i] == wide[b * BLOCK_WIDTH + i]
  {
    wide[b * BLOCK_WIDTH..b * BLOCK_WIDTH + Min(|wide| - b * BLOCK_WIDTH, BLOCK_WIDTH)]
  }

  function Min(a: int, b: int): int {
    if a < b then a else b
  }

  /** Words taken by the columns of a block. */
  function BlockWords(bits: seq<bool>, log2Rows: nat): nat {
    ShlGrows(|bits| + Count(bits), log2Rows);
    Shl(|bits| + Count(bits), log2Rows)
  }

  /** The first free word after the header and blocks 0 .. b - 1. */
  function EndOf(wide: seq<bool>, log2Rows: nat, b: nat): (sz: nat)
    requires b <= BlockCount(|wide|)
    decreases b, 0
  {
    if b == 0 then 2 * BlockCount(|wide|)
    else StartOf(wide, log2Rows, b - 1) + BlockWords(BlockBits(wide, b - 1), log2Rows)
  }

  /** Block `b` starts there, after a padding word if it needs an even offset. */
  function StartOf(wide: seq<bool>, log2Rows: nat, b: nat): nat
    requires b < BlockCount(|wide|)
    decreases b, 1
  {
    var sz := EndOf(wide, log2Rows, b);
    if sz % 2 == 1 && Count(BlockBits(wide, b)) > 0 then sz + 1 else sz
  }

  function TotalWords(wide: seq<bool>, log2Rows: nat): nat {
    EndOf(wide, log2Rows, BlockCount(|wide|))
  }

  /** The header entries of the first `n` blocks: for each its offset and its bitmap. */
  ghost predicate HeaderUpTo(header: seq<int>, wide: seq<bool>, log2Rows: nat, n: nat)
    requires n <= BlockCount(|wide|) && 2 * BlockCount(|wide|) <= |header|
  {
    forall b {:trigger BlockBits(wide, b)} | 0 <= b < n ::
      header[2 * b] == StartOf(wide, log2Rows, b) && header[2 * b + 1] == Mask(BlockBits(wide, b))
  }

  ghost predicate IsHeader(header: seq<int>, wide: seq<bool>, log2Rows: nat) {
    2 * BlockCount(|wide|) <= |header| && HeaderUpTo(header, wide, log2Rows, BlockCount(|wide|))
  }

  /** The header does not depend on anything behind it. */
  lemma HeaderFrame(header: seq<int>, data: seq<int>, wide: seq<bool>, log2Rows: nat)
    requires IsHeader(header, wide, log2Rows) && 2 * BlockCount(|wide|) <= |data|
    requires forall i | 0 <= i < 2 * BlockCount(|wide|) :: data[i] == header[i]
    ensures IsHeader(data, wide, log2Rows)
  {
    forall b | 0 <= b < BlockCount(|wide|)
      ensures data[2 * b] == StartOf(wide, log2Rows, b) && data[2 * b + 1] == Mask(BlockBits(wide, b))
    {
      var bits := BlockBits(wide, b);
      assert data[2 * b] == header[2 * b] && data[2 * b + 1] == header[2 * b + 1];
    }
  }

  lemma HeaderPush(header: seq<int>, wide: seq<bool>, log2Rows: nat, b: nat)
    requires b < BlockCount(|wide|) && 2 * BlockCount(|wide|) <= |header|
    requires HeaderUpTo(header, wide, log2Rows, b)
    ensures HeaderUpTo(header[2 * b := StartOf(wide, log2Rows, b)][2 * b + 1 := Mask(BlockBits(wide, b))],
                       wide, log2Rows, b + 1)
  {
  }

  /** `attr_offset::evaluate` over the array of {offset, bitmap} pairs. */
  function Lookup(header: seq<int>, index: nat, log2Rows: nat): int
    requires 2 * (index / BLOCK_WIDTH) + 1 < |header| && 0 <= header[2 * (index / BLOCK_WIDTH) + 1]
  {
    var entry := 2 * (index / BLOCK_WIDTH);
    header[entry] + Shl(Evaluate(header[entry + 1], index % BLOCK_WIDTH), log2Rows)
  }

  /** `allocate_data`: walks the schema by blocks, filling the header and adding up the size. */
  method AllocateData(wide: seq<bool>, log2Rows: nat) returns (header: array<int>, sz: nat)
    ensures fresh(header) && header.Length == 2 * ((|wide| + 31) / 32) <= sz == TotalWords(wide, log2Rows)
    ensures IsHeader(header[..], wide, log2Rows)
  {
    var blockCount := BlockCount(|wide|);
    sz := 2 * blockCount;
    header := new int[sz];
    for b := 0 to blockCount
      invariant sz == EndOf(wide, log2Rows, b)
      invariant HeaderUpTo(header[..], wide, log2Rows, b)
    {
      HeaderPush(header[..], wide, log2Rows, b);
      var bm;
      header[2 * b], bm, sz := PlaceBlock(wide, log2Rows, b, sz);
      header[2 * b + 1] := bm;
    }
    BlocksInOrder(wide, log2Rows, 0, blockCount);
  }

  /** One block: its padded offset, its bitmap, and the size with it added. */
  method PlaceBlock(wide: seq<bool>, log2Rows: nat, b: nat, end: nat) returns (start: nat, bm: nat, sz: nat)
    requires b < BlockCount(|wide|) && end == EndOf(wide, log2Rows, b)
    ensures start == StartOf(wide, log2Rows, b) && bm == Mask(BlockBits(wide, b)) && sz == EndOf(wide, log2Rows, b + 1)
  {
    var limit;
    bm, limit := BlockBitmap(wide, b, b * BLOCK_WIDTH);
    var i8Fields := Popcount(bm);
    PopcountOfMask(BlockBits(wide, b));
    start := end;
    if start % 2 == 1 {
      start := start + if i8Fields > 0 then 1 else 0;
    }
    ShlGrows(limit + i8Fields, log2Rows);
    sz := start + Shl(limit + i8Fields, log2Rows);
  }

  /** The inner loop: one bit for every 8-byte column of the block. */
  method BlockBitmap(wide: seq<bool>, b: nat, index: nat) returns (bm: nat, limit: nat)
    requires b < BlockCount(|wide|) && index == b * BLOCK_WIDTH
    ensures limit == |BlockBits(wide, b)| && bm == Mask(BlockBits(wide, b))
  {
    ghost var bits := BlockBits(wide, b);
    bm, limit := 0, Min(|wide| - index, BLOCK_WIDTH);
    for i := 0 to limit
      invariant bm == Mask(bits[..i])
    {
      MaskPush(bits[..i], bits[i]);
      assert bits[..i + 1] == bits[..i] + [bits[i]];
      if wide[index + i] {
        bm := bm + Pow2(i);
      }
    }
    assert bits[..limit] == bits;
  }

  // ---- the layout ----

  /** Where column `c` starts: its place in its block, which starts where the allocator put it. */
  function ColumnStart(wide: seq<bool>, log2Rows: nat, c: nat): int
    requires c < |wide|
  {
    ColumnInBlock(wide, c);
    StartOf(wide, log2Rows, c / BLOCK_WIDTH) + Shl(Place(BlockBits(wide, c / BLOCK_WIDTH), c % BLOCK_WIDTH), log2Rows)
  }

  function ColumnWords(wide: seq<bool>, log2Rows: nat, c: nat): nat
    requires c < |wide|
  {
    ShlGrows(if wide[c] then 2 else 1, log2Rows);
    Shl(if wide[c] then 2 else 1, log2Rows)
  }

  /** The lookup by popcounts and masks over the header finds the place of the column. */
  lemma LookupFindsColumn(header: seq<int>, wide: seq<bool>, log2Rows: nat, c: nat)
    requires IsHeader(header, wide, log2Rows) && c < |wide|
    ensures 2 * (c / BLOCK_WIDTH) + 1 < |header| && 0 <= header[2 * (c / BLOCK_WIDTH) + 1]
    ensures Lookup(header, c, log2Rows) == ColumnStart(wide, log2Rows, c)
  {
    hide Evaluate, Place;
    ColumnInBlock(wide, c);
    EvaluateIs(BlockBits(wide, c / BLOCK_WIDTH), c % BLOCK_WIDTH);
  }

  lemma ColumnInBlock(wide: seq<bool>, c: nat)
    requires c < |wide|
    ensures c / BLOCK_WIDTH < BlockCount(|wide|) && c % BLOCK_WIDTH < |BlockBits(wide, c / BLOCK_WIDTH)|
    ensures BlockBits(wide, c / BLOCK_WIDTH)[c % BLOCK_WIDTH] == wide[c]
  {
    var bits := BlockBits(wide, c / BLOCK_WIDTH);
    assert bits[c % BLOCK_WIDTH] == wide[c / BLOCK_WIDTH * BLOCK_WIDTH + c % BLOCK_WIDTH];
  }

  lemma {:induction false} BlocksInOrder(wide: seq<bool>, log2Rows: nat, a: nat, b: nat)
    requires a <= b <= BlockCount(|wide|)
    ensures EndOf(wide, log2Rows, a) <= EndOf(wide, log2Rows, b)
    ensures a < b ==> StartOf(wide, log2Rows, a) + BlockWords(BlockBits(wide, a), log2Rows) <= EndOf(wide, log2Rows, b)
  {
    if a < b {
      BlocksInOrder(wide, log2Rows, a, b - 1);
    }
  }

  lemma ShiftedOrder(a: int, n: int, b: int, k: nat)
    requires a + n <= b
    ensures Shl(a, k) + Shl(n, k) <= Shl(b, k)
  {
    ShlAdd(a, n, k);
    ShlOrder(a + n, b, k);
  }

  lemma HeaderFirst(wide: seq<bool>, log2Rows: nat, b: nat)
    requires b < BlockCount(|wide|)
    ensures 2 * BlockCount(|wide|) <= StartOf(wide, log2Rows, b)
  {
    BlocksInOrder(wide, log2Rows, 0, b);
  }

  /** A column lies inside its block; the block after the header; the last one inside the allocation. */
  lemma ColumnInside(wide: seq<bool>, log2Rows: nat, c: nat)
    requires c < |wide|
    ensures var b := c / BLOCK_WIDTH;
      && 2 * BlockCount(|wide|) <= StartOf(wide, log2Rows, b) <= ColumnStart(wide, log2Rows, c)
      && ColumnStart(wide, log2Rows, c) + ColumnWords(wide, log2Rows, c)
         <= StartOf(wide, log2Rows, b) + BlockWords(BlockBits(wide, b), log2Rows)
      && StartOf(wide, log2Rows, b) + BlockWords(BlockBits(wide, b), log2Rows) <= TotalWords(wide, log2Rows)
  {
    hide EndOf, StartOf, Place, Count, BlockBits;
    var b, i := c / BLOCK_WIDTH, c % BLOCK_WIDTH;
    var bits := BlockBits(wide, b);
    ColumnInBlock(wide, c);
    PlaceInside(bits, i);
    HeaderFirst(wide, log2Rows, b);
    BlocksInOrder(wide, log2Rows, b, BlockCount(|wide|));
    var e := Place(bits, i);
    ShlGrows(e, log2Rows);
    ShiftedOrder(e, Units(bits, i), |bits| + Count(bits), log2Rows);
  }

  /** Columns occupy pairwise disjoint ranges. */
  lemma ColumnsDisjoint(wide: seq<bool>, log2Rows: nat, c: nat, d: nat)
    requires c < d < |wide|
    ensures ColumnStart(wide, log2Rows, c) + ColumnWords(wide, log2Rows, c) <= ColumnStart(wide, log2Rows, d)
         || ColumnStart(wide, log2Rows, d) + ColumnWords(wide, log2Rows, d) <= ColumnStart(wide, log2Rows, c)
  {
    ColumnInside(wide, log2Rows, c);
    ColumnInside(wide, log2Rows, d);
    var b := c / BLOCK_WIDTH;
    if b < d / BLOCK_WIDTH {
      BlocksInOrder(wide, log2Rows, b, d / BLOCK_WIDTH);
    } else {
      SameBlockDisjoint(wide, log2Rows, c, d);
    }
  }

  lemma SameBlockDisjoint(wide: seq<bool>, log2Rows: nat, c: nat, d: nat)
    requires c < d < |wide| && c / BLOCK_WIDTH == d / BLOCK_WIDTH
    ensures ColumnStart(wide, log2Rows, c) + ColumnWords(wide, log2Rows, c) <= ColumnStart(wide, log2Rows, d)
         || ColumnStart(wide, log2Rows, d) + ColumnWords(wide, log2Rows, d) <= ColumnStart(wide, log2Rows, c)
  {
    var bits, i, j := BlockBits(wide, c / BLOCK_WIDTH), c % BLOCK_WIDTH, d % BLOCK_WIDTH;
    ColumnInBlock(wide, c);
    ColumnInBlock(wide, d);
    PlacesDisjoint(bits, i, j);
    var x, y := Place(bits, i), Place(bits, j);
    if x + Units(bits, i) <= y {
      ShiftedOrder(x, Units(bits, i), y, log2Rows);
    } else {
      ShiftedOrder(y, Units(bits, j), x, log2Rows);
    }
  }

  /** Every 8-byte column starts at an even word, so it is 8-byte aligned. */
  lemma WideColumnsAligned(wide: seq<bool>, log2Rows: nat, c: nat)
    requires c < |wide| && wide[c]
    ensures ColumnStart(wide, log2Rows, c) % 2 == 0
  {
    var b, i := c / BLOCK_WIDTH, c % BLOCK_WIDTH;
    var bits := BlockBits(wide, b);
    ColumnInBlock(wide, c);
    PlaceInside(bits, i);
    SetBitCounts(bits, i);
    ShlEven(Place(bits, i), log2Rows);
    StartEven(wide, log2Rows, b);
    EvenSum(StartOf(wide, log2Rows, b), Shl(Place(bits, i), log2Rows));
  }

  lemma StartEven(wide: seq<bool>, log2Rows: nat, b: nat)
    requires b < BlockCount(|wide|) && 0 < Count(BlockBits(wide, b))
    ensures StartOf(wide, log2Rows, b) % 2 == 0
  {
  }

  lemma EvenSum(a: int, b: int)
    requires a % 2 == 0 && b % 2 == 0
    ensures (a + b) % 2 == 0
  {
  }

  /** Padding is at most one word, and only ever needed for a single-row capacity. */
  lemma PaddingOnlyForOneRow(wide: seq<bool>, log2Rows: nat, b: nat)
    requires b < BlockCount(|wide|)
    ensures 0 <= StartOf(wide, log2Rows, b) - EndOf(wide, log2Rows, b) <= 1
    ensures 0 < log2Rows ==> StartOf(wide, log2Rows, b) == EndOf(wide, log2Rows, b)
  {
    if 0 < log2Rows {
      EndsEven(wide, log2Rows, b);
    }
  }

  lemma {:induction false} EndsEven(wide: seq<bool>, log2Rows: nat, b: nat)
    requires b <= BlockCount(|wide|) && 0 < log2Rows
    ensures EndOf(wide, log2Rows, b) % 2 == 0
  {
    if b > 0 {
      hide EndOf, Count, Shl, BlockBits;
      EndsEven(wide, log2Rows, b - 1);
      var bits := BlockBits(wide, b - 1);
      ShlEven(|bits| + Count(bits), log2Rows);
      BlockKeepsEven(wide, log2Rows, b - 1);
    }
  }

  lemma BlockKeepsEven(wide: seq<bool>, log2Rows: nat, b: nat)
    requires b < BlockCount(|wide|) && EndOf(wide, log2Rows, b) % 2 == 0
    requires BlockWords(BlockBits(wide, b), log2Rows) % 2 == 0
    ensures EndOf(wide, log2Rows, b + 1) % 2 == 0
  {
    hide Count, Shl, BlockBits, BlockWords;
    EvenSum(EndOf(wide, log2Rows, b), BlockWords(BlockBits(wide, b), log2Rows));
  }

  /** No gaps: every word of a block belongs to one of its columns. */
  lemma BlocksAreTiled(wide: seq<bool>, log2Rows: nat, b: nat, w: nat) returns (c: nat)
    requires b < BlockCount(|wide|)
    requires StartOf(wide, log2Rows, b) <= w < StartOf(wide, log2Rows, b) + BlockWords(BlockBits(wide, b), log2Rows)
    ensures c < |wide| && c / BLOCK_WIDTH == b
    ensures ColumnStart(wide, log2Rows, c) <= w < ColumnStart(wide, log2Rows, c) + ColumnWords(wide, log2Rows, c)
  {
    hide Place, Count, StartOf, Mask, ColumnAt;
    var bits := BlockBits(wide, b);
    var at := w - StartOf(wide, log2Rows, b);
    var u := Shr(at, log2Rows);
    ShrBelow(at, |bits| + Count(bits), log2Rows);
    ShrBounds(at, log2Rows);
    PlacesTile(bits, u);
    var i := ColumnAt(bits, u);
    var e := Place(bits, i);
    ShlOrder(e, u, log2Rows);
    ShlOrder(u + 1, e + Units(bits, i), log2Rows);
    ShlAdd(e, Units(bits, i), log2Rows);
    c := b * BLOCK_WIDTH + i;
    ColumnInBlock(wide, c);
  }

  /** The block after whose predecessor's end, and before whose own end, a word lies. */
  lemma {:induction false} BlockAround(wide: seq<bool>, log2Rows: nat, n: nat, w: nat) returns (b: nat)
    requires n <= BlockCount(|wide|) && EndOf(wide, log2Rows, 0) <= w < EndOf(wide, log2Rows, n)
    ensures b < n && EndOf(wide, log2Rows, b) <= w < EndOf(wide, log2Rows, b + 1)
  {
    hide EndOf;
    if EndOf(wide, log2Rows, n - 1) <= w {
      b := n - 1;
    } else {
      b := BlockAround(wide, log2Rows, n - 1, w);
    }
  }

  lemma PaddingBefore(wide: seq<bool>, log2Rows: nat, b: nat)
    requires b < BlockCount(|wide|) && StartOf(wide, log2Rows, b) != EndOf(wide, log2Rows, b)
    ensures EndOf(wide, log2Rows, b) % 2 == 1 && StartOf(wide, log2Rows, b) == EndOf(wide, log2Rows, b) + 1
    ensures 0 < Count(BlockBits(wide, b))
  {
    hide EndOf, Count, BlockBits;
  }

  /** A block that has an 8-byte column starts with one. */
  lemma BlockStartsWide(wide: seq<bool>, log2Rows: nat, b: nat) returns (c: nat)
    requires b < BlockCount(|wide|) && 0 < Count(BlockBits(wide, b))
    ensures c < |wide| && wide[c] && ColumnStart(wide, log2Rows, c) == StartOf(wide, log2Rows, b)
  {
    hide StartOf, BlockBits, NthSet, Shl;
    var bits := BlockBits(wide, b);
    NthSetIs(bits, true, 0);
    c := b * BLOCK_WIDTH + NthSet(bits, true, 0);
    ColumnInBlock(wide, c);
    ShlIsTimes(0, log2Rows);
  }

  /** The whole allocation: from the header, two words for every 32 columns, to its end, every word belongs to
      a column, but for the odd word in front of an 8-byte column that a block needs to start even. */
  lemma WordsAccountedFor(wide: seq<bool>, log2Rows: nat, w: nat) returns (c: nat)
    requires 2 * ((|wide| + 31) / 32) <= w < TotalWords(wide, log2Rows)
    ensures c < |wide|
    ensures || ColumnStart(wide, log2Rows, c) <= w < ColumnStart(wide, log2Rows, c) + ColumnWords(wide, log2Rows, c)
            || (w % 2 == 1 && wide[c] && ColumnStart(wide, log2Rows, c) == w + 1)
  {
    hide ColumnStart, ColumnWords, StartOf;
    var b := BlockAround(wide, log2Rows, BlockCount(|wide|), w);
    if StartOf(wide, log2Rows, b) <= w {
      c := BlocksAreTiled(wide, log2Rows, b, w);
    } else {
      PaddingBefore(wide, log2Rows, b);
      c := BlockStartsWide(wide, log2Rows, b);
    }
  }
}
