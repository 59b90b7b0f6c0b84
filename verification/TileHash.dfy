/** Dirty-tile detection in crates/desktop-core/src/lib.rs: word-wise hashes of the
    tiles of an RGBA frame, and the share of tiles that changed. */
module TileHash {
  import opened XYArithmetic

  type Raw = seq<bv8>

  const SEED: bv64 := 0xcbf29ce484222325
  const DIRTY_BLOCK_RATIO_THRESHOLD: real := 0.005

  // ---- one step of the hash -----------------------------------------------------

  function Scramble(word: bv64): bv64 { word * 0x9e3779b97f4a7c15 }

  function Absorb(hash: bv64, product: bv64): bv64 { hash.RotateLeft(13) ^ product }

  function Mix(hash: bv64, word: bv64): bv64 { Absorb(hash, Scramble(word)) }

  function MixAll(hash: bv64, words: seq<bv64>): bv64
    decreases |words|
  {
    if words == [] then hash else MixAll(Mix(hash, words[0]), words[1..])
  }

  /** Eight bytes, the least significant first. */
  function Word(c: Raw): bv64
    requires |c| == 8
  {
    (c[0] as bv64) | ((c[1] as bv64) << 8) | ((c[2] as bv64) << 16) | ((c[3] as bv64) << 24)
    | ((c[4] as bv64) << 32) | ((c[5] as bv64) << 40) | ((c[6] as bv64) << 48) | ((c[7] as bv64) << 56)
  }

  function Widen(b: bv8): bv64 { b as bv64 }

  /** The words of one row of a tile: eight bytes each, then the bytes left over. */
  function Words(chunk: Raw): seq<bv64>
  {
    if chunk == [] then []
    else if |chunk| >= 8 then [Word(chunk[..8])] + Words(chunk[8..])
    else [Widen(chunk[0])] + Words(chunk[1..])
  }

  /** The turn at the end of a row. */
  function EndRow(hash: bv64): bv64 { hash.RotateLeft(1) }

  function HashRow(hash: bv64, chunk: Raw): bv64 { EndRow(MixAll(hash, Words(chunk))) }

  /** The two loops over a row: eight bytes at a time, then one at a time. */
  method MixRow(hash: bv64, row: Raw) returns (h: bv64)
    ensures h == HashRow(hash, row)
  {
    hide Mix, Word, Widen, EndRow;
    h := hash;
    var chunk := row;
    while |chunk| >= 8
      invariant MixAll(hash, Words(row)) == MixAll(h, Words(chunk))
    {
      assert Words(chunk)[1..] == Words(chunk[8..]);
      h := Mix(h, Word(chunk[..8]));
      chunk := chunk[8..];
    }
    while chunk != []
      invariant |chunk| < 8 && MixAll(hash, Words(row)) == MixAll(h, Words(chunk))
      decreases |chunk|
    {
      assert Words(chunk)[1..] == Words(chunk[1..]);
      h := Mix(h, Widen(chunk[0]));
      chunk := chunk[1..];
    }
    h := EndRow(h);
  }

  /** The multiplier is odd, so it has an inverse modulo 2^64. */
  function Unscramble(product: bv64): bv64 { product * 0xf1de83e19937733d }

  lemma {:induction false} InverseOfProduct(word: bv64)
    ensures Unscramble(word * 0x9e3779b97f4a7c15) == word
  {
  }

  lemma {:induction false} UnscrambleScramble(word: bv64)
    ensures Unscramble(Scramble(word)) == word
  {
    hide Unscramble;
    InverseOfProduct(word);
  }

  lemma {:induction false} ScrambleInjective(u: bv64, v: bv64)
    requires u != v
    ensures Scramble(u) != Scramble(v)
  {
    hide Scramble, Unscramble;
    UnscrambleScramble(u);
    UnscrambleScramble(v);
  }

  lemma {:induction false} AbsorbInjective(h: bv64, k: bv64, product: bv64)
    requires h != k
    ensures Absorb(h, product) != Absorb(k, product)
  {
  }

  lemma {:induction false} ProductInjective(h: bv64, p: bv64, q: bv64)
    requires p != q
    ensures Absorb(h, p) != Absorb(h, q)
  {
  }

  lemma {:induction false} EndRowInjective(h: bv64, k: bv64)
    requires h != k
    ensures EndRow(h) != EndRow(k)
  {
  }

  /** A step is injective in the hash for a fixed word, and in the word for a fixed hash. */
  lemma {:induction false} MixInjective(h: bv64, k: bv64, u: bv64, v: bv64)
    ensures h != k ==> Mix(h, u) != Mix(k, u)
    ensures u != v ==> Mix(h, u) != Mix(h, v)
  {
    hide Scramble, Absorb;
    if h != k {
      AbsorbInjective(h, k, Scramble(u));
    }
    if u != v {
      ScrambleInjective(u, v);
      ProductInjective(h, Scramble(u), Scramble(v));
    }
  }

  lemma {:induction false} MixAllInjective(h: bv64, k: bv64, words: seq<bv64>)
    requires h != k
    ensures MixAll(h, words) != MixAll(k, words)
    decreases |words|
  {
    hide Mix;
    if words != [] {
      MixInjective(h, k, words[0], 0);
      MixAllInjective(Mix(h, words[0]), Mix(k, words[0]), words[1..]);
    }
  }

  ghost predicate DifferOnlyAt<T>(u: seq<T>, v: seq<T>, i: nat)
  {
    && |u| == |v| && i < |u| && u[i] != v[i]
    && forall j :: 0 <= j < |u| && j != i ==> u[j] == v[j]
  }

  lemma {:induction false} OneWordMixed(h: bv64, u: seq<bv64>, v: seq<bv64>, i: nat)
    requires DifferOnlyAt(u, v, i)
    ensures MixAll(h, u) != MixAll(h, v)
    decreases i
  {
    hide Mix;
    if i == 0 {
      MixInjective(h, h, u[0], v[0]);
      assert u[1..] == v[1..];
      MixAllInjective(Mix(h, u[0]), Mix(h, v[0]), u[1..]);
    } else {
      assert u[0] == v[0];
      OneWordMixed(Mix(h, u[0]), u[1..], v[1..], i - 1);
    }
  }

  // ---- words and bytes ------------------------------------------------------------

  function WordCount(len: nat): nat { len / 8 + len % 8 }

  /** The bytes of a row of `len` bytes that its word i is read from. */
  function WordStart(len: nat, i: nat): nat { if i < len / 8 then 8 * i else len / 8 * 8 + (i - len / 8) }

  function WordEnd(len: nat, i: nat): nat { WordStart(len, i) + (if i < len / 8 then 8 else 1) }

  ghost predicate DifferOnlyIn(a: Raw, b: Raw, lo: int, hi: int)
  {
    && |a| == |b|
    && forall p :: 0 <= p < |a| && !(lo <= p < hi) ==> a[p] == b[p]
  }

  lemma {:induction false} WordInjective(c: Raw, d: Raw)
    requires |c| == |d| == 8 && c != d
    ensures Word(c) != Word(d)
  {
    if Word(c) == Word(d) {
      forall i | 0 <= i < 8 ensures c[i] == d[i] {
      }
    }
  }

  lemma {:induction false} WidenInjective(a: bv8, b: bv8)
    requires a != b
    ensures Widen(a) != Widen(b)
  {
  }

  lemma {:induction false} FirstWord(c: Raw, w: nat)
    requires c != [] && w == if |c| >= 8 then 8 else 1
    ensures Words(c) == [if |c| >= 8 then Word(c[..8]) else Widen(c[0])] + Words(c[w..])
  {
    hide Word, Widen;
  }

  lemma {:induction false} OneWordDiffers(c: Raw, d: Raw, i: nat)
    requires c != d && i < WordCount(|c|)
    requires DifferOnlyIn(c, d, WordStart(|c|, i), WordEnd(|c|, i))
    ensures DifferOnlyAt(Words(c), Words(d), i)
    decreases |c|
  {
    hide Word, Widen, Words, WordStart, WordEnd, WordCount;
    var w := if |c| >= 8 then 8 else 1;
    assert c == c[..w] + c[w..] && d == d[..w] + d[w..];
    FirstWord(c, w);
    FirstWord(d, w);
    WordShift(|c|, w, i);
    if i == 0 {
      assert c[w..] == d[w..];
      if w == 8 {
        WordInjective(c[..8], d[..8]);
      } else {
        WidenInjective(c[0], d[0]);
      }
    } else {
      assert c[..w] == d[..w];
      assert DifferOnlyIn(c[w..], d[w..], WordStart(|c| - w, i - 1), WordEnd(|c| - w, i - 1));
      OneWordDiffers(c[w..], d[w..], i - 1);
    }
  }

  lemma {:induction false} WordShift(len: nat, w: nat, i: nat)
    requires i < WordCount(len) && w == if len >= 8 then 8 else 1
    ensures w <= len
    ensures i == 0 ==> WordStart(len, i) == 0 && WordEnd(len, i) == w
    ensures i > 0 ==>
      && WordStart(len, i) == w + WordStart(len - w, i - 1)
      && WordEnd(len, i) == w + WordEnd(len - w, i - 1)
      && i - 1 < WordCount(len - w)
  {
  }

  // ---- the tiles of a frame ---------------------------------------------------------

  datatype Grid = Grid(width: nat, height: nat, block: nat)
  {
    ghost predicate Valid() { width > 0 && height > 0 && block > 0 }

    function Cols(): nat
      requires block > 0
    {
      (width + block - 1) / block
    }

    function Rows(): nat
      requires block > 0
    {
      (height + block - 1) / block
    }

    /** The place of tile (tx, ty) in the list of hashes. */
    function Number(tx: nat, ty: nat): nat
      requires block > 0
    {
      ty * Cols() + tx
    }

    function Stride(): nat { width * 4 }

    function X0(tx: nat): nat { tx * block }

    function X1(tx: nat): nat { if X0(tx) + block < width then X0(tx) + block else width }

    function Y0(ty: nat): nat { ty * block }

    function Y1(ty: nat): nat { if Y0(ty) + block < height then Y0(ty) + block else height }

    /** The bytes of row y that belong to the tiles of column tx. */
    function RowStart(tx: nat, y: nat): nat { y * Stride() + X0(tx) * 4 }

    function RowEnd(tx: nat, y: nat): nat { y * Stride() + X1(tx) * 4 }
  }

  /** A column of tiles that exists starts inside the frame. */
  lemma {:induction false} ColumnStarts(width: nat, block: nat, tx: nat)
    requires block > 0 && tx < (width + block - 1) / block
    ensures tx * block < width
  {
    var q := (width + block - 1) / block;
    ProductGrows(tx + 1, q, block);
    Product(tx, 1, block);
  }

  /** The hash of rows y..y1 of the tiles in column tx; a row that the buffer does not
      hold in full ends it. */
  function HashRows(raw: Raw, g: Grid, tx: nat, y: nat, y1: nat, hash: bv64): bv64
    requires g.X0(tx) <= g.width
    decreases y1 - y
  {
    if y >= y1 || g.RowEnd(tx, y) > |raw| then hash
    else HashRows(raw, g, tx, y + 1, y1, HashRow(hash, raw[g.RowStart(tx, y)..g.RowEnd(tx, y)]))
  }

  function Tile(raw: Raw, g: Grid, tx: nat, ty: nat): bv64
    requires g.Valid() && tx < g.Cols()
  {
    ColumnStarts(g.width, g.block, tx);
    HashRows(raw, g, tx, g.Y0(ty), g.Y1(ty), SEED)
  }

  /** The hashes of all tiles, row by row. */
  function Hashes(raw: Raw, g: Grid): (hashes: seq<bv64>)
    requires g.Valid()
  {
    PositiveCols(g);
    seq(g.Cols() * g.Rows(), t requires 0 <= t < g.Cols() * g.Rows() => Tile(raw, g, t % g.Cols(), t / g.Cols()))
  }

  lemma {:induction false} PositiveCols(g: Grid)
    requires g.Valid()
    ensures g.Cols() > 0 && g.Rows() > 0
  {
    ColumnsPositive(g.width, g.block);
    ColumnsPositive(g.height, g.block);
  }

  lemma {:induction false} ColumnsPositive(width: nat, block: nat)
    requires block > 0 && width > 0
    ensures (width + block - 1) / block > 0
  {
    DivUnique((width + block - 1) / block, block, (width + block - 1) % block);
  }

  // ---- which bytes a tile depends on --------------------------------------------------

  /** A byte lies in the rows of one tile only. */
  lemma {:induction false} OneOwner(g: Grid, tx: nat, y: nat, p: nat)
    requires g.Valid() && g.RowStart(tx, y) <= p < g.RowEnd(tx, y)
    ensures y == p / g.Stride() && tx == p % g.Stride() / 4 / g.block
  {
    var r := p - y * g.Stride();
    DivUnique(y, g.Stride(), r);
    var x := r / 4;
    assert g.X0(tx) <= x < g.X1(tx);
    DivUnique(tx, g.block, x - g.X0(tx));
  }

  lemma {:induction false} OneBand(g: Grid, ty: nat, y: nat)
    requires g.Valid() && g.Y0(ty) <= y < g.Y1(ty)
    ensures ty == y / g.block
  {
    DivUnique(ty, g.block, y - g.Y0(ty));
  }

  /** Rows y..y1 of the tile hold the same bytes in both frames. */
  ghost predicate SameRows(a: Raw, b: Raw, g: Grid, tx: nat, y: nat, y1: nat)
    requires g.X0(tx) <= g.width
  {
    && |a| == |b|
    && forall r: nat | y <= r < y1 && g.RowEnd(tx, r) <= |a| :: SameRow(a, b, g, tx, r)
  }

  ghost predicate SameRow(a: Raw, b: Raw, g: Grid, tx: nat, y: nat)
    requires g.X0(tx) <= g.width && |a| == |b| && g.RowEnd(tx, y) <= |a|
  {
    a[g.RowStart(tx, y)..g.RowEnd(tx, y)] == b[g.RowStart(tx, y)..g.RowEnd(tx, y)]
  }

  lemma {:induction false} SameRowsSameHash(a: Raw, b: Raw, g: Grid, tx: nat, y: nat, y1: nat, hash: bv64)
    requires g.X0(tx) <= g.width && SameRows(a, b, g, tx, y, y1)
    ensures HashRows(a, g, tx, y, y1, hash) == HashRows(b, g, tx, y, y1, hash)
    decreases y1 - y
  {
    hide HashRow;
    if y < y1 && g.RowEnd(tx, y) <= |a| {
      assert SameRow(a, b, g, tx, y);
      SameRowsSameHash(a, b, g, tx, y + 1, y1, HashRow(hash, a[g.RowStart(tx, y)..g.RowEnd(tx, y)]));
    }
  }

  /** Equal rows keep different hashes apart. */
  lemma {:induction false} SameRowsKeepApart(a: Raw, b: Raw, g: Grid, tx: nat, y: nat, y1: nat, h: bv64, k: bv64)
    requires g.X0(tx) <= g.width && SameRows(a, b, g, tx, y, y1) && h != k
    ensures HashRows(a, g, tx, y, y1, h) != HashRows(b, g, tx, y, y1, k)
    decreases y1 - y
  {
    hide MixAll, EndRow, Words;
    if y < y1 && g.RowEnd(tx, y) <= |a| {
      assert SameRow(a, b, g, tx, y);
      var row := a[g.RowStart(tx, y)..g.RowEnd(tx, y)];
      MixAllInjective(h, k, Words(row));
      EndRowInjective(MixAll(h, Words(row)), MixAll(k, Words(row)));
      SameRowsKeepApart(a, b, g, tx, y + 1, y1, HashRow(h, row), HashRow(k, row));
    }
  }

  /** One row differs in one word, the rows around it not at all: the hash differs. */
  lemma {:induction false} OneRowDiffers(a: Raw, b: Raw, g: Grid, tx: nat, y: nat, y1: nat, at: nat, i: nat, hash: bv64)
    requires g.X0(tx) <= g.width && |a| == |b|
    requires y <= at < y1 && RowsHeld(a, g, tx, y, at) && g.RowEnd(tx, at) <= |a|
    requires SameRows(a, b, g, tx, y, at) && SameRows(a, b, g, tx, at + 1, y1)
    requires DifferOnlyAt(Words(a[g.RowStart(tx, at)..g.RowEnd(tx, at)]),
                          Words(b[g.RowStart(tx, at)..g.RowEnd(tx, at)]), i)
    ensures HashRows(a, g, tx, y, y1, hash) != HashRows(b, g, tx, y, y1, hash)
    decreases at - y
  {
    hide MixAll, EndRow, Words, DifferOnlyAt;
    assert g.RowEnd(tx, y) <= |a|;
    var s, e := g.RowStart(tx, y), g.RowEnd(tx, y);
    if y == at {
      OneWordMixed(hash, Words(a[s..e]), Words(b[s..e]), i);
      EndRowInjective(MixAll(hash, Words(a[s..e])), MixAll(hash, Words(b[s..e])));
      SameRowsKeepApart(a, b, g, tx, y + 1, y1, HashRow(hash, a[s..e]), HashRow(hash, b[s..e]));
    } else {
      assert SameRow(a, b, g, tx, y);
      OneRowDiffers(a, b, g, tx, y + 1, y1, at, i, HashRow(hash, a[s..e]));
    }
  }

  ghost predicate RowsHeld(raw: Raw, g: Grid, tx: nat, y: nat, last: nat)
  {
    forall r: nat | y <= r <= last :: g.RowEnd(tx, r) <= |raw|
  }

  lemma {:induction false} EarlierRowsHeld(raw: Raw, g: Grid, tx: nat, y: nat, last: nat)
    requires g.RowEnd(tx, last) <= |raw|
    ensures RowsHeld(raw, g, tx, y, last)
  {
    forall r: nat | y <= r <= last ensures g.RowEnd(tx, r) <= |raw| {
      assert r * g.Stride() <= last * g.Stride();
    }
  }

  // ---- detection ------------------------------------------------------------------------

  /** The bytes that word i of row y of the tile is read from. */
  function From(g: Grid, tx: nat, y: nat, i: nat): int
  {
    if g.X0(tx) <= g.width then g.RowStart(tx, y) + WordStart(g.RowEnd(tx, y) - g.RowStart(tx, y), i) else 0
  }

  function To(g: Grid, tx: nat, y: nat, i: nat): int
  {
    if g.X0(tx) <= g.width then g.RowStart(tx, y) + WordEnd(g.RowEnd(tx, y) - g.RowStart(tx, y), i) else 0
  }

  /** The frames are equal but for one word: word i of row y of tile (tx, ty), which the
      buffer holds. */
  ghost predicate OneWordChanged(a: Raw, b: Raw, g: Grid, tx: nat, ty: nat, y: nat, i: nat)
  {
    && g.Valid()
    && g.X0(tx) < g.width && g.Y0(ty) <= y < g.Y1(ty) && g.RowEnd(tx, y) <= |a|
    && i < WordCount(g.RowEnd(tx, y) - g.RowStart(tx, y))
    && a != b && DifferOnlyIn(a, b, From(g, tx, y, i), To(g, tx, y, i))
  }

  lemma {:induction false} SmallGrid()
    ensures var g := Grid(2, 1, 2);
            && g.Valid() && g.Cols() == 1 && g.Rows() == 1 && g.X0(0) == 0 && g.Y0(0) == 0 && g.Y1(0) == 1
            && g.RowStart(0, 0) == 0 && g.RowEnd(0, 0) == 8
  {
  }

  lemma {:induction false} SmallWord()
    ensures WordCount(8) == 1 && WordStart(8, 0) == 0 && WordEnd(8, 0) == 8
  {
  }

  /** Two frames of one tile of two pixels that differ in one byte. */
  lemma {:induction false} SmallestChange(a: Raw, b: Raw)
    requires |a| == |b| == 8 && a != b
    ensures OneWordChanged(a, b, Grid(2, 1, 2), 0, 0, 0, 0)
  {
    hide Grid.Valid, Grid.Cols, Grid.Rows, Grid.X0, Grid.Y0, Grid.Y1, Grid.RowStart, Grid.RowEnd;
    hide WordCount, WordStart, WordEnd;
    SmallGrid();
    SmallWord();
  }

  lemma {:induction false} WordInRow(len: nat, i: nat)
    requires i < WordCount(len)
    ensures 0 <= WordStart(len, i) < WordEnd(len, i) <= len
  {
  }

  /** Any other row, of this tile or another, is untouched. */
  lemma {:induction false} OtherRowsSame(a: Raw, b: Raw, g: Grid, tx: nat, ty: nat, y: nat, i: nat, cx: nat, r: nat)
    requires OneWordChanged(a, b, g, tx, ty, y, i)
    requires cx != tx || r != y
    requires g.X0(cx) <= g.width && g.RowEnd(cx, r) <= |a|
    ensures SameRow(a, b, g, cx, r)
  {
    hide WordStart, WordEnd, WordCount;
    WordInRow(g.RowEnd(tx, y) - g.RowStart(tx, y), i);
    var s, e := g.RowStart(cx, r), g.RowEnd(cx, r);
    forall k | 0 <= k < e - s ensures a[s..e][k] == b[s..e][k] {
      var p := s + k;
      OneOwner(g, cx, r, p);
      if From(g, tx, y, i) <= p < To(g, tx, y, i) {
        OneOwner(g, tx, y, p);
      }
    }
  }

  lemma {:induction false} Difference(a: Raw, b: Raw) returns (p: nat)
    requires |a| == |b| && a != b
    ensures p < |a| && a[p] != b[p]
  {
    p :| p < |a| && a[p] != b[p];
  }

  lemma {:induction false} ChangedRow(a: Raw, b: Raw, g: Grid, tx: nat, ty: nat, y: nat, i: nat)
    requires OneWordChanged(a, b, g, tx, ty, y, i)
    ensures DifferOnlyAt(Words(a[g.RowStart(tx, y)..g.RowEnd(tx, y)]), Words(b[g.RowStart(tx, y)..g.RowEnd(tx, y)]), i)
  {
    hide WordStart, WordEnd, WordCount, Words;
    var s, e := g.RowStart(tx, y), g.RowEnd(tx, y);
    WordInRow(e - s, i);
    var c, d := a[s..e], b[s..e];
    var p := Difference(a, b);
    assert c[p - s] != d[p - s];
    OneWordDiffers(c, d, i);
  }

  lemma {:induction false} OwnTileChanges(a: Raw, b: Raw, g: Grid, tx: nat, ty: nat, y: nat, i: nat)
    requires OneWordChanged(a, b, g, tx, ty, y, i) && tx < g.Cols()
    ensures Tile(a, g, tx, ty) != Tile(b, g, tx, ty)
  {
    hide WordStart, WordEnd, WordCount, Words, HashRows, DifferOnlyIn, SameRow, DifferOnlyAt;
    var y0, y1 := g.Y0(ty), g.Y1(ty);
    SameLength(a, b, g, tx, ty, y, i);
    ChangedRow(a, b, g, tx, ty, y, i);
    EarlierRowsHeld(a, g, tx, y0, y);
    forall r: nat | y0 <= r < y1 && r != y && g.RowEnd(tx, r) <= |a| ensures SameRow(a, b, g, tx, r) {
      OtherRowsSame(a, b, g, tx, ty, y, i, tx, r);
    }
    OneRowDiffers(a, b, g, tx, y0, y1, y, i, SEED);
  }

  lemma {:induction false} OtherTileSame(a: Raw, b: Raw, g: Grid, tx: nat, ty: nat, y: nat, i: nat, cx: nat, cy: nat)
    requires OneWordChanged(a, b, g, tx, ty, y, i)
    requires cx < g.Cols() && (cx != tx || cy != ty)
    ensures Tile(a, g, cx, cy) == Tile(b, g, cx, cy)
  {
    hide WordStart, WordEnd, WordCount, Words, HashRows, DifferOnlyIn, SameRow;
    ColumnStarts(g.width, g.block, cx);
    var y0, y1 := g.Y0(cy), g.Y1(cy);
    SameLength(a, b, g, tx, ty, y, i);
    OneBand(g, ty, y);
    forall r: nat | y0 <= r < y1 && g.RowEnd(cx, r) <= |a| ensures SameRow(a, b, g, cx, r) {
      OneBand(g, cy, r);
      OtherRowsSame(a, b, g, tx, ty, y, i, cx, r);
    }
    SameRowsSameHash(a, b, g, cx, y0, y1, SEED);
  }

  /** Exactly that tile's hash changes. */
  lemma {:induction false} OneWordDetected(a: Raw, b: Raw, g: Grid, tx: nat, ty: nat, y: nat, i: nat, cx: nat, cy: nat)
    requires OneWordChanged(a, b, g, tx, ty, y, i)
    requires cx < g.Cols() && cy < g.Rows()
    ensures Tile(a, g, cx, cy) != Tile(b, g, cx, cy) <==> cx == tx && cy == ty
  {
    hide OneWordChanged, Tile;
    if cx == tx && cy == ty {
      OwnTileChanges(a, b, g, tx, ty, y, i);
    } else {
      OtherTileSame(a, b, g, tx, ty, y, i, cx, cy);
    }
  }

  lemma {:induction false} SameLength(a: Raw, b: Raw, g: Grid, tx: nat, ty: nat, y: nat, i: nat)
    requires OneWordChanged(a, b, g, tx, ty, y, i)
    ensures |a| == |b|
  {
  }

  /** In the list of hashes: exactly one entry changes, the one of that tile. */
  lemma {:induction false} OneHashChanges(a: Raw, b: Raw, g: Grid, tx: nat, ty: nat, y: nat, i: nat)
    requires OneWordChanged(a, b, g, tx, ty, y, i)
    ensures g.Valid() && DifferOnlyAt(Hashes(a, g), Hashes(b, g), g.Number(tx, ty))
  {
    hide OneWordChanged, Tile;
    GridOf(a, b, g, tx, ty, y, i);
    PositiveCols(g);
    var n := g.Cols() * g.Rows();
    var at := g.Number(tx, ty);
    CellNumber(g.Cols(), g.Rows(), tx, ty);
    forall t | 0 <= t < n ensures Hashes(a, g)[t] != Hashes(b, g)[t] <==> t == at {
      var cx, cy := t % g.Cols(), t / g.Cols();
      CellOf(g.Cols(), g.Rows(), t);
      OneWordDetected(a, b, g, tx, ty, y, i, cx, cy);
    }
  }

  lemma {:induction false} GridOf(a: Raw, b: Raw, g: Grid, tx: nat, ty: nat, y: nat, i: nat)
    requires OneWordChanged(a, b, g, tx, ty, y, i)
    ensures g.Valid() && tx < g.Cols() && ty < g.Rows()
  {
    StartsInGrid(g.width, g.block, tx);
    StartsInGrid(g.height, g.block, ty);
  }

  lemma {:induction false} StartsInGrid(width: nat, block: nat, tx: nat)
    requires block > 0 && tx * block < width
    ensures tx < (width + block - 1) / block
  {
    var q, r := (width + block - 1) / block, (width + block - 1) % block;
    assert q * block + r == width + block - 1;
    FactorBelow(tx, q, block);
  }

  /** The pixels of a tile's row, two to a word; an odd one at the end is read byte by byte. */
  function TileWidth(g: Grid, x: nat): int
    requires g.block > 0
  {
    var start := x / g.block * g.block;
    if start + g.block < g.width then g.block else g.width - start
  }

  lemma {:induction false} PixelInTile(g: Grid, x: nat, y: nat)
    requires g.block > 0 && x < g.width && y < g.height
    ensures var tx, ty := x / g.block, y / g.block;
            && g.X0(tx) == x - x % g.block && g.X1(tx) == g.X0(tx) + TileWidth(g, x) <= g.width
            && g.Y0(ty) <= y < g.Y1(ty)
  {
  }

  /** How many tiles of this size a length takes, the last possibly shorter. */
  function TilesFor(length: nat, block: nat): nat
    requires block > 0
  {
    (length + block - 1) / block
  }

  /** The place of the tile of pixel (x, y), row by row. */
  function TileOf(width: nat, block: nat, x: nat, y: nat): nat
    requires block > 0
  {
    hide TilesFor;
    ProductGrows(0, y / block, TilesFor(width, block));
    y / block * TilesFor(width, block) + x / block
  }

  lemma NumberOf(g: Grid, x: nat, y: nat)
    requires g.block > 0
    ensures g.Number(x / g.block, y / g.block) == TileOf(g.width, g.block, x, y)
  {
  }

  lemma {:induction false} PixelBytes(g: Grid, x: nat, y: nat)
    requires y < g.height && x <= g.width
    ensures y * g.Stride() + x * 4 == 4 * (y * g.width + x) <= 4 * (g.width * g.height)
  {
    assert y * (g.width * 4) == 4 * (y * g.width);
    ProductGrows(y + 1, g.height, g.width);
    Product(y, 1, g.width);
  }

  /** Frames that differ in one pixel have the same hashes but for the tile of that pixel,
      whose hash differs: unless the pixel is the odd one at the end of the tile's row. */
  lemma {:induction false} OnePixelDetected(a: Raw, b: Raw, g: Grid, x: nat, y: nat)
    requires g.block > 0 && x < g.width && y < g.height && x % g.block / 2 < TileWidth(g, x) / 2
    requires a != b && |a| >= 4 * (g.width * g.height)
    requires DifferOnlyIn(a, b, 4 * (y * g.width + x), 4 * (y * g.width + x) + 4)
    ensures g.Valid()
    ensures DifferOnlyAt(Hashes(a, g), Hashes(b, g), TileOf(g.width, g.block, x, y))
  {
    hide Grid.X0, Grid.X1, Grid.Y0, Grid.Y1, Grid.Stride, Hashes, DifferOnlyAt, TileWidth, DifferOnlyIn, Grid.Valid;
    hide OneWordChanged, Grid.Number, Grid.Cols, TileOf;
    var tx, ty := x / g.block, y / g.block;
    PixelInTile(g, x, y);
    NumberOf(g, x, y);
    PixelWord(a, b, g, tx, ty, x, y);
    OneHashChanges(a, b, g, tx, ty, y, x % g.block / 2);
  }

  lemma {:induction false} PixelWord(a: Raw, b: Raw, g: Grid, tx: nat, ty: nat, x: nat, y: nat)
    requires g.block > 0 && x < g.width && y < g.height && g.Y0(ty) <= y < g.Y1(ty)
    requires g.X0(tx) == x - x % g.block && g.X1(tx) <= g.width && x % g.block / 2 < (g.X1(tx) - g.X0(tx)) / 2
    requires a != b && |a| >= 4 * (g.width * g.height)
    requires DifferOnlyIn(a, b, 4 * (y * g.width + x), 4 * (y * g.width + x) + 4)
    ensures OneWordChanged(a, b, g, tx, ty, y, x % g.block / 2)
  {
    hide Grid.X0, Grid.X1, Grid.Y0, Grid.Y1, Grid.Stride;
    PixelBytes(g, g.X0(tx), y);
    PixelBytes(g, g.X1(tx), y);
    var i, row, len := x % g.block / 2, y * g.width, g.RowEnd(tx, y) - g.RowStart(tx, y);
    assert len == 4 * (g.X1(tx) - g.X0(tx));
    var start := 4 * (row + g.X0(tx));
    assert From(g, tx, y, i) == start + 8 * i && To(g, tx, y, i) == start + 8 * i + 8;
  }

  // ---- hashing a frame -------------------------------------------------------------------

  /** The loop over the rows of one tile. */
  method HashTile(raw: Raw, g: Grid, tx: nat, ty: nat) returns (hash: bv64)
    requires g.Valid() && tx < g.Cols()
    ensures hash == Tile(raw, g, tx, ty)
  {
    hide HashRow;
    ColumnStarts(g.width, g.block, tx);
    hash := SEED;
    var y, y1 := g.Y0(ty), g.Y1(ty);
    while y < y1
      invariant HashRows(raw, g, tx, g.Y0(ty), y1, SEED) == HashRows(raw, g, tx, y, y1, hash)
    {
      var row := y * g.Stride();
      var start, end := row + g.X0(tx) * 4, row + g.X1(tx) * 4;
      if end > |raw| {
        break;
      }
      hash := MixRow(hash, raw[start..end]);
      y := y + 1;
    }
  }

  /** `compute_block_hashes_sized`: nothing for a frame or block of size zero, else the
      hashes of all tiles, row by row. */
  method ComputeBlockHashesSized(raw: Raw, g: Grid) returns (hashes: seq<bv64>)
    ensures g.Valid() ==> hashes == Hashes(raw, g)
    ensures !g.Valid() ==> hashes == []
  {
    hide Tile;
    hashes := [];
    if g.width == 0 || g.height == 0 || g.block == 0 {
      return;
    }
    var cols, rows := g.Cols(), g.Rows();
    var ty := 0;
    while ty < rows
      invariant 0 <= ty <= rows && |hashes| == ty * cols <= cols * rows
      invariant hashes == Hashes(raw, g)[..|hashes|]
    {
      var tx := 0;
      while tx < cols
        invariant 0 <= tx <= cols && |hashes| == ty * cols + tx <= cols * rows
        invariant hashes == Hashes(raw, g)[..|hashes|]
      {
        CellNumber(cols, rows, tx, ty);
        var hash := HashTile(raw, g, tx, ty);
        hashes := hashes + [hash];
        tx := tx + 1;
      }
      assert ty * cols + cols == (ty + 1) * cols;
      ty := ty + 1;
    }
    assert rows * cols == cols * rows;
  }

  // ---- how much of the frame changed --------------------------------------------------------

  function Changed(previous: seq<bv64>, current: seq<bv64>): (n: nat)
    requires |previous| == |current|
    decreases |previous|
  {
    if previous == [] then 0
    else (if previous[0] != current[0] then 1 else 0) + Changed(previous[1..], current[1..])
  }

  /** The share of changed tiles; no previous frame, or one of another size, counts as a
      full change. */
  function DirtyBlockRatio(previous: seq<bv64>, current: seq<bv64>): real
  {
    if previous == [] || current == [] || |previous| != |current| then 1.0
    else Changed(previous, current) as real / |current| as real
  }

  function IsFrameDirtyInteractive(previous: seq<bv64>, current: seq<bv64>, interacting: bool): bool
  {
    var ratio := DirtyBlockRatio(previous, current);
    if interacting then ratio > 0.0 else ratio >= DIRTY_BLOCK_RATIO_THRESHOLD
  }

  lemma {:induction false} NoneChanged(previous: seq<bv64>, current: seq<bv64>)
    requires |previous| == |current|
    ensures Changed(previous, current) == 0 <==> previous == current
    ensures Changed(previous, current) <= |current|
    decreases |previous|
  {
    if previous != [] {
      NoneChanged(previous[1..], current[1..]);
      assert previous == [previous[0]] + previous[1..];
      assert current == [current[0]] + current[1..];
    }
  }

  lemma {:induction false} OneChanged(previous: seq<bv64>, current: seq<bv64>, at: nat)
    requires DifferOnlyAt(previous, current, at)
    ensures Changed(previous, current) == 1
    decreases at
  {
    if at == 0 {
      assert previous[1..] == current[1..];
      NoneChanged(previous[1..], current[1..]);
    } else {
      OneChanged(previous[1..], current[1..], at - 1);
    }
  }

  /** While the user interacts, a frame is new exactly when its hashes are not those
      of the frame before. */
  lemma {:induction false} InteractiveDirtyWhen(previous: seq<bv64>, current: seq<bv64>)
    ensures IsFrameDirtyInteractive(previous, current, true) <==> previous == [] || previous != current
  {
    if |previous| == |current| > 0 {
      NoneChanged(previous, current);
      ShareIsPositive(Changed(previous, current), |current|);
    }
  }

  /** Otherwise it is new when at least one tile in 200 changed, and when the frame before
      it is missing or of another size. */
  lemma {:induction false} FrameIsNewWhen(previous: seq<bv64>, current: seq<bv64>)
    ensures if previous == [] || |previous| != |current| then
              DirtyBlockRatio(previous, current) == 1.0 && IsFrameDirtyInteractive(previous, current, false)
            else
              && 0.0 <= DirtyBlockRatio(previous, current) <= 1.0
              && (IsFrameDirtyInteractive(previous, current, false) <==> 200 * |Places(previous, current)| >= |current|)
  {
    if previous != [] && |previous| == |current| {
      ChangedCounts(previous, current);
      NoneChanged(previous, current);
      ShareAtLeast(Changed(previous, current), |current|);
    }
  }

  /** The places where two lists of hashes differ. */
  function Places(previous: seq<bv64>, current: seq<bv64>): set<nat>
    requires |previous| == |current|
  {
    set k: nat | k < |previous| && previous[k] != current[k]
  }

  lemma {:induction false} ChangedCounts(previous: seq<bv64>, current: seq<bv64>)
    requires |previous| == |current|
    ensures Changed(previous, current) == |Places(previous, current)|
    decreases |previous|
  {
    hide Places, Next;
    if previous == [] {
      NoPlaces(previous, current);
    } else {
      var rest := Places(previous[1..], current[1..]);
      ChangedCounts(previous[1..], current[1..]);
      NextSize(rest);
      NextHas(rest);
      PlacesFirst(previous, current);
      assert Places(previous, current) == (if previous[0] != current[0] then {0} else {}) + Next(rest);
    }
  }

  lemma NoPlaces(previous: seq<bv64>, current: seq<bv64>)
    requires previous == [] == current
    ensures Places(previous, current) == {}
  {
  }

  lemma {:induction false} PlacesFirst(previous: seq<bv64>, current: seq<bv64>)
    requires |previous| == |current| > 0
    ensures forall k: nat :: k in Places(previous, current) <==>
              if k == 0 then previous[0] != current[0] else k - 1 in Places(previous[1..], current[1..])
  {
  }

  function Next(s: set<nat>): set<nat> { set k | k in s :: k + 1 }

  lemma {:induction false} NextSize(s: set<nat>)
    ensures |Next(s)| == |s|
    decreases |s|
  {
    if s == {} {
      assert Next(s) == {};
    } else {
      var k :| k in s;
      var rest := s - {k};
      NextSize(rest);
      NextHas(s);
      NextHas(rest);
      assert Next(s) == Next(rest) + {k + 1} && k + 1 !in Next(rest);
    }
  }

  lemma {:induction false} NextHas(s: set<nat>)
    ensures forall j: nat :: j in Next(s) <==> j > 0 && j - 1 in s
  {
    forall j: nat ensures j in Next(s) <==> j > 0 && j - 1 in s {
      if j > 0 && j - 1 in s {
        assert j == (j - 1) + 1;
      }
    }
  }

  lemma {:induction false} ShareAtLeast(part: nat, whole: nat)
    requires 0 < whole && part <= whole
    ensures 0.0 <= part as real / whole as real <= 1.0
    ensures part as real / whole as real >= DIRTY_BLOCK_RATIO_THRESHOLD <==> 200 * part >= whole
  {
    var share, n := part as real / whole as real, whole as real;
    assert share * n == part as real;
    assert (share - 0.005) * n == share * n - 0.005 * n && (share - 1.0) * n == share * n - 1.0 * n;
    SignOfProduct(share - 0.005, n);
    SignOfProduct(share - 1.0, n);
  }

  lemma {:induction false} SignOfProduct(a: real, n: real)
    requires n > 0.0
    ensures a * n >= 0.0 <==> a >= 0.0
    ensures a * n > 0.0 <==> a > 0.0
  {
  }

  lemma {:induction false} ShareIsPositive(part: nat, whole: nat)
    requires 0 < whole && part <= whole
    ensures part as real / whole as real > 0.0 <==> part > 0
  {
  }

  lemma {:induction false} ShareOfOne(whole: nat)
    requires whole > 0
    ensures 1.0 / whole as real >= DIRTY_BLOCK_RATIO_THRESHOLD <==> whole <= 200
  {
    var share := 1.0 / whole as real;
    assert share * whole as real == 1.0;
  }

  /** One changed word makes the frame new at once while the user interacts; otherwise
      only on a frame of at most 200 tiles. */
  lemma {:induction false} OneWordSendsFrame(a: Raw, b: Raw, g: Grid, tx: nat, ty: nat, y: nat, i: nat)
    requires OneWordChanged(a, b, g, tx, ty, y, i)
    ensures IsFrameDirtyInteractive(Hashes(a, g), Hashes(b, g), true)
    ensures IsFrameDirtyInteractive(Hashes(a, g), Hashes(b, g), false) <==> g.Cols() * g.Rows() <= 200
  {
    hide OneWordChanged, Tile;
    GridOf(a, b, g, tx, ty, y, i);
    OneHashChanges(a, b, g, tx, ty, y, i);
    OneChanged(Hashes(a, g), Hashes(b, g), g.Number(tx, ty));
    CellNumber(g.Cols(), g.Rows(), tx, ty);
    ShareOfOne(g.Cols() * g.Rows());
  }
}
