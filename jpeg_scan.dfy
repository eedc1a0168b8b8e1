/**
 * The 8x8 block scan of the JPEG stage: coefficients are read anti-diagonal by
 * anti-diagonal (x + y constant), each diagonal from its smallest x upwards.
 * The scan position of a cell and the cell at a scan position are inverse
 * bijections between the 64 cells and the indices 0..63.
 */
module JpegScan {

  /** An 8x8 grid, indexed `g[x][y]` like a Java `int[8][8]`. */
  predicate IsBlock<T>(g: seq<seq<T>>)
  {
    |g| == 8 && forall x :: 0 <= x < 8 ==> |g[x]| == 8
  }

  type IntBlock = g: seq<seq<int>> | IsBlock(g) witness seq(8, _ => seq(8, _ => 0))

  /** The smallest x on diagonal `d` (where y = d - x is at most 7). */
  function First(d: nat): nat
  {
    if d < 8 then 0 else d - 7
  }

  /** One past the largest x on diagonal `d` (where y = d - x is at least 0). */
  function Last(d: nat): nat
  {
    if d < 8 then d + 1 else 8
  }

  /** The number of cells scanned before diagonal `d`. */
  function Start(d: nat): nat
    requires d <= 15
  {
    match d
    case 0 => 0   case 1 => 1   case 2 => 3   case 3 => 6
    case 4 => 10  case 5 => 15  case 6 => 21  case 7 => 28
    case 8 => 36  case 9 => 43  case 10 => 49 case 11 => 54
    case 12 => 58 case 13 => 61 case 14 => 63 case _ => 64
  }

  /** Each diagonal's cells follow straight after the previous diagonal's, and all 64 are covered. */
  lemma StartStep(d: nat)
    requires d < 15
    ensures Start(d + 1) == Start(d) + Last(d) - First(d)
    ensures Start(0) == 0 && Start(15) == 64
  {
  }

  lemma {:induction false} StartMonotone(a: nat, b: nat)
    requires a <= b <= 15
    ensures Start(a) <= Start(b)
    ensures a < b ==> Start(a) < Start(b)
    decreases b
  {
    if a < b {
      StartStep(b - 1);
      StartMonotone(a, b - 1);
    }
  }

  /** The scan index of cell (x, y). */
  function IndexOf(x: int, y: int): (k: nat)
    requires 0 <= x < 8 && 0 <= y < 8
    ensures Start(x + y) <= k < Start(x + y + 1) && k < 64
  {
    StartMonotone(x + y + 1, 15);
    Start(x + y) + x - First(x + y)
  }

  /** The diagonal holding scan index `k`. */
  function DiagonalOf(k: nat): (r: nat)
    requires k < 64
    ensures r < 15 && Start(r) <= k < Start(r + 1)
  {
    if k < 1 then 0 else if k < 3 then 1 else if k < 6 then 2 else if k < 10 then 3
    else if k < 15 then 4 else if k < 21 then 5 else if k < 28 then 6 else if k < 36 then 7
    else if k < 43 then 8 else if k < 49 then 9 else if k < 54 then 10 else if k < 58 then 11
    else if k < 61 then 12 else if k < 63 then 13 else 14
  }

  /** The cell at scan index `k`. */
  function Pos(k: nat): (p: (int, int))
    requires k < 64
    ensures 0 <= p.0 < 8 && 0 <= p.1 < 8
  {
    var d := DiagonalOf(k);
    var x := First(d) + k - Start(d);
    (x, d - x)
  }

  /** The cell at an index of diagonal `d` lies on `d`, at its offset from the diagonal's start. */
  lemma PosOn(k: nat, d: nat)
    requires d < 15 && Start(d) <= k < Start(d + 1) && k < 64
    ensures Pos(k) == (First(d) + k - Start(d), d - (First(d) + k - Start(d)))
  {
    DiagonalUnique(k, DiagonalOf(k), d);
  }

  /** Only one diagonal's index range holds a given index. */
  lemma DiagonalUnique(k: nat, d: nat, e: nat)
    requires d < 15 && e < 15
    requires Start(d) <= k < Start(d + 1) && Start(e) <= k < Start(e + 1)
    ensures d == e
  {
    if d < e {
      StartMonotone(d + 1, e);
    } else if e < d {
      StartMonotone(e + 1, d);
    }
  }

  /** Scanning visits every cell: the cell at a cell's index is that cell. */
  lemma PosOfIndex(x: int, y: int)
    requires 0 <= x < 8 && 0 <= y < 8
    ensures IndexOf(x, y) < 64 && Pos(IndexOf(x, y)) == (x, y)
  {
    var k := IndexOf(x, y);
    PosOn(k, x + y);
    assert First(x + y) + k - Start(x + y) == x;
  }

  /** Scanning visits no cell twice: the index of the cell at `k` is `k`. */
  lemma IndexOfPos(k: nat)
    requires k < 64
    ensures IndexOf(Pos(k).0, Pos(k).1) == k
  {
  }

  /** `zigzagScan` as a value: the scan array of a block. */
  function Scan(b: IntBlock): (r: seq<int>)
    ensures |r| == 64
  {
    seq(64, k requires 0 <= k < 64 => b[Pos(k).0][Pos(k).1])
  }

  /** `inverseZigzag` as a value: the block whose cells hold the scan array's entries. */
  function Unscan(a: seq<int>): IntBlock
    requires |a| == 64
  {
    seq(8, x requires 0 <= x < 8 => seq(8, y requires 0 <= y < 8 => a[IndexOf(x, y)]))
  }

  /** The scan starts with the DC coefficient at (0, 0). */
  lemma ScanStartsAtDC(b: IntBlock)
    ensures Scan(b)[0] == b[0][0]
  {
    assert DiagonalOf(0) == 0;
  }

  /** Rebuilding a block from its scan gives the block back. */
  lemma UnscanScan(b: IntBlock)
    ensures Unscan(Scan(b)) == b
  {
    forall x | 0 <= x < 8
      ensures Unscan(Scan(b))[x] == b[x]
    {
      UnscanScanRow(b, x);
    }
  }

  lemma UnscanScanRow(b: IntBlock, x: int)
    requires 0 <= x < 8
    ensures Unscan(Scan(b))[x] == b[x]
  {
    forall y | 0 <= y < 8
      ensures Unscan(Scan(b))[x][y] == b[x][y]
    {
      UnscanScanCell(b, x, y);
    }
  }

  lemma UnscanScanCell(b: IntBlock, x: int, y: int)
    requires 0 <= x < 8 && 0 <= y < 8
    ensures Unscan(Scan(b))[x][y] == b[x][y]
  {
    var k := IndexOf(x, y);
    PosOfIndex(x, y);
    assert Pos(k) == (x, y);
    assert Scan(b)[k] == b[x][y];
  }

  /** Scanning the block rebuilt from a scan array gives the array back. */
  lemma ScanUnscan(a: seq<int>)
    requires |a| == 64
    ensures Scan(Unscan(a)) == a
  {
    forall k | 0 <= k < 64
      ensures Scan(Unscan(a))[k] == a[k]
    {
      ScanUnscanCell(a, k);
    }
  }

  lemma ScanUnscanCell(a: seq<int>, k: int)
    requires |a| == 64 && 0 <= k < 64
    ensures Scan(Unscan(a))[k] == a[k]
  {
    var p := Pos(k);
    IndexOfPos(k);
    var j := IndexOf(p.0, p.1);
    assert j == k;
    assert Unscan(a)[p.0][p.1] == a[j];
  }

  /** The cells of diagonal `d` from x = `x` on are the scan indices from `IndexOf` on. */
  lemma OnDiagonal(d: nat, x: int)
    requires d < 15 && First(d) <= x < Last(d)
    ensures 0 <= x < 8 && 0 <= d - x < 8 && IndexOf(x, d - x) == Start(d) + x - First(d)
  {
  }

  /** A cell scanned before (x, i - x) has a smaller index. */
  lemma EarlierIndex(i: nat, x: int, x': int, y': int)
    requires i < 15 && First(i) <= x < Last(i)
    requires 0 <= x' < 8 && 0 <= y' < 8 && (x' + y' < i || (x' + y' == i && x' < x))
    ensures IndexOf(x', y') < Start(i) + x - First(i)
  {
    if x' + y' < i {
      StartMonotone(x' + y' + 1, i);
    }
  }

  /** `zigzagScan`: fill a fresh 64-entry array diagonal by diagonal. */
  method ZigzagScan(block: IntBlock) returns (result: array<int>)
    ensures fresh(result) && result[..] == Scan(block)
  {
    result := new int[64](_ => 0);
    var index := 0;
    for i := 0 to 15
      invariant index == Start(i)
      invariant forall x, y :: 0 <= x < 8 && 0 <= y < 8 && x + y < i ==> result[IndexOf(x, y)] == block[x][y]
    {
      var x := if i < 8 then 0 else i - 8 + 1;
      var y := if i < 8 then i else 8 - 1;
      while x < 8 && y >= 0
        invariant First(i) <= x <= Last(i) && y == i - x
        invariant index == Start(i) + x - First(i)
        invariant forall x', y' :: 0 <= x' < 8 && 0 <= y' < 8 && (x' + y' < i || (x' + y' == i && x' < x)) ==>
          result[IndexOf(x', y')] == block[x'][y']
        decreases 8 - x
      {
        OnDiagonal(i, x);
        forall x', y' | 0 <= x' < 8 && 0 <= y' < 8 && (x' + y' < i || (x' + y' == i && x' < x))
          ensures IndexOf(x', y') < index
        {
          EarlierIndex(i, x, x', y');
        }
        result[index] := block[x][y];
        index := index + 1;
        x := x + 1;
        y := y - 1;
      }
    }
    ScanOfCells(result[..], block);
  }

  /** An array holding each cell at that cell's scan index is the block's scan. */
  lemma ScanOfCells(a: seq<int>, b: IntBlock)
    requires |a| == 64
    requires forall x, y :: 0 <= x < 8 && 0 <= y < 8 ==> a[IndexOf(x, y)] == b[x][y]
    ensures a == Scan(b)
  {
    forall k | 0 <= k < 64
      ensures a[k] == Scan(b)[k]
    {
      IndexOfPos(k);
    }
  }

  /** `inverseZigzag`: fill a fresh 8x8 array diagonal by diagonal from the scan array. */
  method InverseZigzag(arr: array<int>) returns (block: array2<int>)
    requires arr.Length == 64
    ensures fresh(block) && block.Length0 == 8 && block.Length1 == 8
    ensures forall x, y :: 0 <= x < 8 && 0 <= y < 8 ==> block[x, y] == Unscan(arr[..])[x][y]
  {
    block := new int[8, 8]((_, _) => 0);
    var index := 0;
    for i := 0 to 15
      invariant index == Start(i)
      invariant forall x, y :: 0 <= x < 8 && 0 <= y < 8 && x + y < i ==> block[x, y] == arr[IndexOf(x, y)]
    {
      var x := if i < 8 then 0 else i - 8 + 1;
      var y := if i < 8 then i else 8 - 1;
      while x < 8 && y >= 0
        invariant First(i) <= x <= Last(i) && y == i - x
        invariant index == Start(i) + x - First(i)
        invariant forall x', y' :: 0 <= x' < 8 && 0 <= y' < 8 && (x' + y' < i || (x' + y' == i && x' < x)) ==>
          block[x', y'] == arr[IndexOf(x', y')]
        decreases 8 - x
      {
        OnDiagonal(i, x);
        block[x, y] := arr[index];
        index := index + 1;
        x := x + 1;
        y := y - 1;
      }
    }
  }
}
