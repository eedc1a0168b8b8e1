/**
 * The symbol layer of the JPEG channel codec. Each 8x8 block's 64 scan
 * entries become the DC difference to the previous block, one (zero run,
 * value) pair per non-zero AC coefficient, and the end-of-block marker. The
 * decoder reads them back into a zeroed 64-entry array.
 */
module JpegRle {
  import opened Common

  /** `(short) 0xFFFF`, the end-of-block marker. */
  const BlockEnd: Short := -1

  predicate Fits16(v: int)
  {
    -0x8000 <= v < 0x8000
  }

  /** The symbols for the AC entries from scan position `i` on, with `run` zeros pending. */
  function AcSymbols(zz: seq<int>, i: nat, run: nat): seq<Short>
    requires |zz| == 64 && 1 <= i <= 64
    decreases 64 - i
  {
    if i == 64 then []
    else if zz[i] == 0 then AcSymbols(zz, i + 1, run + 1)
    else [ToShort(run), ToShort(zz[i])] + AcSymbols(zz, i + 1, 0)
  }

  /** One block's symbols: the DC difference, the AC pairs, the end marker. */
  function BlockSymbols(zz: seq<int>, prevDC: int): seq<Short>
    requires |zz| == 64
  {
    [ToShort(zz[0] - prevDC)] + AcSymbols(zz, 1, 0) + [BlockEnd]
  }

  function Zeros(n: nat): (r: seq<int>)
    ensures |r| == n && forall i :: 0 <= i < n ==> r[i] == 0
  {
    seq(n, _ => 0)
  }

  /**
   * The AC loop of the block decoder on the remaining symbols, filling `zz`
   * from position `zi`: stop at the end of the symbols or after the end marker;
   * otherwise skip `run` positions (writing zeros) and store the value. A run
   * without its value fails, as reading past the list throws.
   */
  function DecodeAc(rle: seq<Short>, zz: seq<int>, zi: nat): (r: Result<(seq<int>, seq<Short>)>)
    requires |zz| == 64 && 1 <= zi <= 64
    ensures r.Ok? ==> |r.value.0| == 64 && r.value.0[0] == zz[0] && |r.value.1| <= |rle|
    decreases |rle|
  {
    if rle == [] then Ok((zz, []))
    else if rle[0] == BlockEnd then Ok((zz, rle[1..]))
    else if |rle| == 1 then Err(CorruptStream)
    else
      var run := rle[0];
      var skipped := if run <= 0 then zi else if zi + run < 64 then zi + run else 64;
      var zeroed := zz[..zi] + Zeros(skipped - zi) + zz[skipped..];
      if skipped < 64 then DecodeAc(rle[2..], zeroed[skipped := rle[1]], skipped + 1)
      else DecodeAc(rle[2..], zeroed, skipped)
  }

  /** One block: the DC is the previous DC plus the first symbol, then the AC loop from a zeroed array. */
  function DecodeBlock(rle: seq<Short>, prevDC: int): (r: Result<(seq<int>, seq<Short>)>)
    requires rle != []
    ensures r.Ok? ==> |r.value.0| == 64 && r.value.0[0] == prevDC + rle[0] && |r.value.1| < |rle|
  {
    DecodeAc(rle[1..], Zeros(64)[0 := prevDC + rle[0]], 1)
  }

  /** The scan array rebuilt up to position `k`, zeros after. */
  function Partial(zz: seq<int>, k: nat): seq<int>
    requires |zz| == 64 && k <= 64
  {
    zz[..k] + Zeros(64 - k)
  }

  predicate AcFits(zz: seq<int>)
    requires |zz| == 64
  {
    forall j :: 1 <= j < 64 ==> Fits16(zz[j])
  }

  /** A (run, value) pair over positions that already hold zeros just stores the value after the run. */
  lemma PairStep(rle: seq<Short>, zz: seq<int>, zi: nat)
    requires |zz| == 64 && 1 <= zi && |rle| >= 2 && 0 <= rle[0] && zi + rle[0] < 64
    requires forall j :: zi <= j < zi + rle[0] ==> zz[j] == 0
    ensures DecodeAc(rle, zz, zi) == DecodeAc(rle[2..], zz[zi + rle[0] := rle[1]], zi + rle[0] + 1)
  {
    var skipped := zi + rle[0];
    assert zz[..zi] + Zeros(skipped - zi) + zz[skipped..] == zz;
  }

  /** The array rebuilt up to `k` is still rebuilt up to `i` when `zz` has zeros in between. */
  lemma PartialStore(zz: seq<int>, k: nat, i: nat)
    requires |zz| == 64 && k <= i < 64
    requires forall j :: k <= j < i ==> zz[j] == 0
    ensures Partial(zz, k)[i := zz[i]] == Partial(zz, i + 1)
    ensures forall j :: k <= j < i ==> Partial(zz, k)[j] == 0
  {
  }

  /**
   * Decoding the AC symbols from position `i` (with `run` zeros pending) and
   * the end marker rebuilds the rest of the scan array and leaves what follows.
   */
  lemma {:induction false} AcRoundTrip(zz: seq<int>, i: nat, run: nat, rest: seq<Short>)
    requires |zz| == 64 && 1 <= i <= 64 && run < i && AcFits(zz)
    requires forall j :: i - run <= j < i ==> zz[j] == 0
    ensures DecodeAc(AcSymbols(zz, i, run) + [BlockEnd] + rest, Partial(zz, i - run), i - run) == Ok((zz, rest))
    decreases 64 - i
  {
    var rle := AcSymbols(zz, i, run) + [BlockEnd] + rest;
    if i == 64 {
      assert rle == [BlockEnd] + rest;
      assert Partial(zz, i - run) == zz;
    } else if zz[i] == 0 {
      AcRoundTrip(zz, i + 1, run + 1, rest);
    } else {
      var tail := AcSymbols(zz, i + 1, 0) + [BlockEnd] + rest;
      assert rle == [ToShort(run), ToShort(zz[i])] + tail;
      assert rle[0] == run && rle[1] == zz[i] && rle[2..] == tail;
      PartialStore(zz, i - run, i);
      PairStep(rle, Partial(zz, i - run), i - run);
      AcRoundTrip(zz, i + 1, 0, rest);
    }
  }

  predicate BlockFits(zz: seq<int>, prevDC: int)
    requires |zz| == 64
  {
    Fits16(zz[0] - prevDC) && AcFits(zz)
  }

  /** Given the same previous DC, a block's symbols decode to its scan array, leaving what follows. */
  lemma BlockRoundTrip(zz: seq<int>, prevDC: int, rest: seq<Short>)
    requires |zz| == 64 && BlockFits(zz, prevDC)
    ensures DecodeBlock(BlockSymbols(zz, prevDC) + rest, prevDC) == Ok((zz, rest))
  {
    var ac := AcSymbols(zz, 1, 0) + [BlockEnd] + rest;
    var rle := BlockSymbols(zz, prevDC) + rest;
    assert rle == [zz[0] - prevDC] + ac;
    DcStart(zz);
    AcRoundTrip(zz, 1, 0, rest);
  }

  lemma DcStart(zz: seq<int>)
    requires |zz| == 64
    ensures Zeros(64)[0 := zz[0]] == Partial(zz, 1)
  {
  }

  /**
   * The runs in the AC symbols lie in [0, 62], so the end marker never
   * appears where a run is read; runs and values alternate.
   */
  lemma {:induction false} RunsInRange(zz: seq<int>, i: nat, run: nat)
    requires |zz| == 64 && 1 <= i <= 64 && run < i
    ensures var s := AcSymbols(zz, i, run);
      |s| % 2 == 0 && forall j :: 0 <= j < |s| && j % 2 == 0 ==> 0 <= s[j] <= 62 && s[j] != BlockEnd
    decreases 64 - i
  {
    if i < 64 {
      if zz[i] == 0 {
        RunsInRange(zz, i + 1, run + 1);
      } else {
        RunsInRange(zz, i + 1, 0);
        var s := AcSymbols(zz, i, run);
        var t := AcSymbols(zz, i + 1, 0);
        assert s == [ToShort(run), ToShort(zz[i])] + t;
        forall j | 2 <= j < |s| && j % 2 == 0
          ensures 0 <= s[j] <= 62
        {
          assert s[j] == t[j - 2];
        }
      }
    }
  }
}
