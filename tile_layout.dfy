/**
 * Tile layout arithmetic of `reconstructImage`
 * (src/utils/Reconstructor.js): an extent of `full` pixels is cut into
 * `count` slots of `floor(full / count)` pixels, and the last slot also
 * absorbs the remainder. Columns use the canvas width and `tilesX`,
 * rows the canvas height and `tilesY`.
 */
module TileLayout {
  import opened MaskGrid

  /** `Math.floor(full / count)` for a non-negative extent. */
  function BaseSize(full: nat, count: nat): nat
    requires count >= 1
  {
    full / count
  }

  /** Entry i of `tileWidths` / `tileHeights` after the last entry is overwritten. */
  function SlotSize(full: nat, count: nat, i: int): int
    requires count >= 1
  {
    if i == count - 1 then full - (count - 1) * BaseSize(full, count) else BaseSize(full, count)
  }

  /** Destination offset `x * baseTileWidth` (or `y * baseTileHeight`). */
  function SlotStart(full: nat, count: nat, i: int): int
    requires count >= 1
  {
    i * BaseSize(full, count)
  }

  function Total(s: seq<int>): int {
    if |s| == 0 then 0 else Total(s[..|s| - 1]) + s[|s| - 1]
  }

  lemma {:induction false} TotalOfConstant(s: seq<int>, c: int)
    requires forall i :: 0 <= i < |s| ==> s[i] == c
    ensures Total(s) == |s| * c
  {
    if |s| > 0 {
      TotalOfConstant(s[..|s| - 1], c);
      assert |s| * c == (|s| - 1) * c + c;
    }
  }

  /**
   * `new Array(count).fill(base)` followed by the overwrite of the last
   * entry. The sizes add up to the full extent, the last one is the base
   * size plus the remainder, none is negative, and none is empty when
   * there are at least as many pixels as slots.
   */
  method TileSizes(full: nat, count: nat) returns (sizes: seq<int>)
    requires count >= 1
    ensures |sizes| == count
    ensures forall i :: 0 <= i < count ==> sizes[i] == SlotSize(full, count, i)
    ensures Total(sizes) == full
    ensures sizes[count - 1] == BaseSize(full, count) + full % count
    ensures forall i :: 0 <= i < count - 1 ==> sizes[i] == BaseSize(full, count) <= sizes[count - 1]
    ensures forall i :: 0 <= i < count ==> sizes[i] >= 0
    ensures full >= count ==> forall i :: 0 <= i < count ==> sizes[i] >= 1
  {
    var base := full / count;
    var a := new int[count](_ => base);
    a[count - 1] := full - (count - 1) * base;
    sizes := a[..];
    LastSlot(full, count);
    TotalOfConstant(sizes[..count - 1], base);
    assert sizes[..count - 1] == sizes[..|sizes| - 1];
  }

  /** The last slot is the base size plus the remainder, and the base is positive when full >= count. */
  lemma LastSlot(full: nat, count: nat)
    requires count >= 1
    ensures SlotSize(full, count, count - 1) == BaseSize(full, count) + full % count
    ensures full >= count ==> BaseSize(full, count) >= 1
  {
    var base := full / count;
    assert full == count * base + full % count;
    assert count * base == (count - 1) * base + base;
  }

  /** Pixel p lies in the destination span of slot i. */
  predicate InSlot(full: nat, count: nat, p: int, i: int)
    requires count >= 1
  {
    0 <= i < count && SlotStart(full, count, i) <= p < SlotStart(full, count, i) + SlotSize(full, count, i)
  }

  /** The slot a pixel of [0, full) falls into. */
  function SlotOf(full: nat, count: nat, p: int): (i: int)
    requires count >= 1 && 0 <= p
    ensures 0 <= i < count
  {
    var base := BaseSize(full, count);
    if base == 0 then count - 1 else Min(p / base, count - 1)
  }

  lemma DivUnique(p: int, b: int, i: int)
    requires b > 0 && 0 <= i && i * b <= p < i * b + b
    ensures p / b == i
  {
    var q := p / b;
    assert p == q * b + p % b && 0 <= p % b < b;
    assert q >= 0;
    assert (q + 1) * b == q * b + b;
    assert (i + 1) * b == i * b + b;
    if q < i {
      MulMonotone(q + 1, i, b);
    } else if q > i {
      MulMonotone(i + 1, q, b);
    }
  }

  /** Every slot ends inside the extent. */
  lemma SlotEnds(full: nat, count: nat, i: int)
    requires count >= 1 && 0 <= i < count
    ensures 0 <= SlotStart(full, count, i)
    ensures SlotStart(full, count, i) + SlotSize(full, count, i) <= full
  {
    var base := BaseSize(full, count);
    assert full == count * base + full % count;
    if i < count - 1 {
      MulMonotone(i + 1, count, base);
      assert (i + 1) * base == i * base + base;
    }
  }

  /**
   * The slots partition [0, full): a pixel of the extent is in slot i
   * exactly when i is its SlotOf, and a pixel outside is in no slot.
   */
  lemma SlotPartition(full: nat, count: nat, p: int, i: int)
    requires count >= 1
    ensures 0 <= p < full ==> (InSlot(full, count, p, i) <==> i == SlotOf(full, count, p))
    ensures !(0 <= p < full) ==> !InSlot(full, count, p, i)
  {
    if 0 <= i < count {
      SlotEnds(full, count, i);
    }
    if 0 <= p < full {
      var base := BaseSize(full, count);
      if base == 0 {
        assert SlotStart(full, count, i) == 0;
      } else if 0 <= i < count - 1 {
        InnerSlot(full, count, p, i);
      } else if i == count - 1 {
        DivAtLeast(p, base, count - 1);
      }
    }
  }

  /** A slot before the last one holds exactly the pixels whose quotient by the base size is its index. */
  lemma InnerSlot(full: nat, count: nat, p: int, i: int)
    requires count >= 1 && 0 <= i < count - 1 && 0 <= p && BaseSize(full, count) > 0
    ensures InSlot(full, count, p, i) <==> i == SlotOf(full, count, p)
  {
    var base := BaseSize(full, count);
    assert (i + 1) * base == i * base + base;
    if InSlot(full, count, p, i) {
      DivUnique(p, base, i);
    }
    if i == SlotOf(full, count, p) {
      var q := p / base;
      assert q == i;
      assert p == q * base + p % base && 0 <= p % base < base;
    }
  }

  lemma DivAtLeast(p: int, b: int, k: int)
    requires 0 <= p && b > 0 && 0 <= k
    ensures p / b >= k <==> p >= k * b
  {
    var q := p / b;
    assert p == q * b + p % b && 0 <= p % b < b;
    assert (q + 1) * b == q * b + b;
    if q >= k {
      MulMonotone(k, q, b);
    } else {
      MulMonotone(q + 1, k, b);
    }
  }

  /**
   * The destination rectangles `(x * baseW, y * baseH, tileWidths[x], tileHeights[y])`
   * tile the canvas: a canvas pixel lies in exactly one of them, the one
   * given by SlotOf in each axis, and a pixel off the canvas in none.
   */
  lemma RectanglesTileCanvas(width: nat, height: nat, tilesX: nat, tilesY: nat, px: int, py: int, x: int, y: int)
    requires tilesX >= 1 && tilesY >= 1
    ensures 0 <= px < width && 0 <= py < height ==>
      (InSlot(width, tilesX, px, x) && InSlot(height, tilesY, py, y) <==>
       x == SlotOf(width, tilesX, px) && y == SlotOf(height, tilesY, py))
    ensures !(0 <= px < width && 0 <= py < height) ==>
      !(InSlot(width, tilesX, px, x) && InSlot(height, tilesY, py, y))
  {
    SlotPartition(width, tilesX, px, x);
    SlotPartition(height, tilesY, py, y);
  }
}
