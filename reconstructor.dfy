/**
 * Tile reconstruction (src/utils/Reconstructor.js): `reconstructImage`
 * checks that every `row_y` / `column_x` tile of a split grid is present,
 * decodes them, draws each into its slot of a fullWidth x fullHeight
 * canvas and re-encodes the canvas; `reconstructMasks` runs it on every
 * layer whose `split` is an object and stores the result in `png`.
 *
 * Image decoding (`loadImage`), encoding (`toDataURL`) and the scaling
 * `drawImage` performs when a tile's natural size differs from its slot
 * are browser code and enter as the parameters `decode`, `encode` and
 * `resample`.
 */
module Reconstructor {
  import opened Options
  import opened MaskGrid
  import opened JsValues
  import opened DataUrls
  import opened TileLayout

  /** A decoded image: `pixels[y][x]`, one packed RGBA value per pixel. */
  datatype Image = Image(width: nat, height: nat, pixels: seq<seq<int>>)

  predicate Shaped(img: Image, w: int, h: int) {
    img.width == w && img.height == h && |img.pixels| == h &&
    forall y :: 0 <= y < h ==> |img.pixels[y]| == w
  }

  /** A scaler that always yields an image of the requested size. */
  ghost predicate Resizes(resample: (Image, nat, nat) -> Image) {
    forall img: Image, w: nat, h: nat :: Shaped(resample(img, w, h), w, h)
  }

  /** What `drawImage` puts into a w x h slot: the tile itself when it already has that size. */
  function Fit(img: Image, w: nat, h: nat, resample: (Image, nat, nat) -> Image): (r: Image)
    requires Resizes(resample)
    ensures Shaped(r, w, h)
    ensures Shaped(img, w, h) ==> r == img
  {
    if Shaped(img, w, h) then img else resample(img, w, h)
  }

  function RowKey(y: nat): string { "row_" + NatToString(y) }

  function ColumnKey(x: nat): string { "column_" + NatToString(x) }

  /** Distinct rows and columns are addressed by distinct keys. */
  lemma KeysInjective(a: nat, b: nat)
    ensures RowKey(a) == RowKey(b) ==> a == b
    ensures ColumnKey(a) == ColumnKey(b) ==> a == b
  {
    assert RowKey(a)[4..] == NatToString(a) && RowKey(b)[4..] == NatToString(b);
    assert ColumnKey(a)[7..] == NatToString(a) && ColumnKey(b)[7..] == NatToString(b);
    if RowKey(a) == RowKey(b) || ColumnKey(a) == ColumnKey(b) {
      NatToStringInjective(a, b);
    }
  }

  /**
   * Neither `!tiles[rowKey]` nor `!tiles[rowKey][colKey]` holds, and the
   * first read does not throw (it does when `tiles` is nullish).
   */
  predicate TilePresent(tiles: JsValue, x: nat, y: nat) {
    var row := Get(tiles, RowKey(y));
    row.Ok? && Truthy(row.value) && Truthy(OptGet(row.value, ColumnKey(x)))
  }

  predicate AllTilesPresent(tiles: JsValue, tilesX: nat, tilesY: nat) {
    forall x: nat, y: nat :: x < tilesX && y < tilesY ==> TilePresent(tiles, x, y)
  }

  /** `tile_string`, as the template literal prints it. */
  function TileString(tiles: JsValue, x: nat, y: nat): string
    requires TilePresent(tiles, x, y)
  {
    ToKey(OptGet(Get(tiles, RowKey(y)).value, ColumnKey(x)))
  }

  /** One `loadImage` call of the request loop, with the slot it is for. */
  datatype Request = Request(src: string, x: nat, y: nat)

  /** One element of `loadedTiles`: `{ img, x, y }`. */
  datatype Tile = Tile(img: Image, x: nat, y: nat)

  function RequestFor(tiles: JsValue, x: nat, y: nat): Request
    requires TilePresent(tiles, x, y)
  {
    Request(PngDataUrl(TileString(tiles, x, y)), x, y)
  }

  /** The inner request loop over the columns of row y; None is the "missing tile" throw. */
  method RowRequests(tiles: JsValue, y: nat, tilesX: nat) returns (row: Option<seq<Request>>)
    ensures row.Some? <==> forall x: nat :: x < tilesX ==> TilePresent(tiles, x, y)
    ensures row.Some? ==> |row.value| == tilesX
    ensures row.Some? ==> forall x :: 0 <= x < tilesX ==> row.value[x] == RequestFor(tiles, x, y)
  {
    var requests: seq<Request> := [];
    var x := 0;
    while x < tilesX
      invariant 0 <= x <= tilesX
      invariant |requests| == x
      invariant forall i: nat :: i < x ==> TilePresent(tiles, i, y)
      invariant forall i :: 0 <= i < x ==> requests[i] == RequestFor(tiles, i, y)
    {
      var rowValue := Get(tiles, RowKey(y));
      if rowValue.TypeError? || !Truthy(rowValue.value) || !Truthy(OptGet(rowValue.value, ColumnKey(x))) {
        assert !TilePresent(tiles, x, y);
        return None;
      }
      requests := requests + [RequestFor(tiles, x, y)];
      x := x + 1;
    }
    return Some(requests);
  }

  /**
   * The nested request loop: one request per grid slot in row-major
   * order, request k being for the slot at buffer position k; None when
   * some tile is missing.
   */
  method RequestTiles(tiles: JsValue, tilesX: nat, tilesY: nat) returns (requests: Option<seq<Request>>)
    requires tilesX >= 1
    ensures requests.Some? <==> AllTilesPresent(tiles, tilesX, tilesY)
    ensures requests.Some? ==> |requests.value| == tilesX * tilesY
    ensures requests.Some? ==> forall k :: 0 <= k < |requests.value| ==>
      Point(requests.value[k].x, requests.value[k].y) == GridPosition(k, tilesX, tilesY) &&
      requests.value[k] == RequestFor(tiles, requests.value[k].x, requests.value[k].y)
  {
    var all: seq<Request> := [];
    var y := 0;
    while y < tilesY
      invariant 0 <= y <= tilesY
      invariant RequestsSoFar(tiles, tilesX, y, all)
    {
      var row := RowRequests(tiles, y, tilesX);
      if row.None? {
        return None;
      }
      RowAppended(tiles, tilesX, y, all, row.value);
      all := all + row.value;
      y := y + 1;
    }
    assert tilesY * tilesX == tilesX * tilesY;
    forall k | 0 <= k < |all|
      ensures Point(all[k].x, all[k].y) == GridPosition(k, tilesX, tilesY)
    {
      IndexInjective(Point(all[k].x, all[k].y), GridPosition(k, tilesX, tilesY), tilesX, tilesY);
    }
    return Some(all);
  }

  /** The requests of rows [0, y): row-major, one per slot, every tile of those rows present. */
  ghost predicate RequestsSoFar(tiles: JsValue, tilesX: nat, y: nat, all: seq<Request>) {
    && |all| == y * tilesX
    && (forall x: nat, y': nat :: x < tilesX && y' < y ==> TilePresent(tiles, x, y'))
    && (forall k :: 0 <= k < |all| ==>
          all[k].x < tilesX && all[k].y < y && all[k].y * tilesX + all[k].x == k &&
          TilePresent(tiles, all[k].x, all[k].y) && all[k] == RequestFor(tiles, all[k].x, all[k].y))
  }

  /** Appending the requests of row y extends the requests of the rows before it. */
  lemma RowAppended(tiles: JsValue, tilesX: nat, y: nat, all: seq<Request>, row: seq<Request>)
    requires RequestsSoFar(tiles, tilesX, y, all)
    requires forall x: nat :: x < tilesX ==> TilePresent(tiles, x, y)
    requires |row| == tilesX && forall x :: 0 <= x < tilesX ==> row[x] == RequestFor(tiles, x, y)
    ensures RequestsSoFar(tiles, tilesX, y + 1, all + row)
  {
    assert (y + 1) * tilesX == y * tilesX + tilesX;
    var next := all + row;
    forall k | |all| <= k < |next|
      ensures next[k].x < tilesX && next[k].y < y + 1 && next[k].y * tilesX + next[k].x == k
      ensures TilePresent(tiles, next[k].x, next[k].y) && next[k] == RequestFor(tiles, next[k].x, next[k].y)
    {
      assert next[k] == row[k - |all|];
    }
    forall k | 0 <= k < |all|
      ensures next[k] == all[k]
    {
    }
  }

  /** Each slot of the grid is requested exactly once, at its row-major position. */
  lemma RequestsCoverGrid(requests: seq<Request>, tilesX: nat, tilesY: nat, x: nat, y: nat, k: int)
    requires tilesX >= 1 && |requests| == tilesX * tilesY
    requires forall i :: 0 <= i < |requests| ==> Point(requests[i].x, requests[i].y) == GridPosition(i, tilesX, tilesY)
    requires x < tilesX && y < tilesY && 0 <= k < |requests|
    ensures requests[k].x == x && requests[k].y == y <==> k == CellIndex(Point(x, y), tilesX, tilesY)
  {
    var slot := CellIndex(Point(x, y), tilesX, tilesY);
    if requests[k].x == x && requests[k].y == y {
      assert Index(GridPosition(k, tilesX, tilesY), tilesX) == k;
    }
    if k == slot {
      IndexInjective(Point(x, y), GridPosition(k, tilesX, tilesY), tilesX, tilesY);
    }
  }

  /** `Promise.all` over the tile loads: every request must decode. */
  method LoadTiles(requests: seq<Request>, decode: string -> Option<Image>) returns (loaded: Option<seq<Tile>>)
    ensures loaded.Some? <==> forall k :: 0 <= k < |requests| ==> decode(requests[k].src).Some?
    ensures loaded.Some? ==> |loaded.value| == |requests|
    ensures loaded.Some? ==> forall k :: 0 <= k < |requests| ==>
      loaded.value[k] == Tile(decode(requests[k].src).value, requests[k].x, requests[k].y)
  {
    var tiles: seq<Tile> := [];
    var k := 0;
    while k < |requests|
      invariant 0 <= k <= |requests|
      invariant |tiles| == k
      invariant forall i :: 0 <= i < k ==> decode(requests[i].src).Some?
      invariant forall i :: 0 <= i < k ==> tiles[i] == Tile(decode(requests[i].src).value, requests[i].x, requests[i].y)
    {
      var img := decode(requests[k].src);
      if img.None? {
        return None;
      }
      tiles := tiles + [Tile(img.value, requests[k].x, requests[k].y)];
      k := k + 1;
    }
    return Some(tiles);
  }

  /**
   * The canvas pixel at (px, py) once every tile is drawn: the pixel of
   * the tile whose slot contains it, at its offset inside that slot.
   */
  function CompositePixel(loaded: seq<Tile>, width: nat, height: nat, tilesX: nat, tilesY: nat,
                          resample: (Image, nat, nat) -> Image, px: int, py: int): int
    requires tilesX >= 1 && tilesY >= 1 && |loaded| == tilesX * tilesY && Resizes(resample)
    requires 0 <= px < width && 0 <= py < height
  {
    var sx := SlotOf(width, tilesX, px);
    var sy := SlotOf(height, tilesY, py);
    SlotPartition(width, tilesX, px, sx);
    SlotPartition(height, tilesY, py, sy);
    var img := Fit(loaded[CellIndex(Point(sx, sy), tilesX, tilesY)].img,
                   SlotSize(width, tilesX, sx), SlotSize(height, tilesY, sy), resample);
    img.pixels[py - SlotStart(height, tilesY, sy)][px - SlotStart(width, tilesX, sx)]
  }

  function CompositeImage(loaded: seq<Tile>, width: nat, height: nat, tilesX: nat, tilesY: nat,
                          resample: (Image, nat, nat) -> Image): (img: Image)
    requires tilesX >= 1 && tilesY >= 1 && |loaded| == tilesX * tilesY && Resizes(resample)
    ensures Shaped(img, width, height)
  {
    Image(width, height,
      seq(height, py requires 0 <= py < height =>
        seq(width, px requires 0 <= px < width => CompositePixel(loaded, width, height, tilesX, tilesY, resample, px, py))))
  }

  /** Inside slot (x, y) the composite shows tile (x, y), unscaled when its size fits the slot. */
  lemma SlotShowsItsTile(loaded: seq<Tile>, width: nat, height: nat, tilesX: nat, tilesY: nat,
                         resample: (Image, nat, nat) -> Image, x: nat, y: nat, px: int, py: int)
    requires tilesX >= 1 && tilesY >= 1 && |loaded| == tilesX * tilesY && Resizes(resample)
    requires x < tilesX && y < tilesY
    requires InSlot(width, tilesX, px, x) && InSlot(height, tilesY, py, y)
    requires Shaped(loaded[CellIndex(Point(x, y), tilesX, tilesY)].img, SlotSize(width, tilesX, x), SlotSize(height, tilesY, y))
    ensures 0 <= px < width && 0 <= py < height
    ensures CompositePixel(loaded, width, height, tilesX, tilesY, resample, px, py) ==
      loaded[CellIndex(Point(x, y), tilesX, tilesY)].img.pixels[py - SlotStart(height, tilesY, y)][px - SlotStart(width, tilesX, x)]
  {
    SlotPartition(width, tilesX, px, x);
    SlotPartition(height, tilesY, py, y);
  }

  /** `ctx.drawImage(img, 0, 0, img.width, img.height, dx, dy, img.width, img.height)`: a plain copy. */
  method DrawTile(canvas: array2<int>, img: Image, dx: nat, dy: nat)
    requires Shaped(img, img.width, img.height)
    requires dy + img.height <= canvas.Length0 && dx + img.width <= canvas.Length1
    modifies canvas
    ensures forall py, px :: 0 <= py < canvas.Length0 && 0 <= px < canvas.Length1 ==>
      canvas[py, px] == if dy <= py < dy + img.height && dx <= px < dx + img.width
                        then img.pixels[py - dy][px - dx] else old(canvas[py, px])
  {
    var r := 0;
    while r < img.height
      invariant 0 <= r <= img.height
      invariant forall py, px :: 0 <= py < canvas.Length0 && 0 <= px < canvas.Length1 ==>
        canvas[py, px] == if dy <= py < dy + r && dx <= px < dx + img.width
                          then img.pixels[py - dy][px - dx] else old(canvas[py, px])
    {
      var c := 0;
      while c < img.width
        invariant 0 <= c <= img.width
        invariant forall py, px :: 0 <= py < canvas.Length0 && 0 <= px < canvas.Length1 ==>
          canvas[py, px] == if (dy <= py < dy + r && dx <= px < dx + img.width) || (py == dy + r && dx <= px < dx + c)
                            then img.pixels[py - dy][px - dx] else old(canvas[py, px])
      {
        canvas[dy + r, dx + c] := img.pixels[r][c];
        c := c + 1;
      }
      r := r + 1;
    }
  }

  /** A pixel is inside the rectangle drawn for tile k exactly when its slot is tile k's. */
  lemma DrawnRectangle(loaded: seq<Tile>, width: nat, height: nat, tilesX: nat, tilesY: nat, k: int, px: int, py: int)
    requires tilesX >= 1 && tilesY >= 1 && |loaded| == tilesX * tilesY
    requires 0 <= k < |loaded| && Point(loaded[k].x, loaded[k].y) == GridPosition(k, tilesX, tilesY)
    requires 0 <= px < width && 0 <= py < height
    ensures InSlot(width, tilesX, px, loaded[k].x) && InSlot(height, tilesY, py, loaded[k].y) <==>
      CellIndex(Point(SlotOf(width, tilesX, px), SlotOf(height, tilesY, py)), tilesX, tilesY) == k
  {
    var t := loaded[k];
    var s := Point(SlotOf(width, tilesX, px), SlotOf(height, tilesY, py));
    SlotPartition(width, tilesX, px, t.x);
    SlotPartition(height, tilesY, py, t.y);
    if CellIndex(s, tilesX, tilesY) == k {
      IndexInjective(s, Point(t.x, t.y), tilesX, tilesY);
    }
  }

  /** Every canvas pixel whose slot comes before tile k in row-major order holds its final value; the rest are still transparent. */
  ghost predicate DrawnUpTo(canvas: array2<int>, loaded: seq<Tile>, width: nat, height: nat, tilesX: nat, tilesY: nat,
                            resample: (Image, nat, nat) -> Image, k: int)
    requires tilesX >= 1 && tilesY >= 1 && |loaded| == tilesX * tilesY && Resizes(resample)
    reads canvas
  {
    canvas.Length0 == height && canvas.Length1 == width &&
    forall py, px :: 0 <= py < height && 0 <= px < width ==>
      canvas[py, px] == if CellIndex(Point(SlotOf(width, tilesX, px), SlotOf(height, tilesY, py)), tilesX, tilesY) < k
                        then CompositePixel(loaded, width, height, tilesX, tilesY, resample, px, py) else 0
  }

  /** One iteration of the draw loop: tile k is drawn into its own rectangle. */
  method DrawSlot(canvas: array2<int>, loaded: seq<Tile>, width: nat, height: nat, tilesX: nat, tilesY: nat,
                  resample: (Image, nat, nat) -> Image, tileWidths: seq<int>, tileHeights: seq<int>, k: int)
    requires tilesX >= 1 && tilesY >= 1 && |loaded| == tilesX * tilesY && Resizes(resample)
    requires 0 <= k < |loaded| && Point(loaded[k].x, loaded[k].y) == GridPosition(k, tilesX, tilesY)
    requires |tileWidths| == tilesX && forall i :: 0 <= i < tilesX ==> tileWidths[i] == SlotSize(width, tilesX, i) >= 0
    requires |tileHeights| == tilesY && forall i :: 0 <= i < tilesY ==> tileHeights[i] == SlotSize(height, tilesY, i) >= 0
    requires DrawnUpTo(canvas, loaded, width, height, tilesX, tilesY, resample, k)
    modifies canvas
    ensures DrawnUpTo(canvas, loaded, width, height, tilesX, tilesY, resample, k + 1)
  {
    var t := loaded[k];
    var placed := Fit(t.img, tileWidths[t.x], tileHeights[t.y], resample);
    SlotEnds(width, tilesX, t.x);
    SlotEnds(height, tilesY, t.y);
    DrawTile(canvas, placed, t.x * (width / tilesX), t.y * (height / tilesY));
    forall py, px | 0 <= py < height && 0 <= px < width
      ensures canvas[py, px] == if CellIndex(Point(SlotOf(width, tilesX, px), SlotOf(height, tilesY, py)), tilesX, tilesY) < k + 1
                                then CompositePixel(loaded, width, height, tilesX, tilesY, resample, px, py) else 0
    {
      DrawnRectangle(loaded, width, height, tilesX, tilesY, k, px, py);
      if InSlot(width, tilesX, px, t.x) && InSlot(height, tilesY, py, t.y) {
        PlacedPixel(loaded, width, height, tilesX, tilesY, resample, k, px, py);
      }
    }
  }

  /** Inside tile k's rectangle the composite pixel is the fitted tile's pixel at the offset from the slot's corner. */
  lemma PlacedPixel(loaded: seq<Tile>, width: nat, height: nat, tilesX: nat, tilesY: nat,
                    resample: (Image, nat, nat) -> Image, k: int, px: int, py: int)
    requires tilesX >= 1 && tilesY >= 1 && |loaded| == tilesX * tilesY && Resizes(resample)
    requires 0 <= k < |loaded| && Point(loaded[k].x, loaded[k].y) == GridPosition(k, tilesX, tilesY)
    requires 0 <= px < width && 0 <= py < height
    requires InSlot(width, tilesX, px, loaded[k].x) && InSlot(height, tilesY, py, loaded[k].y)
    ensures CompositePixel(loaded, width, height, tilesX, tilesY, resample, px, py) ==
      Fit(loaded[k].img, SlotSize(width, tilesX, loaded[k].x), SlotSize(height, tilesY, loaded[k].y), resample)
        .pixels[py - loaded[k].y * (height / tilesY)][px - loaded[k].x * (width / tilesX)]
  {
    DrawnRectangle(loaded, width, height, tilesX, tilesY, k, px, py);
    SlotPartition(width, tilesX, px, loaded[k].x);
    SlotPartition(height, tilesY, py, loaded[k].y);
  }

  /** The pixels of a canvas, row by row. */
  method ReadCanvas(canvas: array2<int>) returns (image: Image)
    ensures Shaped(image, canvas.Length1, canvas.Length0)
    ensures forall py, px :: 0 <= py < canvas.Length0 && 0 <= px < canvas.Length1 ==> image.pixels[py][px] == canvas[py, px]
  {
    var rows: seq<seq<int>> := [];
    var py := 0;
    while py < canvas.Length0
      invariant 0 <= py <= canvas.Length0 && |rows| == py
      invariant forall y :: 0 <= y < py ==> |rows[y]| == canvas.Length1
      invariant forall y, x :: 0 <= y < py && 0 <= x < canvas.Length1 ==> rows[y][x] == canvas[y, x]
    {
      var row: seq<int> := [];
      var px := 0;
      while px < canvas.Length1
        invariant 0 <= px <= canvas.Length1 && |row| == px
        invariant forall x :: 0 <= x < px ==> row[x] == canvas[py, x]
      {
        row := row + [canvas[py, px]];
        px := px + 1;
      }
      rows := rows + [row];
      py := py + 1;
    }
    image := Image(canvas.Length1, canvas.Length0, rows);
  }

  /**
   * The draw loop over `loadedTiles` on a fresh, transparent
   * width x height canvas, followed by reading the canvas back.
   */
  method Compose(loaded: seq<Tile>, width: nat, height: nat, tilesX: nat, tilesY: nat,
                 resample: (Image, nat, nat) -> Image) returns (image: Image)
    requires tilesX >= 1 && tilesY >= 1 && Resizes(resample)
    requires |loaded| == tilesX * tilesY
    requires forall k :: 0 <= k < |loaded| ==> Point(loaded[k].x, loaded[k].y) == GridPosition(k, tilesX, tilesY)
    ensures image == CompositeImage(loaded, width, height, tilesX, tilesY, resample)
  {
    var tileWidths := TileSizes(width, tilesX);
    var tileHeights := TileSizes(height, tilesY);
    var canvas := new int[height, width]((_, _) => 0);
    var k := 0;
    while k < |loaded|
      invariant 0 <= k <= |loaded|
      invariant DrawnUpTo(canvas, loaded, width, height, tilesX, tilesY, resample, k)
    {
      DrawSlot(canvas, loaded, width, height, tilesX, tilesY, resample, tileWidths, tileHeights, k);
      k := k + 1;
    }
    image := ReadCanvas(canvas);
    var expected := CompositeImage(loaded, width, height, tilesX, tilesY, resample);
    forall py | 0 <= py < height
      ensures image.pixels[py] == expected.pixels[py]
    {
      forall px | 0 <= px < width
        ensures image.pixels[py][px] == expected.pixels[py][px]
      {
        assert CellIndex(Point(SlotOf(width, tilesX, px), SlotOf(height, tilesY, py)), tilesX, tilesY) < |loaded|;
      }
    }
  }

  /** Every present tile decodes. */
  predicate AllDecode(tiles: JsValue, tilesX: nat, tilesY: nat, decode: string -> Option<Image>)
    requires AllTilesPresent(tiles, tilesX, tilesY)
  {
    forall x: nat, y: nat :: x < tilesX && y < tilesY ==> decode(RequestFor(tiles, x, y).src).Some?
  }

  /** The decoded tiles in row-major order, tile k for the slot at buffer position k. */
  function GridTiles(tiles: JsValue, tilesX: nat, tilesY: nat, decode: string -> Option<Image>): (grid: seq<Tile>)
    requires tilesX >= 1 && AllTilesPresent(tiles, tilesX, tilesY) && AllDecode(tiles, tilesX, tilesY, decode)
    ensures |grid| == tilesX * tilesY
  {
    seq(tilesX * tilesY, k requires 0 <= k < tilesX * tilesY =>
      var p := GridPosition(k, tilesX, tilesY);
      Tile(decode(RequestFor(tiles, p.x, p.y).src).value, p.x, p.y))
  }

  /**
   * What `reconstructImage` resolves to: `undefined` (None) when a tile
   * is missing or fails to load, otherwise the composite re-encoded with
   * its data-URL prefix removed.
   */
  function Reconstructed(tiles: JsValue, width: nat, height: nat, tilesX: nat, tilesY: nat,
                         decode: string -> Option<Image>, resample: (Image, nat, nat) -> Image,
                         encode: Image -> string): Option<string>
    requires tilesX >= 1 && tilesY >= 1 && Resizes(resample)
  {
    if !AllTilesPresent(tiles, tilesX, tilesY) || !AllDecode(tiles, tilesX, tilesY, decode) then None
    else Some(StripPngPrefix(encode(CompositeImage(GridTiles(tiles, tilesX, tilesY, decode), width, height, tilesX, tilesY, resample))))
  }

  /** `reconstructImage(tiles, fullWidth, fullHeight, tilesX, tilesY)`; every throw inside is caught. */
  method ReconstructImage(tiles: JsValue, fullWidth: nat, fullHeight: nat, tilesX: nat, tilesY: nat,
                          decode: string -> Option<Image>, resample: (Image, nat, nat) -> Image,
                          encode: Image -> string) returns (png: Option<string>)
    requires tilesX >= 1 && tilesY >= 1 && Resizes(resample)
    ensures png == Reconstructed(tiles, fullWidth, fullHeight, tilesX, tilesY, decode, resample, encode)
  {
    var requests := RequestTiles(tiles, tilesX, tilesY);
    if requests.None? {
      return None;
    }
    var reqs := requests.value;
    var loaded := LoadTiles(reqs, decode);
    if loaded.None? {
      LoadFailure(tiles, tilesX, tilesY, decode, reqs);
      return None;
    }
    LoadSuccess(tiles, tilesX, tilesY, decode, reqs, loaded.value);
    var image := Compose(loaded.value, fullWidth, fullHeight, tilesX, tilesY, resample);
    var url := encode(image);
    return Some(StripPngPrefix(url));
  }

  /** The request list of RequestTiles: one request per slot, in row-major order. */
  ghost predicate RequestGrid(tiles: JsValue, tilesX: nat, tilesY: nat, requests: seq<Request>) {
    tilesX >= 1 && AllTilesPresent(tiles, tilesX, tilesY) && |requests| == tilesX * tilesY &&
    forall k :: 0 <= k < |requests| ==>
      Point(requests[k].x, requests[k].y) == GridPosition(k, tilesX, tilesY) &&
      requests[k] == RequestFor(tiles, requests[k].x, requests[k].y)
  }

  /** A request that fails to decode is a slot that fails to decode. */
  lemma LoadFailure(tiles: JsValue, tilesX: nat, tilesY: nat, decode: string -> Option<Image>, requests: seq<Request>)
    requires AllTilesPresent(tiles, tilesX, tilesY) && RequestGrid(tiles, tilesX, tilesY, requests)
    requires !forall k :: 0 <= k < |requests| ==> decode(requests[k].src).Some?
    ensures !AllDecode(tiles, tilesX, tilesY, decode)
  {
    var k :| 0 <= k < |requests| && decode(requests[k].src).None?;
    assert decode(RequestFor(tiles, requests[k].x, requests[k].y).src).None?;
  }

  /** When every request decodes, every slot does, and the loaded tiles are the grid. */
  lemma LoadSuccess(tiles: JsValue, tilesX: nat, tilesY: nat, decode: string -> Option<Image>,
                    requests: seq<Request>, loaded: seq<Tile>)
    requires AllTilesPresent(tiles, tilesX, tilesY) && RequestGrid(tiles, tilesX, tilesY, requests)
    requires forall k :: 0 <= k < |requests| ==> decode(requests[k].src).Some?
    requires |loaded| == |requests|
    requires forall k :: 0 <= k < |requests| ==> loaded[k] == Tile(decode(requests[k].src).value, requests[k].x, requests[k].y)
    ensures AllDecode(tiles, tilesX, tilesY, decode)
    ensures loaded == GridTiles(tiles, tilesX, tilesY, decode)
  {
    forall x: nat, y: nat | x < tilesX && y < tilesY
      ensures decode(RequestFor(tiles, x, y).src).Some?
    {
      var k := CellIndex(Point(x, y), tilesX, tilesY);
      RequestsCoverGrid(requests, tilesX, tilesY, x, y, k);
    }
    assert loaded == GridTiles(tiles, tilesX, tilesY, decode);
  }

  /** A missing slot, or a slot holding a falsy value such as the empty string, makes the whole reconstruction `undefined`. */
  lemma MissingTileFails(tiles: JsValue, width: nat, height: nat, tilesX: nat, tilesY: nat,
                         decode: string -> Option<Image>, resample: (Image, nat, nat) -> Image,
                         encode: Image -> string, x: nat, y: nat)
    requires tilesX >= 1 && tilesY >= 1 && Resizes(resample)
    requires x < tilesX && y < tilesY
    requires tiles.Obj? && RowKey(y) in tiles.fields && tiles.fields[RowKey(y)].Obj?
    requires var row := tiles.fields[RowKey(y)].fields;
      ColumnKey(x) !in row || row[ColumnKey(x)] in {Undefined, Null, Str("")}
    ensures Reconstructed(tiles, width, height, tilesX, tilesY, decode, resample, encode) == None
  {
    assert !TilePresent(tiles, x, y);
  }

  /**
   * When every tile loads and has exactly its slot's size, each canvas
   * pixel of slot (x, y) is the pixel of tile (x, y) at the same offset
   * from the slot's top-left corner.
   */
  lemma ReconstructedShowsTiles(tiles: JsValue, width: nat, height: nat, tilesX: nat, tilesY: nat,
                                decode: string -> Option<Image>, resample: (Image, nat, nat) -> Image,
                                x: nat, y: nat, px: int, py: int)
    requires tilesX >= 1 && tilesY >= 1 && Resizes(resample)
    requires AllTilesPresent(tiles, tilesX, tilesY) && AllDecode(tiles, tilesX, tilesY, decode)
    requires x < tilesX && y < tilesY
    requires InSlot(width, tilesX, px, x) && InSlot(height, tilesY, py, y)
    requires Shaped(decode(RequestFor(tiles, x, y).src).value, SlotSize(width, tilesX, x), SlotSize(height, tilesY, y))
    ensures 0 <= py < height && 0 <= px < width
    ensures CompositeImage(GridTiles(tiles, tilesX, tilesY, decode), width, height, tilesX, tilesY, resample).pixels[py][px]
      == decode(RequestFor(tiles, x, y).src).value.pixels[py - SlotStart(height, tilesY, y)][px - SlotStart(width, tilesX, x)]
  {
    var grid := GridTiles(tiles, tilesX, tilesY, decode);
    var k := CellIndex(Point(x, y), tilesX, tilesY);
    IndexInjective(Point(x, y), GridPosition(k, tilesX, tilesY), tilesX, tilesY);
    assert grid[k].img == decode(RequestFor(tiles, x, y).src).value;
    SlotShowsItsTile(grid, width, height, tilesX, tilesY, resample, x, y, px, py);
  }

  /** A layer object of the segmentation list, whose properties `reconstructMasks` assigns in place. */
  class Item {
    var fields: map<string, JsValue>
  }

  /** `item.split && typeof item.split === 'object'`. */
  predicate HasSplit(fields: map<string, JsValue>) {
    "split" in fields && (fields["split"].Obj? || fields["split"].Arr?)
  }

  /** The value awaited into `item.png`: the string, or `undefined` when reconstruction failed. */
  function PngValue(png: Option<string>): JsValue {
    match png
    case Some(s) => Str(s)
    case None => Undefined
  }

  /** The properties of one layer after its turn in the `reconstructMasks` loop. */
  function UpdatedLayer(fields: map<string, JsValue>, width: nat, height: nat, tilesX: nat, tilesY: nat,
                        decode: string -> Option<Image>, resample: (Image, nat, nat) -> Image,
                        encode: Image -> string): (r: map<string, JsValue>)
    requires tilesX >= 1 && tilesY >= 1 && Resizes(resample)
  {
    if HasSplit(fields)
    then fields["png" := PngValue(Reconstructed(fields["split"], width, height, tilesX, tilesY, decode, resample, encode))]
    else fields
  }

  /**
   * Updating a layer twice is updating it once: the `png` it writes does
   * not change the `split` it reads.
   */
  lemma UpdatedLayerIdempotent(fields: map<string, JsValue>, width: nat, height: nat, tilesX: nat, tilesY: nat,
                               decode: string -> Option<Image>, resample: (Image, nat, nat) -> Image,
                               encode: Image -> string)
    requires tilesX >= 1 && tilesY >= 1 && Resizes(resample)
    ensures var once := UpdatedLayer(fields, width, height, tilesX, tilesY, decode, resample, encode);
      UpdatedLayer(once, width, height, tilesX, tilesY, decode, resample, encode) == once
  {
    if HasSplit(fields) {
      var once := UpdatedLayer(fields, width, height, tilesX, tilesY, decode, resample, encode);
      assert once["split"] == fields["split"];
    }
  }

  /**
   * `reconstructMasks`: the returned list is a shallow copy holding the
   * same item objects in the same order, and every item (however often
   * it occurs) has been updated once; items without an object `split`
   * keep their properties.
   */
  method ReconstructMasks(segmentation: seq<Item>, width: nat, height: nat, tilesX: nat, tilesY: nat,
                          decode: string -> Option<Image>, resample: (Image, nat, nat) -> Image,
                          encode: Image -> string) returns (updated: seq<Item>)
    requires tilesX >= 1 && tilesY >= 1 && Resizes(resample)
    modifies set i | 0 <= i < |segmentation| :: segmentation[i]
    ensures updated == segmentation
    ensures forall i :: 0 <= i < |segmentation| ==>
      segmentation[i].fields == UpdatedLayer(old(segmentation[i].fields), width, height, tilesX, tilesY, decode, resample, encode)
  {
    updated := segmentation;
    var i := 0;
    while i < |updated|
      invariant 0 <= i <= |updated| && updated == segmentation
      invariant forall j :: 0 <= j < |updated| ==>
        updated[j].fields == if updated[j] in updated[..i]
                             then UpdatedLayer(old(updated[j].fields), width, height, tilesX, tilesY, decode, resample, encode)
                             else old(updated[j].fields)
    {
      var item := updated[i];
      UpdatedLayerIdempotent(old(item.fields), width, height, tilesX, tilesY, decode, resample, encode);
      if HasSplit(item.fields) {
        var png := ReconstructImage(item.fields["split"], width, height, tilesX, tilesY, decode, resample, encode);
        item.fields := item.fields["png" := PngValue(png)];
      }
      assert updated[..i + 1] == updated[..i] + [item];
      i := i + 1;
    }
  }
}
