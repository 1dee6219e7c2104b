/**
 * The layered mask overlay (src/components/MaskCanvas.jsx): each
 * segmentation layer's PNG is drawn onto its own canvas, recoloured in
 * place with the colour of its class, collected by class, and the layers
 * toggled on are drawn over the background.
 *
 * Image decoding and scaling are browser code; they appear as the
 * `rasterize` parameter, which yields the RGBA bytes of the scaled image
 * or fails. Canvases are represented by their RGBA bytes.
 */
module MaskCanvas {
  import opened Options
  import opened DataUrls

  /** The `source` of `loadImage`. */
  datatype ImageSource =
    | FileSource(name: string)   // a `File`
    | TextSource(text: string)   // a string, taken to be base64 PNG data
    | OtherSource                // anything else

  /** The `src` an image element is given. */
  datatype ImageUrl = ObjectUrl(file: string) | DataUrl(url: string)

  /**
   * `loadImage`'s choice of `src`: a File gets an object URL, a string
   * becomes a PNG data URL, anything else is rejected (None).
   */
  function LoadImage(source: ImageSource): (r: Option<ImageUrl>)
    ensures r.None? <==> source.OtherSource?
    ensures source.FileSource? ==> r == Some(ObjectUrl(source.name))
    ensures source.TextSource? ==> r.Some? && r.value.DataUrl? && HasPngPrefix(r.value.url)
  {
    match source
    case FileSource(name) => Some(ObjectUrl(name))
    case TextSource(text) => Some(DataUrl(PngDataUrl(text)))
    case OtherSource => None
  }

  /** The data URL carries the string unchanged: stripping the prefix gives it back. */
  lemma LoadImageKeepsPayload(text: string)
    ensures LoadImage(TextSource(text)).value.url[|PngPrefix|..] == text
    ensures StripPngPrefix(LoadImage(TextSource(text)).value.url) == text
  {
    StripAfterPrefix(text);
  }

  /** A layer colour from the settings table. */
  datatype Rgb = Rgb(r: int, g: int, b: int)

  /** A store into a `Uint8ClampedArray` clamps to [0, 255]. */
  function Clamp(v: int): (r: int)
    ensures 0 <= r <= 255
    ensures 0 <= v <= 255 ==> r == v
  {
    if v < 0 then 0 else if v > 255 then 255 else v
  }

  /** Pixel p has R, G or B above 10. */
  predicate IsBright(s: seq<int>, p: int) {
    0 <= 4 * p && 4 * p + 2 < |s| && (s[4 * p] > 10 || s[4 * p + 1] > 10 || s[4 * p + 2] > 10)
  }

  /** No pixel among the first n is bright. */
  predicate DarkBefore(s: seq<int>, n: int) {
    forall p :: 0 <= p < n ==> !IsBright(s, p)
  }

  predicate AnyBright(s: seq<int>) {
    exists p :: 0 <= p < |s| && IsBright(s, p)
  }

  /** One pass of the recolour loop body, on the four bytes of one pixel. */
  function RecolourPixel(px: seq<int>, colour: Rgb): seq<int>
    requires |px| == 4
  {
    if px[0] > 10 || px[1] > 10 || px[2] > 10 then [Clamp(colour.r), Clamp(colour.g), Clamp(colour.b), px[3]]
    else [px[0], px[1], px[2], 0]
  }

  /** The first n pixels of s after the recolour loop. */
  function RecolouredPixels(s: seq<int>, colour: Rgb, n: nat): (r: seq<int>)
    requires 4 * n <= |s|
    ensures |r| == 4 * n
  {
    if n == 0 then [] else RecolouredPixels(s, colour, n - 1) + RecolourPixel(s[4 * (n - 1)..4 * n], colour)
  }

  /** The whole buffer after the recolour loop. */
  function Recoloured(s: seq<int>, colour: Rgb): (r: seq<int>)
    requires |s| % 4 == 0
    ensures |r| == |s|
  {
    RecolouredPixels(s, colour, |s| / 4)
  }

  function Channel(colour: Rgb, k: int): int {
    if k == 0 then Clamp(colour.r) else if k == 1 then Clamp(colour.g) else Clamp(colour.b)
  }

  /** Byte k of pixel p after the loop, as a function of that pixel's own bytes. */
  function RecolouredByte(s: seq<int>, colour: Rgb, p: int, k: int): int
    requires 0 <= p && 4 * p + 4 <= |s| && 0 <= k < 4
  {
    if IsBright(s, p) then (if k < 3 then Channel(colour, k) else s[4 * p + 3])
    else (if k == 3 then 0 else s[4 * p + k])
  }

  lemma {:induction false} RecolouredPixelBytes(s: seq<int>, colour: Rgb, n: nat, p: int, k: int)
    requires 4 * n <= |s| && 0 <= p < n && 0 <= k < 4
    ensures RecolouredPixels(s, colour, n)[4 * p + k] == RecolouredByte(s, colour, p, k)
  {
    if p < n - 1 {
      RecolouredPixelBytes(s, colour, n - 1, p, k);
      RecolouredPrefix(s, colour, n, 4 * p + k);
    } else {
      RecolouredLast(s, colour, n, k);
    }
  }

  /** Recolouring one more pixel leaves the bytes of the earlier ones alone. */
  lemma RecolouredPrefix(s: seq<int>, colour: Rgb, n: nat, j: int)
    requires 0 < n && 4 * n <= |s| && 0 <= j < 4 * (n - 1)
    ensures RecolouredPixels(s, colour, n)[j] == RecolouredPixels(s, colour, n - 1)[j]
  {
  }

  /** The last recoloured pixel's bytes come from that pixel alone. */
  lemma RecolouredLast(s: seq<int>, colour: Rgb, n: nat, k: int)
    requires 0 < n && 4 * n <= |s| && 0 <= k < 4
    ensures RecolouredPixels(s, colour, n)[4 * (n - 1) + k] == RecolouredByte(s, colour, n - 1, k)
  {
    var px := s[4 * (n - 1)..4 * n];
    assert RecolouredPixels(s, colour, n)[4 * (n - 1) + k] == RecolourPixel(px, colour)[k];
    assert px[0] == s[4 * (n - 1)] && px[1] == s[4 * (n - 1) + 1] && px[2] == s[4 * (n - 1) + 2] && px[3] == s[4 * (n - 1) + 3];
  }

  /**
   * The recolouring, byte by byte: in a bright pixel the colour channels
   * take the layer colour and alpha is kept; in any other pixel the colour
   * channels are kept and alpha becomes 0. Byte k of pixel p depends only
   * on the bytes of pixel p.
   */
  lemma RecolouredBytes(s: seq<int>, colour: Rgb, p: int, k: int)
    requires |s| % 4 == 0 && 0 <= p && 4 * p + 4 <= |s| && 0 <= k < 4
    ensures Recoloured(s, colour)[4 * p + k] ==
      if IsBright(s, p) then (if k < 3 then Channel(colour, k) else s[4 * p + 3])
      else (if k == 3 then 0 else s[4 * p + k])
  {
    RecolouredPixelBytes(s, colour, |s| / 4, p, k);
  }

  /** With no bright pixel among the first n, the colour never shows. */
  lemma {:induction false} DarkPixelsIgnoreColour(s: seq<int>, c1: Rgb, c2: Rgb, n: nat)
    requires 4 * n <= |s| && forall p :: 0 <= p < n ==> !IsBright(s, p)
    ensures RecolouredPixels(s, c1, n) == RecolouredPixels(s, c2, n)
  {
    if n > 0 {
      DarkPixelsIgnoreColour(s, c1, c2, n - 1);
      assert !IsBright(s, n - 1);
    }
  }

  /** A colour never shows through in a buffer with no bright pixel. */
  lemma DarkIgnoresColour(s: seq<int>, c1: Rgb, c2: Rgb)
    requires |s| % 4 == 0 && !AnyBright(s)
    ensures Recoloured(s, c1) == Recoloured(s, c2)
  {
    forall p | 0 <= p < |s| / 4 ensures !IsBright(s, p) {
      assert p < |s|;
    }
    DarkPixelsIgnoreColour(s, c1, c2, |s| / 4);
  }

  /** `layerColors[layer.class]`, with an absent class read as black; black is never shown (see DarkIgnoresColour). */
  function ColourOrBlack(colour: Option<Rgb>): Rgb {
    if colour.Some? then colour.value else Rgb(0, 0, 0)
  }

  /**
   * The recolour loop over the image data of one layer, in place. When the
   * class has no colour, the first bright pixel throws (reading index 0 of
   * `undefined`) and ok is false.
   */
  method RecolourLayer(data: array<int>, colour: Option<Rgb>) returns (ok: bool)
    requires data.Length % 4 == 0
    modifies data
    ensures ok <==> colour.Some? || !AnyBright(old(data[..]))
    ensures ok ==> data[..] == Recoloured(old(data[..]), ColourOrBlack(colour))
  {
    ghost var original := data[..];
    var c := ColourOrBlack(colour);
    var i := 0;
    ghost var pixel := 0;
    ghost var total := PixelCount(data.Length);
    RecolourStart(original, c);
    while i < data.Length
      invariant i == 4 * pixel <= data.Length
      invariant Scanned(data[..], original, c, colour.None?, pixel)
    {
      var thrown := VisitPixel(data, i, colour, c, original, pixel);
      if thrown {
        return false;
      }
      i := i + 4;
      pixel := pixel + 1;
    }
    RecolourDone(data[..], original, c, pixel, colour.None?);
    return true;
  }

  /**
   * One pass of the loop body on the pixel at byte i: a bright pixel of a
   * class without a colour throws; otherwise the pixel is recoloured and
   * the loop's progress moves one pixel on.
   */
  method VisitPixel(data: array<int>, i: int, colour: Option<Rgb>, c: Rgb, ghost original: seq<int>, ghost pixel: nat)
    returns (thrown: bool)
    requires i == 4 * pixel && i + 4 <= data.Length && Scanned(data[..], original, c, colour.None?, pixel)
    requires c == ColourOrBlack(colour)
    modifies data
    ensures thrown ==> colour.None? && AnyBright(original)
    ensures !thrown ==> Scanned(data[..], original, c, colour.None?, pixel + 1)
  {
    UntouchedPixel(data[..], original, c, pixel);
    var bright := data[i] > 10 || data[i + 1] > 10 || data[i + 2] > 10;
    if bright && colour.None? {
      BrightFound(original, pixel);
      return true;
    }
    if colour.None? {
      DarkStep(original, pixel);
    }
    RecolourNext(data, i, c, original, pixel);
    return false;
  }

  /** A buffer of whole RGBA pixels holds length / 4 of them. */
  lemma PixelCount(length: int) returns (n: nat)
    requires 0 <= length && length % 4 == 0
    ensures length == 4 * n
  {
    n := length / 4;
  }

  lemma RecolourStart(original: seq<int>, c: Rgb)
    ensures Progress(original, original, c, 0)
  {
    assert original[..0] == [];
  }

  /**
   * When the loop has passed every pixel, the data is the recoloured image,
   * and without a colour no pixel was bright.
   */
  lemma RecolourDone(d: seq<int>, original: seq<int>, c: Rgb, count: nat, uncoloured: bool)
    requires |original| == 4 * count && Progress(d, original, c, count)
    requires uncoloured ==> DarkBefore(original, count)
    ensures d == Recoloured(original, c)
    ensures uncoloured ==> !AnyBright(original)
  {
    assert d == d[..4 * count];
    NoBrightPixels(original, count);
  }

  /** A bright pixel is a witness that the image has one. */
  lemma BrightFound(s: seq<int>, pixel: nat)
    requires IsBright(s, pixel)
    ensures AnyBright(s)
  {
    assert 0 <= pixel < |s|;
  }

  /** The loop reads pixel `pixel` before writing it, so it still sees the original bytes. */
  lemma UntouchedPixel(d: seq<int>, original: seq<int>, c: Rgb, pixel: nat)
    requires Progress(d, original, c, pixel) && 4 * pixel + 4 <= |d|
    ensures d[4 * pixel] == original[4 * pixel] && d[4 * pixel + 1] == original[4 * pixel + 1]
    ensures d[4 * pixel + 2] == original[4 * pixel + 2]
    ensures (d[4 * pixel] > 10 || d[4 * pixel + 1] > 10 || d[4 * pixel + 2] > 10) == IsBright(original, pixel)
  {
    var i := 4 * pixel;
    assert d[i..][..3] == original[i..][..3];
    assert d[i..][..3] == [d[i], d[i + 1], d[i + 2]];
  }

  /** A dark pixel after `pixel` dark ones extends the dark prefix. */
  lemma DarkStep(s: seq<int>, pixel: nat)
    requires DarkBefore(s, pixel) && !IsBright(s, pixel)
    ensures DarkBefore(s, pixel + 1)
  {
  }

  /** The loop's state after `pixel` pixels: progress, and no bright pixel yet when there is no colour. */
  ghost predicate Scanned(d: seq<int>, original: seq<int>, c: Rgb, uncoloured: bool, pixel: nat) {
    Progress(d, original, c, pixel) && (uncoloured ==> DarkBefore(original, pixel))
  }

  /** The first `pixel` pixels are recoloured and the rest are untouched. */
  ghost predicate Progress(d: seq<int>, original: seq<int>, c: Rgb, pixel: nat) {
    |d| == |original| && 4 * pixel <= |d| &&
    d[..4 * pixel] == RecolouredPixels(original, c, pixel) && d[4 * pixel..] == original[4 * pixel..]
  }

  /** One pass of the loop body, carrying the loop's progress one pixel on. */
  method RecolourNext(data: array<int>, i: int, c: Rgb, ghost original: seq<int>, ghost pixel: nat)
    requires i == 4 * pixel && i + 4 <= data.Length && Progress(data[..], original, c, pixel)
    modifies data
    ensures Progress(data[..], original, c, pixel + 1)
  {
    assert data[i..i + 4] == original[i..i + 4] by {
      assert data[i..][..4] == original[i..][..4];
    }
    RecolourPixelAt(data, i, c);
    assert data[..i + 4] == data[..i] + data[i..i + 4];
    assert data[i + 4..] == original[i + 4..] by {
      assert old(data[i..])[4..] == original[i..][4..];
    }
  }

  /** One pass of the loop body: the pixel at byte i is recoloured, nothing else changes. */
  method RecolourPixelAt(data: array<int>, i: int, c: Rgb)
    requires 0 <= i && i + 4 <= data.Length
    modifies data
    ensures data[..i] == old(data[..i])
    ensures data[i..i + 4] == RecolourPixel(old(data[i..i + 4]), c)
    ensures data[i + 4..] == old(data[i + 4..])
  {
    if data[i] > 10 || data[i + 1] > 10 || data[i + 2] > 10 {
      data[i] := Clamp(c.r);
      data[i + 1] := Clamp(c.g);
      data[i + 2] := Clamp(c.b);
    } else {
      data[i + 3] := 0;
    }
  }

  lemma NoBrightPixels(s: seq<int>, count: nat)
    requires |s| == 4 * count
    ensures DarkBefore(s, count) ==> !AnyBright(s)
  {
    if DarkBefore(s, count) {
      forall p | 0 <= p < |s| ensures !IsBright(s, p) {
      }
    }
  }

  /** An entry of `mask_layers.segmentation`: its class and its `png` source. */
  datatype SegLayer = SegLayer(cls: string, png: ImageSource)

  /** A processed layer: its class and the RGBA bytes of its canvas. */
  datatype LayerCanvas = LayerCanvas(cls: string, pixels: seq<int>)

  /**
   * Every image `rasterize` yields is the RGBA data of a width x height
   * canvas (`getImageData(0, 0, width, height)`).
   */
  ghost predicate RasterFits(rasterize: ImageUrl -> Option<seq<int>>, width: nat, height: nat) {
    forall u :: rasterize(u).Some? ==> |rasterize(u).value| == 4 * (width * height)
  }

  /** `layerColors[layer.class]`, absent for a class without a colour. */
  function ColourOf(colours: map<string, Rgb>, cls: string): Option<Rgb> {
    if cls in colours then Some(colours[cls]) else None
  }

  /**
   * What processing one layer yields: None when its source is rejected,
   * its image fails to load, or the recolour loop throws; otherwise the
   * recoloured canvas under the layer's class.
   */
  function ProcessedLayer(layer: SegLayer, width: nat, height: nat, colours: map<string, Rgb>,
                          rasterize: ImageUrl -> Option<seq<int>>): (r: Option<LayerCanvas>)
    requires RasterFits(rasterize, width, height)
    ensures r.Some? ==> r.value.cls == layer.cls && |r.value.pixels| == 4 * (width * height)
    ensures layer.png.OtherSource? ==> r.None?
  {
    match LoadImage(layer.png)
    case None => None
    case Some(url) =>
      match rasterize(url)
      case None => None
      case Some(pixels) =>
        var colour := ColourOf(colours, layer.cls);
        if colour.None? && AnyBright(pixels) then None
        else Some(LayerCanvas(layer.cls, Recoloured(pixels, ColourOrBlack(colour))))
  }

  /** The body of the per-layer `async` callback, its `catch` giving None. */
  method ProcessLayer(layer: SegLayer, width: nat, height: nat, colours: map<string, Rgb>,
                      rasterize: ImageUrl -> Option<seq<int>>) returns (result: Option<LayerCanvas>)
    requires RasterFits(rasterize, width, height)
    ensures result == ProcessedLayer(layer, width, height, colours, rasterize)
  {
    var url := LoadImage(layer.png);
    if url.None? {
      return None;
    }
    var loaded := rasterize(url.value);
    if loaded.None? {
      return None;
    }
    var pixels := loaded.value;
    var data := new int[|pixels|](i requires 0 <= i < |pixels| => pixels[i]);
    assert data[..] == pixels;
    var ok := RecolourLayer(data, ColourOf(colours, layer.cls));
    if !ok {
      return None;
    }
    return Some(LayerCanvas(layer.cls, data[..]));
  }

  /** The `filter(Boolean).reduce(...)` accumulator after the first results. */
  function LayerMap(results: seq<Option<LayerCanvas>>): map<string, seq<int>> {
    if |results| == 0 then map[]
    else
      var acc := LayerMap(results[..|results| - 1]);
      var last := results[|results| - 1];
      if last.Some? then acc[last.value.cls := last.value.pixels] else acc
  }

  /** Result i is a processed layer of class cls. */
  predicate Produced(results: seq<Option<LayerCanvas>>, i: int, cls: string) {
    0 <= i < |results| && results[i].Some? && results[i].value.cls == cls
  }

  /** A class is in the map exactly when some layer of that class was processed. */
  lemma {:induction false} LayerMapKeys(results: seq<Option<LayerCanvas>>, cls: string)
    ensures cls in LayerMap(results) <==> exists i :: Produced(results, i, cls)
  {
    if |results| > 0 {
      var init := results[..|results| - 1];
      LayerMapKeys(init, cls);
      if exists i :: Produced(results, i, cls) {
        var i :| Produced(results, i, cls);
        if i < |results| - 1 {
          assert Produced(init, i, cls);
        }
      }
      if exists i :: Produced(init, i, cls) {
        var i :| Produced(init, i, cls);
        assert Produced(results, i, cls);
      }
      if Produced(results, |results| - 1, cls) {
        assert cls in LayerMap(results);
      }
    }
  }

  /** With several layers of one class, the last processed one is kept. */
  lemma {:induction false} LayerMapLast(results: seq<Option<LayerCanvas>>, cls: string, i: int)
    requires Produced(results, i, cls)
    requires forall j :: i < j < |results| ==> !Produced(results, j, cls)
    ensures cls in LayerMap(results) && LayerMap(results)[cls] == results[i].value.pixels
  {
    var init := results[..|results| - 1];
    if i < |results| - 1 {
      assert !Produced(results, |results| - 1, cls);
      forall j | i < j < |init| ensures !Produced(init, j, cls) {
        assert !Produced(results, j, cls);
      }
      LayerMapLast(init, cls, i);
    }
  }

  /** The `reduce` over the successful results, writing `acc[layerClass] = canvas`. */
  method CollectLayers(results: seq<Option<LayerCanvas>>) returns (acc: map<string, seq<int>>)
    ensures acc == LayerMap(results)
  {
    acc := map[];
    var i := 0;
    while i < |results|
      invariant 0 <= i <= |results|
      invariant acc == LayerMap(results[..i])
    {
      assert results[..i + 1][..i] == results[..i];
      if results[i].Some? {
        acc := acc[results[i].value.cls := results[i].value.pixels];
      }
      i := i + 1;
    }
    assert results[..i] == results;
  }

  /** What the processing effect stores in `processedLayers`. */
  function AllLayers(segmentation: Option<seq<SegLayer>>, colours: Option<map<string, Rgb>>, width: nat, height: nat,
                     rasterize: ImageUrl -> Option<seq<int>>): Option<map<string, seq<int>>>
    requires RasterFits(rasterize, width, height)
  {
    if segmentation.None? || colours.None? || width == 0 || height == 0 then None
    else
      var layers := segmentation.value;
      Some(LayerMap(ProcessedLayers(layers, width, height, colours.value, rasterize)))
  }

  /** The outcome of every layer, in layer order (what `Promise.all` resolves to). */
  function ProcessedLayers(layers: seq<SegLayer>, width: nat, height: nat, colours: map<string, Rgb>,
                           rasterize: ImageUrl -> Option<seq<int>>): (r: seq<Option<LayerCanvas>>)
    requires RasterFits(rasterize, width, height)
    ensures |r| == |layers|
    ensures forall i :: 0 <= i < |layers| ==> r[i] == ProcessedLayer(layers[i], width, height, colours, rasterize)
  {
    if |layers| == 0 then []
    else
      ProcessedLayers(layers[..|layers| - 1], width, height, colours, rasterize)
      + [ProcessedLayer(layers[|layers| - 1], width, height, colours, rasterize)]
  }

  /**
   * The processing effect: null without segmentation, colours or a size;
   * otherwise every layer is processed (sequentially here, where the
   * source awaits them all together) and the survivors are collected.
   */
  method ProcessAllLayers(segmentation: Option<seq<SegLayer>>, colours: Option<map<string, Rgb>>, width: nat, height: nat,
                          rasterize: ImageUrl -> Option<seq<int>>) returns (processed: Option<map<string, seq<int>>>)
    requires RasterFits(rasterize, width, height)
    ensures processed == AllLayers(segmentation, colours, width, height, rasterize)
  {
    if segmentation.None? || colours.None? || width == 0 || height == 0 {
      return None;
    }
    var layers := segmentation.value;
    var results: seq<Option<LayerCanvas>> := [];
    var i := 0;
    while i < |layers|
      invariant 0 <= i <= |layers|
      invariant results == ProcessedLayers(layers[..i], width, height, colours.value, rasterize)
    {
      assert layers[..i + 1][..i] == layers[..i];
      var result := ProcessLayer(layers[i], width, height, colours.value, rasterize);
      results := results + [result];
      i := i + 1;
    }
    assert layers[..i] == layers;
    var collected := CollectLayers(results);
    return Some(collected);
  }

  /** A drawImage call as the canvas records it: the image and the alpha it was drawn with. */
  datatype DrawCall = DrawCall(pixels: seq<int>, alpha: real)

  /** The visible canvas and its 2D context. */
  class Canvas2D {
    var width: nat
    var height: nat
    var globalAlpha: real
    var drawn: seq<DrawCall>   // what has been drawn since the bitmap was last cleared

    constructor()
      ensures width == 0 && height == 0 && globalAlpha == 1.0 && drawn == []
    {
      width, height, globalAlpha, drawn := 0, 0, 1.0, [];
    }

    /** Assigning `canvas.width` / `canvas.height` clears the bitmap and resets the context state. */
    method Resize(w: nat, h: nat)
      modifies this
      ensures width == w && height == h && globalAlpha == 1.0 && drawn == []
    {
      width, height, globalAlpha, drawn := w, h, 1.0, [];
    }

    /** `ctx.clearRect(0, 0, width, height)` over the whole canvas. */
    method ClearAll()
      modifies this
      ensures drawn == [] && width == old(width) && height == old(height) && globalAlpha == old(globalAlpha)
    {
      drawn := [];
    }

    /** `ctx.drawImage(image, 0, 0, width, height)`, at the current alpha. */
    method DrawImage(pixels: seq<int>)
      modifies this
      ensures drawn == old(drawn) + [DrawCall(pixels, old(globalAlpha))]
      ensures width == old(width) && height == old(height) && globalAlpha == old(globalAlpha)
    {
      drawn := drawn + [DrawCall(pixels, globalAlpha)];
    }

    method SetAlpha(alpha: real)
      modifies this
      ensures globalAlpha == alpha && drawn == old(drawn) && width == old(width) && height == old(height)
    {
      globalAlpha := alpha;
    }
  }

  /** The classes drawn, in `viewLayers` order: toggled on and present among the processed layers. */
  function VisibleClasses(viewLayers: seq<(string, bool)>, layers: map<string, seq<int>>): seq<string> {
    if |viewLayers| == 0 then []
    else
      var last := viewLayers[|viewLayers| - 1];
      VisibleClasses(viewLayers[..|viewLayers| - 1], layers) + (if last.1 && last.0 in layers then [last.0] else [])
  }

  /** The draws of the layer loop, at the given opacity. */
  function LayerDraws(viewLayers: seq<(string, bool)>, layers: map<string, seq<int>>, opacity: real): seq<DrawCall> {
    var classes := VisibleClasses(viewLayers, layers);
    seq(|classes|, i requires 0 <= i < |classes| => if classes[i] in layers then DrawCall(layers[classes[i]], opacity) else DrawCall([], opacity))
  }

  /** A class is drawn exactly when some `viewLayers` entry toggles it on and it was processed. */
  lemma {:induction false} VisibleClassesMembership(viewLayers: seq<(string, bool)>, layers: map<string, seq<int>>, cls: string)
    ensures cls in VisibleClasses(viewLayers, layers) <==>
      cls in layers && exists i :: 0 <= i < |viewLayers| && viewLayers[i] == (cls, true)
  {
    if |viewLayers| > 0 {
      var init := viewLayers[..|viewLayers| - 1];
      VisibleClassesMembership(init, layers, cls);
      if exists i :: 0 <= i < |viewLayers| && viewLayers[i] == (cls, true) {
        var i :| 0 <= i < |viewLayers| && viewLayers[i] == (cls, true);
        if i < |init| {
          assert init[i] == (cls, true);
        }
      }
      if exists i :: 0 <= i < |init| && init[i] == (cls, true) {
        var i :| 0 <= i < |init| && init[i] == (cls, true);
        assert viewLayers[i] == (cls, true);
      }
    }
  }

  /** Every class drawn was processed, so every layer draw shows that class's canvas. */
  lemma {:induction false} VisibleClassesProcessed(viewLayers: seq<(string, bool)>, layers: map<string, seq<int>>)
    ensures forall k :: 0 <= k < |VisibleClasses(viewLayers, layers)| ==> VisibleClasses(viewLayers, layers)[k] in layers
  {
    if |viewLayers| > 0 {
      VisibleClassesProcessed(viewLayers[..|viewLayers| - 1], layers);
    }
  }

  /** The draws on the visible canvas after the draw effect. */
  function CanvasDraws(background: Option<seq<int>>, processed: Option<map<string, seq<int>>>,
                       viewLayers: seq<(string, bool)>, opacity: real): seq<DrawCall> {
    (if background.Some? then [DrawCall(background.value, 1.0)] else [])
    + (if processed.Some? then LayerDraws(viewLayers, processed.value, opacity) else [])
  }

  /**
   * The draw effect: nothing without a size; otherwise the canvas is
   * resized and cleared, the background (None when absent or when it
   * fails to load) is drawn, and the visible layers are drawn at the
   * given opacity, after which `globalAlpha` is 1.0 again.
   */
  method DrawVisibleLayers(ctx: Canvas2D, width: nat, height: nat, background: Option<seq<int>>,
                           processed: Option<map<string, seq<int>>>, viewLayers: seq<(string, bool)>, opacity: real)
    modifies ctx
    ensures width == 0 || height == 0 ==> unchanged(ctx)
    ensures width != 0 && height != 0 ==>
      ctx.width == width && ctx.height == height && ctx.globalAlpha == 1.0 &&
      ctx.drawn == CanvasDraws(background, processed, viewLayers, opacity)
  {
    if width == 0 || height == 0 {
      return;
    }
    ctx.Resize(width, height);
    ctx.ClearAll();
    if background.Some? {
      ctx.DrawImage(background.value);
    }
    if processed.None? {
      return;
    }
    var layers := processed.value;
    ghost var backdrop := ctx.drawn;
    ctx.SetAlpha(opacity);
    var k := 0;
    while k < |viewLayers|
      invariant 0 <= k <= |viewLayers|
      invariant ctx.width == width && ctx.height == height && ctx.globalAlpha == opacity
      invariant ctx.drawn == backdrop + LayerDraws(viewLayers[..k], layers, opacity)
    {
      var (cls, on) := viewLayers[k];
      assert viewLayers[..k + 1][..k] == viewLayers[..k];
      VisibleClassesProcessed(viewLayers[..k], layers);
      if on && cls in layers {
        ctx.DrawImage(layers[cls]);
      }
      k := k + 1;
    }
    assert viewLayers[..k] == viewLayers;
    ctx.SetAlpha(1.0);
  }
}
