/**
 * The point-prompt mask editor (src/components/edit/CanvasEditor.jsx):
 * the clicked points, the typed arrays fed to the segmentation model, the
 * mask input tensor built from the current segmentation PNG, and the
 * binarisation of the model's output into an RGBA overlay.
 *
 * The model session, `atob`, image decoding and canvas drawing are
 * foreign code and appear as function parameters.
 */
module CanvasEditor {
  import opened Options
  import opened DataUrls

  // ---------------------------------------------------------------------
  // base64ToFile

  /** A `File` built from bytes. */
  datatype PngFile = PngFile(name: string, mimeType: string, bytes: seq<int>)

  /** A store into a `Uint8Array` keeps the value modulo 256. */
  function ToUint8(v: int): (r: int)
    ensures 0 <= r < 256
    ensures 0 <= v < 256 ==> r == v
  {
    v % 256
  }

  /** The bytes the `charCodeAt` loop writes for a byte string. */
  function BytesOf(byteString: string): (r: seq<int>)
    ensures |r| == |byteString|
  {
    seq(|byteString|, i requires 0 <= i < |byteString| => ToUint8(byteString[i] as int))
  }

  /** A string whose characters all have codes below 256, as `atob` returns. */
  predicate IsByteString(s: string) {
    forall i :: 0 <= i < |s| ==> (s[i] as int) < 256
  }

  /** The byte string that a byte sequence spells. */
  function ByteStringOf(bytes: seq<int>): string
    requires forall i :: 0 <= i < |bytes| ==> 0 <= bytes[i] < 256
  {
    seq(|bytes|, i requires 0 <= i < |bytes| => bytes[i] as char)
  }

  /** For a byte string, the buffer holds exactly its character codes, and spells it back. */
  lemma BytesOfByteString(byteString: string)
    requires IsByteString(byteString)
    ensures forall i :: 0 <= i < |byteString| ==> BytesOf(byteString)[i] == byteString[i] as int
    ensures ByteStringOf(BytesOf(byteString)) == byteString
  {
    var bytes := BytesOf(byteString);
    forall i | 0 <= i < |byteString| ensures bytes[i] == byteString[i] as int {
      assert (byteString[i] as int) < 256;
    }
  }

  /**
   * `base64ToFile`: the data URL prefix is dropped, the rest is decoded by
   * `atob` (None where it would throw on malformed input), and the
   * characters are copied byte by byte into the PNG file.
   */
  method Base64ToFile(base64String: string, atob: string -> Option<string>, fileName: string := "floorplan.png")
    returns (file: Option<PngFile>)
    ensures atob(StripPngPrefix(base64String)).None? <==> file.None?
    ensures file.Some? ==>
      var byteString := atob(StripPngPrefix(base64String)).value;
      file.value.name == fileName && file.value.mimeType == "image/png" &&
      |file.value.bytes| == |byteString| &&
      forall i :: 0 <= i < |byteString| ==> file.value.bytes[i] == ToUint8(byteString[i] as int)
  {
    var base64Data := StripPngPrefix(base64String);
    var decoded := atob(base64Data);
    if decoded.None? {
      return None;
    }
    var byteString := decoded.value;
    var uint8Array := new int[|byteString|](_ => 0);
    for i := 0 to |byteString|
      invariant forall j :: 0 <= j < i ==> uint8Array[j] == ToUint8(byteString[j] as int)
    {
      uint8Array[i] := ToUint8(byteString[i] as int);
    }
    return Some(PngFile(fileName, "image/png", uint8Array[..]));
  }

  /** A PNG data URL of a payload becomes the file of the payload's decoding. */
  lemma FileOfDataUrl(payload: string, atob: string -> Option<string>)
    requires atob(payload).Some? && IsByteString(atob(payload).value)
    ensures ByteStringOf(BytesOf(atob(StripPngPrefix(PngDataUrl(payload))).value)) == atob(payload).value
  {
    StripAfterPrefix(payload);
    BytesOfByteString(atob(payload).value);
  }

  // ---------------------------------------------------------------------
  // Points and clicks

  /** A clicked prompt point in canvas coordinates; label 1 is positive, 0 negative. */
  datatype PromptPoint = PromptPoint(x: real, y: real, pointLabel: int)

  /** The radius within which a click in delete mode removes a point. */
  const DeleteRadius: real := 10.0

  /**
   * `Math.sqrt((point.x - x) ** 2 + (point.y - y) ** 2) > 10`, compared
   * through squares: both sides are non-negative, so the comparisons agree.
   */
  predicate FarFrom(p: PromptPoint, x: real, y: real) {
    (p.x - x) * (p.x - x) + (p.y - y) * (p.y - y) > DeleteRadius * DeleteRadius
  }

  /** `points.filter(point => dist > 10)`. */
  function DeleteNear(points: seq<PromptPoint>, x: real, y: real): seq<PromptPoint> {
    if |points| == 0 then []
    else DeleteNear(points[..|points| - 1], x, y) + (if FarFrom(points[|points| - 1], x, y) then [points[|points| - 1]] else [])
  }

  /** The points kept by a delete click are exactly those outside the radius. */
  lemma {:induction false} DeleteNearMembership(points: seq<PromptPoint>, x: real, y: real, p: PromptPoint)
    ensures p in DeleteNear(points, x, y) <==> p in points && FarFrom(p, x, y)
  {
    if |points| > 0 {
      var init := points[..|points| - 1];
      DeleteNearMembership(init, x, y, p);
      assert points == init + [points[|points| - 1]];
    }
  }

  /** The positions, in increasing order, of the points a delete click keeps. */
  function KeptIndices(points: seq<PromptPoint>, x: real, y: real): seq<int> {
    if |points| == 0 then []
    else KeptIndices(points[..|points| - 1], x, y) + (if FarFrom(points[|points| - 1], x, y) then [|points| - 1] else [])
  }

  /**
   * Deleting keeps the survivors in their order: the j-th kept point is the
   * point at position KeptIndices[j], those positions strictly increase, and
   * they are exactly the positions of the far points (so a repeated far
   * point is kept once per occurrence).
   */
  lemma {:induction false} DeleteNearInOrder(points: seq<PromptPoint>, x: real, y: real)
    ensures var kept, idx := DeleteNear(points, x, y), KeptIndices(points, x, y);
      && |idx| == |kept|
      && (forall j :: 0 <= j < |idx| ==> 0 <= idx[j] < |points| && kept[j] == points[idx[j]])
      && (forall i, j :: 0 <= i < j < |idx| ==> idx[i] < idx[j])
      && (forall i :: 0 <= i < |points| ==> (i in idx <==> FarFrom(points[i], x, y)))
  {
    if |points| > 0 {
      var init := points[..|points| - 1];
      DeleteNearInOrder(init, x, y);
      var idx := KeptIndices(init, x, y);
      assert forall j :: 0 <= j < |idx| ==> points[idx[j]] == init[idx[j]];
      assert forall i :: 0 <= i < |init| ==> points[i] == init[i];
      assert |points| - 1 !in idx;
    }
  }

  /** Deleting only drops points, and keeps every point when none is near. */
  lemma {:induction false} DeleteNearKeepsOrder(points: seq<PromptPoint>, x: real, y: real)
    ensures |DeleteNear(points, x, y)| <= |points|
    ensures (forall i :: 0 <= i < |points| ==> FarFrom(points[i], x, y)) ==> DeleteNear(points, x, y) == points
  {
    if |points| > 0 {
      var init, last := points[..|points| - 1], points[|points| - 1];
      DeleteNearKeepsOrder(init, x, y);
      assert points == init + [last];
      if forall i :: 0 <= i < |points| ==> FarFrom(points[i], x, y) {
        assert forall i :: 0 <= i < |init| ==> init[i] == points[i];
        assert DeleteNear(init, x, y) == init;
        assert FarFrom(points[|points| - 1], x, y);
      }
    }
  }

  /** A second delete click at the same place removes nothing more. */
  lemma DeleteNearIdempotent(points: seq<PromptPoint>, x: real, y: real)
    ensures DeleteNear(DeleteNear(points, x, y), x, y) == DeleteNear(points, x, y)
  {
    var kept := DeleteNear(points, x, y);
    forall i | 0 <= i < |kept| ensures FarFrom(kept[i], x, y) {
      DeleteNearMembership(points, x, y, kept[i]);
    }
    DeleteNearKeepsOrder(kept, x, y);
  }

  /** `label = currentMode === 'positive' ? 1 : 0`. */
  function ModeLabel(mode: string): (r: int)
    ensures r == 1 <==> mode == "positive"
    ensures r == 0 <==> mode != "positive"
  {
    if mode == "positive" then 1 else 0
  }

  /** `[...points, { x, y, label }]`. */
  function AddPoint(points: seq<PromptPoint>, mode: string, x: real, y: real): (r: seq<PromptPoint>)
    ensures |r| == |points| + 1 && r[..|points|] == points
    ensures r[|points|] == PromptPoint(x, y, ModeLabel(mode))
  {
    points + [PromptPoint(x, y, ModeLabel(mode))]
  }

  /** `points.slice(0, -1)`: the last point goes; an empty list stays empty. */
  function Undo(points: seq<PromptPoint>): (r: seq<PromptPoint>)
    ensures |points| == 0 ==> r == []
    ensures |points| > 0 ==> |r| == |points| - 1 && points == r + [points[|points| - 1]]
  {
    if |points| == 0 then [] else points[..|points| - 1]
  }

  /** Undo takes back an added point. */
  lemma UndoAfterAdd(points: seq<PromptPoint>, mode: string, x: real, y: real)
    ensures Undo(AddPoint(points, mode, x, y)) == points
  {
  }

  /**
   * `handleCanvasClick` after the coordinate scaling: nothing before the
   * embedding and session are ready or while loading; otherwise a delete
   * click removes the nearby points and any other mode adds a point.
   */
  function HandleClick(points: seq<PromptPoint>, ready: bool, mode: string, x: real, y: real): (r: seq<PromptPoint>)
    ensures !ready ==> r == points
    ensures ready && mode == "delete" ==> forall p :: p in r <==> p in points && FarFrom(p, x, y)
    ensures ready && mode != "delete" ==> r == AddPoint(points, mode, x, y) && Undo(r) == points
  {
    if !ready then points
    else if mode == "delete" then
      (forall p ensures p in DeleteNear(points, x, y) <==> p in points && FarFrom(p, x, y) {
         DeleteNearMembership(points, x, y, p);
       }
       DeleteNear(points, x, y))
    else AddPoint(points, mode, x, y)
  }

  // ---------------------------------------------------------------------
  // Prompt encoding

  /** `pointCoordsData`: x and y of each point, in order. */
  function PromptCoords(points: seq<PromptPoint>): (r: seq<real>)
    ensures |r| == 2 * |points|
  {
    if |points| == 0 then []
    else PromptCoords(points[..|points| - 1]) + [points[|points| - 1].x, points[|points| - 1].y]
  }

  /** `pointLabelsData`: the label of each point, in order. */
  function PromptLabels(points: seq<PromptPoint>): (r: seq<real>)
    ensures |r| == |points|
  {
    seq(|points|, i requires 0 <= i < |points| => points[i].pointLabel as real)
  }

  /** Point i sits at entries 2i and 2i + 1 of the coordinate array. */
  lemma {:induction false} PromptCoordsAt(points: seq<PromptPoint>, i: int)
    requires 0 <= i < |points|
    ensures PromptCoords(points)[2 * i] == points[i].x && PromptCoords(points)[2 * i + 1] == points[i].y
  {
    if i < |points| - 1 {
      PromptCoordsAt(points[..|points| - 1], i);
    }
  }

  /** Reads the points back out of the two arrays. */
  function DecodePrompt(coords: seq<real>, labels: seq<real>): seq<PromptPoint>
    requires |coords| == 2 * |labels|
  {
    seq(|labels|, i requires 0 <= i < |labels| => PromptPoint(coords[2 * i], coords[2 * i + 1], labels[i].Floor))
  }

  /** The encoding loses nothing: decoding the two arrays gives the points back. */
  lemma PromptRoundTrip(points: seq<PromptPoint>)
    ensures DecodePrompt(PromptCoords(points), PromptLabels(points)) == points
  {
    forall i | 0 <= i < |points| ensures DecodePrompt(PromptCoords(points), PromptLabels(points))[i] == points[i] {
      PromptCoordsAt(points, i);
    }
  }

  /** The `points.forEach` filling the two typed arrays. */
  method EncodePrompt(points: seq<PromptPoint>) returns (coords: seq<real>, labels: seq<real>)
    ensures coords == PromptCoords(points) && labels == PromptLabels(points)
  {
    var coordsData := new real[|points| * 2](_ => 0.0);
    var labelsData := new real[|points|](_ => 0.0);
    for i := 0 to |points|
      invariant coordsData[..2 * i] == PromptCoords(points[..i])
      invariant forall j :: 0 <= j < i ==> labelsData[j] == points[j].pointLabel as real
    {
      assert points[..i + 1][..i] == points[..i];
      PutPair(coordsData, 2 * i, points[i].x, points[i].y);
      labelsData[i] := points[i].pointLabel as real;
    }
    assert points[..|points|] == points;
    return coordsData[..], labelsData[..];
  }

  /** `data[k] = x; data[k + 1] = y`: the prefix grows by the pair. */
  method PutPair(data: array<real>, k: nat, x: real, y: real)
    requires k + 2 <= data.Length
    modifies data
    ensures data[..k + 2] == old(data[..k]) + [x, y]
  {
    data[k] := x;
    data[k + 1] := y;
    assert data[..k + 2] == data[..k] + [x, y];
  }

  // ---------------------------------------------------------------------
  // Mask input tensor

  /** The mask input is 256 x 256. */
  const TensorSide: nat := 256
  const TensorSize: nat := TensorSide * TensorSide

  /** `new Float32Array(256 * 256).fill(0)`. */
  function ZeroTensor(): (r: seq<real>)
    ensures |r| == TensorSize && forall i :: 0 <= i < |r| ==> r[i] == 0.0
  {
    seq(TensorSize, _ => 0.0)
  }

  /** `data[i * 4] / 255` for every pixel i. */
  function RedChannel(data: seq<int>): (r: seq<real>)
    requires |data| == 4 * TensorSize
    ensures |r| == TensorSize
  {
    seq(TensorSize, i requires 0 <= i < TensorSize => data[4 * i] as real / 255.0)
  }

  /** Red bytes give tensor entries in [0, 1] that scale back to the bytes. */
  lemma RedChannelRange(data: seq<int>, i: int)
    requires |data| == 4 * TensorSize && 0 <= i < TensorSize && 0 <= data[4 * i] <= 255
    ensures 0.0 <= RedChannel(data)[i] <= 1.0
    ensures RedChannel(data)[i] * 255.0 == data[4 * i] as real
  {
  }

  /** The normalisation loop of `convertSegSplitToTensor`. */
  method NormalizeRedChannel(data: seq<int>) returns (tensor: seq<real>)
    requires |data| == 4 * TensorSize
    ensures tensor == RedChannel(data)
  {
    var tensorData := new real[TensorSize](_ => 0.0);
    for i := 0 to tensorData.Length
      invariant forall j :: 0 <= j < i ==> tensorData[j] == data[4 * j] as real / 255.0
    {
      tensorData[i] := data[i * 4] as real / 255.0;
    }
    return tensorData[..];
  }

  /**
   * Every image `rasterize` yields is the RGBA data of the 256 x 256
   * canvas the segmentation PNG is drawn on; None stands for `onerror`.
   */
  ghost predicate RasterFits(rasterize: string -> Option<seq<int>>) {
    forall u :: rasterize(u).Some? ==> |rasterize(u).value| == 4 * TensorSize
  }

  /** The `mask_input` tensor: the current segmentation's red channel, or zeros. */
  function MaskInputOf(segSplit: string, ignorePredicted: bool, rasterize: string -> Option<seq<int>>): (r: seq<real>)
    requires RasterFits(rasterize)
    ensures |r| == TensorSize
  {
    if segSplit != "" && !ignorePredicted && rasterize(PngDataUrl(segSplit)).Some? then
      RedChannel(rasterize(PngDataUrl(segSplit)).value)
    else ZeroTensor()
  }

  /**
   * The `mask_input` choice of `generateMask`: the segmentation PNG is
   * drawn and normalised unless there is none or it is ignored; a load
   * failure falls back to zeros.
   */
  method MaskInput(segSplit: string, ignorePredicted: bool, rasterize: string -> Option<seq<int>>) returns (tensor: seq<real>)
    requires RasterFits(rasterize)
    ensures tensor == MaskInputOf(segSplit, ignorePredicted, rasterize)
  {
    if segSplit != "" && !ignorePredicted {
      var loaded := rasterize(PngDataUrl(segSplit));
      if loaded.Some? {
        tensor := NormalizeRedChannel(loaded.value);
        return;
      }
    }
    return ZeroTensor();
  }

  // ---------------------------------------------------------------------
  // generateMask

  datatype EditorImage = EditorImage(width: nat, height: nat)

  /** A mask and its dimensions, as `generateMask` returns it. */
  datatype MaskResult = MaskResult(data: seq<real>, width: nat, height: nat)

  /** The inputs of one run of the segmentation model. */
  datatype Feeds = Feeds(pointCoords: seq<real>, pointLabels: seq<real>, maskInput: seq<real>,
                         hasMaskInput: real, origImSize: seq<real>)

  /** The all-zero mask of the image's size. */
  function EmptyMask(image: EditorImage): (r: MaskResult)
    ensures |r.data| == image.width * image.height && r.width == image.width && r.height == image.height
    ensures forall i :: 0 <= i < |r.data| ==> r.data[i] == 0.0
  {
    MaskResult(seq(image.width * image.height, _ => 0.0), image.width, image.height)
  }

  /**
   * The feeds `generateMask` builds. `has_mask_input` is 1 whenever there
   * is a segmentation, even when it is ignored and the mask input is zeros.
   */
  function FeedsFor(points: seq<PromptPoint>, segSplit: string, ignorePredicted: bool,
                    rasterize: string -> Option<seq<int>>, image: EditorImage): Feeds
    requires RasterFits(rasterize)
  {
    Feeds(PromptCoords(points), PromptLabels(points), MaskInputOf(segSplit, ignorePredicted, rasterize),
          if segSplit != "" then 1.0 else 0.0, [image.height as real, image.width as real])
  }

  /**
   * `generateMask`: null until the embedding, session and image exist; the
   * empty mask with no points and no segmentation; otherwise the model's
   * output for the encoded prompt, `infer` being the model session (None
   * where it throws).
   */
  method GenerateMask(ready: bool, image: Option<EditorImage>, points: seq<PromptPoint>, segSplit: string,
                      ignorePredicted: bool, rasterize: string -> Option<seq<int>>, infer: Feeds -> Option<MaskResult>)
    returns (result: Option<MaskResult>)
    requires RasterFits(rasterize)
    ensures !ready || image.None? ==> result == None
    ensures ready && image.Some? && |points| == 0 && segSplit == "" ==> result == Some(EmptyMask(image.value))
    ensures ready && image.Some? && (|points| > 0 || segSplit != "") ==>
      result == infer(FeedsFor(points, segSplit, ignorePredicted, rasterize, image.value))
  {
    if !ready || image.None? {
      return None;
    }
    var img := image.value;
    if |points| == 0 && segSplit == "" {
      return Some(MaskResult(seq(img.width * img.height, _ => 0.0), img.width, img.height));
    }
    var coords, labels := EncodePrompt(points);
    var maskInput := MaskInput(segSplit, ignorePredicted, rasterize);
    var hasMaskInput := if segSplit != "" then 1.0 else 0.0;
    result := infer(Feeds(coords, labels, maskInput, hasMaskInput, [img.height as real, img.width as real]));
  }

  // ---------------------------------------------------------------------
  // renderMask

  /** The byte every channel of overlay pixel p gets: 255 where the mask is positive, 0 elsewhere. */
  function BinaryByte(maskData: seq<real>, p: int): int {
    if 0 <= p < |maskData| && maskData[p] > 0.0 then 255 else 0
  }

  /** The overlay's RGBA data: four equal bytes per pixel. */
  function Binarized(maskData: seq<real>, maskWidth: nat, maskHeight: nat): (r: seq<int>)
    ensures |r| == 4 * (maskWidth * maskHeight)
  {
    seq(4 * (maskWidth * maskHeight), j requires 0 <= j => BinaryByte(maskData, j / 4))
  }

  /**
   * The binarisation loop of `renderMask` over `createImageData(maskWidth,
   * maskHeight)`; as with any typed array, stores past its end are dropped.
   */
  method BinarizeMask(maskData: seq<real>, maskWidth: nat, maskHeight: nat) returns (rgba: seq<int>)
    ensures rgba == Binarized(maskData, maskWidth, maskHeight)
  {
    var data := new int[4 * (maskWidth * maskHeight)](_ => 0);
    for i := 0 to |maskData|
      invariant BinarizedUpTo(data[..], maskData, i)
    {
      ghost var before := data[..];
      var value := if maskData[i] > 0.0 then 1 else 0;
      WritePixel(data, i, value * 255);
      BinarizedStep(before, data[..], maskData, i);
    }
    BinarizedDone(data[..], maskData, maskWidth, maskHeight);
    return data[..];
  }

  /** The bytes of the first i pixels hold their binary value, the rest are still 0. */
  ghost predicate BinarizedUpTo(d: seq<int>, maskData: seq<real>, i: int) {
    forall j :: 0 <= j < |d| ==> d[j] == if j / 4 < i then BinaryByte(maskData, j / 4) else 0
  }

  lemma BinarizedStep(before: seq<int>, after: seq<int>, maskData: seq<real>, i: int)
    requires 0 <= i < |maskData| && BinarizedUpTo(before, maskData, i)
    requires |after| == |before|
    requires forall j :: 0 <= j < |after| ==> after[j] == if i * 4 <= j < i * 4 + 4 then BinaryByte(maskData, i) else before[j]
    ensures BinarizedUpTo(after, maskData, i + 1)
  {
    forall j | 0 <= j < |after|
      ensures after[j] == if j / 4 < i + 1 then BinaryByte(maskData, j / 4) else 0
    {
      DivFour(j, i);
    }
  }

  lemma DivFour(j: int, i: int)
    requires 0 <= j
    ensures j / 4 < i <==> j < i * 4
    ensures j / 4 == i <==> i * 4 <= j < i * 4 + 4
  {
  }

  lemma BinarizedDone(d: seq<int>, maskData: seq<real>, maskWidth: nat, maskHeight: nat)
    requires |d| == 4 * (maskWidth * maskHeight) && BinarizedUpTo(d, maskData, |maskData|)
    ensures d == Binarized(maskData, maskWidth, maskHeight)
  {
    forall j | 0 <= j < |d| ensures d[j] == BinaryByte(maskData, j / 4) {
    }
  }

  /** `data[i * 4 + k] = v` for k = 0 .. 3, each store dropped when past the end. */
  method WritePixel(data: array<int>, i: nat, v: int)
    requires data.Length % 4 == 0
    modifies data
    ensures forall j :: 0 <= j < data.Length ==> data[j] == if i * 4 <= j < i * 4 + 4 then v else old(data[j])
  {
    SetByte(data, i * 4, v);
    SetByte(data, i * 4 + 1, v);
    SetByte(data, i * 4 + 2, v);
    SetByte(data, i * 4 + 3, v);
  }

  /** `data[j] = v` on a typed array: ignored when j is past the end. */
  method SetByte(data: array<int>, j: int, v: int)
    requires 0 <= j
    modifies data
    ensures forall k :: 0 <= k < data.Length ==> data[k] == if k == j then v else old(data[k])
  {
    if j < data.Length {
      data[j] := v;
    }
  }

  /**
   * Each overlay pixel is opaque white where the mask is positive and
   * transparent black elsewhere, and its red byte tells which.
   */
  lemma BinarizedPixel(maskData: seq<real>, maskWidth: nat, maskHeight: nat, p: int, k: int)
    requires 0 <= p < maskWidth * maskHeight && 0 <= k < 4
    ensures 4 * p + k < |Binarized(maskData, maskWidth, maskHeight)|
    ensures Binarized(maskData, maskWidth, maskHeight)[4 * p + k] == Binarized(maskData, maskWidth, maskHeight)[4 * p]
    ensures Binarized(maskData, maskWidth, maskHeight)[4 * p] > 0 <==> p < |maskData| && maskData[p] > 0.0
  {
    assert (4 * p + k) / 4 == p;
  }

  /**
   * A 256 x 256 overlay fed back as the mask input gives the binary mask:
   * 1.0 where the mask was positive, 0.0 elsewhere.
   */
  lemma OverlayAsMaskInput(maskData: seq<real>, i: int)
    requires |maskData| == TensorSize && 0 <= i < TensorSize
    ensures RedChannel(Binarized(maskData, TensorSide, TensorSide))[i] == if maskData[i] > 0.0 then 1.0 else 0.0
  {
    BinarizedPixel(maskData, TensorSide, TensorSide, i, 0);
  }
}
