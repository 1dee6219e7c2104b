/**
 * The `data:image/png;base64,` URL prefix that the tile reconstruction,
 * the layer canvas and the editor put in front of, or strip from,
 * base64-encoded PNG payloads.
 */
module DataUrls {

  const PngPrefix: string := "data:image/png;base64,"

  /** `` `data:image/png;base64,${payload}` ``. */
  function PngDataUrl(payload: string): (url: string)
    ensures |url| == |PngPrefix| + |payload|
    ensures url[..|PngPrefix|] == PngPrefix && url[|PngPrefix|..] == payload
  {
    PngPrefix + payload
  }

  predicate HasPngPrefix(s: string) {
    |PngPrefix| <= |s| && s[..|PngPrefix|] == PngPrefix
  }

  /** `s.replace(/^data:image\/png;base64,/, '')`: drops one leading prefix, if any. */
  function StripPngPrefix(s: string): (r: string)
    ensures HasPngPrefix(s) ==> PngDataUrl(r) == s
    ensures !HasPngPrefix(s) ==> r == s
  {
    if HasPngPrefix(s) then s[|PngPrefix|..] else s
  }

  /** Stripping undoes prefixing, whatever the payload looks like. */
  lemma StripAfterPrefix(payload: string)
    ensures StripPngPrefix(PngDataUrl(payload)) == payload
  {
    assert HasPngPrefix(PngDataUrl(payload));
  }
}
