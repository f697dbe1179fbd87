/** The coordinate normalizer: `getRequestUrl` turns a resolver coordinate
    such as `maven3+http://host/repo/artifact` into the plain request URL. */
module Coordinate {
  import opened Text

  /** The resolver-scheme marker, matched without regard to case. */
  const SchemeMarker := "maven3+"

  predicate HasSchemeMarker(source: string) {
    StartsWithIgnoringCase(source, SchemeMarker)
  }

  /** `getRequestUrl`: remove one leading scheme marker, if there is one. */
  function RequestUrl(source: string): (url: string)
    ensures |url| <= |source| && url == source[|source| - |url|..]
    ensures |url| < |source| <==> HasSchemeMarker(source)
  {
    if HasSchemeMarker(source) then source[|SchemeMarker|..] else source
  }

  /** Any casing of the marker in front of any text is removed, and exactly
      that text remains. */
  lemma RequestUrlRemovesMarker(marker: string, rest: string)
    requires |marker| == |SchemeMarker| && StartsWithIgnoringCase(marker, SchemeMarker)
    ensures RequestUrl(marker + rest) == rest
  {
  }

  /** Text that does not start with the marker is returned unchanged. */
  lemma RequestUrlKeepsUnmarked(source: string)
    requires !HasSchemeMarker(source)
    ensures RequestUrl(source) == source
  {
  }

  /** Normalizing twice changes nothing exactly when the normalized URL does
      not itself start with the marker. */
  lemma RequestUrlIdempotentIff(source: string)
    ensures RequestUrl(RequestUrl(source)) == RequestUrl(source)
        <==> !HasSchemeMarker(RequestUrl(source))
  {
  }

  /** Only one marker is removed: a doubled marker leaves one behind, so
      normalizing is not idempotent. */
  lemma RequestUrlNotIdempotent()
    ensures RequestUrl("maven3+maven3+http://x") == "maven3+http://x"
    ensures RequestUrl(RequestUrl("maven3+maven3+http://x")) == "http://x"
  {
  }
}
