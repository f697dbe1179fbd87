/** The post-parse part of `getVersionsFromMavenMetadataXml`: the versions
    listed in a parsed `maven-metadata.xml`. */
module Metadata {
  import opened Wrappers
  import opened Tree

  /** The dotted path the version elements are read from. */
  const VersionPath := "metadata.versioning.versions.version"

  const VersionKeys: seq<string> := ["metadata", "versioning", "versions", "version"]

  /** The versions of a parsed metadata document, in document order. What
      the walk reaches is taken as is: `undefined` gives no versions, a
      repeated element gives its items, anything else one item. */
  function Versions(doc: Value): (vs: seq<Value>)
    ensures ChildAt(Some(doc), VersionKeys).None? ==> vs == []
    ensures forall xs :: ChildAt(Some(doc), VersionKeys) == Some(Arr(xs)) ==> vs == xs
    ensures var node := ChildAt(Some(doc), VersionKeys);
      node.Some? && !node.value.Arr? ==> vs == [node.value]
  {
    VersionPathKeys();
    match ObjectChildAt(Some(doc), VersionPath)
    case None => []
    case Some(Arr(xs)) => xs
    case Some(x) => [x]
  }

  /** The dotted path splits into the four keys walked. */
  lemma VersionPathKeys()
    ensures Split(VersionPath, '.') == VersionKeys
  {
    assert Join(VersionKeys, '.') == VersionPath;
    SplitJoin(VersionKeys, '.');
  }

  /** Element text for each version string. */
  function Texts(vs: seq<string>): (ts: seq<Value>)
    ensures |ts| == |vs|
    ensures forall i :: 0 <= i < |vs| ==> ts[i] == Str(vs[i])
  {
    seq(|vs|, i requires 0 <= i < |vs| => Str(vs[i]))
  }

  /** The parse of a metadata document listing `vs`: one `<version>`
      element parses to its text, several to a list. */
  function MetadataDocument(vs: seq<string>): Value
    requires |vs| >= 1
  {
    var version := if |vs| == 1 then Str(vs[0]) else Arr(Texts(vs));
    Obj(map["metadata" := Obj(map["versioning" := Obj(map["versions" := Obj(map["version" := version])])])])
  }

  /** Every listed version comes back, in document order, duplicates kept,
      a single one wrapped into a one-element list. */
  lemma VersionsRoundTrip(vs: seq<string>)
    requires |vs| >= 1
    ensures Versions(MetadataDocument(vs)) == Texts(vs)
  {
    var doc := MetadataDocument(vs);
    var node := if |vs| == 1 then Str(vs[0]) else Arr(Texts(vs));
    assert ChildAt(Some(doc), VersionKeys) == Some(node);
    if |vs| == 1 {
      assert Texts(vs) == [Str(vs[0])];
    }
  }

  /** A document without a `versioning` element lists no versions. */
  lemma VersionsWithoutVersioning(metadata: map<string, Value>)
    requires "versioning" !in metadata
    ensures Versions(Obj(map["metadata" := Obj(metadata)])) == []
  {
    assert ChildAt(Some(Obj(map["metadata" := Obj(metadata)])), VersionKeys) == None;
  }

  /** An empty `<versioning/>` element parses to the empty string; the walk
      stops there and that falsy value is wrapped, giving one empty version. */
  lemma VersionsOfEmptyVersioning()
    ensures Versions(Obj(map["metadata" := Obj(map["versioning" := Str("")])])) == [Str("")]
  {
    var doc := Obj(map["metadata" := Obj(map["versioning" := Str("")])]);
    assert VersionKeys[..2] == ["metadata", "versioning"];
    assert ChildAt(Some(doc), VersionKeys[..2]) == Some(Str(""));
    ChildAtStopsAtFirstFalsy(Some(doc), VersionKeys, 2);
  }
}
