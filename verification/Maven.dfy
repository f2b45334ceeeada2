/** Paths of Gradle's verified artifacts in a Maven repository, and the parser the proxy applies to them. */
module Maven {
  import opened Options
  import opened Text

  datatype Component = Component(group: string, name: string, version: string)

  // ---- the version directory a file is published under ----

  /** The file name is name-version followed by an extension or a classifier. */
  predicate NamesVersion(artifact: string, name: string, version: string) {
    var prefix := name + "-" + version;
    HasPrefix(artifact, prefix) && (HasPrefix(artifact[|prefix|..], ".") || HasPrefix(artifact[|prefix|..], "-"))
  }

  /** A file name names a version exactly if it goes on with a dot or a dash after name and version. */
  lemma NamesVersionIs(artifact: string, name: string, version: string)
    ensures NamesVersion(artifact, name, version) <==>
      exists rest :: artifact == name + "-" + version + "." + rest || artifact == name + "-" + version + "-" + rest
  {
    var prefix := name + "-" + version;
    if NamesVersion(artifact, name, version) {
      var rest := artifact[|prefix| + 1..];
      assert artifact == prefix + [artifact[|prefix|]] + rest;
    }
    if exists rest :: artifact == prefix + "." + rest || artifact == prefix + "-" + rest {
      var rest :| artifact == prefix + "." + rest || artifact == prefix + "-" + rest;
      assert artifact[..|prefix|] == prefix;
    }
  }

  /** A candidate version the file name spells. */
  ghost predicate Spelled(c: Component, artifact: string, versions: set<string>, v: string) {
    v in versions + {c.version} && v != "" && NamesVersion(artifact, c.name, v)
  }

  /** The longest candidate the file name spells, or the component's own version when it spells none. */
  ghost predicate Published(c: Component, artifact: string, versions: set<string>, v: string) {
    if exists u :: Spelled(c, artifact, versions, u) then
      Spelled(c, artifact, versions, v) && forall u :: Spelled(c, artifact, versions, u) ==> |u| <= |v|
    else v == c.version
  }

  /** Of two versions one file name spells, the shorter is a prefix of the longer. */
  lemma SpelledNest(artifact: string, name: string, u: string, v: string)
    requires NamesVersion(artifact, name, u) && NamesVersion(artifact, name, v) && |u| <= |v|
    ensures HasPrefix(v, u) && (|u| == |v| ==> u == v)
  {
    var start := |name| + 1;
    assert artifact[start..start + |u|] == (name + "-" + u)[start..] == u;
    assert artifact[start..start + |v|] == (name + "-" + v)[start..] == v;
    assert v[..|u|] == artifact[start..start + |v|][..|u|] == artifact[start..start + |u|];
  }

  /** The published version depends only on which candidates there are, not on their order or number. */
  lemma PublishedIsUnique(c: Component, artifact: string, versions: set<string>, u: string, v: string)
    requires Published(c, artifact, versions, u) && Published(c, artifact, versions, v)
    ensures u == v
  {
    if Spelled(c, artifact, versions, u) {
      SpelledNest(artifact, c.name, u, v);
    }
  }

  method PublishedArtifactVersion(c: Component, artifact: string, moduleVersions: seq<string>) returns (v: string)
    ensures Published(c, artifact, (set u | u in moduleVersions), v)
    ensures v == c.version || v in moduleVersions
  {
    hide NamesVersion;
    v := "";
    var candidates := [c.version] + moduleVersions;
    for i := 0 to |candidates|
      invariant v == "" || (v in candidates[..i] && NamesVersion(artifact, c.name, v))
      invariant forall u :: u in candidates[..i] && NamesVersion(artifact, c.name, u) ==> |u| <= |v|
    {
      assert candidates[..i + 1] == candidates[..i] + [candidates[i]];
      if NamesVersion(artifact, c.name, candidates[i]) && |candidates[i]| > |v| {
        v := candidates[i];
      }
    }
    assert candidates[..|candidates|] == candidates;
    ghost var versions := set u | u in moduleVersions;
    assert forall u :: u in candidates <==> u in versions + {c.version};
    if v == "" {
      assert forall u :: !Spelled(c, artifact, versions, u);
      v := c.version;
    } else {
      assert Spelled(c, artifact, versions, v);
    }
  }

  // ---- printing ----

  predicate SafeSegment(s: string) {
    s != "" && s != "." && s != ".." && '/' !in s && '\\' !in s
  }

  /** A segment is refused if it is empty, means the same or the parent directory, or holds a slash of either kind. */
  ghost predicate Refused(s: string) {
    || |s| == 0 || s == ['.'] || s == ['.', '.']
    || exists i :: 0 <= i < |s| && (s[i] as int == 47 || s[i] as int == 92)
  }

  lemma RefusedIs(s: string)
    ensures SafeSegment(s) <==> !Refused(s)
  {
    assert forall i :: 0 <= i < |s| ==> (s[i] as int == 47 <==> s[i] == '/') && (s[i] as int == 92 <==> s[i] == '\\');
  }

  ghost function Segments(c: Component, version: string, artifact: string): seq<string> {
    Split(c.group, '.') + [c.name, version, artifact]
  }

  ghost predicate Safe(parts: seq<string>) {
    forall i :: 0 <= i < |parts| ==> SafeSegment(parts[i])
  }

  method MavenArtifactPath(c: Component, version: string, artifact: string) returns (path: Option<string>)
    ensures path == PathOf(c, version, artifact)
    ensures path.None? <==> exists i :: 0 <= i < |Segments(c, version, artifact)| && Refused(Segments(c, version, artifact)[i])
  {
    forall s ensures SafeSegment(s) <==> !Refused(s) {
      RefusedIs(s);
    }
    hide Refused;
    var parts := Split(c.group, '.') + [c.name, version, artifact];
    for i := 0 to |parts|
      invariant forall j :: 0 <= j < i ==> SafeSegment(parts[j])
    {
      if !SafeSegment(parts[i]) {
        return None;
      }
    }
    ghost var plain := parts;
    hide SafeSegment, PathEscape;
    for i := 0 to |parts|
      invariant |parts| == |plain| && Safe(plain)
      invariant forall j :: 0 <= j < i ==> parts[j] == PathEscape(plain[j])
      invariant forall j :: i <= j < |parts| ==> parts[j] == plain[j]
    {
      parts := parts[i := PathEscape(parts[i])];
    }
    assert parts == Escaped(plain);
    return Some(Join(parts, '/'));
  }

  /** The encoded path, if every segment is safe. */
  ghost function PathOf(c: Component, version: string, artifact: string): Option<string> {
    var parts := Segments(c, version, artifact);
    if Safe(parts) then Some(Join(Escaped(parts), '/')) else None
  }

  ghost predicate ByteStrings(c: Component, version: string, artifact: string) {
    Bytes(c.group) && Bytes(c.name) && Bytes(version) && Bytes(artifact)
  }

  lemma {:induction false} SplitBytes(s: string, sep: char)
    requires Bytes(s)
    ensures forall i :: 0 <= i < |Split(s, sep)| ==> Bytes(Split(s, sep)[i])
  {
    if s != "" {
      SplitBytes(s[1..], sep);
    }
  }

  /** Decoding and splitting a printed path gives the segments back. */
  lemma DecodedSegments(c: Component, version: string, artifact: string)
    requires ByteStrings(c, version, artifact) && PathOf(c, version, artifact).Some?
    ensures var parts := Segments(c, version, artifact);
      && PathUnescape(PathOf(c, version, artifact).value) == Some(Join(parts, '/'))
      && Split(Trim(Join(parts, '/'), '/'), '/') == parts && Trim(Join(parts, '/'), '/') != ""
      && |parts| >= 4 && Join(parts[..|parts| - 3], '.') == c.group
  {
    hide PathUnescape, PathEscape, Split, Join;
    var parts := Segments(c, version, artifact);
    SplitBytes(c.group, '.');
    UnescapePath(parts);
    JoinedEnds(parts, '/');
    SplitJoin(parts, '/');
    JoinSplit(c.group, '.');
    assert parts[..|parts| - 3] == Split(c.group, '.');
  }

  /** Two artifacts with one path have the same group, name, version and file name. */
  lemma PathIsInjective(c: Component, v: string, a: string, d: Component, w: string, b: string)
    requires ByteStrings(c, v, a) && ByteStrings(d, w, b)
    requires PathOf(c, v, a).Some? && PathOf(c, v, a) == PathOf(d, w, b)
    ensures c.group == d.group && c.name == d.name && v == w && a == b
  {
    hide PathUnescape, PathOf, Split, Join, Trim;
    DecodedSegments(c, v, a);
    DecodedSegments(d, w, b);
    var p, q := Segments(c, v, a), Segments(d, w, b);
    assert p == q;
    assert p[|p| - 3] == c.name && p[|p| - 2] == v && p[|p| - 1] == a;
    assert q[|q| - 3] == d.name && q[|q| - 2] == w && q[|q| - 1] == b;
  }

  function Coordinate(group: string, name: string, version: string): string {
    group + ":" + name + ":" + version
  }

  datatype Entry = Entry(component: Component, version: string, artifact: string)

  ghost predicate Printable(e: Entry) {
    PathOf(e.component, e.version, e.artifact).Some?
  }

  function CoordinateOf(e: Entry): string {
    Coordinate(e.component.group, e.component.name, e.version)
  }

  ghost predicate EntryBytes(e: Entry) {
    ByteStrings(e.component, e.version, e.artifact)
  }

  /** The entry's path is recorded with its coordinate. */
  ghost predicate Listed(e: Entry, paths: map<string, string>) {
    Printable(e) && EntryPath(e) in paths
    && paths[EntryPath(e)] == e.component.group + ":" + e.component.name + ":" + e.version
  }

  ghost function EntryPath(e: Entry): string
    requires Printable(e)
  {
    PathOf(e.component, e.version, e.artifact).value
  }

  ghost predicate Printed(entries: seq<Entry>, path: string) {
    exists i :: 0 <= i < |entries| && Printable(entries[i]) && EntryPath(entries[i]) == path
  }

  /** Exactly the paths of the entries, each with the coordinate of its entry. */
  ghost predicate Recording(entries: seq<Entry>, paths: map<string, string>) {
    && (forall i :: 0 <= i < |entries| ==> Listed(entries[i], paths))
    && (forall p :: p in paths ==> Printed(entries, p))
  }

  lemma CoordinateIs(e: Entry)
    ensures CoordinateOf(e) == e.component.group + ":" + e.component.name + ":" + e.version
  {
  }

  lemma SameCoordinate(entries: seq<Entry>, e: Entry, paths: map<string, string>)
    requires Recording(entries, paths) && (forall i :: 0 <= i < |entries| ==> EntryBytes(entries[i])) && EntryBytes(e)
    requires Printable(e) && EntryPath(e) in paths
    ensures paths[EntryPath(e)] == CoordinateOf(e)
  {
    CoordinateIs(e);
    hide PathOf;
    assert Printed(entries, EntryPath(e));
    var i :| 0 <= i < |entries| && Printable(entries[i]) && EntryPath(entries[i]) == EntryPath(e);
    var f := entries[i];
    PathIsInjective(e.component, e.version, e.artifact, f.component, f.version, f.artifact);
  }

  lemma PrintedGrows(entries: seq<Entry>, e: Entry, path: string)
    requires Printed(entries, path) || (Printable(e) && EntryPath(e) == path)
    ensures Printed(entries + [e], path)
  {
    hide Printable, EntryPath;
    var more := entries + [e];
    if Printed(entries, path) {
      var i :| 0 <= i < |entries| && Printable(entries[i]) && EntryPath(entries[i]) == path;
      assert more[i] == entries[i];
    } else {
      assert more[|entries|] == e;
    }
  }

  lemma RecordingGrows(entries: seq<Entry>, e: Entry, paths: map<string, string>)
    requires Recording(entries, paths) && Printable(e)
    requires EntryPath(e) in paths ==> paths[EntryPath(e)] == CoordinateOf(e)
    ensures Recording(entries + [e], paths[EntryPath(e) := CoordinateOf(e)])
  {
    hide Printable, EntryPath, Printed, CoordinateOf;
    CoordinateIs(e);
    var path := EntryPath(e);
    var grown := paths[path := CoordinateOf(e)];
    forall p | p in grown ensures Printed(entries + [e], p) {
      assert p != path ==> p in paths;
      PrintedGrows(entries, e, p);
    }
    forall i | 0 <= i < |entries + [e]| ensures Listed((entries + [e])[i], grown) {
      if i < |entries| {
        assert Listed(entries[i], paths);
      }
    }
  }

  /** Records the coordinate of every artifact under its path, or reports that one cannot be printed. Two coordinates
      never meet under one path, so the source's error for that is not among the results. */
  method RecordPaths(entries: seq<Entry>) returns (r: Option<map<string, string>>)
    requires forall e :: e in entries ==> EntryBytes(e)
    ensures r.None? <==> exists e :: e in entries && !Printable(e)
    ensures r.Some? ==> Recording(entries, r.value)
  {
    hide PathOf, Recording, EntryBytes, CoordinateOf;
    var paths: map<string, string> := map[];
    StartRecording();
    for i := 0 to |entries|
      invariant Recording(entries[..i], paths)
      invariant forall j :: 0 <= j < i ==> Printable(entries[j])
    {
      var e := entries[i];
      var path := MavenArtifactPath(e.component, e.version, e.artifact);
      if path.None? {
        assert !Printable(e);
        return None;
      }
      assert Printable(e) && EntryPath(e) == path.value;
      if path.value !in paths {
        RecordingGrows(entries[..i], e, paths);
        paths := paths[path.value := CoordinateOf(e)];
      } else {
        SameCoordinate(entries[..i], e, paths);
        RecordingGrows(entries[..i], e, paths);
        assert paths[path.value := CoordinateOf(e)] == paths;
      }
      assert entries[..i + 1] == entries[..i] + [e];
    }
    assert entries[..|entries|] == entries;
    return Some(paths);
  }

  lemma StartRecording()
    ensures Recording([], map[])
  {
  }

  // ---- parsing ----

  datatype Package = Package(ecosystem: string, name: string, version: string, purl: string)
  datatype RequestInfo = RequestInfo(kind: string, needsDecision: bool, package: Package)

  predicate Sidecar(filename: string) {
    || HasPrefix(filename, "maven-metadata.xml") || HasSuffix(filename, ".sha1") || HasSuffix(filename, ".md5")
    || HasSuffix(filename, ".sha256") || HasSuffix(filename, ".sha512")
  }

  /** The files that accompany an artifact: repository metadata and checksums. */
  lemma SidecarIs(filename: string)
    ensures Sidecar(filename) <==>
      || (exists rest :: filename == "maven-metadata.xml" + rest)
      || (exists stem :: filename == stem + ".sha1" || filename == stem + ".md5"
                         || filename == stem + ".sha256" || filename == stem + ".sha512")
  {
    AffixesAre(filename, "maven-metadata.xml");
    AffixesAre(filename, ".sha1");
    AffixesAre(filename, ".md5");
    AffixesAre(filename, ".sha256");
    AffixesAre(filename, ".sha512");
    hide HasPrefix, HasSuffix;
  }

  function SplitPath(path: string): seq<string> {
    var trimmed := Trim(path, '/');
    if trimmed == "" then [] else Split(trimmed, '/')
  }

  function Purl(name: string, version: string): string {
    if name == "" || version == "" then "" else "pkg:maven/" + name + "@" + version
  }

  function IdentifyMaven(ecosystem: string, relative: string, info: RequestInfo): RequestInfo {
    var parts := SplitPath(relative);
    var n := |parts|;
    if n < 4 then info
    else
      var filename, version, name := parts[n - 1], parts[n - 2], parts[n - 3];
      if Sidecar(filename) || !HasPrefix(filename, name + "-" + version) then info
      else
        var group := Join(parts[..n - 3], '.');
        RequestInfo("artifact", true, Package(ecosystem, group + ":" + name, version, Purl(group + "/" + name, version)))
  }

  lemma SegmentEnds(c: Component, version: string, artifact: string)
    ensures var parts := Segments(c, version, artifact);
      && |parts| >= 4 && parts[|parts| - 3] == c.name && parts[|parts| - 2] == version && parts[|parts| - 1] == artifact
      && (PathOf(c, version, artifact).Some? ==> version != "")
  {
    hide Split, Escaped, Join;
    var parts := Segments(c, version, artifact);
    assert parts[|parts| - 2] == version;
  }

  /** What the parser makes of a path that splits into these parts. */
  lemma IdentifyParts(ecosystem: string, relative: string, info: RequestInfo, parts: seq<string>, group: string)
    requires SplitPath(relative) == parts && |parts| >= 4 && Join(parts[..|parts| - 3], '.') == group
    ensures var n := |parts|;
      var filename, version, name := parts[n - 1], parts[n - 2], parts[n - 3];
      IdentifyMaven(ecosystem, relative, info)
        == if Sidecar(filename) || !HasPrefix(filename, name + "-" + version) then info
           else RequestInfo("artifact", true,
                            Package(ecosystem, group + ":" + name, version, Purl(group + "/" + name, version)))
  {
    hide SplitPath, Join, Sidecar, HasPrefix, Purl;
  }

  /** A path the parser recognises has a package URL exactly if it has a version. */
  lemma UnversionedHasNoPurl(ecosystem: string, relative: string, info: RequestInfo)
    requires !info.needsDecision && IdentifyMaven(ecosystem, relative, info).needsDecision
    ensures var package := IdentifyMaven(ecosystem, relative, info).package;
      package.purl == "" <==> package.version == ""
  {
    hide Trim, Split, Join, Sidecar, HasPrefix;
  }

  /** The proxy recovers from the decoded path exactly the group, name and version that printed it when the file name
      starts with them and is no checksum or metadata file; any other file it leaves undecided. */
  lemma IdentifyRecovers(c: Component, version: string, artifact: string, ecosystem: string, info: RequestInfo)
    requires ByteStrings(c, version, artifact) && PathOf(c, version, artifact).Some?
    ensures var decoded := PathUnescape(PathOf(c, version, artifact).value);
      && decoded.Some?
      && IdentifyMaven(ecosystem, decoded.value, info)
         == if HasPrefix(artifact, c.name + "-" + version) && !Sidecar(artifact)
            then RequestInfo("artifact", true, Package(ecosystem, c.group + ":" + c.name, version,
                                                       "pkg:maven/" + c.group + "/" + c.name + "@" + version))
            else info
  {
    var parts := Segments(c, version, artifact);
    SegmentEnds(c, version, artifact);
    hide PathUnescape, PathOf, Split, Join, Trim, Sidecar, HasPrefix, IdentifyMaven, Segments;
    DecodedSegments(c, version, artifact);
    IdentifyParts(ecosystem, Join(parts, '/'), info, parts, c.group);
    assert "pkg:maven/" + (c.group + "/" + c.name) + "@" + version == "pkg:maven/" + c.group + "/" + c.name + "@" + version;
  }

  /** A file that spells some candidate version is identified under the version it is published under, unless it is a
      checksum or metadata file. */
  lemma PublishedIsIdentified(c: Component, artifact: string, versions: set<string>, u: string, v: string,
                              ecosystem: string, info: RequestInfo)
    requires ByteStrings(c, v, artifact) && Published(c, artifact, versions, v)
    ensures PathOf(c, v, artifact).Some? && Spelled(c, artifact, versions, u) && !Sidecar(artifact) ==>
      var decoded := PathUnescape(PathOf(c, v, artifact).value);
      && decoded.Some? && IdentifyMaven(ecosystem, decoded.value, info).needsDecision
      && IdentifyMaven(ecosystem, decoded.value, info).package.version == v
      && IdentifyMaven(ecosystem, decoded.value, info).package.name == c.group + ":" + c.name
  {
    hide PathUnescape, PathOf, IdentifyMaven, Sidecar;
    if PathOf(c, v, artifact).Some? {
      IdentifyRecovers(c, v, artifact, ecosystem, info);
    }
  }
}
