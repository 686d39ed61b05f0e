/**
 The update manifest: what validation admits, and which release and artifact a
 request selects. Strict version parsing and URL checks are parameters.
 */
module ReleaseSelection {
  import opened Wrappers
  import opened ReleaseVersions

  datatype Channel = Stable | Beta

  datatype Architecture = Aarch64AppleDarwin | X86_64AppleDarwin

  datatype Artifact = Artifact(
    architecture: Architecture, minimumMacosVersion: string, bundleId: string, url: string, size: nat, sha256: string)

  datatype Release = Release(version: string, channel: Channel, artifacts: seq<Artifact>)

  datatype Manifest = Manifest(schemaVersion: nat, keyId: string, releases: seq<Release>)

  datatype UpdateError =
    | UnsupportedManifestVersion | WrongKeyId | InvalidManifest | InvalidVersion | DowngradeDenied
    | InvalidBundleId | InvalidUrl | ArtifactSize | InvalidHash

  /** The version and URL parsers of other libraries. */
  datatype Parsers = Parsers(version: string -> Option<Version>, url: string -> bool)

  const MANIFEST_SCHEMA_VERSION: nat := 1
  const MAX_KEY_ID: nat := 128
  const MAX_RELEASES: nat := 100
  const MAX_ARTIFACTS: nat := 8
  const MAX_BUNDLE_ID: nat := 200
  const MAX_ARTIFACT_BYTES: nat := 1024 * 1024 * 1024

  // ------------------------------------------------------------------ parsing

  function WithoutV(text: string): string
  {
    if text != "" && text[0] == 'v' then WithoutV(text[1..]) else text
  }

  function Dots(text: string): nat
  {
    if text == "" then 0 else (if text[0] == '.' then 1 else 0) + Dots(text[1..])
  }

  /** A leading `v` is dropped; one or two missing parts are zero. */
  function ParseVersion(parsers: Parsers, text: string): Option<Version>
  {
    var trimmed := WithoutV(text);
    var strict := parsers.version(trimmed);
    if strict.Some? then strict
    else if Dots(trimmed) == 0 then parsers.version(trimmed + ".0.0")
    else if Dots(trimmed) == 1 then parsers.version(trimmed + ".0")
    else None
  }

  lemma {:induction false} DotsJoin(one: string, other: string)
    ensures Dots(one + other) == Dots(one) + Dots(other)
  {
    if one == "" {
      assert one + other == other;
    } else {
      assert (one + other)[1..] == one[1..] + other;
      DotsJoin(one[1..], other);
    }
  }

  lemma {:induction false} NoDots(text: string)
    requires '.' !in text
    ensures Dots(text) == 0
  {
    if text != "" {
      NoDots(text[1..]);
    }
  }

  /**
   How versions may be spelled: with or without a leading v, in full, or short of one or
   two parts, which are then zero. A text that the strict parser takes is never changed.
   */
  lemma VersionSpellings(parsers: Parsers, text: string, major: string, minor: string)
    requires text == "" || text[0] != 'v'
    ensures ParseVersion(parsers, "v" + text) == ParseVersion(parsers, text)
    ensures parsers.version(text).Some? ==> ParseVersion(parsers, text) == parsers.version(text)
    ensures parsers.version(text).None? && text == major && '.' !in major ==>
      ParseVersion(parsers, text) == parsers.version(major + ".0.0")
    ensures parsers.version(text).None? && text == major + "." + minor && '.' !in major && '.' !in minor ==>
      ParseVersion(parsers, text) == parsers.version(major + "." + minor + ".0")
    ensures parsers.version(text).None? && Dots(text) > 1 ==> ParseVersion(parsers, text) == None
  {
    assert ("v" + text)[1..] == text;
    DotsJoin(major + ".", minor);
    DotsJoin(major, ".");
    assert "."[1..] == "";
    if '.' !in major {
      NoDots(major);
    }
    if '.' !in minor {
      NoDots(minor);
    }
  }

  // --------------------------------------------------------------- validation

  predicate IsAlphanumeric(c: char)
  {
    'a' <= c <= 'z' || 'A' <= c <= 'Z' || '0' <= c <= '9'
  }

  predicate IsKeyId(text: string)
  {
    1 <= |text| <= MAX_KEY_ID &&
    forall i :: 0 <= i < |text| ==> IsAlphanumeric(text[i]) || text[i] == '.' || text[i] == '-' || text[i] == '_'
  }

  predicate IsBundleId(text: string)
  {
    1 <= |text| <= MAX_BUNDLE_ID &&
    forall i :: 0 <= i < |text| ==> IsAlphanumeric(text[i]) || text[i] == '.' || text[i] == '-'
  }

  predicate IsSha256(text: string)
  {
    |text| == 64 && forall i :: 0 <= i < 64 ==> '0' <= text[i] <= '9' || 'a' <= text[i] <= 'f' || 'A' <= text[i] <= 'F'
  }

  predicate IsValidArtifact(parsers: Parsers, artifact: Artifact)
  {
    && ParseVersion(parsers, artifact.minimumMacosVersion).Some?
    && IsBundleId(artifact.bundleId)
    && parsers.url(artifact.url)
    && 1 <= artifact.size <= MAX_ARTIFACT_BYTES
    && IsSha256(artifact.sha256)
  }

  ghost predicate IsValidRelease(parsers: Parsers, release: Release)
  {
    && ParseVersion(parsers, release.version).Some?
    && (release.channel == Stable ==> ParseVersion(parsers, release.version).value.pre == [])
    && 1 <= |release.artifacts| <= MAX_ARTIFACTS
    && (forall i :: 0 <= i < |release.artifacts| ==> IsValidArtifact(parsers, release.artifacts[i]))
    && (forall i, j :: 0 <= i < j < |release.artifacts| ==>
        release.artifacts[i].architecture != release.artifacts[j].architecture)
  }

  /** What no two releases share: the version, however spelled, and the channel. */
  function KeyOf(parsers: Parsers, release: Release): (Option<Version>, Channel)
  {
    (ParseVersion(parsers, release.version), release.channel)
  }

  ghost predicate AreValidReleases(parsers: Parsers, releases: seq<Release>)
  {
    && (forall i :: 0 <= i < |releases| ==> IsValidRelease(parsers, releases[i]))
    && (forall i, j :: 0 <= i < j < |releases| ==> KeyOf(parsers, releases[i]) != KeyOf(parsers, releases[j]))
  }

  ghost predicate IsValidManifest(parsers: Parsers, manifest: Manifest, expectedKeyId: string)
  {
    && manifest.schemaVersion == MANIFEST_SCHEMA_VERSION
    && manifest.keyId == expectedKeyId && IsKeyId(expectedKeyId)
    && 1 <= |manifest.releases| <= MAX_RELEASES
    && AreValidReleases(parsers, manifest.releases)
  }

  method ValidateArtifacts(parsers: Parsers, artifacts: seq<Artifact>) returns (result: Result<Unit, UpdateError>)
    ensures result.Success? <==>
      && (forall i :: 0 <= i < |artifacts| ==> IsValidArtifact(parsers, artifacts[i]))
      && (forall i, j :: 0 <= i < j < |artifacts| ==> artifacts[i].architecture != artifacts[j].architecture)
    ensures result.Failure? ==> result.error !in {UnsupportedManifestVersion, WrongKeyId}
  {
    var architectures: set<Architecture> := {};
    for i := 0 to |artifacts|
      invariant forall k :: 0 <= k < i ==>
        IsValidArtifact(parsers, artifacts[k]) && artifacts[k].architecture in architectures
      invariant forall j, k :: 0 <= j < k < i ==> artifacts[j].architecture != artifacts[k].architecture
      invariant forall a :: a in architectures ==> exists k :: 0 <= k < i && artifacts[k].architecture == a
    {
      var artifact := artifacts[i];
      if artifact.architecture in architectures {
        return Failure(InvalidManifest);
      }
      architectures := architectures + {artifact.architecture};
      if ParseVersion(parsers, artifact.minimumMacosVersion).None? {
        return Failure(InvalidVersion);
      }
      if !IsBundleId(artifact.bundleId) {
        return Failure(InvalidBundleId);
      }
      if !parsers.url(artifact.url) {
        return Failure(InvalidUrl);
      }
      if artifact.size == 0 || artifact.size > MAX_ARTIFACT_BYTES {
        return Failure(ArtifactSize);
      }
      if !IsSha256(artifact.sha256) {
        return Failure(InvalidHash);
      }
    }
    return Success(Unit);
  }

  method ValidateReleases(parsers: Parsers, releases: seq<Release>) returns (result: Result<Unit, UpdateError>)
    ensures result.Success? <==> AreValidReleases(parsers, releases)
    ensures result.Failure? ==> result.error !in {UnsupportedManifestVersion, WrongKeyId}
  {
    var keys: set<(Option<Version>, Channel)> := {};
    for i := 0 to |releases|
      invariant forall k :: 0 <= k < i ==> IsValidRelease(parsers, releases[k]) && KeyOf(parsers, releases[k]) in keys
      invariant forall j, k :: 0 <= j < k < i ==> KeyOf(parsers, releases[j]) != KeyOf(parsers, releases[k])
      invariant forall key :: key in keys ==> exists k :: 0 <= k < i && KeyOf(parsers, releases[k]) == key
    {
      var release := releases[i];
      var version := ParseVersion(parsers, release.version);
      if version.None? || (release.channel == Stable && version.value.pre != []) {
        return Failure(InvalidVersion);
      }
      if KeyOf(parsers, release) in keys {
        return Failure(InvalidManifest);
      }
      keys := keys + {KeyOf(parsers, release)};
      if |release.artifacts| == 0 || |release.artifacts| > MAX_ARTIFACTS {
        return Failure(InvalidManifest);
      }
      var artifacts := ValidateArtifacts(parsers, release.artifacts);
      if artifacts.Failure? {
        return artifacts;
      }
    }
    return Success(Unit);
  }

  /** Validation admits exactly the manifests described above. */
  method ValidateManifest(parsers: Parsers, manifest: Manifest, expectedKeyId: string)
    returns (result: Result<Unit, UpdateError>)
    ensures result.Success? <==> IsValidManifest(parsers, manifest, expectedKeyId)
    ensures result == Failure(UnsupportedManifestVersion) <==> manifest.schemaVersion != MANIFEST_SCHEMA_VERSION
    ensures manifest.schemaVersion == MANIFEST_SCHEMA_VERSION ==>
      (result == Failure(WrongKeyId) <==> manifest.keyId != expectedKeyId || !IsKeyId(expectedKeyId))
  {
    if manifest.schemaVersion != MANIFEST_SCHEMA_VERSION {
      return Failure(UnsupportedManifestVersion);
    }
    if manifest.keyId != expectedKeyId || !IsKeyId(manifest.keyId) {
      return Failure(WrongKeyId);
    }
    if |manifest.releases| == 0 || |manifest.releases| > MAX_RELEASES {
      return Failure(InvalidManifest);
    }
    result := ValidateReleases(parsers, manifest.releases);
  }

  // ---------------------------------------------------------------- selection

  datatype Request = Request(
    currentVersion: string, channel: Channel, architecture: Architecture, macosVersion: string,
    requestedVersion: Option<string>, allowRollback: bool)

  /** A request with its versions parsed. */
  datatype Query = Query(
    current: Version, channel: Channel, architecture: Architecture, macos: Version,
    requested: Option<Version>, allowRollback: bool)

  function Parsed(parsers: Parsers, request: Request): Option<Query>
  {
    var current, macos := ParseVersion(parsers, request.currentVersion), ParseVersion(parsers, request.macosVersion);
    if current.None? || macos.None? then None
    else if request.requestedVersion.None? then
      Some(Query(current.value, request.channel, request.architecture, macos.value, None, request.allowRollback))
    else
      var requested := ParseVersion(parsers, request.requestedVersion.value);
      if requested.None? then None
      else Some(Query(current.value, request.channel, request.architecture, macos.value, requested,
                      request.allowRollback))
  }

  /** The requested version, or any newer one; an older one only as an allowed rollback. */
  predicate Wanted(query: Query, version: Version)
  {
    && (if query.requested.Some? then version == query.requested.value else VersionLess(query.current, version))
    && (VersionLess(version, query.current) ==> query.allowRollback)
  }

  predicate FitsRelease(parsers: Parsers, query: Query, release: Release)
  {
    && release.channel == query.channel
    && ParseVersion(parsers, release.version).Some?
    && Wanted(query, ParseVersion(parsers, release.version).value)
  }

  predicate FitsArtifact(parsers: Parsers, query: Query, artifact: Artifact)
  {
    && artifact.architecture == query.architecture
    && ParseVersion(parsers, artifact.minimumMacosVersion).Some?
    && !VersionLess(query.macos, ParseVersion(parsers, artifact.minimumMacosVersion).value)
  }

  /** A pair of the manifest that the query could be answered with. */
  predicate IsCompatible(parsers: Parsers, query: Query, releases: seq<Release>, release: Release, artifact: Artifact)
  {
    && release in releases && FitsRelease(parsers, query, release)
    && artifact in release.artifacts && FitsArtifact(parsers, query, artifact)
  }

  /** The compatible pair above all others, or none when there is none. */
  ghost predicate IsBest(parsers: Parsers, query: Query, releases: seq<Release>, best: Option<(Release, Artifact)>)
  {
    match best
    case None => forall release, artifact :: !IsCompatible(parsers, query, releases, release, artifact)
    case Some((release, artifact)) =>
      && IsCompatible(parsers, query, releases, release, artifact)
      && forall r, a :: IsCompatible(parsers, query, releases, r, a) && (r, a) != (release, artifact) ==>
           VersionLess(ParseVersion(parsers, r.version).value, ParseVersion(parsers, release.version).value)
  }

  /** The whole answer: malformed versions, a refused downgrade, the version already running, or the best pair. */
  ghost predicate IsAnswer(parsers: Parsers, request: Request, releases: seq<Release>,
                           result: Result<Option<(Release, Artifact)>, UpdateError>)
  {
    match Parsed(parsers, request)
    case None => result == Failure(InvalidVersion)
    case Some(query) =>
      if query.requested.Some? && VersionLess(query.requested.value, query.current) && !query.allowRollback then
        result == Failure(DowngradeDenied)
      else if query.requested == Some(query.current) then result == Success(None)
      else result.Success? && IsBest(parsers, query, releases, result.value)
  }

  /**
   What a request may be answered with, in terms of its texts: a release of its channel
   with an artifact for its architecture and a system no newer than its own, in the
   requested version or else a newer one, and in an older one only if rollback is allowed.
   */
  ghost predicate Eligible(parsers: Parsers, request: Request, releases: seq<Release>, release: Release,
                           artifact: Artifact)
  {
    var current, version := ParseVersion(parsers, request.currentVersion), ParseVersion(parsers, release.version);
    var macos, needed :=
      ParseVersion(parsers, request.macosVersion), ParseVersion(parsers, artifact.minimumMacosVersion);
    && release in releases && artifact in release.artifacts
    && release.channel == request.channel && artifact.architecture == request.architecture
    && current.Some? && version.Some? && macos.Some? && needed.Some?
    && (needed.value == macos.value || VersionLess(needed.value, macos.value))
    && (request.requestedVersion.None? ==> VersionLess(current.value, version.value))
    && (request.requestedVersion.Some? ==>
          && ParseVersion(parsers, request.requestedVersion.value) == version
          && (VersionLess(version.value, current.value) ==> request.allowRollback))
  }

  /**
   The answer in terms of the request's texts. A text that does not parse, a requested
   older version without rollback and the running version come first, in this order;
   then the answer is the eligible pair above all others, or none when there is none.
   */
  lemma AnswersExactly(parsers: Parsers, request: Request, releases: seq<Release>,
                       result: Result<Option<(Release, Artifact)>, UpdateError>)
    requires IsAnswer(parsers, request, releases, result)
    ensures var current, asked := ParseVersion(parsers, request.currentVersion), request.requestedVersion;
      if current.None? || ParseVersion(parsers, request.macosVersion).None?
         || (asked.Some? && ParseVersion(parsers, asked.value).None?) then result == Failure(InvalidVersion)
      else if asked.Some? && VersionLess(ParseVersion(parsers, asked.value).value, current.value)
              && !request.allowRollback then result == Failure(DowngradeDenied)
      else if asked.Some? && ParseVersion(parsers, asked.value) == current then result == Success(None)
      else
        && result.Success?
        && (result.value.None? ==>
              forall release, artifact :: !Eligible(parsers, request, releases, release, artifact))
        && (result.value.Some? ==>
              && Eligible(parsers, request, releases, result.value.value.0, result.value.value.1)
              && forall r, a :: Eligible(parsers, request, releases, r, a) && (r, a) != result.value.value ==>
                   VersionLess(ParseVersion(parsers, r.version).value,
                               ParseVersion(parsers, result.value.value.0.version).value))
  {
    hide VersionLess, ParseVersion, IsCompatible, Eligible;
    var parsed := Parsed(parsers, request);
    if parsed.Some? && parsed.value.requested != Some(parsed.value.current) {
      forall release, artifact
        ensures Eligible(parsers, request, releases, release, artifact) <==>
                IsCompatible(parsers, parsed.value, releases, release, artifact)
      {
        EligibleIsCompatible(parsers, request, releases, release, artifact);
      }
    }
  }

  lemma EligibleIsCompatible(parsers: Parsers, request: Request, releases: seq<Release>, release: Release,
                             artifact: Artifact)
    requires Parsed(parsers, request).Some?
    ensures Eligible(parsers, request, releases, release, artifact) <==>
      IsCompatible(parsers, Parsed(parsers, request).value, releases, release, artifact)
  {
    hide VersionLess, ParseVersion;
    var query := Parsed(parsers, request).value;
    var version, needed :=
      ParseVersion(parsers, release.version), ParseVersion(parsers, artifact.minimumMacosVersion);
    if needed.Some? {
      VersionTotal(needed.value, query.macos);
    }
    if version.Some? {
      VersionTotal(version.value, query.current);
    }
  }

  datatype Match = Match(version: Version, release: Release, artifact: Artifact)

  /** Stable sorting by version: a new element goes behind its equals. */
  function InsertedMatch(one: Match, sorted: seq<Match>): seq<Match>
  {
    if sorted == [] then [one]
    else if VersionLess(one.version, sorted[|sorted| - 1].version) then
      InsertedMatch(one, sorted[..|sorted| - 1]) + [sorted[|sorted| - 1]]
    else sorted + [one]
  }

  function SortedMatches(matches: seq<Match>): seq<Match>
  {
    if matches == [] then [] else InsertedMatch(matches[|matches| - 1], SortedMatches(matches[..|matches| - 1]))
  }

  ghost predicate AscendingMatches(sorted: seq<Match>)
  {
    forall i, j :: 0 <= i < j < |sorted| ==> !VersionLess(sorted[j].version, sorted[i].version)
  }

  lemma {:induction false} InsertedMatchSorted(one: Match, sorted: seq<Match>)
    requires AscendingMatches(sorted)
    ensures AscendingMatches(InsertedMatch(one, sorted))
    ensures multiset(InsertedMatch(one, sorted)) == multiset(sorted) + multiset{one}
  {
    if sorted != [] {
      var front, last := sorted[..|sorted| - 1], sorted[|sorted| - 1];
      assert sorted == front + [last];
      if VersionLess(one.version, last.version) {
        InsertedMatchSorted(one, front);
        var inner := InsertedMatch(one, front);
        forall i | 0 <= i < |inner| ensures !VersionLess(last.version, inner[i].version) {
          assert inner[i] in multiset(inner);
          VersionTotal(one.version, last.version);
          assert inner[i] == one || inner[i] in front;
        }
      } else {
        forall i | 0 <= i < |sorted| ensures !VersionLess(one.version, sorted[i].version) {
          if VersionLess(one.version, sorted[i].version) {
            BelowLast(one.version, sorted, i);
          }
        }
      }
    }
  }

  lemma BelowLast(version: Version, sorted: seq<Match>, i: nat)
    requires AscendingMatches(sorted) && i < |sorted| && VersionLess(version, sorted[i].version)
    ensures VersionLess(version, sorted[|sorted| - 1].version)
  {
    var last := sorted[|sorted| - 1].version;
    VersionTotal(sorted[i].version, last);
    if sorted[i].version != last {
      VersionTransitive(version, sorted[i].version, last);
    }
  }

  lemma {:induction false} SortedMatchesSorted(matches: seq<Match>)
    ensures AscendingMatches(SortedMatches(matches)) && multiset(SortedMatches(matches)) == multiset(matches)
  {
    if matches != [] {
      SortedMatchesSorted(matches[..|matches| - 1]);
      InsertedMatchSorted(matches[|matches| - 1], SortedMatches(matches[..|matches| - 1]));
      assert matches == matches[..|matches| - 1] + [matches[|matches| - 1]];
    }
  }

  predicate IsMatch(parsers: Parsers, query: Query, m: Match)
  {
    && FitsRelease(parsers, query, m.release)
    && m.version == ParseVersion(parsers, m.release.version).value
    && m.artifact in m.release.artifacts
    && FitsArtifact(parsers, query, m.artifact)
  }

  method MatchesOf(parsers: Parsers, query: Query, release: Release) returns (matches: seq<Match>)
    requires IsValidRelease(parsers, release)
    ensures forall m :: m in matches <==> m.release == release && IsMatch(parsers, query, m)
  {
    matches := [];
    if release.channel != query.channel {
      return;
    }
    var version := ParseVersion(parsers, release.version).value;
    if query.requested.Some? && query.requested.value != version {
      return;
    }
    if query.requested.None? && !VersionLess(query.current, version) {
      return;
    }
    if VersionLess(version, query.current) && !query.allowRollback {
      return;
    }
    for j := 0 to |release.artifacts|
      invariant forall m :: m in matches <==>
        m.release == release && m.version == version && m.artifact in release.artifacts[..j]
          && FitsArtifact(parsers, query, m.artifact)
    {
      var artifact := release.artifacts[j];
      assert release.artifacts[..j + 1] == release.artifacts[..j] + [artifact];
      if artifact.architecture != query.architecture {
        continue;
      }
      if VersionLess(query.macos, ParseVersion(parsers, artifact.minimumMacosVersion).value) {
        continue;
      }
      matches := matches + [Match(version, release, artifact)];
    }
    assert release.artifacts[..|release.artifacts|] == release.artifacts;
  }

  /** In valid releases a version and channel name one release, an architecture one artifact of it. */
  lemma OnePerVersion(parsers: Parsers, query: Query, releases: seq<Release>, one: Match, other: Match)
    requires AreValidReleases(parsers, releases) && one.release in releases && other.release in releases
    requires IsMatch(parsers, query, one) && IsMatch(parsers, query, other) && one.version == other.version
    ensures one == other
  {
    var i :| 0 <= i < |releases| && releases[i] == one.release;
    var j :| 0 <= j < |releases| && releases[j] == other.release;
    assert KeyOf(parsers, releases[i]) == KeyOf(parsers, releases[j]);
    assert i == j && IsValidRelease(parsers, releases[i]);
    var artifacts := one.release.artifacts;
    var k :| 0 <= k < |artifacts| && artifacts[k] == one.artifact;
    var l :| 0 <= l < |artifacts| && artifacts[l] == other.artifact;
    assert artifacts[k].architecture == artifacts[l].architecture;
  }

  /** A match is the last one in ascending order, or below it. */
  lemma BesideLast(parsers: Parsers, query: Query, releases: seq<Release>, matches: seq<Match>, m: Match)
    requires AreValidReleases(parsers, releases) && m in matches
    requires forall other :: other in matches ==> other.release in releases && IsMatch(parsers, query, other)
    ensures var sorted := SortedMatches(matches);
      && sorted != [] && sorted[|sorted| - 1] in matches
      && (m == sorted[|sorted| - 1] || VersionLess(m.version, sorted[|sorted| - 1].version))
  {
    hide IsMatch, AreValidReleases, VersionLess;
    SortedMatchesSorted(matches);
    var sorted := SortedMatches(matches);
    assert m in multiset(sorted);
    var i :| 0 <= i < |sorted| && sorted[i] == m;
    var last := sorted[|sorted| - 1];
    assert last in multiset(matches);
    VersionTotal(m.version, last.version);
    if m.version == last.version {
      OnePerVersion(parsers, query, releases, m, last);
    }
  }

  /** The last of all matches in ascending order is the best pair. */
  lemma LastIsBest(parsers: Parsers, query: Query, releases: seq<Release>, matches: seq<Match>)
    requires AreValidReleases(parsers, releases)
    requires forall m :: m in matches <==> m.release in releases && IsMatch(parsers, query, m)
    ensures var sorted := SortedMatches(matches);
      IsBest(parsers, query, releases, if sorted == [] then None
             else Some((sorted[|sorted| - 1].release, sorted[|sorted| - 1].artifact)))
  {
    hide AreValidReleases, VersionLess, SortedMatches, FitsArtifact;
    var sorted := SortedMatches(matches);
    forall r, a | IsCompatible(parsers, query, releases, r, a)
      ensures sorted != [] && ((r, a) == (sorted[|sorted| - 1].release, sorted[|sorted| - 1].artifact)
        || VersionLess(ParseVersion(parsers, r.version).value, sorted[|sorted| - 1].version))
    {
      var m := Match(ParseVersion(parsers, r.version).value, r, a);
      assert m in matches;
      BesideLast(parsers, query, releases, matches, m);
    }
    if sorted != [] {
      SortedMatchesSorted(matches);
      assert sorted[|sorted| - 1] in multiset(matches);
    }
  }

  method SelectRelease(parsers: Parsers, releases: seq<Release>, request: Request)
    returns (result: Result<Option<(Release, Artifact)>, UpdateError>)
    requires AreValidReleases(parsers, releases)
    ensures IsAnswer(parsers, request, releases, result)
  {
    var parsed := Parsed(parsers, request);
    if parsed.None? {
      return Failure(InvalidVersion);
    }
    var query := parsed.value;
    if query.requested.Some? {
      if VersionLess(query.requested.value, query.current) && !query.allowRollback {
        return Failure(DowngradeDenied);
      }
      if query.requested.value == query.current {
        return Success(None);
      }
    }
    var matches: seq<Match> := [];
    for i := 0 to |releases|
      invariant forall m :: m in matches <==> m.release in releases[..i] && IsMatch(parsers, query, m)
    {
      assert releases[..i + 1] == releases[..i] + [releases[i]];
      var more := MatchesOf(parsers, query, releases[i]);
      matches := matches + more;
    }
    assert releases[..|releases|] == releases;
    var sorted := SortedMatches(matches);
    LastIsBest(parsers, query, releases, matches);
    if sorted == [] {
      return Success(None);
    }
    return Success(Some((sorted[|sorted| - 1].release, sorted[|sorted| - 1].artifact)));
  }

  /** The answer is unique, and the order of the releases has no part in it. */
  lemma ReleaseOrderIrrelevant(parsers: Parsers, request: Request, one: seq<Release>, other: seq<Release>,
                               result: Result<Option<(Release, Artifact)>, UpdateError>,
                               result': Result<Option<(Release, Artifact)>, UpdateError>)
    requires multiset(one) == multiset(other)
    requires IsAnswer(parsers, request, one, result) && IsAnswer(parsers, request, other, result')
    ensures result == result'
  {
    assert forall r :: r in one <==> r in multiset(one);
    assert forall r :: r in other <==> r in multiset(other);
    assert forall query, r, a :: IsCompatible(parsers, query, one, r, a) <==> IsCompatible(parsers, query, other, r, a);
    var parsed := Parsed(parsers, request);
    if parsed.Some? && result.Success? && result'.Success? && result.value.Some? && result'.value.Some? {
      var v, v' :=
        ParseVersion(parsers, result.value.value.0.version), ParseVersion(parsers, result'.value.value.0.version);
      if v.Some? && v'.Some? {
        VersionTotal(v.value, v'.value);
      }
    }
  }

  predicate IsRearranged(one: Release, other: Release)
  {
    one.version == other.version && one.channel == other.channel && multiset(one.artifacts) == multiset(other.artifacts)
  }

  lemma RearrangedCompatible(parsers: Parsers, query: Query, one: seq<Release>, other: seq<Release>, i: nat,
                             artifact: Artifact)
    requires |one| == |other| && i < |one| && IsRearranged(one[i], other[i])
    requires IsCompatible(parsers, query, one, one[i], artifact)
    ensures IsCompatible(parsers, query, other, other[i], artifact)
  {
    assert artifact in multiset(one[i].artifacts);
  }

  predicate AreRearranged(one: seq<Release>, other: seq<Release>)
  {
    |one| == |other| && forall i :: 0 <= i < |one| ==> IsRearranged(one[i], other[i])
  }

  /** The best pair of one arrangement has its counterpart among the compatible pairs of the other. */
  lemma Counterpart(parsers: Parsers, query: Query, one: seq<Release>, other: seq<Release>, release: Release,
                    artifact: Artifact)
    returns (i: nat)
    requires AreRearranged(one, other) && IsCompatible(parsers, query, one, release, artifact)
    ensures i < |one| && one[i] == release && IsRearranged(one[i], other[i])
    ensures IsCompatible(parsers, query, other, other[i], artifact)
  {
    i :| 0 <= i < |one| && one[i] == release;
    RearrangedCompatible(parsers, query, one, other, i, artifact);
  }

  lemma BestRearranged(parsers: Parsers, query: Query, one: seq<Release>, other: seq<Release>,
                       best: Option<(Release, Artifact)>, best': Option<(Release, Artifact)>)
    requires AreRearranged(one, other) && AreRearranged(other, one)
    requires IsBest(parsers, query, one, best) && IsBest(parsers, query, other, best')
    ensures best.None? <==> best'.None?
    ensures best.Some? && best'.Some? ==> IsRearranged(best.value.0, best'.value.0) && best.value.1 == best'.value.1
  {
    hide FitsArtifact, Wanted, VersionLess;
    if best.Some? {
      var i := Counterpart(parsers, query, one, other, best.value.0, best.value.1);
      if best'.Some? {
        var j := Counterpart(parsers, query, other, one, best'.value.0, best'.value.1);
        VersionTotal(ParseVersion(parsers, best.value.0.version).value,
                     ParseVersion(parsers, best'.value.0.version).value);
        assert (one[j], best'.value.1) == best.value;
      }
    } else if best'.Some? {
      var j := Counterpart(parsers, query, other, one, best'.value.0, best'.value.1);
    }
  }

  /** Nor has the order of the artifacts within the releases: version, channel and artifact of the answer stay. */
  lemma ArtifactOrderIrrelevant(parsers: Parsers, request: Request, one: seq<Release>, other: seq<Release>,
                                result: Result<Option<(Release, Artifact)>, UpdateError>,
                                result': Result<Option<(Release, Artifact)>, UpdateError>)
    requires AreRearranged(one, other)
    requires IsAnswer(parsers, request, one, result) && IsAnswer(parsers, request, other, result')
    ensures result.Failure? || result == Success(None) ==> result' == result
    ensures result.Success? && result.value.Some? ==>
      && result'.Success? && result'.value.Some?
      && IsRearranged(result.value.value.0, result'.value.value.0)
      && result.value.value.1 == result'.value.value.1
  {
    hide IsBest, VersionLess;
    assert AreRearranged(other, one);
    var parsed := Parsed(parsers, request);
    if parsed.Some? && result.Success? && result'.Success?
      && IsBest(parsers, parsed.value, one, result.value) && IsBest(parsers, parsed.value, other, result'.value)
    {
      BestRearranged(parsers, parsed.value, one, other, result.value, result'.value);
    }
  }

  /**
   An answer older than the running version was asked for by that version, with
   rollback allowed; the running one never is an answer.
   */
  lemma OlderOnlyAsRollback(parsers: Parsers, request: Request, releases: seq<Release>, release: Release,
                            artifact: Artifact)
    requires IsAnswer(parsers, request, releases, Success(Some((release, artifact))))
    ensures Parsed(parsers, request).Some? && ParseVersion(parsers, release.version).Some?
    ensures var query, version := Parsed(parsers, request).value, ParseVersion(parsers, release.version).value;
      && version != query.current
      && (VersionLess(version, query.current) ==> request.allowRollback && query.requested == Some(version))
  {
    var query, version := Parsed(parsers, request).value, ParseVersion(parsers, release.version).value;
    VersionTotal(version, query.current);
  }
}
