/** The Download command: picking a manifest entry for the requested
    version and release type, and storing that version's server artifact
    under the versions directory unless it is already there. Network
    requests are inputs: the metadata each detail URL yields. */
module Catalog {
  import opened Wrappers
  import opened Seqs
  import opened Paths

  datatype ReleaseType = Release | Snapshot

  datatype GameVersionLatest = GameVersionLatest(release: string, snapshot: string)

  datatype GameVersionEntry = GameVersionEntry(id: string, versionType: string, url: string)

  /** The version manifest: the latest release and snapshot ids, and every
      version in the manifest's order. */
  datatype GameVersionsResponse = GameVersionsResponse(latest: GameVersionLatest, versions: seq<GameVersionEntry>)

  datatype GameVersionDownloadEntry = GameVersionDownloadEntry(sha1: string, size: nat, url: string)

  datatype GameVersionDownloads = GameVersionDownloads(server: GameVersionDownloadEntry)

  /** A version's metadata: where its server artifact is, and its id. */
  datatype GameVersionMetadata = GameVersionMetadata(downloads: GameVersionDownloads, id: string)

  const LatestAlias: string := "latest"

  /** The closure handed to `find`: with `latest`, an entry matches when it
      is the manifest's latest release or snapshot, by release type;
      otherwise when its id is the requested version. */
  function Matches(manifest: GameVersionsResponse, version: string, releaseType: ReleaseType): GameVersionEntry -> bool {
    (v: GameVersionEntry) =>
      if version == LatestAlias then
        if releaseType == Release then v.id == manifest.latest.release
        else v.id == manifest.latest.snapshot
      else v.id == version
  }

  /** The id a request stands for. */
  function WantedId(manifest: GameVersionsResponse, version: string, releaseType: ReleaseType): string {
    if version != LatestAlias then version
    else if releaseType == Release then manifest.latest.release
    else manifest.latest.snapshot
  }

  /** Entry `i` is the first in manifest order whose id is `id`. */
  predicate FirstWithId(versions: seq<GameVersionEntry>, id: string, i: int) {
    && 0 <= i < |versions|
    && versions[i].id == id
    && forall j :: 0 <= j < i ==> versions[j].id != id
  }

  /** The selected entry: the first one, in manifest order, whose id is the
      wanted id; none when no entry has it. */
  function SelectVersion(manifest: GameVersionsResponse, version: string, releaseType: ReleaseType): (r: Option<GameVersionEntry>)
    ensures r.None? <==> forall j :: 0 <= j < |manifest.versions| ==>
                           manifest.versions[j].id != WantedId(manifest, version, releaseType)
    ensures r.Some? ==> exists i :: FirstWithId(manifest.versions, WantedId(manifest, version, releaseType), i)
                                    && r.value == manifest.versions[i]
  {
    var r := Find(manifest.versions, Matches(manifest, version, releaseType));
    assert forall e :: Matches(manifest, version, releaseType)(e) <==> e.id == WantedId(manifest, version, releaseType);
    r
  }

  /** `latest` selects the first entry whose id is the manifest's latest
      release, or latest snapshot, by release type. */
  lemma LatestSelectsManifestPointer(manifest: GameVersionsResponse, releaseType: ReleaseType)
    ensures var r := SelectVersion(manifest, LatestAlias, releaseType);
            var id := if releaseType == Release then manifest.latest.release else manifest.latest.snapshot;
            && (r.Some? <==> exists i :: 0 <= i < |manifest.versions| && manifest.versions[i].id == id)
            && (r.Some? ==> exists i :: FirstWithId(manifest.versions, id, i) && r.value == manifest.versions[i])
  {
  }

  /** Any other string selects the first entry with exactly that id, and
      nothing when the manifest lacks it. */
  lemma ExplicitIdSelectsThatId(manifest: GameVersionsResponse, version: string, releaseType: ReleaseType)
    requires version != LatestAlias
    ensures var r := SelectVersion(manifest, version, releaseType);
            && (r.Some? ==> exists i :: FirstWithId(manifest.versions, version, i) && r.value == manifest.versions[i])
            && (r.None? <==> forall e :: e in manifest.versions ==> e.id != version)
  {
  }

  /** What `download_server` does about the artifact file. */
  datatype Transfer =
    | AlreadyPresent(path: string)         // the file exists: nothing is streamed
    | Streamed(path: string, from: string) // the artifact is streamed into the file

  /** `download_server` once the metadata is at hand: the artifact path is
      `{versions_dir}/{id}.jar` for the metadata's id; an existing file is
      kept as it is, otherwise the server artifact is streamed into it.
      `existing` is the set of paths that exist. */
  function DownloadServer(versionsDir: string, metadata: GameVersionMetadata, existing: set<string>): (t: Transfer)
    ensures t.path == JarPath(versionsDir, metadata.id)
    ensures t.AlreadyPresent? <==> JarPath(versionsDir, metadata.id) in existing
    ensures t.Streamed? ==> t.from == metadata.downloads.server.url
  {
    var filePath := JarPath(versionsDir, metadata.id);
    if filePath in existing then AlreadyPresent(filePath) else Streamed(filePath, metadata.downloads.server.url)
  }

  /** The paths that exist once a transfer has completed. */
  function AfterTransfer(existing: set<string>, t: Transfer): set<string> {
    existing + {t.path}
  }

  /** Downloading the same version again streams nothing and returns the
      same path; only the metadata is requested again. */
  lemma DownloadIsIdempotent(versionsDir: string, metadata: GameVersionMetadata, existing: set<string>)
    ensures var first := DownloadServer(versionsDir, metadata, existing);
            var second := DownloadServer(versionsDir, metadata, AfterTransfer(existing, first));
            second == AlreadyPresent(first.path)
  {
  }

  datatype DownloadOutcome =
    | NoVersionFound                                      // reported, nothing downloaded
    | MetadataUnavailable(entry: GameVersionEntry)        // the metadata request failed
    | Downloaded(entry: GameVersionEntry, transfer: Transfer)

  /** The Download command after the manifest is fetched: select an entry;
      if there is one, fetch its metadata from the entry's URL and download
      its server artifact. `metadataAt` is what each URL yields, `None` for
      a failed request. */
  function Download(manifest: GameVersionsResponse, version: string, releaseType: ReleaseType, versionsDir: string,
                    metadataAt: string -> Option<GameVersionMetadata>, existing: set<string>): (o: DownloadOutcome)
    ensures o.NoVersionFound? <==> forall j :: 0 <= j < |manifest.versions| ==>
                                     manifest.versions[j].id != WantedId(manifest, version, releaseType)
    ensures !o.NoVersionFound? ==> o.entry == SelectVersion(manifest, version, releaseType).value
    ensures o.MetadataUnavailable? <==> !o.NoVersionFound? && metadataAt(o.entry.url).None?
    ensures o.Downloaded? ==> o.transfer.path == JarPath(versionsDir, metadataAt(o.entry.url).value.id)
    ensures o.Downloaded? ==> (o.transfer.AlreadyPresent? <==> o.transfer.path in existing)
    ensures o.Downloaded? && o.transfer.Streamed? ==> o.transfer.from == metadataAt(o.entry.url).value.downloads.server.url
  {
    match SelectVersion(manifest, version, releaseType)
    case None => NoVersionFound
    case Some(entry) =>
      match metadataAt(entry.url)
      case None => MetadataUnavailable(entry)
      case Some(metadata) => Downloaded(entry, DownloadServer(versionsDir, metadata, existing))
  }
}
