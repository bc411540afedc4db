/** `ComponentUpdater` and the filesystem it changes, as objects whose
    methods update state in place. Each method is proved to leave exactly
    the state that module Reconcile specifies. */
module Updater {
  import opened Wrappers
  import opened PyStr
  import opened GitHub
  import opened Reconcile

  /** The filesystem as the updater sees it: tracked files by path, and the
      `version.json` record of each component by component name. */
  class Disk {
    var files: map<string, Bytes>
    var records: map<string, VersionRecord>

    constructor (files: map<string, Bytes>, records: map<string, VersionRecord>)
      ensures this.files == files && this.records == records
    {
      this.files := files;
      this.records := records;
    }

    /** The contents of the disk as a value. */
    function State(): Store
      reads this
    {
      Store(files, records)
    }

    /** `_download_file`: fetch `url` and write its body to `dest`; false,
        with nothing written, when the request fails. */
    method Download(url: string, dest: string, net: Network) returns (ok: bool)
      modifies this
      ensures ok <==> url in net.downloads
      ensures files == if ok then old(files)[dest := net.downloads[url]] else old(files)
      ensures records == old(records)
    {
      ok := url in net.downloads;
      if ok {
        files := files[dest := net.downloads[url]];
      }
    }

    /** `_save_version_info`: overwrite the component's record. */
    method SaveVersionInfo(name: string, rec: VersionRecord)
      modifies this
      ensures records == old(records)[name := rec]
      ensures files == old(files)
    {
      records := records[name := rec];
    }
  }

  class ComponentUpdater {
    const configFile: string
    const config: Config

    ghost predicate Valid() {
      config.Valid()
    }

    /** `__init__` and `_load_config`: the parsed configuration file, or an
        empty configuration when the file does not exist. */
    constructor (configFile: string, loaded: Option<Config>)
      requires loaded.Some? ==> loaded.value.Valid()
      ensures this.configFile == configFile
      ensures config == loaded.GetOr(Config([], map[]))
      ensures Valid()
    {
      this.configFile := configFile;
      config := loaded.GetOr(Config([], map[]));
    }

    /** The download URL of one tracked file: the release's assets are
        searched in order and the search stops at the first one named like
        the file; an empty or missing asset URL falls back to the raw file. */
    method DownloadUrlFor(repoUrl: string, l: Latest, source: string) returns (url: string)
      ensures url == DownloadUrl(repoUrl, l, source)
    {
      match l
      case FromRelease(rel) =>
        var found: Option<string> := None;
        var base := Basename(source);
        var k := 0;
        while k < |rel.assets|
          invariant k <= |rel.assets|
          invariant found.None?
          invariant k <= FirstMatch(rel.assets, base)
        {
          if rel.assets[k].name == base {
            FirstMatchAt(rel.assets, base, k);
            found := Some(rel.assets[k].browserDownloadUrl);
            break;
          }
          FirstMatchPast(rel.assets, base, k);
          k := k + 1;
        }
        DownloadUrlFound(repoUrl, rel, source, base, k);
        if found.None? || found.value == "" {
          url := RawUrl(repoUrl, rel.tagName, source);
        } else {
          url := found.value;
        }
      case FromCommit(c) =>
        url := RawUrl(repoUrl, c.sha, source);
    }

    /** One pass of the download loop of `update_component`: entry `i` of
        the component's `files` list is fetched from its download URL and
        written under the component's directory, unless the request fails. */
    method FetchFile(name: string, c: ComponentConfig, l: Latest, i: nat, disk: Disk, net: Network)
      returns (dest: string, got: bool)
      requires i < |c.files|
      modifies disk
      ensures var s := Plan(name, c, l)[i];
              && dest == s.dest
              && (got <==> s.url in net.downloads)
              && disk.files == (if got then old(disk.files)[s.dest := net.downloads[s.url]] else old(disk.files))
      ensures disk.records == old(disk.records)
    {
      var file := c.files[i];
      var url := DownloadUrlFor(c.sourceUrl, l, file.source);
      dest := PathJoin(name, file.destination);
      StepsAt(name, c.sourceUrl, l, c.files, i);
      got := disk.Download(url, dest, net);
    }

    /** The download loop of `update_component`: the component's files in
        configuration order, stopping at the first failed download. Files
        already written stay written; `updated` lists the destinations once
        every download succeeded. */
    method DownloadFiles(name: string, c: ComponentConfig, l: Latest, disk: Disk, net: Network)
      returns (updated: seq<string>, ok: bool)
      modifies disk
      ensures ok <==> Succeeded(Plan(name, c, l), net) == Plan(name, c, l)
      ensures ok ==> updated == Dests(Plan(name, c, l))
      ensures disk.files == WriteAll(old(disk.files), Succeeded(Plan(name, c, l), net), net)
      ensures disk.records == old(disk.records)
    {
      ghost var plan := Plan(name, c, l);
      ghost var done: seq<Step> := [];
      updated := [];
      var i := 0;
      while i < |c.files|
        invariant 0 <= i <= |c.files|
        invariant done == plan[..i]
        invariant AllAvailable(done, net)
        invariant updated == Dests(done)
        invariant disk.files == WriteAll(old(disk.files), done, net)
        invariant disk.records == old(disk.records)
      {
        var dest, got := FetchFile(name, c, l, i, disk, net);
        if !got {
          SucceededIs(plan, net, done);
          return updated, false;
        }
        AppendStep(done, plan[i], old(disk.files), net);
        PrefixExtend(plan, i);
        done := done + [plan[i]];
        updated := updated + [dest];
        i := i + 1;
      }
      assert done == plan;
      SucceededIs(plan, net, done);
      return updated, true;
    }

    /** `update_component`: the result and the new disk are those that
        `Reconcile.Update` gives for the old disk. */
    method UpdateComponent(name: string, disk: Disk, net: Network, now: string, hash: Bytes -> string)
      returns (ok: bool)
      modifies disk
      ensures Outcome(ok, disk.State()) == Update(config, name, old(disk.State()), net, now, hash)
    {
      if name !in config.entries {
        return false;
      }
      var c := config.entries[name];
      var repoUrl := c.sourceUrl;
      var current := Current(disk.records, name);

      var useReleases := c.UsesReleases();
      var latest: Option<Latest> := None;
      if useReleases {
        var release := LatestRelease(repoUrl, net);
        if release.None? {
          useReleases := false;
        } else {
          latest := Some(FromRelease(release.value));
        }
      }
      if !useReleases {
        var commit := LatestCommit(repoUrl, "master", net);
        latest := if commit.Some? then Some(FromCommit(commit.value)) else None;
      }
      assert latest == LatestFor(c, net);
      if latest.None? {
        return false;
      }
      var l := latest.value;
      assert useReleases <==> l.FromRelease?;

      var latestVersion := LatestVersion(l);
      var currentHash := Recorded(l, current);
      if currentHash == Some(latestVersion) {
        return true;
      }

      var updated, allDone := DownloadFiles(name, c, l, disk, net);
      if !allDone {
        return false;
      }

      var rec := VersionRecord(
        Some(latestVersion), repoUrl, now,
        if useReleases then None else Some(latestVersion),
        updated,
        map f | f in updated :: FileHash(disk.files, f, hash));
      disk.SaveVersionInfo(name, rec);
      return true;
    }

    /** `update_all_components`: every configured component is updated in
        the configuration's order; each gets the result of its update. */
    method UpdateAllComponents(disk: Disk, net: Network, now: string, hash: Bytes -> string)
      returns (results: map<string, bool>)
      requires Valid()
      modifies disk
      ensures results.Keys == config.entries.Keys
      ensures RunResult(results, disk.State()) == RunAll(config, config.order, old(disk.State()), net, now, hash)
    {
      results := map[];
      for i := 0 to |config.order|
        invariant RunResult(results, disk.State()) ==
                    RunAll(config, config.order[..i], old(disk.State()), net, now, hash)
      {
        var name := config.order[i];
        assert config.order[..i + 1][..i] == config.order[..i];
        var ok := UpdateComponent(name, disk, net, now, hash);
        results := results[name := ok];
      }
      assert config.order[..|config.order|] == config.order;
      RunAllKeys(config, config.order, old(disk.State()), net, now, hash);
    }

    /** `check_for_updates`: reads the disk and writes nothing. A component is
        reported exactly when its upstream state was obtained and its record
        does not match it; the report carries the recorded value ("N/A" when
        missing or empty), the upstream version and the repository URL. */
    method CheckForUpdates(disk: Disk, net: Network) returns (updates: map<string, PendingUpdate>)
      requires Valid()
      ensures updates == Pending(config, disk.records, net)
    {
      updates := map[];
      for i := 0 to |config.order|
        invariant updates == PendingAmong(config, config.order[..i], disk.records, net)
      {
        var name := config.order[i];
        var c := config.entries[name];
        var repoUrl := c.sourceUrl;
        var current := Current(disk.records, name);
        PendingAmongStep(config, config.order, i, disk.records, net);
        var latest := LatestFor(c, net);
        if latest.Some? {
          var l := latest.value;
          var latestVersion := LatestVersion(l);
          var recorded := Recorded(l, current);
          if recorded != Some(latestVersion) {
            var shown := if recorded.None? || recorded.value == "" then "N/A" else recorded.value;
            updates := updates[name := PendingUpdate(shown, latestVersion, repoUrl)];
          }
        }
      }
      assert config.order[..|config.order|] == config.order;
      PendingInOrder(config, disk.records, net);
    }
  }
}
