/** What `ComponentUpdater` decides and what it leaves on disk, as functions
    of the configuration, the stored state and the network's answers. The
    imperative methods in module Updater are proved to agree with them. */
module Reconcile {
  import opened Wrappers
  import opened PyStr
  import opened GitHub

  /** One entry of a component's `files` list. */
  datatype FileSpec = FileSpec(source: string, destination: string)

  /** One value of the configuration dict; `useReleases` is the optional
      `use_releases` key. */
  datatype ComponentConfig = ComponentConfig(sourceUrl: string, files: seq<FileSpec>, useReleases: Option<bool>)
  {
    /** `use_releases` defaults to true. */
    function UsesReleases(): bool {
      useReleases.GetOr(true)
    }
  }

  /** The configuration dict: its keys in iteration order, and its entries. */
  datatype Config = Config(order: seq<string>, entries: map<string, ComponentConfig>)
  {
    /** The order lists every key exactly once, as a dict's keys are. */
    ghost predicate Valid() {
      && (forall i, j :: 0 <= i < j < |order| ==> order[i] != order[j])
      && (forall n :: n in entries <==> n in order)
    }
  }

  /** The contents of `component/version.json`; a key the file lacks is `None`. */
  datatype VersionRecord = VersionRecord(
    version: Option<string>,
    sourceUrl: string,
    lastUpdated: string,
    commitHash: Option<string>,
    files: seq<string>,
    fileHashes: map<string, string>)

  /** The part of the filesystem the updater touches: tracked files by path
      and version records by component name. */
  datatype Store = Store(files: map<string, Bytes>, records: map<string, VersionRecord>)

  /** What `update_component` returns, with the store it leaves behind. */
  datatype Outcome = Outcome(ok: bool, store: Store)

  /** One download: where from and where to. */
  datatype Step = Step(url: string, dest: string)

  /** One entry of `check_for_updates`'s result. */
  datatype PendingUpdate = PendingUpdate(current: string, latest: string, url: string)

  /** What `update_all_components` returns, with the store it leaves behind. */
  datatype RunResult = RunResult(results: map<string, bool>, store: Store)

  /** `_get_current_version`: the record if the file exists. */
  function Current(records: map<string, VersionRecord>, name: string): Option<VersionRecord> {
    if name in records then Some(records[name]) else None
  }

  /** The locally recorded value compared with upstream: `version` against a
      release, `commit_hash` against a commit, nothing without a record. */
  function Recorded(l: Latest, rec: Option<VersionRecord>): Option<string> {
    match rec
    case None => None
    case Some(r) => if l.FromRelease? then r.version else r.commitHash
  }

  /** The component is current when the recorded value equals the upstream version. */
  predicate UpToDate(l: Latest, rec: Option<VersionRecord>) {
    Recorded(l, rec) == Some(LatestVersion(l))
  }

  /** The upstream state `update_component` and `check_for_updates` both
      compare against. */
  function LatestFor(c: ComponentConfig, net: Network): Option<Latest> {
    FetchLatest(c.sourceUrl, c.UsesReleases(), net)
  }

  /** A configured component whose upstream state was obtained and differs
      from its record: the case in which files get downloaded. */
  predicate Outdated(config: Config, name: string, records: map<string, VersionRecord>, net: Network) {
    && name in config.entries
    && LatestFor(config.entries[name], net).Some?
    && !UpToDate(LatestFor(config.entries[name], net).value, Current(records, name))
  }

  /** The download for one entry of a component's `files` list. */
  function StepFor(name: string, repoUrl: string, l: Latest, f: FileSpec): Step {
    Step(DownloadUrl(repoUrl, l, f.source), PathJoin(name, f.destination))
  }

  /** `f` applied to each element of `xs`, in order. */
  function MapSeq<A, B>(f: A -> B, xs: seq<A>): (ys: seq<B>)
    ensures |ys| == |xs|
    decreases |xs|
  {
    if xs == [] then [] else [f(xs[0])] + MapSeq(f, xs[1..])
  }

  lemma {:induction false} MapSeqAt<A, B>(f: A -> B, xs: seq<A>, j: nat)
    requires j < |xs|
    ensures MapSeq(f, xs)[j] == f(xs[j])
    decreases |xs|
  {
    if j > 0 {
      MapSeqAt(f, xs[1..], j - 1);
    }
  }

  /** The downloads for a list of file entries, in order. */
  function Steps(name: string, repoUrl: string, l: Latest, files: seq<FileSpec>): (steps: seq<Step>)
    ensures |steps| == |files|
  {
    MapSeq(f => StepFor(name, repoUrl, l, f), files)
  }

  /** The `j`th download is the one for the `j`th file entry. */
  lemma StepsAt(name: string, repoUrl: string, l: Latest, files: seq<FileSpec>, j: nat)
    requires j < |files|
    ensures Steps(name, repoUrl, l, files)[j] == StepFor(name, repoUrl, l, files[j])
  {
    MapSeqAt(f => StepFor(name, repoUrl, l, f), files, j);
  }

  /** The downloads for a component, in the order of its `files` list. */
  function Plan(name: string, c: ComponentConfig, l: Latest): (plan: seq<Step>)
    ensures |plan| == |c.files|
  {
    Steps(name, c.sourceUrl, l, c.files)
  }

  /** The destinations of a plan, in order. */
  function Dests(plan: seq<Step>): (d: seq<string>)
    ensures |d| == |plan|
    ensures forall i :: 0 <= i < |plan| ==> d[i] == plan[i].dest
  {
    seq(|plan|, i requires 0 <= i < |plan| => plan[i].dest)
  }

  /** The destinations of a plan, as a set. */
  function DestSet(plan: seq<Step>): set<string> {
    set s | s in plan :: s.dest
  }

  /** Every path a component could write: its destinations joined to its name. */
  function Touchable(name: string, c: ComponentConfig): set<string> {
    set f | f in c.files :: PathJoin(name, f.destination)
  }

  predicate AllAvailable(plan: seq<Step>, net: Network) {
    forall i :: 0 <= i < |plan| ==> plan[i].url in net.downloads
  }

  /** The downloads of the plan that succeed before the first one that fails
      (all of them when none fails): later ones are never attempted. */
  function Succeeded(plan: seq<Step>, net: Network): (done: seq<Step>)
    ensures |done| <= |plan| && done == plan[..|done|]
    ensures AllAvailable(done, net)
    ensures |done| < |plan| ==> plan[|done|].url !in net.downloads
    decreases |plan|
  {
    if plan == [] || plan[0].url !in net.downloads then []
    else [plan[0]] + Succeeded(plan[1..], net)
  }

  /** The successful prefix is determined by where the first failure is. */
  lemma SucceededIs(plan: seq<Step>, net: Network, done: seq<Step>)
    requires |done| <= |plan| && done == plan[..|done|]
    requires AllAvailable(done, net)
    requires |done| < |plan| ==> plan[|done|].url !in net.downloads
    ensures Succeeded(plan, net) == done
  {
    var got := Succeeded(plan, net);
    assert forall j :: 0 <= j < |done| ==> plan[j].url in net.downloads by {
      forall j | 0 <= j < |done| ensures plan[j].url in net.downloads {
        assert done[j] == plan[j];
      }
    }
  }

  /** A position at which an element of a sequence occurs. */
  lemma IndexOf<T>(s: seq<T>, x: T) returns (j: nat)
    requires x in s
    ensures j < |s| && s[j] == x
  {
    j :| 0 <= j < |s| && s[j] == x;
  }

  /** A prefix grows by the next element. */
  lemma PrefixExtend<T>(s: seq<T>, i: nat)
    requires i < |s|
    ensures s[..i] + [s[i]] == s[..i + 1]
  {
  }

  /** The files after performing every download of the plan in order. */
  function WriteAll(files: map<string, Bytes>, plan: seq<Step>, net: Network): map<string, Bytes>
    requires AllAvailable(plan, net)
    decreases |plan|
  {
    if plan == [] then files
    else
      var last := plan[|plan| - 1];
      WriteAll(files, plan[..|plan| - 1], net)[last.dest := net.downloads[last.url]]
  }

  /** Writing `d`, a path being removed anyway, is invisible outside the removed set. */
  lemma MinusUpdate<V>(m: map<string, V>, d: string, v: V, removed: set<string>)
    requires d in removed
    ensures m[d := v] - removed == m - removed
  {
  }

  /** Maps that agree outside `s1` agree outside any larger set. */
  lemma MinusMore(a: map<string, Bytes>, b: map<string, Bytes>, s1: set<string>, s2: set<string>)
    requires a - s1 == b - s1
    ensures a - (s1 + s2) == b - (s1 + s2)
  {
    assert a - (s1 + s2) == (a - s1) - s2;
    assert b - (s1 + s2) == (b - s1) - s2;
  }

  /** One more successful download extends the written files and the list
      of destinations by that download. */
  lemma AppendStep(done: seq<Step>, s: Step, files: map<string, Bytes>, net: Network)
    requires AllAvailable(done, net) && s.url in net.downloads
    ensures AllAvailable(done + [s], net)
    ensures WriteAll(files, done + [s], net) == WriteAll(files, done, net)[s.dest := net.downloads[s.url]]
    ensures Dests(done + [s]) == Dests(done) + [s.dest]
  {
    assert (done + [s])[..|done|] == done;
  }

  /** Downloading creates the destinations and leaves every other path alone. */
  lemma {:induction false} WriteAllFrame(files: map<string, Bytes>, plan: seq<Step>, net: Network)
    requires AllAvailable(plan, net)
    ensures WriteAll(files, plan, net).Keys == files.Keys + DestSet(plan)
    ensures WriteAll(files, plan, net) - DestSet(plan) == files - DestSet(plan)
    decreases |plan|
  {
    if plan != [] {
      var init := plan[..|plan| - 1];
      var last := plan[|plan| - 1];
      WriteAllFrame(files, init, net);
      assert plan == init + [last];
      assert DestSet(plan) == DestSet(init) + {last.dest};
      MinusMore(WriteAll(files, init, net), files, DestSet(init), {last.dest});
      MinusUpdate(WriteAll(files, init, net), last.dest, net.downloads[last.url], DestSet(plan));
    }
  }

  /** Step `i` is the last one of the plan that writes its destination. */
  predicate LastWriter(plan: seq<Step>, i: nat) {
    i < |plan| && forall j :: i < j < |plan| ==> plan[j].dest != plan[i].dest
  }

  /** A destination holds what its last download fetched. */
  lemma {:induction false} WriteAllLast(files: map<string, Bytes>, plan: seq<Step>, net: Network, i: nat)
    requires AllAvailable(plan, net) && LastWriter(plan, i)
    ensures plan[i].dest in WriteAll(files, plan, net)
    ensures WriteAll(files, plan, net)[plan[i].dest] == net.downloads[plan[i].url]
    decreases |plan|
  {
    if i < |plan| - 1 {
      var init := plan[..|plan| - 1];
      assert LastWriter(init, i);
      WriteAllLast(files, init, net, i);
    }
  }

  /** `_calculate_file_hash`: the hash of the file's content, or the empty
      string for a missing file. The hash function itself is a parameter. */
  function FileHash(files: map<string, Bytes>, path: string, hash: Bytes -> string): string {
    if path in files then hash(files[path]) else ""
  }

  /** The record written after every download succeeded. In commit mode the
      SHA prefix is stored under `commit_hash` as well as under `version`. */
  function NewRecord(c: ComponentConfig, l: Latest, dests: seq<string>, files: map<string, Bytes>,
                     now: string, hash: Bytes -> string): VersionRecord
  {
    var v := LatestVersion(l);
    VersionRecord(
      Some(v), c.sourceUrl, now,
      if l.FromCommit? then Some(v) else None,
      dests,
      map f | f in dests :: FileHash(files, f, hash))
  }

  /** The part of `update_component` after the decision to update: the
      downloads in configuration order, stopping at the first failure, then
      the new record once all of them succeeded. */
  function Apply(name: string, c: ComponentConfig, l: Latest, st: Store, net: Network,
                 now: string, hash: Bytes -> string): Outcome
  {
    var plan := Plan(name, c, l);
    var done := Succeeded(plan, net);
    var files := WriteAll(st.files, done, net);
    if |done| < |plan| then Outcome(false, Store(files, st.records))
    else Outcome(true, Store(files, st.records[name := NewRecord(c, l, Dests(plan), files, now, hash)]))
  }

  /** `update_component(name)` on store `st`. */
  function Update(config: Config, name: string, st: Store, net: Network,
                  now: string, hash: Bytes -> string): Outcome
  {
    if name !in config.entries then Outcome(false, st)
    else
      var c := config.entries[name];
      var latest := LatestFor(c, net);
      if latest.None? then Outcome(false, st)
      else if UpToDate(latest.value, Current(st.records, name)) then Outcome(true, st)
      else Apply(name, c, latest.value, st, net, now, hash)
  }

  /** Nothing is written unless the component is configured, its upstream
      state was obtained and that state differs from the record. The result
      is false for an unknown component or a failed lookup, true otherwise. */
  lemma UpdateNoOp(config: Config, name: string, st: Store, net: Network, now: string, hash: Bytes -> string)
    requires !Outdated(config, name, st.records, net)
    ensures Update(config, name, st, net, now, hash) ==
              Outcome(name in config.entries && LatestFor(config.entries[name], net).Some?, st)
  {
  }

  /** A failed download ends the update: the result is false, no record
      changes, and only the destinations of the downloads that succeeded
      before it may have changed. */
  lemma ApplyFailure(name: string, c: ComponentConfig, l: Latest, st: Store, net: Network,
                     now: string, hash: Bytes -> string)
    requires |Succeeded(Plan(name, c, l), net)| < |c.files|
    ensures var done := Succeeded(Plan(name, c, l), net);
            var o := Apply(name, c, l, st, net, now, hash);
            && !o.ok
            && o.store.records == st.records
            && o.store.files.Keys == st.files.Keys + DestSet(done)
            && o.store.files - DestSet(done) == st.files - DestSet(done)
  {
    WriteAllFrame(st.files, Succeeded(Plan(name, c, l), net), net);
  }

  /** Files downloaded before a failure stay in place: nothing is rolled back. */
  lemma ApplyFailureKeepsFiles(name: string, c: ComponentConfig, l: Latest, st: Store, net: Network,
                               now: string, hash: Bytes -> string, i: nat)
    requires |Succeeded(Plan(name, c, l), net)| < |c.files|
    requires LastWriter(Succeeded(Plan(name, c, l), net), i)
    ensures var plan := Plan(name, c, l);
            var o := Apply(name, c, l, st, net, now, hash);
            plan[i].dest in o.store.files && o.store.files[plan[i].dest] == net.downloads[plan[i].url]
  {
    var plan := Plan(name, c, l);
    var done := Succeeded(plan, net);
    WriteAllLast(st.files, done, net, i);
    assert done[i] == plan[i];
  }

  /** The destinations of a component's plan are its touchable paths. */
  lemma PlanDests(name: string, c: ComponentConfig, l: Latest)
    ensures DestSet(Plan(name, c, l)) == Touchable(name, c)
  {
    PlanCovers(name, c, l);
    PlanWithin(name, c, l);
  }

  lemma PlanCovers(name: string, c: ComponentConfig, l: Latest)
    ensures Touchable(name, c) <= DestSet(Plan(name, c, l))
  {
    var plan := Plan(name, c, l);
    forall p | p in Touchable(name, c) ensures p in DestSet(plan) {
      var f :| f in c.files && p == PathJoin(name, f.destination);
      var j := IndexOf(c.files, f);
      StepsAt(name, c.sourceUrl, l, c.files, j);
      assert plan[j] in plan && plan[j].dest == p;
    }
  }

  lemma PlanWithin(name: string, c: ComponentConfig, l: Latest)
    ensures DestSet(Plan(name, c, l)) <= Touchable(name, c)
  {
    var plan := Plan(name, c, l);
    forall p | p in DestSet(plan) ensures p in Touchable(name, c) {
      var s :| s in plan && s.dest == p;
      var j := IndexOf(plan, s);
      StepsAt(name, c.sourceUrl, l, c.files, j);
      assert c.files[j] in c.files && PathJoin(name, c.files[j].destination) == p;
    }
  }

  /** After every download succeeded the files are in place: each path the
      component names holds its last download and no other path changed. */
  lemma ApplySuccessFiles(name: string, c: ComponentConfig, l: Latest, st: Store, net: Network,
                          now: string, hash: Bytes -> string, i: nat)
    requires |Succeeded(Plan(name, c, l), net)| == |c.files|
    requires LastWriter(Plan(name, c, l), i)
    ensures var o := Apply(name, c, l, st, net, now, hash);
            && o.ok
            && o.store.files.Keys == st.files.Keys + Touchable(name, c)
            && o.store.files - Touchable(name, c) == st.files - Touchable(name, c)
            && PathJoin(name, c.files[i].destination) in o.store.files
            && DownloadUrl(c.sourceUrl, l, c.files[i].source) in net.downloads
            && o.store.files[PathJoin(name, c.files[i].destination)] ==
                 net.downloads[DownloadUrl(c.sourceUrl, l, c.files[i].source)]
  {
    var plan := Plan(name, c, l);
    assert Succeeded(plan, net) == plan;
    var files := WriteAll(st.files, plan, net);
    assert Apply(name, c, l, st, net, now, hash).store.files == files;
    WriteAllFrame(st.files, plan, net);
    WriteAllLast(st.files, plan, net, i);
    PlanDests(name, c, l);
    StepsAt(name, c.sourceUrl, l, c.files, i);
  }

  /** After every download succeeded the component's record, and only it, is
      replaced: the upstream version (also as `commit_hash` in commit mode),
      the repository URL, the timestamp, the destinations in configuration
      order and the hash of each. */
  lemma ApplySuccessRecord(name: string, c: ComponentConfig, l: Latest, st: Store, net: Network,
                           now: string, hash: Bytes -> string)
    requires |Succeeded(Plan(name, c, l), net)| == |c.files|
    ensures Apply(name, c, l, st, net, now, hash).ok
    ensures name in Apply(name, c, l, st, net, now, hash).store.records
    ensures Apply(name, c, l, st, net, now, hash).store.records - {name} == st.records - {name}
    ensures var rec := Apply(name, c, l, st, net, now, hash).store.records[name];
            && rec.version == Some(LatestVersion(l))
            && rec.commitHash == (if l.FromCommit? then Some(LatestVersion(l)) else None)
            && rec.sourceUrl == c.sourceUrl
            && rec.lastUpdated == now
    ensures var rec := Apply(name, c, l, st, net, now, hash).store.records[name];
            |rec.files| == |c.files| &&
            forall j :: 0 <= j < |c.files| ==> rec.files[j] == PathJoin(name, c.files[j].destination)
    ensures var o := Apply(name, c, l, st, net, now, hash);
            var rec := o.store.records[name];
            forall f :: f in rec.fileHashes <==> f in rec.files
    ensures var o := Apply(name, c, l, st, net, now, hash);
            var rec := o.store.records[name];
            forall f :: f in rec.fileHashes ==> f in o.store.files && rec.fileHashes[f] == hash(o.store.files[f])
  {
    var plan := Plan(name, c, l);
    assert Succeeded(plan, net) == plan;
    var files := WriteAll(st.files, plan, net);
    var rec := NewRecord(c, l, Dests(plan), files, now, hash);
    assert Apply(name, c, l, st, net, now, hash) == Outcome(true, Store(files, st.records[name := rec]));
    MinusUpdate(st.records, name, rec, {name});
    WriteAllFrame(st.files, plan, net);
    forall f | f in Dests(plan) ensures f in files {
      var j :| 0 <= j < |plan| && Dests(plan)[j] == f;
      assert plan[j] in plan;
    }
    forall j | 0 <= j < |c.files| ensures Dests(plan)[j] == PathJoin(name, c.files[j].destination) {
      StepsAt(name, c.sourceUrl, l, c.files, j);
    }
  }

  /** The downloads that succeed are downloads of the plan. */
  lemma SucceededDests(plan: seq<Step>, net: Network)
    ensures DestSet(Succeeded(plan, net)) <= DestSet(plan)
  {
    var done := Succeeded(plan, net);
    forall s | s in done ensures s in plan {
      var j :| 0 <= j < |done| && done[j] == s;
      assert plan[j] == s;
    }
  }

  /** The downloads and the record write touch only the component's own
      record and the paths its configuration names. */
  lemma ApplyFrame(name: string, c: ComponentConfig, l: Latest, st: Store, net: Network,
                   now: string, hash: Bytes -> string)
    ensures var o := Apply(name, c, l, st, net, now, hash);
            && o.store.records - {name} == st.records - {name}
            && o.store.files - Touchable(name, c) == st.files - Touchable(name, c)
  {
    var plan := Plan(name, c, l);
    var done := Succeeded(plan, net);
    var files := WriteAll(st.files, done, net);
    var t := Touchable(name, c);
    assert Apply(name, c, l, st, net, now, hash).store.files == files;
    assert files - t == st.files - t by {
      WriteAllFrame(st.files, done, net);
      assert DestSet(done) <= t by {
        PlanDests(name, c, l);
        SucceededDests(plan, net);
      }
      MinusMore(files, st.files, DestSet(done), t);
      assert DestSet(done) + t == t;
    }
    if |done| == |plan| {
      MinusUpdate(st.records, name, NewRecord(c, l, Dests(plan), files, now, hash), {name});
    }
  }

  /** An update only ever changes its own record and the path strings its
      own configuration names. Paths are compared as strings: two different
      strings that name the same file on disk are not related here. */
  lemma UpdateFrame(config: Config, name: string, st: Store, net: Network, now: string, hash: Bytes -> string)
    requires name in config.entries
    ensures var o := Update(config, name, st, net, now, hash);
            var t := Touchable(name, config.entries[name]);
            && o.store.records - {name} == st.records - {name}
            && o.store.files - t == st.files - t
  {
    var c := config.entries[name];
    var latest := LatestFor(c, net);
    if latest.Some? && !UpToDate(latest.value, Current(st.records, name)) {
      assert Update(config, name, st, net, now, hash) == Apply(name, c, latest.value, st, net, now, hash);
      ApplyFrame(name, c, latest.value, st, net, now, hash);
    }
  }

  /** Running an update again after it succeeded, against the same upstream
      state, finds the component current and writes nothing. */
  lemma UpdateIdempotent(config: Config, name: string, st: Store, net: Network, now: string, hash: Bytes -> string)
    requires Update(config, name, st, net, now, hash).ok
    ensures var o := Update(config, name, st, net, now, hash);
            !Outdated(config, name, o.store.records, net) &&
            Update(config, name, o.store, net, now, hash) == Outcome(true, o.store)
  {
    var o := Update(config, name, st, net, now, hash);
    if Outdated(config, name, st.records, net) {
      var c := config.entries[name];
      var l := LatestFor(c, net).value;
      ApplySuccessRecord(name, c, l, st, net, now, hash);
    }
    UpdateNoOp(config, name, o.store, net, now, hash);
  }

  /** `check_for_updates`'s entry for a component whose upstream state is
      `l`: the recorded value or "N/A" when it is missing or empty, the
      upstream version, and the repository URL. */
  function Report(l: Latest, rec: Option<VersionRecord>, url: string): PendingUpdate {
    var current := Recorded(l, rec);
    PendingUpdate(if current.None? || current.value == "" then "N/A" else current.value, LatestVersion(l), url)
  }

  /** The result of `check_for_updates`: the outdated components, each with its report. */
  function Pending(config: Config, records: map<string, VersionRecord>, net: Network): map<string, PendingUpdate> {
    map n | n in config.entries && Outdated(config, n, records, net) ::
      Report(LatestFor(config.entries[n], net).value, Current(records, n), config.entries[n].sourceUrl)
  }

  /** The report `check_for_updates` builds after visiting `names` in order. */
  function PendingAmong(config: Config, names: seq<string>, records: map<string, VersionRecord>,
                        net: Network): map<string, PendingUpdate>
    decreases |names|
  {
    if names == [] then map[]
    else
      var rest := PendingAmong(config, names[..|names| - 1], records, net);
      var n := names[|names| - 1];
      if Outdated(config, n, records, net)
      then rest[n := Report(LatestFor(config.entries[n], net).value, Current(records, n), config.entries[n].sourceUrl)]
      else rest
  }

  /** Visiting one more name adds its report when it is outdated. */
  lemma PendingAmongStep(config: Config, names: seq<string>, i: nat, records: map<string, VersionRecord>,
                         net: Network)
    requires i < |names|
    ensures var n := names[i];
            PendingAmong(config, names[..i + 1], records, net) ==
              if Outdated(config, n, records, net)
              then PendingAmong(config, names[..i], records, net)[n :=
                     Report(LatestFor(config.entries[n], net).value, Current(records, n), config.entries[n].sourceUrl)]
              else PendingAmong(config, names[..i], records, net)
  {
    assert names[..i + 1][..i] == names[..i];
  }

  /** Visiting names in order reports exactly the outdated ones among them,
      each with its own report, whatever the order and whatever repeats. */
  lemma {:induction false} PendingAmongAt(config: Config, names: seq<string>,
                                          records: map<string, VersionRecord>, net: Network, n: string)
    ensures n in PendingAmong(config, names, records, net) <==> n in names && Outdated(config, n, records, net)
    ensures n in PendingAmong(config, names, records, net) ==>
              PendingAmong(config, names, records, net)[n] ==
                Report(LatestFor(config.entries[n], net).value, Current(records, n), config.entries[n].sourceUrl)
    decreases |names|
  {
    if names != [] {
      var init := names[..|names| - 1];
      PendingAmongAt(config, init, records, net, n);
      assert names == init + [names[|names| - 1]];
    }
  }

  /** Visiting every configured name in order reports what `Pending` does. */
  lemma PendingInOrder(config: Config, records: map<string, VersionRecord>, net: Network)
    requires config.Valid()
    ensures PendingAmong(config, config.order, records, net) == Pending(config, records, net)
  {
    var got := PendingAmong(config, config.order, records, net);
    var want := Pending(config, records, net);
    forall n ensures (n in got <==> n in want) && (n in got ==> got[n] == want[n]) {
      PendingAmongAt(config, config.order, records, net, n);
    }
  }

  /** A component is reported exactly when it is configured, its upstream
      state was obtained and its record does not match it; the report carries
      the recorded value ("N/A" when missing or empty), the upstream version
      and the repository URL. */
  lemma PendingSpec(config: Config, records: map<string, VersionRecord>, net: Network, n: string)
    ensures n in Pending(config, records, net) <==>
              n in config.entries &&
              LatestFor(config.entries[n], net).Some? &&
              !UpToDate(LatestFor(config.entries[n], net).value, Current(records, n))
    ensures n in Pending(config, records, net) ==>
              var l := LatestFor(config.entries[n], net).value;
              var recorded := Recorded(l, Current(records, n));
              && Pending(config, records, net)[n].latest == LatestVersion(l)
              && Pending(config, records, net)[n].url == config.entries[n].sourceUrl
              && Pending(config, records, net)[n].current ==
                   (if recorded.None? || recorded == Some("") then "N/A" else recorded.value)
              && Pending(config, records, net)[n].current != ""
  {
  }

  /** What the check reports is what the update does: a component the check
      does not list is left as it is by the update, and for a listed one
      whose downloads all succeed the update records exactly the version the
      check reported as latest. */
  lemma PendingAgreesWithUpdate(config: Config, name: string, st: Store, net: Network,
                                now: string, hash: Bytes -> string)
    ensures name !in Pending(config, st.records, net) ==>
              Update(config, name, st, net, now, hash).store == st
    ensures name in Pending(config, st.records, net) && Update(config, name, st, net, now, hash).ok ==>
              Update(config, name, st, net, now, hash).store.records[name].version ==
                Some(Pending(config, st.records, net)[name].latest)
  {
    if name !in Pending(config, st.records, net) {
      UpdateNoOp(config, name, st, net, now, hash);
    }
  }

  /** A successful update clears the component from the next check. */
  lemma UpdateResolvesPending(config: Config, name: string, st: Store, net: Network,
                              now: string, hash: Bytes -> string)
    requires Update(config, name, st, net, now, hash).ok
    ensures name !in Pending(config, Update(config, name, st, net, now, hash).store.records, net)
  {
    UpdateIdempotent(config, name, st, net, now, hash);
  }

  /** `update_all_components` over the keys `order`, each component updated
      on the store its predecessors left. */
  function RunAll(config: Config, order: seq<string>, st: Store, net: Network,
                  now: string, hash: Bytes -> string): RunResult
    decreases |order|
  {
    if order == [] then RunResult(map[], st)
    else
      var before := RunAll(config, order[..|order| - 1], st, net, now, hash);
      var name := order[|order| - 1];
      var o := Update(config, name, before.store, net, now, hash);
      RunResult(before.results[name := o.ok], o.store)
  }

  /** Every key gets a result, and nothing else does. */
  lemma {:induction false} RunAllKeys(config: Config, order: seq<string>, st: Store, net: Network,
                                      now: string, hash: Bytes -> string)
    ensures RunAll(config, order, st, net, now, hash).results.Keys == set n | n in order
    decreases |order|
  {
    if order != [] {
      var init := order[..|order| - 1];
      RunAllKeys(config, init, st, net, now, hash);
      assert order == init + [order[|order| - 1]];
    }
  }

  /** With distinct keys, each result is what `update_component` returned
      for that key on the store left by the keys before it. */
  lemma {:induction false} RunAllResult(config: Config, order: seq<string>, st: Store, net: Network,
                                        now: string, hash: Bytes -> string, i: nat)
    requires i < |order|
    requires forall a, b :: 0 <= a < b < |order| ==> order[a] != order[b]
    ensures order[i] in RunAll(config, order, st, net, now, hash).results
    ensures RunAll(config, order, st, net, now, hash).results[order[i]] ==
              Update(config, order[i], RunAll(config, order[..i], st, net, now, hash).store, net, now, hash).ok
    decreases |order|
  {
    var init := order[..|order| - 1];
    if i < |order| - 1 {
      RunAllResult(config, init, st, net, now, hash, i);
      assert init[..i] == order[..i];
    } else {
      assert init == order[..i];
    }
  }

  /** Whether an update succeeds depends only on the component's own record
      (and on the configuration and the network), not on other files or records. */
  lemma UpdateOkLocal(config: Config, name: string, st1: Store, st2: Store, net: Network,
                      now: string, hash: Bytes -> string)
    requires Current(st1.records, name) == Current(st2.records, name)
    ensures Update(config, name, st1, net, now, hash).ok == Update(config, name, st2, net, now, hash).ok
  {
    if name in config.entries && LatestFor(config.entries[name], net).Some? {
      var c := config.entries[name];
      var l := LatestFor(c, net).value;
      var plan := Plan(name, c, l);
      assert Apply(name, c, l, st1, net, now, hash).ok == (|Succeeded(plan, net)| == |plan|);
      assert Apply(name, c, l, st2, net, now, hash).ok == (|Succeeded(plan, net)| == |plan|);
    }
  }

  /** The updates of other components leave a component's record as it was. */
  lemma {:induction false} RunAllKeepsRecord(config: Config, order: seq<string>, st: Store, net: Network,
                                             now: string, hash: Bytes -> string, n: string)
    requires n !in order
    ensures Current(RunAll(config, order, st, net, now, hash).store.records, n) == Current(st.records, n)
    decreases |order|
  {
    if order != [] {
      var init := order[..|order| - 1];
      var name := order[|order| - 1];
      assert order == init + [name];
      RunAllKeepsRecord(config, init, st, net, now, hash, n);
      var before := RunAll(config, init, st, net, now, hash).store;
      var after := Update(config, name, before, net, now, hash).store;
      assert Current(after.records, n) == Current(before.records, n) by {
        if name in config.entries {
          UpdateFrame(config, name, before, net, now, hash);
          assert n in after.records - {name} <==> n in before.records - {name};
          if n in after.records {
            assert (after.records - {name})[n] == (before.records - {name})[n];
          }
        }
      }
    }
  }

  /** With distinct keys, each component's result is what `update_component`
      returns for it on the initial store: one component's update, failed or
      not, does not change the outcome of another. */
  lemma RunAllIndependent(config: Config, order: seq<string>, st: Store, net: Network,
                          now: string, hash: Bytes -> string, i: nat)
    requires i < |order|
    requires forall a, b :: 0 <= a < b < |order| ==> order[a] != order[b]
    ensures order[i] in RunAll(config, order, st, net, now, hash).results
    ensures RunAll(config, order, st, net, now, hash).results[order[i]] ==
              Update(config, order[i], st, net, now, hash).ok
  {
    RunAllResult(config, order, st, net, now, hash, i);
    assert order[i] !in order[..i] by {
      forall j | 0 <= j < i ensures order[..i][j] != order[i] {
        assert order[..i][j] == order[j];
      }
    }
    RunAllKeepsRecord(config, order[..i], st, net, now, hash, order[i]);
    UpdateOkLocal(config, order[i], RunAll(config, order[..i], st, net, now, hash).store, st, net, now, hash);
  }

  /** When the check would report nothing, the full update writes nothing:
      rerunning with no upstream change is harmless. */
  lemma {:induction false} NothingPendingNothingWritten(config: Config, order: seq<string>, st: Store, net: Network,
                                                        now: string, hash: Bytes -> string)
    requires forall n :: n in order ==> n !in Pending(config, st.records, net)
    ensures RunAll(config, order, st, net, now, hash).store == st
    decreases |order|
  {
    if order != [] {
      var init := order[..|order| - 1];
      NothingPendingNothingWritten(config, init, st, net, now, hash);
      PendingAgreesWithUpdate(config, order[|order| - 1], st, net, now, hash);
    }
  }
}
