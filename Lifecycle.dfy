/**
 * The fix lifecycle: the installed-fix records (`state`), the game folders on
 * disk, and the install/update, uninstall and check-all operations.
 *
 * Each operation is specified by a function from the world before to the world
 * after (`InstallEffect`, `UninstallEffect`, `CheckAllEffect`); the class
 * `Assistant` holds the state the source mutates in place and its methods are
 * proved to have exactly those effects. Properties of the effects are in
 * module LifecycleFacts.
 */
module Lifecycle {
  import opened Wrappers
  import opened Text
  import opened Archive

  /** One installed fix, as kept in the state file. */
  datatype Record = Record(gameName: string, path: string, tag: string, files: seq<string>)

  /** Installed fixes by repository name. */
  type State = map<string, Record>

  /** `os.path.join(dir, entry)`, kept as the pair; `FullPath(dir, "")` is the folder itself. */
  datatype FullPath = FullPath(dir: string, entry: string)

  datatype Node = File | Dir

  /** What exists on disk. */
  type Disk = map<FullPath, Node>

  function Folder(dir: string): FullPath {
    FullPath(dir, "")
  }

  /** The answer to the latest-release request. */
  datatype Lookup = NotFound | LookupError | Latest(tag: string, assets: seq<Asset>)

  /** Downloading and opening the chosen zip: a failure, or its entry names; with
      `failAt == Some(k)` the extraction of the `k`-th kept entry raises. */
  datatype Download = DownloadError | Fetched(names: seq<string>, failAt: Option<nat>)

  /** What one install/update call reports. */
  datatype Outcome = NoReleases | ApiError | UpToDate | NoZip | Installed(hint: string) | InstallFailed

  /** The in-memory state, the disk, and the last state written to the state file. */
  datatype World = World(state: State, disk: Disk, saved: State)

  datatype Step = Step(outcome: Outcome, world: World)

  /** Uninstalling `rec` deletes `p`: a listed path under its folder that exists, is
      not a directory, and whose removal does not fail. */
  predicate Removes(disk: Disk, locked: set<FullPath>, rec: Record, p: FullPath) {
    p in disk && disk[p] == File && p !in locked && p.dir == rec.path && p.entry in rec.files
  }

  function RemoveOwned(disk: Disk, locked: set<FullPath>, rec: Record): (r: Disk)
    ensures forall p :: p in r <==> p in disk && !Removes(disk, locked, rec, p)
    ensures forall p :: p in r ==> r[p] == disk[p]
  {
    map p | p in disk && !Removes(disk, locked, rec, p) :: disk[p]
  }

  /** `uninstall_fix(repo, state, quiet)`. */
  function UninstallEffect(w: World, locked: set<FullPath>, repo: string, quiet: bool): World {
    if repo !in w.state then w
    else
      var disk := RemoveOwned(w.disk, locked, w.state[repo]);
      if quiet then w.(disk := disk)
      else World(w.state - {repo}, disk, w.state - {repo})
  }

  /** What extracting an entry creates: a directory for a name ending in "/". */
  function NodeFor(entry: string): Node {
    if EndsWith(entry, "/") then Dir else File
  }

  /** The disk after extracting `entries` into `dir`, one after the other. */
  function Extract(disk: Disk, dir: string, entries: seq<string>): Disk
    decreases |entries|
  {
    if entries == [] then disk
    else
      var n := |entries| - 1;
      Extract(disk, dir, entries[..n])[FullPath(dir, entries[n]) := NodeFor(entries[n])]
  }

  /** Extraction adds exactly the paths of the entries, each with its node;
      every other path keeps its old node. */
  lemma {:induction false} ExtractFacts(disk: Disk, dir: string, entries: seq<string>)
    ensures forall p :: p in Extract(disk, dir, entries) <==> p in disk || (p.dir == dir && p.entry in entries)
    ensures forall p :: p in Extract(disk, dir, entries) ==>
              Extract(disk, dir, entries)[p] == if p.dir == dir && p.entry in entries then NodeFor(p.entry) else disk[p]
    decreases |entries|
  {
    if entries != [] {
      var n := |entries| - 1;
      ExtractFacts(disk, dir, entries[..n]);
      assert entries == entries[..n] + [entries[n]];
      assert forall e :: e in entries <==> e in entries[..n] || e == entries[n];
    }
  }

  /** `install_update_fix(repo, gamePath, state, gameName)`, given the release
      lookup and the download of the chosen asset. */
  function InstallEffect(w: World, locked: set<FullPath>, repo: string, gamePath: string, gameName: string,
                         lookup: Lookup, download: Download): Step
  {
    match lookup
    case NotFound => Step(NoReleases, w)
    case LookupError => Step(ApiError, w)
    case Latest(tag, assets) =>
      if repo in w.state && w.state[repo].tag == tag && w.state[repo].path == gamePath then Step(UpToDate, w)
      else if FirstZip(assets).None? then Step(NoZip, w)
      else
        var w1 := UninstallEffect(w, locked, repo, true);
        match download
        case DownloadError => Step(InstallFailed, w1)
        case Fetched(names, failAt) =>
          var kept := Kept(names);
          if failAt.Some? && failAt.value < |kept| then
            Step(InstallFailed, w1.(disk := Extract(w1.disk, gamePath, kept[..failAt.value])))
          else
            var st := w1.state[repo := Record(gameName, gamePath, tag, kept)];
            Step(Installed(OverrideHint(kept)), World(st, Extract(w1.disk, gamePath, kept), st))
  }

  /** The network answers for one repository during a check-all. */
  datatype Response = Response(lookup: Lookup, download: Download)

  datatype Report = Skipped(repo: string) | Checked(repo: string, outcome: Outcome)

  datatype Sweep = Sweep(reports: seq<Report>, world: World)

  /** `list(state.items())` in the dictionary's iteration order `order`. */
  function Snapshot(state: State, order: seq<string>): seq<(string, Record)>
    requires forall i :: 0 <= i < |order| ==> order[i] in state
  {
    seq(|order|, i requires 0 <= i < |order| => (order[i], state[order[i]]))
  }

  /** One entry of `check_installed_updates`: re-install the fix at its own path,
      or skip it when that folder is missing. */
  function CheckEntry(w: World, locked: set<FullPath>, entry: (string, Record), response: Response): (Report, World)
  {
    var (repo, data) := entry;
    if Folder(data.path) !in w.disk then (Skipped(repo), w)
    else
      var step := InstallEffect(w, locked, repo, data.path, data.gameName, response.lookup, response.download);
      (Checked(repo, step.outcome), step.world)
  }

  /** `check_installed_updates` over the snapshot `entries`. */
  function CheckAllEffect(w: World, locked: set<FullPath>, entries: seq<(string, Record)>, responses: seq<Response>): Sweep
    requires |responses| == |entries|
    decreases |entries|
  {
    if entries == [] then Sweep([], w)
    else
      var (report, w1) := CheckEntry(w, locked, entries[0], responses[0]);
      var rest := CheckAllEffect(w1, locked, entries[1..], responses[1..]);
      Sweep([report] + rest.reports, rest.world)
  }

  /** Check-all from position `i` on: the entry at `i`, then the rest. */
  lemma CheckAllFrom(w: World, locked: set<FullPath>, entries: seq<(string, Record)>, responses: seq<Response>, i: nat)
    requires |responses| == |entries| && i < |entries|
    ensures var (report, w1) := CheckEntry(w, locked, entries[i], responses[i]);
            var rest := CheckAllEffect(w1, locked, entries[i + 1..], responses[i + 1..]);
            CheckAllEffect(w, locked, entries[i..], responses[i..]) == Sweep([report] + rest.reports, rest.world)
  {
    assert entries[i..][0] == entries[i] && entries[i..][1..] == entries[i + 1..];
    assert responses[i..][0] == responses[i] && responses[i..][1..] == responses[i + 1..];
  }

  /** Removing one more listed entry. */
  lemma RemoveOwnedSnoc(d0: Disk, locked: set<FullPath>, rec: Record, f: string)
    ensures var d := RemoveOwned(d0, locked, rec);
            var p := FullPath(rec.path, f);
            RemoveOwned(d0, locked, rec.(files := rec.files + [f])) ==
              if p in d && d[p] == File && p !in locked then d - {p} else d
  {
    var d := RemoveOwned(d0, locked, rec);
    var p := FullPath(rec.path, f);
    var r := RemoveOwned(d0, locked, rec.(files := rec.files + [f]));
    var e := if p in d && d[p] == File && p !in locked then d - {p} else d;
    assert forall q :: q in r <==> q in e by {
      forall q ensures q in r <==> q in e {
        assert q.entry in rec.files + [f] <==> q.entry in rec.files || q.entry == f;
      }
    }
    assert r == e;
  }

  /** Extracting one more entry. */
  lemma ExtractSnoc(d0: Disk, dir: string, entries: seq<string>, f: string)
    ensures Extract(d0, dir, entries + [f]) == Extract(d0, dir, entries)[FullPath(dir, f) := NodeFor(f)]
  {
    assert (entries + [f])[..|entries|] == entries;
  }

  /** The state the source mutates in place: `state`, the disk it writes, and
      the state file's contents. Removal of a path in `locked` raises (and is
      swallowed). */
  class Assistant {
    var state: State
    var disk: Disk
    var saved: State
    const locked: set<FullPath>

    function View(): World
      reads this
    {
      World(state, disk, saved)
    }

    /** The state as `load_json` returned it, over the given disk. */
    constructor (loaded: State, disk0: Disk, locked0: set<FullPath>)
      ensures View() == World(loaded, disk0, loaded) && locked == locked0
    {
      state := loaded;
      disk := disk0;
      saved := loaded;
      locked := locked0;
    }

    /** `uninstall_fix`: delete the listed regular files, then, unless quiet, drop the record and save. */
    method UninstallFix(repo: string, quiet: bool)
      modifies this
      ensures View() == UninstallEffect(old(View()), locked, repo, quiet)
    {
      if repo !in state {
        return;
      }
      var data := state[repo];
      var files := data.files;
      var i := 0;
      while i < |files|
        invariant 0 <= i <= |files|
        invariant state == old(state) && saved == old(saved)
        invariant disk == RemoveOwned(old(disk), locked, data.(files := files[..i]))
      {
        var fullPath := FullPath(data.path, files[i]);
        RemoveOwnedSnoc(old(disk), locked, data.(files := files[..i]), files[i]);
        assert files[..i + 1] == files[..i] + [files[i]];
        if fullPath in disk && disk[fullPath] == File && fullPath !in locked {
          disk := disk - {fullPath};
        }
        i := i + 1;
      }
      assert data.(files := files[..i]) == data;
      if !quiet {
        state := state - {repo};
        saved := state;
      }
    }

    /** The extraction loop of `install_update_fix`: every entry that is not
        junk is appended to the kept list and extracted into `gamePath`, until
        the extraction of the `failAt`-th kept entry raises. */
    method ExtractEntries(gamePath: string, names: seq<string>, failAt: Option<nat>)
      returns (kept: seq<string>, failed: bool)
      modifies this
      ensures state == old(state) && saved == old(saved)
      ensures failed <==> failAt.Some? && failAt.value < |Kept(names)|
      ensures !failed ==> kept == Kept(names) && disk == Extract(old(disk), gamePath, kept)
      ensures failed ==> disk == Extract(old(disk), gamePath, Kept(names)[..failAt.value])
    {
      kept := [];
      var i := 0;
      while i < |names|
        invariant 0 <= i <= |names|
        invariant kept == Kept(names[..i])
        invariant failAt.Some? ==> |kept| <= failAt.value
        invariant state == old(state) && saved == old(saved)
        invariant disk == Extract(old(disk), gamePath, kept)
      {
        var f := names[i];
        KeptStep(names, i);
        if !IsJunk(f) {
          ghost var before := kept;
          kept := kept + [f];
          if failAt == Some(|kept| - 1) {
            KeptBefore(names, i);
            return kept, true;
          }
          ExtractSnoc(old(disk), gamePath, before, f);
          disk := disk[FullPath(gamePath, f) := NodeFor(f)];
        }
        i := i + 1;
      }
      assert names[..i] == names;
      failed := false;
    }

    /** `install_update_fix`: the early exits, the quiet pre-uninstall, then the
        extraction loop that skips junk entries, and on success the new record. */
    method InstallUpdateFix(repo: string, gamePath: string, gameName: string, lookup: Lookup, download: Download)
      returns (outcome: Outcome)
      modifies this
      ensures Step(outcome, View()) == InstallEffect(old(View()), locked, repo, gamePath, gameName, lookup, download)
    {
      if lookup.NotFound? {
        return NoReleases;
      }
      if lookup.LookupError? {
        return ApiError;
      }
      var latestTag := lookup.tag;
      if repo in state && state[repo].tag == latestTag && state[repo].path == gamePath {
        return UpToDate;
      }
      var asset := FirstZip(lookup.assets);
      if asset.None? {
        return NoZip;
      }
      if repo in state {
        UninstallFix(repo, true);
      }
      ghost var mid := View();
      assert mid == UninstallEffect(old(View()), locked, repo, true);
      if download.DownloadError? {
        return InstallFailed;
      }
      var kept, failed := ExtractEntries(gamePath, download.names, download.failAt);
      if failed {
        return InstallFailed;
      }
      var overrideCmd := OverrideHint(kept);
      state := state[repo := Record(gameName, gamePath, latestTag, kept)];
      saved := state;
      return Installed(overrideCmd);
    }

    /** One turn of the check-all loop: re-install the entry at its own path, or
        skip it when that folder is missing. */
    method CheckOne(entry: (string, Record), response: Response) returns (report: Report)
      modifies this
      ensures (report, View()) == CheckEntry(old(View()), locked, entry, response)
    {
      var (repo, data) := entry;
      if Folder(data.path) in disk {
        var outcome := InstallUpdateFix(repo, data.path, data.gameName, response.lookup, response.download);
        report := Checked(repo, outcome);
      } else {
        report := Skipped(repo);
      }
    }

    /** `check_installed_updates`: every entry of a snapshot of the state, in
        iteration order, is re-installed at its own path, or skipped when that
        folder is missing. */
    method CheckInstalledUpdates(order: seq<string>, responses: seq<Response>) returns (reports: seq<Report>)
      requires forall k :: k in state <==> k in order
      requires forall a, b :: 0 <= a < b < |order| ==> order[a] != order[b]
      requires |responses| == |order|
      modifies this
      ensures Sweep(reports, View()) == CheckAllEffect(old(View()), locked, Snapshot(old(state), order), responses)
    {
      var items := Snapshot(state, order);
      reports := [];
      var i := 0;
      while i < |items|
        invariant 0 <= i <= |items|
        invariant var rest := CheckAllEffect(View(), locked, items[i..], responses[i..]);
                  CheckAllEffect(old(View()), locked, items, responses) == Sweep(reports + rest.reports, rest.world)
      {
        ghost var before := View();
        CheckAllFrom(before, locked, items, responses, i);
        var report := CheckOne(items[i], responses[i]);
        reports := reports + [report];
        i := i + 1;
      }
      assert reports + [] == reports;
    }
  }
}
