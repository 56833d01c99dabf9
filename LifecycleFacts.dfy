/**
 * Properties of the lifecycle effects: the early exits change nothing, a
 * successful install records exactly the extracted entries and replaces the
 * old file set, a second identical install is a no-op, a failed install keeps
 * the old record, uninstall touches only listed files, and check-all keeps
 * every record's key, path and game name.
 */
module LifecycleFacts {
  import opened Wrappers
  import opened Text
  import opened Archive
  import opened Lifecycle

  /** The entries an install attempt may write into the game folder. */
  function Written(download: Download): seq<string> {
    match download
    case DownloadError => []
    case Fetched(names, _) => Kept(names)
  }

  predicate IsCurrent(w: World, repo: string, gamePath: string, tag: string) {
    repo in w.state && w.state[repo].tag == tag && w.state[repo].path == gamePath
  }

  /** The ladder of early exits: a missing release, an API error, an up-to-date
      record (same tag AND same path), and a release without a zip asset, checked
      in that order and before anything is removed; none changes anything. */
  lemma EarlyExits(w: World, locked: set<FullPath>, repo: string, gamePath: string, gameName: string,
                   lookup: Lookup, download: Download)
    ensures var s := InstallEffect(w, locked, repo, gamePath, gameName, lookup, download);
            && (lookup.NotFound? <==> s.outcome == NoReleases)
            && (lookup.LookupError? <==> s.outcome == ApiError)
            && (s.outcome == UpToDate <==> lookup.Latest? && IsCurrent(w, repo, gamePath, lookup.tag))
            && (s.outcome == NoZip <==>
                  lookup.Latest? && !IsCurrent(w, repo, gamePath, lookup.tag) && FirstZip(lookup.assets).None?)
            && (s.outcome in {NoReleases, ApiError, UpToDate, NoZip} ==> s.world == w)
  {
  }

  /** A release that has no zip asset leaves an installed fix in place, files and record. */
  lemma NoZipKeepsOldInstall(w: World, locked: set<FullPath>, repo: string, gamePath: string, gameName: string,
                             tag: string, assets: seq<Asset>, download: Download)
    requires forall i :: 0 <= i < |assets| ==> !EndsWith(assets[i].name, ".zip")
    requires repo in w.state
    ensures InstallEffect(w, locked, repo, gamePath, gameName, Latest(tag, assets), download).world == w
  {
    assert FirstZip(assets).None?;
  }

  /** A successful install overwrites exactly `state[repo]` with the new record,
      saves, records the non-junk archive entries in archive order and leaves
      them on disk, and reports the override hint for those entries. */
  lemma SuccessfulInstall(w: World, locked: set<FullPath>, repo: string, gamePath: string, gameName: string,
                          lookup: Lookup, download: Download)
    requires Proceeds(w, repo, gamePath, lookup) && ExtractsAll(download)
    ensures var s := InstallEffect(w, locked, repo, gamePath, gameName, lookup, download);
            var files := Kept(download.names);
            && s.outcome.Installed?
            && s.world.state == w.state[repo := Record(gameName, gamePath, lookup.tag, files)]
            && s.world.saved == s.world.state
            && s.outcome.hint == OverrideHint(files)
            && IsSubsequence(files, download.names)
            && (forall f :: f in files <==> f in download.names && !IsJunk(f))
    ensures var s := InstallEffect(w, locked, repo, gamePath, gameName, lookup, download);
            forall k :: k != repo ==> (k in s.world.state <==> k in w.state) && (k in w.state ==> s.world.state[k] == w.state[k])
  {
    var w1 := UninstallEffect(w, locked, repo, true);
    assert w1.state == w.state;
    KeptIsFilter(download.names);
  }

  /** After a successful install every recorded entry is on disk under the game
      folder, as a file or, for a name ending in "/", a directory. */
  lemma InstalledFilesOnDisk(w: World, locked: set<FullPath>, repo: string, gamePath: string, gameName: string,
                             lookup: Lookup, download: Download)
    requires Proceeds(w, repo, gamePath, lookup) && ExtractsAll(download)
    ensures var s := InstallEffect(w, locked, repo, gamePath, gameName, lookup, download);
            forall f :: f in s.world.state[repo].files ==>
              FullPath(gamePath, f) in s.world.disk && s.world.disk[FullPath(gamePath, f)] == NodeFor(f)
  {
    var w1 := UninstallEffect(w, locked, repo, true);
    InstallDisk(w, locked, repo, gamePath, gameName, lookup, download);
    assert ExtractedBy(download) == Kept(download.names);
    ExtractFacts(w1.disk, gamePath, Kept(download.names));
  }

  /** Installing again with the same path and an unchanged release hits the
      up-to-date exit and changes nothing, whatever the second download would be. */
  lemma InstallIsIdempotent(w: World, locked: set<FullPath>, repo: string, gamePath: string, gameName: string,
                            lookup: Lookup, download: Download, gameName2: string, download2: Download)
    requires InstallEffect(w, locked, repo, gamePath, gameName, lookup, download).outcome.Installed?
    ensures var w2 := InstallEffect(w, locked, repo, gamePath, gameName, lookup, download).world;
            InstallEffect(w2, locked, repo, gamePath, gameName2, lookup, download2) == Step(UpToDate, w2)
  {
    InstallOutcomes(w, locked, repo, gamePath, gameName, lookup, download);
    SuccessfulInstall(w, locked, repo, gamePath, gameName, lookup, download);
  }

  /** The entries a download actually extracts: all kept entries, or those
      before the failing one; they are among the kept entries. */
  function ExtractedBy(download: Download): (r: seq<string>)
    requires download.Fetched?
    ensures forall e :: e in r ==> e in Kept(download.names)
  {
    var kept := Kept(download.names);
    var failAt := download.failAt;
    if failAt.Some? && failAt.value < |kept| then
      assert forall e :: e in kept[..failAt.value] ==> e in kept;
      kept[..failAt.value]
    else kept
  }

  /** The release passes the early exits: it exists, is not the installed one, and has a zip. */
  predicate Proceeds(w: World, repo: string, gamePath: string, lookup: Lookup) {
    lookup.Latest? && !IsCurrent(w, repo, gamePath, lookup.tag) && FirstZip(lookup.assets).Some?
  }

  /** The download yields an archive and every kept entry extracts. */
  predicate ExtractsAll(download: Download) {
    download.Fetched? && !(download.failAt.Some? && download.failAt.value < |Kept(download.names)|)
  }

  /** An install succeeds exactly when the release passes the early exits and
      the whole archive extracts, and fails exactly when it passes them and the
      download or an extraction raises; the early exits cover every other case. */
  lemma InstallOutcomes(w: World, locked: set<FullPath>, repo: string, gamePath: string, gameName: string,
                        lookup: Lookup, download: Download)
    ensures var o := InstallEffect(w, locked, repo, gamePath, gameName, lookup, download).outcome;
            && (o.Installed? <==> Proceeds(w, repo, gamePath, lookup) && ExtractsAll(download))
            && (o == InstallFailed <==> Proceeds(w, repo, gamePath, lookup) && !ExtractsAll(download))
            && (!Proceeds(w, repo, gamePath, lookup) <==> o in {NoReleases, ApiError, UpToDate, NoZip})
  {
  }

  /** The disk after one install call: unchanged on an early exit, otherwise the
      quiet pre-uninstall followed by the entries actually extracted. */
  lemma InstallDisk(w: World, locked: set<FullPath>, repo: string, gamePath: string, gameName: string,
                    lookup: Lookup, download: Download)
    ensures var d := InstallEffect(w, locked, repo, gamePath, gameName, lookup, download).world.disk;
            var w1 := UninstallEffect(w, locked, repo, true);
            && (!Proceeds(w, repo, gamePath, lookup) ==> d == w.disk)
            && (Proceeds(w, repo, gamePath, lookup) && download.DownloadError? ==> d == w1.disk)
            && (Proceeds(w, repo, gamePath, lookup) && download.Fetched? ==> d == Extract(w1.disk, gamePath, ExtractedBy(download)))
  {
  }

  /** Nothing else changes: a path the call did not write keeps its old node,
      and a path that disappears was a removable file of the old record. */
  lemma InstallFrame(w: World, locked: set<FullPath>, repo: string, gamePath: string, gameName: string,
                     lookup: Lookup, download: Download)
    ensures var d := InstallEffect(w, locked, repo, gamePath, gameName, lookup, download).world.disk;
            forall p :: p in d && !(p.dir == gamePath && p.entry in Written(download)) ==> p in w.disk && d[p] == w.disk[p]
    ensures var d := InstallEffect(w, locked, repo, gamePath, gameName, lookup, download).world.disk;
            forall p :: p in w.disk && p !in d ==> repo in w.state && Removes(w.disk, locked, w.state[repo], p)
  {
    InstallDisk(w, locked, repo, gamePath, gameName, lookup, download);
    var w1 := UninstallEffect(w, locked, repo, true);
    if repo in w.state {
      UninstallEffects(w, locked, repo, true);
    }
    if Proceeds(w, repo, gamePath, lookup) && download.Fetched? {
      ExtractFacts(w1.disk, gamePath, ExtractedBy(download));
    }
  }

  /** An update replaces instead of accumulating: every removable file of the
      old record is gone afterwards unless the new archive wrote the same path. */
  lemma UpdateReplaces(w: World, locked: set<FullPath>, repo: string, gamePath: string, gameName: string,
                       lookup: Lookup, download: Download)
    requires repo in w.state
    requires var o := InstallEffect(w, locked, repo, gamePath, gameName, lookup, download).outcome;
             o.Installed? || o == InstallFailed
    ensures var d := InstallEffect(w, locked, repo, gamePath, gameName, lookup, download).world.disk;
            forall p :: Removes(w.disk, locked, w.state[repo], p) && !(p.dir == gamePath && p.entry in Written(download)) ==> p !in d
  {
    var w1 := UninstallEffect(w, locked, repo, true);
    if download.Fetched? {
      var written := ExtractedBy(download);
      ExtractFacts(w1.disk, gamePath, written);
    }
  }

  /** A failed download or extraction after the quiet pre-uninstall keeps the
      old record (quiet mode never deletes it) and saves nothing; the entries
      extracted before the failure stay on disk. */
  lemma FailedInstallKeepsRecord(w: World, locked: set<FullPath>, repo: string, gamePath: string, gameName: string,
                                 lookup: Lookup, download: Download)
    requires InstallEffect(w, locked, repo, gamePath, gameName, lookup, download).outcome == InstallFailed
    ensures var s := InstallEffect(w, locked, repo, gamePath, gameName, lookup, download);
            s.world.state == w.state && s.world.saved == w.saved
    ensures var s := InstallEffect(w, locked, repo, gamePath, gameName, lookup, download);
            download.Fetched? ==>
              (&& download.failAt.Some? && download.failAt.value < |Kept(download.names)|
               && forall f :: f in Kept(download.names)[..download.failAt.value] ==>
                    FullPath(gamePath, f) in s.world.disk && s.world.disk[FullPath(gamePath, f)] == NodeFor(f))
  {
    if download.Fetched? {
      var w1 := UninstallEffect(w, locked, repo, true);
      ExtractFacts(w1.disk, gamePath, ExtractedBy(download));
    }
  }

  /** Uninstalling a repository that has no record changes nothing. */
  lemma UninstallAbsentIsNoop(w: World, locked: set<FullPath>, repo: string, quiet: bool)
    requires repo !in w.state
    ensures UninstallEffect(w, locked, repo, quiet) == w
  {
  }

  /** Uninstall deletes exactly the listed paths under the record's folder that
      exist, are not directories and can be removed; every other path keeps its node.
      Without `quiet` the record is dropped and the state saved; with `quiet` the
      state and the state file are left as they were. */
  lemma UninstallEffects(w: World, locked: set<FullPath>, repo: string, quiet: bool)
    requires repo in w.state
    ensures var w2 := UninstallEffect(w, locked, repo, quiet);
            var rec := w.state[repo];
            && (forall p :: p in w2.disk <==> p in w.disk && !Removes(w.disk, locked, rec, p))
            && (forall p :: p in w2.disk ==> w2.disk[p] == w.disk[p])
            && (forall f :: (f in rec.files && FullPath(rec.path, f) in w.disk && w.disk[FullPath(rec.path, f)] == File &&
                             FullPath(rec.path, f) !in locked) ==> FullPath(rec.path, f) !in w2.disk)
            && (forall p :: p in w.disk && (p.dir != rec.path || p.entry !in rec.files) ==> p in w2.disk)
    ensures var w2 := UninstallEffect(w, locked, repo, quiet);
            && (quiet ==> w2.state == w.state && w2.saved == w.saved)
            && (!quiet ==> repo !in w2.state && w2.state == w.state - {repo} && w2.saved == w2.state)
  {
  }

  /** The state part of one install call: the record of `repo` is replaced on
      success, with the same path and game name as requested, and nothing else changes. */
  lemma InstallStateOnly(w: World, locked: set<FullPath>, repo: string, gamePath: string, gameName: string,
                         lookup: Lookup, download: Download)
    ensures var s := InstallEffect(w, locked, repo, gamePath, gameName, lookup, download);
            if s.outcome.Installed? then
              exists tag, files :: s.world.state == w.state[repo := Record(gameName, gamePath, tag, files)]
            else s.world.state == w.state
  {
    var s := InstallEffect(w, locked, repo, gamePath, gameName, lookup, download);
    if s.outcome.Installed? {
      InstallOutcomes(w, locked, repo, gamePath, gameName, lookup, download);
      SuccessfulInstall(w, locked, repo, gamePath, gameName, lookup, download);
      var tag, files := lookup.tag, Kept(download.names);
      assert s.world.state == w.state[repo := Record(gameName, gamePath, tag, files)];
    }
  }

  /** One of the repository names of `reports` was re-installed successfully. */
  predicate Reinstalled(reports: seq<Report>, k: string) {
    exists i :: 0 <= i < |reports| && reports[i].Checked? && reports[i].repo == k && reports[i].outcome.Installed?
  }

  /** The entries are a snapshot of `state`: each key once, with its current record. */
  predicate SnapshotOf(entries: seq<(string, Record)>, state: State) {
    && (forall i :: 0 <= i < |entries| ==> entries[i].0 in state && state[entries[i].0] == entries[i].1)
    && (forall a, b :: 0 <= a < b < |entries| ==> entries[a].0 != entries[b].0)
  }

  /** The iteration `CheckInstalledUpdates` runs over, `Snapshot(state, order)`,
      is a snapshot of `state` in the sense the check-all lemmas assume. */
  lemma SnapshotIsSnapshotOf(state: State, order: seq<string>)
    requires forall k :: k in state <==> k in order
    requires forall a, b :: 0 <= a < b < |order| ==> order[a] != order[b]
    ensures SnapshotOf(Snapshot(state, order), state)
  {
  }

  /** One check-all entry keeps its record's key, path and game name, touches
      no other record, and changes the record only on a successful re-install. */
  lemma CheckEntryKeeps(w: World, locked: set<FullPath>, entry: (string, Record), response: Response)
    requires entry.0 in w.state && w.state[entry.0] == entry.1
    ensures var (report, w1) := CheckEntry(w, locked, entry, response);
            && report.repo == entry.0
            && w1.state.Keys == w.state.Keys
            && w1.state[entry.0].path == entry.1.path && w1.state[entry.0].gameName == entry.1.gameName
            && (forall k :: k in w.state && k != entry.0 ==> w1.state[k] == w.state[k])
            && (w1.state[entry.0] != entry.1 ==> report.Checked? && report.outcome.Installed?)
  {
    var (repo, data) := entry;
    InstallStateOnly(w, locked, repo, data.path, data.gameName, response.lookup, response.download);
  }

  /** One check-all entry leaves the record of any other key as it was. */
  lemma CheckEntryOthers(w: World, locked: set<FullPath>, entry: (string, Record), response: Response, k: string)
    requires k != entry.0
    ensures var w1 := CheckEntry(w, locked, entry, response).1;
            (k in w1.state <==> k in w.state) && (k in w.state ==> w1.state[k] == w.state[k])
  {
    var (repo, data) := entry;
    InstallStateOnly(w, locked, repo, data.path, data.gameName, response.lookup, response.download);
  }

  /** The rest of a snapshot is a snapshot of a state that changed only the first entry's record. */
  lemma SnapshotTail(entries: seq<(string, Record)>, st: State, st1: State)
    requires entries != [] && SnapshotOf(entries, st)
    requires st1.Keys == st.Keys
    requires forall k :: k in st && k != entries[0].0 ==> st1[k] == st[k]
    ensures SnapshotOf(entries[1..], st1)
    ensures forall i :: 0 <= i < |entries[1..]| ==> entries[1..][i].0 != entries[0].0
  {
    var tail := entries[1..];
    forall i | 0 <= i < |tail| ensures tail[i].0 in st1 && st1[tail[i].0] == tail[i].1 && tail[i].0 != entries[0].0 {
      assert tail[i] == entries[i + 1];
    }
    forall a, b | 0 <= a < b < |tail| ensures tail[a].0 != tail[b].0 {
      assert tail[a] == entries[a + 1] && tail[b] == entries[b + 1];
    }
  }

  /** Check-all never adds or drops a record and keeps every record's path and
      game name; a record changes only if its entry was re-installed. */
  lemma {:induction false} CheckAllKeepsRecords(w: World, locked: set<FullPath>, entries: seq<(string, Record)>,
                                                responses: seq<Response>)
    requires |responses| == |entries|
    requires SnapshotOf(entries, w.state)
    ensures var sw := CheckAllEffect(w, locked, entries, responses);
            && sw.world.state.Keys == w.state.Keys
            && (forall k :: k in w.state ==> sw.world.state[k].path == w.state[k].path &&
                                              sw.world.state[k].gameName == w.state[k].gameName)
            && (forall k :: k in w.state && sw.world.state[k] != w.state[k] ==> Reinstalled(sw.reports, k))
    decreases |entries|
  {
    if entries != [] {
      var repo := entries[0].0;
      var (first, w1) := CheckEntry(w, locked, entries[0], responses[0]);
      var rest := CheckAllEffect(w1, locked, entries[1..], responses[1..]);
      var sw := CheckAllEffect(w, locked, entries, responses);
      assert sw == Sweep([first] + rest.reports, rest.world);
      CheckEntryKeeps(w, locked, entries[0], responses[0]);
      SnapshotTail(entries, w.state, w1.state);
      CheckAllKeepsRecords(w1, locked, entries[1..], responses[1..]);
      CheckAllLeavesOthers(w1, locked, entries[1..], responses[1..], repo);
      forall k | k in w.state && sw.world.state[k] != w.state[k] ensures Reinstalled(sw.reports, k) {
        if k == repo {
          assert sw.reports[0] == first;
        } else {
          assert Reinstalled(rest.reports, k);
          var i :| 0 <= i < |rest.reports| && rest.reports[i].Checked? && rest.reports[i].repo == k && rest.reports[i].outcome.Installed?;
          assert sw.reports[i + 1] == rest.reports[i];
        }
      }
    }
  }

  /** A record whose key is not among the entries is not touched by check-all. */
  lemma {:induction false} CheckAllLeavesOthers(w: World, locked: set<FullPath>, entries: seq<(string, Record)>,
                                                responses: seq<Response>, k: string)
    requires |responses| == |entries|
    requires forall i :: 0 <= i < |entries| ==> entries[i].0 != k
    ensures var st := CheckAllEffect(w, locked, entries, responses).world.state;
            (k in st <==> k in w.state) && (k in w.state ==> st[k] == w.state[k])
    decreases |entries|
  {
    if entries != [] {
      var w1 := CheckEntry(w, locked, entries[0], responses[0]).1;
      CheckEntryOthers(w, locked, entries[0], responses[0], k);
      assert forall i :: 0 <= i < |entries[1..]| ==> entries[1..][i].0 != k by {
        forall i | 0 <= i < |entries[1..]| ensures entries[1..][i].0 != k { assert entries[1..][i] == entries[i + 1]; }
      }
      CheckAllLeavesOthers(w1, locked, entries[1..], responses[1..], k);
    }
  }

  /** When every entry's game folder is missing, check-all skips them all and
      changes nothing. */
  lemma {:induction false} CheckAllMissingFolders(w: World, locked: set<FullPath>, entries: seq<(string, Record)>,
                                                  responses: seq<Response>)
    requires |responses| == |entries|
    requires forall i :: 0 <= i < |entries| ==> Folder(entries[i].1.path) !in w.disk
    ensures var sw := CheckAllEffect(w, locked, entries, responses);
            sw.world == w && |sw.reports| == |entries| &&
            forall i :: 0 <= i < |entries| ==> sw.reports[i] == Skipped(entries[i].0)
    decreases |entries|
  {
    if entries != [] {
      assert forall i :: 0 <= i < |entries[1..]| ==> Folder(entries[1..][i].1.path) !in w.disk by {
        forall i | 0 <= i < |entries[1..]| ensures Folder(entries[1..][i].1.path) !in w.disk { assert entries[1..][i] == entries[i + 1]; }
      }
      CheckAllMissingFolders(w, locked, entries[1..], responses[1..]);
      var rest := CheckAllEffect(w, locked, entries[1..], responses[1..]);
      forall i | 0 <= i < |entries| ensures CheckAllEffect(w, locked, entries, responses).reports[i] == Skipped(entries[i].0) {
        if i > 0 { assert entries[1..][i - 1] == entries[i]; }
      }
    }
  }

  /** An entry whose folder is missing is skipped and leaves the world as it was
      for the entries after it. */
  lemma CheckAllSkipsMissing(w: World, locked: set<FullPath>, entries: seq<(string, Record)>, responses: seq<Response>)
    requires |responses| == |entries| && entries != []
    requires Folder(entries[0].1.path) !in w.disk
    ensures var sw := CheckAllEffect(w, locked, entries, responses);
            var rest := CheckAllEffect(w, locked, entries[1..], responses[1..]);
            sw.reports == [Skipped(entries[0].0)] + rest.reports && sw.world == rest.world
  {
  }

  /** A consequence of keeping the old record after a failed install: moving a
      fix to another folder whose download fails deletes the fix's files from the
      old folder, yet the record still names the old folder and tag, so the next
      check of that folder reports it up to date. */
  lemma StaleRecordAfterFailedMove()
    ensures var rec := Record("Game", "old", "v1", ["winmm.dll"]);
            var w := World(map["GameFix" := rec],
                           map[Folder("old") := Dir, FullPath("old", "winmm.dll") := File, Folder("new") := Dir],
                           map["GameFix" := rec]);
            var release := Latest("v1", [Asset("GameFix.zip", "url")]);
            var s := InstallEffect(w, {}, "GameFix", "new", "Game", release, DownloadError);
            && s.outcome == InstallFailed
            && s.world.state == w.state
            && FullPath("old", "winmm.dll") !in s.world.disk
            && InstallEffect(s.world, {}, "GameFix", "old", "Game", release, DownloadError) == Step(UpToDate, s.world)
  {
    var a := Asset("GameFix.zip", "url");
    assert "GameFix.zip"[|"GameFix.zip"| - 4..] == ".zip";
    assert FirstZip([a]) == Some(a);
    var rec := Record("Game", "old", "v1", ["winmm.dll"]);
    var disk: Disk := map[Folder("old") := Dir, FullPath("old", "winmm.dll") := File, Folder("new") := Dir];
    assert Removes(disk, {}, rec, FullPath("old", "winmm.dll"));
  }
}
