/** The backup handler: metadata records written as JSON beside every backup, the choice
    of the ZFS dataset that holds /etc, file and snapshot backups of the network
    configuration files, their restoration, deletion and retention, and the listing of
    backups. The file system is a `Store`: the live configuration files by path, the
    entries of the backup directory by name, and the ZFS snapshots by name, each holding
    the configuration files it captured. */
module Backup {
  import opened Wrappers
  import opened Text

  // ------------------------------------------------------------------ metadata

  /** The JSON values a metadata record holds. */
  datatype Value = Str(s: string) | Strs(items: seq<string>) | Null

  /** A JSON object. */
  type Dict = map<string, Value>

  /** `BackupMetadata`. */
  datatype Metadata = Metadata(
    timestamp: string,
    kind: string,
    files: seq<string>,
    reason: string,
    user: string,
    hostname: string,
    snapshotName: Option<string>)

  /** `to_dict`: the seven keys, `snapshot_name` null when there is none. */
  function ToDict(m: Metadata): (d: Dict)
    ensures d.Keys == {"timestamp", "method", "files", "reason", "user", "hostname", "snapshot_name"}
  {
    map["timestamp" := Str(m.timestamp), "method" := Str(m.kind), "files" := Strs(m.files),
        "reason" := Str(m.reason), "user" := Str(m.user), "hostname" := Str(m.hostname),
        "snapshot_name" := if m.snapshotName.Some? then Str(m.snapshotName.value) else Null]
  }

  /** `data.get(key, default)` for a text field. */
  function TextField(d: Dict, key: string, default: string): string {
    if key in d && d[key].Str? then d[key].s else default
  }

  /** `from_dict`: every missing key takes the default of a fresh record. */
  function FromDict(d: Dict): Metadata {
    Metadata(
      TextField(d, "timestamp", ""),
      TextField(d, "method", "file"),
      if "files" in d && d["files"].Strs? then d["files"].items else [],
      TextField(d, "reason", ""),
      TextField(d, "user", ""),
      TextField(d, "hostname", ""),
      if "snapshot_name" in d && d["snapshot_name"].Str? then Some(d["snapshot_name"].s) else None)
  }

  /** A record survives being written out and read back. */
  lemma MetadataRoundTrip(m: Metadata)
    ensures FromDict(ToDict(m)) == m
  {
  }

  /** An object with none of the keys reads as a fresh file-backup record without a clock. */
  lemma MetadataDefaults(d: Dict)
    requires forall k :: k in d ==> k !in ToDict(Metadata("", "", [], "", "", "", None))
    ensures FromDict(d) == Metadata("", "file", [], "", "", "", None)
  {
    var keys := ToDict(Metadata("", "", [], "", "", "", None)).Keys;
    assert "timestamp" in keys && "method" in keys && "files" in keys && "reason" in keys;
    assert "user" in keys && "hostname" in keys && "snapshot_name" in keys;
  }

  // ------------------------------------------------------------------ dataset of /etc

  /** The mount point test of `_get_etc_dataset`. */
  predicate HoldsEtc(mountpoint: string) {
    mountpoint == "/etc" || mountpoint == "/" || StartsWith("/etc", mountpoint + "/")
  }

  /** The dataset named on one `name mountpoint` line, when its mount point holds /etc. */
  function DatasetLine(line: string): Option<string> {
    var parts := Fields(line);
    if |parts| >= 2 && HoldsEtc(parts[1]) then Some(parts[0]) else None
  }

  /** The first line naming a dataset that holds /etc, in listing order. */
  function FirstDataset(lines: seq<string>): Option<string> {
    if lines == [] then None
    else if DatasetLine(lines[0]).Some? then DatasetLine(lines[0])
    else FirstDataset(lines[1..])
  }

  /** `_get_etc_dataset` given the outcome of `zfs list -H -o name,mountpoint`. */
  function EtcDataset(success: bool, stdout: string): Option<string> {
    if !success then None else FirstDataset(Split(Strip(stdout), '\n'))
  }

  /** The dataset found is the one on the first qualifying line, and there is none only
      when no line qualifies. */
  lemma {:induction false} FirstDatasetIff(lines: seq<string>)
    ensures FirstDataset(lines).None? <==> forall i :: 0 <= i < |lines| ==> DatasetLine(lines[i]).None?
    ensures FirstDataset(lines).Some? ==>
      exists i :: 0 <= i < |lines| && FirstDataset(lines) == DatasetLine(lines[i]) &&
                  forall j :: 0 <= j < i ==> DatasetLine(lines[j]).None?
  {
    if lines != [] && DatasetLine(lines[0]).None? {
      FirstDatasetIff(lines[1..]);
      assert forall i :: 0 < i < |lines| ==> lines[1..][i - 1] == lines[i];
      if FirstDataset(lines).Some? {
        var i :| 0 <= i < |lines[1..]| && FirstDataset(lines[1..]) == DatasetLine(lines[1..][i]) &&
                 forall j :: 0 <= j < i ==> DatasetLine(lines[1..][j]).None?;
        assert FirstDataset(lines) == DatasetLine(lines[i + 1]);
      }
    } else if lines != [] {
      assert FirstDataset(lines) == DatasetLine(lines[0]);
    }
  }

  /** A whitespace-split field is never empty, so the third clause of the mount point test
      never fires: the dataset is the first one mounted on `/etc` or on `/`. */
  lemma ParentClauseUnused(mountpoint: string)
    requires mountpoint != []
    ensures HoldsEtc(mountpoint) <==> mountpoint == "/etc" || mountpoint == "/"
  {
    var n := |mountpoint|;
    assert (mountpoint + "/")[n] == '/';
    assert forall k :: 1 <= k < 4 ==> "/etc"[k] != '/';
  }

  // ------------------------------------------------------------------ name order

  /** `a` sorts strictly before `b`. */
  predicate Before(a: string, b: string) { LessEq(a, b) && a != b }

  /** Strictly ascending in Python's string order. */
  predicate Ascending(s: seq<string>) {
    forall i, j :: 0 <= i < j < |s| ==> Before(s[i], s[j])
  }

  predicate IsLeast(m: string, names: set<string>) {
    m in names && forall x :: x in names ==> LessEq(m, x)
  }

  lemma {:induction false} LeastExists(names: set<string>)
    requires names != {}
    ensures exists m :: IsLeast(m, names)
    decreases names
  {
    var y :| y in names;
    LessEqRefl(y);
    if names != {y} {
      LeastExists(names - {y});
      var m :| IsLeast(m, names - {y});
      LessEqTotal(m, y);
      if LessEq(m, y) {
        assert IsLeast(m, names);
      } else {
        forall x | x in names ensures LessEq(y, x) {
          if x != y {
            LessEqTrans(y, m, x);
          }
        }
        assert IsLeast(y, names);
      }
    } else {
      assert IsLeast(y, names);
    }
  }

  /** `sorted(names)`: the names in ascending order, each once. */
  ghost function SortedNames(names: set<string>): seq<string>
    decreases names
  {
    if names == {} then []
    else
      LeastExists(names);
      var m :| IsLeast(m, names);
      [m] + SortedNames(names - {m})
  }

  /** `sorted` of a set: ascending, each name exactly once. */
  lemma {:induction false} SortedNamesSpec(names: set<string>)
    ensures |SortedNames(names)| == |names| && Ascending(SortedNames(names))
    ensures forall x :: x in names <==> x in SortedNames(names)
    decreases names
  {
    if names != {} {
      var s := SortedNames(names);
      var m := s[0];
      var rest := SortedNames(names - {m});
      assert IsLeast(m, names) && s == [m] + rest;
      SortedNamesSpec(names - {m});
      assert forall j :: 0 <= j < |rest| ==> rest[j] in names - {m};
      assert forall j :: 0 < j < |s| ==> s[j] == rest[j - 1];
    }
  }

  /** The least name comes first. */
  lemma SortedNamesCons(names: set<string>, m: string)
    requires IsLeast(m, names)
    ensures SortedNames(names) == [m] + SortedNames(names - {m})
  {
    var s := SortedNames(names);
    SortedNamesSpec(names);
    assert s[0] in names;
    forall x | x in names ensures LessEq(s[0], x) {
      var j :| 0 <= j < |s| && s[j] == x;
      if j == 0 {
        LessEqRefl(x);
      }
    }
    LessEqAntisym(s[0], m);
  }

  /** Sorting a set of names by repeatedly taking the least one left. */
  method SortNames(names: set<string>) returns (r: seq<string>)
    ensures r == SortedNames(names)
  {
    r := [];
    var rest := names;
    while rest != {}
      invariant r + SortedNames(rest) == SortedNames(names)
      decreases rest
    {
      LeastExists(rest);
      var m :| IsLeast(m, rest);
      SortedNamesCons(rest, m);
      assert r + SortedNames(rest) == (r + [m]) + SortedNames(rest - {m});
      r := r + [m];
      rest := rest - {m};
    }
  }

  /** `names[:-keep]` taken when `len(names) > keep`; Python's `[:-0]` is empty. */
  function Retired(sorted: seq<string>, keep: nat): (gone: seq<string>)
    ensures |gone| <= |sorted| && gone == sorted[..|gone|]
  {
    if keep > 0 && |sorted| > keep then sorted[..|sorted| - keep] else []
  }

  /** Retention keeps the `keep` greatest names (all of them when there are no more than
      `keep`, or when `keep` is zero) and removes only names older than every survivor. */
  lemma NewestSurvive(names: set<string>, keep: nat)
    ensures var sorted := SortedNames(names);
            var gone := Retired(sorted, keep);
            |sorted| - |gone| == (if keep == 0 || |names| <= keep then |names| else keep) &&
            (forall i, j :: 0 <= i < |gone| <= j < |sorted| ==> Before(gone[i], sorted[j]))
  {
    SortedNamesSpec(names);
  }

  // ------------------------------------------------------------------ the file system

  /** A file: plain text, or a JSON object. */
  datatype Node = Data(text: string) | Json(dict: Dict)

  /** An entry of the backup directory: a backup folder, or a single file. */
  datatype Entry = Folder(files: map<string, Node>) | Plain(node: Node)

  /** The live configuration files by path, the backup directory's entries by name, and
      the ZFS snapshots by name with the configuration files each captured. */
  datatype Store = Store(
    config: map<string, Node>,
    entries: map<string, Entry>,
    snapshots: map<string, map<string, Node>>)

  /** `CONFIG_FILES`, each a file name under `/etc`. */
  const ConfigFiles: seq<string> :=
    [Etc("rc.conf"), Etc("rc.conf.local"), Etc("wpa_supplicant.conf"), Etc("resolv.conf"), Etc("dhclient.conf")]

  function Etc(name: string): string { "/etc" + "/" + name }

  /** `Path(p).name` for a path without a trailing slash: the text after the last `/`. */
  function Basename(p: string): (r: string)
    ensures HasNo(r, '/')
  {
    if p == [] || p[|p| - 1] == '/' then [] else Basename(p[..|p| - 1]) + [p[|p| - 1]]
  }

  lemma {:induction false} BasenameOf(dir: string, name: string)
    requires HasNo(name, '/')
    ensures Basename(dir + "/" + name) == name
  {
    if name != [] {
      var init := name[..|name| - 1];
      assert (dir + "/" + name)[..|dir + "/" + name| - 1] == dir + "/" + init;
      BasenameOf(dir, init);
      assert name == init + [name[|name| - 1]];
    } else {
      assert dir + "/" + name == dir + "/";
    }
  }

  /** No two files share a base name, and none is called like a backup's metadata file:
      a file backup can hold them all side by side. */
  predicate DistinctNames(files: seq<string>) {
    (forall i, j :: 0 <= i < j < |files| ==> Basename(files[i]) != Basename(files[j])) &&
    forall i :: 0 <= i < |files| ==> Basename(files[i]) != MetaFile
  }

  /** `CONFIG_FILES` has that property. */
  lemma ConfigFilesDistinct()
    ensures DistinctNames(ConfigFiles)
  {
    var names := ["rc.conf", "rc.conf.local", "wpa_supplicant.conf", "resolv.conf", "dhclient.conf"];
    forall k | 0 <= k < |ConfigFiles| ensures Basename(ConfigFiles[k]) == names[k] {
      BasenameOf("/etc", names[k]);
    }
    assert forall i, j :: 0 <= i < j < |names| ==> |names[i]| != |names[j]| || names[i][0] != names[j][0];
    assert forall i :: 0 <= i < |names| ==> |names[i]| != |MetaFile| || names[i][0] != MetaFile[0];
  }

  /** The first of `files` whose base name is `name`: where a backed-up file named `name`
      is restored to. */
  function FirstNamed(files: seq<string>, name: string): (r: Option<string>)
    ensures r.Some? ==> r.value in files && Basename(r.value) == name
  {
    if files == [] then None
    else if Basename(files[0]) == name then Some(files[0])
    else FirstNamed(files[1..], name)
  }

  /** With distinct base names, each file's base name leads back to that file. */
  lemma {:induction false} FirstNamedOf(files: seq<string>, i: nat)
    requires i < |files| && DistinctNames(files)
    ensures FirstNamed(files, Basename(files[i])) == Some(files[i])
  {
    if i > 0 {
      assert DistinctNames(files[1..]) by {
        assert forall k :: 0 <= k < |files| - 1 ==> files[1..][k] == files[k + 1];
      }
      FirstNamedOf(files[1..], i - 1);
    }
  }

  /** The loop of `_restore_file_backup` that looks a file name up among `files`. */
  method FindConfigPath(files: seq<string>, name: string) returns (dest: Option<string>)
    ensures dest == FirstNamed(files, name)
  {
    dest := None;
    var i := 0;
    while i < |files|
      invariant 0 <= i <= |files|
      invariant FirstNamed(files[i..], name) == FirstNamed(files, name)
    {
      if Basename(files[i]) == name {
        dest := Some(files[i]);
        return;
      }
      assert files[i..][1..] == files[i + 1..];
      i := i + 1;
    }
  }

  // ------------------------------------------------------------------ creating backups

  /** The suffix of a snapshot name. */
  const Marker: string := "@netgui-"

  /** The metadata file of a backup folder. */
  const MetaFile: string := "backup.json"

  /** The metadata file of the snapshot taken at `stamp`. */
  function MetaName(stamp: string): string { "snapshot-" + stamp + ".json" }

  /** The backup folder after `shutil.copy2` of each existing file of `paths` into it. */
  function CopyFiles(config: map<string, Node>, folder: map<string, Node>, paths: seq<string>): map<string, Node> {
    if paths == [] then folder
    else
      var p := paths[|paths| - 1];
      var f := CopyFiles(config, folder, paths[..|paths| - 1]);
      if p in config then f[Basename(p) := config[p]] else f
  }

  /** `metadata.files`: the base names of the files of `paths` that exist, in order. */
  function CopiedNames(config: map<string, Node>, paths: seq<string>): seq<string> {
    if paths == [] then []
    else
      var p := paths[|paths| - 1];
      CopiedNames(config, paths[..|paths| - 1]) + (if p in config then [Basename(p)] else [])
  }

  /** `_create_file_backup` with the clock reading `stamp` (`%Y%m%d-%H%M%S`) and `now`
      (ISO format), the user and the host name. */
  ghost function CreateFile(st: Store, files: seq<string>, reason: string, stamp: string, now: string, user: string, host: string)
    : (Store, Option<string>)
  {
    if stamp in st.entries && st.entries[stamp].Plain? then (st, None)
    else
      var base := if stamp in st.entries then st.entries[stamp].files else map[];
      var meta := Metadata(now, "file", CopiedNames(st.config, files), reason, user, host, None);
      var folder := CopyFiles(st.config, base, files)[MetaFile := Json(ToDict(meta))];
      (CleanupFiles(st.(entries := st.entries[stamp := Folder(folder)]), 20), Some(stamp))
  }

  /** The folders of the backup directory. */
  function FolderNames(entries: map<string, Entry>): set<string> {
    set n | n in entries && entries[n].Folder?
  }

  /** `_cleanup_file_backups(keep)`: the oldest folders removed. */
  ghost function CleanupFiles(st: Store, keep: nat): Store {
    var gone := Retired(SortedNames(FolderNames(st.entries)), keep);
    st.(entries := st.entries - Names(gone))
  }

  /** The names of a list, as a set. */
  function Names(s: seq<string>): set<string> { set n | n in s }

  /** `name.split('@netgui-')[1]`, empty when the marker does not occur. */
  function StampOf(name: string): string {
    match Find(name, Marker)
    case None => ""
    case Some(j) =>
      var tail := name[j + |Marker|..];
      match Find(tail, Marker)
      case None => tail
      case Some(k) => tail[..k]
  }

  /** `_delete_zfs_backup`: the snapshot destroyed, then its metadata file unlinked (which
      fails on a folder). */
  function DeleteSnapshot(st: Store, name: string): (Store, bool) {
    if name !in st.snapshots then (st, false)
    else
      var st1 := st.(snapshots := st.snapshots - {name});
      var meta := MetaName(StampOf(name));
      if StampOf(name) == "" || meta !in st1.entries then (st1, true)
      else if st1.entries[meta].Plain? then (st1.(entries := st1.entries - {meta}), true)
      else (st1, false)
  }

  /** `_delete_zfs_backup` on each of `names` in turn. */
  function DeleteSnapshots(st: Store, names: seq<string>): Store {
    if names == [] then st
    else DeleteSnapshot(DeleteSnapshots(st, names[..|names| - 1]), names[|names| - 1]).0
  }

  /** The snapshots `zfs list -t snapshot` shows with the marker in their name. */
  function NetguiSnapshots(snapshots: map<string, map<string, Node>>): set<string> {
    set n | n in snapshots && Contains(n, Marker)
  }

  /** `_cleanup_zfs_snapshots(keep)`: the oldest marked snapshots deleted. */
  ghost function CleanupSnapshots(st: Store, keep: nat): Store {
    DeleteSnapshots(st, Retired(SortedNames(NetguiSnapshots(st.snapshots)), keep))
  }

  /** `_create_zfs_backup` of `dataset` with the clock reading `stamp` and `now`. */
  ghost function CreateZfs(st: Store, dataset: string, reason: string, stamp: string, now: string, user: string, host: string): (Store, Option<string>) {
    var name := dataset + Marker + stamp;
    if name in st.snapshots then (st, None)
    else
      var st1 := st.(snapshots := st.snapshots[name := st.config]);
      var meta := MetaName(stamp);
      if meta in st1.entries && st1.entries[meta].Folder? then (st1, None)
      else
        var m := Metadata(now, "zfs", [], reason, user, host, Some(name));
        (CleanupSnapshots(st1.(entries := st1.entries[meta := Plain(Json(ToDict(m)))]), 10), Some(name))
  }

  /** `create_backup`: a snapshot when ZFS is available and a dataset was found, else files. */
  ghost function Create(st: Store, files: seq<string>, zfs: bool, dataset: Option<string>, reason: string, stamp: string,
                        now: string, user: string, host: string): (Store, Option<string>)
  {
    if zfs && dataset.Some? && dataset.value != "" then CreateZfs(st, dataset.value, reason, stamp, now, user, host)
    else CreateFile(st, files, reason, stamp, now, user, host)
  }

  // ------------------------------------------------------------------ restoring and deleting

  /** The configuration after copying each named file of `folder` back to its path; names
      that are not configuration files, and files missing from the folder, are skipped. */
  function RestoreFiles(config: map<string, Node>, files: seq<string>, folder: map<string, Node>, names: seq<string>)
    : map<string, Node>
  {
    if names == [] then config
    else
      var n := names[|names| - 1];
      var c := RestoreFiles(config, files, folder, names[..|names| - 1]);
      match FirstNamed(files, n)
      case None => c
      case Some(dest) => if n in folder then c[dest := folder[n]] else c
  }

  /** Restoring files deletes none and writes only configuration files. */
  lemma {:induction false} RestoreFilesFrame(config: map<string, Node>, files: seq<string>, folder: map<string, Node>,
                                             names: seq<string>)
    ensures var r := RestoreFiles(config, files, folder, names);
            config.Keys <= r.Keys &&
            forall p :: p in r && p !in files ==> p in config && r[p] == config[p]
  {
    if names != [] {
      RestoreFilesFrame(config, files, folder, names[..|names| - 1]);
    }
  }

  /** One more restored name whose file is in the folder and whose path is `p`. */
  lemma RestoreFilesSnoc(config: map<string, Node>, files: seq<string>, folder: map<string, Node>, names: seq<string>,
                         n: string, p: string)
    requires FirstNamed(files, n) == Some(p) && n in folder
    ensures RestoreFiles(config, files, folder, names + [n]) == RestoreFiles(config, files, folder, names)[p := folder[n]]
  {
    assert (names + [n])[..|names|] == names;
  }

  // ------------------------------------------------------------------ backup paths

  /** One entry's name: not empty, not `.` or `..`, and without a `/`. */
  predicate EntryName(id: string) {
    id != "" && id != "." && id != ".." && '/' !in id
  }

  /** The parts `pathlib` keeps of a relative path: empty parts (from a leading, trailing
      or doubled `/`) and `.` parts are dropped, `..` is kept. */
  function Parts(ps: seq<string>): (r: seq<string>)
    ensures forall i :: 0 <= i < |r| ==> r[i] != "" && r[i] != "." && r[i] in ps
  {
    if ps == [] then []
    else (if ps[0] == "" || ps[0] == "." then [] else [ps[0]]) + Parts(ps[1..])
  }

  /** What `backup_dir / id` names. */
  datatype Target = StoreDir | EntryAt(name: string) | Elsewhere

  /** `backup_dir / id`: an absolute `id` replaces the backup directory; a relative one
      names the directory itself when no part is left, one of its entries when one part
      other than `..` is left, and a path inside an entry or outside the directory
      otherwise. A single entry name resolves to itself. */
  function TargetOf(id: string): (t: Target)
    ensures EntryName(id) ==> t == EntryAt(id)
    ensures t.EntryAt? ==> EntryName(t.name)
    ensures t.StoreDir? ==> forall i :: 0 <= i < |id| ==> id[i] == '/' || id[i] == '.'
  {
    if id != [] && id[0] == '/' then Elsewhere
    else
      var split := Split(id, '/');
      assert EntryName(id) ==> split == [id] by {
        if EntryName(id) { assert IndexOf(id, '/').None?; }
      }
      var ps := Parts(split);
      if ps == [] then
        DotsOnly(id);
        StoreDir
      else if |ps| == 1 && ps[0] != ".." then
        assert ps[0] in split;
        EntryAt(ps[0])
      else Elsewhere
  }

  /** An id all of whose parts are empty or `.` is made of `/` and `.` alone. */
  lemma {:induction false} DotsOnly(id: string)
    requires Parts(Split(id, '/')) == []
    ensures forall i :: 0 <= i < |id| ==> id[i] == '/' || id[i] == '.'
    decreases |id|
  {
    match IndexOf(id, '/')
    case None =>
      assert Split(id, '/') == [id];
      assert id == "" || id == ".";
    case Some(k) =>
      var split := Split(id, '/');
      assert split == [id[..k]] + Split(id[k + 1..], '/');
      assert split[1..] == Split(id[k + 1..], '/');
      assert id[..k] == "" || id[..k] == ".";
      DotsOnly(id[k + 1..]);
      forall i | 0 <= i < |id| ensures id[i] == '/' || id[i] == '.' {
        if i > k { assert id[i] == id[k + 1..][i - k - 1]; }
        else if i < k { assert id[i] == id[..k][i]; }
      }
  }

  /** The files of the directory `backup_dir / id`: a backup folder's files, or the plain
      files at the top of the backup directory itself; `None` when it is no such
      directory. */
  function FolderAt(st: Store, id: string): (r: Option<map<string, Node>>)
    ensures EntryName(id) ==> r == if id in st.entries && st.entries[id].Folder? then Some(st.entries[id].files) else None
  {
    match TargetOf(id)
    case StoreDir => Some(map n | n in st.entries && st.entries[n].Plain? :: st.entries[n].node)
    case EntryAt(n) => if n in st.entries && st.entries[n].Folder? then Some(st.entries[n].files) else None
    case Elsewhere => None
  }

  /** `_restore_file_backup`. */
  function RestoreFolder(st: Store, files: seq<string>, id: string): (Store, bool) {
    match FolderAt(st, id)
    case None => (st, false)
    case Some(folder) =>
      if MetaFile !in folder || folder[MetaFile].Data? then (st, false)
      else (st.(config := RestoreFiles(st.config, files, folder, FromDict(folder[MetaFile].dict).files)), true)
  }

  /** `_restore_zfs_backup`: `zfs rollback` brings back the captured files. */
  function RestoreSnapshot(st: Store, name: string): (Store, bool) {
    if name in st.snapshots then (st.(config := st.snapshots[name]), true) else (st, false)
  }

  /** `restore_backup`: only the live configuration changes, and only on success; a file
      backup neither deletes a file nor writes outside `CONFIG_FILES`. */
  function Restore(st: Store, files: seq<string>, id: string): (r: (Store, bool))
    ensures r.0.entries == st.entries && r.0.snapshots == st.snapshots
    ensures !r.1 ==> r.0 == st
    ensures !Contains(id, Marker) ==>
              st.config.Keys <= r.0.config.Keys &&
              forall p :: p in r.0.config && p !in files ==> p in st.config && r.0.config[p] == st.config[p]
  {
    if Contains(id, Marker) then RestoreSnapshot(st, id)
    else
      match FolderAt(st, id)
      case Some(folder) =>
        if MetaFile in folder && folder[MetaFile].Json? then
          RestoreFilesFrame(st.config, files, folder, FromDict(folder[MetaFile].dict).files);
          RestoreFolder(st, files, id)
        else RestoreFolder(st, files, id)
      case None => RestoreFolder(st, files, id)
  }

  /** An id that `backup_dir / id` resolves to the backup directory itself, such as the
      empty id, `.` or `./`. */
  predicate NamesStore(id: string) {
    TargetOf(id).StoreDir?
  }

  /** `_delete_file_backup`, as written: `rmtree` of `backup_dir / id`, which fails on a plain
      file. An id naming the backup directory itself removes every backup. */
  function DeleteFolder(st: Store, id: string): (Store, bool) {
    match TargetOf(id)
    case StoreDir => (st.(entries := map[]), true)
    case EntryAt(n) => if n in st.entries && st.entries[n].Folder? then (st.(entries := st.entries - {n}), true) else (st, false)
    case Elsewhere => (st, false)
  }

  /** `delete_backup`, as written. */
  function Delete(st: Store, id: string): (r: (Store, bool))
    ensures r.0.config == st.config
    ensures r.0.entries.Keys <= st.entries.Keys && r.0.snapshots.Keys <= st.snapshots.Keys
    ensures NamesStore(id) ==> r == (st.(entries := map[]), true)
    ensures !Contains(id, Marker) && !NamesStore(id) ==>
              (r.1 <==> TargetOf(id).EntryAt? && TargetOf(id).name in FolderNames(st.entries)) &&
              r.0.snapshots == st.snapshots &&
              r.0.entries == if r.1 then st.entries - {TargetOf(id).name} else st.entries
  {
    if Contains(id, Marker) then DeleteSnapshot(st, id) else DeleteFolder(st, id)
  }

  /** `_delete_file_backup` as intended: an id that is not one entry's name is refused, so
      only the folder it names can go. */
  function DeleteNamed(st: Store, id: string): (r: (Store, bool))
    ensures r.1 <==> EntryName(id) && id in FolderNames(st.entries)
    ensures r.0.config == st.config && r.0.snapshots == st.snapshots
    ensures forall n :: n in r.0.entries <==> n in st.entries && !(r.1 && n == id)
    ensures forall n :: n in r.0.entries ==> r.0.entries[n] == st.entries[n]
  {
    if EntryName(id) then DeleteFolder(st, id) else (st, false)
  }

  // ------------------------------------------------------------------ listing

  /** What one entry of the backup directory contributes to `list_backups`. */
  datatype Item = Skip | Record(m: Metadata) | Broken

  /** `json.load` of a file: a record, or an error for a file that is not JSON. */
  function Load(node: Node): Item {
    match node
    case Json(d) => Record(FromDict(d))
    case Data(_) => Broken
  }

  function ItemOf(name: string, e: Entry): Item {
    match e
    case Folder(files) => if MetaFile in files then Load(files[MetaFile]) else Skip
    case Plain(node) => if StartsWith(name, "snapshot-") && EndsWith(name, ".json") then Load(node) else Skip
  }

  /** The records of `names` in turn, stopping at the first unreadable one (`false`). */
  function Collect(entries: map<string, Entry>, names: seq<string>): (seq<Metadata>, bool) {
    if names == [] then ([], true)
    else
      var n := names[|names| - 1];
      var (found, ok) := Collect(entries, names[..|names| - 1]);
      if !ok || n !in entries then (found, ok)
      else match ItemOf(n, entries[n])
        case Skip => (found, true)
        case Record(m) => (found + [m], true)
        case Broken => (found, false)
  }

  /** Newest first. */
  predicate Descending(s: seq<Metadata>) {
    forall i, j :: 0 <= i < j < |s| ==> LessEq(s[j].timestamp, s[i].timestamp)
  }

  /** `m` placed after every record at least as new: the stable step of a reverse sort. */
  function Insert(m: Metadata, s: seq<Metadata>): (r: seq<Metadata>)
    ensures multiset(r) == multiset(s) + multiset{m}
  {
    if s == [] then [m]
    else if Before(s[0].timestamp, m.timestamp) then [m] + s
    else
      assert s == [s[0]] + s[1..];
      [s[0]] + Insert(m, s[1..])
  }

  /** Insertion keeps a listing newest first. */
  lemma {:induction false} InsertDescending(m: Metadata, s: seq<Metadata>)
    requires Descending(s)
    ensures Descending(Insert(m, s))
  {
    if s == [] {
    } else if Before(s[0].timestamp, m.timestamp) {
      forall j | 0 < j < |s| ensures LessEq(s[j].timestamp, m.timestamp) {
        LessEqTrans(s[j].timestamp, s[0].timestamp, m.timestamp);
      }
    } else {
      var t := Insert(m, s[1..]);
      InsertDescending(m, s[1..]);
      LessEqTotal(s[0].timestamp, m.timestamp);
      forall j | 0 <= j < |t| ensures LessEq(t[j].timestamp, s[0].timestamp) {
        assert t[j] in multiset(t);
        if t[j] != m {
          assert t[j] in multiset(s[1..]);
          var k :| 0 <= k < |s[1..]| && s[1..][k] == t[j];
          assert s[k + 1] == t[j];
        }
      }
      assert Insert(m, s) == [s[0]] + t;
    }
  }

  /** `sort(key=timestamp, reverse=True)`. */
  function SortByTime(s: seq<Metadata>): (r: seq<Metadata>)
    ensures multiset(r) == multiset(s) && Descending(r)
  {
    if s == [] then []
    else
      assert s == s[..|s| - 1] + [s[|s| - 1]];
      InsertDescending(s[|s| - 1], SortByTime(s[..|s| - 1]));
      Insert(s[|s| - 1], SortByTime(s[..|s| - 1]))
  }

  /** `list_backups`, the directory read in `order`, the order `iterdir` yields its entries
      in, which the file system decides: the records sorted newest first, or, after an
      unreadable file, the records read before it as they are. */
  function Listing(st: Store, order: seq<string>): seq<Metadata> {
    var (found, ok) := Collect(st.entries, order);
    if ok then SortByTime(found) else found
  }

  /** The text of a timestamp `get_backup_info` looks for in an id, as written: colons and
      dashes dropped, the first 15 characters kept. An ISO timestamp keeps its `T`. */
  function Key(timestamp: string): string {
    var k := RemoveAll(RemoveAll(timestamp, ":"), "-");
    if |k| <= 15 then k else k[..15]
  }

  /** The test of `get_backup_info` as written. */
  predicate MatchesAsWritten(m: Metadata, id: string) {
    m.snapshotName == Some(id) || Contains(id, Key(m.timestamp))
  }

  /** The key with its `T` turned into the `-` that separates date and time in a backup's
      name. */
  function StampKey(timestamp: string): string {
    ReplaceChar(Key(timestamp), 'T', "-")
  }

  /** The test of `get_backup_info`, with the key in the form backup names take. */
  predicate Matches(m: Metadata, id: string) {
    m.snapshotName == Some(id) || Contains(id, StampKey(m.timestamp))
  }

  /** `get_backup_info` on a listing, as written: the first record the id matches. */
  function FirstMatchAsWritten(list: seq<Metadata>, id: string): (r: Option<Metadata>)
    ensures r.Some? <==> exists i :: 0 <= i < |list| && MatchesAsWritten(list[i], id)
    ensures r.Some? ==> exists i :: 0 <= i < |list| && list[i] == r.value && MatchesAsWritten(list[i], id) &&
                                    forall k :: 0 <= k < i ==> !MatchesAsWritten(list[k], id)
  {
    if list == [] then None
    else if MatchesAsWritten(list[0], id) then Some(list[0])
    else
      var r := FirstMatchAsWritten(list[1..], id);
      assert forall i :: 1 <= i < |list| ==> list[i] == list[1..][i - 1];
      r
  }

  /** `get_backup_info` on a listing with the corrected key: the first record the id
      matches. */
  function FirstMatch(list: seq<Metadata>, id: string): (r: Option<Metadata>)
    ensures r.Some? <==> exists i :: 0 <= i < |list| && Matches(list[i], id)
    ensures r.Some? ==> exists i :: 0 <= i < |list| && list[i] == r.value && Matches(list[i], id) &&
                                    forall k :: 0 <= k < i ==> !Matches(list[k], id)
  {
    if list == [] then None
    else if Matches(list[0], id) then Some(list[0])
    else
      var r := FirstMatch(list[1..], id);
      assert forall i :: 1 <= i < |list| ==> list[i] == list[1..][i - 1];
      r
  }

  // ------------------------------------------------------------------ the handler

  /** The loop of `_get_etc_dataset` over the lines of `zfs list -H -o name,mountpoint`. */
  method FindEtcDataset(success: bool, stdout: string) returns (dataset: Option<string>)
    ensures dataset == EtcDataset(success, stdout)
  {
    if !success {
      return None;
    }
    var lines := Split(Strip(stdout), '\n');
    var i := 0;
    while i < |lines|
      invariant 0 <= i <= |lines|
      invariant FirstDataset(lines[i..]) == EtcDataset(success, stdout)
    {
      var parts := Fields(lines[i]);
      if |parts| >= 2 && HoldsEtc(parts[1]) {
        return Some(parts[0]);
      }
      assert lines[i..][1..] == lines[i + 1..];
      i := i + 1;
    }
    return None;
  }

  /** `BackupHandler`: the file system and ZFS it works on, and what it found at start. */
  class BackupHandler {
    var config: map<string, Node>
    var entries: map<string, Entry>
    var snapshots: map<string, map<string, Node>>
    const configFiles: seq<string>
    const zfsAvailable: bool
    const etcDataset: Option<string>

    function State(): Store
      reads this
    {
      Store(config, entries, snapshots)
    }

    /** `__init__`: `zfsAvailable` is the outcome of `which zfs`; `listed` and `listing`
        that of `zfs list -H -o name,mountpoint`. */
    constructor(store: Store, zfsAvailable: bool, listed: bool, listing: string)
      ensures State() == store && configFiles == ConfigFiles && this.zfsAvailable == zfsAvailable
      ensures etcDataset == if zfsAvailable then EtcDataset(listed, listing) else None
    {
      configFiles := ConfigFiles;
      config := store.config;
      entries := store.entries;
      snapshots := store.snapshots;
      this.zfsAvailable := zfsAvailable;
      var dataset := None;
      if zfsAvailable {
        dataset := FindEtcDataset(listed, listing);
      }
      etcDataset := dataset;
    }

    /** `create_backup`. */
    method CreateBackup(reason: string, stamp: string, now: string, user: string, host: string) returns (id: Option<string>)
      modifies this
      ensures (State(), id) == Create(old(State()), configFiles, zfsAvailable, etcDataset, reason, stamp, now, user, host)
    {
      if zfsAvailable && etcDataset.Some? && etcDataset.value != "" {
        id := CreateZfsBackup(etcDataset.value, reason, stamp, now, user, host);
      } else {
        id := CreateFileBackup(reason, stamp, now, user, host);
      }
    }

    /** `_create_zfs_backup`. */
    method CreateZfsBackup(dataset: string, reason: string, stamp: string, now: string, user: string, host: string)
      returns (id: Option<string>)
      modifies this
      ensures (State(), id) == CreateZfs(old(State()), dataset, reason, stamp, now, user, host)
    {
      var name := dataset + Marker + stamp;
      if name in snapshots {
        return None;
      }
      snapshots := snapshots[name := config];
      var meta := MetaName(stamp);
      if meta in entries && entries[meta].Folder? {
        return None;
      }
      var m := Metadata(now, "zfs", [], reason, user, host, Some(name));
      entries := entries[meta := Plain(Json(ToDict(m)))];
      CleanupZfsSnapshots(10);
      return Some(name);
    }

    /** `_create_file_backup`. */
    method CreateFileBackup(reason: string, stamp: string, now: string, user: string, host: string)
      returns (id: Option<string>)
      modifies this
      ensures (State(), id) == CreateFile(old(State()), configFiles, reason, stamp, now, user, host)
    {
      if stamp in entries && entries[stamp].Plain? {
        return None;
      }
      var base: map<string, Node> := if stamp in entries then entries[stamp].files else map[];
      var folder, files := CopyConfigFiles(stamp, base);
      var meta := Metadata(now, "file", files, reason, user, host, None);
      entries := entries[stamp := Folder(folder[MetaFile := Json(ToDict(meta))])];
      assert entries == old(entries)[stamp := Folder(folder[MetaFile := Json(ToDict(meta))])];
      assert State() == old(State()).(entries := entries);
      CleanupFileBackups(20);
      return Some(stamp);
    }

    /** The copying loop of `_create_file_backup`: the folder `stamp` is created (or reused,
        holding `base`) and each existing configuration file copied into it. */
    method CopyConfigFiles(stamp: string, base: map<string, Node>) returns (folder: map<string, Node>, files: seq<string>)
      modifies this
      ensures folder == CopyFiles(config, base, configFiles) && files == CopiedNames(config, configFiles)
      ensures entries == old(entries)[stamp := Folder(folder)]
      ensures config == old(config) && snapshots == old(snapshots)
    {
      folder := base;
      entries := entries[stamp := Folder(folder)];
      files := [];
      for i := 0 to |configFiles|
        invariant folder == CopyFiles(config, base, configFiles[..i])
        invariant files == CopiedNames(config, configFiles[..i])
        invariant entries == old(entries)[stamp := Folder(folder)]
        invariant config == old(config) && snapshots == old(snapshots)
      {
        var source := configFiles[i];
        assert configFiles[..i + 1][..i] == configFiles[..i];
        if source in config {
          folder := folder[Basename(source) := config[source]];
          entries := entries[stamp := Folder(folder)];
          files := files + [Basename(source)];
        }
      }
      assert configFiles[..|configFiles|] == configFiles;
    }

    /** `_cleanup_file_backups(keep)`. */
    method CleanupFileBackups(keep: nat)
      modifies this
      ensures State() == CleanupFiles(old(State()), keep)
    {
      var sorted := SortNames(FolderNames(entries));
      var gone := Retired(sorted, keep);
      for i := 0 to |gone|
        invariant entries == old(entries) - Names(gone[..i])
        invariant config == old(config) && snapshots == old(snapshots)
      {
        assert Names(gone[..i + 1]) == Names(gone[..i]) + {gone[i]} by {
          assert gone[..i + 1] == gone[..i] + [gone[i]];
        }
        entries := entries - {gone[i]};
      }
      assert gone[..|gone|] == gone;
    }

    /** `_cleanup_zfs_snapshots(keep)`. */
    method CleanupZfsSnapshots(keep: nat)
      modifies this
      ensures State() == CleanupSnapshots(old(State()), keep)
    {
      var sorted := SortNames(NetguiSnapshots(snapshots));
      var gone := Retired(sorted, keep);
      for i := 0 to |gone|
        invariant State() == DeleteSnapshots(old(State()), gone[..i])
      {
        assert gone[..i + 1][..i] == gone[..i];
        var _ := DeleteZfsBackup(gone[i]);
      }
      assert gone[..|gone|] == gone;
    }

    /** `restore_backup`. */
    method RestoreBackup(id: string) returns (ok: bool)
      modifies this
      ensures (State(), ok) == Restore(old(State()), configFiles, id)
    {
      if Contains(id, Marker) {
        ok := RestoreZfsBackup(id);
      } else {
        ok := RestoreFileBackup(id);
      }
    }

    /** `_restore_zfs_backup`. */
    method RestoreZfsBackup(name: string) returns (ok: bool)
      modifies this
      ensures (State(), ok) == RestoreSnapshot(old(State()), name)
    {
      if name !in snapshots {
        return false;
      }
      config := snapshots[name];
      return true;
    }

    /** `_restore_file_backup`. */
    method RestoreFileBackup(id: string) returns (ok: bool)
      modifies this
      ensures (State(), ok) == RestoreFolder(old(State()), configFiles, id)
    {
      var at := FolderAt(State(), id);
      if at.None? || MetaFile !in at.value || at.value[MetaFile].Data? {
        return false;
      }
      var folder := at.value;
      var files := FromDict(folder[MetaFile].dict).files;
      for i := 0 to |files|
        invariant config == RestoreFiles(old(config), configFiles, folder, files[..i])
        invariant entries == old(entries) && snapshots == old(snapshots)
      {
        assert files[..i + 1][..i] == files[..i];
        var dest := FindConfigPath(configFiles, files[i]);
        if dest.Some? && files[i] in folder {
          config := config[dest.value := folder[files[i]]];
        }
      }
      assert files[..|files|] == files;
      return true;
    }

    /** `delete_backup`. */
    method DeleteBackup(id: string) returns (ok: bool)
      modifies this
      ensures (State(), ok) == Delete(old(State()), id)
    {
      if Contains(id, Marker) {
        ok := DeleteZfsBackup(id);
      } else {
        ok := DeleteFileBackup(id);
      }
    }

    /** `_delete_zfs_backup`. */
    method DeleteZfsBackup(name: string) returns (ok: bool)
      modifies this
      ensures (State(), ok) == DeleteSnapshot(old(State()), name)
    {
      if name !in snapshots {
        return false;
      }
      snapshots := snapshots - {name};
      var stamp := StampOf(name);
      if stamp != "" {
        var meta := MetaName(stamp);
        if meta in entries {
          if entries[meta].Folder? {
            return false;
          }
          entries := entries - {meta};
        }
      }
      return true;
    }

    /** `_delete_file_backup`. */
    method DeleteFileBackup(id: string) returns (ok: bool)
      modifies this
      ensures (State(), ok) == DeleteFolder(old(State()), id)
    {
      var target := TargetOf(id);
      if target.StoreDir? {
        entries := map[];
        return true;
      }
      if target.EntryAt? && target.name in entries && entries[target.name].Folder? {
        entries := entries - {target.name};
        return true;
      }
      return false;
    }

    /** `list_backups`, reading the directory in the order `order`. */
    method ListBackups(order: seq<string>) returns (list: seq<Metadata>)
      ensures list == Listing(State(), order)
    {
      var found, ok := CollectRecords(entries, order);
      if ok {
        list := SortRecords(found);
      } else {
        list := found;
      }
    }

    /** `get_backup_info`, over the listing read in the order `order`. */
    method GetBackupInfo(id: string, order: seq<string>) returns (info: Option<Metadata>)
      ensures info == FirstMatchAsWritten(Listing(State(), order), id)
    {
      var list := ListBackups(order);
      var i := 0;
      while i < |list|
        invariant 0 <= i <= |list|
        invariant FirstMatchAsWritten(list[i..], id) == FirstMatchAsWritten(list, id)
      {
        if MatchesAsWritten(list[i], id) {
          return Some(list[i]);
        }
        assert list[i..][1..] == list[i + 1..];
        i := i + 1;
      }
      return None;
    }
  }

  /** The reading loop of `list_backups` over `names`: the records found, and whether it
      got through without an unreadable file. */
  method CollectRecords(entries: map<string, Entry>, names: seq<string>) returns (found: seq<Metadata>, ok: bool)
    ensures (found, ok) == Collect(entries, names)
  {
    found := [];
    for i := 0 to |names|
      invariant Collect(entries, names[..i]) == (found, true)
    {
      assert names[..i + 1][..i] == names[..i];
      var n := names[i];
      if n in entries {
        match ItemOf(n, entries[n])
        case Skip =>
        case Record(m) =>
          found := found + [m];
        case Broken =>
          CollectStops(entries, names, i + 1);
          return found, false;
      }
    }
    assert names[..|names|] == names;
    return found, true;
  }

  /** `backups.sort(key=timestamp, reverse=True)`, one insertion at a time. */
  method SortRecords(found: seq<Metadata>) returns (list: seq<Metadata>)
    ensures list == SortByTime(found)
  {
    list := [];
    for j := 0 to |found|
      invariant list == SortByTime(found[..j])
    {
      assert found[..j + 1][..j] == found[..j];
      list := Insert(found[j], list);
    }
    assert found[..|found|] == found;
  }

  /** After an unreadable file nothing more is read. */
  lemma {:induction false} CollectStops(entries: map<string, Entry>, names: seq<string>, k: nat)
    requires k <= |names| && !Collect(entries, names[..k]).1
    ensures Collect(entries, names) == Collect(entries, names[..k])
    decreases |names| - k
  {
    if k < |names| {
      assert names[..k + 1][..k] == names[..k];
      CollectStops(entries, names, k + 1);
    } else {
      assert names[..k] == names;
    }
  }

  // ------------------------------------------------------------------ properties

  /** The newest of a set of names outlives any retention that keeps at least one. */
  lemma NewestKept(names: set<string>, top: string, keep: nat)
    requires top in names && keep > 0
    requires forall n :: n in names && n != top ==> Before(n, top)
    ensures top !in Names(Retired(SortedNames(names), keep))
  {
    var sorted := SortedNames(names);
    var gone := Retired(sorted, keep);
    SortedNamesSpec(names);
    NewestSurvive(names, keep);
    if top in Names(gone) {
      var i :| 0 <= i < |gone| && gone[i] == top;
      var y := sorted[|sorted| - 1];
      assert Before(top, y);
      assert y in names;
      LessEqAntisym(top, y);
    }
  }

  /** File retention removes only folders, each older than every folder it keeps, and
      changes nothing when `keep` is zero or there are no more than `keep` folders. */
  lemma CleanupFilesEffect(st: Store, keep: nat)
    ensures var r := CleanupFiles(st, keep);
            r.config == st.config && r.snapshots == st.snapshots &&
            r.entries.Keys <= st.entries.Keys &&
            (forall n :: n in r.entries ==> r.entries[n] == st.entries[n]) &&
            (forall n, y :: n in st.entries && n !in r.entries && y in FolderNames(r.entries) ==>
               n in FolderNames(st.entries) && Before(n, y)) &&
            (keep == 0 || |FolderNames(st.entries)| <= keep ==> r == st)
  {
    var folders := FolderNames(st.entries);
    var sorted := SortedNames(folders);
    var gone := Retired(sorted, keep);
    SortedNamesSpec(folders);
    NewestSurvive(folders, keep);
    var r := CleanupFiles(st, keep);
    forall n, y | n in st.entries && n !in r.entries && y in FolderNames(r.entries)
      ensures n in folders && Before(n, y)
    {
      assert y in folders && y in sorted;
      var i :| 0 <= i < |gone| && gone[i] == n;
      var j :| 0 <= j < |sorted| && sorted[j] == y;
      assert forall k :: 0 <= k < |gone| ==> gone[k] in Names(gone);
    }
    if keep == 0 || |folders| <= keep {
      assert Names(gone) == {};
      assert r.entries == st.entries;
    }
  }

  /** Deleting snapshots one by one removes exactly those snapshots, leaves the live files
      alone and removes at most some backup-directory entries. */
  lemma {:induction false} DeleteSnapshotsEffect(st: Store, names: seq<string>)
    ensures var r := DeleteSnapshots(st, names);
            r.config == st.config && r.snapshots == st.snapshots - Names(names) &&
            r.entries.Keys <= st.entries.Keys &&
            forall n :: n in r.entries ==> r.entries[n] == st.entries[n]
  {
    if names != [] {
      var init := names[..|names| - 1];
      var last := names[|names| - 1];
      DeleteSnapshotsEffect(st, init);
      var mid := DeleteSnapshots(st, init);
      DeleteSnapshotEffect(mid, last);
      assert names == init + [last];
      assert Names(names) == Names(init) + {last};
      assert mid.snapshots - {last} == st.snapshots - Names(names);
    }
  }

  /** `_delete_zfs_backup` removes the snapshot, if there, and perhaps a metadata file. */
  lemma DeleteSnapshotEffect(st: Store, name: string)
    ensures var r := DeleteSnapshot(st, name).0;
            r.config == st.config && r.snapshots == st.snapshots - {name} &&
            r.entries.Keys <= st.entries.Keys &&
            forall n :: n in r.entries ==> r.entries[n] == st.entries[n]
  {
    if name !in st.snapshots {
      assert st.snapshots - {name} == st.snapshots;
    }
  }

  /** Snapshot retention only deletes marked snapshots, each older than every marked one it
      keeps, and never touches the live files. */
  lemma CleanupSnapshotsEffect(st: Store, keep: nat)
    ensures var r := CleanupSnapshots(st, keep);
            r.config == st.config &&
            r.snapshots.Keys <= st.snapshots.Keys &&
            (forall n :: n in r.snapshots ==> r.snapshots[n] == st.snapshots[n]) &&
            (forall n, y :: n in st.snapshots && n !in r.snapshots && y in NetguiSnapshots(r.snapshots) ==>
               n in NetguiSnapshots(st.snapshots) && Before(n, y)) &&
            r.entries.Keys <= st.entries.Keys &&
            (forall n :: n in r.entries ==> r.entries[n] == st.entries[n])
  {
    var marked := NetguiSnapshots(st.snapshots);
    var gone := Retired(SortedNames(marked), keep);
    DeleteSnapshotsEffect(st, gone);
    var r := CleanupSnapshots(st, keep);
    assert r.snapshots == st.snapshots - Names(gone);
    RetiredBefore(marked, keep);
    forall n, y | n in st.snapshots && n !in r.snapshots && y in NetguiSnapshots(r.snapshots)
      ensures n in marked && Before(n, y)
    {
      assert n in Names(gone) && y in marked && y !in Names(gone);
    }
  }

  /** Every name a retention retires is one of the names, and older than each one it keeps. */
  lemma RetiredBefore(names: set<string>, keep: nat)
    ensures var gone := Names(Retired(SortedNames(names), keep));
            gone <= names &&
            forall n, y :: n in gone && y in names && y !in gone ==> Before(n, y)
  {
    var sorted := SortedNames(names);
    var gone := Retired(sorted, keep);
    SortedNamesSpec(names);
    NewestSurvive(names, keep);
    forall n, y | n in Names(gone) && y in names && y !in Names(gone)
      ensures Before(n, y)
    {
      assert y in sorted;
      var i :| 0 <= i < |gone| && gone[i] == n;
      var j :| 0 <= j < |sorted| && sorted[j] == y;
      assert forall k :: 0 <= k < |gone| ==> gone[k] in Names(gone);
    }
  }

  /** The files of `paths` that exist, by path. */
  function Captured(config: map<string, Node>, paths: seq<string>): map<string, Node> {
    map p | p in config && p in paths :: config[p]
  }

  lemma DistinctPrefix(files: seq<string>, n: nat)
    requires DistinctNames(files) && n <= |files|
    ensures DistinctNames(files[..n])
  {
    assert forall k :: 0 <= k < n ==> files[..n][k] == files[k];
  }

  /** Copying files with distinct base names stores each existing one under its base name:
      no later copy overwrites an earlier one. */
  lemma {:induction false} CopyFilesHold(config: map<string, Node>, base: map<string, Node>, files: seq<string>)
    requires DistinctNames(files)
    ensures forall j :: 0 <= j < |files| && files[j] in config ==>
              Basename(files[j]) in CopyFiles(config, base, files) &&
              CopyFiles(config, base, files)[Basename(files[j])] == config[files[j]]
  {
    if files != [] {
      var init := files[..|files| - 1];
      DistinctPrefix(files, |files| - 1);
      CopyFilesHold(config, base, init);
      assert forall j :: 0 <= j < |init| ==> init[j] == files[j];
    }
  }

  lemma UnionUpdate<K, V>(a: map<K, V>, b: map<K, V>, k: K, v: V)
    ensures a + b[k := v] == (a + b)[k := v]
  {
  }

  /** One more path copied: restoring its base name writes it back. */
  lemma RestoreStep(live: map<string, Node>, config: map<string, Node>, files: seq<string>,
                    folder: map<string, Node>, prefix: seq<string>, p: string)
    requires RestoreFiles(live, files, folder, CopiedNames(config, prefix)) == live + Captured(config, prefix)
    requires p in config ==>
               FirstNamed(files, Basename(p)) == Some(p) && Basename(p) in folder && folder[Basename(p)] == config[p]
    ensures RestoreFiles(live, files, folder, CopiedNames(config, prefix + [p])) == live + Captured(config, prefix + [p])
  {
    var paths := prefix + [p];
    assert paths[..|paths| - 1] == prefix;
    var names := CopiedNames(config, prefix);
    if p in config {
      var n := Basename(p);
      assert CopiedNames(config, paths) == names + [n];
      RestoreFilesSnoc(live, files, folder, names, n, p);
      assert Captured(config, paths) == Captured(config, prefix)[p := config[p]];
      UnionUpdate(live, Captured(config, prefix), p, config[p]);
    } else {
      assert CopiedNames(config, paths) == names;
      assert Captured(config, paths) == Captured(config, prefix);
    }
  }

  /** Restoring the names a backup recorded writes each captured file back to its path,
      when every path is the one its base name restores to. */
  lemma {:induction false} RestoreCopied(live: map<string, Node>, config: map<string, Node>, files: seq<string>,
                                         folder: map<string, Node>, paths: seq<string>)
    requires forall j :: 0 <= j < |paths| ==> FirstNamed(files, Basename(paths[j])) == Some(paths[j])
    requires forall j :: 0 <= j < |paths| && paths[j] in config ==>
               Basename(paths[j]) in folder && folder[Basename(paths[j])] == config[paths[j]]
    ensures RestoreFiles(live, files, folder, CopiedNames(config, paths)) == live + Captured(config, paths)
  {
    if paths == [] {
      assert Captured(config, paths) == map[];
      assert live + map[] == live;
    } else {
      var prefix := paths[..|paths| - 1];
      var p := paths[|paths| - 1];
      assert paths == prefix + [p];
      assert forall j :: 0 <= j < |prefix| ==> prefix[j] == paths[j];
      RestoreCopied(live, config, files, folder, prefix);
      RestoreStep(live, config, files, folder, prefix, p);
    }
  }

  /** A file backup taken under a new, newest stamp restores, over whatever the live files
      have become, every configuration file that existed when it was taken, and only those. */
  lemma FileRoundTrip(st: Store, files: seq<string>, reason: string, stamp: string, now: string, user: string,
                      host: string, live: map<string, Node>)
    requires DistinctNames(files)
    requires EntryName(stamp) && stamp !in st.entries
    requires forall n :: n in FolderNames(st.entries) ==> Before(n, stamp)
    ensures var (st1, id) := CreateFile(st, files, reason, stamp, now, user, host);
            id == Some(stamp) &&
            RestoreFolder(st1.(config := live), files, stamp) == (st1.(config := live + Captured(st.config, files)), true)
  {
    var meta := Metadata(now, "file", CopiedNames(st.config, files), reason, user, host, None);
    var copies := CopyFiles(st.config, map[], files);
    var folder := copies[MetaFile := Json(ToDict(meta))];
    var st2 := st.(entries := st.entries[stamp := Folder(folder)]);
    var st1 := CleanupFiles(st2, 20);
    assert CreateFile(st, files, reason, stamp, now, user, host) == (st1, Some(stamp));
    var folders := FolderNames(st2.entries);
    assert forall n :: n in folders && n != stamp ==> n in FolderNames(st.entries);
    NewestKept(folders, stamp, 20);
    assert st1.entries[stamp] == Folder(folder);
    MetadataRoundTrip(meta);
    CopyFilesHold(st.config, map[], files);
    forall j | 0 <= j < |files| ensures FirstNamed(files, Basename(files[j])) == Some(files[j]) {
      FirstNamedOf(files, j);
    }
    RestoreCopied(live, st.config, files, folder, files);
  }
}
