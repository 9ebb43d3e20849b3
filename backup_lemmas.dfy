/** Properties that relate several backup operations: what a snapshot or a file backup
    gives back, and how `get_backup_info` finds a backup by the name it was created with. */
module BackupLemmas {
  import opened Wrappers
  import opened Text
  import opened Backup

  // ------------------------------------------------------------------ snapshot names

  /** A snapshot name carries the marker. */
  lemma MarkerIn(dataset: string, stamp: string)
    ensures Contains(dataset + Marker + stamp, Marker)
  {
    var name := dataset + Marker + stamp;
    assert name[|dataset|..|dataset| + |Marker|] == Marker;
    assert OccursAt(name, Marker, |dataset|);
  }

  /** The marker is found where it was put when the dataset holds no `@`. */
  lemma FindMarker(dataset: string, stamp: string)
    requires HasNo(dataset, '@')
    ensures Find(dataset + Marker + stamp, Marker) == Some(|dataset|)
  {
    var name := dataset + Marker + stamp;
    MarkerIn(dataset, stamp);
    var j := Find(name, Marker).value;
    assert name[|dataset|..|dataset| + |Marker|] == Marker;
    assert OccursAt(name, Marker, |dataset|);
    forall i | 0 <= i < |dataset| ensures !OccursAt(name, Marker, i) {
      assert name[i..i + |Marker|][0] == name[i] == dataset[i];
    }
  }

  /** The stamp `_delete_zfs_backup` reads back from a snapshot name is the one it was
      created with, the dataset and the stamp holding no `@`. */
  lemma StampOfName(dataset: string, stamp: string)
    requires HasNo(dataset, '@') && HasNo(stamp, '@')
    ensures StampOf(dataset + Marker + stamp) == stamp
  {
    var name := dataset + Marker + stamp;
    FindMarker(dataset, stamp);
    assert name[|dataset| + |Marker|..] == stamp;
    forall j: nat | j + |Marker| <= |stamp| ensures !OccursAt(stamp, Marker, j) {
      assert stamp[j..j + |Marker|][0] == stamp[j];
    }
  }

  // ------------------------------------------------------------------ round trips

  /** A snapshot backup, rolled back to at any later state of the files, brings back the
      files it was taken of: the new snapshot is the newest marked one, so the retention
      that follows its creation keeps it. */
  lemma SnapshotRoundTrip(st: Store, files: seq<string>, dataset: string, reason: string, stamp: string,
                          now: string, user: string, host: string, live: map<string, Node>)
    requires dataset + Marker + stamp !in st.snapshots
    requires MetaName(stamp) !in st.entries || st.entries[MetaName(stamp)].Plain?
    requires forall n :: n in NetguiSnapshots(st.snapshots) ==> Before(n, dataset + Marker + stamp)
    ensures var (st1, id) := CreateZfs(st, dataset, reason, stamp, now, user, host);
            id == Some(dataset + Marker + stamp) &&
            Restore(st1.(config := live), files, id.value) == (st1.(config := st.config), true)
  {
    var name := dataset + Marker + stamp;
    var m := Metadata(now, "zfs", [], reason, user, host, Some(name));
    var st2 := st.(snapshots := st.snapshots[name := st.config],
                   entries := st.entries[MetaName(stamp) := Plain(Json(ToDict(m)))]);
    MarkerIn(dataset, stamp);
    var marked := NetguiSnapshots(st2.snapshots);
    assert name in marked;
    forall n | n in marked && n != name ensures Before(n, name) {
      assert n in NetguiSnapshots(st.snapshots);
    }
    NewestKept(marked, name, 10);
    var gone := Retired(SortedNames(marked), 10);
    DeleteSnapshotsEffect(st2, gone);
    var st1 := CleanupSnapshots(st2, 10);
    assert CreateZfs(st, dataset, reason, stamp, now, user, host) == (st1, Some(name));
    assert name in st1.snapshots && st1.snapshots[name] == st.config;
  }

  /** Deleting a snapshot backup destroys the snapshot and the metadata file written
      beside it, and nothing else. */
  lemma DeleteSnapshotBackup(st: Store, dataset: string, stamp: string)
    requires HasNo(dataset, '@') && HasNo(stamp, '@') && stamp != ""
    requires dataset + Marker + stamp in st.snapshots
    requires MetaName(stamp) in st.entries && st.entries[MetaName(stamp)].Plain?
    ensures Delete(st, dataset + Marker + stamp) ==
              (st.(snapshots := st.snapshots - {dataset + Marker + stamp},
                   entries := st.entries - {MetaName(stamp)}), true)
  {
    MarkerIn(dataset, stamp);
    StampOfName(dataset, stamp);
  }

  /** As written, deleting an id that names the backup directory itself (the empty id, `.`,
      `./` and the like) removes the whole directory: every backup goes and the call reports
      success. The corrected delete refuses such an id. */
  lemma DeleteStoreId(st: Store, id: string)
    requires NamesStore(id)
    ensures Delete(st, id).1 && forall n :: n in st.entries ==> n !in Delete(st, id).0.entries
    ensures DeleteNamed(st, id) == (st, false)
  {
  }

  /** The corrected delete removes the named backup folder and no other entry. */
  lemma DeleteNamedOnly(st: Store, id: string, n: string)
    requires n in st.entries && n != id
    ensures n in DeleteNamed(st, id).0.entries
  {
  }

  /** `pathlib` drops a trailing `/` and a leading `./`, so such an id restores and deletes
      the backup folder it names, as the bare name does. */
  lemma NormalisedIds(st: Store, files: seq<string>, n: string)
    requires EntryName(n)
    ensures TargetOf(n + "/") == EntryAt(n) && TargetOf("./" + n) == EntryAt(n)
    ensures RestoreFolder(st, files, n + "/") == RestoreFolder(st, files, n)
    ensures RestoreFolder(st, files, "./" + n) == RestoreFolder(st, files, n)
    ensures DeleteFolder(st, n + "/") == DeleteFolder(st, n)
    ensures DeleteFolder(st, "./" + n) == DeleteFolder(st, n)
  {
    assert Text.Join("/", [n, ""]) == n + "/";
    SplitJoin([n, ""], '/');
    assert Text.Join("/", [".", n]) == "./" + n;
    SplitJoin([".", n], '/');
    assert Parts([n, ""]) == [n] + Parts([""]);
    assert Parts([".", n]) == Parts([n]);
    assert ("./" + n)[0] == '.';
  }

  // ------------------------------------------------------------------ listing

  /** The entry `n` holds metadata that cannot be read. */
  predicate Unreadable(entries: map<string, Entry>, n: string) {
    n in entries && ItemOf(n, entries[n]).Broken?
  }

  /** The entry `n` holds the record `m`. */
  predicate RecordAt(entries: map<string, Entry>, n: string, m: Metadata) {
    n in entries && ItemOf(n, entries[n]) == Record(m)
  }

  /** Reading `names` in turn gets through exactly when none of them is unreadable, and then
      finds the records they hold and no others. */
  lemma {:induction false} CollectSpec(entries: map<string, Entry>, names: seq<string>)
    ensures Collect(entries, names).1 <==> forall i :: 0 <= i < |names| ==> !Unreadable(entries, names[i])
    ensures Collect(entries, names).1 ==>
              forall m :: m in Collect(entries, names).0 <==> exists i :: 0 <= i < |names| && RecordAt(entries, names[i], m)
  {
    if names != [] {
      var init := names[..|names| - 1];
      var n := names[|names| - 1];
      CollectSpec(entries, init);
      assert forall i :: 0 <= i < |init| ==> init[i] == names[i];
      var (found, ok) := Collect(entries, init);
      if ok && Collect(entries, names).1 {
        forall m ensures m in Collect(entries, names).0 <==> exists i :: 0 <= i < |names| && RecordAt(entries, names[i], m) {
          if RecordAt(entries, n, m) {
            assert RecordAt(entries, names[|names| - 1], m);
          }
          if exists i :: 0 <= i < |names| && RecordAt(entries, names[i], m) {
            var i :| 0 <= i < |names| && RecordAt(entries, names[i], m);
            if i < |init| {
              assert RecordAt(entries, init[i], m);
            }
          }
        }
      }
    }
  }

  /** `list_backups` when every metadata file can be read: newest first, and holding each
      backup's record and nothing else. */
  lemma ListingSpec(st: Store, order: seq<string>)
    requires forall n :: n in st.entries ==> n in order && !Unreadable(st.entries, n)
    ensures Descending(Listing(st, order))
    ensures forall m :: m in Listing(st, order) <==> exists n :: RecordAt(st.entries, n, m)
  {
    CollectSpec(st.entries, order);
    var found := Collect(st.entries, order).0;
    assert Collect(st.entries, order).1;
    assert Listing(st, order) == SortByTime(found);
    forall m ensures m in Listing(st, order) <==> exists n :: RecordAt(st.entries, n, m) {
      assert m in Listing(st, order) <==> m in multiset(Listing(st, order));
      assert m in found <==> m in multiset(found);
      RecordNamed(st.entries, order, m);
    }
  }

  /** On either path, whatever the reading finds is a record one of the names holds. */
  lemma {:induction false} CollectFound(entries: map<string, Entry>, names: seq<string>)
    ensures forall m :: m in Collect(entries, names).0 ==> exists i :: 0 <= i < |names| && RecordAt(entries, names[i], m)
  {
    if names != [] {
      var init := names[..|names| - 1];
      CollectFound(entries, init);
      forall m | m in Collect(entries, names).0
        ensures exists i :: 0 <= i < |names| && RecordAt(entries, names[i], m)
      {
        if m in Collect(entries, init).0 {
          var i :| 0 <= i < |init| && RecordAt(entries, init[i], m);
          assert names[i] == init[i];
        } else {
          assert RecordAt(entries, names[|names| - 1], m);
        }
      }
    }
  }

  /** Every record listed, sorted or not, is a record of the backup directory. */
  lemma ListedRecord(st: Store, order: seq<string>, m: Metadata)
    requires m in Listing(st, order)
    ensures exists n :: RecordAt(st.entries, n, m)
  {
    var (found, ok) := Collect(st.entries, order);
    CollectFound(st.entries, order);
    if ok {
      assert m in multiset(SortByTime(found));
      assert m in found;
    }
    var i :| 0 <= i < |order| && RecordAt(st.entries, order[i], m);
  }

  /** Every entry is among `names`, so a record anywhere is a record at one of them. */
  lemma RecordNamed(entries: map<string, Entry>, names: seq<string>, m: Metadata)
    requires forall n :: n in entries ==> n in names
    ensures (exists n :: RecordAt(entries, n, m)) <==> exists i :: 0 <= i < |names| && RecordAt(entries, names[i], m)
  {
    if exists n :: RecordAt(entries, n, m) {
      var n :| RecordAt(entries, n, m);
      var i :| 0 <= i < |names| && names[i] == n;
      assert RecordAt(entries, names[i], m);
    }
  }

  // ------------------------------------------------------------------ finding a backup by name

  /** A reading of the clock, field by field in decimal. */
  datatype Clock = Clock(year: string, month: string, day: string, hour: string, minute: string,
                         second: string, micro: string)

  predicate DigitsOf(s: string, n: nat) { |s| == n && forall i :: 0 <= i < n ==> IsDigit(s[i]) }

  /** Fields of the widths `datetime` prints; the microseconds, when shown, a dot and six
      digits. */
  predicate ValidClock(c: Clock) {
    DigitsOf(c.year, 4) && DigitsOf(c.month, 2) && DigitsOf(c.day, 2) &&
    DigitsOf(c.hour, 2) && DigitsOf(c.minute, 2) && DigitsOf(c.second, 2) &&
    (c.micro == [] || (|c.micro| == 7 && c.micro[0] == '.' && DigitsOf(c.micro[1..], 6)))
  }

  /** `datetime.isoformat()`, the timestamp a backup's metadata records. */
  function IsoFormat(c: Clock): string {
    c.year + "-" + c.month + "-" + c.day + "T" + c.hour + ":" + c.minute + ":" + c.second + c.micro
  }

  /** `strftime("%Y%m%d-%H%M%S")`, the name a backup is created under. */
  function StampFormat(c: Clock): string {
    c.year + c.month + c.day + "-" + c.hour + c.minute + c.second
  }

  /** A field of digits survives the replacements of `:`, `-` and `T`. */
  lemma DigitsKept(s: string, n: nat)
    requires DigitsOf(s, n)
    ensures ReplaceChar(s, ':', []) == s && ReplaceChar(s, '-', []) == s && ReplaceChar(s, 'T', "-") == s
  {
    ReplaceCharAbsent(s, ':', []);
    ReplaceCharAbsent(s, '-', []);
    ReplaceCharAbsent(s, 'T', "-");
  }

  /** Every field of the clock is left as it is by replacing `a` with `b`. */
  predicate FieldsKept(c: Clock, a: char, b: string) {
    ReplaceChar(c.year, a, b) == c.year && ReplaceChar(c.month, a, b) == c.month &&
    ReplaceChar(c.day, a, b) == c.day && ReplaceChar(c.hour, a, b) == c.hour &&
    ReplaceChar(c.minute, a, b) == c.minute && ReplaceChar(c.second, a, b) == c.second &&
    ReplaceChar(c.micro, a, b) == c.micro
  }

  lemma ValidFieldsKept(c: Clock)
    requires ValidClock(c)
    ensures FieldsKept(c, ':', []) && FieldsKept(c, '-', [])
    ensures ReplaceChar(c.year, 'T', "-") == c.year && ReplaceChar(c.month, 'T', "-") == c.month &&
            ReplaceChar(c.day, 'T', "-") == c.day && ReplaceChar(c.hour, 'T', "-") == c.hour &&
            ReplaceChar(c.minute, 'T', "-") == c.minute && ReplaceChar(c.second, 'T', "-") == c.second
  {
    DigitsKept(c.year, 4);
    DigitsKept(c.month, 2);
    DigitsKept(c.day, 2);
    DigitsKept(c.hour, 2);
    DigitsKept(c.minute, 2);
    DigitsKept(c.second, 2);
    MicroKept(c.micro);
  }

  /** The microseconds, a dot and digits, hold neither a colon nor a dash. */
  lemma MicroKept(u: string)
    requires u == [] || (|u| == 7 && u[0] == '.' && DigitsOf(u[1..], 6))
    ensures ReplaceChar(u, ':', []) == u && ReplaceChar(u, '-', []) == u
  {
    assert forall i :: 1 <= i < |u| ==> u[i] == u[1..][i - 1];
    assert HasNo(u, ':') && HasNo(u, '-');
    ReplaceCharAbsent(u, ':', []);
    ReplaceCharAbsent(u, '-', []);
  }

  /** One piece more of a text whose replacement is known. */
  lemma Join(s: string, t: string, a: char, b: string, s1: string, t1: string)
    requires ReplaceChar(s, a, b) == s1 && ReplaceChar(t, a, b) == t1
    ensures ReplaceChar(s + t, a, b) == s1 + t1
  {
    ReplaceCharAppend(s, t, a, b);
  }

  /** The ISO timestamp without its colons. */
  lemma ColonsDropped(c: Clock)
    requires FieldsKept(c, ':', [])
    ensures ReplaceChar(IsoFormat(c), ':', []) ==
              c.year + "-" + c.month + "-" + c.day + "T" + c.hour + c.minute + c.second + c.micro
  {
    var a, b := ':', [];
    var d := c.year + "-" + c.month + "-" + c.day + "T" + c.hour;
    Join(c.year, "-", a, b, c.year, "-");
    Join(c.year + "-", c.month, a, b, c.year + "-", c.month);
    Join(c.year + "-" + c.month, "-", a, b, c.year + "-" + c.month, "-");
    Join(c.year + "-" + c.month + "-", c.day, a, b, c.year + "-" + c.month + "-", c.day);
    Join(c.year + "-" + c.month + "-" + c.day, "T", a, b, c.year + "-" + c.month + "-" + c.day, "T");
    Join(c.year + "-" + c.month + "-" + c.day + "T", c.hour, a, b, c.year + "-" + c.month + "-" + c.day + "T", c.hour);
    Join(d, ":", a, b, d, []);
    assert d + [] == d;
    Join(d + ":", c.minute, a, b, d, c.minute);
    Join(d + ":" + c.minute, ":", a, b, d + c.minute, []);
    assert d + c.minute + [] == d + c.minute;
    Join(d + ":" + c.minute + ":", c.second, a, b, d + c.minute, c.second);
    Join(d + ":" + c.minute + ":" + c.second, c.micro, a, b, d + c.minute + c.second, c.micro);
  }

  /** Then without its dashes. */
  lemma DashesDropped(c: Clock)
    requires FieldsKept(c, '-', [])
    ensures ReplaceChar(c.year + "-" + c.month + "-" + c.day + "T" + c.hour + c.minute + c.second + c.micro, '-', []) ==
              c.year + c.month + c.day + "T" + c.hour + c.minute + c.second + c.micro
  {
    var a, b := '-', [];
    Join(c.year, "-", a, b, c.year, []);
    assert c.year + [] == c.year;
    Join(c.year + "-", c.month, a, b, c.year, c.month);
    Join(c.year + "-" + c.month, "-", a, b, c.year + c.month, []);
    assert c.year + c.month + [] == c.year + c.month;
    Join(c.year + "-" + c.month + "-", c.day, a, b, c.year + c.month, c.day);
    var d := c.year + "-" + c.month + "-" + c.day;
    var d1 := c.year + c.month + c.day;
    Join(d, "T", a, b, d1, "T");
    Join(d + "T", c.hour, a, b, d1 + "T", c.hour);
    Join(d + "T" + c.hour, c.minute, a, b, d1 + "T" + c.hour, c.minute);
    Join(d + "T" + c.hour + c.minute, c.second, a, b, d1 + "T" + c.hour + c.minute, c.second);
    Join(d + "T" + c.hour + c.minute + c.second, c.micro, a, b, d1 + "T" + c.hour + c.minute + c.second, c.micro);
  }

  /** The key of an ISO timestamp: the date and time digits with the `T` between them. */
  lemma KeyOfIso(c: Clock)
    requires ValidClock(c)
    ensures Key(IsoFormat(c)) == c.year + c.month + c.day + "T" + c.hour + c.minute + c.second
  {
    var iso := IsoFormat(c);
    var noColon := c.year + "-" + c.month + "-" + c.day + "T" + c.hour + c.minute + c.second + c.micro;
    var digits := c.year + c.month + c.day + "T" + c.hour + c.minute + c.second;
    ValidFieldsKept(c);
    RemoveAllChar(iso, ':');
    ColonsDropped(c);
    RemoveAllChar(noColon, '-');
    DashesDropped(c);
    assert RemoveAll(RemoveAll(iso, ":"), "-") == digits + c.micro;
    assert (digits + c.micro)[..15] == digits;
  }

  /** A character the text does not hold rules out every pattern that holds it. */
  lemma NotContainsWith(s: string, p: string, k: nat)
    requires k < |p| && HasNo(s, p[k])
    ensures !Contains(s, p)
  {
    forall j: nat | j + |p| <= |s| ensures !OccursAt(s, p, j) {
      assert s[j..j + |p|][k] == s[j + k];
    }
  }

  /** `s in s`. */
  lemma ContainsSelf(s: string)
    ensures Contains(s, s)
  {
    assert OccursAt(s, s, 0);
  }

  /** As written, `get_backup_info` never finds a backup stamped with an ISO timestamp by a
      name without a `T`, such as the one a backup is created under: the key keeps the `T`. */
  lemma FileBackupMissed(m: Metadata, d: Clock, id: string)
    requires ValidClock(d) && m.timestamp == IsoFormat(d) && m.snapshotName != Some(id)
    requires HasNo(id, 'T')
    ensures !MatchesAsWritten(m, id)
  {
    KeyOfIso(d);
    assert Key(m.timestamp)[8] == 'T';
    NotContainsWith(id, Key(m.timestamp), 8);
  }

  /** A name made by the clock holds no `T`. */
  lemma StampHasNoT(c: Clock)
    requires ValidClock(c)
    ensures HasNo(StampFormat(c), 'T')
  {
  }

  /** Every record the backup directory holds is stamped by `datetime.isoformat()`. */
  ghost predicate IsoStamped(entries: map<string, Entry>) {
    forall n, m :: RecordAt(entries, n, m) ==> exists d :: ValidClock(d) && m.timestamp == IsoFormat(d)
  }

  /** So, as written, `get_backup_info` looks up a backup by the name it was created under in
      vain, in whatever order the directory is read: only an exact snapshot name is found. */
  lemma FileBackupMissedInListing(st: Store, order: seq<string>, c: Clock)
    requires ValidClock(c) && IsoStamped(st.entries)
    requires forall n, m :: RecordAt(st.entries, n, m) ==> m.snapshotName != Some(StampFormat(c))
    ensures FirstMatchAsWritten(Listing(st, order), StampFormat(c)) == None
  {
    var list := Listing(st, order);
    StampHasNoT(c);
    forall i | 0 <= i < |list| ensures !MatchesAsWritten(list[i], StampFormat(c)) {
      ListedRecord(st, order, list[i]);
      var n :| RecordAt(st.entries, n, list[i]);
      var d :| ValidClock(d) && list[i].timestamp == IsoFormat(d);
      FileBackupMissed(list[i], d, StampFormat(c));
    }
  }

  /** With the `T` turned into `-`, a backup whose metadata was stamped at the same clock
      reading as its name is found by that name. */
  lemma FileBackupFound(m: Metadata, c: Clock)
    requires ValidClock(c) && m.timestamp == IsoFormat(c)
    ensures Matches(m, StampFormat(c))
  {
    StampKeyOfIso(c);
    ContainsSelf(StampFormat(c));
  }

  /** So the corrected lookup finds a backup stamped at the clock reading of its name, when
      every metadata file of the directory can be read, in whatever order. */
  lemma FileBackupFoundInListing(st: Store, order: seq<string>, n: string, m: Metadata, c: Clock)
    requires forall k :: k in st.entries ==> k in order && !Unreadable(st.entries, k)
    requires RecordAt(st.entries, n, m) && ValidClock(c) && m.timestamp == IsoFormat(c)
    ensures FirstMatch(Listing(st, order), StampFormat(c)).Some?
  {
    ListingSpec(st, order);
    FileBackupFound(m, c);
    var list := Listing(st, order);
    assert m in list;
    var i :| 0 <= i < |list| && list[i] == m;
  }

  /** The corrected key of an ISO timestamp is the name made at the same clock reading. */
  lemma StampKeyOfIso(c: Clock)
    requires ValidClock(c)
    ensures StampKey(IsoFormat(c)) == StampFormat(c)
  {
    KeyOfIso(c);
    ValidFieldsKept(c);
    var a, b := 'T', "-";
    Join(c.year, c.month, a, b, c.year, c.month);
    Join(c.year + c.month, c.day, a, b, c.year + c.month, c.day);
    var d := c.year + c.month + c.day;
    Join(d, "T", a, b, d, "-");
    Join(d + "T", c.hour, a, b, d + "-", c.hour);
    Join(d + "T" + c.hour, c.minute, a, b, d + "-" + c.hour, c.minute);
    Join(d + "T" + c.hour + c.minute, c.second, a, b, d + "-" + c.hour + c.minute, c.second);
  }

  /** The same holds for a snapshot backup looked up by its stamp alone. */
  lemma SnapshotStampFound(m: Metadata, c: Clock, dataset: string)
    requires ValidClock(c) && m.timestamp == IsoFormat(c)
    ensures Matches(m, dataset + Marker + StampFormat(c))
  {
    StampKeyOfIso(c);
    var stamp := StampFormat(c);
    var name := dataset + Marker + stamp;
    assert name[|dataset| + |Marker|..] == stamp;
    assert OccursAt(name, stamp, |dataset| + |Marker|);
  }
}
