// DeleteApplication and DeleteFile of armsrc/desfiresim.c: a flag is set in an
// entry, and everything else stays where it is and stays spent.
module Tombstones {
  import opened Octets
  import opened Image
  import opened Allocator
  import opened CreateApp
  import opened CreateFile

  // ---- what is set

  function DeadFile(f: File): File {
    if FileDeleted(f) then f else f.(flags := f.flags + 32)
  }

  function DeadApp(a: App): App {
    if AppDeleted(a) then a else a.(flags := a.flags + 1)
  }

  // desfire_sim_find_app: the index of the first live entry, or the table's
  // length.
  function FirstLive(apps: seq<App>, aid: nat, i: nat): (r: nat)
    requires i <= |apps|
    ensures i <= r <= |apps|
    ensures r < |apps| ==> !AppDeleted(apps[r]) && apps[r].aid == aid
    ensures forall j :: i <= j < r ==> AppDeleted(apps[j]) || apps[j].aid != aid
    decreases |apps| - i
  {
    if i == |apps| || (!AppDeleted(apps[i]) && apps[i].aid == aid) then i else FirstLive(apps, aid, i + 1)
  }

  lemma FirstLiveIsLive(apps: seq<App>, aid: nat)
    ensures FirstLive(apps, aid, 0) < |apps| <==> LiveApp(apps, aid)
  {
    var r := FirstLive(apps, aid, 0);
    if r < |apps| {
      assert !AppDeleted(apps[r]) && apps[r].aid == aid;
    }
  }

  // The files of application `app` among the first n, dead.
  function GoneTo(files: seq<File>, app: nat, n: nat): (r: seq<File>)
    ensures |r| == |files|
  {
    seq(|files|, i requires 0 <= i < |files| => if i < n && files[i].app == app then DeadFile(files[i]) else files[i])
  }

  // ---- what the commands answer

  function DeleteFileAnswer(v: View, selected: nat, master: bool, frame: seq<octet>): Status
    requires selected < |v.apps|
  {
    if |frame| < 1 then WrongLength
    else if selected == 0 then PermissionDenied
    else if !MayCreate(v.apps, selected, master) then AuthenticationError
    else if !Finds(v.files, selected, frame[0]) then NoSuchFile
    else Ok
  }

  // The AID in front of a frame, or one that no application has.
  function AidOf(frame: seq<octet>): nat {
    if |frame| < 3 then 0x100_0000 else Three(frame[0], frame[1], frame[2])
  }

  function DeleteAppAnswer(v: View, selected: nat, master: bool, frame: seq<octet>): Status
    requires 0 < |v.apps|
  {
    var i := FirstLive(v.apps, AidOf(frame), 0);
    if |frame| < 3 then WrongLength
    else if AidOf(frame) == 0 then ParameterError
    else if i == |v.apps| then NoSuchApplication
    else if master && (selected == 0 || (selected == i && MayCreate(v.apps, 0, false))) then Ok
    else AuthenticationError
  }

  function SelectAnswer(v: View, frame: seq<octet>): Status {
    if |frame| < 3 then WrongLength
    else if FirstLive(v.apps, AidOf(frame), 0) == |v.apps| then NoSuchApplication
    else Ok
  }

  // ---- the memory afterwards

  function FileKilled(h: Header, m: seq<octet>, i: nat): (r: seq<octet>)
    requires Readable(h, m) && i < h.filecount
    ensures |r| == |m|
  {
    Put(m, FlagsAt(h.fileOff, i), [DeadFile(FileAt(m, h.fileOff, i)).flags])
  }

  function AppKilled(h: Header, m: seq<octet>, i: nat): (r: seq<octet>)
    requires Readable(h, m) && i < h.appcount
    ensures |r| == |m|
  {
    Put(m, FlagsAt(h.appOff, i), [DeadApp(AppAt(m, h.appOff, i)).flags])
  }

  function FilesKilled(h: Header, m: seq<octet>, app: nat, n: nat): (r: seq<octet>)
    requires Readable(h, m) && n <= h.filecount
    ensures |r| == |m|
  {
    if n == 0 then m else
      var r := FilesKilled(h, m, app, n - 1);
      if FileAt(r, h.fileOff, n - 1).app == app then FileKilled(h, r, n - 1) else r
  }

  function AppDeletedMemory(h: Header, m: seq<octet>, i: nat): (r: seq<octet>)
    requires Readable(h, m) && i < h.appcount
    ensures |r| == |m|
  {
    FilesKilled(h, AppKilled(h, m, i), i, h.filecount)
  }

  ghost predicate SameData(h: Header, m: seq<octet>, m': seq<octet>)
    requires h.dataStart <= |m|
  {
    |m'| == |m| && Slice(m', h.dataStart, |m| - h.dataStart) == Slice(m, h.dataStart, |m| - h.dataStart)
  }

  lemma FileKilledReads(h: Header, m: seq<octet>, i: nat)
    requires Placed(h, m) && i < h.filecount
    ensures var m' := FileKilled(h, m, i);
      && SameData(h, m, m')
      && Parse(h, m') == Parse(h, m).(files := Parse(h, m).files[i := DeadFile(Parse(h, m).files[i])])
  {
    hide Put, Slice, DecodeFile, DecodeApp, DecodeKey;
    var at, x := FlagsAt(h.fileOff, i), DeadFile(FileAt(m, h.fileOff, i)).flags;
    var m' := Put(m, at, [x]);
    PutElsewhere(m, at, [x], h.appOff, APP_SIZE * h.appcount);
    PutElsewhere(m, at, [x], h.keyOff, KEY_SIZE * h.keycount);
    PutElsewhere(m, at, [x], h.dataStart, |m| - h.dataStart);
    AppsMoved(m, h.appOff, m', h.appOff, h.appcount);
    KeysMoved(m, h.keyOff, m', h.keyOff, h.keycount);
    FlagsWritten(m, h.fileOff, h.filecount, i, x);
  }

  lemma AppKilledReads(h: Header, m: seq<octet>, i: nat)
    requires Placed(h, m) && i < h.appcount
    ensures var m' := AppKilled(h, m, i);
      && SameData(h, m, m')
      && Parse(h, m') == Parse(h, m).(apps := Parse(h, m).apps[i := DeadApp(Parse(h, m).apps[i])])
  {
    hide Put, Slice, DecodeFile, DecodeApp, DecodeKey;
    var at, x := FlagsAt(h.appOff, i), DeadApp(AppAt(m, h.appOff, i)).flags;
    var m' := Put(m, at, [x]);
    PutElsewhere(m, at, [x], h.fileOff, FILE_SIZE * h.filecount);
    PutElsewhere(m, at, [x], h.keyOff, KEY_SIZE * h.keycount);
    PutElsewhere(m, at, [x], h.dataStart, |m| - h.dataStart);
    FilesMoved(m, h.fileOff, m', h.fileOff, h.filecount);
    KeysMoved(m, h.keyOff, m', h.keyOff, h.keycount);
    AppFlagsWritten(m, h.appOff, h.appcount, i, x);
  }

  lemma {:induction false} FilesKilledReads(h: Header, m: seq<octet>, app: nat, n: nat)
    requires Placed(h, m) && n <= h.filecount
    ensures var m' := FilesKilled(h, m, app, n);
      SameData(h, m, m') && Parse(h, m') == Parse(h, m).(files := GoneTo(Parse(h, m).files, app, n))
  {
    hide Put, Slice, DecodeFile, DecodeApp, DecodeKey, FileKilled, AppTable, KeyTable;
    var files := Parse(h, m).files;
    if n == 0 {
      assert GoneTo(files, app, 0) == files;
    } else {
      FilesKilledReads(h, m, app, n - 1);
      var r := FilesKilled(h, m, app, n - 1);
      assert FileAt(r, h.fileOff, n - 1) == Parse(h, r).files[n - 1] == files[n - 1];
      if files[n - 1].app == app {
        FileKilledReads(h, r, n - 1);
        assert GoneTo(files, app, n) == GoneTo(files, app, n - 1)[n - 1 := DeadFile(files[n - 1])];
      } else {
        assert GoneTo(files, app, n) == GoneTo(files, app, n - 1);
      }
    }
  }

  // The view after DeleteApplication: the entry and all its files are dead.
  lemma AppDeletedReads(h: Header, m: seq<octet>, i: nat)
    requires Placed(h, m) && i < h.appcount
    ensures var m', v := AppDeletedMemory(h, m, i), Parse(h, m);
      && SameData(h, m, m')
      && Parse(h, m') == v.(apps := v.apps[i := DeadApp(v.apps[i])], files := GoneTo(v.files, i, h.filecount))
  {
    AppKilledReads(h, m, i);
    FilesKilledReads(h, AppKilled(h, m, i), i, h.filecount);
  }

  // ---- what that keeps

  // The entries of `a`, alive or dead since, are the first entries of `b`.
  ghost predicate FilesGrown(a: seq<File>, b: seq<File>) {
    |a| <= |b| && forall i :: 0 <= i < |a| ==> b[i] == a[i] || b[i] == DeadFile(a[i])
  }

  ghost predicate AppsGrown(a: seq<App>, b: seq<App>) {
    |a| <= |b| && forall i :: 0 <= i < |a| ==> b[i] == a[i] || b[i] == DeadApp(a[i])
  }

  lemma GrownOn(a: View, b: View, c: View)
    requires AppsGrown(a.apps, b.apps) && FilesGrown(a.files, b.files)
    requires AppsGrown(b.apps, c.apps) && FilesGrown(b.files, c.files)
    ensures AppsGrown(a.apps, c.apps) && FilesGrown(a.files, c.files)
  {
    forall i | 0 <= i < |a.apps| ensures c.apps[i] == a.apps[i] || c.apps[i] == DeadApp(a.apps[i]) {
      assert b.apps[i] == a.apps[i] || b.apps[i] == DeadApp(a.apps[i]);
    }
    forall i | 0 <= i < |a.files| ensures c.files[i] == a.files[i] || c.files[i] == DeadFile(a.files[i]) {
      assert b.files[i] == a.files[i] || b.files[i] == DeadFile(a.files[i]);
    }
  }

  lemma DeadKeeps(h: Header, m: seq<octet>, m': seq<octet>)
    requires WellFormed(h, m) && SameData(h, m, m')
    requires var v, v' := Parse(h, m), Parse(h, m');
      v'.keys == v.keys && AppsGrown(v.apps, v'.apps) && FilesGrown(v.files, v'.files)
    ensures WellFormed(h, m')
  {
    var v, v' := Parse(h, m), Parse(h, m');
    StillUnique(v.apps, v'.apps);
    StillApart(v.files, v'.files, h.dataStart, h.size);
  }

  lemma StillUnique(a: seq<App>, b: seq<App>)
    requires AppsUnique(a) && AppsGrown(a, b) && |a| == |b|
    ensures AppsUnique(b)
  {
    forall i, j | 0 <= i < j < |b| && !AppDeleted(b[i]) && !AppDeleted(b[j]) ensures b[i].aid != b[j].aid {
      assert b[i] == a[i] && b[j] == a[j];
    }
  }

  lemma StillApart(a: seq<File>, b: seq<File>, lo: nat, hi: nat)
    requires FilesApart(a, lo, hi) && FilesGrown(a, b) && |a| == |b|
    ensures FilesApart(b, lo, hi)
  {
    forall i | 0 <= i < |b| ensures Inside(b[i], lo, hi) {
      assert Inside(a[i], lo, hi);
    }
    forall i, j | 0 <= i < j < |b| ensures Separate(b[i], b[j]) {
      assert Separate(a[i], a[j]);
    }
  }

  // A memory that reads as before but for the found file's tombstone: the image
  // is still well formed, with every other entry, and the lookup for that number
  // comes to rest on the tombstone.
  lemma FileDeleteKeeps(h: Header, m: seq<octet>, m': seq<octet>, app: nat, num: nat)
    requires WellFormed(h, m) && Finds(Parse(h, m).files, app, num) && SameData(h, m, m')
    requires var v, i := Parse(h, m), FirstFile(Parse(h, m).files, app, num, 0);
      Parse(h, m') == v.(files := v.files[i := DeadFile(v.files[i])])
    ensures WellFormed(h, m')
    ensures FilesGrown(Parse(h, m).files, Parse(h, m').files) && Buried(Parse(h, m').files, app, num)
  {
    hide Put, Slice, FileTable, AppTable, KeyTable, WellFormed, SameData, Buried, FilesGrown;
    Shape(h, m);
    var v := Parse(h, m);
    OneGone(v.files, app, num);
    AppsStay(v.apps);
    DeadKeeps(h, m, m');
  }

  lemma AppsStay(apps: seq<App>)
    ensures AppsGrown(apps, apps)
  {
  }

  lemma OneGone(files: seq<File>, app: nat, num: nat)
    requires Finds(files, app, num)
    ensures var i := FirstFile(files, app, num, 0);
      FilesGrown(files, files[i := DeadFile(files[i])]) && Buried(files[i := DeadFile(files[i])], app, num)
  {
    var i := FirstFile(files, app, num, 0);
    FirstSame(files, files[i := DeadFile(files[i])], app, num);
  }

  // The lookup comes to rest on a tombstone.
  predicate Buried(files: seq<File>, app: nat, num: nat) {
    var i := FirstFile(files, app, num, 0);
    i < |files| && FileDeleted(files[i])
  }

  lemma FirstSame(a: seq<File>, b: seq<File>, app: nat, num: nat)
    requires FilesGrown(a, b) && FirstFile(a, app, num, 0) < |a|
    ensures FirstFile(b, app, num, 0) == FirstFile(a, app, num, 0)
  {
    var i, j := FirstFile(a, app, num, 0), FirstFile(b, app, num, 0);
    assert Matches(b[i], app, num);
    assert Matches(b[j], app, num) && Matches(a[j], app, num);
  }

  // A number that was deleted is not found again, whatever is created.
  lemma BuriedStays(a: seq<File>, b: seq<File>, app: nat, num: nat)
    requires FilesGrown(a, b) && Buried(a, app, num)
    ensures Buried(b, app, num) && !Finds(b, app, num)
  {
    FirstSame(a, b, app, num);
  }

  // Deleting an application keeps the same, and as no other live entry has its
  // AID, the AID is free again.
  lemma AppDeleteKeeps(h: Header, m: seq<octet>, aid: nat)
    requires WellFormed(h, m) && FirstLive(Parse(h, m).apps, aid, 0) < h.appcount
    ensures var i, v := FirstLive(Parse(h, m).apps, aid, 0), Parse(h, m);
      var m' := AppDeletedMemory(h, m, i);
      var v' := Parse(h, m');
      && WellFormed(h, m') && SameData(h, m, m')
      && v'.keys == v.keys && AppsGrown(v.apps, v'.apps) && FilesGrown(v.files, v'.files)
      && !LiveApp(v'.apps, aid)
      && (forall other :: other != aid ==> (LiveApp(v'.apps, other) <==> LiveApp(v.apps, other)))
      && (forall num :: !Finds(v'.files, i, num))
  {
    hide Put, Slice, AppDeletedMemory, DecodeApp, DecodeFile;
    var v, i := Parse(h, m), FirstLive(Parse(h, m).apps, aid, 0);
    var m' := AppDeletedMemory(h, m, i);
    AppDeletedReads(h, m, i);
    DeadKeeps(h, m, m');
    OthersLive(v.apps, i);
    AllGone(v.files, i);
  }

  lemma OthersLive(apps: seq<App>, i: nat)
    requires AppsUnique(apps) && i < |apps| && !AppDeleted(apps[i])
    ensures var apps' := apps[i := DeadApp(apps[i])];
      && !LiveApp(apps', apps[i].aid)
      && forall other :: other != apps[i].aid ==> (LiveApp(apps', other) <==> LiveApp(apps, other))
  {
    var apps' := apps[i := DeadApp(apps[i])];
    forall other | other != apps[i].aid ensures LiveApp(apps', other) <==> LiveApp(apps, other) {
      if LiveApp(apps, other) {
        var j :| 0 <= j < |apps| && !AppDeleted(apps[j]) && apps[j].aid == other;
        assert apps'[j] == apps[j];
      }
    }
  }

  lemma AllGone(files: seq<File>, app: nat)
    ensures forall num :: !Finds(GoneTo(files, app, |files|), app, num)
  {
    var gone := GoneTo(files, app, |files|);
    forall num ensures !Finds(gone, app, num) {
      var i := FirstFile(gone, app, num, 0);
      if i < |gone| {
        assert Matches(gone[i], app, num);
        assert FileDeleted(gone[i]);
      }
    }
  }
}
