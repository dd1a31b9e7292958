// Transactions of armsrc/desfiresim.c: a backed file is copied into its shadow
// on the first write, CommitTransaction copies it back, AbortTransaction drops it.
module Transactions {
  import opened Wrappers
  import opened Octets
  import opened Image
  import opened Allocator
  import opened CreateFile
  import opened CardImage

  // ---- flag bits

  predicate Unknown(f: File) { f.flags / 4 % 2 == 1 }
  predicate Dirty(f: File) { f.flags / 64 % 2 == 1 }

  function SetDirty(x: octet): octet { if x / 64 % 2 == 1 then x else x + 64 }
  function ClearDirty(x: octet): octet { if x / 64 % 2 == 1 then x - 64 else x }
  function ClearUnknown(x: octet): octet { if x / 4 % 2 == 1 then x - 4 else x }

  lemma BitSix(x: nat)
    ensures (x + 64) / 64 == x / 64 + 1 && (x + 64) / 32 == x / 32 + 2 && (x + 64) / 4 == x / 4 + 16
  {
  }

  lemma BitTwo(x: nat)
    requires x / 4 % 2 == 1
    ensures (x - 4) / 4 == x / 4 - 1 && (x - 4) / 64 == x / 64 && (x - 4) / 32 == x / 32
  {
    Eighths(x);
    SameUpper(x / 8, x % 4);
  }

  lemma Eighths(x: nat)
    requires x / 4 % 2 == 1
    ensures x == 8 * (x / 8) + 4 + x % 4 && x / 4 == 2 * (x / 8) + 1
  {
  }

  lemma SameUpper(a: nat, b: nat)
    requires b < 4
    ensures (8 * a + b) / 4 == 2 * a
    ensures (8 * a + b) / 32 == (8 * a + 4 + b) / 32 == a / 4
    ensures (8 * a + b) / 64 == (8 * a + 4 + b) / 64 == a / 8
  {
    ByFour(2 * a, b);
    ByThirtyTwo(a / 4, 8 * (a % 4) + b);
    ByThirtyTwo(a / 4, 8 * (a % 4) + 4 + b);
    BySixtyFour(a / 8, 8 * (a % 8) + b);
    BySixtyFour(a / 8, 8 * (a % 8) + 4 + b);
  }

  lemma ByFour(q: nat, r: nat)
    requires r < 4
    ensures (4 * q + r) / 4 == q
  {
  }

  lemma ByThirtyTwo(q: nat, r: nat)
    requires r < 32
    ensures (32 * q + r) / 32 == q
  {
  }

  lemma BySixtyFour(q: nat, r: nat)
    requires r < 64
    ensures (64 * q + r) / 64 == q
  {
  }

  lemma DirtySet(f: File)
    ensures var g := f.(flags := SetDirty(f.flags));
      Dirty(g) && Unknown(g) == Unknown(f) && FileDeleted(g) == FileDeleted(f)
  {
    BitSix(f.flags);
  }

  lemma DirtyCleared(f: File)
    ensures var g := f.(flags := ClearDirty(f.flags));
      !Dirty(g) && Unknown(g) == Unknown(f) && FileDeleted(g) == FileDeleted(f)
  {
    if Dirty(f) {
      BitSix(f.flags - 64);
    }
  }

  lemma UnknownCleared(f: File)
    ensures var g := f.(flags := ClearUnknown(f.flags));
      !Unknown(g) && Dirty(g) == Dirty(f) && FileDeleted(g) == FileDeleted(f)
  {
    if Unknown(f) {
      BitTwo(f.flags);
    }
  }

  // desfire_sim_file_is_backed
  predicate Backed(f: File) { f.kind != 0 && f.shadowOff != 0 }

  // ---- the files as entries and the bytes of their two regions

  datatype Store = Store(files: seq<File>, data: seq<seq<octet>>, shadow: seq<seq<octet>>)

  function ShadowBytes(m: seq<octet>, f: File): seq<octet>
    requires HasShadow(f) ==> f.shadowOff + f.datalen <= |m|
  {
    if HasShadow(f) then Slice(m, f.shadowOff, f.datalen) else []
  }

  ghost predicate Reachable(files: seq<File>, m: seq<octet>) {
    forall i :: 0 <= i < |files| ==>
      && files[i].dataoff + files[i].datalen <= |m|
      && (HasShadow(files[i]) ==> files[i].shadowOff + files[i].datalen <= |m|)
  }

  ghost function Contents(files: seq<File>, m: seq<octet>): (s: Store)
    requires Reachable(files, m)
  {
    Store(files,
          seq(|files|, i requires 0 <= i < |files| => Slice(m, files[i].dataoff, files[i].datalen)),
          seq(|files|, i requires 0 <= i < |files| => ShadowBytes(m, files[i])))
  }

  predicate Aligned(s: Store) {
    && |s.data| == |s.shadow| == |s.files|
    && (forall i :: 0 <= i < |s.files| ==>
      |s.data[i]| == s.files[i].datalen && |s.shadow[i]| == (if HasShadow(s.files[i]) then s.files[i].datalen else 0))
  }

  // Only what has a shadow is ever dirty.
  predicate Sane(files: seq<File>) {
    forall i :: 0 <= i < |files| && Dirty(files[i]) ==> Backed(files[i])
  }

  // ---- what one write into the image does to the files

  lemma DataPut(files: seq<File>, m: seq<octet>, lo: nat, i: nat, off: nat, b: seq<octet>)
    requires FilesApart(files, lo, |m|) && Reachable(files, m) && i < |files| && off + |b| <= files[i].datalen
    ensures var s, s' := Contents(files, m), Contents(files, Put(m, files[i].dataoff + off, b));
      s' == s.(data := s.data[i := Put(s.data[i], off, b)])
  {
    hide Put, Slice;
    var at := files[i].dataoff + off;
    var m' := Put(m, at, b);
    PutInside(m, files[i].dataoff, files[i].datalen, off, b);
    forall j | 0 <= j < |files|
      ensures j != i ==> Slice(m', files[j].dataoff, files[j].datalen) == Slice(m, files[j].dataoff, files[j].datalen)
      ensures ShadowBytes(m', files[j]) == ShadowBytes(m, files[j])
    {
      assert i == j || Separate(files[i], files[j]) || Separate(files[j], files[i]);
      assert Inside(files[j], lo, |m|);
      if j != i {
        PutElsewhere(m, at, b, files[j].dataoff, files[j].datalen);
      }
      if HasShadow(files[j]) {
        PutElsewhere(m, at, b, files[j].shadowOff, files[j].datalen);
      }
    }
  }

  lemma ShadowPut(files: seq<File>, m: seq<octet>, lo: nat, i: nat, off: nat, b: seq<octet>)
    requires FilesApart(files, lo, |m|) && Reachable(files, m)
    requires i < |files| && HasShadow(files[i]) && off + |b| <= files[i].datalen
    ensures var s, s' := Contents(files, m), Contents(files, Put(m, files[i].shadowOff + off, b));
      s' == s.(shadow := s.shadow[i := Put(s.shadow[i], off, b)])
  {
    hide Put, Slice;
    var at := files[i].shadowOff + off;
    var m' := Put(m, at, b);
    PutInside(m, files[i].shadowOff, files[i].datalen, off, b);
    forall j | 0 <= j < |files|
      ensures Slice(m', files[j].dataoff, files[j].datalen) == Slice(m, files[j].dataoff, files[j].datalen)
      ensures j != i ==> ShadowBytes(m', files[j]) == ShadowBytes(m, files[j])
    {
      assert i == j || Separate(files[i], files[j]) || Separate(files[j], files[i]);
      assert Inside(files[j], lo, |m|);
      PutElsewhere(m, at, b, files[j].dataoff, files[j].datalen);
      if j != i && HasShadow(files[j]) {
        PutElsewhere(m, at, b, files[j].shadowOff, files[j].datalen);
      }
    }
  }

  // A write below the data leaves every region alone.
  lemma TablePut(files: seq<File>, m: seq<octet>, lo: nat, at: nat, b: seq<octet>)
    requires FilesApart(files, lo, |m|) && Reachable(files, m) && at + |b| <= lo <= |m|
    ensures Contents(files, Put(m, at, b)) == Contents(files, m)
  {
    hide Put, Slice;
    forall j | 0 <= j < |files|
      ensures Slice(Put(m, at, b), files[j].dataoff, files[j].datalen) == Slice(m, files[j].dataoff, files[j].datalen)
      ensures ShadowBytes(Put(m, at, b), files[j]) == ShadowBytes(m, files[j])
    {
      assert Inside(files[j], lo, |m|);
      PutElsewhere(m, at, b, files[j].dataoff, files[j].datalen);
      if HasShadow(files[j]) {
        PutElsewhere(m, at, b, files[j].shadowOff, files[j].datalen);
      }
    }
  }

  // ---- the same on the whole image

  ghost predicate Intact(h: Header, m: seq<octet>) {
    WellFormed(h, m) && Sane(Parse(h, m).files)
  }

  lemma Reaching(h: Header, m: seq<octet>)
    requires WellFormed(h, m)
    ensures var files := Parse(h, m).files;
      Reachable(files, m) && FilesApart(files, h.dataStart, |m|) && Aligned(Contents(files, m))
  {
    hide Slice;
    var files := Parse(h, m).files;
    forall i | 0 <= i < |files|
      ensures Inside(files[i], h.dataStart, |m|)
    {
      assert Inside(files[i], h.dataStart, h.size);
    }
    assert Reachable(files, m);
  }

  ghost function StoreOf(h: Header, m: seq<octet>): (s: Store)
    requires WellFormed(h, m)
    ensures Aligned(s) && s.files == Parse(h, m).files
  {
    Reaching(h, m);
    Contents(Parse(h, m).files, m)
  }

  lemma AboveTables(h: Header, m: seq<octet>, at: nat, b: seq<octet>)
    requires Placed(h, m) && h.tablesEnd <= at && at + |b| <= |m|
    ensures Parse(h, Put(m, at, b)) == Parse(h, m)
  {
    hide Put, Slice, DecodeApp, DecodeFile, DecodeKey;
    var m' := Put(m, at, b);
    PutElsewhere(m, at, b, h.appOff, APP_SIZE * h.appcount);
    PutElsewhere(m, at, b, h.fileOff, FILE_SIZE * h.filecount);
    PutElsewhere(m, at, b, h.keyOff, KEY_SIZE * h.keycount);
    AppsMoved(m, h.appOff, m', h.appOff, h.appcount);
    FilesMoved(m, h.fileOff, m', h.fileOff, h.filecount);
    KeysMoved(m, h.keyOff, m', h.keyOff, h.keycount);
  }

  lemma DataWrite(h: Header, m: seq<octet>, i: nat, off: nat, b: seq<octet>)
    requires WellFormed(h, m) && i < h.filecount && off + |b| <= Parse(h, m).files[i].datalen
    ensures var m' := Put(m, Parse(h, m).files[i].dataoff + off, b);
      && WellFormed(h, m') && Parse(h, m') == Parse(h, m)
      && StoreOf(h, m') == StoreOf(h, m).(data := StoreOf(h, m).data[i := Put(StoreOf(h, m).data[i], off, b)])
  {
    hide Put, Slice, DecodeApp, DecodeFile, DecodeKey, Contents;
    var files := Parse(h, m).files;
    Reaching(h, m);
    assert Inside(files[i], h.dataStart, |m|);
    AboveTables(h, m, files[i].dataoff + off, b);
    DataPut(files, m, h.dataStart, i, off, b);
  }

  lemma ShadowWrite(h: Header, m: seq<octet>, i: nat, off: nat, b: seq<octet>)
    requires WellFormed(h, m) && i < h.filecount && off + |b| <= Parse(h, m).files[i].datalen
    requires HasShadow(Parse(h, m).files[i])
    ensures var m' := Put(m, Parse(h, m).files[i].shadowOff + off, b);
      && WellFormed(h, m') && Parse(h, m') == Parse(h, m)
      && StoreOf(h, m') == StoreOf(h, m).(shadow := StoreOf(h, m).shadow[i := Put(StoreOf(h, m).shadow[i], off, b)])
  {
    hide Put, Slice, DecodeApp, DecodeFile, DecodeKey, Contents;
    var files := Parse(h, m).files;
    Reaching(h, m);
    assert Inside(files[i], h.dataStart, |m|);
    AboveTables(h, m, files[i].shadowOff + off, b);
    ShadowPut(files, m, h.dataStart, i, off, b);
  }

  function Reflagged(files: seq<File>, i: nat, x: octet): (r: seq<File>)
    requires i < |files|
    ensures |r| == |files|
  {
    files[i := files[i].(flags := x)]
  }

  lemma FlagsTable(h: Header, m: seq<octet>, i: nat, x: octet)
    requires Placed(h, m) && i < h.filecount
    ensures Parse(h, Put(m, FlagsAt(h.fileOff, i), [x])) == Parse(h, m).(files := Reflagged(Parse(h, m).files, i, x))
  {
    hide Put, Slice, DecodeApp, DecodeFile, DecodeKey;
    var at := FlagsAt(h.fileOff, i);
    var m' := Put(m, at, [x]);
    PutElsewhere(m, at, [x], h.appOff, APP_SIZE * h.appcount);
    PutElsewhere(m, at, [x], h.keyOff, KEY_SIZE * h.keycount);
    AppsMoved(m, h.appOff, m', h.appOff, h.appcount);
    KeysMoved(m, h.keyOff, m', h.keyOff, h.keycount);
    FlagsWritten(m, h.fileOff, h.filecount, i, x);
  }

  // The regions of the files do not depend on their flags.
  lemma SameRegions(files: seq<File>, i: nat, x: octet, m: seq<octet>, lo: nat, hi: nat)
    requires Reachable(files, m) && i < |files| && FilesApart(files, lo, hi)
    ensures var files' := Reflagged(files, i, x);
      && Reachable(files', m) && FilesApart(files', lo, hi)
      && Contents(files', m) == Contents(files, m).(files := files')
  {
    hide Slice;
    var files' := Reflagged(files, i, x);
    forall j | 0 <= j < |files'| ensures Inside(files'[j], lo, hi) {
      assert Inside(files[j], lo, hi);
    }
    forall j, k | 0 <= j < k < |files'| ensures Separate(files'[j], files'[k]) {
      assert Separate(files[j], files[k]);
    }
  }

  lemma FlagWrite(h: Header, m: seq<octet>, i: nat, x: octet)
    requires WellFormed(h, m) && i < h.filecount
    ensures var m' := Put(m, FlagsAt(h.fileOff, i), [x]);
      && WellFormed(h, m')
      && Parse(h, m') == Parse(h, m).(files := Reflagged(Parse(h, m).files, i, x))
      && StoreOf(h, m') == StoreOf(h, m).(files := Reflagged(Parse(h, m).files, i, x))
  {
    hide Put, Slice, DecodeApp, DecodeFile, DecodeKey, Contents, FilesApart, Reachable;
    var m' := Put(m, FlagsAt(h.fileOff, i), [x]);
    var files := Parse(h, m).files;
    Reaching(h, m);
    FlagsTable(h, m, i, x);
    TablePut(files, m, h.dataStart, FlagsAt(h.fileOff, i), [x]);
    SameReach(files, m, m');
    SameRegions(files, i, x, m', h.dataStart, h.size);
  }

  lemma SameReach(files: seq<File>, m: seq<octet>, m': seq<octet>)
    requires Reachable(files, m) && |m| == |m'|
    ensures Reachable(files, m')
  {
  }

  // ---- the operations as functions of the store

  predicate Writable(s: Store, i: nat, off: nat, b: seq<octet>) {
    Aligned(s) && i < |s.files| && off + |b| <= s.files[i].datalen
  }

  // desfire_sim_mark_dirty
  function Marked(s: Store, i: nat): (r: Store)
    requires Aligned(s) && i < |s.files|
    ensures Aligned(r)
  {
    if !Backed(s.files[i]) || Dirty(s.files[i]) then s
    else Store(Reflagged(s.files, i, SetDirty(s.files[i].flags)), s.data, s.shadow[i := s.data[i]])
  }

  // The copy that desfire_sim_write_region picks gets the bytes.
  function Landed(s: Store, i: nat, off: nat, b: seq<octet>): (r: Store)
    requires Writable(s, i, off, b)
    ensures Aligned(r)
  {
    if Backed(s.files[i]) then s.(shadow := s.shadow[i := Put(s.shadow[i], off, b)])
    else s.(data := s.data[i := Put(s.data[i], off, b)])
  }

  function Known(s: Store, i: nat): (r: Store)
    requires Aligned(s) && i < |s.files|
    ensures Aligned(r)
  {
    s.(files := Reflagged(s.files, i, ClearUnknown(s.files[i].flags)))
  }

  function Written(s: Store, i: nat, off: nat, b: seq<octet>): (r: Store)
    requires Writable(s, i, off, b)
    ensures Aligned(r)
  {
    Known(Landed(Marked(s, i), i, off, b), i)
  }

  // desfire_sim_commit, as far as the first n files
  function CommittedTo(s: Store, app: nat, n: nat): (r: Store)
    requires Aligned(s) && Sane(s.files) && n <= |s.files|
    ensures Aligned(r) && |r.files| == |s.files|
    ensures forall i :: n <= i < |s.files| ==>
      r.files[i] == s.files[i] && r.data[i] == s.data[i]
    ensures r.shadow == s.shadow
    ensures forall i :: 0 <= i < n ==>
      if s.files[i].app == app && Dirty(s.files[i])
      then r.data[i] == s.shadow[i] && r.files[i] == s.files[i].(flags := ClearDirty(s.files[i].flags))
      else r.data[i] == s.data[i] && r.files[i] == s.files[i]
  {
    if n == 0 then s else
      var r := CommittedTo(s, app, n - 1);
      var f := s.files[n - 1];
      if f.app != app || !Dirty(f) then r
      else Store(Reflagged(r.files, n - 1, ClearDirty(f.flags)), r.data[n - 1 := s.shadow[n - 1]], r.shadow)
  }

  // desfire_sim_abort
  function AbortedTo(s: Store, app: nat, n: nat): (r: Store)
    requires Aligned(s) && n <= |s.files|
    ensures Aligned(r) && |r.files| == |s.files|
    ensures r.data == s.data && r.shadow == s.shadow
    ensures forall i :: 0 <= i < |s.files| ==> (r.files[i] ==
      if i < n && s.files[i].app == app then s.files[i].(flags := ClearDirty(s.files[i].flags)) else s.files[i])
  {
    if n == 0 then s else
      var r := AbortedTo(s, app, n - 1);
      var f := s.files[n - 1];
      if f.app != app then r else r.(files := Reflagged(r.files, n - 1, ClearDirty(f.flags)))
  }

  // ---- what the operations promise: one committed and one pending value a file

  datatype Cell = Cell(committed: seq<octet>, pending: Option<seq<octet>>) {
    function Current(): seq<octet> {
      if pending.Some? then pending.value else committed
    }
  }

  function CellOf(s: Store, i: nat): Cell
    requires Aligned(s) && i < |s.files|
  {
    Cell(s.data[i], if Dirty(s.files[i]) then Some(s.shadow[i]) else None)
  }

  datatype Op = Write(index: nat, off: nat, bytes: seq<octet>) | Commit | Abort | Select(app: nat)

  // A session with one application selected at a time.
  datatype Session = Session(store: Store, app: nat)

  ghost predicate Steady(t: Session) {
    Aligned(t.store) && Sane(t.store.files)
  }

  predicate Allowed(t: Session, op: Op) {
    op.Write? ==> Writable(t.store, op.index, op.off, op.bytes)
  }

  ghost function Step(t: Session, op: Op): Session
    requires Steady(t) && Allowed(t, op)
  {
    match op
    case Write(i, off, b) => t.(store := Written(t.store, i, off, b))
    case Commit => t.(store := CommittedTo(t.store, t.app, |t.store.files|))
    case Abort => t.(store := AbortedTo(t.store, t.app, |t.store.files|))
    case Select(app) => t.(app := app)
  }

  // What the same operation does to file i of the simple store.
  function CellStep(c: Cell, backed: bool, mine: bool, i: nat, op: Op): Cell {
    match op
    case Write(j, off, b) =>
      if j != i || |c.Current()| < off + |b| || |c.committed| < off + |b| then c
      else if backed then c.(pending := Some(Put(c.Current(), off, b)))
      else c.(committed := Put(c.committed, off, b))
    case Commit => if mine then Cell(c.Current(), None) else c
    case Abort => if mine then c.(pending := None) else c
    case Select(_) => c
  }

  // Entries keep everything but those flags.
  predicate SameFile(f: File, g: File) {
    f == g.(flags := f.flags) && FileDeleted(f) == FileDeleted(g)
  }

  lemma WriteCell(s: Store, i: nat, off: nat, b: seq<octet>, j: nat)
    requires Writable(s, i, off, b) && Sane(s.files) && j < |s.files|
    ensures var r := Written(s, i, off, b);
      && Sane(r.files) && |r.files| == |s.files| && SameFile(r.files[j], s.files[j])
      && |CellOf(s, i).Current()| == s.files[i].datalen
      && CellOf(r, j) == CellStep(CellOf(s, j), Backed(s.files[j]), true, j, Write(i, off, b))
      && (i == j ==> !Unknown(r.files[j]))
  {
    hide Put, FileDeleted, SetDirty, ClearUnknown;
    hide Dirty, Unknown;
    var f := s.files[i];
    DirtySet(f);
    UnknownCleared(f);
    UnknownCleared(f.(flags := SetDirty(f.flags)));
  }

  lemma CommitCell(s: Store, app: nat, j: nat)
    requires Aligned(s) && Sane(s.files) && j < |s.files|
    ensures var r := CommittedTo(s, app, |s.files|);
      && Sane(r.files) && |r.files| == |s.files| && SameFile(r.files[j], s.files[j])
      && CellOf(r, j) == CellStep(CellOf(s, j), Backed(s.files[j]), s.files[j].app == app, j, Commit)
  {
    hide FileDeleted, ClearDirty, Dirty, Unknown;
    var r := CommittedTo(s, app, |s.files|);
    forall i | 0 <= i < |s.files| ensures Dirty(r.files[i]) ==> Backed(r.files[i]) {
      DirtyCleared(s.files[i]);
    }
    DirtyCleared(s.files[j]);
  }

  lemma AbortCell(s: Store, app: nat, j: nat)
    requires Aligned(s) && Sane(s.files) && j < |s.files|
    ensures var r := AbortedTo(s, app, |s.files|);
      && Sane(r.files) && |r.files| == |s.files| && SameFile(r.files[j], s.files[j])
      && CellOf(r, j) == CellStep(CellOf(s, j), Backed(s.files[j]), s.files[j].app == app, j, Abort)
  {
    hide FileDeleted, ClearDirty, Dirty, Unknown;
    var r := AbortedTo(s, app, |s.files|);
    forall i | 0 <= i < |s.files| ensures Dirty(r.files[i]) ==> Backed(r.files[i]) {
      DirtyCleared(s.files[i]);
    }
    DirtyCleared(s.files[j]);
  }

  // ---- every interleaving

  lemma StepRefines(t: Session, op: Op, i: nat)
    requires Steady(t) && Allowed(t, op) && i < |t.store.files|
    ensures var t', s := Step(t, op), t.store;
      && Steady(t') && |t'.store.files| == |s.files| && SameFile(t'.store.files[i], s.files[i])
      && CellOf(t'.store, i) == CellStep(CellOf(s, i), Backed(s.files[i]), s.files[i].app == t.app, i, op)
  {
    hide Put, FileDeleted, Written, CommittedTo, AbortedTo, Dirty, Backed;
    match op {
      case Write(j, off, b) => WriteCell(t.store, j, off, b, i);
      case Commit => CommitCell(t.store, t.app, i);
      case Abort => AbortCell(t.store, t.app, i);
      case Select(_) =>
    }
  }

  ghost predicate AllAllowed(t: Session, ops: seq<Op>)
    requires Steady(t)
    decreases |ops|
  {
    ops == [] || (Allowed(t, ops[0]) && (StepSteady(t, ops[0]); AllAllowed(Step(t, ops[0]), ops[1..])))
  }

  lemma StepSteady(t: Session, op: Op)
    requires Steady(t) && Allowed(t, op)
    ensures Steady(Step(t, op)) && |Step(t, op).store.files| == |t.store.files|
  {
    hide Put, FileDeleted, Written, CommittedTo, AbortedTo, Dirty, Backed;
    if |t.store.files| > 0 {
      StepRefines(t, op, 0);
    }
  }

  ghost function Run(t: Session, ops: seq<Op>): (t': Session)
    requires Steady(t) && AllAllowed(t, ops)
    ensures Steady(t') && |t'.store.files| == |t.store.files|
    decreases |ops|
  {
    if ops == [] then t else
      StepSteady(t, ops[0]);
      Run(Step(t, ops[0]), ops[1..])
  }

  function CellRun(c: Cell, backed: bool, fileApp: nat, app: nat, i: nat, ops: seq<Op>): Cell
    decreases |ops|
  {
    if ops == [] then c
    else CellRun(CellStep(c, backed, fileApp == app, i, ops[0]), backed, fileApp,
                 if ops[0].Select? then ops[0].app else app, i, ops[1..])
  }

  // Whatever is written, committed, aborted and selected, and in any order,
  // each file behaves as its own committed and pending value.
  lemma {:induction false} RunRefines(t: Session, ops: seq<Op>, i: nat)
    requires Steady(t) && AllAllowed(t, ops) && i < |t.store.files|
    ensures var f := t.store.files[i];
      CellOf(Run(t, ops).store, i) == CellRun(CellOf(t.store, i), Backed(f), f.app, t.app, i, ops)
    decreases |ops|
  {
    hide Put, Step, CellStep, Dirty, FileDeleted, CellOf;
    if ops != [] {
      StepSteady(t, ops[0]);
      StepRefines(t, ops[0], i);
      StepApp(t, ops[0]);
      RunRefines(Step(t, ops[0]), ops[1..], i);
    }
  }

  lemma StepApp(t: Session, op: Op)
    requires Steady(t) && Allowed(t, op)
    ensures Step(t, op).app == if op.Select? then op.app else t.app
  {
  }

  // The writes of one transaction to file i, applied in order.
  function Applied(base: seq<octet>, ops: seq<Op>, i: nat): (r: seq<octet>)
    decreases |ops|
  {
    if ops == [] then base
    else if ops[0].Write? && ops[0].index == i && ops[0].off + |ops[0].bytes| <= |base|
    then Applied(Put(base, ops[0].off, ops[0].bytes), ops[1..], i)
    else Applied(base, ops[1..], i)
  }

  ghost predicate OnlyWrites(ops: seq<Op>) {
    forall k :: 0 <= k < |ops| ==> ops[k].Write?
  }

  lemma {:induction false} CellWrites(c: Cell, fileApp: nat, app: nat, i: nat, ops: seq<Op>)
    requires OnlyWrites(ops) && |c.Current()| == |c.committed|
    ensures var r := CellRun(c, true, fileApp, app, i, ops);
      && r.committed == c.committed && r.Current() == Applied(c.Current(), ops, i)
      && ((c.pending.None? && (forall k :: 0 <= k < |ops| ==> ops[k].index != i)) ==> r == c)
    decreases |ops|
  {
    hide Put;
    if ops != [] {
      CellWrites(CellStep(c, true, fileApp == app, i, ops[0]), fileApp, app, i, ops[1..]);
    }
  }

  lemma {:induction false} CellRunAppend(c: Cell, backed: bool, fileApp: nat, app: nat, i: nat, ops: seq<Op>, op: Op)
    requires OnlyWrites(ops)
    ensures CellRun(c, backed, fileApp, app, i, ops + [op])
         == CellStep(CellRun(c, backed, fileApp, app, i, ops), backed, fileApp == app, i, op)
    decreases |ops|
  {
    hide Put, CellStep;
    var all := ops + [op];
    if ops == [] {
      assert all == [op];
      assert all[1..] == [];
    } else {
      assert all[0] == ops[0] && all[1..] == ops[1..] + [op];
      CellRunAppend(CellStep(c, backed, fileApp == app, i, ops[0]), backed, fileApp, app, i, ops[1..], op);
    }
  }

  lemma {:induction false} AllowedAppend(t: Session, ops: seq<Op>, op: Op)
    requires Steady(t) && AllAllowed(t, ops) && !op.Write?
    ensures AllAllowed(t, ops + [op])
    decreases |ops|
  {
    hide Put, Step, Steady;
    var all := ops + [op];
    if ops == [] {
      assert all == [op] && all[1..] == [];
      StepSteady(t, op);
    } else {
      assert all[0] == ops[0] && all[1..] == ops[1..] + [op];
      StepSteady(t, ops[0]);
      AllowedAppend(Step(t, ops[0]), ops[1..], op);
    }
  }

  // A whole transaction on a backed file with nothing pending: before its end
  // the committed bytes stand; a commit makes them the old bytes with every
  // write applied in order, an abort leaves them as they were.
  lemma TransactionMeans(t: Session, ops: seq<Op>, i: nat)
    requires Steady(t) && i < |t.store.files| && OnlyWrites(ops)
    requires Backed(t.store.files[i]) && !Dirty(t.store.files[i]) && t.store.files[i].app == t.app
    requires AllAllowed(t, ops)
    ensures AllAllowed(t, ops + [Commit]) && AllAllowed(t, ops + [Abort])
    ensures Run(t, ops).store.data[i] == t.store.data[i]
    ensures Run(t, ops + [Commit]).store.data[i] == Applied(t.store.data[i], ops, i)
    ensures Run(t, ops + [Abort]).store.data[i] == t.store.data[i]
    ensures !Dirty(Run(t, ops + [Commit]).store.files[i]) && !Dirty(Run(t, ops + [Abort]).store.files[i])
  {
    hide Put, Step, Backed, Dirty;
    var c := CellOf(t.store, i);
    AllowedAppend(t, ops, Commit);
    AllowedAppend(t, ops, Abort);
    RunRefines(t, ops, i);
    RunRefines(t, ops + [Commit], i);
    RunRefines(t, ops + [Abort], i);
    CellWrites(c, t.app, t.app, i, ops);
    CellRunAppend(c, true, t.app, t.app, i, ops, Commit);
    CellRunAppend(c, true, t.app, t.app, i, ops, Abort);
  }

  // A file whose contents were never read is served once it has been written,
  // even when the write was dropped: the write clears the flag and the abort
  // does not set it again.  What is then served is the unread contents exactly
  // when the file has a shadow.
  lemma AbortedWriteServes(s: Store, i: nat, off: nat, b: seq<octet>)
    requires Writable(s, i, off, b) && Sane(s.files) && Unknown(s.files[i]) && !Dirty(s.files[i])
    ensures var r := AbortedTo(Written(s, i, off, b), s.files[i].app, |s.files|);
      && !Unknown(r.files[i])
      && r.data[i] == if Backed(s.files[i]) then s.data[i] else Put(s.data[i], off, b)
  {
    hide Put, Dirty, ClearDirty, Unknown, ClearUnknown, SetDirty, FileDeleted;
    WriteCell(s, i, off, b, i);
    DirtyCleared(Written(s, i, off, b).files[i]);
  }
}
