// The card image of include/desfire_em.h as bytes: packed table entries, and
// the parsed view of the tables that desfire_sim_load hands to everything else.
module Image {
  import opened Octets

  const APP_SIZE := 26
  const FILE_SIZE := 26
  const KEY_SIZE := 28
  const GRANULE := 32

  const MAX_APPS := 28
  const MAX_FILES := 32
  const MAX_KEYS := 14

  // desfire_em_hdr_t, without the card identity.  Counts are 8 bits wide, the
  // offsets and sizes 16.
  datatype Header = Header(
    appcount: nat, filecount: nat, keycount: nat,
    appOff: nat, fileOff: nat, keyOff: nat,
    tablesEnd: nat, dataStart: nat, size: nat,
    cardsize: nat, reserved: nat)

  datatype App = App(
    aid: nat, flags: octet, keysettings: octet, numkeysraw: octet,
    isofid: nat, dfname: seq<octet>, dfnamelen: octet, keytype: octet)

  // The union at the end of an entry is three 32-bit words: size for data
  // files; lower, upper, value; or recordsize, maxrecords, currecords.
  datatype File = File(
    app: octet, num: octet, kind: octet, flags: octet, isofid: nat, rights: nat,
    dataoff: nat, datalen: nat, shadowOff: nat, w0: nat, w1: nat, w2: nat)

  datatype Key = Key(app: octet, num: octet, flags: octet, ver: octet, value: seq<octet>)

  datatype View = View(apps: seq<App>, files: seq<File>, keys: seq<Key>)

  // ---- packed fields

  function DecodeApp(b: seq<octet>): App
    requires |b| == APP_SIZE
  {
    App(Three(b[0], b[1], b[2]), b[3], b[4], b[5],
        Pair(b[6], b[7]), b[8..24], b[24], b[25])
  }

  function EncodeApp(a: App): (b: seq<octet>)
    requires |a.dfname| == 16
    ensures |b| == APP_SIZE
  {
    Digits(a.aid, 3) + [a.flags, a.keysettings, a.numkeysraw, Lo(a.isofid), Hi(a.isofid)] + a.dfname + [a.dfnamelen, a.keytype]
  }

  function DecodeFile(b: seq<octet>): File
    requires |b| == FILE_SIZE
  {
    File(b[0], b[1], b[2], b[3], Pair(b[4], b[5]), Pair(b[6], b[7]),
         Pair(b[8], b[9]), Pair(b[10], b[11]), Pair(b[12], b[13]),
         Four(b[14], b[15], b[16], b[17]), Four(b[18], b[19], b[20], b[21]), Four(b[22], b[23], b[24], b[25]))
  }

  function EncodeFile(f: File): (b: seq<octet>)
    ensures |b| == FILE_SIZE
  {
    [f.app, f.num, f.kind, f.flags, Lo(f.isofid), Hi(f.isofid), Lo(f.rights), Hi(f.rights),
     Lo(f.dataoff), Hi(f.dataoff), Lo(f.datalen), Hi(f.datalen), Lo(f.shadowOff), Hi(f.shadowOff)]
    + (Digits(f.w0, 4) + Digits(f.w1, 4) + Digits(f.w2, 4))
  }

  function DecodeKey(b: seq<octet>): Key
    requires |b| == KEY_SIZE
  {
    Key(b[0], b[1], b[2], b[3], b[4..])
  }

  function EncodeKey(k: Key): (b: seq<octet>)
    requires |k.value| == 24
    ensures |b| == KEY_SIZE
  {
    [k.app, k.num, k.flags, k.ver] + k.value
  }

  predicate AppFits(a: App) {
    a.aid < 0x100_0000 && a.isofid < 0x1_0000 && |a.dfname| == 16
  }

  predicate FileFits(f: File) {
    && f.isofid < 0x1_0000 && f.rights < 0x1_0000
    && f.dataoff < 0x1_0000 && f.datalen < 0x1_0000 && f.shadowOff < 0x1_0000
    && f.w0 < 0x1_0000_0000 && f.w1 < 0x1_0000_0000 && f.w2 < 0x1_0000_0000
  }

  lemma AppRoundTrip(a: App)
    requires AppFits(a)
    ensures DecodeApp(EncodeApp(a)) == a
  {
    var b := EncodeApp(a);
    assert b[8..24] == a.dfname;
    PairBack(a.isofid);
    assert b[..3] == Digits(a.aid, 3);
    ThreeBack(a.aid);
  }

  lemma FileRoundTrip(f: File)
    requires FileFits(f)
    ensures DecodeFile(EncodeFile(f)) == f
  {
    PairBack(f.isofid);
    PairBack(f.rights);
    PairBack(f.dataoff);
    PairBack(f.datalen);
    PairBack(f.shadowOff);
    var b := EncodeFile(f);
    assert b[14..18] == Digits(f.w0, 4) && b[18..22] == Digits(f.w1, 4) && b[22..26] == Digits(f.w2, 4);
    FourBack(f.w0);
    FourBack(f.w1);
    FourBack(f.w2);
  }

  lemma KeyRoundTrip(k: Key)
    requires |k.value| == 24
    ensures DecodeKey(EncodeKey(k)) == k
  {
    assert EncodeKey(k)[4..] == k.value;
  }

  // ---- the parsed view

  // Tables head to tail, clear of the file data, all of it inside the image.
  predicate Placed(h: Header, m: seq<octet>) {
    && h.fileOff == h.appOff + APP_SIZE * h.appcount
    && h.keyOff == h.fileOff + FILE_SIZE * h.filecount
    && h.tablesEnd == h.keyOff + KEY_SIZE * h.keycount
    && h.tablesEnd <= h.dataStart <= h.size <= |m|
    && h.size < 0x1_0000
  }

  // What the counts and offsets alone reach, as every lookup loop reads them.
  predicate Readable(h: Header, m: seq<octet>) {
    && h.appOff + APP_SIZE * h.appcount <= |m|
    && h.fileOff + FILE_SIZE * h.filecount <= |m|
    && h.keyOff + KEY_SIZE * h.keycount <= |m|
  }

  function AppAt(m: seq<octet>, off: nat, i: nat): App
    requires off + APP_SIZE * (i + 1) <= |m|
  {
    DecodeApp(Slice(m, off + APP_SIZE * i, APP_SIZE))
  }

  function FileAt(m: seq<octet>, off: nat, i: nat): File
    requires off + FILE_SIZE * (i + 1) <= |m|
  {
    DecodeFile(Slice(m, off + FILE_SIZE * i, FILE_SIZE))
  }

  function KeyAt(m: seq<octet>, off: nat, i: nat): Key
    requires off + KEY_SIZE * (i + 1) <= |m|
  {
    DecodeKey(Slice(m, off + KEY_SIZE * i, KEY_SIZE))
  }

  function AppTable(m: seq<octet>, off: nat, n: nat): (r: seq<App>)
    requires off + APP_SIZE * n <= |m|
    ensures |r| == n
  {
    seq(n, i requires 0 <= i < n => AppAt(m, off, i))
  }

  function FileTable(m: seq<octet>, off: nat, n: nat): (r: seq<File>)
    requires off + FILE_SIZE * n <= |m|
    ensures |r| == n
  {
    seq(n, i requires 0 <= i < n => FileAt(m, off, i))
  }

  function KeyTable(m: seq<octet>, off: nat, n: nat): (r: seq<Key>)
    requires off + KEY_SIZE * n <= |m|
    ensures |r| == n
  {
    seq(n, i requires 0 <= i < n => KeyAt(m, off, i))
  }

  // desfire_sim_load
  function Parse(h: Header, m: seq<octet>): (v: View)
    requires Readable(h, m)
    ensures |v.apps| == h.appcount && |v.files| == h.filecount && |v.keys| == h.keycount
  {
    View(AppTable(m, h.appOff, h.appcount), FileTable(m, h.fileOff, h.filecount), KeyTable(m, h.keyOff, h.keycount))
  }

  // A table that was moved as a block still reads the same.
  lemma AppsMoved(m: seq<octet>, s: nat, m': seq<octet>, d: nat, n: nat)
    requires s + APP_SIZE * n <= |m| && d + APP_SIZE * n <= |m'|
    requires Slice(m, s, APP_SIZE * n) == Slice(m', d, APP_SIZE * n)
    ensures AppTable(m, s, n) == AppTable(m', d, n)
  {
    forall i | 0 <= i < n ensures AppTable(m, s, n)[i] == AppTable(m', d, n)[i] {
      Within(m, s, m', d, APP_SIZE * n, APP_SIZE * i, APP_SIZE);
    }
  }

  lemma FilesMoved(m: seq<octet>, s: nat, m': seq<octet>, d: nat, n: nat)
    requires s + FILE_SIZE * n <= |m| && d + FILE_SIZE * n <= |m'|
    requires Slice(m, s, FILE_SIZE * n) == Slice(m', d, FILE_SIZE * n)
    ensures FileTable(m, s, n) == FileTable(m', d, n)
  {
    forall i | 0 <= i < n ensures FileTable(m, s, n)[i] == FileTable(m', d, n)[i] {
      Within(m, s, m', d, FILE_SIZE * n, FILE_SIZE * i, FILE_SIZE);
    }
  }

  lemma KeysMoved(m: seq<octet>, s: nat, m': seq<octet>, d: nat, n: nat)
    requires s + KEY_SIZE * n <= |m| && d + KEY_SIZE * n <= |m'|
    requires Slice(m, s, KEY_SIZE * n) == Slice(m', d, KEY_SIZE * n)
    ensures KeyTable(m, s, n) == KeyTable(m', d, n)
  {
    forall i | 0 <= i < n ensures KeyTable(m, s, n)[i] == KeyTable(m', d, n)[i] {
      Within(m, s, m', d, KEY_SIZE * n, KEY_SIZE * i, KEY_SIZE);
    }
  }

  // An entry put behind a table extends it.
  lemma AppsExtended(m: seq<octet>, m': seq<octet>, off: nat, n: nat, a: App)
    requires off + APP_SIZE * n <= |m| && off + APP_SIZE * (n + 1) <= |m'| && AppFits(a)
    requires Slice(m, off, APP_SIZE * n) == Slice(m', off, APP_SIZE * n)
    requires Slice(m', off + APP_SIZE * n, APP_SIZE) == EncodeApp(a)
    ensures AppTable(m', off, n + 1) == AppTable(m, off, n) + [a]
  {
    AppsMoved(m, off, m', off, n);
    AppRoundTrip(a);
    assert AppAt(m', off, n) == a;
    assert AppTable(m', off, n + 1) == AppTable(m', off, n) + [AppAt(m', off, n)];
  }

  lemma FilesExtended(m: seq<octet>, m': seq<octet>, off: nat, n: nat, f: File)
    requires off + FILE_SIZE * n <= |m| && off + FILE_SIZE * (n + 1) <= |m'| && FileFits(f)
    requires Slice(m, off, FILE_SIZE * n) == Slice(m', off, FILE_SIZE * n)
    requires Slice(m', off + FILE_SIZE * n, FILE_SIZE) == EncodeFile(f)
    ensures FileTable(m', off, n + 1) == FileTable(m, off, n) + [f]
  {
    FilesMoved(m, off, m', off, n);
    FileRoundTrip(f);
    assert FileAt(m', off, n) == f;
    assert FileTable(m', off, n + 1) == FileTable(m', off, n) + [FileAt(m', off, n)];
  }

  // Writing one entry's flags changes that entry's flags and nothing else; they
  // stand at the same place in an application's entry and a file's.
  function FlagsAt(off: nat, i: nat): nat { off + FILE_SIZE * i + 3 }

  lemma FlagsWritten(m: seq<octet>, off: nat, n: nat, i: nat, x: octet)
    requires off + FILE_SIZE * n <= |m| && i < n
    ensures FileTable(Put(m, FlagsAt(off, i), [x]), off, n)
         == FileTable(m, off, n)[i := FileAt(m, off, i).(flags := x)]
  {
  }

  lemma AppFlagsWritten(m: seq<octet>, off: nat, n: nat, i: nat, x: octet)
    requires off + APP_SIZE * n <= |m| && i < n
    ensures AppTable(Put(m, FlagsAt(off, i), [x]), off, n)
         == AppTable(m, off, n)[i := AppAt(m, off, i).(flags := x)]
  {
    hide Put, Slice, DecodeApp;
    var m' := Put(m, FlagsAt(off, i), [x]);
    forall j | 0 <= j < n && j != i ensures AppAt(m', off, j) == AppAt(m, off, j) {
      PutElsewhere(m, FlagsAt(off, i), [x], off + APP_SIZE * j, APP_SIZE);
    }
    AppEntryFlags(m, off + APP_SIZE * i, x);
  }

  lemma AppEntryFlags(m: seq<octet>, at: nat, x: octet)
    requires at + APP_SIZE <= |m|
    ensures DecodeApp(Slice(Put(m, at + 3, [x]), at, APP_SIZE)) == DecodeApp(Slice(m, at, APP_SIZE)).(flags := x)
  {
    var a, b := Slice(Put(m, at + 3, [x]), at, APP_SIZE), Slice(m, at, APP_SIZE);
    forall k | 0 <= k < APP_SIZE ensures a[k] == if k == 3 then x else b[k] {
    }
    assert a[8..24] == b[8..24];
  }

  // The last word of an entry: a value file's value, a record file's count.
  function LastWordAt(off: nat, i: nat): nat { off + FILE_SIZE * i + 22 }

  lemma LastWordWritten(m: seq<octet>, off: nat, n: nat, i: nat, v: nat)
    requires off + FILE_SIZE * n <= |m| && i < n && v < 0x1_0000_0000
    ensures FileTable(Put(m, LastWordAt(off, i), Digits(v, 4)), off, n)
         == FileTable(m, off, n)[i := FileAt(m, off, i).(w2 := v)]
  {
    hide Put, Slice, Digits, DecodeFile;
    var m' := Put(m, LastWordAt(off, i), Digits(v, 4));
    forall j | 0 <= j < n && j != i ensures FileAt(m', off, j) == FileAt(m, off, j) {
      PutElsewhere(m, LastWordAt(off, i), Digits(v, 4), off + FILE_SIZE * j, FILE_SIZE);
    }
    EntryLastWord(m, off + FILE_SIZE * i, v);
  }

  lemma EntryLastWord(m: seq<octet>, at: nat, v: nat)
    requires at + FILE_SIZE <= |m| && v < 0x1_0000_0000
    ensures DecodeFile(Slice(Put(m, at + 22, Digits(v, 4)), at, FILE_SIZE)) == DecodeFile(Slice(m, at, FILE_SIZE)).(w2 := v)
  {
    var w := Digits(v, 4);
    var a, b := Slice(Put(m, at + 22, w), at, FILE_SIZE), Slice(m, at, FILE_SIZE);
    forall k | 0 <= k < FILE_SIZE ensures a[k] == if k >= 22 then w[k - 22] else b[k] {
    }
    FourBack(v);
  }

  lemma KeysJoined(m: seq<octet>, off: nat, a: nat, b: nat)
    requires off + KEY_SIZE * (a + b) <= |m|
    ensures KeyTable(m, off, a + b) == KeyTable(m, off, a) + KeyTable(m, off + KEY_SIZE * a, b)
  {
  }

  lemma KeysCut(m: seq<octet>, off: nat, n: nat, k: nat)
    requires k <= n && off + KEY_SIZE * n <= |m|
    ensures KeyTable(m, off, k) == KeyTable(m, off, n)[..k]
  {
  }

  // ---- well-formedness

  predicate Apart(a: nat, an: nat, b: nat, bn: nat) {
    a + an <= b || b + bn <= a
  }

  predicate HasShadow(f: File) { f.shadowOff != 0 }

  // A file's regions lie between lo and hi, data and shadow apart.
  predicate Inside(f: File, lo: nat, hi: nat) {
    && lo <= f.dataoff && f.dataoff + f.datalen <= hi
    && (HasShadow(f) ==> (
      && lo <= f.shadowOff && f.shadowOff + f.datalen <= hi
      && Apart(f.dataoff, f.datalen, f.shadowOff, f.datalen)))
  }

  predicate Separate(f: File, g: File) {
    && Apart(f.dataoff, f.datalen, g.dataoff, g.datalen)
    && (HasShadow(f) ==> Apart(f.shadowOff, f.datalen, g.dataoff, g.datalen))
    && (HasShadow(g) ==> Apart(f.dataoff, f.datalen, g.shadowOff, g.datalen))
    && (HasShadow(f) && HasShadow(g) ==> Apart(f.shadowOff, f.datalen, g.shadowOff, g.datalen))
  }

  // Tombstones: bit 0 of an application's flags, bit 5 of a file's.
  predicate AppDeleted(a: App) { a.flags % 2 == 1 }
  predicate FileDeleted(f: File) { f.flags / 32 % 2 == 1 }

  predicate AppsUnique(apps: seq<App>) {
    forall i, j :: 0 <= i < j < |apps| && !AppDeleted(apps[i]) && !AppDeleted(apps[j]) ==> apps[i].aid != apps[j].aid
  }

  predicate KeysUnique(keys: seq<Key>, appcount: nat) {
    && (forall i :: 0 <= i < |keys| ==> keys[i].app < appcount)
    && (forall i, j :: 0 <= i < j < |keys| ==> keys[i].app != keys[j].app || keys[i].num != keys[j].num)
  }

  predicate FilesApart(files: seq<File>, lo: nat, hi: nat) {
    && (forall i :: 0 <= i < |files| ==> Inside(files[i], lo, hi))
    && (forall i, j :: 0 <= i < j < |files| ==> Separate(files[i], files[j]))
  }

  predicate Counted(h: Header) {
    && 1 <= h.appcount <= MAX_APPS && h.filecount <= MAX_FILES && h.keycount < 256
    && 0 < h.appOff
    && h.reserved <= h.cardsize < 0x1_0000
  }

  ghost predicate WellFormed(h: Header, m: seq<octet>) {
    && Placed(h, m) && Counted(h)
    && var v := Parse(h, m);
    && AppsUnique(v.apps)
    && KeysUnique(v.keys, h.appcount)
    && FilesApart(v.files, h.dataStart, h.size)
  }

  lemma Shape(h: Header, m: seq<octet>)
    requires WellFormed(h, m)
    ensures Placed(h, m) && Counted(h)
  {
  }
}
