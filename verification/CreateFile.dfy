// The Create*File commands of armsrc/desfiresim.c: a new entry at the end of the
// file table, its data and shadow off the far end of the image.
module CreateFile {
  import opened Octets
  import opened Image
  import opened Allocator
  import opened CreateApp

  datatype FileRequest = FileRequest(
    num: octet, kind: octet, comm: octet, rights: nat, isofid: nat,
    size: nat, recsize: nat, maxrec: nat, lower: nat, upper: nat, value: nat, options: octet)

  predicate Matches(f: File, app: nat, num: nat) { f.app == app && f.num == num }

  // The index of the first entry with that number, or the table's length.
  function FirstFile(files: seq<File>, app: nat, num: nat, i: nat): (r: nat)
    requires i <= |files|
    ensures i <= r <= |files|
    ensures r < |files| ==> Matches(files[r], app, num)
    ensures forall j :: i <= j < r ==> !Matches(files[j], app, num)
    decreases |files| - i
  {
    if i == |files| || Matches(files[i], app, num) then i else FirstFile(files, app, num, i + 1)
  }

  // desfire_sim_find_file finds something
  predicate Finds(files: seq<File>, app: nat, num: nat) {
    var i := FirstFile(files, app, num, 0);
    i < |files| && !FileDeleted(files[i])
  }

  // desfire_sim_file_extent
  function FileExtent(q: FileRequest): nat {
    match q.kind
    case 0 => q.size
    case 1 => q.size
    case 2 => GRANULE
    case 3 => Wrap(q.recsize * q.maxrec, U32)
    case 4 => Wrap(q.recsize * q.maxrec, U32)
    case _ => 0
  }

  function Extent(q: FileRequest): nat { RoundUp(FileExtent(q)) }

  predicate Shadowed(kind: octet) { 1 <= kind <= 4 }

  function Reserve(q: FileRequest): nat {
    if Shadowed(q.kind) then Wrap(Extent(q) * 2, U32) else Extent(q)
  }

  predicate FitsWidths(q: FileRequest) {
    && q.rights < 0x1_0000 && q.isofid < 0x1_0000
    && q.size < 0x100_0000 && q.recsize < 0x100_0000 && q.maxrec < 0x100_0000
    && q.lower < U32 && q.upper < U32 && q.value < U32
  }

  // ---- the frame of a Create*File command

  function KindOf(cmd: octet): octet {
    match cmd
    case 0xCD => 0
    case 0xCB => 1
    case 0xCC => 2
    case 0xC1 => 3
    case _ => 4
  }

  function FrameLength(kind: octet, isofids: bool): nat {
    if kind == 2 then 17
    else (if kind <= 1 then 7 else 10) + if isofids then 2 else 0
  }

  // An ISO file id comes second where the application uses them, and never with
  // a value file.
  function ParseFile(kind: octet, isofids: bool, frame: seq<octet>): (q: FileRequest)
    requires |frame| == FrameLength(kind, isofids)
    ensures FitsWidths(q) && q.kind == kind
  {
    var iso := isofids && kind != 2;
    var o := if iso then 3 else 1;
    var (comm, rights, isofid) := (frame[o], Pair(frame[o + 1], frame[o + 2]), if iso then Pair(frame[1], frame[2]) else 0);
    var p := o + 3;
    if kind <= 1 then
      FileRequest(frame[0], kind, comm, rights, isofid, Triple(frame, p), 0, 0, 0, 0, 0, 0)
    else if kind == 2 then
      FileRequest(frame[0], kind, comm, rights, isofid, 0, 0, 0, Quad(frame, p), Quad(frame, p + 4), Quad(frame, p + 8), frame[p + 12])
    else
      FileRequest(frame[0], kind, comm, rights, isofid, 0, Triple(frame, p), Triple(frame, p + 3), 0, 0, 0, 0)
  }

  function Triple(s: seq<octet>, i: nat): (r: nat)
    requires i + 3 <= |s|
    ensures r < 0x100_0000
  {
    Three(s[i], s[i + 1], s[i + 2])
  }

  function Quad(s: seq<octet>, i: nat): (r: nat)
    requires i + 4 <= |s|
    ensures r < U32
  {
    Four(s[i], s[i + 1], s[i + 2], s[i + 3])
  }

  // Limits are compared signed; records have a size and a number.
  predicate Sensible(q: FileRequest) {
    && (q.kind == 2 ==> Signed(q.lower) < Signed(q.upper) && Signed(q.lower) <= Signed(q.value) <= Signed(q.upper))
    && (q.kind > 2 ==> q.recsize != 0 && q.maxrec != 0)
  }

  function UsesIsoFids(a: App): bool { a.flags / 4 % 2 == 1 }

  // What the frame is answered.
  function FileAnswer(h: Header, v: View, selected: nat, master: bool, cmd: octet, frame: seq<octet>): Status
    requires selected < |v.apps|
  {
    var kind, isofids := KindOf(cmd), UsesIsoFids(v.apps[selected]);
    if selected == 0 then PermissionDenied
    else if !MayCreate(v.apps, selected, master) then AuthenticationError
    else if |frame| != FrameLength(kind, isofids) then WrongLength
    else
      var q := ParseFile(kind, isofids, frame);
      if !Sensible(q) then ParameterError else FileStatus(h, v.files, selected, q)
  }

  // The file the frame asks for.
  function Asked(v: View, selected: nat, cmd: octet, frame: seq<octet>): (q: FileRequest)
    requires selected < |v.apps| && |frame| == FrameLength(KindOf(cmd), UsesIsoFids(v.apps[selected]))
    ensures FitsWidths(q)
  {
    ParseFile(KindOf(cmd), UsesIsoFids(v.apps[selected]), frame)
  }

  // What desfire_sim_file_create answers.
  function FileStatus(h: Header, files: seq<File>, selected: nat, q: FileRequest): Status {
    if selected == 0 then PermissionDenied
    else if q.num > 0x1F then ParameterError
    else if h.filecount >= MAX_FILES then OutOfEeprom
    else if Finds(files, selected, q.num) then Duplicate
    else RoomForFile(h, q)
  }

  // Both sums are taken in 32 bits.
  function RoomForFile(h: Header, q: FileRequest): Status {
    if Extent(q) == 0 then ParameterError
    else if Wrap(h.reserved + Reserve(q), U32) > h.cardsize then OutOfEeprom
    else if Wrap(h.tablesEnd + FILE_SIZE + Reserve(q), U32) > h.dataStart then OutOfEeprom
    else if Reserve(q) > h.dataStart then Overrun
    else Ok
  }

  // The guards keep the two frontiers apart exactly when the reservation fits
  // 16 bits.
  lemma GuardsHold(h: Header, q: FileRequest)
    requires h.reserved <= h.cardsize < 0x1_0000 && h.tablesEnd <= h.dataStart < 0x1_0000
    requires RoomForFile(h, q) == Ok || RoomForFile(h, q) == Overrun
    ensures RoomForFile(h, q) == Ok <==> Reserve(q) < 0x1_0000
    ensures RoomForFile(h, q) == Ok ==>
      h.tablesEnd + FILE_SIZE + Reserve(q) <= h.dataStart && h.reserved + Reserve(q) <= h.cardsize
  {
    assert h.tablesEnd + FILE_SIZE + Reserve(q) < 2 * U32;
  }

  // Only a record file can overrun: its extent is a product.
  lemma OnlyRecordsOverrun(h: Header, q: FileRequest)
    requires h.reserved <= h.cardsize < 0x1_0000 && h.tablesEnd <= h.dataStart < 0x1_0000
    requires FitsWidths(q) && RoomForFile(h, q) == Overrun
    ensures q.kind == 3 || q.kind == 4
    ensures U32 - 0x1_0000 < Reserve(q)
  {
    Wrapped(h.reserved, Reserve(q), h.cardsize);
    GuardsHold(h, q);
    SmallReserve(q);
  }

  lemma Wrapped(a: nat, r: nat, c: nat)
    requires a <= c < 0x1_0000 && 0x1_0000 <= r < U32 && Wrap(a + r, U32) <= c
    ensures U32 - 0x1_0000 < r
  {
  }

  lemma SmallReserve(q: FileRequest)
    requires FitsWidths(q)
    ensures q.kind != 3 && q.kind != 4 ==> Reserve(q) < 0x400_0000
  {
    if q.kind != 3 && q.kind != 4 {
      assert FileExtent(q) < 0x100_0000;
      assert Extent(q) < 0x200_0000;
    }
  }

  // 262112 * 8193 is 2^31 - 32: doubled, it passes both checks as 2^32 - 64.
  lemma OverrunReached()
    ensures var q := FileRequest(1, 3, 0, 0, 0, 0, 262112, 8193, 0, 0, 0, 0);
      var h := Header(2, 0, 2, 152, 204, 204, 260, 8192, 8192, 4096, 96);
      FitsWidths(q) && FileStatus(h, [], 1, q) == Overrun
  {
    var q := FileRequest(1, 3, 0, 0, 0, 0, 262112, 8193, 0, 0, 0, 0);
    assert q.recsize * q.maxrec == 0x7FFF_FFE0;
    assert Extent(q) == 0x7FFF_FFE0;
    assert Reserve(q) == 0xFFFF_FFC0;
  }

  function NewFile(h: Header, selected: nat, q: FileRequest): File
    requires selected < 256 && Reserve(q) <= h.dataStart
  {
    var at := h.dataStart - Reserve(q);
    var flags := q.comm % 4 + if q.kind == 2 then q.options % 2 * 8 + q.options / 2 % 2 * 16 else 0;
    var (w0, w1, w2) :=
      if q.kind <= 1 then (q.size, 0, 0)
      else if q.kind == 2 then (q.lower, q.upper, q.value)
      else (q.recsize, q.maxrec, 0);
    File(selected, q.num, q.kind, flags, q.isofid, q.rights,
         at, Wrap(Extent(q), 0x1_0000), if Shadowed(q.kind) then Wrap(at + Extent(q), 0x1_0000) else 0, w0, w1, w2)
  }

  // What was reserved is the data and, behind it, a shadow of the same length,
  // even when the extent itself does not fit 16 bits.
  lemma NewFileRegions(h: Header, selected: nat, q: FileRequest)
    requires selected < 256 && Reserve(q) <= h.dataStart < 0x1_0000
    ensures var f := NewFile(h, selected, q);
      && f.dataoff + Reserve(q) == h.dataStart
      && (Shadowed(q.kind) ==> 2 * f.datalen == Reserve(q) && f.shadowOff == f.dataoff + f.datalen)
      && (!Shadowed(q.kind) ==> f.datalen == Reserve(q) && f.shadowOff == 0)
  {
    if Shadowed(q.kind) {
      Halved(Extent(q), Reserve(q), h.dataStart - Reserve(q));
    }
  }

  lemma Halved(e: nat, r: nat, at: nat)
    requires e < U32 && r == Wrap(e * 2, U32) && at + r < 0x1_0000
    ensures 2 * Wrap(e, 0x1_0000) == r
    ensures Wrap(at + e, 0x1_0000) == at + Wrap(e, 0x1_0000)
  {
    if e >= 0x8000_0000 {
      WrapOff(e - 0x8000_0000, 0x8000);
      WrapOff(at + e - 0x8000_0000, 0x8000);
    }
  }

  lemma {:induction false} WrapOff(v: nat, k: nat)
    requires v < 0x1_0000
    ensures Wrap(v + 0x1_0000 * k, 0x1_0000) == v
  {
    if k > 0 {
      WrapOff(v, k - 1);
    }
  }

  function FileHeader(h: Header, q: FileRequest): Header
    requires Reserve(q) <= h.dataStart
  {
    h.(keyOff := h.keyOff + FILE_SIZE,
       tablesEnd := h.tablesEnd + FILE_SIZE,
       dataStart := h.dataStart - Reserve(q),
       reserved := h.reserved + Reserve(q),
       filecount := h.filecount + 1)
  }

  predicate FileRoom(h: Header, m: seq<octet>, selected: nat, q: FileRequest) {
    && Placed(h, m) && Counted(h) && h.filecount < MAX_FILES
    && 0 < selected < h.appcount && FitsWidths(q)
    && h.tablesEnd + FILE_SIZE + Reserve(q) <= h.dataStart && h.reserved + Reserve(q) <= h.cardsize
  }

  function FileMemory(h: Header, m: seq<octet>, selected: nat, q: FileRequest): (r: seq<octet>)
    requires FileRoom(h, m, selected, q)
    ensures |r| == |m|
  {
    Put(Inserted(h.tablesEnd, m, h.keyOff, EncodeFile(NewFile(h, selected, q))), h.dataStart - Reserve(q), Zeros(Reserve(q)))
  }

  predicate FileLaid(h: Header, m: seq<octet>, selected: nat, q: FileRequest, m': seq<octet>)
    requires FileRoom(h, m, selected, q)
  {
    && |m'| == |m|
    && Slice(m', 0, h.keyOff) == Slice(m, 0, h.keyOff)
    && Slice(m', h.keyOff, FILE_SIZE) == EncodeFile(NewFile(h, selected, q))
    && Slice(m', h.keyOff + FILE_SIZE, h.tablesEnd - h.keyOff) == Slice(m, h.keyOff, h.tablesEnd - h.keyOff)
    && Slice(m', h.dataStart - Reserve(q), Reserve(q)) == Zeros(Reserve(q))
    && Slice(m', h.dataStart, |m| - h.dataStart) == Slice(m, h.dataStart, |m| - h.dataStart)
  }

  lemma BelowData(m: seq<octet>, at: nat, te: nat, b: seq<octet>, lo: nat, top: nat)
    requires at + FILE_SIZE <= te <= lo && lo + |b| <= top <= |m|
    ensures var m' := Put(m, lo, b);
      && Slice(m', lo, |b|) == b
      && Slice(m', 0, at) == Slice(m, 0, at)
      && Slice(m', at, FILE_SIZE) == Slice(m, at, FILE_SIZE)
      && Slice(m', at + FILE_SIZE, te - at - FILE_SIZE) == Slice(m, at + FILE_SIZE, te - at - FILE_SIZE)
      && Slice(m', top, |m| - top) == Slice(m, top, |m| - top)
  {
  }

  lemma FilePieces(h: Header, m: seq<octet>, selected: nat, q: FileRequest)
    requires FileRoom(h, m, selected, q)
    ensures FileLaid(h, m, selected, q, FileMemory(h, m, selected, q))
  {
    hide Put, Slice;
    var entry := EncodeFile(NewFile(h, selected, q));
    InsertedPieces(h.tablesEnd, m, h.keyOff, entry, h.dataStart);
    BelowData(Inserted(h.tablesEnd, m, h.keyOff, entry), h.keyOff, h.tablesEnd + FILE_SIZE, Zeros(Reserve(q)),
              h.dataStart - Reserve(q), h.dataStart);
  }

  lemma FileView(h: Header, m: seq<octet>, selected: nat, q: FileRequest, m': seq<octet>)
    requires FileRoom(h, m, selected, q) && FileLaid(h, m, selected, q, m')
    ensures Readable(FileHeader(h, q), m')
    ensures var v, v' := Parse(h, m), Parse(FileHeader(h, q), m');
      v' == v.(files := v.files + [NewFile(h, selected, q)])
  {
    hide Put, Slice, EncodeFile;
    Within(m, 0, m', 0, h.keyOff, h.appOff, APP_SIZE * h.appcount);
    AppsMoved(m, h.appOff, m', h.appOff, h.appcount);
    Within(m, 0, m', 0, h.keyOff, h.fileOff, FILE_SIZE * h.filecount);
    FilesExtended(m, m', h.fileOff, h.filecount, NewFile(h, selected, q));
    KeysMoved(m, h.keyOff, m', h.keyOff + FILE_SIZE, h.keycount);
  }

  lemma NewFileApart(files: seq<File>, f: File, lo: nat, top: nat, hi: nat)
    requires FilesApart(files, top, hi) && Inside(f, lo, top) && top <= hi
    ensures FilesApart(files + [f], lo, hi)
  {
    forall i | 0 <= i < |files| ensures Separate(files[i], f) {
      assert Inside(files[i], top, hi);
    }
  }

  // A successful Create*File adds the file to what the image says, keeps it
  // well formed, leaves every old file's bytes alone, charges what it took off
  // the far end, and reads back as zeros.
  lemma FileCreateKeeps(h: Header, m: seq<octet>, selected: nat, q: FileRequest)
    requires WellFormed(h, m) && 0 < selected < h.appcount && FitsWidths(q)
    requires FileStatus(h, Parse(h, m).files, selected, q) == Ok
    ensures FileRoom(h, m, selected, q)
    ensures var h', m', f := FileHeader(h, q), FileMemory(h, m, selected, q), NewFile(h, selected, q);
      && WellFormed(h', m')
      && Parse(h', m') == Parse(h, m).(files := Parse(h, m).files + [f])
      && Slice(m', h.dataStart, |m| - h.dataStart) == Slice(m, h.dataStart, |m| - h.dataStart)
      && h'.reserved == h.reserved + Reserve(q)
      && Slice(m', f.dataoff, Reserve(q)) == Zeros(Reserve(q))
  {
    GuardsHold(h, q);
    var m' := FileMemory(h, m, selected, q);
    FilePieces(h, m, selected, q);
    FileView(h, m, selected, q, m');
    FileKept(h, m, selected, q, m');
    NewFileRegions(h, selected, q);
  }

  lemma FileKept(h: Header, m: seq<octet>, selected: nat, q: FileRequest, m': seq<octet>)
    requires WellFormed(h, m) && FileRoom(h, m, selected, q) && |m'| == |m|
    requires Readable(FileHeader(h, q), m')
    requires Parse(FileHeader(h, q), m')
      == Parse(h, m).(files := Parse(h, m).files + [NewFile(h, selected, q)])
    ensures WellFormed(FileHeader(h, q), m')
  {
    NewFileRegions(h, selected, q);
    NewFileApart(Parse(h, m).files, NewFile(h, selected, q), h.dataStart - Reserve(q), h.dataStart, h.size);
  }

  // A file just created is the one a lookup finds exactly when no tombstone
  // with its number comes first.
  lemma CreatedIsFound(files: seq<File>, f: File)
    requires !Finds(files, f.app, f.num) && !FileDeleted(f)
    ensures Finds(files + [f], f.app, f.num) <==> forall i :: 0 <= i < |files| ==> !Matches(files[i], f.app, f.num)
  {
    var k, k' := FirstFile(files, f.app, f.num, 0), FirstFile(files + [f], f.app, f.num, 0);
    if k < |files| {
      assert (files + [f])[k] == files[k];
      assert k' <= k;
      assert (files + [f])[k'] == files[k'];
      assert Matches(files[k], f.app, f.num);
    } else {
      assert (files + [f])[|files|] == f;
    }
  }
}
