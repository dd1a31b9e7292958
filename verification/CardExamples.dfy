// Cards a reader can bring about, on which the code does not do what one would
// expect: commands accepted one after the other, from a card fresh from the
// factory.
module CardExamples {
  import opened Octets
  import opened Image
  import opened Allocator
  import opened CreateApp
  import opened CreateFile
  import opened Tombstones
  import opened CardImage
  import opened ImageRuns
  import T = Transactions
  import TC = TransactionCommands

  // ---- the card

  const PICC := App(0, 0, 0x0F, 1, 0, Zeros(16), 0, T_3DES)

  const FRESH := Header(1, 0, 1, 152, 178, 178, 206, 8192, 8192, 8192, 0)

  function FreshMemory(): (m: seq<octet>)
    ensures |m| == 8192
  {
    Put(Put(Zeros(8192), 152, EncodeApp(PICC)), 178, EncodeKey(NewKey(0, 0)))
  }

  // An application of fourteen keys, free to create and delete in.
  function Create(n: nat): Command
    requires n < 256
  {
    CreateApplication([n, 0, 0, 0x0F, 14], false)
  }

  // n of them have been created.
  ghost predicate Holds(s: State, n: nat) {
    && Sound(s) && s.selected == 0
    && s.h.appcount == n + 1 && s.h.filecount == 0 && s.h.keycount == 14 * n + 1
    && s.h.appOff == 152 && s.h.dataStart == s.h.size == s.h.cardsize == |s.m| == 8192 && s.h.reserved == 288 * n
    && var apps := Parse(s.h, s.m).apps;
    && apps[0].keysettings == 0x0F
    && (forall i :: 0 <= i <= n ==> apps[i].aid == i)
    && (n > 0 ==> apps[n] == NewApp(ParseApp(Create(n).frame)))
  }

  ghost function Cards(n: nat): (s: State)
    requires n <= 18
    ensures Holds(s, n)
  {
    if n == 0 then
      FreshPieces();
      Fresh(FreshMemory());
      State(FRESH, FreshMemory(), 0)
    else
      OneMore(Cards(n - 1), n);
      Step(Cards(n - 1), Create(n))
  }

  lemma FreshPieces()
    ensures var m := FreshMemory();
      Slice(m, 152, APP_SIZE) == EncodeApp(PICC) && Slice(m, 178, KEY_SIZE) == EncodeKey(NewKey(0, 0))
  {
    hide Put, Slice, EncodeApp, EncodeKey;
    var z, a, k := Zeros(8192), EncodeApp(PICC), EncodeKey(NewKey(0, 0));
    PutThere(z, 152, a);
    PutElsewhere(Put(z, 152, a), 178, k, 152, APP_SIZE);
    PutThere(Put(z, 152, a), 178, k);
  }

  lemma Fresh(m: seq<octet>)
    requires |m| == 8192 && Slice(m, 152, APP_SIZE) == EncodeApp(PICC) && Slice(m, 178, KEY_SIZE) == EncodeKey(NewKey(0, 0))
    ensures Holds(State(FRESH, m, 0), 0)
  {
    hide Slice, EncodeApp, EncodeKey, DecodeApp, DecodeKey;
    AppRoundTrip(PICC);
    KeyRoundTrip(NewKey(0, 0));
    assert AppTable(m, 152, 1) == [PICC];
    assert KeyTable(m, 178, 1) == [NewKey(0, 0)];
  }

  lemma Accepted(s: State, n: nat)
    requires 0 < n <= 19 && Holds(s, n - 1)
    ensures Answer(s, Create(n)) == Ok
    ensures var q := ParseApp(Create(n).frame); NumKeys(q) == 14 && AppCost(q) == 288 && q.aid == n
  {
    hide WellFormed, AppTable, FileTable, KeyTable;
    Shape(s.h, s.m);
  }

  lemma AidsGo(apps: seq<App>, a: App, n: nat)
    requires |apps| == n == a.aid && forall i :: 0 <= i < n ==> apps[i].aid == i
    ensures forall i :: 0 <= i <= n ==> (apps + [a])[i].aid == i
  {
  }

  lemma OneMore(s: State, n: nat)
    requires 0 < n <= 18 && Holds(s, n - 1)
    ensures Holds(Step(s, Create(n)), n)
  {
    hide WellFormed, AppTable, FileTable, KeyTable, AppMemory, NewKeys, Slice, AppCost, LiveApp, NumKeys, ParseApp, NewApp;
    var q := ParseApp(Create(n).frame);
    Shape(s.h, s.m);
    Accepted(s, n);
    AppCreateKeeps(s.h, s.m, q);
    NewAid(q);
    AidsGo(Parse(s.h, s.m).apps, NewApp(q), n);
    StepKeeps(s, Create(n));
  }

  lemma NewAid(q: AppRequest)
    ensures NewApp(q).aid == q.aid
  {
  }

  // Every one of nineteen is accepted, and the nineteenth leaves an image that
  // is not well formed any more.
  lemma KeysOverflow()
    ensures forall n :: 0 < n <= 19 ==> Answer(Cards(n - 1), Create(n)) == Ok
    ensures !Sound(Step(Cards(18), Create(19)))
  {
    hide Sound, Cards, Step, Answer, Parse;
    forall n | 0 < n <= 19 ensures Answer(Cards(n - 1), Create(n)) == Ok {
      Accepted(Cards(n - 1), n);
    }
    TooMany(Cards(18));
    StepKeeps(Cards(18), Create(19));
  }

  lemma TooMany(s: State)
    requires Holds(s, 18)
    ensures Sound(s) && Breaks(s, Create(19))
  {
    hide Answer, ParseApp, NumKeys, WellFormed;
    Accepted(s, 19);
  }

  // ---- one application on it, selected, and a file

  const NUMBER: octet := 5

  ghost predicate Empty(s: State) {
    && Sound(s) && s.selected == 1 && s.h.appcount == 2 && s.h.filecount == 0
    && s.h.tablesEnd <= 700 && s.h.dataStart == s.h.cardsize == 8192 && s.h.reserved == 288
    && Parse(s.h, s.m).apps[1] == NewApp(ParseApp(Create(1).frame))
  }

  lemma FirstSelected(s: State)
    requires Holds(s, 1)
    ensures Answer(s, SelectApplication([1, 0, 0])) == Ok && Empty(Step(s, SelectApplication([1, 0, 0])))
  {
    hide WellFormed, AppTable, FileTable, KeyTable;
    Shape(s.h, s.m);
    var apps := Parse(s.h, s.m).apps;
    FirstLiveIsLive(apps, 1);
    assert !AppDeleted(apps[1]) && apps[1].aid == 1;
    assert FirstLive(apps, 1, 0) == 1;
    StepKeeps(s, SelectApplication([1, 0, 0]));
  }

  // The command is accepted, and leaves a card in order.
  ghost predicate Goes(s: State, c: Command, s': State) {
    Sound(s) && Answer(s, c) == Ok && s' == Step(s, c) && Sound(s')
  }

  lemma Start() returns (s: State)
    ensures Empty(s) && exists a: State :: Holds(a, 1) && Goes(a, SelectApplication([1, 0, 0]), s)
  {
    hide Holds, Empty, Step, Answer, Sound;
    var a := Cards(1);
    assert Sound(a) by { HoldsSound(a, 1); }
    FirstSelected(a);
    s := Step(a, SelectApplication([1, 0, 0]));
    assert Sound(s) by { EmptySound(s); }
    assert Goes(a, SelectApplication([1, 0, 0]), s);
  }

  lemma HoldsSound(s: State, n: nat)
    requires Holds(s, n)
    ensures Sound(s)
  {
  }

  lemma EmptySound(s: State)
    requires Empty(s)
    ensures Sound(s)
  {
  }

  // A request for a file of one granule, with or without a shadow.
  predicate Small(c: Command) {
    && c.CreateFile? && !c.master && |c.frame| == FrameLength(KindOf(c.cmd), false)
    && var q := ParseFile(KindOf(c.cmd), false, c.frame);
    Sensible(q) && q.num == NUMBER && q.kind <= 2 && (q.kind <= 1 ==> 0 < q.size <= 32)
  }

  function Wanted(c: Command): (q: FileRequest)
    requires Small(c)
    ensures FitsWidths(q)
  {
    ParseFile(KindOf(c.cmd), false, c.frame)
  }

  // The card has just that file.
  ghost predicate OneFile(h: Header, apps: seq<App>, s: State, q: FileRequest) {
    && Sound(s) && s.selected == 1 && q.num == NUMBER && Reserve(q) <= h.dataStart && s.h == FileHeader(h, q)
    && var v := Parse(s.h, s.m);
    && v.apps == apps && v.files == [NewFile(h, 1, q)]
    && h.dataStart <= |s.m| && Slice(s.m, h.dataStart - Reserve(q), Reserve(q)) == Zeros(Reserve(q))
  }

  lemma Created(s: State, c: Command) returns (s': State)
    requires Empty(s) && Small(c)
    ensures Goes(s, c, s') && OneFile(s.h, Parse(s.h, s.m).apps, s', Wanted(c))
  {
    hide WellFormed, AppTable, FileTable, KeyTable, ParseFile, FileMemory, Slice;
    Shape(s.h, s.m);
    var q := Wanted(c);
    NoIsoFids(Parse(s.h, s.m).apps);
    SmallFile(q);
    FileCreateKeeps(s.h, s.m, 1, q);
    StepKeeps(s, c);
    s' := Step(s, c);
    assert [] + [NewFile(s.h, 1, q)] == [NewFile(s.h, 1, q)];
  }

  lemma NoIsoFids(apps: seq<App>)
    requires |apps| == 2 && apps[1] == NewApp(ParseApp(Create(1).frame))
    ensures !UsesIsoFids(apps[1]) && MayCreate(apps, 1, false)
  {
  }

  lemma SmallFile(q: FileRequest)
    requires q.kind <= 2 && (q.kind <= 1 ==> 0 < q.size <= 32)
    ensures Extent(q) == 32 && Reserve(q) == if q.kind == 0 then 32 else 64
  {
  }

  // ---- a number that is deleted and created again

  const CREATE := CreateFile(0xCD, [NUMBER, 0, 0xEE, 0xEE, 32, 0, 0], false)
  const DELETE := DeleteFile([NUMBER], false)

  lemma CreateIsSmall()
    ensures Small(CREATE) && Wanted(CREATE).kind == 0
  {
  }

  lemma FileIsDeleted(h: Header, apps: seq<App>, b: State, q: FileRequest) returns (c: State)
    requires OneFile(h, apps, b, q) && q.kind == 0 && |apps| == 2 && MayCreate(apps, 1, false)
    ensures Goes(b, DELETE, c) && c.selected == 1 && c.h == b.h && Parse(c.h, c.m).apps == apps
    ensures Buried(Parse(c.h, c.m).files, 1, NUMBER)
  {
    hide WellFormed, AppTable, FileTable, KeyTable, FileKilled, Slice, Buried;
    Shape(b.h, b.m);
    NewIsLive(h, q);
    StepKeeps(b, DELETE);
    DeletedIsBuried(b, DELETE);
    FileKilledReads(b.h, b.m, 0);
    c := Step(b, DELETE);
  }

  lemma NewIsLive(h: Header, q: FileRequest)
    requires q.kind == 0 && q.num == NUMBER && Reserve(q) <= h.dataStart
    ensures var files := [NewFile(h, 1, q)]; FirstFile(files, 1, NUMBER, 0) == 0 && Finds(files, 1, NUMBER)
  {
  }

  // Created, deleted, and created once more: all three are accepted, and the
  // file is not found.
  lemma TombstoneHides(a: State) returns (b: State, c: State, d: State)
    requires Empty(a)
    ensures Goes(a, CREATE, b) && Goes(b, DELETE, c) && Goes(c, CREATE, d)
    ensures d.selected == 1 && !Finds(Parse(d.h, d.m).files, 1, NUMBER)
  {
    hide WellFormed, AppTable, FileTable, KeyTable, ParseFile, FileMemory, Slice, Buried, FilesGrown, AppsGrown;
    CreateIsSmall();
    Shape(a.h, a.m);
    b := Created(a, CREATE);
    var apps := Parse(a.h, a.m).apps;
    NoIsoFids(apps);
    c := FileIsDeleted(a.h, apps, b, Wanted(CREATE));
    Shape(c.h, c.m);
    SmallFile(Wanted(CREATE));
    BuriedIsNotFound(Parse(c.h, c.m).files);
    StepKeeps(c, CREATE);
    d := Step(c, CREATE);
    Shape(d.h, d.m);
    BuriedStays(Parse(c.h, c.m).files, Parse(d.h, d.m).files, 1, NUMBER);
  }

  lemma BuriedIsNotFound(files: seq<File>)
    requires Buried(files, 1, NUMBER)
    ensures !Finds(files, 1, NUMBER)
  {
  }

  // ---- what a dropped transaction leaves

  const CREATE_BACKUP := CreateFile(0xCB, [NUMBER, 0, 0xEE, 0xEE, 1, 0, 0], false)

  // Limits 0 and 100, value 1.
  const CREATE_VALUE := CreateFile(0xCC, [NUMBER, 0, 0xEE, 0xEE, 0, 0, 0, 0, 100, 0, 0, 0, 1, 0, 0, 0, 0], false)

  lemma BackupIsSmall()
    ensures Small(CREATE_BACKUP) && Wanted(CREATE_BACKUP).kind == 1
    ensures Wanted(CREATE_BACKUP).comm == Wanted(CREATE_BACKUP).options == 0
  {
  }

  lemma ValueIsSmall()
    ensures Small(CREATE_VALUE) && Wanted(CREATE_VALUE).kind == 2 && Wanted(CREATE_VALUE).value == 1
    ensures Wanted(CREATE_VALUE).comm == Wanted(CREATE_VALUE).options == 0
  {
    hide ParseFile, Quad;
    var frame := CREATE_VALUE.frame;
    Low(frame, 4);
    Low(frame, 8);
    Low(frame, 12);
    ValueParses(frame);
  }

  lemma Low(s: seq<octet>, i: nat)
    requires i + 4 <= |s| && s[i + 1] == s[i + 2] == s[i + 3] == 0
    ensures Quad(s, i) == s[i]
  {
  }

  lemma ValueParses(frame: seq<octet>)
    requires |frame| == 17
    ensures ParseFile(2, false, frame) ==
      FileRequest(frame[0], 2, frame[1], Pair(frame[2], frame[3]), 0, 0, 0, 0, Quad(frame, 4), Quad(frame, 8), Quad(frame, 12), frame[16])
  {
  }

  lemma NewFlags(h: Header, q: FileRequest)
    requires 1 <= q.kind <= 2 && q.comm == q.options == 0 && Extent(q) == 32 && Reserve(q) == 64 && 300 <= h.dataStart < 0x1_0000
    ensures var f := NewFile(h, 1, q);
      f.flags == 0 && f.app == 1 && f.datalen == 32 && f.dataoff == h.dataStart - 64 && f.w2 == (if q.kind == 2 then q.value else 0)
      && T.Backed(f) && !T.Dirty(f)
  {
  }

  // A backup file, whose entry an upload marks as never read: one octet is
  // written and the write dropped, and what was never read is served.
  lemma UnreadIsServed(a: State) returns (b: State, m: seq<octet>)
    requires Empty(a)
    ensures Goes(a, CREATE_BACKUP, b) && b.h.filecount == 1 && FlagsAt(b.h.fileOff, 0) < |b.m|
    ensures m == Put(b.m, FlagsAt(b.h.fileOff, 0), [4]) && T.Intact(b.h, m)
    ensures var s := T.StoreOf(b.h, m);
      && |s.files| == 1 && T.Unknown(s.files[0]) && T.Writable(s, 0, 0, [7])
      && var r := T.AbortedTo(T.Written(s, 0, 0, [7]), 1, 1);
      !T.Unknown(r.files[0]) && r.data[0] == s.data[0] && |r.data[0]| > 0 && r.data[0][0] == 0
  {
    hide WellFormed, AppTable, FileTable, KeyTable, Slice, Put, T.AbortedTo, T.Written, FlagsAt, ParseFile;
    BackupIsSmall();
    Shape(a.h, a.m);
    b := Created(a, CREATE_BACKUP);
    var q := Wanted(CREATE_BACKUP);
    SmallFile(q);
    NewFlags(a.h, q);
    Shape(b.h, b.m);
    FlagsInside(b.h, b.m);
    m := Put(b.m, FlagsAt(b.h.fileOff, 0), [4]);
    T.FlagWrite(b.h, b.m, 0, 4);
    FirstZero(a.h, b.h, b.m, q);
    T.AbortedWriteServes(T.StoreOf(b.h, m), 0, 0, [7]);
  }

  lemma FlagsInside(h: Header, m: seq<octet>)
    requires Placed(h, m) && h.filecount == 1
    ensures FlagsAt(h.fileOff, 0) < |m|
  {
  }

  lemma FirstZero(h0: Header, h: Header, m: seq<octet>, q: FileRequest)
    requires WellFormed(h, m) && h0.dataStart <= |m| && 64 <= h0.dataStart && Slice(m, h0.dataStart - 64, 64) == Zeros(64)
    requires |Parse(h, m).files| == 1 && Parse(h, m).files[0].datalen == 32 && Parse(h, m).files[0].dataoff == h0.dataStart - 64
    ensures var s := T.StoreOf(h, m); |s.data| == 1 && |s.data[0]| == 32 && s.data[0][0] == 0
  {
    T.Reaching(h, m);
    assert Slice(m, h0.dataStart - 64, 64)[0] == m[h0.dataStart - 64];
  }

  // A value file credited from 1 to 2 keeps the 2 when the credit is dropped.
  lemma AbortedCreditStays(a: State) returns (b: State)
    requires Empty(a)
    ensures Goes(a, CREATE_VALUE, b) && T.Intact(b.h, b.m)
    ensures var s := T.StoreOf(b.h, b.m);
      && |s.files| == 1 && s.files[0].w2 == 1
      && T.AbortedTo(TC.Valued(s, 0, 2), 1, 1).files[0].w2 == 2
  {
    hide WellFormed, AppTable, FileTable, KeyTable, Slice, Put, T.AbortedTo, ParseFile;
    ValueIsSmall();
    Shape(a.h, a.m);
    b := Created(a, CREATE_VALUE);
    var q := Wanted(CREATE_VALUE);
    SmallFile(q);
    NewFlags(a.h, q);
    var s := T.StoreOf(b.h, b.m);
    TC.AbortKeepsValue(s, 0, 2);
    var t := TC.Valued(s, 0, 2);
    assert t.files[0].w2 == 2;
    ValueStays(t);
  }

  lemma ValueStays(t: T.Store)
    requires T.Aligned(t) && |t.files| == 1
    ensures T.AbortedTo(t, 1, 1).files[0].w2 == t.files[0].w2
  {
  }
}
