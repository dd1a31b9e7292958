// CreateApplication of armsrc/desfiresim.c: a new entry at the end of the
// application table, its keys at the end of the key table.
module CreateApp {
  import opened Octets
  import opened Image
  import opened Allocator

  datatype AppRequest = AppRequest(
    aid: nat, keysettings: octet, numkeysraw: octet, isofid: nat, dfname: seq<octet>)

  const APP_OVERHEAD := 64

  const T_3DES: octet := 1
  const T_3K3DES: octet := 2
  const T_AES: octet := 3

  function NumKeys(q: AppRequest): nat { q.numkeysraw % 16 }

  function KeyType(q: AppRequest): octet {
    match q.numkeysraw / 64
    case 1 => T_3K3DES
    case 2 => T_AES
    case _ => T_3DES
  }

  // desfire_sim_app_cost
  function AppCost(q: AppRequest): nat {
    RoundUp(APP_OVERHEAD + NumKeys(q) * if KeyType(q) == T_3K3DES then 24 else 16)
  }

  function AppGrowth(q: AppRequest): nat { APP_SIZE + KEY_SIZE * NumKeys(q) }

  ghost predicate LiveApp(apps: seq<App>, aid: nat) {
    exists i :: 0 <= i < |apps| && !AppDeleted(apps[i]) && apps[i].aid == aid
  }

  // What desfire_sim_app_create answers.
  function RoomForApp(h: Header, q: AppRequest): Status {
    if h.appcount >= MAX_APPS then OutOfEeprom
    else if NumKeys(q) > MAX_KEYS then ParameterError
    else if q.numkeysraw / 64 == 3 then ParameterError
    else if h.reserved + AppCost(q) > h.cardsize then OutOfEeprom
    else if h.tablesEnd + AppGrowth(q) > h.dataStart then OutOfEeprom
    else Ok
  }

  // What CreateApplication answers.
  ghost function AppStatus(h: Header, v: View, q: AppRequest): Status {
    if q.aid == 0 then ParameterError
    else if LiveApp(v.apps, q.aid) then Duplicate
    else RoomForApp(h, q)
  }

  // Key setting bit 2 of the selected application leaves creating and deleting
  // to everyone; otherwise it takes a session with its master key.
  predicate MayCreate(apps: seq<App>, selected: nat, master: bool)
    requires selected < |apps|
  {
    apps[selected].keysettings / 4 % 2 == 1 || master
  }

  // The fields of the frame; the length of the name is kept in 8 bits.
  function ParseApp(frame: seq<octet>): (q: AppRequest)
    requires |frame| >= 5
    ensures q.aid < 0x100_0000 && q.isofid < 0x1_0000
  {
    AppRequest(Three(frame[0], frame[1], frame[2]), frame[3], frame[4],
               if |frame| >= 7 then Pair(frame[5], frame[6]) else 0,
               if |frame| >= 7 then frame[7..7 + (|frame| - 7) % 256] else [])
  }

  // What a CreateApplication frame is answered.
  ghost function AppAnswer(h: Header, v: View, selected: nat, master: bool, frame: seq<octet>): Status
    requires 0 < |v.apps|
  {
    if selected != 0 then PermissionDenied
    else if |frame| < 5 then WrongLength
    else if !MayCreate(v.apps, 0, master) then AuthenticationError
    else AppStatus(h, v, ParseApp(frame))
  }

  function DfName(q: AppRequest): (r: seq<octet>)
    ensures |r| <= 16 && r <= q.dfname
  {
    if |q.dfname| <= 16 then q.dfname else q.dfname[..16]
  }

  function NewApp(q: AppRequest): (a: App)
    ensures |a.dfname| == 16
  {
    App(q.aid, if q.numkeysraw / 32 % 2 == 1 then 4 else 0, q.keysettings, q.numkeysraw, q.isofid,
        DfName(q) + Zeros(16 - |DfName(q)|), |DfName(q)|, KeyType(q))
  }

  // Present, version known, all zero.
  function NewKey(app: octet, num: octet): (k: Key)
    ensures |k.value| == 24
  {
    Key(app, num, 3, 0, Zeros(24))
  }

  function NewKeys(app: octet, n: nat): seq<Key>
    requires n <= 256
  {
    seq(n, i requires 0 <= i < n => NewKey(app, i))
  }

  function KeyBytes(app: octet, n: nat): (b: seq<octet>)
    requires n <= 256
    ensures |b| == KEY_SIZE * n
  {
    if n == 0 then [] else KeyBytes(app, n - 1) + EncodeKey(NewKey(app, n - 1))
  }

  // The header after a successful create.  The key count is 8 bits wide and
  // nothing has compared it with anything.
  function AppHeader(h: Header, q: AppRequest): Header {
    h.(fileOff := h.fileOff + APP_SIZE,
       keyOff := h.keyOff + APP_SIZE,
       tablesEnd := h.tablesEnd + AppGrowth(q),
       keycount := (h.keycount + NumKeys(q)) % 256,
       appcount := h.appcount + 1,
       reserved := h.reserved + AppCost(q))
  }

  predicate Roomy(h: Header, m: seq<octet>, q: AppRequest) {
    Placed(h, m) && Counted(h) && RoomForApp(h, q) == Ok
  }

  function AppMemory(h: Header, m: seq<octet>, q: AppRequest): (r: seq<octet>)
    requires Roomy(h, m, q)
    ensures |r| == |m|
  {
    Put(Inserted(h.tablesEnd, m, h.fileOff, EncodeApp(NewApp(q))), h.tablesEnd + APP_SIZE, KeyBytes(h.appcount, NumKeys(q)))
  }

  lemma KeyBytesRead(m: seq<octet>, at: nat, app: octet, n: nat)
    requires n <= 256 && at + KEY_SIZE * n <= |m|
    requires Slice(m, at, KEY_SIZE * n) == KeyBytes(app, n)
    ensures KeyTable(m, at, n) == NewKeys(app, n)
  {
    if n > 0 {
      var k := KEY_SIZE * (n - 1);
      var b := KeyBytes(app, n);
      assert b[..k] == KeyBytes(app, n - 1);
      assert Slice(m, at, k) == b[..k];
      KeyBytesRead(m, at, app, n - 1);
      assert Slice(m, at + k, KEY_SIZE) == b[k..];
      KeyRoundTrip(NewKey(app, n - 1));
      assert KeyTable(m, at, n) == KeyTable(m, at, n - 1) + [KeyAt(m, at, n - 1)];
    }
  }

  // Every byte of the new image is an old byte or a new entry's.
  predicate AppLaid(h: Header, m: seq<octet>, q: AppRequest, m': seq<octet>)
    requires Roomy(h, m, q)
  {
    && |m'| == |m|
    && Slice(m', 0, h.fileOff) == Slice(m, 0, h.fileOff)
    && Slice(m', h.fileOff, APP_SIZE) == EncodeApp(NewApp(q))
    && Slice(m', h.fileOff + APP_SIZE, h.tablesEnd - h.fileOff) == Slice(m, h.fileOff, h.tablesEnd - h.fileOff)
    && Slice(m', h.tablesEnd + APP_SIZE, KEY_SIZE * NumKeys(q)) == KeyBytes(h.appcount, NumKeys(q))
    && Slice(m', h.dataStart, |m| - h.dataStart) == Slice(m, h.dataStart, |m| - h.dataStart)
  }

  lemma AppPieces(h: Header, m: seq<octet>, q: AppRequest)
    requires Roomy(h, m, q)
    ensures AppLaid(h, m, q, AppMemory(h, m, q))
  {
    hide Put, Slice;
    var at, te := h.fileOff, h.tablesEnd + APP_SIZE;
    var kb := KeyBytes(h.appcount, NumKeys(q));
    InsertedPieces(h.tablesEnd, m, at, EncodeApp(NewApp(q)), h.dataStart);
    BehindTables(Inserted(h.tablesEnd, m, at, EncodeApp(NewApp(q))), at, te, kb, h.dataStart);
  }

  lemma BehindTables(m: seq<octet>, at: nat, te: nat, b: seq<octet>, top: nat)
    requires at + APP_SIZE <= te && te + |b| <= top <= |m|
    ensures var m' := Put(m, te, b);
      && Slice(m', te, |b|) == b
      && Slice(m', 0, at) == Slice(m, 0, at)
      && Slice(m', at, APP_SIZE) == Slice(m, at, APP_SIZE)
      && Slice(m', at + APP_SIZE, te - at - APP_SIZE) == Slice(m, at + APP_SIZE, te - at - APP_SIZE)
      && Slice(m', top, |m| - top) == Slice(m, top, |m| - top)
  {
  }

  lemma AppsAfter(h: Header, m: seq<octet>, q: AppRequest, m': seq<octet>)
    requires Roomy(h, m, q) && q.aid < 0x100_0000 && q.isofid < 0x1_0000 && AppLaid(h, m, q, m')
    ensures AppTable(m', h.appOff, h.appcount + 1) == AppTable(m, h.appOff, h.appcount) + [NewApp(q)]
  {
    Within(m, 0, m', 0, h.fileOff, h.appOff, APP_SIZE * h.appcount);
    AppsExtended(m, m', h.appOff, h.appcount, NewApp(q));
  }

  lemma FilesAfter(h: Header, m: seq<octet>, q: AppRequest, m': seq<octet>)
    requires Roomy(h, m, q) && AppLaid(h, m, q, m')
    ensures FileTable(m', h.fileOff + APP_SIZE, h.filecount) == FileTable(m, h.fileOff, h.filecount)
  {
    hide Put, Slice, EncodeApp, NewApp;
    Within(m, h.fileOff, m', h.fileOff + APP_SIZE, h.tablesEnd - h.fileOff, 0, FILE_SIZE * h.filecount);
    FilesMoved(m, h.fileOff, m', h.fileOff + APP_SIZE, h.filecount);
  }

  lemma KeysAppended(m: seq<octet>, s: nat, m': seq<octet>, d: nat, k: nat, app: octet, n: nat)
    requires n <= 256 && s + KEY_SIZE * k <= |m| && d + KEY_SIZE * (k + n) <= |m'|
    requires Slice(m, s, KEY_SIZE * k) == Slice(m', d, KEY_SIZE * k)
    requires Slice(m', d + KEY_SIZE * k, KEY_SIZE * n) == KeyBytes(app, n)
    ensures KeyTable(m', d, k + n) == KeyTable(m, s, k) + NewKeys(app, n)
  {
    KeysMoved(m, s, m', d, k);
    KeyBytesRead(m', d + KEY_SIZE * k, app, n);
    KeysJoined(m', d, k, n);
  }

  lemma KeysAfter(h: Header, m: seq<octet>, q: AppRequest, m': seq<octet>)
    requires Roomy(h, m, q) && AppLaid(h, m, q, m')
    ensures KeyTable(m', h.keyOff + APP_SIZE, h.keycount + NumKeys(q))
         == KeyTable(m, h.keyOff, h.keycount) + NewKeys(h.appcount, NumKeys(q))
  {
    hide Put, Slice, EncodeApp, NewApp, NewKeys, AppTable, FileTable, KeyTable, KeyBytes, AppCost;
    Within(m, h.fileOff, m', h.fileOff + APP_SIZE, h.tablesEnd - h.fileOff, FILE_SIZE * h.filecount, KEY_SIZE * h.keycount);
    KeysAppended(m, h.keyOff, m', h.keyOff + APP_SIZE, h.keycount, h.appcount, NumKeys(q));
  }

  // The parsed view is the old one plus the new application and its keys, cut
  // off where the 8-bit key count says.
  ghost predicate AppAdded(h: Header, v: View, q: AppRequest, v': View) {
    && NumKeys(q) <= 14 && h.appcount < 256
    && v'.apps == v.apps + [NewApp(q)]
    && v'.files == v.files
    && v'.keys <= v.keys + NewKeys(h.appcount, NumKeys(q))
    && |v'.keys| == (h.keycount + NumKeys(q)) % 256
  }

  lemma AppView(h: Header, m: seq<octet>, q: AppRequest, m': seq<octet>)
    requires Roomy(h, m, q) && q.aid < 0x100_0000 && q.isofid < 0x1_0000 && AppLaid(h, m, q, m')
    ensures Readable(AppHeader(h, q), m') && AppAdded(h, Parse(h, m), q, Parse(AppHeader(h, q), m'))
  {
    hide Put, Slice, EncodeApp, NewApp, NewKeys, AppTable, FileTable, KeyTable, KeyBytes, AppCost;
    AppsAfter(h, m, q, m');
    FilesAfter(h, m, q, m');
    KeysCounted(h, m, q, m', (h.keycount + NumKeys(q)) % 256);
  }

  lemma KeysCounted(h: Header, m: seq<octet>, q: AppRequest, m': seq<octet>, c: nat)
    requires Roomy(h, m, q) && AppLaid(h, m, q, m') && c <= h.keycount + NumKeys(q)
    ensures KeyTable(m', h.keyOff + APP_SIZE, c)
         <= KeyTable(m, h.keyOff, h.keycount) + NewKeys(h.appcount, NumKeys(q))
  {
    KeysAfter(h, m, q, m');
    KeysCut(m', h.keyOff + APP_SIZE, h.keycount + NumKeys(q), c);
  }

  // A successful CreateApplication adds the application and its keys to what
  // the image says, moves no file data and charges its cost; it keeps the image
  // well formed exactly when the card's keys still fit an 8-bit count.
  lemma AppCreateKeeps(h: Header, m: seq<octet>, q: AppRequest)
    requires WellFormed(h, m) && AppStatus(h, Parse(h, m), q) == Ok
    requires q.aid < 0x100_0000 && q.isofid < 0x1_0000
    ensures var h', m' := AppHeader(h, q), AppMemory(h, m, q);
      && Readable(h', m') && AppAdded(h, Parse(h, m), q, Parse(h', m'))
      && Slice(m', h.dataStart, |m| - h.dataStart) == Slice(m, h.dataStart, |m| - h.dataStart)
      && h'.dataStart == h.dataStart && h'.reserved == h.reserved + AppCost(q)
      && (WellFormed(h', m') <==> h.keycount + NumKeys(q) < 256)
  {
    var m' := AppMemory(h, m, q);
    AppPieces(h, m, q);
    AppView(h, m, q, m');
    AppKept(h, m, q, m');
  }

  lemma AppKept(h: Header, m: seq<octet>, q: AppRequest, m': seq<octet>)
    requires WellFormed(h, m) && Roomy(h, m, q) && !LiveApp(Parse(h, m).apps, q.aid) && |m'| == |m|
    requires Readable(AppHeader(h, q), m') && AppAdded(h, Parse(h, m), q, Parse(AppHeader(h, q), m'))
    ensures WellFormed(AppHeader(h, q), m') <==> h.keycount + NumKeys(q) < 256
  {
    if h.keycount + NumKeys(q) < 256 {
      var v, v' := Parse(h, m), Parse(AppHeader(h, q), m');
      assert v'.keys == v.keys + NewKeys(h.appcount, NumKeys(q));
      NewKeysUnique(v.keys, h.appcount, NumKeys(q));
      NewAppUnique(v.apps, NewApp(q));
    }
  }

  lemma NewKeysUnique(keys: seq<Key>, app: octet, n: nat)
    requires n <= 16 && KeysUnique(keys, app)
    ensures KeysUnique(keys + NewKeys(app, n), app + 1)
  {
  }

  lemma NewAppUnique(apps: seq<App>, a: App)
    requires AppsUnique(apps) && !LiveApp(apps, a.aid)
    ensures AppsUnique(apps + [a])
  {
  }
}
