// The emulated card's memory, as armsrc/desfiresim.c changes it in place:
// CreateApplication, Create*File, DeleteApplication, DeleteFile and FormatPICC.
module CardImage {
  import opened Octets
  import opened Image
  import opened Allocator
  import opened CreateApp
  import opened CreateFile
  import opened Tombstones

  // ---- FormatPICC as a function of the image

  function FormatAnswer(selected: nat, master: bool, forbidden: bool): Status {
    if !master || selected != 0 then AuthenticationError else if forbidden then PermissionDenied else Ok
  }

  function PiccKeys(keys: seq<Key>): (r: seq<Key>)
    ensures |r| <= |keys|
    ensures forall i :: 0 <= i < |r| ==> r[i].app == 0
  {
    if keys == [] then [] else
      var k := keys[|keys| - 1];
      PiccKeys(keys[..|keys| - 1]) + if k.app == 0 then [k] else []
  }

  // The key table starts directly behind the PICC's own entry.
  function EmptyOff(h: Header): nat { h.appOff + APP_SIZE }

  predicate Compactable(h: Header, m: seq<octet>) {
    Placed(h, m) && h.appcount >= 1
  }

  function Kept(h: Header, m: seq<octet>, i: nat): (r: nat)
    requires Compactable(h, m) && i <= h.keycount
    ensures r <= i
  {
    |PiccKeys(KeyTable(m, h.keyOff, i))|
  }

  // One pass of the loop: key i, if it is the PICC's own, goes behind those kept.
  function Compact(r: seq<octet>, off: nat, keep: nat, src: nat): (r': seq<octet>)
    requires off + KEY_SIZE * (keep + 1) <= |r| && src + KEY_SIZE <= |r|
    ensures |r'| == |r|
  {
    if KeyAt(r, src, 0).app != 0 then r else Put(r, off + KEY_SIZE * keep, Slice(r, src, KEY_SIZE))
  }

  // The memory after the first i keys have been looked at.
  function Compacted(h: Header, m: seq<octet>, i: nat): (r: seq<octet>)
    requires Compactable(h, m) && i <= h.keycount
    ensures |r| == |m|
  {
    if i == 0 then m
    else Compact(Compacted(h, m, i - 1), EmptyOff(h), Kept(h, m, i - 1), h.keyOff + KEY_SIZE * (i - 1))
  }

  function FormatHeader(h: Header, keep: nat): Header {
    h.(appcount := 1, filecount := 0, keycount := keep,
       fileOff := EmptyOff(h), keyOff := EmptyOff(h), tablesEnd := EmptyOff(h) + KEY_SIZE * keep,
       dataStart := h.size, reserved := 0)
  }

  lemma PiccSnoc(m: seq<octet>, off: nat, i: nat)
    requires off + KEY_SIZE * (i + 1) <= |m|
    ensures PiccKeys(KeyTable(m, off, i + 1))
         == PiccKeys(KeyTable(m, off, i)) + if KeyAt(m, off, i).app == 0 then [KeyAt(m, off, i)] else []
  {
    var keys := KeyTable(m, off, i + 1);
    assert keys[..i] == KeyTable(m, off, i);
  }

  // Copying forward over overlapping tables never clobbers a key not yet read:
  // the keys kept so far are in place and the unread ones are untouched.
  ghost predicate CompactedTo(h: Header, m: seq<octet>, i: nat, r: seq<octet>)
    requires Compactable(h, m) && i <= h.keycount
  {
    && |r| == |m|
    && Slice(r, 0, EmptyOff(h)) == Slice(m, 0, EmptyOff(h))
    && KeyTable(r, EmptyOff(h), Kept(h, m, i)) == PiccKeys(KeyTable(m, h.keyOff, i))
    && Slice(r, h.keyOff + KEY_SIZE * i, |m| - h.keyOff - KEY_SIZE * i)
      == Slice(m, h.keyOff + KEY_SIZE * i, |m| - h.keyOff - KEY_SIZE * i)
  }

  lemma KeyCopied(r: seq<octet>, off: nat, keep: nat, src: nat)
    requires off + KEY_SIZE * (keep + 1) <= |r| && src + KEY_SIZE <= |r|
    ensures var r' := Put(r, off + KEY_SIZE * keep, Slice(r, src, KEY_SIZE));
      KeyTable(r', off, keep + 1) == KeyTable(r, off, keep) + [DecodeKey(Slice(r, src, KEY_SIZE))]
  {
    var at, b := off + KEY_SIZE * keep, Slice(r, src, KEY_SIZE);
    var r' := Put(r, at, b);
    PutThere(r, at, b);
    PutElsewhere(r, at, b, off, KEY_SIZE * keep);
    KeysMoved(r, off, r', off, keep);
    KeysJoined(r', off, keep, 1);
    assert KeyTable(r', at, 1) == [KeyAt(r', at, 0)];
  }

  lemma CompactCopies(r: seq<octet>, off: nat, keep: nat, src: nat)
    requires off + KEY_SIZE * keep <= src && src + KEY_SIZE <= |r|
    ensures var r', rest := Compact(r, off, keep, src), |r| - src - KEY_SIZE;
      && Slice(r', 0, off) == Slice(r, 0, off)
      && Slice(r', src + KEY_SIZE, rest) == Slice(r, src + KEY_SIZE, rest)
      && KeyTable(r', off, keep) == KeyTable(r, off, keep)
      && (KeyAt(r, src, 0).app == 0 ==> KeyTable(r', off, keep + 1) == KeyTable(r, off, keep) + [KeyAt(r, src, 0)])
  {
    if KeyAt(r, src, 0).app == 0 {
      var at, b := off + KEY_SIZE * keep, Slice(r, src, KEY_SIZE);
      KeyCopied(r, off, keep, src);
      PutElsewhere(r, at, b, 0, off);
      PutElsewhere(r, at, b, src + KEY_SIZE, |r| - src - KEY_SIZE);
      KeysCut(Put(r, at, b), off, keep + 1, keep);
    }
  }

  lemma CompactStep(h: Header, m: seq<octet>, i: nat, r: seq<octet>)
    requires Compactable(h, m) && i < h.keycount && CompactedTo(h, m, i, r)
    ensures KeyAt(r, h.keyOff + KEY_SIZE * i, 0) == KeyAt(m, h.keyOff, i)
    ensures CompactedTo(h, m, i + 1, Compact(r, EmptyOff(h), Kept(h, m, i), h.keyOff + KEY_SIZE * i))
  {
    var src, rest := h.keyOff + KEY_SIZE * i, |m| - h.keyOff - KEY_SIZE * i;
    Within(r, src, m, src, rest, 0, KEY_SIZE);
    Within(r, src, m, src, rest, KEY_SIZE, rest - KEY_SIZE);
    assert KeyAt(r, src, 0) == KeyAt(m, h.keyOff, i);
    PiccSnoc(m, h.keyOff, i);
    CompactCopies(r, EmptyOff(h), Kept(h, m, i), src);
  }

  lemma {:induction false} CompactedKeeps(h: Header, m: seq<octet>, i: nat)
    requires Compactable(h, m) && i <= h.keycount
    ensures CompactedTo(h, m, i, Compacted(h, m, i))
  {
    hide Put, Slice, DecodeKey;
    if i > 0 {
      CompactedKeeps(h, m, i - 1);
      CompactStep(h, m, i - 1, Compacted(h, m, i - 1));
    }
  }

  lemma {:induction false} PiccKeysUnique(keys: seq<Key>, n: nat)
    requires KeysUnique(keys, n)
    ensures KeysUnique(PiccKeys(keys), 1)
    ensures forall k :: k in PiccKeys(keys) ==> k in keys
  {
    if keys != [] {
      var init, last := keys[..|keys| - 1], keys[|keys| - 1];
      PiccKeysUnique(init, n);
      var r := PiccKeys(init);
      forall i | 0 <= i < |r| ensures r[i].num != last.num || last.app != 0 {
        assert r[i] in init;
      }
    }
  }

  // FormatPICC leaves the PICC with exactly its own keys, in order, no files
  // and all of its memory, whatever the tables held before.
  lemma FormatKeeps(h: Header, m: seq<octet>)
    requires WellFormed(h, m)
    ensures var h', m' := FormatHeader(h, Kept(h, m, h.keycount)), Compacted(h, m, h.keycount);
      && WellFormed(h', m')
      && Parse(h', m') == View([Parse(h, m).apps[0]], [], PiccKeys(Parse(h, m).keys))
      && h'.dataStart == h'.size && h'.reserved == 0
  {
    var m' := Compacted(h, m, h.keycount);
    CompactedKeeps(h, m, h.keycount);
    Within(m, 0, m', 0, EmptyOff(h), h.appOff, APP_SIZE);
    AppsMoved(m, h.appOff, m', h.appOff, 1);
    assert AppTable(m, h.appOff, 1) == [AppTable(m, h.appOff, h.appcount)[0]];
    PiccKeysUnique(Parse(h, m).keys, h.appcount);
  }

  // ---- the card

  class Card {
    const mem: array<octet>
    var hdr: Header
    var selected: nat

    ghost predicate Valid()
      reads this, mem
    {
      Placed(hdr, mem[..]) && Counted(hdr) && selected < hdr.appcount
    }

    // memmove, memcpy and memset
    method Move(dst: nat, src: nat, n: nat)
      requires dst + n <= mem.Length && src + n <= mem.Length
      modifies mem
      ensures mem[..] == Put(old(mem[..]), dst, Slice(old(mem[..]), src, n))
    {
      forall k | 0 <= k < n {
        mem[dst + k] := mem[src + k];
      }
    }

    method Store(at: nat, b: seq<octet>)
      requires at + |b| <= mem.Length
      modifies mem
      ensures mem[..] == Put(old(mem[..]), at, b)
    {
      forall k | 0 <= k < |b| {
        mem[at + k] := b[k];
      }
    }

    // desfire_sim_find_app; hdr.appcount when there is none
    method FindApp(aid: nat) returns (i: nat)
      requires Valid()
      ensures i == FirstLive(Parse(hdr, mem[..]).apps, aid, 0)
    {
      i := 0;
      ghost var apps := Parse(hdr, mem[..]).apps;
      while i < hdr.appcount
        invariant i <= hdr.appcount
        invariant FirstLive(apps, aid, 0) == FirstLive(apps, aid, i)
      {
        var a := AppAt(mem[..], hdr.appOff, i);
        assert a == apps[i];
        if !AppDeleted(a) && a.aid == aid {
          return;
        }
        i := i + 1;
      }
    }

    // `master`: a session with key 0 of the selected application is open.
    method CreateApplication(frame: seq<octet>, master: bool) returns (status: Status)
      requires Valid()
      modifies this`hdr, mem
      ensures status == AppAnswer(old(hdr), old(Parse(hdr, mem[..])), selected, master, frame)
      ensures status == Ok ==>
        |frame| >= 5 && hdr == AppHeader(old(hdr), ParseApp(frame)) && mem[..] == AppMemory(old(hdr), old(mem[..]), ParseApp(frame))
      ensures status != Ok ==> hdr == old(hdr) && mem[..] == old(mem[..])
    {
      hide ParseApp;
      if selected != 0 {
        return PermissionDenied;
      }
      if |frame| < 5 {
        return WrongLength;
      }
      var picc := AppAt(mem[..], hdr.appOff, 0);
      if picc.keysettings / 4 % 2 == 0 && !master {
        return AuthenticationError;
      }
      var q := ParseApp(frame);
      if q.aid == 0 {
        return ParameterError;
      }
      var found := FindApp(q.aid);
      FirstLiveIsLive(Parse(hdr, mem[..]).apps, q.aid);
      if found < hdr.appcount {
        return Duplicate;
      }
      status := AppCreate(q);
    }

    // desfire_sim_app_create
    method AppCreate(q: AppRequest) returns (status: Status)
      requires Valid()
      modifies this`hdr, mem
      ensures status == RoomForApp(old(hdr), q)
      ensures status == Ok ==> hdr == AppHeader(old(hdr), q) && mem[..] == AppMemory(old(hdr), old(mem[..]), q)
      ensures status != Ok ==> hdr == old(hdr) && mem[..] == old(mem[..])
    {
      status := RoomForApp(hdr, q);
      if status != Ok {
        return;
      }
      Insert(hdr.fileOff, hdr.tablesEnd, EncodeApp(NewApp(q)));
      AddKeys(hdr.tablesEnd + APP_SIZE, hdr.appcount, NumKeys(q));
      hdr := AppHeader(hdr, q);
    }

    // Open a gap, put an entry in it.
    method Insert(at: nat, te: nat, entry: seq<octet>)
      requires at <= te && te + APP_SIZE <= mem.Length && |entry| == APP_SIZE
      modifies mem
      ensures mem[..] == Inserted(te, old(mem[..]), at, entry)
    {
      GapThenEntry(te, mem[..], at, entry);
      Move(at + APP_SIZE, at, te - at);
      Store(at, entry);
    }

    method AddKeys(at: nat, app: octet, n: nat)
      requires n <= 256 && at + KEY_SIZE * n <= mem.Length
      modifies mem
      ensures mem[..] == Put(old(mem[..]), at, KeyBytes(app, n))
    {
      var i := 0;
      while i < n
        invariant i <= n && mem[..] == Put(old(mem[..]), at, KeyBytes(app, i))
      {
        Store(at + KEY_SIZE * i, EncodeKey(NewKey(app, i)));
        PutOnward(old(mem[..]), at, KeyBytes(app, i), EncodeKey(NewKey(app, i)));
        i := i + 1;
      }
    }

    // desfire_sim_find_file; hdr.filecount when there is none
    method FindFile(num: nat) returns (i: nat)
      requires Valid()
      ensures i == (if Finds(Parse(hdr, mem[..]).files, selected, num)
                    then FirstFile(Parse(hdr, mem[..]).files, selected, num, 0) else hdr.filecount)
    {
      i := 0;
      ghost var files := Parse(hdr, mem[..]).files;
      while i < hdr.filecount
        invariant i <= hdr.filecount
        invariant FirstFile(files, selected, num, 0) == FirstFile(files, selected, num, i)
      {
        var f := FileAt(mem[..], hdr.fileOff, i);
        assert f == files[i];
        if Matches(f, selected, num) {
          return if FileDeleted(f) then hdr.filecount else i;
        }
        i := i + 1;
      }
    }

    // desfire_sim_file_create
    method FileCreate(q: FileRequest) returns (status: Status)
      requires Valid() && FitsWidths(q)
      modifies this`hdr, mem
      ensures status == FileStatus(old(hdr), old(Parse(hdr, mem[..]).files), selected, q)
      ensures status == Ok ==>
        && FileRoom(old(hdr), old(mem[..]), selected, q)
        && hdr == FileHeader(old(hdr), q) && mem[..] == FileMemory(old(hdr), old(mem[..]), selected, q)
      ensures status != Ok ==> hdr == old(hdr) && mem[..] == old(mem[..])
    {
      if selected == 0 {
        return PermissionDenied;
      }
      if q.num > 0x1F {
        return ParameterError;
      }
      if hdr.filecount >= MAX_FILES {
        return OutOfEeprom;
      }
      var found := FindFile(q.num);
      if found < hdr.filecount {
        return Duplicate;
      }
      status := RoomForFile(hdr, q);
      if status == Ok {
        GuardsHold(hdr, q);
        FileEnter(q);
      }
    }

    method FileEnter(q: FileRequest)
      requires Valid() && FileRoom(hdr, mem[..], selected, q)
      modifies this`hdr, mem
      ensures hdr == FileHeader(old(hdr), q) && mem[..] == FileMemory(old(hdr), old(mem[..]), selected, q)
    {
      hide Put, Slice, EncodeFile;
      Insert(hdr.keyOff, hdr.tablesEnd, EncodeFile(NewFile(hdr, selected, q)));
      Store(hdr.dataStart - Reserve(q), Zeros(Reserve(q)));
      hdr := FileHeader(hdr, q);
    }

    // The Create*File commands
    method CreateFile(cmd: octet, frame: seq<octet>, master: bool) returns (status: Status)
      requires Valid()
      modifies this`hdr, mem
      ensures status == FileAnswer(old(hdr), old(Parse(hdr, mem[..])), selected, master, cmd, frame)
      ensures status == Ok ==>
        var q := Asked(old(Parse(hdr, mem[..])), selected, cmd, frame);
        && FileRoom(old(hdr), old(mem[..]), selected, q)
        && hdr == FileHeader(old(hdr), q) && mem[..] == FileMemory(old(hdr), old(mem[..]), selected, q)
      ensures status != Ok ==> hdr == old(hdr) && mem[..] == old(mem[..])
    {
      hide ParseFile, FrameLength, Sensible, FileStatus;
      if selected == 0 {
        return PermissionDenied;
      }
      var app := AppAt(mem[..], hdr.appOff, selected);
      if app.keysettings / 4 % 2 == 0 && !master {
        return AuthenticationError;
      }
      var kind, isofids := KindOf(cmd), UsesIsoFids(app);
      if |frame| != FrameLength(kind, isofids) {
        return WrongLength;
      }
      var q := ParseFile(kind, isofids, frame);
      if !Sensible(q) {
        return ParameterError;
      }
      status := FileCreate(q);
    }

    method DeleteFile(frame: seq<octet>, master: bool) returns (status: Status)
      requires Valid()
      modifies mem
      ensures var v := old(Parse(hdr, mem[..]));
        && status == DeleteFileAnswer(v, selected, master, frame)
        && (status != Ok ==> mem[..] == old(mem[..]))
        && (status == Ok ==>
          |frame| >= 1 && mem[..] == FileKilled(hdr, old(mem[..]), FirstFile(v.files, selected, frame[0], 0)))
    {
      hide Put, Slice, DecodeFile, DecodeApp;
      if |frame| < 1 {
        return WrongLength;
      }
      if selected == 0 {
        return PermissionDenied;
      }
      var app := AppAt(mem[..], hdr.appOff, selected);
      if app.keysettings / 4 % 2 == 0 && !master {
        return AuthenticationError;
      }
      var i := FindFile(frame[0]);
      if i == hdr.filecount {
        return NoSuchFile;
      }
      KillFile(i);
      status := Ok;
    }

    method KillFile(i: nat)
      requires Valid() && i < hdr.filecount
      modifies mem
      ensures mem[..] == FileKilled(hdr, old(mem[..]), i) && Valid()
    {
      hide Put, Slice, DecodeFile;
      Store(FlagsAt(hdr.fileOff, i), [DeadFile(FileAt(mem[..], hdr.fileOff, i)).flags]);
    }

    method DeleteApplication(frame: seq<octet>, master: bool) returns (status: Status)
      requires Valid()
      modifies this`selected, mem
      ensures var v, i := old(Parse(hdr, mem[..])), FirstLive(old(Parse(hdr, mem[..])).apps, AidOf(frame), 0);
        && status == DeleteAppAnswer(v, old(selected), master, frame)
        && (status == Ok ==> i < hdr.appcount && mem[..] == AppDeletedMemory(hdr, old(mem[..]), i))
        && (status == Ok ==> selected == if old(selected) == i then 0 else old(selected))
        && (status != Ok ==> mem[..] == old(mem[..]) && selected == old(selected))
    {
      hide Put, Slice, DecodeApp, DecodeFile, AppKilled, FilesKilled;
      if |frame| < 3 {
        return WrongLength;
      }
      var aid := AidOf(frame);
      if aid == 0 {
        return ParameterError;
      }
      var i := FindApp(aid);
      if i == hdr.appcount {
        return NoSuchApplication;
      }
      var picc := AppAt(mem[..], hdr.appOff, 0);
      assert picc == Parse(hdr, mem[..]).apps[0];
      if !(master && (selected == 0 || (selected == i && picc.keysettings / 4 % 2 == 1))) {
        return AuthenticationError;
      }
      KillApp(i);
      if selected == i {
        selected := 0;
      }
      status := Ok;
    }

    method SelectApplication(frame: seq<octet>) returns (status: Status)
      requires Valid()
      modifies this`selected
      ensures status == SelectAnswer(Parse(hdr, mem[..]), frame)
      ensures selected == if status == Ok then FirstLive(Parse(hdr, mem[..]).apps, AidOf(frame), 0) else old(selected)
    {
      if |frame| < 3 {
        return WrongLength;
      }
      var i := FindApp(AidOf(frame));
      if i == hdr.appcount {
        return NoSuchApplication;
      }
      selected := i;
      status := Ok;
    }

    // The entry first, then every file of it.
    method KillApp(idx: nat)
      requires Valid() && idx < hdr.appcount
      modifies mem
      ensures mem[..] == AppDeletedMemory(hdr, old(mem[..]), idx) && Valid()
    {
      hide Put, Slice, DecodeApp, DecodeFile, FileKilled;
      Store(FlagsAt(hdr.appOff, idx), [DeadApp(AppAt(mem[..], hdr.appOff, idx)).flags]);
      ghost var m := mem[..];
      var i := 0;
      while i < hdr.filecount
        invariant i <= hdr.filecount && Valid()
        invariant mem[..] == FilesKilled(hdr, m, idx, i)
      {
        if FileAt(mem[..], hdr.fileOff, i).app == idx {
          KillFile(i);
        }
        i := i + 1;
      }
    }

    method CompactKey(dst: nat, keep: nat, src: nat) returns (kept: bool)
      requires dst + KEY_SIZE * (keep + 1) <= mem.Length && src + KEY_SIZE <= mem.Length
      modifies mem
      ensures mem[..] == Compact(old(mem[..]), dst, keep, src)
      ensures kept <==> old(KeyAt(mem[..], src, 0)).app == 0
    {
      kept := mem[src] == 0;
      if kept {
        Move(dst + KEY_SIZE * keep, src, KEY_SIZE);
      }
    }

    // FormatPICC; `forbidden` is the header flag that switches it off.
    method FormatPicc(master: bool, forbidden: bool) returns (status: Status)
      requires Valid()
      modifies this, mem
      ensures status == FormatAnswer(old(selected), master, forbidden)
      ensures status == Ok ==>
        && hdr == FormatHeader(old(hdr), Kept(old(hdr), old(mem[..]), old(hdr).keycount))
        && mem[..] == Compacted(old(hdr), old(mem[..]), old(hdr).keycount) && selected == 0
      ensures status != Ok ==> hdr == old(hdr) && mem[..] == old(mem[..]) && selected == old(selected)
    {
      hide Compacted, Kept;
      if !master || selected != 0 {
        return AuthenticationError;
      }
      if forbidden {
        return PermissionDenied;
      }
      Format();
      status := Ok;
    }

    // desfire_sim_format
    method Format()
      requires Valid()
      modifies this, mem
      ensures hdr == FormatHeader(old(hdr), Kept(old(hdr), old(mem[..]), old(hdr).keycount))
      ensures mem[..] == Compacted(old(hdr), old(mem[..]), old(hdr).keycount)
      ensures selected == 0
    {
      hide Put, Slice, DecodeKey, KeyTable, PiccKeys;
      ghost var m := mem[..];
      var dst := EmptyOff(hdr);
      var keep := 0;
      var i := 0;
      while i < hdr.keycount
        invariant i <= hdr.keycount && hdr == old(hdr)
        invariant keep == Kept(hdr, m, i) && mem[..] == Compacted(hdr, m, i)
      {
        CompactedKeeps(hdr, m, i);
        CompactStep(hdr, m, i, mem[..]);
        PiccSnoc(m, hdr.keyOff, i);
        var kept := CompactKey(dst, keep, hdr.keyOff + KEY_SIZE * i);
        keep := if kept then keep + 1 else keep;
        i := i + 1;
      }
      hdr := FormatHeader(hdr, keep);
      selected := 0;
    }
  }
}
