// The transaction commands of armsrc/desfiresim.c on the image itself: each one
// does to the files what the module Transactions says, and nothing else.
module TransactionCommands {
  import opened Wrappers
  import opened Octets
  import opened Image
  import opened Allocator
  import opened CreateFile
  import opened CardImage
  import opened Transactions

  // Only files changed.
  ghost predicate Becomes(h: Header, m: seq<octet>, s: Store, m': seq<octet>, s': Store) {
    && Intact(h, m) && Intact(h, m')
    && StoreOf(h, m) == s && StoreOf(h, m') == s'
    && Parse(h, m').apps == Parse(h, m).apps && Parse(h, m').keys == Parse(h, m).keys
  }

  function MarkedImage(h: Header, m: seq<octet>, i: nat): (r: seq<octet>)
    requires Placed(h, m) && i < h.filecount
    requires var f := FileAt(m, h.fileOff, i);
      f.dataoff + f.datalen <= |m| && f.shadowOff + f.datalen <= |m|
    ensures |r| == |m|
  {
    var f := FileAt(m, h.fileOff, i);
    Put(Put(m, f.shadowOff, Slice(m, f.dataoff, f.datalen)), FlagsAt(h.fileOff, i), [SetDirty(f.flags)])
  }

  lemma MarkImage(h: Header, m: seq<octet>, i: nat)
    requires Intact(h, m) && i < h.filecount
    requires Backed(FileAt(m, h.fileOff, i)) && !Dirty(FileAt(m, h.fileOff, i))
    ensures var f := FileAt(m, h.fileOff, i);
      && f.dataoff + f.datalen <= |m| && f.shadowOff + f.datalen <= |m|
      && Becomes(h, m, StoreOf(h, m), MarkedImage(h, m, i), Marked(StoreOf(h, m), i))
  {
    hide Put, Slice, DecodeApp, DecodeFile, DecodeKey, Dirty, SetDirty;
    Reaching(h, m);
    var f := Parse(h, m).files[i];
    assert f == FileAt(m, h.fileOff, i);
    assert Inside(f, h.dataStart, |m|);
    var b := Slice(m, f.dataoff, f.datalen);
    var m1 := Put(m, f.shadowOff, b);
    ShadowWrite(h, m, i, 0, b);
    PutAll(StoreOf(h, m).shadow[i], b);
    FlagWrite(h, m1, i, SetDirty(f.flags));
    DirtySet(f);
  }

  lemma LandData(h: Header, m: seq<octet>, i: nat, off: nat, b: seq<octet>)
    requires Intact(h, m) && i < h.filecount && !Backed(FileAt(m, h.fileOff, i))
    requires Writable(StoreOf(h, m), i, off, b)
    ensures var at := FileAt(m, h.fileOff, i).dataoff + off;
      at + |b| <= |m| && Becomes(h, m, StoreOf(h, m), Put(m, at, b), Landed(StoreOf(h, m), i, off, b))
  {
    hide Put, Slice, DecodeApp, DecodeFile, DecodeKey, Dirty;
    Reaching(h, m);
    assert Inside(Parse(h, m).files[i], h.dataStart, |m|);
    DataWrite(h, m, i, off, b);
  }

  lemma LandShadow(h: Header, m: seq<octet>, i: nat, off: nat, b: seq<octet>)
    requires Intact(h, m) && i < h.filecount && Backed(FileAt(m, h.fileOff, i))
    requires Writable(StoreOf(h, m), i, off, b)
    ensures var at := FileAt(m, h.fileOff, i).shadowOff + off;
      at + |b| <= |m| && Becomes(h, m, StoreOf(h, m), Put(m, at, b), Landed(StoreOf(h, m), i, off, b))
  {
    hide Put, Slice, DecodeApp, DecodeFile, DecodeKey, Dirty;
    Reaching(h, m);
    assert Inside(Parse(h, m).files[i], h.dataStart, |m|);
    ShadowWrite(h, m, i, off, b);
  }

  lemma KnowImage(h: Header, m: seq<octet>, i: nat)
    requires Intact(h, m) && i < h.filecount
    ensures Becomes(h, m, StoreOf(h, m),
      Put(m, FlagsAt(h.fileOff, i), [ClearUnknown(FileAt(m, h.fileOff, i).flags)]), Known(StoreOf(h, m), i))
  {
    hide Put, Slice, DecodeApp, DecodeFile, DecodeKey, Dirty, ClearUnknown, Unknown;
    var f := Parse(h, m).files[i];
    FlagWrite(h, m, i, ClearUnknown(f.flags));
    UnknownCleared(f);
  }

  // desfire_sim_mark_dirty
  method MarkDirty(c: Card, i: nat)
    requires Intact(c.hdr, c.mem[..]) && i < c.hdr.filecount
    modifies c.mem
    ensures Becomes(c.hdr, old(c.mem[..]), old(StoreOf(c.hdr, c.mem[..])),
                    c.mem[..], Marked(old(StoreOf(c.hdr, c.mem[..])), i))
  {
    hide Put, Slice, DecodeApp, DecodeFile, DecodeKey, Dirty, SetDirty, StoreOf;
    var f := FileAt(c.mem[..], c.hdr.fileOff, i);
    if !Backed(f) || Dirty(f) {
      return;
    }
    MarkImage(c.hdr, c.mem[..], i);
    c.Move(f.shadowOff, f.dataoff, f.datalen);
    c.Store(FlagsAt(c.hdr.fileOff, i), [SetDirty(f.flags)]);
  }

  // The write region takes the bytes, and the contents are known from here on.
  method Land(c: Card, i: nat, off: nat, b: seq<octet>)
    requires Intact(c.hdr, c.mem[..]) && i < c.hdr.filecount
    requires Writable(StoreOf(c.hdr, c.mem[..]), i, off, b)
    modifies c.mem
    ensures Becomes(c.hdr, old(c.mem[..]), old(StoreOf(c.hdr, c.mem[..])),
                    c.mem[..], Known(Landed(old(StoreOf(c.hdr, c.mem[..])), i, off, b), i))
  {
    hide Put, Slice, DecodeApp, DecodeFile, DecodeKey, Dirty, StoreOf, ClearUnknown;
    var f := FileAt(c.mem[..], c.hdr.fileOff, i);
    if Backed(f) {
      LandShadow(c.hdr, c.mem[..], i, off, b);
      c.Store(f.shadowOff + off, b);
    } else {
      LandData(c.hdr, c.mem[..], i, off, b);
      c.Store(f.dataoff + off, b);
    }
    KnowImage(c.hdr, c.mem[..], i);
    c.Store(FlagsAt(c.hdr.fileOff, i), [ClearUnknown(FileAt(c.mem[..], c.hdr.fileOff, i).flags)]);
  }

  datatype Answer = Done | FileNotFound | Refused | LengthError | BoundaryError

  // What WriteData answers; len is how many bytes came behind the header.
  function WriteAnswer(files: seq<File>, app: nat, num: nat, off: nat, n: nat, len: nat): Answer {
    var i := FirstFile(files, app, num, 0);
    if !Finds(files, app, num) then FileNotFound
    else if files[i].kind > 1 then Refused
    else if len < n then LengthError
    else if off + n > files[i].w0 || off + n > files[i].datalen then BoundaryError
    else Done
  }

  method WriteData(c: Card, num: nat, off: nat, n: nat, payload: seq<octet>) returns (answer: Answer)
    requires Intact(c.hdr, c.mem[..]) && c.Valid()
    modifies c.mem
    ensures var s, i := old(StoreOf(c.hdr, c.mem[..])), FirstFile(old(Parse(c.hdr, c.mem[..])).files, c.selected, num, 0);
      && answer == WriteAnswer(s.files, c.selected, num, off, n, |payload|)
      && (answer != Done ==> c.mem[..] == old(c.mem[..]))
      && (answer == Done ==>
        Becomes(c.hdr, old(c.mem[..]), s, c.mem[..], Written(s, i, off, payload[..n])))
  {
    hide Put, Slice, DecodeApp, DecodeFile, DecodeKey, Dirty, StoreOf;
    var i := c.FindFile(num);
    if i == c.hdr.filecount {
      return FileNotFound;
    }
    var f := FileAt(c.mem[..], c.hdr.fileOff, i);
    if f.kind > 1 {
      return Refused;
    }
    if |payload| < n {
      return LengthError;
    }
    if off + n > f.w0 || off + n > f.datalen {
      return BoundaryError;
    }
    MarkDirty(c, i);
    Land(c, i, off, payload[..n]);
    answer := Done;
  }

  function Moved(s: Store, i: nat): (r: Store)
    requires Aligned(s) && i < |s.files| && HasShadow(s.files[i])
    ensures Aligned(r)
  {
    Store(Reflagged(s.files, i, ClearDirty(s.files[i].flags)), s.data[i := s.shadow[i]], s.shadow)
  }

  function CommittedImage(h: Header, m: seq<octet>, i: nat): (r: seq<octet>)
    requires Placed(h, m) && i < h.filecount
    requires var f := FileAt(m, h.fileOff, i);
      f.dataoff + f.datalen <= |m| && f.shadowOff + f.datalen <= |m|
    ensures |r| == |m|
  {
    var f := FileAt(m, h.fileOff, i);
    Put(Put(m, f.dataoff, Slice(m, f.shadowOff, f.datalen)), FlagsAt(h.fileOff, i), [ClearDirty(f.flags)])
  }

  lemma CommitReach(h: Header, m: seq<octet>, i: nat)
    requires Intact(h, m) && i < h.filecount && Dirty(FileAt(m, h.fileOff, i))
    ensures var f := FileAt(m, h.fileOff, i);
      && f == StoreOf(h, m).files[i] && HasShadow(f)
      && f.dataoff + f.datalen <= |m| && f.shadowOff + f.datalen <= |m|
  {
    hide Put, Slice, DecodeApp, DecodeFile, DecodeKey, Dirty, ClearDirty, Unknown;
    Reaching(h, m);
    var f := Parse(h, m).files[i];
    assert Backed(f);
    assert Inside(f, h.dataStart, |m|);
  }

  lemma CommitImage(h: Header, m: seq<octet>, i: nat)
    requires Intact(h, m) && i < h.filecount && Dirty(FileAt(m, h.fileOff, i))
    requires var f := FileAt(m, h.fileOff, i);
      HasShadow(f) && f.dataoff + f.datalen <= |m| && f.shadowOff + f.datalen <= |m|
    requires HasShadow(StoreOf(h, m).files[i])
    ensures Becomes(h, m, StoreOf(h, m), CommittedImage(h, m, i), Moved(StoreOf(h, m), i))
  {
    hide Put, Slice, DecodeApp, DecodeFile, DecodeKey, Dirty, ClearDirty, Unknown;
    Reaching(h, m);
    var f := Parse(h, m).files[i];
    var b := Slice(m, f.shadowOff, f.datalen);
    DataWrite(h, m, i, 0, b);
    PutAll(StoreOf(h, m).data[i], b);
    FlagWrite(h, Put(m, f.dataoff, b), i, ClearDirty(f.flags));
    DirtyCleared(f);
  }

  method CommitFile(c: Card, i: nat)
    requires Intact(c.hdr, c.mem[..]) && i < c.hdr.filecount && Dirty(FileAt(c.mem[..], c.hdr.fileOff, i))
    requires HasShadow(StoreOf(c.hdr, c.mem[..]).files[i])
    modifies c.mem
    ensures Becomes(c.hdr, old(c.mem[..]), old(StoreOf(c.hdr, c.mem[..])),
                    c.mem[..], Moved(old(StoreOf(c.hdr, c.mem[..])), i))
  {
    hide Put, Slice, DecodeApp, DecodeFile, DecodeKey, Dirty, ClearDirty, StoreOf, Moved;
    CommitReach(c.hdr, c.mem[..], i);
    CommitImage(c.hdr, c.mem[..], i);
    var f := FileAt(c.mem[..], c.hdr.fileOff, i);
    c.Move(f.dataoff, f.shadowOff, f.datalen);
    c.Store(FlagsAt(c.hdr.fileOff, i), [ClearDirty(f.flags)]);
  }

  lemma CommitOne(s: Store, app: nat, n: nat)
    requires Aligned(s) && Sane(s.files) && n < |s.files|
    ensures var r, f := CommittedTo(s, app, n), s.files[n];
      && r.files[n] == f && HasShadow(f) == HasShadow(r.files[n])
      && (Dirty(f) ==> HasShadow(f))
      && CommittedTo(s, app, n + 1) == if f.app == app && Dirty(f) then Moved(r, n) else r
  {
    hide Put, Dirty, ClearDirty;
  }

  // desfire_sim_commit
  method CommitTransaction(c: Card)
    requires Intact(c.hdr, c.mem[..])
    modifies c.mem
    ensures var s := old(StoreOf(c.hdr, c.mem[..]));
      Becomes(c.hdr, old(c.mem[..]), s, c.mem[..], CommittedTo(s, c.selected, |s.files|))
  {
    hide Put, Slice, DecodeApp, DecodeFile, DecodeKey, Dirty, ClearDirty, CommittedTo, Moved;
    ghost var m, s := c.mem[..], StoreOf(c.hdr, c.mem[..]);
    assert CommittedTo(s, c.selected, 0) == s by { CommitNone(s, c.selected); }
    var i := 0;
    while i < c.hdr.filecount
      invariant i <= c.hdr.filecount
      invariant Becomes(c.hdr, m, s, c.mem[..], CommittedTo(s, c.selected, i))
    {
      CommitOne(s, c.selected, i);
      var f := FileAt(c.mem[..], c.hdr.fileOff, i);
      assert f == s.files[i];
      if f.app == c.selected && Dirty(f) {
        CommitFile(c, i);
      }
      i := i + 1;
    }
  }

  lemma CommitNone(s: Store, app: nat)
    requires Aligned(s) && Sane(s.files)
    ensures CommittedTo(s, app, 0) == s
  {
  }

  lemma AbortOne(s: Store, app: nat, n: nat)
    requires Aligned(s) && n < |s.files|
    ensures var r, f := AbortedTo(s, app, n), s.files[n];
      && r.files[n] == f
      && AbortedTo(s, app, n + 1) == if f.app == app then r.(files := Reflagged(r.files, n, ClearDirty(f.flags))) else r
  {
    hide Put, Dirty, ClearDirty;
  }

  lemma AbortNone(s: Store, app: nat)
    requires Aligned(s)
    ensures AbortedTo(s, app, 0) == s
  {
  }

  method AbortFile(c: Card, i: nat)
    requires Intact(c.hdr, c.mem[..]) && i < c.hdr.filecount
    modifies c.mem
    ensures var s := old(StoreOf(c.hdr, c.mem[..]));
      Becomes(c.hdr, old(c.mem[..]), s, c.mem[..], s.(files := Reflagged(s.files, i, ClearDirty(s.files[i].flags))))
  {
    hide Put, Slice, DecodeApp, DecodeFile, DecodeKey, Dirty, ClearDirty, Unknown;
    var f := FileAt(c.mem[..], c.hdr.fileOff, i);
    FlagWrite(c.hdr, c.mem[..], i, ClearDirty(f.flags));
    DirtyCleared(f);
    c.Store(FlagsAt(c.hdr.fileOff, i), [ClearDirty(f.flags)]);
  }

  // desfire_sim_abort
  method AbortTransaction(c: Card)
    requires Intact(c.hdr, c.mem[..])
    modifies c.mem
    ensures var s := old(StoreOf(c.hdr, c.mem[..]));
      Becomes(c.hdr, old(c.mem[..]), s, c.mem[..], AbortedTo(s, c.selected, |s.files|))
  {
    hide Put, Slice, DecodeApp, DecodeFile, DecodeKey, Dirty, ClearDirty, AbortedTo, Reflagged, StoreOf;
    ghost var m, s := c.mem[..], StoreOf(c.hdr, c.mem[..]);
    AbortNone(s, c.selected);
    var i := 0;
    while i < c.hdr.filecount
      invariant i <= c.hdr.filecount
      invariant Becomes(c.hdr, m, s, c.mem[..], AbortedTo(s, c.selected, i))
    {
      AbortOne(s, c.selected, i);
      var f := FileAt(c.mem[..], c.hdr.fileOff, i);
      assert f == s.files[i];
      if f.app == c.selected {
        AbortFile(c, i);
      }
      i := i + 1;
    }
  }

  // What ReadData answers, `allowed` being what the rights say: only data files
  // are read so, length 0 reads to the end, and nothing past the region is served.
  function ReadAnswer(s: Store, app: nat, num: nat, off: nat, len: nat, allowed: bool): Answer {
    var i := FirstFile(s.files, app, num, 0);
    if !Finds(s.files, app, num) then FileNotFound
    else if s.files[i].kind > 1 || !allowed then Refused
    else if Unknown(s.files[i]) then FileNotFound
    else if off > s.files[i].w0 then BoundaryError
    else if off + (if len == 0 then s.files[i].w0 - off else len) > s.files[i].w0 then BoundaryError
    else Done
  }

  // ReadData in one piece: what is served are committed bytes, whatever is
  // pending.
  method ReadData(c: Card, num: nat, off: nat, len: nat, allowed: bool) returns (answer: Answer, data: seq<octet>)
    requires Intact(c.hdr, c.mem[..]) && c.Valid()
    ensures var s, i := StoreOf(c.hdr, c.mem[..]), FirstFile(Parse(c.hdr, c.mem[..]).files, c.selected, num, 0);
      && answer == ReadAnswer(s, c.selected, num, off, len, allowed)
      && (answer == Done ==> data == Served(s, i, off, len))
  {
    hide Put, Slice, DecodeApp, DecodeFile, DecodeKey, Unknown;
    data := [];
    var i := c.FindFile(num);
    if i == c.hdr.filecount {
      return FileNotFound, data;
    }
    var f := FileAt(c.mem[..], c.hdr.fileOff, i);
    if f.kind > 1 || !allowed {
      return Refused, data;
    }
    if Unknown(f) {
      return FileNotFound, data;
    }
    if off > f.w0 {
      return BoundaryError, data;
    }
    var n := if len == 0 then f.w0 - off else len;
    if off + n > f.w0 {
      return BoundaryError, data;
    }
    Reaching(c.hdr, c.mem[..]);
    var region := Slice(c.mem[..], f.dataoff, f.datalen);
    answer, data := Done, Clip(region, off, n);
  }

  function Clip(s: seq<octet>, off: nat, n: nat): seq<octet> {
    if off >= |s| then [] else if off + n > |s| then s[off..] else s[off..off + n]
  }

  function Served(s: Store, i: nat, off: nat, len: nat): seq<octet>
    requires Aligned(s) && i < |s.files| && off <= s.files[i].w0
  {
    Clip(s.data[i], off, if len == 0 then s.files[i].w0 - off else len)
  }

  // ---- value files

  // desfire_sim_value_set: the value itself is not part of the transaction.
  function Valued(s: Store, i: nat, v: nat): (r: Store)
    requires Aligned(s) && i < |s.files|
    ensures Aligned(r)
  {
    var t := Marked(s, i);
    t.(files := t.files[i := t.files[i].(w2 := v)])
  }

  lemma ValueImage(h: Header, m: seq<octet>, i: nat, v: nat)
    requires Intact(h, m) && i < h.filecount && v < U32
    ensures LastWordAt(h.fileOff, i) + 4 <= |m|
    ensures var s := StoreOf(h, m);
      Becomes(h, m, s, Put(m, LastWordAt(h.fileOff, i), Digits(v, 4)), s.(files := s.files[i := s.files[i].(w2 := v)]))
  {
    hide Put, Slice, DecodeApp, DecodeFile, DecodeKey, Contents, FilesApart, Reachable, Digits;
    var at, b := LastWordAt(h.fileOff, i), Digits(v, 4);
    var m' := Put(m, at, b);
    var files := Parse(h, m).files;
    Reaching(h, m);
    PutElsewhere(m, at, b, h.appOff, APP_SIZE * h.appcount);
    PutElsewhere(m, at, b, h.keyOff, KEY_SIZE * h.keycount);
    AppsMoved(m, h.appOff, m', h.appOff, h.appcount);
    KeysMoved(m, h.keyOff, m', h.keyOff, h.keycount);
    LastWordWritten(m, h.fileOff, h.filecount, i, v);
    TablePut(files, m, h.dataStart, at, b);
    SameReach(files, m, m');
    SameRegionsValued(files, i, v, m', h.dataStart, h.size);
  }

  lemma SameRegionsValued(files: seq<File>, i: nat, v: nat, m: seq<octet>, lo: nat, hi: nat)
    requires Reachable(files, m) && i < |files| && FilesApart(files, lo, hi)
    ensures var files' := files[i := files[i].(w2 := v)];
      && Reachable(files', m) && FilesApart(files', lo, hi)
      && Contents(files', m) == Contents(files, m).(files := files')
  {
    hide Slice;
    var files' := files[i := files[i].(w2 := v)];
    forall j | 0 <= j < |files'| ensures Inside(files'[j], lo, hi) {
      assert Inside(files[j], lo, hi);
    }
    forall j, k | 0 <= j < k < |files'| ensures Separate(files'[j], files'[k]) {
      assert Separate(files[j], files[k]);
    }
  }

  method ValueSet(c: Card, i: nat, v: nat)
    requires Intact(c.hdr, c.mem[..]) && i < c.hdr.filecount && v < U32
    modifies c.mem
    ensures Becomes(c.hdr, old(c.mem[..]), old(StoreOf(c.hdr, c.mem[..])),
                    c.mem[..], Valued(old(StoreOf(c.hdr, c.mem[..])), i, v))
  {
    hide Put, Slice, DecodeApp, DecodeFile, DecodeKey, Digits, StoreOf, Marked;
    MarkDirty(c, i);
    ValueImage(c.hdr, c.mem[..], i, v);
    c.Store(LastWordAt(c.hdr.fileOff, i), Digits(v, 4));
  }

  // An abort gives a value file its old value back exactly when the value had
  // not changed.
  lemma AbortKeepsValue(s: Store, i: nat, v: nat)
    requires Aligned(s) && Sane(s.files) && i < |s.files|
    ensures AbortedTo(Valued(s, i, v), s.files[i].app, |s.files|).files[i].w2 == s.files[i].w2 <==> v == s.files[i].w2
  {
    hide Put, Dirty, ClearDirty, SetDirty;
    var t := Valued(s, i, v);
    assert t.files[i].w2 == v && t.files[i].app == s.files[i].app;
    var r := AbortedTo(t, s.files[i].app, |s.files|);
    assert r.files[i] == t.files[i].(flags := ClearDirty(t.files[i].flags));
  }

  // ---- the arithmetic of Credit, LimitedCredit and Debit, in 32 bits

  // None is BoundaryError.
  function Debited(lower: nat, v: nat, delta: nat): Option<nat> {
    if delta > v || v - delta < lower then None else Some(v - delta)
  }

  function Credited(upper: nat, v: nat, delta: nat): Option<nat> {
    if delta > upper || Wrap(v + delta, U32) > upper then None else Some(Wrap(v + delta, U32))
  }

  predicate Limits(lower: nat, upper: nat, v: nat) {
    && lower < U32 && upper < U32 && v < U32
    && Signed(lower) <= Signed(v) <= Signed(upper)
  }

  // The limits are signed when the file is created and unsigned when its value
  // moves.  A debit still respects them.
  lemma DebitKeepsLimits(lower: nat, upper: nat, v: nat, delta: nat)
    requires Limits(lower, upper, v) && Debited(lower, v, delta).Some?
    ensures var w := Debited(lower, v, delta).value;
      Limits(lower, upper, w) && Signed(w) == Signed(v) - delta
  {
  }

  // Of the debits the signed limits allow, those are refused that find a
  // negative lower limit below a value that is not negative: 10 less 1 over -4.
  lemma DebitAccepted(lower: nat, upper: nat, v: nat, delta: nat)
    requires Limits(lower, upper, v) && Signed(lower) <= Signed(v) - delta
    ensures Debited(lower, v, delta).Some? <==> !(Signed(lower) < 0 <= Signed(v))
  {
  }

  lemma DebitRefused()
    ensures Limits(0xFFFF_FFFC, 100, 10) && Signed(0xFFFF_FFFC) <= Signed(10) - 1
    ensures Debited(0xFFFF_FFFC, 10, 1) == None
  {
  }

  // Of the credits they allow, those to a negative value under a limit that is
  // not negative, unless they bring it to 0 or above and are themselves no
  // larger than the limit.
  lemma CreditAccepted(lower: nat, upper: nat, v: nat, delta: nat)
    requires Limits(lower, upper, v) && Signed(v) + delta <= Signed(upper)
    ensures Credited(upper, v, delta).Some?
      <==> !(Signed(v) < 0 <= Signed(upper)) || (0 <= Signed(v) + delta && delta <= upper)
  {
  }

  // A credit that is accepted respects them exactly unless the upper limit is
  // negative and the 32-bit sum wraps to below the lower one.
  lemma CreditKeepsLimits(lower: nat, upper: nat, v: nat, delta: nat)
    requires Limits(lower, upper, v) && delta < U32 && Credited(upper, v, delta).Some?
    ensures Limits(lower, upper, Credited(upper, v, delta).value)
      <==> !(Signed(upper) < 0 && U32 <= v + delta < U32 + lower)
  {
  }

  // -3 credited with 3, under an upper limit of -2, becomes 0.
  lemma CreditPastLimit()
    ensures Limits(0xFFFF_FFFC, 0xFFFF_FFFE, 0xFFFF_FFFD)
    ensures Credited(0xFFFF_FFFE, 0xFFFF_FFFD, 3) == Some(0)
    ensures !Limits(0xFFFF_FFFC, 0xFFFF_FFFE, 0)
  {
  }
}
