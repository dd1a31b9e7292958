// Whole runs of the commands that create, delete, select and format: what every
// run keeps.
module ImageRuns {
  import opened Octets
  import opened Image
  import opened Allocator
  import opened CreateApp
  import opened CreateFile
  import opened Tombstones
  import opened CardImage

  // A frame and the session it comes in: `master` if that is one with key 0 of
  // the selected application.
  datatype Command =
    | CreateApplication(frame: seq<octet>, master: bool)
    | CreateFile(cmd: octet, frame: seq<octet>, master: bool)
    | DeleteApplication(frame: seq<octet>, master: bool)
    | DeleteFile(frame: seq<octet>, master: bool)
    | SelectApplication(frame: seq<octet>)
    | FormatPicc(master: bool, forbidden: bool)

  // Destroyed: CreateFile cleared memory past the end of the image.
  datatype State = State(h: Header, m: seq<octet>, selected: nat) | Destroyed

  // The PICC's own entry is there, and the selected application is alive.
  ghost predicate Seated(v: View, selected: nat) {
    && selected < |v.apps| && v.apps[0].aid == 0
    && !AppDeleted(v.apps[0]) && !AppDeleted(v.apps[selected])
  }

  ghost predicate Sound(s: State) {
    s.State? && WellFormed(s.h, s.m) && Seated(Parse(s.h, s.m), s.selected)
  }

  predicate Formats(s: State, c: Command)
    requires s.State?
  {
    c.FormatPicc? && FormatAnswer(s.selected, c.master, c.forbidden) == Ok
  }

  // What the methods of Card answer.
  ghost function Answer(s: State, c: Command): Status
    requires Sound(s)
  {
    var v := Parse(s.h, s.m);
    match c
    case CreateApplication(frame, master) => AppAnswer(s.h, v, s.selected, master, frame)
    case CreateFile(cmd, frame, master) => FileAnswer(s.h, v, s.selected, master, cmd, frame)
    case DeleteApplication(frame, master) => DeleteAppAnswer(v, s.selected, master, frame)
    case DeleteFile(frame, master) => DeleteFileAnswer(v, s.selected, master, frame)
    case SelectApplication(frame) => SelectAnswer(v, frame)
    case FormatPicc(master, forbidden) => FormatAnswer(s.selected, master, forbidden)
  }

  // And what they leave.
  ghost function Step(s: State, c: Command): State
    requires Sound(s)
  {
    var v, answer := Parse(s.h, s.m), Answer(s, c);
    if answer == Overrun then Destroyed
    else if answer != Ok then s
    else match c
      case CreateApplication(frame, _) => State(AppHeader(s.h, ParseApp(frame)), AppMemory(s.h, s.m, ParseApp(frame)), s.selected)
      case CreateFile(cmd, frame, _) =>
        var q := Asked(v, s.selected, cmd, frame);
        FileCreateKeeps(s.h, s.m, s.selected, q);
        State(FileHeader(s.h, q), FileMemory(s.h, s.m, s.selected, q), s.selected)
      case DeleteApplication(frame, _) =>
        var i := FirstLive(v.apps, AidOf(frame), 0);
        State(s.h, AppDeletedMemory(s.h, s.m, i), if s.selected == i then 0 else s.selected)
      case DeleteFile(frame, _) => s.(m := FileKilled(s.h, s.m, FirstFile(v.files, s.selected, frame[0], 0)))
      case SelectApplication(frame) => s.(selected := FirstLive(v.apps, AidOf(frame), 0))
      case FormatPicc(_, _) => State(FormatHeader(s.h, Kept(s.h, s.m, s.h.keycount)), Compacted(s.h, s.m, s.h.keycount), 0)
  }

  // A command the guards let through although its numbers do not fit: the
  // card's keys their 8-bit count, or the file's reservation 16 bits.
  ghost predicate Breaks(s: State, c: Command)
    requires Sound(s)
  {
    match c
    case CreateApplication(frame, _) => Answer(s, c) == Ok && s.h.keycount + NumKeys(ParseApp(frame)) >= 256
    case CreateFile(cmd, frame, _) =>
      (Answer(s, c) == Ok || Answer(s, c) == Overrun) && Reserve(Asked(Parse(s.h, s.m), s.selected, cmd, frame)) >= 0x1_0000
    case _ => false
  }

  // Every entry of s is still there in s', alive or dead since, its keys and
  // every byte of file data too, and nothing it spent has come back.
  ghost predicate Extends(s: State, s': State)
    requires Sound(s) && Sound(s')
  {
    var v, v' := Parse(s.h, s.m), Parse(s'.h, s'.m);
    && AppsGrown(v.apps, v'.apps) && FilesGrown(v.files, v'.files) && v.keys <= v'.keys
    && |s.m| == |s'.m| && s'.h.dataStart <= s.h.dataStart
    && Slice(s'.m, s.h.dataStart, |s.m| - s.h.dataStart) == Slice(s.m, s.h.dataStart, |s.m| - s.h.dataStart)
    && s.h.reserved <= s'.h.reserved
  }

  // One command keeps the image sound exactly when its numbers fit, and unless
  // it formats it loses nothing.
  lemma StepKeeps(s: State, c: Command)
    requires Sound(s)
    ensures Sound(Step(s, c)) <==> !Breaks(s, c)
    ensures !Breaks(s, c) && !Formats(s, c) ==> Extends(s, Step(s, c))
  {
    hide Sound, Extends, Step, Breaks;
    match c {
      case CreateApplication(_, _) => AppStep(s, c);
      case CreateFile(_, _, _) => FileStep(s, c);
      case DeleteApplication(_, _) => AppGone(s, c);
      case DeleteFile(_, _) => FileGone(s, c);
      case SelectApplication(_) => Selected(s, c);
      case FormatPicc(_, _) => Formatted(s, c);
    }
  }

  ghost predicate KeptBy(s: State, c: Command)
    requires Sound(s)
  {
    && (Sound(Step(s, c)) <==> !Breaks(s, c))
    && (!Breaks(s, c) && !Formats(s, c) ==> Extends(s, Step(s, c)))
  }

  lemma AppStep(s: State, c: Command)
    requires Sound(s) && c.CreateApplication?
    ensures KeptBy(s, c)
  {
    hide Put, Slice, NewApp, AppTable, FileTable, KeyTable, WellFormed, AppMemory;
    Shape(s.h, s.m);
    if Answer(s, c) == Ok {
      AppCreateKeeps(s.h, s.m, ParseApp(c.frame));
    }
  }

  lemma FileStep(s: State, c: Command)
    requires Sound(s) && c.CreateFile?
    ensures KeptBy(s, c)
  {
    hide Put, Slice, NewFile, Reserve, AppTable, FileTable, KeyTable, FileMemory;
    var v := Parse(s.h, s.m);
    if Answer(s, c) == Ok || Answer(s, c) == Overrun {
      GuardsHold(s.h, Asked(v, s.selected, c.cmd, c.frame));
    }
    if Answer(s, c) == Ok {
      FileCreateKeeps(s.h, s.m, s.selected, Asked(v, s.selected, c.cmd, c.frame));
    }
  }

  lemma AppGone(s: State, c: Command)
    requires Sound(s) && c.DeleteApplication?
    ensures KeptBy(s, c)
  {
    hide Put, Slice, AppTable, FileTable, KeyTable, WellFormed, AppDeletedMemory;
    Shape(s.h, s.m);
    var v := Parse(s.h, s.m);
    if Answer(s, c) == Ok {
      AppDeletedReads(s.h, s.m, FirstLive(v.apps, AidOf(c.frame), 0));
      AppDeleteKeeps(s.h, s.m, AidOf(c.frame));
    } else {
      Same(v);
    }
  }

  lemma Same(v: View)
    ensures AppsGrown(v.apps, v.apps) && FilesGrown(v.files, v.files)
  {
  }

  lemma FileGone(s: State, c: Command)
    requires Sound(s) && c.DeleteFile?
    ensures KeptBy(s, c)
  {
    hide Put, Slice, AppTable, FileTable, KeyTable, WellFormed, FileKilled, FirstFile;
    Shape(s.h, s.m);
    var v := Parse(s.h, s.m);
    Same(v);
    if Answer(s, c) == Ok {
      var i := FirstFile(v.files, s.selected, c.frame[0], 0);
      FileKilledReads(s.h, s.m, i);
      FileDeleteKeeps(s.h, s.m, FileKilled(s.h, s.m, i), s.selected, c.frame[0]);
    }
  }

  lemma Selected(s: State, c: Command)
    requires Sound(s) && c.SelectApplication?
    ensures KeptBy(s, c)
  {
    hide Put, Slice, AppTable, FileTable, KeyTable, WellFormed;
    Shape(s.h, s.m);
    Same(Parse(s.h, s.m));
  }

  lemma Formatted(s: State, c: Command)
    requires Sound(s) && c.FormatPicc?
    ensures KeptBy(s, c)
  {
    hide Put, Slice, AppTable, FileTable, KeyTable, WellFormed, Compacted, PiccKeys;
    Shape(s.h, s.m);
    Same(Parse(s.h, s.m));
    if Formats(s, c) {
      FormatKeeps(s.h, s.m);
    }
  }

  // ---- runs

  ghost predicate Tame(s: State, cs: seq<Command>)
    requires Sound(s)
    decreases |cs|
  {
    cs == [] || (!Breaks(s, cs[0]) && (StepKeeps(s, cs[0]); Tame(Step(s, cs[0]), cs[1..])))
  }

  ghost function Run(s: State, cs: seq<Command>): State
    requires Sound(s) && Tame(s, cs)
    decreases |cs|
  {
    if cs == [] then s else
      StepKeeps(s, cs[0]);
      Run(Step(s, cs[0]), cs[1..])
  }

  // No command of the run formats.
  ghost predicate NoFormat(s: State, cs: seq<Command>)
    requires Sound(s) && Tame(s, cs)
    decreases |cs|
  {
    cs == [] || (!Formats(s, cs[0]) && (StepKeeps(s, cs[0]); NoFormat(Step(s, cs[0]), cs[1..])))
  }

  // Every run whose numbers fit ends in a sound image, the selected application
  // alive; without a format it has lost no entry and no byte on the way.
  lemma {:induction false} RunKeeps(s: State, cs: seq<Command>)
    requires Sound(s) && Tame(s, cs)
    ensures Sound(Run(s, cs))
    ensures NoFormat(s, cs) ==> Extends(s, Run(s, cs))
    decreases |cs|
  {
    hide Sound, Extends, Step, Breaks;
    if cs == [] {
      ExtendsSame(s);
    } else {
      StepKeeps(s, cs[0]);
      RunKeeps(Step(s, cs[0]), cs[1..]);
      if NoFormat(s, cs) {
        ExtendsOn(s, Step(s, cs[0]), Run(s, cs));
      }
    }
  }

  lemma ExtendsSame(s: State)
    requires Sound(s)
    ensures Extends(s, s)
  {
    Same(Parse(s.h, s.m));
  }

  lemma ExtendsOn(a: State, b: State, c: State)
    requires Sound(a) && Sound(b) && Sound(c) && Extends(a, b) && Extends(b, c)
    ensures Extends(a, c)
  {
    hide AppsGrown, FilesGrown, WellFormed, AppTable, FileTable, KeyTable;
    Shape(a.h, a.m);
    Shape(b.h, b.m);
    Shape(c.h, c.m);
    var n := |a.m| - b.h.dataStart;
    Within(b.m, b.h.dataStart, c.m, b.h.dataStart, n, a.h.dataStart - b.h.dataStart, |a.m| - a.h.dataStart);
    GrownOn(Parse(a.h, a.m), Parse(b.h, b.m), Parse(c.h, c.m));
  }

  // A file that was deleted is never found again before the next format, not
  // even when its number is created once more.
  lemma GoneForGood(s: State, c: Command, cs: seq<Command>)
    requires Sound(s) && c.DeleteFile? && Answer(s, c) == Ok
    requires Tame(s, [c] + cs) && NoFormat(s, [c] + cs)
    ensures var s' := Run(s, [c] + cs);
      Sound(s') && !Finds(Parse(s'.h, s'.m).files, s.selected, c.frame[0])
  {
    hide Put, Slice, AppTable, FileTable, KeyTable, WellFormed, FileKilled, FirstFile, Finds, Buried, FilesGrown, AppsGrown;
    assert ([c] + cs)[1..] == cs;
    StepKeeps(s, c);
    DeletedIsBuried(s, c);
    var b := Step(s, c);
    RunKeeps(b, cs);
    var e := Run(b, cs);
    Shape(e.h, e.m);
    BuriedStays(Parse(b.h, b.m).files, Parse(e.h, e.m).files, s.selected, c.frame[0]);
  }

  lemma DeletedIsBuried(s: State, c: Command)
    requires Sound(s) && c.DeleteFile? && Answer(s, c) == Ok
    ensures var b := Step(s, c);
      b.State? && b.h == s.h && |b.m| == |s.m| && Readable(b.h, b.m) && Buried(Parse(b.h, b.m).files, s.selected, c.frame[0])
  {
    hide Put, Slice, AppTable, FileTable, KeyTable, WellFormed, FileKilled, FirstFile, Buried;
    Shape(s.h, s.m);
    var i := FirstFile(Parse(s.h, s.m).files, s.selected, c.frame[0], 0);
    FileKilledReads(s.h, s.m, i);
    FileDeleteKeeps(s.h, s.m, FileKilled(s.h, s.m, i), s.selected, c.frame[0]);
  }
}
