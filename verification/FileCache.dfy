// The file cache under concurrent use (hemi_fixtures.go:436-560): every step that one thread takes under the
// lock, or with one atomic instruction, in any interleaving. Only large files, whose handles are shared.

module FileCache {
  type Path = string
  type Id = nat

  /** Where an entry is: not yet in the map, in it, taken out of it by expiry, or pushed out of it by another
      entry of the same path or by shutting down. */
  datatype Fate = Fresh | Cached | Evicted | Lost

  /** An entry and its open file. `holders` are the callers that have it and will release it; `closing` are
      those that have found the count negative and will close the file. */
  datatype Entry = Entry(path: Path, nRef: int, holders: nat, fate: Fate, closing: nat, closed: nat) {
    /** decRef: an atomic decrement, whose result tells whether to close the file. */
    function DecRef(): Entry {
      this.(nRef := nRef - 1, closing := if nRef - 1 < 0 then closing + 1 else closing)
    }
  }

  /** Shutting down leaves no map at all; who inserts into it after that brings the process down. */
  datatype Phase = Up | Down | Crashed

  datatype State = State(entries: map<Path, Id>, files: seq<Entry>, phase: Phase)

  const EMPTY: State := State(map[], [], Up)

  /** The steps: the lookups of getEntry and newEntry; opening a file, and putting it into the map; the
      expiry of an entry; the release by a holder; closing the file; shutting down. */
  datatype Step =
    | Lookup(path: Path) | Open(path: Path) | Insert(id: Id) | Expire(path: Path)
    | Release(id: Id) | Close(id: Id) | Shutdown

  predicate Enabled(s: State, step: Step) {
    !s.phase.Crashed? &&
    match step
    case Lookup(_) => true
    case Open(_) => true
    case Insert(id) => id < |s.files| && s.files[id].fate.Fresh?
    case Expire(path) => path in s.entries
    case Release(id) => id < |s.files| && s.files[id].holders > 0
    case Close(id) => id < |s.files| && s.files[id].closing > 0
    case Shutdown => s.phase.Up?
  }

  predicate InMap(s: State) {
    && (s.phase != Up ==> s.entries == map[])
    && (forall p | p in s.entries :: s.entries[p] < |s.files| && s.files[s.entries[p]].path == p)
    && (forall id | 0 <= id < |s.files| :: s.files[id].fate.Cached? <==>
         s.files[id].path in s.entries && s.entries[s.files[id].path] == id)
  }

  /** Without a map, what was in it cannot be found any more. */
  function AllLost(files: seq<Entry>): (lost: seq<Entry>)
    ensures |lost| == |files|
  {
    seq(|files|, k requires 0 <= k < |files| => if files[k].fate.Cached? then files[k].(fate := Lost) else files[k])
  }

  function Next(s: State, step: Step): State
    requires Enabled(s, step) && InMap(s)
  {
    match step
    case Lookup(path) =>
      if path !in s.entries then s else
      var e := s.files[s.entries[path]];
      s.(files := s.files[s.entries[path] := e.(nRef := e.nRef + 1, holders := e.holders + 1)])
    case Open(path) => s.(files := s.files + [Entry(path, 1, 1, Fresh, 0, 0)])
    case Insert(id) =>
      if s.phase.Down? then s.(phase := Crashed) else
      var e := s.files[id];
      var files :=
        if e.path in s.entries then s.files[s.entries[e.path] := s.files[s.entries[e.path]].(fate := Lost)]
        else s.files;
      State(s.entries[e.path := id], files[id := e.(fate := Cached)], Up)
    case Expire(path) =>
      State(s.entries - {path}, s.files[s.entries[path] := s.files[s.entries[path]].DecRef().(fate := Evicted)], Up)
    case Release(id) => s.(files := s.files[id := s.files[id].DecRef().(holders := s.files[id].holders - 1)])
    case Close(id) =>
      var e := s.files[id];
      s.(files := s.files[id := e.(closing := e.closing - 1, closed := e.closed + 1)])
    case Shutdown =>
      State(map[], AllLost(s.files), Down)
  }

  /** The count is one less than those who count: the holders, and the map or who still wants to enter it.
      It is negative exactly when somebody closes, or has closed, the file. */
  predicate Counted(e: Entry) {
    && e.nRef + 1 == e.holders + (if e.fate.Evicted? then 0 else 1)
    && e.closing + e.closed == (if e.nRef < 0 then 1 else 0)
  }

  predicate Valid(s: State) {
    InMap(s) && forall id | 0 <= id < |s.files| :: Counted(s.files[id])
  }

  lemma StepKeepsValid(s: State, step: Step)
    requires Valid(s) && Enabled(s, step)
    ensures Valid(Next(s, step))
    ensures |s.files| <= |Next(s, step).files|
  {
    var t := Next(s, step);
    match step {
      case Insert(id) => InsertKeepsMap(s, id);
      case Expire(path) => assert Counted(s.files[s.entries[path]]);
      case Release(id) => assert Counted(s.files[id]);
      case Close(id) => assert Counted(s.files[id]);
      case Lookup(path) => if path in s.entries { assert Counted(s.files[s.entries[path]]); }
      case _ =>
    }
    forall id | 0 <= id < |t.files|
      ensures Counted(t.files[id])
    {
      if id < |s.files| {
        assert Counted(s.files[id]);
      }
    }
  }

  lemma InsertKeepsMap(s: State, id: Id)
    requires InMap(s) && Enabled(s, Insert(id))
    ensures InMap(Next(s, Insert(id)))
  {
  }

  // ----- Whole runs -----

  /** A run of the cache, from the empty one on. */
  ghost predicate Run(steps: seq<Step>, s: State)
    decreases |steps|
  {
    if steps == [] then s == EMPTY
    else exists r ::
      Run(steps[..|steps| - 1], r) && Enabled(r, steps[|steps| - 1]) && InMap(r) && s == Next(r, steps[|steps| - 1])
  }

  lemma {:induction false} RunsKeepValid(steps: seq<Step>, s: State)
    requires Run(steps, s)
    ensures Valid(s)
    decreases |steps|
  {
    if steps != [] {
      var r :| Run(steps[..|steps| - 1], r) && Enabled(r, steps[|steps| - 1]) && InMap(r) &&
        s == Next(r, steps[|steps| - 1]);
      RunsKeepValid(steps[..|steps| - 1], r);
      StepKeepsValid(r, steps[|steps| - 1]);
    }
  }

  /** In every reachable state: a file is never closed while anybody has it or can get it, and never twice. */
  lemma NeverClosedInUse(steps: seq<Step>, s: State, id: Id)
    requires Run(steps, s) && id < |s.files|
    ensures s.files[id].closed <= 1
    ensures s.files[id].holders > 0 || !s.files[id].fate.Evicted? ==>
      s.files[id].closed == 0 && s.files[id].closing == 0
  {
    RunsKeepValid(steps, s);
    assert Counted(s.files[id]);
  }

  /** A lookup never returns a file that is closed or about to be. */
  lemma LookupReturnsOpenFile(steps: seq<Step>, s: State, path: Path)
    requires Run(steps, s) && path in s.entries
    ensures s.entries[path] < |s.files|
    ensures s.files[s.entries[path]].closed == 0 && s.files[s.entries[path]].closing == 0
  {
    RunsKeepValid(steps, s);
    assert Counted(s.files[s.entries[path]]);
  }

  /** Once nobody has a file and it cannot be got any more, it is closed, or about to be, exactly if it left
      the map by expiry. */
  lemma ClosedExactlyWhenExpired(steps: seq<Step>, s: State, id: Id)
    requires Run(steps, s) && id < |s.files|
    ensures s.files[id].closed + s.files[id].closing == 1 <==> s.files[id].fate.Evicted? && s.files[id].holders == 0
  {
    RunsKeepValid(steps, s);
    assert Counted(s.files[id]);
  }

  /** A run leads to one state. */
  lemma {:induction false} OneState(steps: seq<Step>, s: State, t: State)
    requires Run(steps, s) && Run(steps, t)
    ensures s == t
    decreases |steps|
  {
    if steps != [] {
      var last := steps[|steps| - 1];
      var q :| Run(steps[..|steps| - 1], q) && Enabled(q, last) && InMap(q) && s == Next(q, last);
      var r :| Run(steps[..|steps| - 1], r) && Enabled(r, last) && InMap(r) && t == Next(r, last);
      OneState(steps[..|steps| - 1], q, r);
    }
  }

  /** An entry that was pushed out of the map stays out, and its file stays open, whatever happens from then on. */
  lemma {:induction false} LostStaysOpen(before: seq<Step>, s: State, behind: seq<Step>, t: State, id: Id)
    requires Run(before, s) && id < |s.files| && s.files[id].fate.Lost? && Run(before + behind, t)
    ensures id < |t.files| && t.files[id].fate.Lost? && t.files[id].closed == 0 && t.files[id].closing == 0
    decreases |behind|
  {
    hide Next, InMap;
    if behind == [] {
      assert before + behind == before;
      OneState(before, s, t);
      RunsKeepValid(before, s);
      assert Counted(s.files[id]);
    } else {
      var steps, last := before + behind, behind[|behind| - 1];
      assert steps[..|steps| - 1] == before + behind[..|behind| - 1] && steps[|steps| - 1] == last;
      var r :| Run(steps[..|steps| - 1], r) && Enabled(r, last) && InMap(r) && t == Next(r, last);
      LostStaysOpen(before, s, behind[..|behind| - 1], r, id);
      RunsKeepValid(steps[..|steps| - 1], r);
      LostStepStaysOpen(r, last, id);
    }
  }

  /** How an entry gets lost: exactly when it is in the map and another entry of its path is put there, or
      the cache is shut down. */
  lemma LostExactlyWhen(s: State, step: Step, id: Id)
    requires Valid(s) && Enabled(s, step) && id < |s.files| && !s.files[id].fate.Lost?
    ensures id < |Next(s, step).files|
    ensures Next(s, step).files[id].fate.Lost? <==>
      && s.files[id].fate.Cached?
      && (step.Shutdown? || (step.Insert? && s.phase.Up? && s.files[step.id].path == s.files[id].path))
  {
    StepKeepsValid(s, step);
  }

  lemma LostStepStaysOpen(s: State, step: Step, id: Id)
    requires Valid(s) && Enabled(s, step) && id < |s.files| && s.files[id].fate.Lost?
    ensures id < |Next(s, step).files| && Next(s, step).files[id].fate.Lost?
    ensures Next(s, step).files[id].closed == 0 && Next(s, step).files[id].closing == 0
  {
    StepKeepsValid(s, step);
    assert Counted(s.files[id]);
    assert Counted(Next(s, step).files[id]);
  }

  /** The process comes down exactly with an insertion behind a shutdown. */
  lemma CrashesWhenLate(s: State, step: Step)
    requires Valid(s) && Enabled(s, step)
    ensures Next(s, step).phase.Crashed? <==> step.Insert? && s.phase.Down?
  {
  }

  /** Such a run: a thread that is opening a file when the cache is shut down. */
  lemma LateInsertCrashes(path: Path) returns (s: State)
    ensures Run([Open(path), Shutdown, Insert(0)], s) && s.phase.Crashed?
  {
    var steps;
    steps, s := Take([], EMPTY, Open(path));
    hide Run;
    steps, s := Take(steps, s, Shutdown);
    steps, s := Take(steps, s, Insert(0));
    assert steps == [Open(path), Shutdown, Insert(0)];
  }

  // ----- Who has a file, told by the steps alone -----

  ghost predicate Possible(steps: seq<Step>) {
    exists s :: Run(steps, s)
  }

  /** The state a run leads to. */
  ghost function StateAfter(steps: seq<Step>): State
    requires Possible(steps)
  {
    var s :| Run(steps, s);
    s
  }

  lemma AfterIs(steps: seq<Step>, s: State)
    requires Run(steps, s)
    ensures Possible(steps) && StateAfter(steps) == s
  {
    OneState(steps, s, StateAfter(steps));
  }

  lemma PrefixPossible(steps: seq<Step>)
    requires Possible(steps) && steps != []
    ensures
      var before, last := steps[..|steps| - 1], steps[|steps| - 1];
      && Possible(before) && Enabled(StateAfter(before), last) && InMap(StateAfter(before))
      && StateAfter(steps) == Next(StateAfter(before), last)
  {
    var before, last, s := steps[..|steps| - 1], steps[|steps| - 1], StateAfter(steps);
    var r :| Run(before, r) && Enabled(r, last) && InMap(r) && s == Next(r, last);
    AfterIs(before, r);
  }

  /** The step hands out that file to somebody: newEntry opens it, or a lookup finds it. */
  ghost predicate HandsOut(s: State, step: Step, id: Id) {
    || (step.Open? && id == |s.files|)
    || (step.Lookup? && step.path in s.entries && s.entries[step.path] == id)
  }

  /** How often the file was handed out. */
  ghost function HandedOut(steps: seq<Step>, id: Id): nat
    requires Possible(steps)
    decreases |steps|
  {
    if steps == [] then 0 else
    PrefixPossible(steps);
    var before, last := steps[..|steps| - 1], steps[|steps| - 1];
    HandedOut(before, id) + if HandsOut(StateAfter(before), last, id) then 1 else 0
  }

  /** How often it was given back. */
  function GivenBack(steps: seq<Step>, id: Id): nat {
    if steps == [] then 0
    else GivenBack(steps[..|steps| - 1], id) + if steps[|steps| - 1] == Release(id) then 1 else 0
  }

  /** The map let it go, because its time had come. */
  ghost predicate LetGo(steps: seq<Step>, id: Id)
    requires Possible(steps)
    decreases |steps|
  {
    steps != [] &&
    (PrefixPossible(steps);
     var before, last := steps[..|steps| - 1], steps[|steps| - 1];
     LetGo(before, id) ||
     (last.Expire? && last.path in StateAfter(before).entries && StateAfter(before).entries[last.path] == id))
  }

  /** Over any run, those who have a file are those it was handed out to and who have not given it back, and it
      has expired exactly if the map let it go. */
  lemma {:induction false} HoldersAre(steps: seq<Step>, s: State, id: Id)
    requires Run(steps, s)
    ensures Possible(steps)
    ensures id < |s.files| ==> s.files[id].holders == HandedOut(steps, id) - GivenBack(steps, id)
    ensures id >= |s.files| ==> HandedOut(steps, id) == GivenBack(steps, id) == 0
    ensures LetGo(steps, id) <==> id < |s.files| && s.files[id].fate.Evicted?
    decreases |steps|
  {
    AfterIs(steps, s);
    if steps != [] {
      PrefixPossible(steps);
      var before, last := steps[..|steps| - 1], steps[|steps| - 1];
      var r :| Run(before, r) && Enabled(r, last) && InMap(r) && s == Next(r, last);
      AfterIs(before, r);
      HoldersAre(before, r, id);
      RunsKeepValid(before, r);
      HoldersStep(r, last, id);
    }
  }

  /** What one step does to the holders of a file. */
  lemma HoldersStep(s: State, step: Step, id: Id)
    requires Valid(s) && Enabled(s, step)
    ensures
      var t := Next(s, step);
      var was, now := (if id < |s.files| then s.files[id].holders else 0),
        (if id < |t.files| then t.files[id].holders else 0);
      && now == was + (if HandsOut(s, step, id) then 1 else 0) - (if step == Release(id) then 1 else 0)
      && (step == Release(id) ==> id < |s.files|) && (id < |s.files| ==> id < |t.files|)
      && (id < |t.files| ==> id < |s.files| || HandsOut(s, step, id)) && (HandsOut(s, step, id) ==> id < |t.files|)
    ensures
      var t := Next(s, step);
      id < |t.files| && t.files[id].fate.Evicted? <==>
        || (id < |s.files| && s.files[id].fate.Evicted?)
        || (step.Expire? && step.path in s.entries && s.entries[step.path] == id)
  {
  }

  /** Over any run, a file is closed, or about to be, exactly if its time has come and it was given back as often
      as it was handed out. */
  lemma ClosedWhenGivenBack(steps: seq<Step>, s: State, id: Id)
    requires Run(steps, s) && id < |s.files|
    ensures Possible(steps)
    ensures s.files[id].closed + s.files[id].closing == 1 <==>
      LetGo(steps, id) && HandedOut(steps, id) == GivenBack(steps, id)
    ensures s.files[id].closed <= 1
  {
    HoldersAre(steps, s, id);
    ClosedExactlyWhenExpired(steps, s, id);
    NeverClosedInUse(steps, s, id);
  }

  lemma {:induction false} LongerRun(before: seq<Step>, behind: seq<Step>, id: Id)
    requires Possible(before + behind)
    ensures Possible(before) && HandedOut(before, id) <= HandedOut(before + behind, id)
    ensures Release(id) !in behind ==> GivenBack(before + behind, id) == GivenBack(before, id)
    decreases |behind|
  {
    hide Next, InMap, Enabled, Possible, StateAfter, HandsOut;
    if behind == [] {
      assert before + behind == before;
    } else {
      var steps := before + behind;
      PrefixPossible(steps);
      assert steps[..|steps| - 1] == before + behind[..|behind| - 1];
      assert steps[|steps| - 1] == behind[|behind| - 1];
      LongerRun(before, behind[..|behind| - 1], id);
    }
  }

  lemma GivenBackOnce(before: seq<Step>, step: Step, id: Id)
    requires step != Release(id)
    ensures GivenBack(before + [step], id) == GivenBack(before, id)
  {
    assert (before + [step])[..|before|] == before;
  }

  lemma NotRelease(s: State, step: Step, id: Id)
    requires HandsOut(s, step, id)
    ensures step != Release(id)
  {
  }

  /** Whoever was handed out a file, by opening it or by a lookup, has it open until it is given back: no other
      step, in any interleaving, closes it. */
  lemma OpenUntilGivenBack(before: seq<Step>, s: State, step: Step, id: Id, behind: seq<Step>, t: State)
    requires Run(before, s) && HandsOut(s, step, id) && Run(before + [step] + behind, t) && Release(id) !in behind
    ensures id < |t.files| && t.files[id].closed == 0 && t.files[id].closing == 0
  {
    hide Next, InMap, Enabled, Possible, StateAfter, Run, LetGo, GivenBack;
    var steps := before + [step];
    AfterIs(steps + behind, t);
    LongerRun(steps, behind, id);
    PrefixPossible(steps);
    assert steps[..|steps| - 1] == before && steps[|steps| - 1] == step;
    AfterIs(before, s);
    GivenBackOnce(before, step, id);
    NotRelease(s, step, id);
    HoldersAre(before, s, id);
    HoldersAre(steps + behind, t, id);
    RunsKeepValid(steps + behind, t);
    assert id < |t.files| ==> Counted(t.files[id]);
  }

  lemma ThenStep(steps: seq<Step>, s: State, step: Step)
    requires Run(steps, s) && Enabled(s, step)
    ensures Valid(s) && Run(steps + [step], Next(s, step))
  {
    RunsKeepValid(steps, s);
    assert (steps + [step])[..|steps|] == steps;
  }

  /** Two threads that miss the same path at the same time both open the file; the entry that is put into the
      map first is lost, and its file is not closed when everybody has released it. */
  lemma TwoOpensLeakOne(path: Path) returns (steps: seq<Step>, s: State)
    ensures Run(steps, s) && |s.files| == 2 && path !in s.entries
    ensures s.files[0].holders == 0 && s.files[0].closed == 0 && s.files[0].fate.Lost?
    ensures s.files[1].holders == 0 && s.files[1].closed == 1
  {
    steps, s := BothOpened(path);
    hide Run;
    steps, s := Take(steps, s, Release(0));
    steps, s := Take(steps, s, Release(1));
    assert s == State(map[path := 1], [Entry(path, 0, 0, Lost, 0, 0), Entry(path, 0, 0, Cached, 0, 0)], Up);
    steps, s := Take(steps, s, Expire(path));
    steps, s := Take(steps, s, Close(1));
  }

  lemma BothOpened(path: Path) returns (steps: seq<Step>, s: State)
    ensures Run(steps, s) &&
      s == State(map[path := 1], [Entry(path, 1, 1, Lost, 0, 0), Entry(path, 1, 1, Cached, 0, 0)], Up)
  {
    steps, s := OneInserted(path);
    hide Run;
    steps, s := Take(steps, s, Insert(1));
  }

  lemma OneInserted(path: Path) returns (steps: seq<Step>, s: State)
    ensures Run(steps, s) &&
      s == State(map[path := 0], [Entry(path, 1, 1, Cached, 0, 0), Entry(path, 1, 1, Fresh, 0, 0)], Up)
  {
    steps, s := BothWaiting(path);
    hide Run;
    steps, s := Take(steps, s, Insert(0));
  }

  lemma BothWaiting(path: Path) returns (steps: seq<Step>, s: State)
    ensures Run(steps, s) && s == State(map[], [Entry(path, 1, 1, Fresh, 0, 0), Entry(path, 1, 1, Fresh, 0, 0)], Up)
  {
    steps, s := Take([], EMPTY, Open(path));
    steps, s := Take(steps, s, Open(path));
  }

  lemma Take(steps: seq<Step>, s: State, step: Step) returns (steps': seq<Step>, t: State)
    requires Run(steps, s) && Enabled(s, step)
    ensures InMap(s) && steps' == steps + [step] && t == Next(s, step) && Run(steps', t)
  {
    ThenStep(steps, s, step);
    steps', t := steps + [step], Next(s, step);
  }

  // ----- The steps as they are taken -----

  /** The cache. Each method is what one thread does at a stroke; between two of them any other may run. */
  class Cache {
    var entries: map<Path, Id>
    var files: seq<Entry>
    var phase: Phase

    constructor ()
      ensures Now() == EMPTY
    {
      entries, files, phase := map[], [], Up;
    }

    ghost function Now(): State
      reads this
    {
      State(entries, files, phase)
    }

    /** getEntry, and the first lookup of newEntry: under the read lock */
    method GetEntry(path: Path) returns (found: bool, id: Id)
      requires Valid(Now()) && Enabled(Now(), Lookup(path))
      modifies this
      ensures Valid(Now()) && Now() == Next(old(Now()), Lookup(path))
      ensures found == (path in entries) && (found ==> id == entries[path])
    {
      StepKeepsValid(Now(), Lookup(path));
      found, id := path in entries, 0;
      if found {
        id := entries[path];
        files := files[id := files[id].(nRef := files[id].nRef + 1, holders := files[id].holders + 1)];
      }
    }

    /** newEntry: the file is opened outside the lock, and its entry belongs to the caller. */
    method OpenFile(path: Path) returns (id: Id)
      requires Valid(Now()) && Enabled(Now(), Open(path))
      modifies this
      ensures Valid(Now()) && Now() == Next(old(Now()), Open(path)) && id == |old(files)|
    {
      StepKeepsValid(Now(), Open(path));
      id := |files|;
      files := files + [Entry(path, 1, 1, Fresh, 0, 0)];
    }

    /** newEntry: the entry is put into the map, under the lock, whatever is there by now; without a map
        that panics. */
    method InsertEntry(id: Id) returns (panicked: bool)
      requires Valid(Now()) && Enabled(Now(), Insert(id))
      modifies this
      ensures Valid(Now()) && Now() == Next(old(Now()), Insert(id)) && panicked == phase.Crashed?
    {
      StepKeepsValid(Now(), Insert(id));
      panicked := phase != Up;
      if panicked {
        phase := Crashed;
        return;
      }
      var path := files[id].path;
      if path in entries {
        files := files[entries[path] := files[entries[path]].(fate := Lost)];
      }
      files := files[id := files[id].(fate := Cached)];
      entries := entries[path := id];
    }

    /** The end of run: under the lock, the map goes. */
    method ShutDown()
      requires Valid(Now()) && Enabled(Now(), Shutdown)
      modifies this
      ensures Valid(Now()) && Now() == Next(old(Now()), Shutdown)
    {
      StepKeepsValid(Now(), Shutdown);
      files := AllLost(files);
      entries, phase := map[], Down;
    }

    /** run: under the lock, the entries whose time has come are taken out of the map. */
    method ExpireEntries(expired: set<Path>)
      requires Valid(Now()) && expired <= entries.Keys
      modifies this`entries, this`files
      ensures Valid(Now()) && entries == old(entries) - expired && phase == old(phase)
      ensures files == Expired(old(Now()), expired)
    {
      hide Valid, Next, Expired;
      NoneExpired(Now());
      var left := expired;
      ghost var done: set<Path> := {};
      while left != {}
        invariant left !! done && left + done == expired && left <= entries.Keys
        invariant Valid(Now()) && entries == old(entries) - done && files == Expired(old(Now()), done)
        decreases |left|
      {
        var path :| path in left;
        OneExpired(old(Now()), Now(), done, path);
        ExpireEntry(path);
        left, done := left - {path}, done + {path};
      }
    }

    method ExpireEntry(path: Path)
      requires Valid(Now()) && path in entries
      modifies this`entries, this`files
      ensures Valid(Now()) && entries == old(entries) - {path} && old(entries)[path] < |old(files)|
      ensures Now() == Next(old(Now()), Expire(path))
    {
      StepKeepsValid(Now(), Expire(path));
      var id := entries[path];
      files := files[id := files[id].DecRef().(fate := Evicted)];
      entries := entries - {path};
    }

    /** decRef by a holder; who finds the count negative has to close the file. */
    method ReleaseEntry(id: Id) returns (mustClose: bool)
      requires Valid(Now()) && Enabled(Now(), Release(id))
      modifies this
      ensures Valid(Now()) && Now() == Next(old(Now()), Release(id))
      ensures mustClose == (files[id].nRef < 0) == (files[id].holders == 0 && files[id].fate.Evicted?)
    {
      StepKeepsValid(Now(), Release(id));
      assert Counted(files[id]);
      files := files[id := files[id].DecRef().(holders := files[id].holders - 1)];
      mustClose := files[id].nRef < 0;
    }

    method CloseFile(id: Id)
      requires Valid(Now()) && Enabled(Now(), Close(id))
      modifies this
      ensures Valid(Now()) && Now() == Next(old(Now()), Close(id))
      ensures files[id].closed == 1 && files[id].holders == 0
    {
      StepKeepsValid(Now(), Close(id));
      assert Counted(files[id]);
      files := files[id := files[id].(closing := files[id].closing - 1, closed := files[id].closed + 1)];
    }
  }

  /** The files after those paths have expired: each entry that was in the map under one of them has one
      reference less, and no other entry changes. */
  function Expired(s: State, paths: set<Path>): seq<Entry> {
    seq(|s.files|, k requires 0 <= k < |s.files| =>
      if s.files[k].fate.Cached? && s.files[k].path in paths then s.files[k].DecRef().(fate := Evicted) else s.files[k])
  }

  lemma NoneExpired(s: State)
    ensures Expired(s, {}) == s.files
  {
  }

  lemma OneExpired(s: State, t: State, paths: set<Path>, path: Path)
    requires Valid(s) && Valid(t) && t.entries == s.entries - paths && t.files == Expired(s, paths) && path in t.entries
    ensures Next(t, Expire(path)).files == Expired(s, paths + {path})
  {
    var id := s.entries[path];
    assert t.entries[path] == id;
    forall k | 0 <= k < |s.files|
      ensures Next(t, Expire(path)).files[k] == Expired(s, paths + {path})[k]
    {
      if k != id && s.files[k].path == path {
        assert !s.files[k].fate.Cached?;
      }
    }
  }
}
