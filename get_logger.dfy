/** The configuration logic of `get_logger`: the verbosity table, the fallback
    for the log-file path, and the merge that adds each required handler only
    when the logger has none of its kind yet. Handlers are reduced to what the
    merge looks at: the stream of a stream handler, or being a file handler. */
module LoggerConfig {
  import opened Wrappers

  /** The numeric levels of Python's `logging`. */
  const Critical: int := 50
  const Error: int := 40
  const Warning: int := 30
  const Info: int := 20
  const Debug: int := 10
  /** The level of a logger nobody has configured. */
  const NotSet: int := 0

  /** `VERBOSITY_MAP[verbosity]`; `None` stands for the KeyError. The table is
      the line `60 - 10 * verbosity` over 1..5, so a higher verbosity always
      gives a strictly lower threshold. */
  function VerbosityLevel(verbosity: int): (r: Option<int>)
    ensures r.Some? <==> 1 <= verbosity <= 5
    ensures r.Some? ==> r.value == 60 - 10 * verbosity
  {
    if verbosity == 1 then Some(Critical)
    else if verbosity == 2 then Some(Error)
    else if verbosity == 3 then Some(Warning)
    else if verbosity == 4 then Some(Info)
    else if verbosity == 5 then Some(Debug)
    else None
  }

  lemma VerbosityDecreasing(v: int, w: int)
    requires 1 <= v < w <= 5
    ensures VerbosityLevel(w).value < VerbosityLevel(v).value
  {
  }

  /** `DEFAULT_LOG_PATH`, beside the module's own file; `moduleDir` is the
      resolved directory of that file. */
  function DefaultLogPath(moduleDir: string): string
  {
    moduleDir + "/epnm_websocket.log"
  }

  /** The `logfile_path` argument: absent, already a `pathlib.Path`, or
      something else to be converted. */
  datatype PathArg = NoPath | IsPath(path: string) | NotPath(raw: string)

  /** The path the file handler is built with. `resolve` stands for
      `pathlib.Path(x).resolve()`, `None` for the exception it may raise. */
  function ResolveLogPath(arg: PathArg, defaultPath: string, resolve: string -> Option<string>): (r: string)
    ensures arg.NoPath? ==> r == defaultPath
    ensures arg.IsPath? ==> r == arg.path
    ensures arg.NotPath? && resolve(arg.raw).None? ==> r == defaultPath
    ensures arg.NotPath? && resolve(arg.raw).Some? ==> r == resolve(arg.raw).value
  {
    match arg
    case NoPath => defaultPath
    case IsPath(p) => p
    case NotPath(raw) =>
      match resolve(raw)
      case Some(p) => p
      case None => defaultPath
  }

  datatype Stream = Stderr | Stdout | OtherStream

  /** A handler attached to a logger. */
  datatype Handler = StreamHandler(stream: Stream) | FileHandler(path: string) | OtherHandler

  /** The keys `'stderr'`, `'stdout'` and `'file'` of the `handlers` dict. */
  datatype HandlerKind = StderrKind | StdoutKind | FileKind

  /** The dict's keys in their order. */
  const Kinds: seq<HandlerKind> := [StderrKind, StdoutKind, FileKind]

  /** The position of a kind among the dict's keys. */
  function Rank(k: HandlerKind): (i: nat)
    ensures i < |Kinds| && Kinds[i] == k
  {
    match k
    case StderrKind => 0
    case StdoutKind => 1
    case FileKind => 2
  }

  /** The default of the `handle` argument. */
  const DefaultHandle: seq<HandlerKind> := [StderrKind, FileKind]

  /** The kind the first loop detects a handler as. A `FileHandler` is a
      `StreamHandler` in Python too, but its stream is never `sys.stderr`
      or `sys.stdout`. */
  function KindOf(h: Handler): Option<HandlerKind>
  {
    match h
    case StreamHandler(Stderr) => Some(StderrKind)
    case StreamHandler(Stdout) => Some(StdoutKind)
    case StreamHandler(OtherStream) => None
    case FileHandler(_) => Some(FileKind)
    case OtherHandler => None
  }

  /** The handler the dict holds for a kind. */
  function NewHandler(k: HandlerKind, logPath: string): (h: Handler)
    ensures KindOf(h) == Some(k)
    ensures k == StderrKind ==> h == StreamHandler(Stderr)
    ensures k == StdoutKind ==> h == StreamHandler(Stdout)
    ensures k == FileKind ==> h == FileHandler(logPath)
  {
    match k
    case StderrKind => StreamHandler(Stderr)
    case StdoutKind => StreamHandler(Stdout)
    case FileKind => FileHandler(logPath)
  }

  predicate Present(hs: seq<Handler>, k: HandlerKind)
  {
    exists i :: 0 <= i < |hs| && KindOf(hs[i]) == Some(k)
  }

  /** What the second loop appends, having gone through the kinds `ks`. */
  function Added(hs: seq<Handler>, handle: seq<HandlerKind>, logPath: string, ks: seq<HandlerKind>): seq<Handler>
    decreases |ks|
  {
    if |ks| == 0 then []
    else
      var k := ks[|ks| - 1];
      Added(hs, handle, logPath, ks[..|ks| - 1]) + (if k in handle && !Present(hs, k) then [NewHandler(k, logPath)] else [])
  }

  lemma AppendKeepsPresent(hs: seq<Handler>, extra: seq<Handler>, k: HandlerKind)
    requires Present(hs, k)
    ensures Present(hs + extra, k)
  {
    var i :| 0 <= i < |hs| && KindOf(hs[i]) == Some(k);
    assert (hs + extra)[i] == hs[i];
  }

  /** Each added handler is of a kind in `ks` that is required and was not
      present. */
  lemma {:induction false} AddedRequired(hs: seq<Handler>, handle: seq<HandlerKind>, logPath: string, ks: seq<HandlerKind>)
    ensures var r := Added(hs, handle, logPath, ks);
      |r| <= |ks| &&
      forall j :: 0 <= j < |r| ==>
        KindOf(r[j]).Some? && KindOf(r[j]).value in ks && KindOf(r[j]).value in handle && !Present(hs, KindOf(r[j]).value)
    decreases |ks|
  {
    if |ks| > 0 {
      var init := ks[..|ks| - 1];
      AddedRequired(hs, handle, logPath, init);
      var prefix := Added(hs, handle, logPath, init);
      var r := Added(hs, handle, logPath, ks);
      forall j | 0 <= j < |r|
        ensures KindOf(r[j]).Some? && KindOf(r[j]).value in ks && KindOf(r[j]).value in handle && !Present(hs, KindOf(r[j]).value)
      {
        if j < |prefix| {
          assert r[j] == prefix[j];
          var k := KindOf(r[j]).value;
          assert k in init;
          var i :| 0 <= i < |init| && init[i] == k;
          assert ks[i] == k;
        } else {
          assert r[j] == NewHandler(ks[|ks| - 1], logPath);
        }
      }
    }
  }

  /** Every kind of `ks` that is required and not present is added. */
  lemma {:induction false} AddedCovers(hs: seq<Handler>, handle: seq<HandlerKind>, logPath: string, ks: seq<HandlerKind>, k: HandlerKind)
    requires k in ks && k in handle && !Present(hs, k)
    ensures Present(Added(hs, handle, logPath, ks), k)
    decreases |ks|
  {
    var init := ks[..|ks| - 1];
    var last := ks[|ks| - 1];
    var prefix := Added(hs, handle, logPath, init);
    var r := Added(hs, handle, logPath, ks);
    if k == last {
      assert KindOf(r[|r| - 1]) == Some(k);
    } else {
      assert k in init by {
        var i :| 0 <= i < |ks| && ks[i] == k;
        assert init[i] == k;
      }
      AddedCovers(hs, handle, logPath, init, k);
      AppendKeepsPresent(prefix, r[|prefix|..], k);
      assert prefix + r[|prefix|..] == r;
    }
  }

  /** Nothing is added when every required kind is already present. */
  lemma {:induction false} AddedNothing(hs: seq<Handler>, handle: seq<HandlerKind>, logPath: string, ks: seq<HandlerKind>)
    requires forall k :: k in handle ==> Present(hs, k)
    ensures Added(hs, handle, logPath, ks) == []
    decreases |ks|
  {
    if |ks| > 0 {
      AddedNothing(hs, handle, logPath, ks[..|ks| - 1]);
    }
  }

  /** Going through kinds that are pairwise distinct, no kind is added twice. */
  lemma {:induction false} AddedDistinct(hs: seq<Handler>, handle: seq<HandlerKind>, logPath: string, ks: seq<HandlerKind>)
    requires forall i, j :: 0 <= i < j < |ks| ==> ks[i] != ks[j]
    ensures var r := Added(hs, handle, logPath, ks);
      forall i, j :: 0 <= i < j < |r| ==> KindOf(r[i]) != KindOf(r[j])
    decreases |ks|
  {
    if |ks| > 0 {
      var init := ks[..|ks| - 1];
      var last := ks[|ks| - 1];
      AddedDistinct(hs, handle, logPath, init);
      AddedRequired(hs, handle, logPath, init);
      var prefix := Added(hs, handle, logPath, init);
      var r := Added(hs, handle, logPath, ks);
      forall i, j | 0 <= i < j < |r| ensures KindOf(r[i]) != KindOf(r[j]) {
        if j < |prefix| {
          assert r[i] == prefix[i] && r[j] == prefix[j];
        } else {
          assert r[i] == prefix[i];
          assert KindOf(r[j]) == Some(last);
          assert KindOf(prefix[i]).value in init;
        }
      }
    }
  }

  /** Each added handler is the dict's own handler for its kind, built on
      `logPath`. */
  lemma {:induction false} AddedAreNew(hs: seq<Handler>, handle: seq<HandlerKind>, logPath: string, ks: seq<HandlerKind>)
    ensures forall j :: 0 <= j < |Added(hs, handle, logPath, ks)| ==>
      var h := Added(hs, handle, logPath, ks)[j];
      KindOf(h).Some? && h == NewHandler(KindOf(h).value, logPath)
    decreases |ks|
  {
    if |ks| > 0 {
      var init := ks[..|ks| - 1];
      AddedAreNew(hs, handle, logPath, init);
      var prefix := Added(hs, handle, logPath, init);
      var r := Added(hs, handle, logPath, ks);
      forall j | 0 <= j < |r| ensures KindOf(r[j]).Some? && r[j] == NewHandler(KindOf(r[j]).value, logPath) {
        if j < |prefix| {
          assert r[j] == prefix[j];
          var h := prefix[j];
          assert KindOf(h).Some? && h == NewHandler(KindOf(h).value, logPath);
        } else {
          assert r[j] == NewHandler(ks[|ks| - 1], logPath);
        }
      }
    }
  }

  /** Going through kinds in increasing rank, the handlers are added in
      increasing rank too. */
  lemma {:induction false} AddedOrdered(hs: seq<Handler>, handle: seq<HandlerKind>, logPath: string, ks: seq<HandlerKind>)
    requires forall i, j :: 0 <= i < j < |ks| ==> Rank(ks[i]) < Rank(ks[j])
    ensures var r := Added(hs, handle, logPath, ks);
      forall i, j :: 0 <= i < j < |r| ==>
        KindOf(r[i]).Some? && KindOf(r[j]).Some? && Rank(KindOf(r[i]).value) < Rank(KindOf(r[j]).value)
    decreases |ks|
  {
    if |ks| > 0 {
      var init := ks[..|ks| - 1];
      var last := ks[|ks| - 1];
      AddedOrdered(hs, handle, logPath, init);
      AddedRequired(hs, handle, logPath, init);
      var prefix := Added(hs, handle, logPath, init);
      var r := Added(hs, handle, logPath, ks);
      forall i, j | 0 <= i < j < |r|
        ensures KindOf(r[i]).Some? && KindOf(r[j]).Some? && Rank(KindOf(r[i]).value) < Rank(KindOf(r[j]).value)
      {
        if j < |prefix| {
          assert r[i] == prefix[i] && r[j] == prefix[j];
        } else {
          assert r[i] == prefix[i];
          assert KindOf(r[j]) == Some(last);
          var k := KindOf(prefix[i]).value;
          assert k in init;
          var m :| 0 <= m < |init| && init[m] == k;
          assert ks[m] == k;
        }
      }
    }
  }

  lemma AllKinds(k: HandlerKind)
    ensures k in Kinds
  {
    match k
    case StderrKind => assert Kinds[0] == k;
    case StdoutKind => assert Kinds[1] == k;
    case FileKind => assert Kinds[2] == k;
  }

  /** The handler list after `get_logger`: the old list, never shortened or
      reordered, then one handler for each required kind that had none;
      afterwards every required kind is present, and a kind that is not
      required is present exactly when it was before. */
  function Merge(hs: seq<Handler>, handle: seq<HandlerKind>, logPath: string): (r: seq<Handler>)
    ensures |hs| <= |r| <= |hs| + 3 && r[..|hs|] == hs
    ensures forall j :: |hs| <= j < |r| ==>
      KindOf(r[j]).Some? && KindOf(r[j]).value in handle && !Present(hs, KindOf(r[j]).value)
    ensures forall j :: |hs| <= j < |r| ==> r[j] == NewHandler(KindOf(r[j]).value, logPath)
    ensures forall i, j :: |hs| <= i < j < |r| ==> KindOf(r[i]) != KindOf(r[j])
    ensures forall i, j :: |hs| <= i < j < |r| ==> Rank(KindOf(r[i]).value) < Rank(KindOf(r[j]).value)
    ensures forall k :: k in handle ==> Present(r, k)
    ensures forall k :: k !in handle ==> (Present(r, k) <==> Present(hs, k))
  {
    var added := Added(hs, handle, logPath, Kinds);
    AddedRequired(hs, handle, logPath, Kinds);
    AddedDistinct(hs, handle, logPath, Kinds);
    AddedAreNew(hs, handle, logPath, Kinds);
    AddedOrdered(hs, handle, logPath, Kinds);
    var r := hs + added;
    assert forall j :: |hs| <= j < |r| ==> r[j] == added[j - |hs|];
    forall k | k in handle ensures Present(r, k) {
      AllKinds(k);
      if Present(hs, k) {
        AppendKeepsPresent(hs, added, k);
      } else {
        AddedCovers(hs, handle, logPath, Kinds, k);
        var i :| 0 <= i < |added| && KindOf(added[i]) == Some(k);
        assert r[|hs| + i] == added[i];
      }
    }
    forall k | k !in handle ensures Present(r, k) <==> Present(hs, k) {
      if Present(hs, k) {
        AppendKeepsPresent(hs, added, k);
      }
      if Present(r, k) {
        var i :| 0 <= i < |r| && KindOf(r[i]) == Some(k);
        assert r[i] == hs[i];
      }
    }
    r
  }

  /** A second call with the same `handle` changes nothing, whatever log
      path it resolves. */
  lemma MergeIdempotent(hs: seq<Handler>, handle: seq<HandlerKind>, p1: string, p2: string)
    ensures Merge(Merge(hs, handle, p1), handle, p2) == Merge(hs, handle, p1)
  {
    var once := Merge(hs, handle, p1);
    AddedNothing(once, handle, p2, Kinds);
    assert once + [] == once;
  }

  /** With the default `handle`: a stderr and a file handler are there
      afterwards, and a stdout handler only if there was one before. */
  lemma DefaultMerge(hs: seq<Handler>, logPath: string)
    ensures var r := Merge(hs, DefaultHandle, logPath);
      Present(r, StderrKind) && Present(r, FileKind) && (Present(r, StdoutKind) <==> Present(hs, StdoutKind))
  {
    assert DefaultHandle[0] == StderrKind && DefaultHandle[1] == FileKind;
    assert StdoutKind !in DefaultHandle;
  }

  /** A logger with no handlers gets, with the default `handle`, the stderr
      handler and then the file handler on the resolved path. */
  lemma FreshDefaultMerge(logPath: string)
    ensures Merge([], DefaultHandle, logPath) == [StreamHandler(Stderr), FileHandler(logPath)]
  {
    var none: seq<Handler> := [];
    assert StderrKind in DefaultHandle && FileKind in DefaultHandle && StdoutKind !in DefaultHandle by {
      assert DefaultHandle[0] == StderrKind && DefaultHandle[1] == FileKind;
    }
    assert Kinds[..2][..1] == Kinds[..1] && Kinds[..1][..0] == [] && Kinds[..2] == Kinds[..|Kinds| - 1];
    assert Added(none, DefaultHandle, logPath, Kinds[..1]) == [StreamHandler(Stderr)];
    assert Added(none, DefaultHandle, logPath, Kinds[..2]) == [StreamHandler(Stderr)];
    assert Added(none, DefaultHandle, logPath, Kinds) == [StreamHandler(Stderr), FileHandler(logPath)];
  }

  /** The part of a logger that `get_logger` touches. */
  class Logger {
    const name: string
    var level: int
    var propagate: bool
    var handlers: seq<Handler>

    /** A logger as `logging.getLogger` first creates it. */
    constructor (name: string)
      ensures this.name == name && level == NotSet && propagate && handlers == []
    {
      this.name := name;
      level := NotSet;
      propagate := true;
      handlers := [];
    }
  }

  /** One entry of the `handlers` dict. */
  datatype Status = Status(handler: Handler, required: bool, present: bool)

  /** The `handlers` dict once the first loop has looked at `seen`. */
  function Statuses(seen: seq<Handler>, handle: seq<HandlerKind>, logPath: string): map<HandlerKind, Status>
  {
    map[StderrKind := Status(NewHandler(StderrKind, logPath), StderrKind in handle, Present(seen, StderrKind)),
        StdoutKind := Status(NewHandler(StdoutKind, logPath), StdoutKind in handle, Present(seen, StdoutKind)),
        FileKind := Status(NewHandler(FileKind, logPath), FileKind in handle, Present(seen, FileKind))]
  }

  lemma StatusOf(seen: seq<Handler>, handle: seq<HandlerKind>, logPath: string, k: HandlerKind)
    ensures k in Statuses(seen, handle, logPath)
    ensures Statuses(seen, handle, logPath)[k] == Status(NewHandler(k, logPath), k in handle, Present(seen, k))
  {
    match k
    case StderrKind =>
    case StdoutKind =>
    case FileKind =>
  }

  lemma PresentSnoc(hs: seq<Handler>, h: Handler, k: HandlerKind)
    ensures Present(hs + [h], k) <==> Present(hs, k) || KindOf(h) == Some(k)
  {
    var r := hs + [h];
    if Present(hs, k) {
      var i :| 0 <= i < |hs| && KindOf(hs[i]) == Some(k);
      assert r[i] == hs[i];
    }
    if KindOf(h) == Some(k) {
      assert r[|hs|] == h;
    }
    if Present(r, k) {
      var i :| 0 <= i < |r| && KindOf(r[i]) == Some(k);
      if i < |hs| {
        assert r[i] == hs[i];
      }
    }
  }

  /** The first loop of the configuration: one status per handler kind, with
      `present` set when a handler of that kind is already attached. */
  method MarkPresent(current: seq<Handler>, handle: seq<HandlerKind>, path: string)
    returns (handlers: map<HandlerKind, Status>)
    ensures handlers == Statuses(current, handle, path)
  {
    handlers := map[
      StderrKind := Status(NewHandler(StderrKind, path), StderrKind in handle, false),
      StdoutKind := Status(NewHandler(StdoutKind, path), StdoutKind in handle, false),
      FileKind := Status(NewHandler(FileKind, path), FileKind in handle, false)];
    var i := 0;
    assert current[..0] == [];
    while i < |current|
      invariant 0 <= i <= |current|
      invariant handlers.Keys == {StderrKind, StdoutKind, FileKind}
      invariant handlers[StderrKind] == Status(NewHandler(StderrKind, path), StderrKind in handle, Present(current[..i], StderrKind))
      invariant handlers[StdoutKind] == Status(NewHandler(StdoutKind, path), StdoutKind in handle, Present(current[..i], StdoutKind))
      invariant handlers[FileKind] == Status(NewHandler(FileKind, path), FileKind in handle, Present(current[..i], FileKind))
    {
      var h := current[i];
      assert current[..i + 1] == current[..i] + [h];
      PresentSnoc(current[..i], h, StderrKind);
      PresentSnoc(current[..i], h, StdoutKind);
      PresentSnoc(current[..i], h, FileKind);
      if h.StreamHandler? {
        if h.stream == Stderr {
          handlers := handlers[StderrKind := handlers[StderrKind].(present := true)];
        }
        if h.stream == Stdout {
          handlers := handlers[StdoutKind := handlers[StdoutKind].(present := true)];
        }
      }
      if h.FileHandler? {
        handlers := handlers[FileKind := handlers[FileKind].(present := true)];
      }
      i := i + 1;
    }
    assert current[..i] == current;
  }

  /** `get_logger` applied to the logger `logging.getLogger(name)` returns.
      `configured` is false for the KeyError of an unknown verbosity, which is
      raised after `propagate` has been cleared and before anything else
      changes. */
  method GetLogger(logger: Logger, verbosity: int, handle: seq<HandlerKind>, logfilePath: PathArg,
                   moduleDir: string, resolve: string -> Option<string>)
    returns (configured: bool)
    modifies logger
    ensures !logger.propagate
    ensures configured <==> VerbosityLevel(verbosity).Some?
    ensures configured ==> logger.level == VerbosityLevel(verbosity).value
    ensures configured ==>
      logger.handlers == Merge(old(logger.handlers), handle, ResolveLogPath(logfilePath, DefaultLogPath(moduleDir), resolve))
    ensures !configured ==> logger.level == old(logger.level) && logger.handlers == old(logger.handlers)
  {
    var path := ResolveLogPath(logfilePath, DefaultLogPath(moduleDir), resolve);
    logger.propagate := false;
    var level := VerbosityLevel(verbosity);
    if level.None? {
      return false;
    }
    logger.level := level.value;
    var current := logger.handlers;

    var handlers := MarkPresent(current, handle, path);

    var j := 0;
    assert Kinds[..0] == [];
    while j < |Kinds|
      invariant 0 <= j <= |Kinds|
      invariant logger.handlers == current + Added(current, handle, path, Kinds[..j])
      invariant logger.level == level.value && !logger.propagate
    {
      var k := Kinds[j];
      StatusOf(current, handle, path, k);
      assert Added(current, handle, path, Kinds[..j + 1]) ==
        Added(current, handle, path, Kinds[..j]) + (if k in handle && !Present(current, k) then [NewHandler(k, path)] else []) by {
        assert Kinds[..j + 1][..j] == Kinds[..j];
      }
      if handlers[k].required && handlers[k].present {
        // already there: nothing to add
      } else if handlers[k].required && !handlers[k].present {
        logger.handlers := logger.handlers + [handlers[k].handler];
      }
      j := j + 1;
    }
    assert Kinds[..j] == Kinds;
    return true;
  }
}
