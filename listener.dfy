/** The listener of `EpnmWebsocketListener.py`: four counters, a dispatch on the
    kind of each parsed message, and a heartbeat `"X"` that passes uncounted. */
module Listener {
  import opened Wrappers
  import opened Json
  import Base64
  import BasicAuth
  import StreamUrl
  import opened OutputFile

  /** The keep-alive frame the server sends. */
  const Heartbeat: string := "X"

  /** The `self.counters` dictionary. */
  datatype Counters = Counters(total: nat, ok: nat, error: nat, heartbeat: nat)

  const Zero: Counters := Counters(0, 0, 0, 0)

  /** Every rise of the total is matched by a rise of exactly one other counter. */
  predicate Balanced(c: Counters)
  {
    c.total == c.ok + c.error + c.heartbeat
  }

  /** What the consumption loop changes: the counters and the lines of the
      output file (opened in append mode, so it starts with what it held). */
  datatype State = State(counters: Counters, lines: seq<string>)

  /** `write_output`: the line written for a str (the string itself) or a dict
      (its `json.dumps`); `None` for the TypeError raised for any other value. */
  function WriteOutput(data: Json, dumps: Serializer): (r: Option<string>)
    ensures r.Some? <==> data.JString? || data.JObject?
    ensures data.JString? ==> r == Some(data.text)
    ensures data.JObject? ==> r == Some(dumps(data))
  {
    match data
    case JString(text) => Some(text)
    case JObject(_) => Some(dumps(data))
    case _ => None
  }

  /** Whether `echo_output(data)` returns. `false` stands for the exception
      its `print` raises instead. */
  type Echoer = Json -> bool

  /** What a run depends on besides the frames: the JSON library, the output
      file, the `echo` flag and the console. */
  datatype Env = Env(parse: Parser, dumps: Serializer, write: Writer, echo: bool, shows: Echoer)

  /** The `except` branch, reached by a failed parse, a failed write and a
      failed echo alike: the heartbeat is only logged, anything else is an
      error. */
  function Failed(s: State, frame: string): State
  {
    if frame == Heartbeat then s
    else s.(counters := s.counters.(total := s.counters.total + 1, error := s.counters.error + 1))
  }

  /** One pass of the body of the `async for` in `message_handler`: the frame
      is counted ok as soon as it parses; the write and the echo come after
      that, and either can still end in the `except` branch. */
  function Step(s: State, frame: string, env: Env): State
  {
    match env.parse(frame)
    case None => Failed(s, frame)
    case Some(data) =>
      var counted := State(s.counters.(total := s.counters.total + 1, ok := s.counters.ok + 1), s.lines);
      match WriteOutput(data, env.dumps)
      case None => Failed(counted, frame)
      case Some(line) =>
        if !env.write(line) then Failed(counted, frame)
        else
          var written := counted.(lines := s.lines + [line]);
          if env.echo && !env.shows(data) then Failed(written, frame) else written
  }

  /** The state after the loop has consumed `frames`, in order. */
  function Run(s: State, frames: seq<string>, env: Env): State
    decreases |frames|
  {
    if |frames| == 0 then s
    else Step(Run(s, frames[..|frames| - 1], env), frames[|frames| - 1], env)
  }

  class EpnmWebsocketListener {
    const host: string
    const username: string
    const password: string
    const echo: bool
    const extraHeaders: map<string, string>

    var receivedTotal: nat
    var receivedOk: nat
    var receivedError: nat
    var receivedHeartbeat: nat
    /** The lines of the output file. */
    var output: seq<string>

    function Snapshot(): State
      reads this
    {
      State(Counters(receivedTotal, receivedOk, receivedError, receivedHeartbeat), output)
    }

    /** `__init__`: the credentials are encoded once (an encoding error would
        be raised from here) and every counter starts at zero. `fileLines` is
        what the output file already holds. */
    constructor (host: string, username: string, password: string, echo: bool, fileLines: seq<string>)
      requires BasicAuth.IsLatin1(username) && BasicAuth.IsLatin1(password)
      ensures this.host == host && this.username == username && this.password == password && this.echo == echo
      ensures extraHeaders == BasicAuth.Headers(username, password).value
      ensures Snapshot() == State(Zero, fileLines)
    {
      this.host := host;
      this.username := username;
      this.password := password;
      this.echo := echo;
      extraHeaders := BasicAuth.Headers(username, password).value;
      receivedTotal, receivedOk, receivedError, receivedHeartbeat := 0, 0, 0, 0;
      output := fileLines;
    }

    /** `get_auth_header`: fails exactly when a credential is not Latin-1;
        otherwise the one `Authorization` header, from which a server reads
        back both credentials (given a user name without a colon). */
    function GetAuthHeader(): (r: Result<map<string, string>, BasicAuth.AuthError>)
      ensures r.Ok? <==> BasicAuth.IsLatin1(username) && BasicAuth.IsLatin1(password)
      ensures !BasicAuth.IsLatin1(username) ==> r == Err(BasicAuth.UnicodeEncodeError(username))
      ensures BasicAuth.IsLatin1(username) && !BasicAuth.IsLatin1(password) ==>
        r == Err(BasicAuth.UnicodeEncodeError(password))
      ensures r.Ok? ==> r.value.Keys == {BasicAuth.HeaderName}
      ensures r.Ok? ==>
        var v := r.value[BasicAuth.HeaderName];
        |v| >= |BasicAuth.Scheme| && v[..|BasicAuth.Scheme|] == BasicAuth.Scheme &&
        Base64.Decode(v[|BasicAuth.Scheme|..]) ==
          Some(BasicAuth.Credentials(BasicAuth.Latin1Encode(username).value, BasicAuth.Latin1Encode(password).value))
      ensures r.Ok? && ':' !in username ==>
        BasicAuth.ParseHeaderValue(r.value[BasicAuth.HeaderName]) == Some((username, password))
    {
      if BasicAuth.IsLatin1(username) && BasicAuth.IsLatin1(password) && ':' !in username then
        BasicAuth.RoundTrip(username, password);
        BasicAuth.Headers(username, password)
      else
        BasicAuth.Headers(username, password)
    }

    /** The `websocket_resource_url` of `consume`: it names this host and the
        topic, and no other. */
    function WebsocketResourceUrl(topic: StreamUrl.Topic): (r: string)
      ensures StreamUrl.ParseUrl(r) == Some((host, topic))
    {
      StreamUrl.ParseUrlRoundTrip(host, topic);
      StreamUrl.Url(host, topic)
    }

    method UpdateCounterOk()
      modifies this
      ensures receivedTotal == old(receivedTotal) + 1 && receivedOk == old(receivedOk) + 1
      ensures receivedError == old(receivedError) && receivedHeartbeat == old(receivedHeartbeat)
      ensures output == old(output)
    {
      receivedTotal := receivedTotal + 1;
      receivedOk := receivedOk + 1;
    }

    method UpdateCounterError()
      modifies this
      ensures receivedTotal == old(receivedTotal) + 1 && receivedError == old(receivedError) + 1
      ensures receivedOk == old(receivedOk) && receivedHeartbeat == old(receivedHeartbeat)
      ensures output == old(output)
    {
      receivedTotal := receivedTotal + 1;
      receivedError := receivedError + 1;
    }

    /** Defined by the source but called from nowhere. */
    method UpdateCounterHeartbeat()
      modifies this
      ensures receivedTotal == old(receivedTotal) + 1 && receivedHeartbeat == old(receivedHeartbeat) + 1
      ensures receivedOk == old(receivedOk) && receivedError == old(receivedError)
      ensures output == old(output)
    {
      receivedTotal := receivedTotal + 1;
      receivedHeartbeat := receivedHeartbeat + 1;
    }

    /** `message_handler` over the frames the connection delivers: the state
        afterwards is `Run` of the state before, with this listener's `echo`. */
    method MessageHandler(frames: seq<string>, parse: Parser, dumps: Serializer, write: Writer, shows: Echoer)
      modifies this
      ensures Snapshot() == Run(old(Snapshot()), frames, Env(parse, dumps, write, echo, shows))
    {
      var env := Env(parse, dumps, write, echo, shows);
      var i := 0;
      while i < |frames|
        invariant 0 <= i <= |frames|
        invariant Snapshot() == Run(old(Snapshot()), frames[..i], env)
      {
        var message := frames[i];
        var data := parse(message);
        var failed := data.None?;
        if data.Some? {
          UpdateCounterOk();
          var line := WriteOutput(data.value, dumps);
          if line.None? || !write(line.value) {
            failed := true;
          } else {
            output := output + [line.value];
            if echo && !shows(data.value) {
              failed := true;
            }
          }
        }
        if failed && message != Heartbeat {
          UpdateCounterError();
        }
        assert frames[..i + 1][..i] == frames[..i];
        i := i + 1;
      }
      assert frames[..|frames|] == frames;
    }
  }


  /** The class a frame falls into. */
  datatype Kind = Record | EchoFailed | Unwritten | HeartbeatFrame | Malformed

  /** `Record`: parsed, written and (if asked) echoed. `EchoFailed`: written,
      then the echo raised. `Unwritten`: parsed, but `write_output` raised,
      either the TypeError for a value that is neither str nor dict or an
      error of the write itself. */
  function KindOf(frame: string, env: Env): Kind
  {
    match env.parse(frame)
    case None => if frame == Heartbeat then HeartbeatFrame else Malformed
    case Some(data) =>
      match WriteOutput(data, env.dumps)
      case None => Unwritten
      case Some(line) =>
        if !env.write(line) then Unwritten
        else if env.echo && !env.shows(data) then EchoFailed
        else Record
  }

  /** The line a written frame puts in the file. */
  function LineOf(frame: string, env: Env): string
    requires KindOf(frame, env) == Record || KindOf(frame, env) == EchoFailed
  {
    WriteOutput(env.parse(frame).value, env.dumps).value
  }

  /** The effect of one frame, class by class, when `json.loads("X")` fails:
      a record is counted ok once and adds its one line; a frame whose echo
      fails adds its line and is counted ok and error; a frame that parses but
      is not written is counted ok and error and adds nothing; the heartbeat
      changes nothing; anything unparseable is one error and adds nothing. */
  lemma StepByKind(s: State, frame: string, env: Env)
    requires env.parse(Heartbeat) == None
    ensures var c, r := s.counters, Step(s, frame, env);
      match KindOf(frame, env)
      case Record =>
        r.counters == c.(total := c.total + 1, ok := c.ok + 1) && r.lines == s.lines + [LineOf(frame, env)]
      case EchoFailed =>
        r.counters == c.(total := c.total + 2, ok := c.ok + 1, error := c.error + 1) &&
        r.lines == s.lines + [LineOf(frame, env)]
      case Unwritten =>
        r.counters == c.(total := c.total + 2, ok := c.ok + 1, error := c.error + 1) && r.lines == s.lines
      case HeartbeatFrame => r == s
      case Malformed =>
        r.counters == c.(total := c.total + 1, error := c.error + 1) && r.lines == s.lines
  {
    if env.parse(frame).Some? {
      assert frame != Heartbeat;
    }
  }

  /** One frame keeps the counters balanced, leaves the heartbeat counter
      alone, and appends at most one line. */
  lemma StepKeeps(s: State, frame: string, env: Env)
    ensures var r := Step(s, frame, env);
      (Balanced(s.counters) ==> Balanced(r.counters)) &&
      r.counters.heartbeat == s.counters.heartbeat &&
      |s.lines| <= |r.lines| <= |s.lines| + 1 && r.lines[..|s.lines|] == s.lines
  {
  }

  /** The counter invariant holds after any sequence of frames. */
  lemma {:induction false} RunKeepsBalance(s: State, frames: seq<string>, env: Env)
    requires Balanced(s.counters)
    ensures Balanced(Run(s, frames, env).counters)
    decreases |frames|
  {
    if |frames| > 0 {
      RunKeepsBalance(s, frames[..|frames| - 1], env);
      StepKeeps(Run(s, frames[..|frames| - 1], env), frames[|frames| - 1], env);
    }
  }

  /** The output only grows at its end, and the heartbeat counter never moves
      (nothing calls `update_counter_heartbeat`). */
  lemma {:induction false} RunAppends(s: State, frames: seq<string>, env: Env)
    ensures var r := Run(s, frames, env);
      |s.lines| <= |r.lines| && r.lines[..|s.lines|] == s.lines &&
      r.counters.heartbeat == s.counters.heartbeat
    decreases |frames|
  {
    if |frames| > 0 {
      var mid := Run(s, frames[..|frames| - 1], env);
      RunAppends(s, frames[..|frames| - 1], env);
      StepKeeps(mid, frames[|frames| - 1], env);
      var r := Run(s, frames, env);
      assert r.lines[..|mid.lines|] == mid.lines;
      assert r.lines[..|s.lines|] == r.lines[..|mid.lines|][..|s.lines|];
    }
  }

  /** From a fresh listener: the counters stay balanced, the heartbeat counter
      stays at zero, and the file keeps what it held. */
  lemma RunFromStart(fileLines: seq<string>, frames: seq<string>, env: Env)
    ensures var r := Run(State(Zero, fileLines), frames, env);
      Balanced(r.counters) && r.counters.heartbeat == 0 &&
      |fileLines| <= |r.lines| && r.lines[..|fileLines|] == fileLines
  {
    RunKeepsBalance(State(Zero, fileLines), frames, env);
    RunAppends(State(Zero, fileLines), frames, env);
  }

  /** The file after one frame depends on the file before it and not on the
      counters. */
  lemma StepLines(s: State, t: State, frame: string, env: Env)
    requires s.lines == t.lines
    ensures Step(s, frame, env).lines == Step(t, frame, env).lines
  {
  }

  /** The file after a run depends on the file before it and not on the
      counters. */
  lemma {:induction false} RunLines(s: State, t: State, frames: seq<string>, env: Env)
    requires s.lines == t.lines
    ensures Run(s, frames, env).lines == Run(t, frames, env).lines
    decreases |frames|
  {
    if |frames| > 0 {
      var init := frames[..|frames| - 1];
      RunLines(s, t, init, env);
      StepLines(Run(s, init, env), Run(t, init, env), frames[|frames| - 1], env);
    }
  }

  /** `echo` changes no line of the file: the echo comes after the write. */
  lemma {:induction false} EchoKeepsLines(s: State, frames: seq<string>, env: Env)
    ensures Run(s, frames, env).lines == Run(s, frames, env.(echo := false)).lines
    decreases |frames|
  {
    if |frames| > 0 {
      var init := frames[..|frames| - 1];
      var frame := frames[|frames| - 1];
      EchoKeepsLines(s, init, env);
      var a, b := Run(s, init, env), Run(s, init, env.(echo := false));
      StepLines(a, b, frame, env);
      assert Step(b, frame, env).lines == Step(b, frame, env.(echo := false)).lines;
    }
  }

  /** As long as `echo_output` does not raise, `echo` changes nothing at all. */
  lemma {:induction false} EchoHarmless(s: State, frames: seq<string>, env: Env)
    requires forall data :: env.shows(data)
    ensures Run(s, frames, env) == Run(s, frames, env.(echo := false))
    decreases |frames|
  {
    if |frames| > 0 {
      EchoHarmless(s, frames[..|frames| - 1], env);
    }
  }

  /** How many of the frames fall into class `k`. */
  function CountKind(frames: seq<string>, env: Env, k: Kind): nat
    decreases |frames|
  {
    if |frames| == 0 then 0
    else CountKind(frames[..|frames| - 1], env, k) + (if KindOf(frames[|frames| - 1], env) == k then 1 else 0)
  }

  /** The lines the written frames put in the file, in order. */
  function WrittenLines(frames: seq<string>, env: Env): seq<string>
    decreases |frames|
  {
    if |frames| == 0 then []
    else
      var last := frames[|frames| - 1];
      var k := KindOf(last, env);
      WrittenLines(frames[..|frames| - 1], env) + (if k == Record || k == EchoFailed then [LineOf(last, env)] else [])
  }

  /** Every frame falls into exactly one class. */
  lemma {:induction false} KindsPartition(frames: seq<string>, env: Env)
    ensures CountKind(frames, env, Record) + CountKind(frames, env, EchoFailed) + CountKind(frames, env, Unwritten) +
            CountKind(frames, env, HeartbeatFrame) + CountKind(frames, env, Malformed) == |frames|
    decreases |frames|
  {
    if |frames| > 0 {
      KindsPartition(frames[..|frames| - 1], env);
    }
  }

  /** A whole run, frame class by frame class: what each counter gains and
      which lines are appended. */
  lemma {:induction false} RunByKind(s: State, frames: seq<string>, env: Env)
    requires env.parse(Heartbeat) == None
    ensures var c, r := s.counters, Run(s, frames, env);
      var records, echoFailed, unwritten, malformed :=
        CountKind(frames, env, Record), CountKind(frames, env, EchoFailed),
        CountKind(frames, env, Unwritten), CountKind(frames, env, Malformed);
      r.counters == Counters(c.total + records + 2 * (echoFailed + unwritten) + malformed,
                             c.ok + records + echoFailed + unwritten,
                             c.error + echoFailed + unwritten + malformed, c.heartbeat) &&
      r.lines == s.lines + WrittenLines(frames, env)
    decreases |frames|
  {
    if |frames| > 0 {
      var init := frames[..|frames| - 1];
      RunByKind(s, init, env);
      StepByKind(Run(s, init, env), frames[|frames| - 1], env);
    }
  }

  /** The sequence `["X", "{\"v\":1}", "not-json", "X"]`, with the record
      written and echoed, leaves two frames counted (one ok, one error), no
      heartbeat, and one line. */
  lemma HeartbeatScenario(env: Env)
    requires env.parse("X") == None && env.parse("not-json") == None
    requires env.parse("{\"v\":1}") == Some(JObject([("v", JNum(1, 0))]))
    requires env.write(env.dumps(JObject([("v", JNum(1, 0))])))
    requires env.echo ==> env.shows(JObject([("v", JNum(1, 0))]))
    ensures var r := Run(State(Zero, []), ["X", "{\"v\":1}", "not-json", "X"], env);
      r.counters == Counters(2, 1, 1, 0) && r.lines == [env.dumps(JObject([("v", JNum(1, 0))]))]
  {
    var v := JObject([("v", JNum(1, 0))]);
    var s0 := State(Zero, []);
    var s2 := State(Counters(1, 1, 0, 0), [env.dumps(v)]);
    var s3 := State(Counters(2, 1, 1, 0), [env.dumps(v)]);
    var f1, f2, f3 := ["X"], ["X", "{\"v\":1}"], ["X", "{\"v\":1}", "not-json"];
    var frames := ["X", "{\"v\":1}", "not-json", "X"];
    assert Step(s0, "X", env) == s0;
    assert Step(s0, "{\"v\":1}", env) == s2 by {
      assert WriteOutput(v, env.dumps) == Some(env.dumps(v));
    }
    assert Step(s2, "not-json", env) == s3 by {
      assert "not-json" != Heartbeat;
    }
    assert Step(s3, "X", env) == s3;
    assert Run(s0, f1, env) == s0 by {
      assert f1[..0] == [];
    }
    assert Run(s0, f2, env) == s2 by {
      assert f2[..1] == f1;
    }
    assert Run(s0, f3, env) == s3 by {
      assert f3[..2] == f2;
    }
    assert frames[..3] == f3;
  }
}
