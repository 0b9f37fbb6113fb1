/** The listener of `EpnmWebsocketListener/EpnmWebsocketListener.py`: two
    classes of frame, each counted once, and every parsed JSON value written
    through `json.dumps`; the heartbeat `"X"` has no special case. */
module PackageListener {
  import opened Wrappers
  import opened Json
  import Base64
  import BasicAuth
  import StreamUrl
  import opened OutputFile

  /** The keep-alive frame the server sends. */
  const Heartbeat: string := "X"

  /** The `self.counters` dictionary of this variant. */
  datatype Counters = Counters(total: nat, ok: nat, error: nat)

  const Zero: Counters := Counters(0, 0, 0)

  predicate Balanced(c: Counters)
  {
    c.total == c.ok + c.error
  }

  /** The counters and the lines of the output file. */
  datatype State = State(counters: Counters, lines: seq<string>)

  /** What a run depends on besides the frames: the JSON library and the
      output file. */
  datatype Env = Env(parse: Parser, dumps: Serializer, write: Writer)

  /** The `except` branch: one more error. */
  function Failed(s: State): State
  {
    s.(counters := s.counters.(total := s.counters.total + 1, error := s.counters.error + 1))
  }

  /** One pass of the body of the `async for` in `message_handler`: the frame
      is counted ok as soon as it parses, and a write that raises then also
      counts it as an error. */
  function Step(s: State, frame: string, env: Env): State
  {
    match env.parse(frame)
    case None => Failed(s)
    case Some(data) =>
      var counted := s.counters.(total := s.counters.total + 1, ok := s.counters.ok + 1);
      var line := env.dumps(data);
      if env.write(line) then State(counted, s.lines + [line]) else Failed(State(counted, s.lines))
  }

  /** The state after the loop has consumed `frames`, in order. */
  function Run(s: State, frames: seq<string>, env: Env): State
    decreases |frames|
  {
    if |frames| == 0 then s
    else Step(Run(s, frames[..|frames| - 1], env), frames[|frames| - 1], env)
  }

  class EpnmWebsocketListener {
    const host: string
    const username: string
    const password: string
    const extraHeaders: map<string, string>

    var receivedTotal: nat
    var receivedOk: nat
    var receivedError: nat
    /** The lines of the output file. */
    var output: seq<string>

    function Snapshot(): State
      reads this
    {
      State(Counters(receivedTotal, receivedOk, receivedError), output)
    }

    /** `__init__`: the credentials are encoded once (an encoding error would
        be raised from here) and every counter starts at zero. `fileLines` is
        what the output file already holds. */
    constructor (host: string, username: string, password: string, fileLines: seq<string>)
      requires BasicAuth.IsLatin1(username) && BasicAuth.IsLatin1(password)
      ensures this.host == host && this.username == username && this.password == password
      ensures extraHeaders == BasicAuth.Headers(username, password).value
      ensures Snapshot() == State(Zero, fileLines)
    {
      this.host := host;
      this.username := username;
      this.password := password;
      extraHeaders := BasicAuth.Headers(username, password).value;
      receivedTotal, receivedOk, receivedError := 0, 0, 0;
      output := fileLines;
    }

    /** `get_auth_header`, built as in the other variant. */
    function GetAuthHeader(): (r: Result<map<string, string>, BasicAuth.AuthError>)
      ensures r.Ok? <==> BasicAuth.IsLatin1(username) && BasicAuth.IsLatin1(password)
      ensures !BasicAuth.IsLatin1(username) ==> r == Err(BasicAuth.UnicodeEncodeError(username))
      ensures BasicAuth.IsLatin1(username) && !BasicAuth.IsLatin1(password) ==>
        r == Err(BasicAuth.UnicodeEncodeError(password))
      ensures r.Ok? ==> r.value.Keys == {BasicAuth.HeaderName}
      ensures r.Ok? ==>
        var v := r.value[BasicAuth.HeaderName];
        |v| >= |BasicAuth.Scheme| && v[..|BasicAuth.Scheme|] == BasicAuth.Scheme &&
        Base64.Decode(v[|BasicAuth.Scheme|..]) ==
          Some(BasicAuth.Credentials(BasicAuth.Latin1Encode(username).value, BasicAuth.Latin1Encode(password).value))
      ensures r.Ok? && ':' !in username ==>
        BasicAuth.ParseHeaderValue(r.value[BasicAuth.HeaderName]) == Some((username, password))
    {
      if BasicAuth.IsLatin1(username) && BasicAuth.IsLatin1(password) && ':' !in username then
        BasicAuth.RoundTrip(username, password);
        BasicAuth.Headers(username, password)
      else
        BasicAuth.Headers(username, password)
    }

    /** The `websocket_resource_url` of `consume`. */
    function WebsocketResourceUrl(topic: StreamUrl.Topic): (r: string)
      ensures StreamUrl.ParseUrl(r) == Some((host, topic))
    {
      StreamUrl.ParseUrlRoundTrip(host, topic);
      StreamUrl.Url(host, topic)
    }

    /** `write_output`: one `json.dumps` line, whatever the value, if the
        write returns; `written` is false for the exception it raises. */
    method WriteOutput(data: Json, dumps: Serializer, write: Writer) returns (written: bool)
      modifies this
      ensures written == write(dumps(data))
      ensures output == old(output) + (if written then [dumps(data)] else [])
      ensures receivedTotal == old(receivedTotal) && receivedOk == old(receivedOk) && receivedError == old(receivedError)
    {
      var line := dumps(data);
      written := write(line);
      if written {
        output := output + [line];
      }
    }

    method UpdateCounterOk()
      modifies this
      ensures receivedTotal == old(receivedTotal) + 1 && receivedOk == old(receivedOk) + 1
      ensures receivedError == old(receivedError) && output == old(output)
    {
      receivedTotal := receivedTotal + 1;
      receivedOk := receivedOk + 1;
    }

    method UpdateCounterError()
      modifies this
      ensures receivedTotal == old(receivedTotal) + 1 && receivedError == old(receivedError) + 1
      ensures receivedOk == old(receivedOk) && output == old(output)
    {
      receivedTotal := receivedTotal + 1;
      receivedError := receivedError + 1;
    }

    /** `message_handler` over the frames the connection delivers. */
    method MessageHandler(frames: seq<string>, parse: Parser, dumps: Serializer, write: Writer)
      modifies this
      ensures Snapshot() == Run(old(Snapshot()), frames, Env(parse, dumps, write))
    {
      var env := Env(parse, dumps, write);
      var i := 0;
      while i < |frames|
        invariant 0 <= i <= |frames|
        invariant Snapshot() == Run(old(Snapshot()), frames[..i], env)
      {
        var data := parse(frames[i]);
        var failed := true;
        if data.Some? {
          UpdateCounterOk();
          var written := WriteOutput(data.value, dumps, write);
          failed := !written;
        }
        if failed {
          UpdateCounterError();
        }
        assert frames[..i + 1][..i] == frames[..i];
        i := i + 1;
      }
      assert frames[..|frames|] == frames;
    }
  }


  /** The class a frame falls into: parsed and written, parsed but the write
      raised, or not parsed (the heartbeat included). */
  datatype Kind = Written | Unwritten | Malformed

  function KindOf(frame: string, env: Env): Kind
  {
    match env.parse(frame)
    case None => Malformed
    case Some(data) => if env.write(env.dumps(data)) then Written else Unwritten
  }

  /** How many of the frames fall into class `k`. */
  function CountKind(frames: seq<string>, env: Env, k: Kind): nat
    decreases |frames|
  {
    if |frames| == 0 then 0
    else CountKind(frames[..|frames| - 1], env, k) + (if KindOf(frames[|frames| - 1], env) == k then 1 else 0)
  }

  /** The values of the frames that are written, in order. */
  function WrittenValues(frames: seq<string>, env: Env): (vs: seq<Json>)
    ensures |vs| <= |frames|
    decreases |frames|
  {
    if |frames| == 0 then []
    else
      var last := frames[|frames| - 1];
      WrittenValues(frames[..|frames| - 1], env) + (if KindOf(last, env) == Written then [env.parse(last).value] else [])
  }

  function Dumped(vs: seq<Json>, dumps: Serializer): (lines: seq<string>)
    ensures |lines| == |vs|
    ensures forall j :: 0 <= j < |vs| ==> lines[j] == dumps(vs[j])
  {
    seq(|vs|, j requires 0 <= j < |vs| => dumps(vs[j]))
  }

  /** A whole run: every frame adds one to the total, and a frame whose
      write raises adds one more; the n frames written add n to ok and their
      `json.dumps` lines, in order; a frame whose write raises adds one to ok
      and one to error; all other frames add one to error. */
  lemma {:induction false} RunCounts(s: State, frames: seq<string>, env: Env)
    ensures var c, r, n, u := s.counters, Run(s, frames, env), |WrittenValues(frames, env)|, CountKind(frames, env, Unwritten);
      r.counters == Counters(c.total + |frames| + u, c.ok + n + u, c.error + (|frames| - n)) &&
      r.lines == s.lines + Dumped(WrittenValues(frames, env), env.dumps)
    decreases |frames|
  {
    if |frames| > 0 {
      var init := frames[..|frames| - 1];
      RunCounts(s, init, env);
      var last := frames[|frames| - 1];
      if KindOf(last, env) == Written {
        var v := env.parse(last).value;
        assert WrittenValues(frames, env) == WrittenValues(init, env) + [v];
        assert Dumped(WrittenValues(frames, env), env.dumps) == Dumped(WrittenValues(init, env), env.dumps) + [env.dumps(v)];
      }
    }
  }

  /** From a fresh listener: the counter invariant holds, the total is the
      number of frames consumed plus the failed writes, and the file gained
      one line per ok frame whose write returned. */
  lemma RunFromStart(fileLines: seq<string>, frames: seq<string>, env: Env)
    ensures var r, u := Run(State(Zero, fileLines), frames, env), CountKind(frames, env, Unwritten);
      Balanced(r.counters) && r.counters.total == |frames| + u &&
      |r.lines| + u == |fileLines| + r.counters.ok &&
      |fileLines| <= |r.lines| && r.lines[..|fileLines|] == fileLines
  {
    RunCounts(State(Zero, fileLines), frames, env);
  }

  /** No frame is unwritten when every write returns. */
  lemma {:induction false} NoUnwritten(frames: seq<string>, env: Env)
    requires forall line :: env.write(line)
    ensures CountKind(frames, env, Unwritten) == 0
    decreases |frames|
  {
    if |frames| > 0 {
      NoUnwritten(frames[..|frames| - 1], env);
    }
  }

  /** With a file that takes every write, the total is the number of frames
      and the file gains exactly one line per ok frame. */
  lemma RunFromStartWritable(fileLines: seq<string>, frames: seq<string>, env: Env)
    requires forall line :: env.write(line)
    ensures var r := Run(State(Zero, fileLines), frames, env);
      r.counters.total == |frames| && |r.lines| == |fileLines| + r.counters.ok
  {
    RunFromStart(fileLines, frames, env);
    NoUnwritten(frames, env);
  }

  /** The heartbeat is an error like any other unparseable frame. */
  lemma HeartbeatIsError(s: State, env: Env)
    requires env.parse(Heartbeat) == None
    ensures Step(s, Heartbeat, env) ==
      State(s.counters.(total := s.counters.total + 1, error := s.counters.error + 1), s.lines)
  {
  }

  /** `json.loads` reads back what `json.dumps` writes of any value it
      produced itself. */
  ghost predicate ReadsBack(env: Env)
  {
    forall f :: env.parse(f).Some? ==> env.parse(env.dumps(env.parse(f).value)) == env.parse(f)
  }

  lemma {:induction false} WrittenReparse(frames: seq<string>, env: Env)
    requires ReadsBack(env)
    ensures forall j :: 0 <= j < |WrittenValues(frames, env)| ==>
      env.parse(env.dumps(WrittenValues(frames, env)[j])) == Some(WrittenValues(frames, env)[j])
    decreases |frames|
  {
    if |frames| > 0 {
      var init := frames[..|frames| - 1];
      var last := frames[|frames| - 1];
      WrittenReparse(init, env);
      var vs := WrittenValues(frames, env);
      var earlier := WrittenValues(init, env);
      if KindOf(last, env) == Written {
        var v := env.parse(last).value;
        assert vs == earlier + [v];
        assert env.parse(env.dumps(v)) == Some(v) by {
          assert env.parse(last).Some?;
        }
        forall j | 0 <= j < |vs| ensures env.parse(env.dumps(vs[j])) == Some(vs[j]) {
          if j < |earlier| {
            assert vs[j] == earlier[j];
            assert env.parse(env.dumps(earlier[j])) == Some(earlier[j]);
          }
        }
      } else {
        assert vs == earlier;
        assert forall j :: 0 <= j < |earlier| ==> env.parse(env.dumps(earlier[j])) == Some(earlier[j]);
      }
    }
  }

  /** If `json.loads` reads back what `json.dumps` writes of the values it
      produces (an assumption about the library, not something modelled
      here), every line a run appends parses to the value of the frame it
      came from. */
  lemma LinesReparse(s: State, frames: seq<string>, env: Env)
    requires ReadsBack(env)
    ensures var r, vs := Run(s, frames, env), WrittenValues(frames, env);
      |r.lines| == |s.lines| + |vs| &&
      forall j :: 0 <= j < |vs| ==> env.parse(r.lines[|s.lines| + j]) == Some(vs[j])
  {
    var r, vs := Run(s, frames, env), WrittenValues(frames, env);
    RunCounts(s, frames, env);
    WrittenReparse(frames, env);
    var added := Dumped(vs, env.dumps);
    assert r.lines == s.lines + added;
    forall j | 0 <= j < |vs| ensures env.parse(r.lines[|s.lines| + j]) == Some(vs[j]) {
      assert r.lines[|s.lines| + j] == added[j] == env.dumps(vs[j]);
    }
  }

  /** The sequence `["X", "{\"v\":1}", "not-json", "X"]`, with the record
      written, gives four frames counted, one ok and three errors, and one
      line. */
  lemma HeartbeatScenario(env: Env)
    requires env.parse("X") == None && env.parse("not-json") == None
    requires env.parse("{\"v\":1}") == Some(JObject([("v", JNum(1, 0))]))
    requires env.write(env.dumps(JObject([("v", JNum(1, 0))])))
    ensures var r := Run(State(Zero, []), ["X", "{\"v\":1}", "not-json", "X"], env);
      r.counters == Counters(4, 1, 3) && r.lines == [env.dumps(JObject([("v", JNum(1, 0))]))]
  {
    var v := JObject([("v", JNum(1, 0))]);
    var s0 := State(Zero, []);
    var f1, f2, f3 := ["X"], ["X", "{\"v\":1}"], ["X", "{\"v\":1}", "not-json"];
    var frames := ["X", "{\"v\":1}", "not-json", "X"];
    assert Run(s0, f1, env) == State(Counters(1, 0, 1), []) by {
      assert f1[..0] == [];
    }
    assert Run(s0, f2, env) == State(Counters(2, 1, 1), [env.dumps(v)]) by {
      assert f2[..1] == f1;
    }
    assert Run(s0, f3, env) == State(Counters(3, 1, 2), [env.dumps(v)]) by {
      assert f3[..2] == f2;
    }
    assert frames[..3] == f3;
  }
}
