# EPNM websocket listener, modelled in Dafny

The EPNM websocket client logs in to a Cisco EPN Manager server over a TLS
websocket. It subscribes to one of five notification topics, counts the
frames it receives, and appends what it parsed to an output file. The
repository has two listener variants, and this model covers both:

- the top-level `EpnmWebsocketListener.py`: four counters; it appends only
  messages that parse to a JSON string or object;
- the package copy `EpnmWebsocketListener/EpnmWebsocketListener.py`: three
  counters, and every parsed value written through `json.dumps`.

The package variant's logger comes from `EpnmWebsocketListener/get_logger.py`,
modelled here. The top-level variant imports a top-level `get_logger` module;
that file is not part of this model.

The model is split into modules:

- `Wrappers`: `Option` and `Result`.
- `Json`: the JSON value datatype.
  - `json.loads` enters as a function parameter of type `Parser`, where
    `None` stands for a raised exception.
  - `json.dumps` enters as a function parameter of type `Serializer`.
- `OutputFile`: a write to the output file enters as a function parameter
  of type `Writer`, where `false` stands for a raised exception.
- `Base64`: the base64 alphabet with padding, from section 4 of RFC 4648.
  - `Encode` models `b64encode`.
  - `Decode` is a strict decoder that also checks the padding bits.
  - Both round trips are proved, and so is their if-and-only-if.
- `BasicAuth`: the `Authorization` header that `get_auth_header` builds.
  - Latin-1 encoding, the colon join, base64 and the `Basic ` scheme.
  - A server-side parse as section 2 of RFC 7617 describes it.
  - A set of round-trip lemmas.
- `StreamUrl`: the five topics and the URL template of `consume`.
  - Parsing the URL gives back its host and topic.
  - The URL is injective.
- `Listener`: the top-level variant.
  - `Step` and `Run` specify one frame and a whole sequence of frames. A
    failed parse, a failed write and a failed echo all reach the same
    `except` branch.
  - The class `EpnmWebsocketListener` has counter fields and the output file
    as a `seq<string>`. Its `MessageHandler` loop is proved to compute `Run`.
  - Lemmas give the effect of each class of frame, and of a whole run.
- `PackageListener`: the package variant, built the same way.
- `LoggerConfig`: the pieces of `get_logger`.
  - The verbosity table and the log-path fallback.
  - `Merge`, the handler merge as a function, with its guarantees and its
    idempotence.
  - The class `Logger`, and the two loops as methods, proved to produce
    `Merge`.

## Model

| member | source | states |
|---|---|---|
| Base64.Encode | EpnmWebsocketListener.py:47 | `b64encode` output has length 4·⌈n/3⌉ and uses only alphabet and pad characters |
| Base64.DecodeEncode | EpnmWebsocketListener.py:47 | decoding the encoding of any byte string gives it back |
| Base64.EncodeDecode | EpnmWebsocketListener.py:47 | any text the decoder accepts is the encoding of what it decodes to |
| Base64.DecodeIffEncode | EpnmWebsocketListener.py:47 | `Decode(s) == Some(bs)` exactly when `s == Encode(bs)` |
| Base64.BytesSymbols | EpnmWebsocketListener.py:47 | group by group, the 6-bit symbols of a byte string join back into it |
| Base64.SymbolsBytes | EpnmWebsocketListener.py:47 | symbols that join into bytes are the symbols of those bytes |
| Base64.LexRender | EpnmWebsocketListener.py:47 | reading the characters of rendered symbols gives the symbols back |
| Base64.RenderLex | EpnmWebsocketListener.py:47 | text that reads as symbols is their rendering |
| BasicAuth.Latin1Encode | EpnmWebsocketListener.py:46 | `encode('latin1')` succeeds exactly when every code point is below 256, and keeps each code point as one byte |
| BasicAuth.Latin1RoundTrip | EpnmWebsocketListener.py:46 | every byte string is the Latin-1 encoding of its decoding |
| BasicAuth.Latin1Colon | EpnmWebsocketListener.py:46-47 | the colon byte occurs exactly where the character ':' occurs |
| BasicAuth.HeaderValue | EpnmWebsocketListener.py:45-51 | the value is `Ok` exactly when both credentials are Latin-1; otherwise the user name's error comes first; an `Ok` value starts with `Basic ` and its rest decodes to user ++ ':' ++ password |
| BasicAuth.Headers | EpnmWebsocketListener.py:48-51 | the dictionary has the one key `Authorization`, holding the header value |
| BasicAuth.FirstColon | EpnmWebsocketListener.py:47 | the found position holds a colon with none before it; `None` only when there is no colon |
| BasicAuth.RoundTrip | EpnmWebsocketListener.py:45-51 | for Latin-1 credentials and a colon-free user name, the server-side parse gives back both, colons in the password included |
| BasicAuth.ParsedIsBuilt | EpnmWebsocketListener.py:45-51 | every value the parse accepts is the header built from the pair it yields, whose user name has no colon |
| BasicAuth.ParseIffBuilt | EpnmWebsocketListener.py:45-51 | the parse yields a pair exactly when the value is that pair's header and the user name has no colon |
| BasicAuth.ColonInUserIsAmbiguous | EpnmWebsocketListener.py:46-47 | `u1:u2` with password `p` gives the same header as user `u1` with password `u2:p` |
| StreamUrl.TopicOf | cli_client.py:44 | a topic word maps to the topic of that name; every other word maps to none |
| StreamUrl.TopicOfName | cli_client.py:44 | each topic's name maps back to that topic |
| StreamUrl.Url | EpnmWebsocketListener.py:106 | the URL starts with `wss://` and ends with `/restconf/streams/v1/<topic>.json` |
| StreamUrl.TailsDistinct | EpnmWebsocketListener.py:104-106 | no topic's URL tail is a suffix of another's |
| StreamUrl.ParseUrlRoundTrip | EpnmWebsocketListener.py:106 | parsing the URL gives back its host and topic |
| StreamUrl.UrlInjective | EpnmWebsocketListener.py:104-106 | two URLs are equal exactly when their hosts and topics are |
| Listener.WriteOutput | EpnmWebsocketListener.py:59-65 | a str is written as itself and a dict as its `json.dumps`; every other value is the TypeError |
| Listener.Failed | EpnmWebsocketListener.py:97-102 | the `except` branch: the heartbeat frame changes nothing, any other frame adds one to total and to error |
| Listener.Step | EpnmWebsocketListener.py:89-102 | one frame: a failed parse goes to the `except` branch; a parsed one counts ok, then a failed `write_output` or a failed echo also goes to the `except` branch, the line staying in the file when only the echo failed |
| Listener.Run | EpnmWebsocketListener.py:87-102 | the frames are consumed one at a time, in order |
| Listener.KindOf | EpnmWebsocketListener.py:89-102 | the five classes of frame: record, echo failed, unwritten, heartbeat, malformed |
| Listener.EpnmWebsocketListener.constructor | EpnmWebsocketListener.py:24-42 | the parameters are stored, the headers are built, all four counters are zero and the file keeps its lines |
| Listener.EpnmWebsocketListener.GetAuthHeader | EpnmWebsocketListener.py:45-51 | the header fails exactly for a non-Latin-1 credential, with the user name's error first; it has the one key `Authorization`; its value is `Basic ` followed by text that base64-decodes to the Latin-1 user name, a colon and the Latin-1 password; when the user name has no colon, the server-side parse gives back both credentials |
| Listener.EpnmWebsocketListener.WebsocketResourceUrl | EpnmWebsocketListener.py:106 | the URL parses back to this listener's host and the given topic |
| Listener.EpnmWebsocketListener.UpdateCounterOk | EpnmWebsocketListener.py:67-69 | total and ok rise by one; nothing else changes |
| Listener.EpnmWebsocketListener.UpdateCounterError | EpnmWebsocketListener.py:71-73 | total and error rise by one; nothing else changes |
| Listener.EpnmWebsocketListener.UpdateCounterHeartbeat | EpnmWebsocketListener.py:75-77 | total and heartbeat rise by one; nothing else changes |
| Listener.EpnmWebsocketListener.MessageHandler | EpnmWebsocketListener.py:87-102 | the counters and file lines afterwards are `Run` of those before, over the frames in order, with this listener's `echo` and the given parse, dumps, write and echo outcomes |
| Listener.StepByKind | EpnmWebsocketListener.py:89-102 | when "X" does not parse: a record adds total+1, ok+1 and its line; a frame whose echo fails adds total+2, ok+1, error+1 and its line; a parsed frame that is not written (neither str nor dict, or the write raised) adds total+2, ok+1, error+1 and no line; "X" changes nothing; any other unparseable frame adds total+1, error+1 |
| Listener.StepKeeps | EpnmWebsocketListener.py:67-77 | one frame keeps total == ok + error + heartbeat, leaves the heartbeat counter alone, and appends at most one line after the old ones |
| Listener.RunKeepsBalance | EpnmWebsocketListener.py:67-77 | total == ok + error + heartbeat is kept by any sequence of frames |
| Listener.RunAppends | EpnmWebsocketListener.py:88-96 | earlier lines of the file are never changed, and the heartbeat counter never moves |
| Listener.RunFromStart | EpnmWebsocketListener.py:37-42 | from zero counters the balance holds, the heartbeat counter stays 0, and the file keeps its lines |
| Listener.StepLines | EpnmWebsocketListener.py:88-96 | the file after one frame depends only on the file before it, not on the counters |
| Listener.RunLines | EpnmWebsocketListener.py:88-96 | the file after a run depends only on the file before it, not on the counters |
| Listener.EchoKeepsLines | EpnmWebsocketListener.py:94-96 | the `echo` flag changes no line of the file, since the echo comes after the write |
| Listener.EchoHarmless | EpnmWebsocketListener.py:95-96 | when the echo never raises, the `echo` flag changes neither counters nor file |
| Listener.KindsPartition | EpnmWebsocketListener.py:87-102 | the five classes of frame add up to all frames |
| Listener.RunByKind | EpnmWebsocketListener.py:87-102 | when "X" does not parse, a whole run adds records + 2·(echo failed + unwritten) + malformed to total, records + echo failed + unwritten to ok, echo failed + unwritten + malformed to error, nothing to heartbeat; the file gains the written frames' lines, in order |
| Listener.HeartbeatScenario | EpnmWebsocketListener.py:87-102 | "X", a dict, "not-json", "X" leave total 2, ok 1, error 1, heartbeat 0, and one line |
| PackageListener.EpnmWebsocketListener.constructor | EpnmWebsocketListener/EpnmWebsocketListener.py:23-35 | the parameters are stored, the headers are built, the three counters are zero and the file keeps its lines |
| PackageListener.Failed | EpnmWebsocketListener/EpnmWebsocketListener.py:71-74 | the `except` branch: total and error rise by one, the file is unchanged |
| PackageListener.Step | EpnmWebsocketListener/EpnmWebsocketListener.py:65-74 | one frame: a failed parse is an error; a parsed frame counts ok and its `json.dumps` line is appended, and a write that raises also counts it as an error |
| PackageListener.Run | EpnmWebsocketListener/EpnmWebsocketListener.py:63-74 | the frames are consumed one at a time, in order |
| PackageListener.KindOf | EpnmWebsocketListener/EpnmWebsocketListener.py:66-74 | the three classes of frame: written, unwritten, malformed |
| PackageListener.EpnmWebsocketListener.GetAuthHeader | EpnmWebsocketListener/EpnmWebsocketListener.py:38-44 | as in the other variant: fails exactly for a non-Latin-1 credential, user name first; one key `Authorization`; `Basic ` and the base64 of user, colon, password; parses back to both when the user name has no colon |
| PackageListener.EpnmWebsocketListener.WebsocketResourceUrl | EpnmWebsocketListener/EpnmWebsocketListener.py:78 | the URL parses back to this listener's host and the given topic |
| PackageListener.EpnmWebsocketListener.WriteOutput | EpnmWebsocketListener/EpnmWebsocketListener.py:52-53 | the `json.dumps` line of any value is appended exactly when the write returns, and its result says which; the counters do not change |
| PackageListener.EpnmWebsocketListener.UpdateCounterOk | EpnmWebsocketListener/EpnmWebsocketListener.py:55-57 | total and ok rise by one; nothing else changes |
| PackageListener.EpnmWebsocketListener.UpdateCounterError | EpnmWebsocketListener/EpnmWebsocketListener.py:59-61 | total and error rise by one; nothing else changes |
| PackageListener.EpnmWebsocketListener.MessageHandler | EpnmWebsocketListener/EpnmWebsocketListener.py:63-74 | the counters and file lines afterwards are `Run` of those before, over the frames in order |
| PackageListener.RunCounts | EpnmWebsocketListener/EpnmWebsocketListener.py:63-74 | with n frames written and u whose write raised, a run adds frames + u to total, n + u to ok and frames − n to error; the file gains the `json.dumps` lines of the written values, in order |
| PackageListener.RunFromStart | EpnmWebsocketListener/EpnmWebsocketListener.py:31-35 | from zero: total == ok + error, total is the number of frames plus the failed writes, the file keeps its old lines and gains ok − (failed writes) more |
| PackageListener.NoUnwritten | EpnmWebsocketListener/EpnmWebsocketListener.py:52-53 | when every write returns, no frame is unwritten |
| PackageListener.RunFromStartWritable | EpnmWebsocketListener/EpnmWebsocketListener.py:63-74 | when every write returns, total is the number of frames and the file gains exactly ok lines |
| PackageListener.HeartbeatIsError | EpnmWebsocketListener/EpnmWebsocketListener.py:71-74 | "X" is counted as an error and writes nothing |
| PackageListener.WrittenReparse | EpnmWebsocketListener/EpnmWebsocketListener.py:52-53 | under the same assumption, every written value's `json.dumps` parses back to it |
| PackageListener.LinesReparse | EpnmWebsocketListener/EpnmWebsocketListener.py:52-53 | if `json.loads` reads back the `json.dumps` of every value it returns, the run appends one line per written frame, and each parses to that frame's value |
| PackageListener.HeartbeatScenario | EpnmWebsocketListener/EpnmWebsocketListener.py:63-74 | "X", a dict whose write returns, "not-json", "X" leave total 4, ok 1, error 3, and one line |
| LoggerConfig.VerbosityLevel | EpnmWebsocketListener/get_logger.py:8-14 | defined exactly on 1..5, where the level is 60 − 10·verbosity (CRITICAL down to DEBUG); other values are the KeyError |
| LoggerConfig.VerbosityDecreasing | EpnmWebsocketListener/get_logger.py:8-14 | a higher verbosity gives a strictly lower threshold |
| LoggerConfig.DefaultLogPath | EpnmWebsocketListener/get_logger.py:7 | the file `epnm_websocket.log` in the module's directory |
| LoggerConfig.ResolveLogPath | EpnmWebsocketListener/get_logger.py:18-26 | no path gives the default; a Path is kept; any other value is resolved, or gives the default when resolving raises |
| LoggerConfig.NewHandler | EpnmWebsocketListener/get_logger.py:28-44 | the dict's handler for stderr is a stream handler on stderr, for stdout one on stdout, and for the file a file handler on the resolved log path; each is detected as its own kind |
| LoggerConfig.Rank | EpnmWebsocketListener/get_logger.py:28-44 | the position of each kind among the dict's keys stderr, stdout, file |
| LoggerConfig.KindOf | EpnmWebsocketListener/get_logger.py:54-61 | a stream handler on stderr or stdout is of that kind, a file handler is of the file kind, all else of none |
| LoggerConfig.Statuses | EpnmWebsocketListener/get_logger.py:28-44 | the dict: for each kind, its new handler, whether `handle` names it, and whether a handler seen so far is of that kind |
| LoggerConfig.Added | EpnmWebsocketListener/get_logger.py:63-69 | the dict's handlers of the kinds gone through that are required and not present, in order |
| LoggerConfig.AddedRequired | EpnmWebsocketListener/get_logger.py:63-69 | every handler the second loop adds is of a required kind that was not present |
| LoggerConfig.AddedCovers | EpnmWebsocketListener/get_logger.py:63-69 | every required kind that was not present is added |
| LoggerConfig.AddedNothing | EpnmWebsocketListener/get_logger.py:63-69 | nothing is added when every required kind is present |
| LoggerConfig.AddedDistinct | EpnmWebsocketListener/get_logger.py:63-69 | over pairwise distinct kinds, no two added handlers are of the same kind |
| LoggerConfig.AddedAreNew | EpnmWebsocketListener/get_logger.py:28-69 | every added handler is the dict's own handler for its kind, the file handler built on the resolved path |
| LoggerConfig.AddedOrdered | EpnmWebsocketListener/get_logger.py:63-69 | going through kinds in increasing position, the handlers are added in increasing position too |
| LoggerConfig.Merge | EpnmWebsocketListener/get_logger.py:52-69 | the old handlers stay as they were, in front; at most three are added, each the dict's own handler (the file handler on the resolved path) of a required kind that was absent, no two of the same kind, in the dict's order stderr, stdout, file; afterwards every required kind is present; a kind not required is present exactly when it was before |
| LoggerConfig.MergeIdempotent | EpnmWebsocketListener/get_logger.py:52-69 | a second call with the same `handle` leaves the handler list as the first left it |
| LoggerConfig.DefaultMerge | EpnmWebsocketListener/get_logger.py:16 | with the default `handle`, a stderr and a file handler are present afterwards, and a stdout handler exactly when there was one before |
| LoggerConfig.FreshDefaultMerge | EpnmWebsocketListener/get_logger.py:16-69 | a logger with no handlers gets, with the default `handle`, exactly the stderr handler and then the file handler on the resolved path |
| LoggerConfig.Logger.constructor | EpnmWebsocketListener/get_logger.py:49 | a new logger has level NOTSET, propagates, and has no handlers |
| LoggerConfig.PresentSnoc | EpnmWebsocketListener/get_logger.py:54-61 | a kind is present after one more handler exactly when it was before, or the new handler is of that kind |
| LoggerConfig.MarkPresent | EpnmWebsocketListener/get_logger.py:54-61 | the dict after the first loop flags each kind present exactly when a current handler is of that kind |
| LoggerConfig.GetLogger | EpnmWebsocketListener/get_logger.py:16-72 | `propagate` is always cleared; a valid verbosity sets the level and leaves the handlers as `Merge` says, with the log path falling back to the default beside the module; an invalid one is the KeyError and changes nothing else |

## Left out

- `get_ssl_context`: it only sets two flags on a library TLS context.
- The websocket connection, the TLS handshake and the `async for` over the
  socket: a connection is the sequence of text frames it delivers. Binary
  frames are not modelled.
- The `asyncio` event loop, `run_forever`, the `KeyboardInterrupt` handler
  and the final statistics `print` in `run`.
- The exit on a status error whose text contains "HTTP 401": this matches on
  the text of a library exception. Any other status error is swallowed
  without a message.
- The file itself: it is the sequence of lines written to it, one per
  `write` call. A str that holds a newline is one element, not several
  lines.
- `print`, the output of `echo_output`, and every logger call. They write
  only to stdout, stderr and the log file. Whether `echo_output` raises is
  kept, as a function of the value alone.
- Whether a write to the output file raises is a function of the line
  alone. A write that raises adds nothing: a partial write is not
  modelled.
- `json.loads` and `json.dumps`: they are function parameters, not modelled
  code. `PackageListener.LinesReparse` takes the round trip between them
  as an explicit assumption.
- Numbers in JSON are kept as a decimal mantissa and exponent. Floating
  point is not modelled.
- `json.dumps` never raises here. A `json.dumps` that raises on a parsed
  value (a recursion error on very deep nesting, say) is not modelled; it
  would reach the `except` branch like a failed write.
- `Listener.EpnmWebsocketListener.constructor`: requires Latin-1
  credentials, because `__init__` raises otherwise and there is then no
  listener. The failure itself is modelled in `BasicAuth.HeaderValue`.
- `PackageListener.EpnmWebsocketListener.constructor`: requires Latin-1
  credentials, for the same reason.
- Both listener constructors leave out the `get_logger` call and the path of
  the output file. The logger set-up is modelled on its own in
  `LoggerConfig`.
- `LoggerConfig.GetLogger`: it acts on a `Logger` the caller passes in.
  The registry of `logging.getLogger`, which hands out one logger per name,
  is not modelled.
- `LoggerConfig.GetLogger`: the verbosity is an integer. Python would also
  accept `True` or `1.0` as a key of the table.
- Formatters, and every other attribute of a handler. A handler is reduced
  to its kind: a stream handler on stderr, on stdout or on another stream,
  a file handler with its path, or some other handler.
- `DEFAULT_LOG_PATH`: the resolved directory of the module's file is the
  `moduleDir` parameter of `LoggerConfig.GetLogger`. The path resolution
  of `pathlib` is the `resolve` parameter.
- `cli_client.py` in both places: argument parsing, the password prompt
  and the wiring. Its topic choices are `StreamUrl.Topic`.
- The colon separator: the header encodes a user name that contains a
  colon without complaint, and RFC 7617 forbids such a name.
  `BasicAuth.ColonInUserIsAmbiguous` states what that costs.
- `Base64.Encode`: the model does not apply `.strip()` to its result. The
  output of `b64encode` has no whitespace, so the strip removes nothing.

The top-level variant defines `update_counter_heartbeat` but never calls it:
the `except` branch only logs a heartbeat "X", so "X" counts nothing and the
heartbeat counter stays at zero. On the sequence "X", a dict, "not-json", "X"
the total is therefore 2, not 4. `Listener.HeartbeatScenario` gives these
counts.
