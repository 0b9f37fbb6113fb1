/** The streaming resource a listener subscribes to: one of five topics, and the
    URL template `wss://{host}/restconf/streams/v1/{topic}.json` that both
    variants' `consume` builds. */
module StreamUrl {
  import opened Wrappers

  /** The `Literal` of `consume` and `run` (and the `choices` of `--topic`). */
  datatype Topic = Inventory | ServiceActivation | TemplateExecution | Alarm | All

  const Topics: seq<Topic> := [Inventory, ServiceActivation, TemplateExecution, Alarm, All]

  function TopicName(t: Topic): string
  {
    match t
    case Inventory => "inventory"
    case ServiceActivation => "service-activation"
    case TemplateExecution => "template-execution"
    case Alarm => "alarm"
    case All => "all"
  }

  /** The topic a command-line word names; `None` for any other word. */
  function TopicOf(name: string): (r: Option<Topic>)
    ensures r.Some? ==> TopicName(r.value) == name
    ensures r.None? ==> forall t: Topic :: TopicName(t) != name
  {
    if name == "inventory" then Some(Inventory)
    else if name == "service-activation" then Some(ServiceActivation)
    else if name == "template-execution" then Some(TemplateExecution)
    else if name == "alarm" then Some(Alarm)
    else if name == "all" then Some(All)
    else None
  }

  lemma TopicOfName(t: Topic)
    ensures TopicOf(TopicName(t)) == Some(t)
  {
  }

  const Scheme: string := "wss://"
  const Resource: string := "/restconf/streams/v1/"
  const Extension: string := ".json"

  /** Everything of the URL after the host. */
  function Tail(t: Topic): string
  {
    Resource + TopicName(t) + Extension
  }

  /** The scheme, then the host, then the tail of the topic. */
  function Url(host: string, t: Topic): (r: string)
    ensures |r| >= |Scheme| && r[..|Scheme|] == Scheme
    ensures EndsWith(r, Tail(t))
  {
    var r := Scheme + host + Tail(t);
    assert r[|r| - |Tail(t)|..] == Tail(t);
    r
  }

  predicate EndsWith(s: string, suffix: string)
  {
    |suffix| <= |s| && s[|s| - |suffix|..] == suffix
  }

  /** Reads a URL of the template back into its host and topic. */
  function ParseUrl(url: string): Option<(string, Topic)>
  {
    if |url| >= |Scheme| && url[..|Scheme|] == Scheme then MatchTopic(url[|Scheme|..], Topics)
    else None
  }

  function MatchTopic(rest: string, ts: seq<Topic>): Option<(string, Topic)>
  {
    if ts == [] then None
    else if EndsWith(rest, Tail(ts[0])) then Some((rest[..|rest| - |Tail(ts[0])|], ts[0]))
    else MatchTopic(rest, ts[1..])
  }

  /** A suffix agrees with the string it ends at every position counted from the end. */
  lemma SuffixChar(s: string, suffix: string, k: nat)
    ensures EndsWith(s, suffix) && 1 <= k <= |suffix| ==> s[|s| - k] == suffix[|suffix| - k]
  {
    if EndsWith(s, suffix) && 1 <= k <= |suffix| {
      assert s[|s| - |suffix|..][|suffix| - k] == s[|s| - k];
    }
  }

  /** No topic's tail ends another topic's tail: the last letter of the topic
      name tells them apart, and the fifth letter from its end tells
      `service-activation` from `template-execution`. */
  lemma TailsDistinct(t: Topic, u: Topic)
    requires t != u
    ensures !EndsWith(Tail(t), Tail(u))
  {
    SuffixChar(Tail(t), Tail(u), 6);
    SuffixChar(Tail(t), Tail(u), 10);
  }

  lemma EndsWithConcat(x: string, a: string, b: string)
    requires EndsWith(x + a, b)
    ensures |b| <= |a| ==> EndsWith(a, b)
    ensures |b| > |a| ==> EndsWith(b, a)
  {
    var s := x + a;
    if |b| <= |a| {
      assert a[|a| - |b|..] == s[|s| - |b|..];
    } else {
      assert b[|b| - |a|..] == s[|s| - |a|..];
    }
  }

  /** A string made of anything followed by the tail of `t` ends with the
      tail of `u` only when `u` is `t`. */
  lemma EndsWithTail(x: string, t: Topic, u: Topic)
    ensures EndsWith(x + Tail(t), Tail(u)) <==> t == u
  {
    var s := x + Tail(t);
    assert s[|s| - |Tail(t)|..] == Tail(t);
    if t != u && EndsWith(s, Tail(u)) {
      EndsWithConcat(x, Tail(t), Tail(u));
      if |Tail(u)| <= |Tail(t)| {
        TailsDistinct(t, u);
      } else {
        TailsDistinct(u, t);
      }
    }
  }

  lemma {:induction false} MatchTopicUrl(host: string, t: Topic, ts: seq<Topic>)
    requires t in ts
    ensures MatchTopic(host + Tail(t), ts) == Some((host, t))
  {
    var rest := host + Tail(t);
    EndsWithTail(host, t, ts[0]);
    if ts[0] == t {
      assert rest[..|rest| - |Tail(t)|] == host;
    } else {
      MatchTopicUrl(host, t, ts[1..]);
    }
  }

  lemma TopicListed(t: Topic)
    ensures t in Topics
  {
    match t
    case Inventory => assert Topics[0] == t;
    case ServiceActivation => assert Topics[1] == t;
    case TemplateExecution => assert Topics[2] == t;
    case Alarm => assert Topics[3] == t;
    case All => assert Topics[4] == t;
  }

  /** The URL holds its host and topic unchanged: parsing it gives them back. */
  lemma ParseUrlRoundTrip(host: string, t: Topic)
    ensures ParseUrl(Url(host, t)) == Some((host, t))
  {
    var rest := host + Tail(t);
    assert Url(host, t) == Scheme + rest;
    ParseUrlScheme(rest);
    TopicListed(t);
    MatchTopicUrl(host, t, Topics);
  }

  lemma ParseUrlScheme(rest: string)
    ensures ParseUrl(Scheme + rest) == MatchTopic(rest, Topics)
  {
    assert (Scheme + rest)[|Scheme|..] == rest;
  }

  /** For a fixed host distinct topics give distinct URLs (and, more generally,
      the URL determines both host and topic). */
  lemma UrlInjective(h1: string, t1: Topic, h2: string, t2: Topic)
    ensures Url(h1, t1) == Url(h2, t2) <==> h1 == h2 && t1 == t2
  {
    if Url(h1, t1) == Url(h2, t2) {
      ParseUrlRoundTrip(h1, t1);
      ParseUrlRoundTrip(h2, t2);
    }
  }
}
