/** The `Authorization` request header of HTTP Basic authentication (section 2
    of RFC 7617) as `get_auth_header` builds it in both listener variants:
    each credential is encoded as Latin-1, the two are joined with a colon, the
    result is base64-encoded, and the scheme name `Basic ` is put in front. */
module BasicAuth {
  import opened Wrappers
  import Base64

  type byte = Base64.byte

  /** `str.encode('latin1')` raises for a code point above 255. */
  datatype AuthError = UnicodeEncodeError(text: string)

  const Scheme: string := "Basic "
  const HeaderName: string := "Authorization"
  const Colon: byte := 58

  predicate IsLatin1(s: string)
  {
    forall i :: 0 <= i < |s| ==> s[i] as int < 256
  }

  /** `bytes.decode('latin1')`: every byte is the code point of the same value. */
  function Latin1Decode(bs: seq<byte>): (s: string)
    ensures |s| == |bs|
    ensures forall i :: 0 <= i < |bs| ==> s[i] as int == bs[i]
  {
    seq(|bs|, i requires 0 <= i < |bs| => bs[i] as char)
  }

  /** `str.encode('latin1')`: `None` stands for the UnicodeEncodeError. */
  function Latin1Encode(s: string): (r: Option<seq<byte>>)
    ensures r.Some? <==> IsLatin1(s)
    ensures r.Some? ==> |r.value| == |s| && Latin1Decode(r.value) == s
  {
    if IsLatin1(s) then Some(seq(|s|, i requires 0 <= i < |s| && IsLatin1(s) => s[i] as int))
    else None
  }

  /** Every byte string is the Latin-1 encoding of its decoding. */
  lemma Latin1RoundTrip(bs: seq<byte>)
    ensures Latin1Encode(Latin1Decode(bs)) == Some(bs)
  {
    var s := Latin1Decode(bs);
    assert IsLatin1(s);
    assert Latin1Encode(s).value == bs;
  }

  /** The byte `Colon` occurs in `bs` exactly where the character ':' occurs in `s`. */
  lemma Latin1Colon(s: string, k: int)
    requires IsLatin1(s) && 0 <= k < |s|
    ensures (s[k] == ':') <==> (Latin1Encode(s).value[k] == Colon)
  {
  }

  /** The two encoded credentials joined by one colon byte. */
  function Credentials(user: seq<byte>, password: seq<byte>): seq<byte>
  {
    user + [Colon] + password
  }

  /** The header value: the scheme, then the base64 text; the error when either
      credential has a code point outside Latin-1 (the user name is encoded
      first, so its error is the one raised). A successful value carries the
      scheme followed by a base64 text that decodes to the joined credentials. */
  function HeaderValue(username: string, password: string): (r: Result<string, AuthError>)
    ensures r.Ok? <==> IsLatin1(username) && IsLatin1(password)
    ensures !IsLatin1(username) ==> r == Err(UnicodeEncodeError(username))
    ensures IsLatin1(username) && !IsLatin1(password) ==> r == Err(UnicodeEncodeError(password))
    ensures r.Ok? ==>
      |r.value| >= |Scheme| && r.value[..|Scheme|] == Scheme &&
      Base64.Decode(r.value[|Scheme|..]) ==
        Some(Credentials(Latin1Encode(username).value, Latin1Encode(password).value))
  {
    match Latin1Encode(username)
    case None => Err(UnicodeEncodeError(username))
    case Some(u) =>
      match Latin1Encode(password)
      case None => Err(UnicodeEncodeError(password))
      case Some(p) =>
        var encoded := Base64.Encode(Credentials(u, p));
        Base64.DecodeEncode(Credentials(u, p));
        assert (Scheme + encoded)[|Scheme|..] == encoded;
        Ok(Scheme + encoded)
  }

  /** The dictionary `get_auth_header` returns: the one header `Authorization`. */
  function Headers(username: string, password: string): (r: Result<map<string, string>, AuthError>)
    ensures r.Ok? <==> HeaderValue(username, password).Ok?
    ensures r.Ok? ==> r.value.Keys == {HeaderName} && r.value[HeaderName] == HeaderValue(username, password).value
  {
    match HeaderValue(username, password)
    case Err(e) => Err(e)
    case Ok(v) => Ok(map[HeaderName := v])
  }

  /** The position of the first colon, as a server splits the credentials. */
  function FirstColon(bs: seq<byte>): (r: Option<nat>)
    ensures r.Some? ==> r.value < |bs| && bs[r.value] == Colon && Colon !in bs[..r.value]
    ensures r.None? ==> Colon !in bs
  {
    if |bs| == 0 then None
    else if bs[0] == Colon then Some(0)
    else match FirstColon(bs[1..])
      case None => None
      case Some(k) => Some(k + 1)
  }

  /** The receiving side of section 2 of RFC 7617: the scheme, a base64 text,
      and a user-id that runs up to the first colon; all of the rest, colons
      included, is the password. */
  function ParseHeaderValue(v: string): Option<(string, string)>
  {
    if |v| >= |Scheme| && v[..|Scheme|] == Scheme then
      match Base64.Decode(v[|Scheme|..])
      case None => None
      case Some(bs) =>
        match FirstColon(bs)
        case None => None
        case Some(k) => Some((Latin1Decode(bs[..k]), Latin1Decode(bs[k + 1..])))
    else None
  }

  lemma FirstColonAfter(u: seq<byte>, p: seq<byte>)
    requires Colon !in u
    ensures FirstColon(Credentials(u, p)) == Some(|u|)
  {
    var bs := Credentials(u, p);
    assert bs[|u|] == Colon && bs[..|u|] == u;
  }

  lemma ColonFreeEncoding(username: string)
    requires IsLatin1(username) && ':' !in username
    ensures Colon !in Latin1Encode(username).value
  {
    var u := Latin1Encode(username).value;
    forall k | 0 <= k < |u| ensures u[k] != Colon {
      Latin1Colon(username, k);
    }
  }

  /** Decoding the header gives back both credentials verbatim, a password
      with colons included, as long as the user name has none (RFC 7617 does
      not allow one there). */
  lemma RoundTrip(username: string, password: string)
    requires IsLatin1(username) && IsLatin1(password) && ':' !in username
    ensures HeaderValue(username, password).Ok?
    ensures ParseHeaderValue(HeaderValue(username, password).value) == Some((username, password))
  {
    var u, p := Latin1Encode(username).value, Latin1Encode(password).value;
    var bs := Credentials(u, p);
    ColonFreeEncoding(username);
    FirstColonAfter(u, p);
    assert bs[..|u|] == u && bs[|u| + 1..] == p;
  }

  lemma ColonFreeDecoding(u: seq<byte>)
    requires Colon !in u
    ensures ':' !in Latin1Decode(u)
  {
    var username := Latin1Decode(u);
    forall j | 0 <= j < |username| ensures username[j] != ':' {
      assert u[j] != Colon;
    }
  }

  lemma BuiltFrom(u: seq<byte>, p: seq<byte>, text: string)
    requires Base64.Decode(text) == Some(Credentials(u, p))
    ensures HeaderValue(Latin1Decode(u), Latin1Decode(p)) == Ok(Scheme + text)
  {
    Latin1RoundTrip(u);
    Latin1RoundTrip(p);
    Base64.EncodeDecode(text);
  }

  /** The converse: every header value the receiving side accepts is the one
      this encoder builds from what it yields. */
  lemma ParsedIsBuilt(v: string)
    requires ParseHeaderValue(v).Some?
    ensures var (username, password) := ParseHeaderValue(v).value;
      ':' !in username && HeaderValue(username, password) == Ok(v)
  {
    var text := v[|Scheme|..];
    var bs := Base64.Decode(text).value;
    var k := FirstColon(bs).value;
    var u, p := bs[..k], bs[k + 1..];
    assert bs == Credentials(u, p);
    assert v == Scheme + text;
    BuiltFrom(u, p, text);
    ColonFreeDecoding(u);
  }

  /** The parse of a header value succeeds exactly on the values built from a
      colon-free user name, and gives that pair. */
  lemma ParseIffBuilt(v: string, username: string, password: string)
    ensures ParseHeaderValue(v) == Some((username, password)) <==>
      (':' !in username && HeaderValue(username, password) == Ok(v))
  {
    if ParseHeaderValue(v) == Some((username, password)) {
      ParsedIsBuilt(v);
    }
    if ':' !in username && HeaderValue(username, password) == Ok(v) {
      RoundTrip(username, password);
    }
  }

  /** The encoder does not reject a colon in the user name, and such a header
      cannot be told apart from one whose password carries the rest. */
  lemma ColonInUserIsAmbiguous(u1: string, u2: string, password: string)
    requires IsLatin1(u1) && IsLatin1(u2) && IsLatin1(password)
    ensures HeaderValue(u1 + ":" + u2, password).Ok?
    ensures HeaderValue(u1 + ":" + u2, password) == HeaderValue(u1, u2 + ":" + password)
  {
    var a, b, p := Latin1Encode(u1).value, Latin1Encode(u2).value, Latin1Encode(password).value;
    assert IsLatin1(u1 + ":" + u2);
    assert IsLatin1(u2 + ":" + password);
    assert Latin1Encode(u1 + ":" + u2).value == a + [Colon] + b;
    assert Latin1Encode(u2 + ":" + password).value == b + [Colon] + p;
    assert Credentials(a + [Colon] + b, p) == Credentials(a, b + [Colon] + p);
  }
}
