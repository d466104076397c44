/**
 * The native-messaging host of src/native_host.rs: 4-byte length-prefixed JSON
 * messages over standard input and output, answered from the shared session.
 * Standard input is a byte sequence read with a cursor; standard output is the byte
 * sequence the host writes. JSON parsing and printing, URL parsing and the entry
 * lookup live outside this model and are parameters.
 */
module NativeHost {
  import opened Wrappers
  import opened JsonModel
  import opened VaultEntry

  newtype byte = x: int | 0 <= x < 256

  /** The largest body the host accepts: 1 MiB. */
  const MAX_MESSAGE_SIZE: nat := 1024 * 1024

  /** Lengths on the wire are u32. */
  const U32_LIMIT: nat := 0x1_0000_0000

  /** Byte order of the machine the host runs on (`to_ne_bytes` / `from_ne_bytes`). */
  datatype Endian = Little | Big

  function Reorder(b: seq<byte>, endian: Endian): (r: seq<byte>)
    requires |b| == 4
    ensures |r| == 4
  {
    if endian == Little then b else [b[3], b[2], b[1], b[0]]
  }

  /** `u32::to_ne_bytes`. */
  function LengthBytes(n: nat, endian: Endian): (b: seq<byte>)
    requires n < U32_LIMIT
    ensures |b| == 4
  {
    var q1 := n / 256;
    var q2 := q1 / 256;
    var q3 := q2 / 256;
    Reorder([(n % 256) as byte, (q1 % 256) as byte, (q2 % 256) as byte, q3 as byte], endian)
  }

  /** `u32::from_ne_bytes`. */
  function FromBytes(b: seq<byte>, endian: Endian): (n: nat)
    requires |b| == 4
    ensures n < U32_LIMIT
  {
    var le := Reorder(b, endian);
    le[0] as nat + 256 * (le[1] as nat + 256 * (le[2] as nat + 256 * le[3] as nat))
  }

  /** Decoding a length prefix gives back the length that was encoded. */
  lemma LengthRoundTrip(n: nat, endian: Endian)
    requires n < U32_LIMIT
    ensures FromBytes(LengthBytes(n, endian), endian) == n
  {
    var q1 := n / 256;
    var q2 := q1 / 256;
    var q3 := q2 / 256;
    var le := [(n % 256) as byte, (q1 % 256) as byte, (q2 % 256) as byte, q3 as byte];
    assert Reorder(Reorder(le, endian), endian) == le;
    assert n == n % 256 + 256 * q1;
    assert q1 == q1 % 256 + 256 * q2;
    assert q2 == q2 % 256 + 256 * q3;
  }

  /** Encoding the decoded prefix gives the same four bytes: every prefix is some u32's encoding. */
  lemma BytesRoundTrip(b: seq<byte>, endian: Endian)
    requires |b| == 4
    ensures LengthBytes(FromBytes(b, endian), endian) == b
  {
    var le := Reorder(b, endian);
    var n := FromBytes(b, endian);
    var q1 := n / 256;
    var q2 := q1 / 256;
    var q3 := q2 / 256;
    assert n == le[0] as nat + 256 * (le[1] as nat + 256 * (le[2] as nat + 256 * le[3] as nat));
    assert n % 256 == le[0] as nat && q1 == le[1] as nat + 256 * (le[2] as nat + 256 * le[3] as nat);
    assert q1 % 256 == le[1] as nat && q2 == le[2] as nat + 256 * le[3] as nat;
    assert q2 % 256 == le[2] as nat && q3 == le[3] as nat;
    assert [(n % 256) as byte, (q1 % 256) as byte, (q2 % 256) as byte, q3 as byte] == le;
    assert Reorder(le, endian) == b;
  }

  /**
   * `read_message` up to the JSON parse: the body of the frame that starts at `pos` and
   * the position after it. None when the prefix or the body is short, and None, without
   * reading the body, when the declared length exceeds the cap.
   */
  function ReadFrame(input: seq<byte>, pos: nat, endian: Endian): (r: Option<(seq<byte>, nat)>)
    ensures r.Some? ==> pos + 4 <= |input| && FromBytes(input[pos..pos + 4], endian) <= MAX_MESSAGE_SIZE
    ensures r.Some? ==> r.value.1 == pos + 4 + |r.value.0| <= |input| && r.value.0 == input[pos + 4..r.value.1]
    ensures r.Some? ==> |r.value.0| == FromBytes(input[pos..pos + 4], endian)
    ensures r.None? <==> pos + 4 > |input| || FromBytes(input[pos..pos + 4], endian) > MAX_MESSAGE_SIZE ||
                         pos + 4 + FromBytes(input[pos..pos + 4], endian) > |input|
  {
    if pos + 4 > |input| then None
    else
      var len := FromBytes(input[pos..pos + 4], endian);
      if len > MAX_MESSAGE_SIZE then None
      else if pos + 4 + len > |input| then None
      else Some((input[pos + 4..pos + 4 + len], pos + 4 + len))
  }

  /** `send_message` after serialisation: the body length, cast to u32, then the body. */
  function Frame(body: seq<byte>, endian: Endian): (f: seq<byte>)
    ensures |f| == 4 + |body| && f[4..] == body
  {
    LengthBytes(|body| % U32_LIMIT, endian) + body
  }

  /** A frame that `send_message` wrote is read back whole by `read_message`, wherever it starts. */
  lemma FrameRoundTrip(prefix: seq<byte>, body: seq<byte>, rest: seq<byte>, endian: Endian)
    requires |body| <= MAX_MESSAGE_SIZE
    ensures ReadFrame(prefix + Frame(body, endian) + rest, |prefix|, endian) == Some((body, |prefix| + 4 + |body|))
  {
    var input := prefix + Frame(body, endian) + rest;
    var p := |prefix|;
    assert input[p..p + 4] == LengthBytes(|body|, endian);
    LengthRoundTrip(|body|, endian);
    assert input[p + 4..p + 4 + |body|] == body;
  }

  /** A URL as `Url::parse` gives it; only scheme and host reach the normalised origin. */
  datatype Url = Url(scheme: string, host: Option<string>, port: Option<nat>, path: string, query: Option<string>)

  /** `normalize_origin`: `scheme://host` for http and https URLs that have a host. */
  function NormalizeOrigin(input: string, parseUrl: string -> Option<Url>): (r: Option<string>)
    ensures r.Some? <==>
              parseUrl(input).Some? && parseUrl(input).value.scheme in {"http", "https"} && parseUrl(input).value.host.Some?
    ensures r.Some? ==> r.value == parseUrl(input).value.scheme + "://" + parseUrl(input).value.host.value
  {
    match parseUrl(input)
    case None => None
    case Some(url) =>
      if url.scheme != "http" && url.scheme != "https" then None
      else match url.host
        case None => None
        case Some(host) => Some(url.scheme + "://" + host)
  }

  /** Port, path and query do not affect the normalised origin. */
  lemma OriginIgnoresPortPathQuery(input: string, other: string, parseUrl: string -> Option<Url>)
    requires parseUrl(input).Some? && parseUrl(other).Some?
    requires parseUrl(input).value.scheme == parseUrl(other).value.scheme
    requires parseUrl(input).value.host == parseUrl(other).value.host
    ensures NormalizeOrigin(input, parseUrl) == NormalizeOrigin(other, parseUrl)
  {
  }

  /** The collaborators of the host loop. */
  datatype Host<!S> = Host(
    endian: Endian,
    decode: seq<byte> -> Option<Json>,                       // serde_json::from_slice
    encode: Json -> seq<byte>,                               // serde_json::to_string
    parseUrl: string -> Option<Url>,                         // Url::parse
    session: Option<S>,                                      // what the session lock holds
    lookup: (S, string) -> Result<seq<Entry>, string>)        // handle_command_get_by_url, error as Debug text

  /** One found entry as the host reports it. */
  function EntryJson(e: Entry): Json
  {
    Obj(map["entryname" := Str(e.entryname), "username" := OptStr(e.username), "password" := OptStr(e.password)])
  }

  /** The answer to one message: the body of `run`'s loop. */
  function Respond<S>(msg: Json, h: Host<S>): (r: Json)
    ensures (GetStr(msg, "origin").None? || NormalizeOrigin(GetStr(msg, "origin").value, h.parseUrl).None?) ==>
              r == Obj(map["error" := Str("invalid origin")])
    ensures GetStr(msg, "origin").Some? && NormalizeOrigin(GetStr(msg, "origin").value, h.parseUrl).Some? ==>
              var o := NormalizeOrigin(GetStr(msg, "origin").value, h.parseUrl).value;
              if h.session.None? then r == Obj(map["error" := Str("no session active")])
              else match h.lookup(h.session.value, o)
                case Err(e) => r == Obj(map["error" := Str("Failed to get entries: " + e)])
                case Ok(es) =>
                  if |es| == 0 then r == Obj(map["found" := Bool(false)])
                  else if |es| == 1 then
                    r == Obj(map["found" := Bool(true), "entryname" := Str(es[0].entryname),
                                 "username" := OptStr(es[0].username), "password" := OptStr(es[0].password)])
                  else r.Obj? && r.fields.Keys == {"entries"} && r.fields["entries"].Arr? &&
                       |r.fields["entries"].items| == |es| &&
                       forall i :: 0 <= i < |es| ==> r.fields["entries"].items[i] == EntryJson(es[i])
  {
    var origin := match GetStr(msg, "origin")
      case None => None
      case Some(s) => NormalizeOrigin(s, h.parseUrl);
    match origin
    case None => Obj(map["error" := Str("invalid origin")])
    case Some(o) =>
      match h.session
      case None => Obj(map["error" := Str("no session active")])
      case Some(session) =>
        match h.lookup(session, o)
        case Err(e) => Obj(map["error" := Str("Failed to get entries: " + e)])
        case Ok(es) =>
          if |es| == 0 then Obj(map["found" := Bool(false)])
          else if |es| == 1 then
            Obj(map["found" := Bool(true), "entryname" := Str(es[0].entryname),
                     "username" := OptStr(es[0].username), "password" := OptStr(es[0].password)])
          else Obj(map["entries" := Arr(seq(|es|, i requires 0 <= i < |es| => EntryJson(es[i])))])
  }

  /** `read_message`: a frame whose body parses as JSON, and the position after it. */
  function ReadMessage<S>(input: seq<byte>, pos: nat, h: Host<S>): (r: Option<(Json, nat)>)
    ensures r.Some? ==> pos + 4 <= r.value.1 <= |input|
    ensures r.Some? <==> ReadFrame(input, pos, h.endian).Some? && h.decode(ReadFrame(input, pos, h.endian).value.0).Some?
    ensures r.Some? ==> h.decode(ReadFrame(input, pos, h.endian).value.0) == Some(r.value.0) &&
                        r.value.1 == ReadFrame(input, pos, h.endian).value.1
  {
    match ReadFrame(input, pos, h.endian)
    case None => None
    case Some((body, next)) =>
      match h.decode(body)
      case None => None
      case Some(msg) => Some((msg, next))
  }

  /** The bytes one response is written as. */
  function Reply<S>(msg: Json, h: Host<S>): seq<byte>
  {
    Frame(h.encode(Respond(msg, h)), h.endian)
  }

  /** What the host writes for the input from `pos` on: one reply per message until the first read fails. */
  function RunSpec<S>(input: seq<byte>, pos: nat, h: Host<S>): seq<byte>
    decreases |input| - pos
  {
    match ReadMessage(input, pos, h)
    case None => []
    case Some((msg, next)) => Reply(msg, h) + RunSpec(input, next, h)
  }

  /** `run`: read messages until one cannot be read, answering each. Write errors are ignored. */
  method Run<S>(input: seq<byte>, h: Host<S>) returns (output: seq<byte>)
    ensures output == RunSpec(input, 0, h)
  {
    output := [];
    var pos: nat := 0;
    while true
      invariant pos <= |input|
      invariant output + RunSpec(input, pos, h) == RunSpec(input, 0, h)
      decreases |input| - pos
    {
      var read := ReadMessage(input, pos, h);
      if read.None? {
        break;
      }
      var (msg, next) := read.value;
      output := output + Reply(msg, h);
      pos := next;
    }
  }

  /** The concatenation of the frames of several bodies. */
  function Frames(bodies: seq<seq<byte>>, endian: Endian): seq<byte>
  {
    if bodies == [] then [] else Frame(bodies[0], endian) + Frames(bodies[1..], endian)
  }

  /** The replies to several bodies, in order. */
  function Answers<S>(bodies: seq<seq<byte>>, h: Host<S>): seq<byte>
    requires forall i :: 0 <= i < |bodies| ==> h.decode(bodies[i]).Some?
  {
    if bodies == [] then [] else Reply(h.decode(bodies[0]).value, h) + Answers(bodies[1..], h)
  }

  /**
   * A stream made of well-formed messages is answered message by message, in order,
   * and the host stops at its end.
   */
  lemma {:induction false} RunAnswersEveryMessage<S>(prefix: seq<byte>, bodies: seq<seq<byte>>, h: Host<S>)
    requires forall i :: 0 <= i < |bodies| ==> |bodies[i]| <= MAX_MESSAGE_SIZE && h.decode(bodies[i]).Some?
    ensures RunSpec(prefix + Frames(bodies, h.endian), |prefix|, h) == Answers(bodies, h)
    decreases |bodies|
  {
    var input := prefix + Frames(bodies, h.endian);
    if bodies == [] {
      assert input == prefix;
    } else {
      var b := bodies[0];
      var rest := Frames(bodies[1..], h.endian);
      assert input == prefix + Frame(b, h.endian) + rest;
      FrameRoundTrip(prefix, b, rest, h.endian);
      var prefix' := prefix + Frame(b, h.endian);
      assert input == prefix' + rest;
      RunAnswersEveryMessage(prefix', bodies[1..], h);
    }
  }
}
