/** Peers of a consul cluster: `host:port` written as a JSON string and read back, through the number, the
    splitting and the JSON layers. */
module Peers {
  import opened Bytes
  import opened JsonLexemes
  import opened JsonValue
  import opened JsonScan
  import opened JsonParser
  import opened JsonPrinter
  import opened JsonRoundTrip
  import opened LexicalCast
  import opened Splits
  import opened Wrappers

  /** The error messages, with the texts they quote. */
  datatype Message =
    | Json11(e: Error)
    | Unparsed(text: bytes, cause: Message)
    | NotAString
    | NotAStringText(text: bytes)
    | NotHostPort(s: bytes)
    | PortRefused(port: bytes)

  /** What reading makes of a text: it is refused as a whole or for its port, it names no leader, or it names a peer. */
  datatype Reading =
    | Refused(message: Message)
    | BadPort(h: bytes, p: bytes)
    | NoLeader
    | HostPort(host: bytes, port: int)

  /** `InitFromJson` on a JSON value. */
  function ReadValue(json: Json): Reading {
    if !json.String? then Refused(NotAString)
    else if json.s == [] then NoLeader
    else
      var toks := SplitRuns(json.s, COLON);
      if |toks| != 2 then Refused(NotHostPort(json.s))
      else
        match ReadPort(toks[1])
        case None => BadPort(toks[0], toks[1])
        case Some(port) => HostPort(toks[0], port)
  }

  /** `InitFromJson` on a text. */
  function ReadText(text: bytes): Reading {
    match ParseText(text)
    case Fail(e) => Refused(Unparsed(text, Json11(e)))
    case Ok(json, _) => if json.String? then ReadValue(json) else Refused(NotAStringText(text))
  }

  /** `str`, the text inside the JSON string. */
  function Str(host: bytes, port: nat): bytes {
    host + ([COLON] + Decimal(port))
  }

  class Peer {
    var host: bytes
    var port: nat
    var leader: bool

    constructor (host: bytes, port: nat)
      ensures this.host == host && this.port == port && !leader
    {
      this.host, this.port, leader := host, port, false;
    }

    /** The fields and the message after a reading; a host is kept although its port is refused. */
    twostate predicate Took(reading: Reading, ok: bool, new err0: Option<Message>, new err: Option<Message>)
      reads this
    {
      match reading
      case Refused(m) => !ok && err == Some(m) && unchanged(this)
      case BadPort(h, p) => !ok && err == Some(PortRefused(p)) && host == h && unchanged(`port, `leader)
      case NoLeader => ok && err == err0 && !leader && unchanged(`host, `port)
      case HostPort(h, p) => ok && err == err0 && host == h && port == p && unchanged(`leader)
    }

    method SetPort(s: bytes) returns (ok: bool)
      modifies this`port
      ensures ok == ReadPort(s).Some?
      ensures port == if ok then ReadPort(s).value else old(port)
    {
      var value;
      ok, value := LexicalCastUint16(s);
      if ok {
        port := value;
      }
    }

    method InitFromValue(json: Json, err0: Option<Message>) returns (ok: bool, err: Option<Message>)
      modifies this
      ensures Took(ReadValue(json), ok, err0, err)
    {
      err := err0;
      if !json.String? {
        return false, Some(NotAString);
      }
      if |json.s| == 0 {
        leader := false;
        return true, err;
      }
      var toks := SplitRuns(json.s, COLON);
      if |toks| != 2 {
        return false, Some(NotHostPort(json.s));
      }
      host := toks[0];
      ok := SetPort(toks[1]);
      if !ok {
        err := Some(PortRefused(toks[1]));
      }
    }

    /** An error message that is not empty on entry is taken for one of the parser. */
    method InitFromText(text: bytes, err0: Option<Message>) returns (ok: bool, err: Option<Message>)
      modifies this
      ensures err0.None? ==> Took(ReadText(text), ok, None, err)
      ensures err0.Some? ==> !ok && unchanged(this) && err == Some(Unparsed(text,
                if ParseText(text).Fail? then Json11(ParseText(text).error) else err0.value))
    {
      var json, e := Parse(text, None);
      err := if e.Some? then Some(Json11(e.value)) else err0;
      if err.Some? {
        return false, Some(Unparsed(text, err.value));
      }
      if !json.String? {
        return false, Some(NotAStringText(text));
      }
      ok, err := InitFromValue(json, err);
    }

    method ToText(fmt: Format) returns (text: bytes)
      ensures text == Dump(String(Str(host, port)), fmt)
    {
      var out := new Buffer();
      Write(String(host + [COLON] + Decimal(port)), fmt, out);
      text := out.text;
      assert host + [COLON] + Decimal(port) == Str(host, port);
    }
  }

  /** The printed text reads back as the same host and port exactly when the host has no colon. */
  lemma ReadStr(host: bytes, port: nat)
    requires port <= MAX_UINT16
    ensures ReadValue(String(Str(host, port))) == HostPort(host, port) <==> COLON !in host
  {
    hide Collapse, ReadPort, Decimal;
    var s := Str(host, port);
    if COLON !in host {
      assert COLON !in Decimal(port);
      SplitRunsPair(host, COLON, Decimal(port));
      ReadPrintedPort(port);
    } else {
      PiecesFree(Collapse(s, COLON), COLON, 0);
    }
  }

  /** A value is read as a host and a port exactly when it is a string of two parts without colons, a run of
      colons between them, and the second part is read as that port. */
  lemma ReadExact(json: Json, host: bytes, port: int)
    ensures ReadValue(json) == HostPort(host, port) <==>
      json.String? && exists run, p :: Divided(json.s, 0x3A, host, run, p) && ReadPort(p) == Some(port)
  {
    hide ReadPort, SplitRuns;
    if ReadValue(json) == HostPort(host, port) {
      var run := SplitRunsTwo(json.s, COLON);
      assert Divided(json.s, 0x3A, host, run, SplitRuns(json.s, COLON)[1]);
    }
    if json.String? && exists run, p :: Divided(json.s, 0x3A, host, run, p) && ReadPort(p) == Some(port) {
      var run, p :| Divided(json.s, 0x3A, host, run, p) && ReadPort(p) == Some(port);
      SplitRunsRun(host, COLON, run, p);
    }
  }

  /** The other readings: the empty string names no leader; two such parts with a refused port keep the host; a
      string of any other shape, or no string, is refused. */
  lemma ReadOthers(json: Json, host: bytes, run: bytes, p: bytes)
    ensures ReadValue(json) == NoLeader <==> json == String([])
    ensures ReadValue(json) == Refused(NotAString) <==> !json.String?
    ensures json.String? && Divided(json.s, 0x3A, host, run, p) && ReadPort(p).None? ==>
              ReadValue(json) == BadPort(host, p)
    ensures json.String? && json.s != [] && (forall h, r, q :: !Divided(json.s, 0x3A, h, r, q)) ==>
              ReadValue(json) == Refused(NotHostPort(json.s))
  {
    hide ReadPort, SplitRuns;
    if json.String? && Divided(json.s, 0x3A, host, run, p) {
      SplitRunsRun(host, COLON, run, p);
    }
    if json.String? && |SplitRuns(json.s, COLON)| == 2 {
      var r := SplitRunsTwo(json.s, COLON);
    }
  }

  lemma ParseString(s: bytes, fmt: Format)
    ensures ParseText(Dump(String(s), fmt)) == Ok(String(s), |Dump(String(s), fmt)|)
  {
    RoundTrip(String(s), fmt);
  }

  /** Through all layers: JSON printing and parsing, splitting, and the decimal port. */
  lemma PeerRoundTrip(host: bytes, port: nat, fmt: Format)
    requires port <= MAX_UINT16
    ensures ReadText(Dump(String(Str(host, port)), fmt)) == HostPort(host, port) <==> COLON !in host
  {
    hide Dump, ReadValue, Str;
    ParseString(Str(host, port), fmt);
    ReadStr(host, port);
  }

  /** One peer printed and another read from it. */
  method CopyPeer(a: Peer, fmt: Format) returns (ok: bool, b: Peer)
    requires a.port <= MAX_UINT16
    ensures fresh(b)
    ensures COLON !in a.host ==> ok && b.host == a.host && b.port == a.port
    ensures COLON in a.host ==> !(ok && b.host == a.host && b.port == a.port)
  {
    hide ReadText, Dump, Str;
    var text := a.ToText(fmt);
    b := new Peer([], 0);
    var err;
    ok, err := b.InitFromText(text, None);
    PeerRoundTrip(a.host, a.port, fmt);
  }
}
