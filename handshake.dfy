/**
 * The opening handshake of the chat server (section 4.2 of RFC 6455): the
 * request line and the header lines already read from the socket are parsed
 * into one `$info` array, and the 101 response is built around the accept token.
 */
module Handshake {
  import opened Bytes

  /** The GUID appended to the client's key before hashing. */
  const Guid: string := "258EAFA5-E914-47DA-95CA-C5AB0DC85B11"

  const KeyHeader: string := "Sec-WebSocket-Key"

  /** The response before the accept token. */
  const ResponseHead: string :=
    "HTTP/1.1 101 Web Socket Protocol Handshake\r\nUpgrade: websocket\r\nConnection: Upgrade\r\nSec-WebSocket-Accept:"

  const ResponseTail: string := "\r\n\r\n"

  /** Method, URI, headers, ip and port share one PHP array, keyed by name. */
  type Info = map<string, string>

  datatype Outcome = Rejected | Accepted(info: Info, response: string)

  // ----- PHP string primitives -----

  /** A string PHP treats as false: `while ($line = ...)` and `empty(...)` stop on these. */
  predicate Falsy(s: string)
  {
    s == "" || s == "0"
  }

  /** The characters `rtrim` strips by default. */
  predicate IsTrimmed(c: char)
  {
    c == ' ' || c == '\t' || c == '\n' || c == '\r' || c == '\0' || c == '\U{B}'
  }

  function RTrim(s: string): (r: string)
    ensures |r| <= |s| && r == s[..|r|]
    ensures r == [] || !IsTrimmed(r[|r| - 1])
    ensures forall i :: |r| <= i < |s| ==> IsTrimmed(s[i])
  {
    if s != [] && IsTrimmed(s[|s| - 1]) then RTrim(s[..|s| - 1]) else s
  }

  /** The white space of PCRE's `\s`. */
  predicate IsSpace(c: char)
  {
    c == ' ' || c == '\t' || c == '\n' || c == '\U{B}' || c == '\U{C}' || c == '\r'
  }

  /** Index of the first white space character, or the length when there is none. */
  function FirstSpace(s: string): (r: nat)
    ensures r <= |s|
    ensures forall i :: 0 <= i < r ==> !IsSpace(s[i])
    ensures r < |s| ==> IsSpace(s[r])
  {
    if s == [] || IsSpace(s[0]) then 0 else 1 + FirstSpace(s[1..])
  }

  /**
   * `preg_match('/\A(\S+): (.*)\z/', $line)`: a name without white space, a colon,
   * one space, then a value without a line feed; the name cannot run past the
   * first white space, so the match, if any, is unique.
   */
  function MatchHeader(line: string): Option<(string, string)>
  {
    var j := FirstSpace(line);
    if 2 <= j < |line| && line[j] == ' ' && line[j - 1] == ':' && '\n' !in line[j + 1..]
    then Some((line[..j - 1], line[j + 1..]))
    else None
  }

  /** A name can stand before `: ` in a header line. */
  predicate IsName(name: string)
  {
    name != [] && forall i :: 0 <= i < |name| ==> !IsSpace(name[i])
  }

  /** The header regular expression matches exactly the lines `name: value`. */
  lemma MatchHeaderIff(line: string, name: string, value: string)
    ensures MatchHeader(line) == Some((name, value)) <==>
      IsName(name) && '\n' !in value && line == name + ": " + value
  {
    var j := FirstSpace(line);
    if IsName(name) && '\n' !in value && line == name + ": " + value {
      assert line[|name|] == ':' && line[|name| + 1] == ' ';
      assert forall i :: 0 <= i < |name| ==> line[i] == name[i];
      assert j == |name| + 1;
      assert line[..j - 1] == name && line[j + 1..] == value;
    }
    if MatchHeader(line) == Some((name, value)) {
      assert line == line[..j - 1] + ": " + line[j + 1..];
    }
  }

  /** PHP's `explode($sep, $s)`. */
  function Explode(sep: char, s: string): (parts: seq<string>)
    ensures |parts| >= 1
    ensures forall i :: 0 <= i < |parts| ==> sep !in parts[i]
    ensures Implode(sep, parts) == s
  {
    if s == [] then [""]
    else
      var rest := Explode(sep, s[1..]);
      if s[0] == sep then
        assert ([""] + rest)[1..] == rest;
        [""] + rest
      else
        var parts := [[s[0]] + rest[0]] + rest[1..];
        assert |rest| > 1 ==> parts[1..] == rest[1..] && Implode(sep, rest) == rest[0] + [sep] + Implode(sep, rest[1..]);
        assert s == [s[0]] + s[1..];
        parts
  }

  /** PHP's `implode($sep, $parts)`, the inverse of `explode`. */
  function Implode(sep: char, parts: seq<string>): string
    requires |parts| >= 1
  {
    if |parts| == 1 then parts[0] else parts[0] + [sep] + Implode(sep, parts[1..])
  }

  /** Element i of an exploded string; a missing element is PHP's null, which reads as "". */
  function Part(parts: seq<string>, i: nat): string
  {
    if i < |parts| then parts[i] else ""
  }

  // ----- Header lines -----

  /** The loop goes on past a line that is neither false after `rtrim` nor a non-match. */
  predicate Accepts(line: string)
  {
    var t := RTrim(line);
    !Falsy(t) && MatchHeader(t).Some?
  }

  /** Name and value of an accepted header line. */
  function Field(line: string): (string, string)
    requires Accepts(line)
  {
    MatchHeader(RTrim(line)).value
  }

  /** How many lines the header loop stores before it stops. */
  function HeaderCount(lines: seq<string>): (n: nat)
    ensures n <= |lines|
    ensures forall i :: 0 <= i < n ==> Accepts(lines[i])
    ensures n < |lines| ==> !Accepts(lines[n])
  {
    if lines == [] || !Accepts(lines[0]) then 0 else 1 + HeaderCount(lines[1..])
  }

  /** `$info` after the header loop has stored the lines in order into `info`. */
  function Collect(info: Info, lines: seq<string>): Info
    decreases |lines|
  {
    if lines == [] || !Accepts(lines[0]) then info
    else
      var (name, value) := Field(lines[0]);
      Collect(info[name := value], lines[1..])
  }

  /** A name no stored line carries keeps its entry. */
  lemma {:induction false} CollectKeeps(info: Info, lines: seq<string>, key: string)
    requires forall j :: 0 <= j < HeaderCount(lines) ==> Field(lines[j]).0 != key
    ensures (key in Collect(info, lines)) == (key in info)
    ensures key in info ==> Collect(info, lines)[key] == info[key]
    decreases |lines|
  {
    if lines != [] && Accepts(lines[0]) {
      var (name, value) := Field(lines[0]);
      assert forall j :: 0 <= j < HeaderCount(lines[1..]) ==> lines[1..][j] == lines[j + 1];
      CollectKeeps(info[name := value], lines[1..], key);
    }
  }

  /** Last wins: a name holds the value of the last stored line that carries it. */
  lemma {:induction false} CollectLastWins(info: Info, lines: seq<string>, i: nat)
    requires i < HeaderCount(lines)
    requires forall j :: i < j < HeaderCount(lines) ==> Field(lines[j]).0 != Field(lines[i]).0
    ensures Field(lines[i]).0 in Collect(info, lines)
    ensures Collect(info, lines)[Field(lines[i]).0] == Field(lines[i]).1
    decreases |lines|
  {
    var (name, value) := Field(lines[0]);
    assert forall j :: 0 <= j < HeaderCount(lines[1..]) ==> lines[1..][j] == lines[j + 1];
    if i == 0 {
      CollectKeeps(info[name := value], lines[1..], name);
    } else {
      CollectLastWins(info[name := value], lines[1..], i - 1);
    }
  }

  // ----- The handshake -----

  /** The `$info` array: method and URI, the headers, then the peer's ip and port. */
  function RequestInfo(requestLine: string, lines: seq<string>, peerName: string): Info
  {
    var header := Explode(' ', requestLine);
    var clientAddr := Explode(':', peerName);
    Collect(map["method" := Part(header, 0), "uri" := Part(header, 1)], lines)
      ["ip" := Part(clientAddr, 0)]["port" := Part(clientAddr, 1)]
  }

  function Response(token: string): string
  {
    ResponseHead + token + ResponseTail
  }

  /**
   * What `handshake` returns and writes: `accept` stands for
   * `base64_encode(pack('H*', sha1(...)))`.
   */
  function HandshakeOutcome(requestLine: string, lines: seq<string>, peerName: string,
                            accept: string -> string): Outcome
  {
    var info := RequestInfo(requestLine, lines, peerName);
    if KeyHeader !in info || Falsy(info[KeyHeader]) then Rejected
    else Accepted(info, Response(accept(info[KeyHeader] + Guid)))
  }

  /**
   * `handshake($connection)` with the socket replaced by what it yields:
   * `requestLine` is the first `fgets`, `lines` the ones after it (a missing
   * line is `fgets`'s false) and `peerName` the `stream_socket_get_name`.
   */
  method Handshake(requestLine: string, lines: seq<string>, peerName: string,
                   accept: string -> string) returns (r: Outcome)
    ensures r == HandshakeOutcome(requestLine, lines, peerName, accept)
  {
    var header := Explode(' ', requestLine);
    var info: Info := map[];
    info := info["method" := Part(header, 0)];
    info := info["uri" := Part(header, 1)];
    ghost var base := info;
    var i := 0;
    while i < |lines|
      invariant i <= HeaderCount(lines)
      invariant Collect(info, lines[i..]) == Collect(base, lines)
      invariant HeaderCount(lines[i..]) == HeaderCount(lines) - i
    {
      var line := RTrim(lines[i]);
      if Falsy(line) {
        break;
      }
      var matches := MatchHeader(line);
      if matches.None? {
        break;
      }
      info := info[matches.value.0 := matches.value.1];
      assert lines[i..][1..] == lines[i + 1..];
      i := i + 1;
    }
    assert Collect(info, lines[i..]) == info;
    var clientAddr := Explode(':', peerName);
    info := info["ip" := Part(clientAddr, 0)];
    info := info["port" := Part(clientAddr, 1)];
    if KeyHeader !in info || Falsy(info[KeyHeader]) {
      return Rejected;
    }
    var secWebSocketKey := info[KeyHeader] + Guid;
    var upgrade := ResponseHead + accept(secWebSocketKey) + ResponseTail;
    r := Accepted(info, upgrade);
  }

  /** With no stored `Sec-WebSocket-Key` line the handshake fails. */
  lemma HandshakeWithoutKey(requestLine: string, lines: seq<string>, peerName: string,
                            accept: string -> string)
    requires forall j :: 0 <= j < HeaderCount(lines) ==> Field(lines[j]).0 != KeyHeader
    ensures HandshakeOutcome(requestLine, lines, peerName, accept) == Rejected
  {
    var header := Explode(' ', requestLine);
    CollectKeeps(map["method" := Part(header, 0), "uri" := Part(header, 1)], lines, KeyHeader);
  }

  /**
   * The last stored `Sec-WebSocket-Key` line decides: the handshake fails when its
   * value is empty (or "0"), and otherwise answers with the token of that value
   * followed by the GUID.
   */
  lemma HandshakeWithKey(requestLine: string, lines: seq<string>, peerName: string,
                         accept: string -> string, i: nat)
    requires i < HeaderCount(lines) && Field(lines[i]).0 == KeyHeader
    requires forall j :: i < j < HeaderCount(lines) ==> Field(lines[j]).0 != KeyHeader
    ensures var r, key := HandshakeOutcome(requestLine, lines, peerName, accept), Field(lines[i]).1;
      (r.Accepted? <==> !Falsy(key)) &&
      (r.Accepted? ==> r.info[KeyHeader] == key && r.response == Response(accept(key + Guid)))
  {
    var header := Explode(' ', requestLine);
    CollectLastWins(map["method" := Part(header, 0), "uri" := Part(header, 1)], lines, i);
  }

  /** Whatever the headers say, `$info` ends with the peer's ip and port. */
  lemma HandshakePeer(requestLine: string, lines: seq<string>, peerName: string,
                      accept: string -> string, ip: string, port: string)
    requires ':' !in ip && ':' !in port && peerName == ip + ":" + port
    ensures var r := HandshakeOutcome(requestLine, lines, peerName, accept);
      r.Accepted? ==> r.info["ip"] == ip && r.info["port"] == port
  {
    var parts := Explode(':', peerName);
    ExplodeTwo(':', ip, port);
  }

  /**
   * A request line `method SP uri`, followed by nothing or by a space: `$info`
   * holds the method and the URI unless a stored header line carries the name
   * "method" or "uri".
   */
  lemma HandshakeRequestLine(requestLine: string, lines: seq<string>, peerName: string,
                             accept: string -> string, m: string, u: string, rest: string)
    requires ' ' !in m && ' ' !in u && (rest == "" || rest[0] == ' ')
    requires requestLine == m + " " + u + rest
    requires forall j :: 0 <= j < HeaderCount(lines) ==>
      Field(lines[j]).0 != "method" && Field(lines[j]).0 != "uri"
    ensures var r := HandshakeOutcome(requestLine, lines, peerName, accept);
      r.Accepted? ==> "method" in r.info && r.info["method"] == m && "uri" in r.info && r.info["uri"] == u
  {
    assert requestLine == m + [' '] + (u + rest);
    ExplodeCons(' ', m, u + rest);
    ExplodeHead(' ', u, rest);
    var base := map["method" := m, "uri" := u];
    CollectKeeps(base, lines, "method");
    CollectKeeps(base, lines, "uri");
  }

  /**
   * The last stored line carrying a name sets it in `$info`, over the method and
   * URI of the request line too, since they share the array; only "ip" and
   * "port" are written after the headers.
   */
  lemma HandshakeHeaderWins(requestLine: string, lines: seq<string>, peerName: string,
                            accept: string -> string, i: nat)
    requires i < HeaderCount(lines)
    requires Field(lines[i]).0 != "ip" && Field(lines[i]).0 != "port"
    requires forall j :: i < j < HeaderCount(lines) ==> Field(lines[j]).0 != Field(lines[i]).0
    ensures var r := HandshakeOutcome(requestLine, lines, peerName, accept);
      r.Accepted? ==> Field(lines[i]).0 in r.info && r.info[Field(lines[i]).0] == Field(lines[i]).1
  {
    var header := Explode(' ', requestLine);
    CollectLastWins(map["method" := Part(header, 0), "uri" := Part(header, 1)], lines, i);
  }

  /** A separator-free piece before a separator is the first piece, and the rest explode on their own. */
  lemma {:induction false} ExplodeCons(sep: char, a: string, b: string)
    requires sep !in a
    ensures Explode(sep, a + [sep] + b) == [a] + Explode(sep, b)
  {
    var s := a + [sep] + b;
    if a == [] {
      assert s[1..] == b;
    } else {
      assert s[1..] == a[1..] + [sep] + b;
      ExplodeCons(sep, a[1..], b);
      var rest := Explode(sep, s[1..]);
      assert rest[0] == a[1..] && rest[1..] == Explode(sep, b);
      assert [s[0]] + a[1..] == a;
    }
  }

  /** A separator-free prefix that ends at a separator or at the end is the first piece. */
  lemma {:induction false} ExplodeHead(sep: char, a: string, rest: string)
    requires sep !in a && (rest == [] || rest[0] == sep)
    ensures Explode(sep, a + rest)[0] == a
  {
    var s := a + rest;
    if a == [] {
      assert s == rest;
    } else {
      assert s[1..] == a[1..] + rest;
      ExplodeHead(sep, a[1..], rest);
      assert [s[0]] + a[1..] == a;
    }
  }

  /** A string with one separator explodes into the two sides. */
  lemma ExplodeTwo(sep: char, a: string, b: string)
    requires sep !in a && sep !in b
    ensures Explode(sep, a + [sep] + b) == [a, b]
  {
    var parts := Explode(sep, a + [sep] + b);
    ImplodeSplit(sep, parts, a, b);
  }

  /** Pieces without the separator are recovered from their join. */
  lemma {:induction false} ImplodeSplit(sep: char, parts: seq<string>, a: string, b: string)
    requires |parts| >= 1 && forall i :: 0 <= i < |parts| ==> sep !in parts[i]
    requires sep !in a && sep !in b && Implode(sep, parts) == a + [sep] + b
    ensures parts == [a, b]
  {
    assert |parts| >= 2;
    var rest := Implode(sep, parts[1..]);
    SeparatorPosition(sep, parts[0], rest, a, b);
    assert |parts| == 2;
  }

  /** Two joins at a single separator whose sides are separator-free are the same split. */
  lemma SeparatorPosition(sep: char, x: string, y: string, a: string, b: string)
    requires sep !in x && sep !in a && x + [sep] + y == a + [sep] + b
    ensures x == a && y == b
  {
    var s := x + [sep] + y;
    assert |x| == |a| by {
      assert forall i :: 0 <= i < |x| ==> s[i] == x[i] != sep;
      assert forall i :: 0 <= i < |a| ==> s[i] == a[i] != sep;
      assert s[|x|] == sep && s[|a|] == sep;
    }
    assert x == s[..|x|] == a;
    assert y == s[|x| + 1..] == b;
  }

  /** The token a client reads back from a 101 response. */
  function AcceptOf(response: string): Option<string>
  {
    if |response| >= |ResponseHead| + |ResponseTail| &&
       response[..|ResponseHead|] == ResponseHead &&
       response[|response| - |ResponseTail|..] == ResponseTail
    then Some(response[|ResponseHead|..|response| - |ResponseTail|])
    else None
  }

  /** The response carries the accept token between its fixed head and tail. */
  lemma ResponseCarriesToken(token: string)
    ensures AcceptOf(Response(token)) == Some(token)
  {
    var r := Response(token);
    assert r[..|ResponseHead|] == ResponseHead;
    assert r[|r| - |ResponseTail|..] == ResponseTail;
    assert r[|ResponseHead|..|r| - |ResponseTail|] == token;
  }
}
