/** Exactly which requests a server agrees to and which responses a client accepts, said of the fields they carry. */
module HandshakeRules {
  import opened Handshake

  // Words in any case.

  /** The word in lower or upper case or a mixture. */
  predicate AnyCase(s: string, lower: string, upper: string)
    requires |lower| == |upper|
  {
    |s| == |lower| && forall k :: 0 <= k < |s| ==> s[k] == lower[k] || s[k] == upper[k]
  }

  predicate Uppers(lower: string, upper: string) {
    |lower| == |upper| && forall k :: 0 <= k < |lower| ==> 'a' <= lower[k] <= 'z' && upper[k] == Upper(lower[k])
  }

  lemma UpperExactly(c: char, l: char)
    requires 'a' <= l <= 'z'
    ensures Upper(c) == Upper(l) <==> c == l || c == Upper(l)
  {
  }

  lemma ToUpperExactly(s: string, lower: string, upper: string)
    requires Uppers(lower, upper)
    ensures ToUpper(s) == upper <==> AnyCase(s, lower, upper)
  {
    forall k | 0 <= k < |s| && k < |lower| ensures ToUpper(s)[k] == upper[k] <==> s[k] == lower[k] || s[k] == upper[k] {
      UpperExactly(s[k], lower[k]);
    }
    if AnyCase(s, lower, upper) { assert ToUpper(s) == upper; }
  }

  lemma UpgradeUppers()
    ensures Uppers("upgrade", "UPGRADE")
  {
  }

  lemma WebsocketUppers()
    ensures Uppers("websocket", "WEBSOCKET")
  {
  }

  predicate UpgradeAt(s: string, i: nat) {
    i + 7 <= |s| && AnyCase(s[i..i + 7], "upgrade", "UPGRADE")
  }

  lemma {:induction false} ContainsExactly(s: string)
    ensures Contains(ToUpper(s), "UPGRADE") <==> exists i :: UpgradeAt(s, i)
    decreases |s|
  {
    UpgradeUppers();
    if |s| >= 7 {
      ToUpperExactly(s[..7], "upgrade", "UPGRADE");
      assert ToUpper(s)[..7] == ToUpper(s[..7]) && s[0..0 + 7] == s[..7];
      assert "UPGRADE" <= ToUpper(s) <==> ToUpper(s)[..7] == "UPGRADE";
    }
    assert "UPGRADE" <= ToUpper(s) <==> UpgradeAt(s, 0);
    if s != [] {
      assert ToUpper(s)[1..] == ToUpper(s[1..]);
      ContainsExactly(s[1..]);
      ShiftedOne(s);
    }
  }

  lemma ShiftedOne(s: string)
    requires s != []
    ensures (exists i :: UpgradeAt(s, i)) <==> UpgradeAt(s, 0) || exists i :: UpgradeAt(s[1..], i)
  {
    if i: nat :| UpgradeAt(s, i) {
      if i > 0 {
        assert s[i..i + 7] == s[1..][i - 1..i - 1 + 7];
        assert UpgradeAt(s[1..], i - 1);
      }
    }
    if i: nat :| UpgradeAt(s[1..], i) {
      assert s[i + 1..i + 1 + 7] == s[1..][i..i + 7];
      assert UpgradeAt(s, i + 1);
    }
  }

  // The server.

  /** The text of a request after its method. */
  function RequestText(target: string, fs: seq<Field>): string {
    target + (" " + ("HTTP/1.1" + (CRLF + (Lines(fs) + CRLF))))
  }

  lemma BufferText(buffer: string, text: string)
    requires |buffer| >= MIN_REQUEST && "GET " + text <= buffer
    ensures ParseBuffer(CLEARED, buffer, |"GET " + text|) == ParseText(CLEARED, text)
  {
    var request := "GET " + text;
    assert buffer[..4] == request[..4] == "GET ";
    assert buffer[..2] == "GE";
    assert buffer[4..|request|] == request[4..] == text;
  }

  /** A request that asks for the upgrade, by the first value of each field: RFC 6455, section 4.2.1. */
  ghost predicate Asks(fs: seq<Field>) {
    && Values(fs, "Connection") != [] && (exists i :: UpgradeAt(Values(fs, "Connection")[0], i))
    && Values(fs, "Upgrade") != [] && AnyCase(Values(fs, "Upgrade")[0], "websocket", "WEBSOCKET")
    && Values(fs, "Sec-WebSocket-Version") != [] && Values(fs, "Sec-WebSocket-Version")[0] == "13"
    && Values(fs, "Sec-WebSocket-Key") != [] && Values(fs, "Sec-WebSocket-Key")[0] != ""
  }

  lemma FieldGot(fs: seq<Field>, key: string)
    ensures Get(EmplaceAll(map[], fs), key) == if Values(fs, key) == [] then "" else Values(fs, key)[0]
  {
    FirstValue(map[], fs, key);
  }

  lemma AcceptableExactly(fs: seq<Field>)
    ensures Acceptable(EmplaceAll(map[], fs)) <==> Asks(fs)
  {
    FieldGot(fs, "Connection");
    FieldGot(fs, "Upgrade");
    FieldGot(fs, "Sec-WebSocket-Version");
    FieldGot(fs, "Sec-WebSocket-Key");
    var headers := EmplaceAll(map[], fs);
    ContainsExactly(Get(headers, "Connection"));
    WebsocketUppers();
    ToUpperExactly(Get(headers, "Upgrade"), "websocket", "WEBSOCKET");
  }

  lemma NoFieldsMalformed(target: string)
    requires Without(target, BLANKS)
    ensures ParseText(CLEARED, RequestText(target, [])).Malformed?
  {
    var after := CRLF + (Lines([]) + CRLF);
    TargetPart(target, "HTTP/1.1" + after);
    assert after == CRLF + CRLF;
    CutAt("HTTP/1.1", after, VERSION_END);
    StripBlank(after, "", VERSION_END);
    assert after + "" == after;
  }

  lemma SomeHeaders(fs: seq<Field>)
    requires fs != []
    ensures EmplaceAll(map[], fs) != map[]
  {
    FirstValue(map[], fs, fs[0].key);
    assert fs[0].key in EmplaceAll(map[], fs);
  }

  /** The server agrees to a printed request exactly when its fields ask for the upgrade. */
  lemma AgreedExactly(buffer: string, target: string, fs: seq<Field>)
    requires |buffer| >= 168 && "GET " + RequestText(target, fs) <= buffer
    requires Without(target, BLANKS) && AllPlain(fs) && (fs != [] ==> fs[0].key[0] != '\t')
    ensures var p := ParseBuffer(CLEARED, buffer, |"GET " + RequestText(target, fs)|);
      p.Parsed? && Acceptable(p.held.headers) <==> Asks(fs)
  {
    BufferText(buffer, RequestText(target, fs));
    if fs == [] {
      NoFieldsMalformed(target);
    } else {
      SomeHeaders(fs);
      TextUnderstood(target, fs);
      AcceptableExactly(fs);
    }
  }

  /** A plain request for a page is not agreed to. */
  lemma PlainRequestRefused(buffer: string)
    requires |buffer| >= 168 && "GET " + RequestText("/", [Field("Host", "a")]) <= buffer
    ensures var p := ParseBuffer(CLEARED, buffer, |"GET " + RequestText("/", [Field("Host", "a")])|);
      !(p.Parsed? && Acceptable(p.held.headers))
  {
    var fs := [Field("Host", "a")];
    assert fs[1..] == [];
    assert Values(fs, "Upgrade") == [];
    AgreedExactly(buffer, "/", fs);
  }

  /** Nothing shorter than the least request, and nothing but a GET request, is read at all. */
  lemma OnlyGetRequests(held: Held, buffer: string, received: nat)
    requires received <= |buffer|
    ensures ParseBuffer(held, buffer, received).Parsed? ==>
      |buffer| >= 168 && (buffer[..4] == "GET " || (buffer[..2] == "\r\n" && buffer[2..6] == "GET "))
  {
  }

  // The client.

  /** The first value of a field that is not empty is this word. */
  predicate Says(fs: seq<Field>, key: string, lower: string, upper: string)
    requires |lower| == |upper|
  {
    Kept(fs, key) != [] && AnyCase(Kept(fs, key)[0], lower, upper)
  }

  lemma KeptGot(fs: seq<Field>, key: string)
    requires key != ""
    ensures Get(ClientEmplaceAll(map[], fs), key) == if Kept(fs, key) == [] then "" else Kept(fs, key)[0]
  {
    FirstKept(map[], fs, key);
  }

  /** The client accepts a printed response exactly when it is long enough, says that it upgrades, and has the key. */
  lemma ResponseAcceptedExactly(fs: seq<Field>, accept: string, rest: string, cursor: nat)
    requires fs != [] && AllOneLine(fs) && (rest == "" || rest[0] !in EOL) && accept != ""
    ensures var buff := "HTTP/1.1 101 Switching Protocols\r\n" + (Lines(fs) + (CRLF + rest));
      CheckResponse(buff, accept, cursor).ok <==>
        && |buff| >= 113
        && Says(fs, "Connection", "upgrade", "UPGRADE") && Says(fs, "Upgrade", "websocket", "WEBSOCKET")
        && Kept(fs, "Sec-WebSocket-Accept") != [] && Kept(fs, "Sec-WebSocket-Accept")[0] == accept
  {
    var lines := Lines(fs) + (CRLF + rest);
    var buff := STATUS + lines;
    StatusLength();
    assert buff[..34] == STATUS && buff[34..] == lines;
    ClientReadsAll(fs, rest);
    AcceptedHeaders(fs, accept);
  }

  lemma AcceptedHeaders(fs: seq<Field>, accept: string)
    requires accept != ""
    ensures var headers := ClientEmplaceAll(map[], fs);
      (&& headers != map[]
       && ToUpper(Get(headers, "Connection")) == "UPGRADE" && ToUpper(Get(headers, "Upgrade")) == "WEBSOCKET"
       && Get(headers, "Sec-WebSocket-Accept") == accept) <==>
      (&& Says(fs, "Connection", "upgrade", "UPGRADE") && Says(fs, "Upgrade", "websocket", "WEBSOCKET")
       && Kept(fs, "Sec-WebSocket-Accept") != [] && Kept(fs, "Sec-WebSocket-Accept")[0] == accept)
  {
    var headers := ClientEmplaceAll(map[], fs);
    KeptGot(fs, "Connection");
    KeptGot(fs, "Upgrade");
    KeptGot(fs, "Sec-WebSocket-Accept");
    UpgradeUppers();
    WebsocketUppers();
    ToUpperExactly(Get(headers, "Connection"), "upgrade", "UPGRADE");
    ToUpperExactly(Get(headers, "Upgrade"), "websocket", "WEBSOCKET");
    if Get(headers, "Sec-WebSocket-Accept") == accept { assert "Sec-WebSocket-Accept" in headers; }
  }

  /** No response but one that switches protocols is accepted. */
  lemma OnlySwitching(buff: string, accept: string, cursor: nat)
    ensures CheckResponse(buff, accept, cursor).ok ==> |buff| >= 113 && buff[..34] == "HTTP/1.1 101 Switching Protocols\r\n"
  {
  }

  // What either end tells the other besides.

  lemma Scheme(host: string, tls: bool)
    ensures var origin := (if tls then "https://" else "http://") + host; Trimmed(origin) == origin
  {
  }

  /** The server reads the host and the origin the client was given. */
  lemma RequestSays(buffer: string, target: string, host: string, key: string, tls: bool)
    requires |buffer| >= 168 && Request(target, host, key, tls) <= buffer
    requires Without(target, BLANKS) && Without(host, EOL) && Without(key, EOL)
    requires Trimmed(key) == key && key != ""
    ensures var p := ParseBuffer(CLEARED, buffer, |Request(target, host, key, tls)|);
      && p.Parsed? && Get(p.held.headers, "Host") == Trimmed(host)
      && Get(p.held.headers, "Origin") == if tls then "https://" + host else "http://" + host
  {
    Handshake.RequestText(buffer, target, host, key, tls);
    RequestPlain(host, key, tls);
    RequestAcceptable(host, key, tls);
    TextUnderstood(target, RequestFields(host, key, tls));
    HostAndOrigin(host, key, tls);
  }

  lemma HostAndOrigin(host: string, key: string, tls: bool)
    ensures var headers := EmplaceAll(map[], RequestFields(host, key, tls));
      && Get(headers, "Host") == Trimmed(host)
      && Get(headers, "Origin") == if tls then "https://" + host else "http://" + host
  {
    var fs := RequestFields(host, key, tls);
    ValuesOf(fs, 0, "Host");
    ValuesOf(fs, 5, "Origin");
    FieldGot(fs, "Host");
    FieldGot(fs, "Origin");
    Scheme(host, tls);
  }

  /** The values a response is configured to carry for a field, the announced protocol behind those of its own name. */
  function Carried(extra: seq<Field>, alias: Alias, key: string): seq<string> {
    Kept(extra, key)
    + if alias.Alias? && key == "Sec-WebSocket-Protocol" && Trimmed(alias.name) != "" then [Trimmed(alias.name)] else []
  }

  lemma CarriedKept(extra: seq<Field>, alias: Alias, key: string)
    ensures Kept(Configured(extra, alias), key) == Carried(extra, alias, key)
  {
    var more := match alias case NoAlias => [] case Alias(name) => [Field("Sec-WebSocket-Protocol", name)];
    KeptJoin(extra, more, key);
    if more != [] { assert more[1..] == []; }
  }

  /** A key that the server sets itself in no case. */
  predicate IsFree(key: string) {
    key != "" && key != "Upgrade" && key != "Connection" && key != "Server" && key != "Sec-WebSocket-Accept"
  }

  lemma FreeKept(fields: seq<Field>, accept: string, key: string)
    requires IsFree(key)
    ensures Kept(ResponseFields(fields, accept), key) == Kept(fields, key)
  {
    var front := [Field("Upgrade", "websocket"), Field("Connection", "Upgrade"), Field("Server", "LAppS/0.7.0")];
    var last := [Field("Sec-WebSocket-Accept", accept)];
    KeptJoin(front + fields, last, key);
    KeptJoin(front, fields, key);
    NoneKept(front, key);
    NoneKept(last, key);
  }

  lemma {:induction false} NoneKept(fs: seq<Field>, key: string)
    requires forall k :: 0 <= k < |fs| ==> fs[k].key != key
    ensures Kept(fs, key) == []
  {
    if fs != [] { NoneKept(fs[1..], key); }
  }

  /** The client reads every configured header, the first of a name, and the announced protocol. */
  lemma ResponseCarries(extra: seq<Field>, alias: Alias, accept: string, rest: string, key: string)
    requires AllOneLine(extra) && (alias.Alias? ==> Without(alias.name, EOL)) && Without(accept, EOL)
    requires (rest == "" || rest[0] !in EOL) && IsFree(key)
    ensures |Response(Configured(extra, alias), accept)| >= 34
    ensures var r := ClientHeaders((Response(Configured(extra, alias), accept) + rest)[34..], map[]);
      && r.ended && r.rest == rest
      && Get(r.headers, key) == (Carried(extra, alias, key) + [""])[0]
  {
    var fields := Configured(extra, alias);
    AliasOneLine(extra, alias);
    ResponseRead(fields, accept, rest);
    KeptGot(ResponseFields(fields, accept), key);
    FreeKept(fields, accept, key);
    CarriedKept(extra, alias, key);
  }

  /** A line end in front of a request moves the test of the method only: whatever the target, it is read as T. */
  lemma LeadingBreakMisread(buffer: string, received: nat)
    requires 168 <= received <= |buffer| && buffer[..6] == "\r\nGET "
    ensures ParseBuffer(CLEARED, buffer, received).held.target == "T"
  {
    var text := buffer[4..received];
    assert text[0] == buffer[..6][4] == 'T' && text[1] == buffer[..6][5] == ' ';
    assert text == "T" + text[1..] && text[1..][0] == ' ';
    CutAt("T", text[1..], BLANKS);
  }
}
