/** The opening handshake (sections 4.1 and 4.2 of RFC 6455): what each end prints and how the other end reads it. */
module Handshake {
  // Scanning text.

  const EOL: set<char> := {'\r', '\n'}
  const BLANKS: set<char> := {' ', '\t'}
  const KEY_END: set<char> := {' ', '\r', '\n', ':'}
  const COLON: set<char> := {':'}
  const AFTER_KEY: set<char> := {' ', ':', '\t'}
  const AFTER_VALUE: set<char> := {' ', '\r', '\n'}
  const VERSION_END: set<char> := {'\r', '\n', ' ', '\t'}

  function Before(s: string, stops: set<char>): string {
    if s == [] || s[0] in stops then [] else [s[0]] + Before(s[1..], stops)
  }

  function From(s: string, stops: set<char>): (r: string)
    ensures |r| == |s| - |Before(s, stops)|
  {
    if s == [] || s[0] in stops then s else From(s[1..], stops)
  }

  function Strip(s: string, skips: set<char>): (r: string)
    ensures |r| <= |s| && (r != [] ==> r[0] !in skips) && (s != [] && s[0] in skips ==> |r| < |s|)
  {
    if s == [] || s[0] !in skips then s else Strip(s[1..], skips)
  }

  predicate Without(s: string, stops: set<char>) {
    forall k :: 0 <= k < |s| ==> s[k] !in stops
  }

  lemma {:induction false} CutAt(a: string, t: string, stops: set<char>)
    requires Without(a, stops) && (t == [] || t[0] in stops)
    ensures Before(a + t, stops) == a && From(a + t, stops) == t
  {
    if a == [] {
      assert a + t == t;
    } else {
      assert (a + t)[1..] == a[1..] + t;
      CutAt(a[1..], t, stops);
    }
  }

  lemma {:induction false} StripBlank(a: string, t: string, skips: set<char>)
    requires forall k :: 0 <= k < |a| ==> a[k] in skips
    ensures Strip(a + t, skips) == Strip(t, skips)
  {
    if a == [] {
      assert a + t == t;
    } else {
      assert (a + t)[1..] == a[1..] + t;
      StripBlank(a[1..], t, skips);
    }
  }

  lemma {:induction false} StripFront(v: string, t: string, skips: set<char>)
    requires t != [] && t[0] !in skips
    ensures Strip(v + t, skips) == Strip(v, skips) + t
  {
    if v == [] {
      assert v + t == t;
    } else if v[0] in skips {
      assert (v + t)[1..] == v[1..] + t;
      StripFront(v[1..], t, skips);
    }
  }

  lemma {:induction false} StripWithout(v: string, skips: set<char>, stops: set<char>)
    requires Without(v, stops)
    ensures Without(Strip(v, skips), stops)
  {
    if v != [] && v[0] in skips { StripWithout(v[1..], skips, stops); }
  }

  // Header lines.

  datatype Field = Field(key: string, value: string)

  const CRLF: string := "\r\n"

  function Line(f: Field): string {
    f.key + (": " + (f.value + CRLF))
  }

  function Lines(fs: seq<Field>): string {
    if fs == [] then "" else Line(fs[0]) + Lines(fs[1..])
  }

  /** A key that ends where a line says it ends, and a value that stays on its line. */
  predicate Plain(f: Field) {
    f.key != "" && Without(f.key, KEY_END) && Without(f.value, EOL)
  }

  predicate AllPlain(fs: seq<Field>) {
    forall k :: 0 <= k < |fs| ==> Plain(fs[k])
  }

  type Headers = map<string, string>

  /** The first entry of a key stays. */
  function Emplace(m: Headers, key: string, value: string): Headers {
    if key in m then m else m[key := value]
  }

  /** Both parsers drop blanks and colons in front of a value. */
  function Trimmed(value: string): string {
    Strip(value, AFTER_KEY)
  }

  lemma LineValue(f: Field, rest: string)
    requires Without(f.value, EOL)
    ensures var r := Strip(": " + (f.value + CRLF) + rest, AFTER_KEY);
      Before(r, EOL) == Trimmed(f.value) && From(r, EOL) == CRLF + rest
  {
    var t := CRLF + rest;
    assert ": " + (f.value + CRLF) + rest == ": " + (f.value + t);
    StripBlank(": ", f.value + t, AFTER_KEY);
    StripFront(f.value, t, AFTER_KEY);
    StripWithout(f.value, AFTER_KEY, EOL);
    CutAt(Trimmed(f.value), t, EOL);
  }

  // The server's reading.

  /** One header off the front; what is left is shorter. */
  function ServerRest(s: string): (r: string)
    requires s != []
    ensures |r| < |s|
  {
    Strip(From(Strip(From(s, KEY_END), AFTER_KEY), EOL), AFTER_VALUE)
  }

  function ServerHeaders(s: string, m: Headers): Headers
    decreases |s|
  {
    if s == [] then m
    else ServerHeaders(ServerRest(s), Emplace(m, Before(s, KEY_END), Before(Strip(From(s, KEY_END), AFTER_KEY), EOL)))
  }

  function EmplaceAll(m: Headers, fs: seq<Field>): Headers
    decreases |fs|
  {
    if fs == [] then m else EmplaceAll(Emplace(m, fs[0].key, Trimmed(fs[0].value)), fs[1..])
  }

  lemma ServerLine(f: Field, rest: string, m: Headers)
    requires Plain(f)
    ensures ServerHeaders(Line(f) + rest, m) == ServerHeaders(Strip(rest, AFTER_VALUE), Emplace(m, f.key, Trimmed(f.value)))
  {
    var s := Line(f) + rest;
    var t := ": " + (f.value + CRLF) + rest;
    assert s == f.key + t;
    CutAt(f.key, t, KEY_END);
    LineValue(f, rest);
    StripBlank(CRLF, rest, AFTER_VALUE);
  }

  /** The lines of any plain fields, ended by a blank line, are read as exactly those fields. */
  lemma {:induction false} ServerReadsLines(fs: seq<Field>, m: Headers)
    requires AllPlain(fs)
    ensures ServerHeaders(Strip(Lines(fs) + CRLF, AFTER_VALUE), m) == EmplaceAll(m, fs)
    decreases |fs|
  {
    if fs == [] {
      StripBlank(CRLF, "", AFTER_VALUE);
      assert Lines(fs) + CRLF == CRLF + "";
    } else {
      var rest := Lines(fs[1..]) + CRLF;
      assert Lines(fs) + CRLF == Line(fs[0]) + rest;
      assert (Line(fs[0]) + rest)[0] == fs[0].key[0];
      ServerLine(fs[0], rest, m);
      ServerReadsLines(fs[1..], Emplace(m, fs[0].key, Trimmed(fs[0].value)));
    }
  }

  /** The values of a key, in order. */
  function Values(fs: seq<Field>, key: string): seq<string> {
    if fs == [] then []
    else (if fs[0].key == key then [Trimmed(fs[0].value)] else []) + Values(fs[1..], key)
  }

  lemma {:induction false} FirstValue(m: Headers, fs: seq<Field>, key: string)
    ensures key in EmplaceAll(m, fs) <==> key in m || Values(fs, key) != []
    ensures key in m ==> EmplaceAll(m, fs)[key] == m[key]
    ensures key !in m && Values(fs, key) != [] ==> EmplaceAll(m, fs)[key] == Values(fs, key)[0]
    decreases |fs|
  {
    if fs != [] { FirstValue(Emplace(m, fs[0].key, Trimmed(fs[0].value)), fs[1..], key); }
  }

  function Get(m: Headers, key: string): string {
    if key in m then m[key] else ""
  }

  function Upper(c: char): char {
    if 'a' <= c <= 'z' then (c as int - 32) as char else c
  }

  function ToUpper(s: string): (r: string)
    ensures |r| == |s| && forall k :: 0 <= k < |s| ==> r[k] == Upper(s[k])
  {
    seq(|s|, k requires 0 <= k < |s| => Upper(s[k]))
  }

  predicate Contains(s: string, t: string) {
    t <= s || (s != [] && Contains(s[1..], t))
  }

  /** What a parser holds: a request is read onto whatever is there already. */
  datatype Held = Held(target: string, version: string, headers: Headers)

  const CLEARED := Held("", "", map[])

  datatype Parsed = Malformed(held: Held) | Parsed(held: Held)

  /** The request line after its method, and the headers. */
  function ParseText(held: Held, text: string): Parsed {
    var rest := Strip(From(text, BLANKS), BLANKS);
    var headers := ServerHeaders(Strip(From(rest, VERSION_END), VERSION_END), held.headers);
    var read := Held(held.target + Before(text, BLANKS), held.version + Before(rest, VERSION_END), headers);
    if headers == map[] then Malformed(read) else Parsed(read)
  }

  const MIN_REQUEST := 168

  /** A leading CRLF only moves the test for the method: the target is read from position 4 in any case. */
  function ParseBuffer(held: Held, buffer: string, received: nat): Parsed
    requires received <= |buffer|
  {
    if |buffer| < MIN_REQUEST then Malformed(held)
    else
      var at := if buffer[..2] == CRLF then 2 else 0;
      if buffer[at..at + 4] != "GET " then Malformed(held)
      else ParseText(held, if received < 4 then "" else buffer[4..received])
  }

  /** What makes the server agree to the upgrade. */
  predicate Acceptable(headers: Headers) {
    && Contains(ToUpper(Get(headers, "Connection")), "UPGRADE")
    && ToUpper(Get(headers, "Upgrade")) == "WEBSOCKET"
    && Get(headers, "Sec-WebSocket-Version") == "13"
    && Get(headers, "Sec-WebSocket-Key") != ""
  }

  // The client's request.

  function RequestFields(host: string, key: string, tls: bool): seq<Field> {
    [Field("Host", host), Field("Upgrade", "websocket"), Field("Connection", "Upgrade"),
     Field("User-Agent", "LAppS/0.7.0"), Field("Sec-WebSocket-Key", key),
     Field("Origin", (if tls then "https://" else "http://") + host), Field("Sec-WebSocket-Version", "13")]
  }

  function Request(target: string, host: string, key: string, tls: bool): string {
    "GET " + (target + (" " + ("HTTP/1.1" + (CRLF + (Lines(RequestFields(host, key, tls)) + CRLF)))))
  }

  lemma RequestValues(host: string, key: string, tls: bool)
    ensures var fs := RequestFields(host, key, tls);
      && Values(fs, "Upgrade") == [Trimmed("websocket")] && Values(fs, "Connection") == [Trimmed("Upgrade")]
      && Values(fs, "Sec-WebSocket-Key") == [Trimmed(key)] && Values(fs, "Sec-WebSocket-Version") == [Trimmed("13")]
  {
    ValuesOf(RequestFields(host, key, tls), 1, "Upgrade");
    ValuesOf(RequestFields(host, key, tls), 2, "Connection");
    ValuesOf(RequestFields(host, key, tls), 4, "Sec-WebSocket-Key");
    ValuesOf(RequestFields(host, key, tls), 6, "Sec-WebSocket-Version");
  }

  /** A key used once. */
  lemma {:induction false} ValuesOf(fs: seq<Field>, i: nat, key: string)
    requires i < |fs| && fs[i].key == key && forall k :: 0 <= k < |fs| && k != i ==> fs[k].key != key
    ensures Values(fs, key) == [Trimmed(fs[i].value)]
    decreases |fs|
  {
    if i == 0 {
      NoValues(fs[1..], key);
    } else {
      ValuesOf(fs[1..], i - 1, key);
    }
  }

  lemma {:induction false} NoValues(fs: seq<Field>, key: string)
    requires forall k :: 0 <= k < |fs| ==> fs[k].key != key
    ensures Values(fs, key) == []
    decreases |fs|
  {
    if fs != [] { NoValues(fs[1..], key); }
  }

  lemma {:induction false} PlainWords()
    ensures Plain(Field("Upgrade", "websocket")) && Plain(Field("Connection", "Upgrade"))
  {
  }

  lemma {:induction false} PlainAgent()
    ensures Plain(Field("User-Agent", "LAppS/0.7.0"))
  {
  }

  lemma {:induction false} PlainVersion()
    ensures Plain(Field("Sec-WebSocket-Version", "13"))
  {
  }

  lemma {:induction false} RequestPlain(host: string, key: string, tls: bool)
    requires Without(host, EOL) && Without(key, EOL)
    ensures AllPlain(RequestFields(host, key, tls))
  {
    PlainWords();
    PlainAgent();
    PlainVersion();
    PlainOrigin(host, tls);
    assert Plain(Field("Host", host)) && Plain(Field("Sec-WebSocket-Key", key));
  }

  lemma PlainOrigin(host: string, tls: bool)
    requires Without(host, EOL)
    ensures Plain(Field("Origin", (if tls then "https://" else "http://") + host))
  {
    var scheme := if tls then "https://" else "http://";
    assert Without(scheme, EOL);
  }

  lemma Words()
    ensures ToUpper(Trimmed("websocket")) == "WEBSOCKET" && ToUpper(Trimmed("Upgrade")) == "UPGRADE"
    ensures Trimmed("13") == "13"
  {
    assert Trimmed("websocket") == "websocket" && Trimmed("Upgrade") == "Upgrade";
  }

  /** The headers the server collects from a request. */
  lemma RequestHeaders(host: string, key: string, tls: bool)
    ensures var headers := EmplaceAll(map[], RequestFields(host, key, tls));
      && Get(headers, "Upgrade") == Trimmed("websocket") && Get(headers, "Connection") == Trimmed("Upgrade")
      && Get(headers, "Sec-WebSocket-Key") == Trimmed(key) && Get(headers, "Sec-WebSocket-Version") == Trimmed("13")
      && headers != map[]
  {
    var fs := RequestFields(host, key, tls);
    RequestValues(host, key, tls);
    FirstValue(map[], fs, "Upgrade");
    FirstValue(map[], fs, "Connection");
    FirstValue(map[], fs, "Sec-WebSocket-Key");
    FirstValue(map[], fs, "Sec-WebSocket-Version");
  }

  lemma RequestAcceptable(host: string, key: string, tls: bool)
    requires Trimmed(key) == key && key != ""
    ensures var headers := EmplaceAll(map[], RequestFields(host, key, tls));
      Acceptable(headers) && Get(headers, "Sec-WebSocket-Key") == key && headers != map[]
  {
    RequestHeaders(host, key, tls);
    Words();
  }

  /** What is left of a request once its method is read. */
  lemma RequestText(buffer: string, target: string, host: string, key: string, tls: bool)
    requires |buffer| >= MIN_REQUEST && Request(target, host, key, tls) <= buffer
    ensures ParseBuffer(CLEARED, buffer, |Request(target, host, key, tls)|)
         == ParseText(CLEARED, target + (" " + ("HTTP/1.1" + (CRLF + (Lines(RequestFields(host, key, tls)) + CRLF)))))
  {
    var request := Request(target, host, key, tls);
    var text := target + (" " + ("HTTP/1.1" + (CRLF + (Lines(RequestFields(host, key, tls)) + CRLF))));
    assert request == "GET " + text;
    assert buffer[..4] == request[..4] == "GET ";
    assert buffer[..2] == "GE";
    assert buffer[4..|request|] == request[4..] == text;
  }

  /** The server reads exactly the client's target, when it has no blanks in it, and exactly the client's key. */
  lemma ServerUnderstands(buffer: string, target: string, host: string, key: string, tls: bool)
    requires |buffer| >= MIN_REQUEST && Request(target, host, key, tls) <= buffer
    requires Without(target, BLANKS) && Without(host, EOL)
    requires Without(key, EOL) && Trimmed(key) == key && key != ""
    ensures var p := ParseBuffer(CLEARED, buffer, |Request(target, host, key, tls)|);
      && p.Parsed? && p.held.target == target && p.held.version == "HTTP/1.1"
      && Acceptable(p.held.headers) && Get(p.held.headers, "Sec-WebSocket-Key") == key
  {
    RequestText(buffer, target, host, key, tls);
    RequestPlain(host, key, tls);
    RequestAcceptable(host, key, tls);
    TextUnderstood(target, RequestFields(host, key, tls));
  }

  lemma {:induction false} TextUnderstood(target: string, fs: seq<Field>)
    requires Without(target, BLANKS) && AllPlain(fs) && fs != [] && fs[0].key[0] != '\t'
    requires EmplaceAll(map[], fs) != map[]
    ensures ParseText(CLEARED, target + (" " + ("HTTP/1.1" + (CRLF + (Lines(fs) + CRLF)))))
         == Parsed(Held(target, "HTTP/1.1", EmplaceAll(map[], fs)))
  {
    var lines := Lines(fs) + CRLF;
    assert lines[0] == fs[0].key[0];
    TargetPart(target, "HTTP/1.1" + (CRLF + lines));
    VersionPart(lines);
    ServerReadsLines(fs, map[]);
  }

  lemma {:induction false} TargetPart(target: string, rest: string)
    requires Without(target, BLANKS) && rest != "" && rest[0] !in BLANKS
    ensures var text := target + (" " + rest); Before(text, BLANKS) == target && Strip(From(text, BLANKS), BLANKS) == rest
  {
    CutAt(target, " " + rest, BLANKS);
    StripBlank(" ", rest, BLANKS);
  }

  lemma {:induction false} VersionPart(lines: string)
    requires lines != "" && lines[0] !in VERSION_END
    ensures var rest := "HTTP/1.1" + (CRLF + lines);
      Before(rest, VERSION_END) == "HTTP/1.1" && Strip(From(rest, VERSION_END), VERSION_END) == lines
  {
    CutAt("HTTP/1.1", CRLF + lines, VERSION_END);
    StripBlank(CRLF, lines, VERSION_END);
  }

  lemma {:induction false} BeforeExactly(a: string, t: string, stops: set<char>)
    requires t != [] && t[0] in stops
    ensures Before(a + t, stops) == a <==> Without(a, stops)
  {
    if a == [] {
      assert a + t == t;
    } else {
      assert (a + t)[1..] == a[1..] + t;
      BeforeExactly(a[1..], t, stops);
      assert a == [a[0]] + a[1..];
      assert a[0] !in stops ==> (Without(a, stops) <==> Without(a[1..], stops));
    }
  }

  lemma {:induction false} BeforeFront(a: string, t: string, stops: set<char>)
    requires t != [] && t[0] in stops
    ensures Before(a + t, stops) == Before(a, stops)
  {
    if a == [] {
      assert a + t == t;
    } else if a[0] !in stops {
      assert (a + t)[1..] == a[1..] + t;
      BeforeFront(a[1..], t, stops);
    }
  }

  lemma {:induction false} FromFront(a: string, t: string, stops: set<char>)
    requires t != [] && t[0] in stops
    ensures From(a + t, stops) == From(a, stops) + t
  {
    if a == [] {
      assert a + t == t;
    } else if a[0] !in stops {
      assert (a + t)[1..] == a[1..] + t;
      FromFront(a[1..], t, stops);
    }
  }

  lemma {:induction false} HeadersKept(s: string, m: Headers)
    ensures m.Keys <= ServerHeaders(s, m).Keys
    decreases |s|
  {
    if s != [] {
      HeadersKept(ServerRest(s), Emplace(m, Before(s, KEY_END), Before(Strip(From(s, KEY_END), AFTER_KEY), EOL)));
    }
  }

  /** Any text at all makes a header, if only one with an empty name. */
  lemma HeadersFound(s: string, m: Headers)
    requires s != []
    ensures ServerHeaders(s, m) != map[]
  {
    var key, value := Before(s, KEY_END), Before(Strip(From(s, KEY_END), AFTER_KEY), EOL);
    assert key in Emplace(m, key, value);
    HeadersKept(ServerRest(s), Emplace(m, key, value));
    assert key in ServerHeaders(s, m);
  }

  /** Words and separators in front of a text are skipped up to the text at most. */
  lemma SkipsUpTo(word: string, gap: string, text: string, seps: set<char>)
    requires gap != [] && gap[0] in seps && text != [] && text[0] !in seps
    ensures exists before :: Strip(From(word + (gap + text), seps), seps) == before + text
  {
    FromFront(word, gap + text, seps);
    assert From(word, seps) + (gap + text) == (From(word, seps) + gap) + text;
    StripFront(From(word, seps) + gap, text, seps);
  }

  /** Header lines are reached whatever the target is. */
  lemma AlwaysParsed(held: Held, target: string, lines: string)
    requires lines != "" && lines[0] !in VERSION_END
    ensures ParseText(held, target + (" " + ("HTTP/1.1" + (CRLF + lines)))).Parsed?
  {
    var after := "HTTP/1.1" + (CRLF + lines);
    var text := target + (" " + after);
    SkipsUpTo(target, " ", after, BLANKS);
    var before :| Strip(From(text, BLANKS), BLANKS) == before + after;
    assert before + after == (before + "HTTP/1.1") + (CRLF + lines);
    SkipsUpTo(before + "HTTP/1.1", CRLF, lines, VERSION_END);
    HeadersFound(Strip(From(before + after, VERSION_END), VERSION_END), held.headers);
  }

  lemma HostFirst(host: string, key: string, tls: bool)
    ensures var lines := Lines(RequestFields(host, key, tls)) + CRLF; lines != "" && lines[0] == 'H'
  {
    var f := RequestFields(host, key, tls)[0];
    assert Line(f)[0] == f.key[0] == 'H';
  }

  /** Whatever the other fields, the request is read, and the target comes through exactly when it has no blanks. */
  lemma TargetExactly(buffer: string, target: string, host: string, key: string, tls: bool)
    requires |buffer| >= MIN_REQUEST && Request(target, host, key, tls) <= buffer
    ensures var p := ParseBuffer(CLEARED, buffer, |Request(target, host, key, tls)|);
      && p.Parsed? && p.held.target == Before(target, BLANKS)
      && (p.held.target == target <==> Without(target, BLANKS))
  {
    var lines := Lines(RequestFields(host, key, tls)) + CRLF;
    var after := " " + ("HTTP/1.1" + (CRLF + lines));
    RequestText(buffer, target, host, key, tls);
    HostFirst(host, key, tls);
    AlwaysParsed(CLEARED, target, lines);
    BeforeExactly(target, after, BLANKS);
    BeforeFront(target, after, BLANKS);
  }

  /** A target with a blank in it is cut there. */
  lemma BlankTargetCut(buffer: string, host: string, key: string, tls: bool)
    requires |buffer| >= MIN_REQUEST && Request("/a b", host, key, tls) <= buffer
    ensures ParseBuffer(CLEARED, buffer, |Request("/a b", host, key, tls)|).held.target == "/a"
  {
    TargetExactly(buffer, "/a b", host, key, tls);
    assert "/a b" == "/a" + " b";
    CutAt("/a", " b", BLANKS);
  }

  // The server's response and the client's reading.

  const STATUS: string := "HTTP/1.1 101 Switching Protocols\r\n"

  /** The fixed headers, those configured for the service, and the accepted key. */
  function ResponseFields(extra: seq<Field>, accept: string): seq<Field> {
    [Field("Upgrade", "websocket"), Field("Connection", "Upgrade"), Field("Server", "LAppS/0.7.0")]
    + extra + [Field("Sec-WebSocket-Accept", accept)]
  }

  function Response(extra: seq<Field>, accept: string): string {
    STATUS + (Lines(ResponseFields(extra, accept)) + CRLF)
  }

  /** What reading the headers ends with: the headers, and what follows the blank line if there is one. */
  datatype Reading = Reading(headers: Headers, ended: bool, rest: string)

  function ClientEmplace(m: Headers, key: string, value: string): Headers {
    if key != "" && value != "" then Emplace(m, key, value) else m
  }

  function ClientHeaders(s: string, m: Headers): (r: Reading)
    ensures |r.rest| <= |s|
    decreases |s|
  {
    if s == [] then Reading(m, false, "")
    else
      var line := Strip(s, EOL);
      if |s| - |line| == 4 then Reading(m, true, line)
      else
        var valued := Strip(From(line, COLON), AFTER_KEY);
        ClientHeaders(From(valued, EOL), ClientEmplace(m, Before(line, COLON), Before(valued, EOL)))
  }

  function ClientEmplaceAll(m: Headers, fs: seq<Field>): Headers
    decreases |fs|
  {
    if fs == [] then m else ClientEmplaceAll(ClientEmplace(m, fs[0].key, Trimmed(fs[0].value)), fs[1..])
  }

  /** A field that stays on its line, with a key that ends where the line says it ends. */
  predicate OneLine(f: Field) {
    Without(f.key, COLON) && Without(f.key, EOL) && Without(f.value, EOL)
  }

  predicate AllOneLine(fs: seq<Field>) {
    forall k :: 0 <= k < |fs| ==> OneLine(fs[k])
  }

  lemma {:induction false} ClientLine(skipped: string, f: Field, rest: string, m: Headers)
    requires OneLine(f) && (skipped == "" || skipped == CRLF)
    ensures ClientHeaders(skipped + (Line(f) + rest), m)
         == ClientHeaders(CRLF + rest, ClientEmplace(m, f.key, Trimmed(f.value)))
  {
    var t := ": " + (f.value + CRLF) + rest;
    var line := Line(f) + rest;
    assert line == f.key + t;
    assert line[0] == if f.key == "" then ':' else f.key[0];
    StripBlank(skipped, line, EOL);
    CutAt(f.key, t, COLON);
    LineValue(f, rest);
  }

  /** The lines of any one-line fields and a blank line are read as those fields, up to what follows the blank line. */
  lemma {:induction false} ClientReadsLines(fs: seq<Field>, rest: string, m: Headers)
    requires AllOneLine(fs) && (rest == "" || rest[0] !in EOL)
    ensures ClientHeaders(CRLF + (Lines(fs) + (CRLF + rest)), m) == Reading(ClientEmplaceAll(m, fs), true, rest)
    decreases |fs|
  {
    if fs == [] {
      var s := CRLF + CRLF + rest;
      assert CRLF + (Lines(fs) + (CRLF + rest)) == s;
      StripBlank(CRLF + CRLF, rest, EOL);
    } else {
      var after := Lines(fs[1..]) + (CRLF + rest);
      assert Lines(fs) + (CRLF + rest) == Line(fs[0]) + after;
      ClientLine(CRLF, fs[0], after, m);
      ClientReadsLines(fs[1..], rest, ClientEmplace(m, fs[0].key, Trimmed(fs[0].value)));
    }
  }

  /** The values of a key that the client keeps: those that are not empty. */
  function Kept(fs: seq<Field>, key: string): seq<string> {
    if fs == [] then []
    else (if fs[0].key == key && Trimmed(fs[0].value) != "" then [Trimmed(fs[0].value)] else []) + Kept(fs[1..], key)
  }

  lemma {:induction false} FirstKept(m: Headers, fs: seq<Field>, key: string)
    requires key != ""
    ensures var all := ClientEmplaceAll(m, fs);
      Get(all, key) == if key in m then m[key] else if Kept(fs, key) == [] then "" else Kept(fs, key)[0]
    decreases |fs|
  {
    if fs != [] { FirstKept(ClientEmplace(m, fs[0].key, Trimmed(fs[0].value)), fs[1..], key); }
  }

  lemma {:induction false} KeptJoin(a: seq<Field>, b: seq<Field>, key: string)
    ensures Kept(a + b, key) == Kept(a, key) + Kept(b, key)
    decreases |a|
  {
    if a == [] {
      assert a + b == b;
    } else {
      assert (a + b)[1..] == a[1..] + b;
      KeptJoin(a[1..], b, key);
    }
  }

  const MIN_RESPONSE := 113

  /** Whether the client goes on, and the position it goes on from: 0 if nothing follows the headers. */
  datatype Verdict = Verdict(ok: bool, cursor: nat)

  function CheckResponse(buff: string, accept: string, cursor: nat): Verdict {
    if |buff| < MIN_RESPONSE || buff[..34] != STATUS then Verdict(false, cursor)
    else
      var r := ClientHeaders(buff[34..], map[]);
      Verdict(
        && r.headers != map[]
        && ToUpper(Get(r.headers, "Connection")) == "UPGRADE"
        && ToUpper(Get(r.headers, "Upgrade")) == "WEBSOCKET"
        && Get(r.headers, "Sec-WebSocket-Accept") == accept,
        if !r.ended then cursor else if r.rest == "" then 0 else |buff| - |r.rest|)
  }

  lemma FixedOneLine()
    ensures OneLine(Field("Upgrade", "websocket")) && OneLine(Field("Connection", "Upgrade"))
  {
  }

  lemma ServerOneLine()
    ensures OneLine(Field("Server", "LAppS/0.7.0"))
  {
  }

  lemma AcceptOneLine(accept: string)
    requires Without(accept, EOL)
    ensures OneLine(Field("Sec-WebSocket-Accept", accept))
  {
  }

  lemma ResponseOneLine(extra: seq<Field>, accept: string)
    requires AllOneLine(extra) && Without(accept, EOL)
    ensures AllOneLine(ResponseFields(extra, accept))
  {
    FixedOneLine();
    ServerOneLine();
    AcceptOneLine(accept);
    var fs := ResponseFields(extra, accept);
    forall k | 0 <= k < |fs| ensures OneLine(fs[k]) {
      if 3 <= k < 3 + |extra| { assert fs[k] == extra[k - 3]; }
    }
  }

  /** Fixed headers come first and win; the accepted key comes last, after any configured one of its name. */
  lemma ResponseKept(extra: seq<Field>, accept: string)
    requires Trimmed(accept) == accept && accept != ""
    ensures var fs := ResponseFields(extra, accept);
      && Kept(fs, "Connection") != [] && Kept(fs, "Connection")[0] == Trimmed("Upgrade")
      && Kept(fs, "Upgrade") != [] && Kept(fs, "Upgrade")[0] == Trimmed("websocket")
      && Kept(fs, "Sec-WebSocket-Accept") == Kept(extra, "Sec-WebSocket-Accept") + [accept]
  {
    var first := [Field("Upgrade", "websocket"), Field("Connection", "Upgrade"), Field("Server", "LAppS/0.7.0")];
    var last := [Field("Sec-WebSocket-Accept", accept)];
    Words();
    FixedKept();
    KeptJoin(first + extra, last, "Connection");
    KeptJoin(first, extra, "Connection");
    KeptJoin(first + extra, last, "Upgrade");
    KeptJoin(first, extra, "Upgrade");
    KeptJoin(first + extra, last, "Sec-WebSocket-Accept");
    KeptJoin(first, extra, "Sec-WebSocket-Accept");
    assert Kept(last, "Sec-WebSocket-Accept") == [accept] by { assert last[1..] == []; }
  }

  lemma FixedKept()
    ensures var first := [Field("Upgrade", "websocket"), Field("Connection", "Upgrade"), Field("Server", "LAppS/0.7.0")];
      && Kept(first, "Connection") == [Trimmed("Upgrade")] && Kept(first, "Upgrade") == [Trimmed("websocket")]
      && Kept(first, "Sec-WebSocket-Accept") == []
  {
    var upgrade, connection, server := Field("Upgrade", "websocket"), Field("Connection", "Upgrade"), Field("Server", "LAppS/0.7.0");
    Words();
    assert [upgrade, connection, server][1..] == [connection, server] && [connection, server][1..] == [server];
    assert [server][1..] == [];
  }

  lemma StatusLength()
    ensures |STATUS| == 34
  {
  }

  /**
   * The client leaves its cursor at the first byte after the printed headers, or at 0 if there is none, and accepts the
   * response exactly when no configured header claims another accepted key before the real one.
   */
  lemma ClientUnderstands(extra: seq<Field>, accept: string, rest: string, cursor: nat)
    requires AllOneLine(extra) && Without(accept, EOL) && Trimmed(accept) == accept && accept != ""
    requires rest == "" || rest[0] !in EOL
    ensures var v := CheckResponse(Response(extra, accept) + rest, accept, cursor);
      && v.cursor == (if rest == "" then 0 else |Response(extra, accept)|)
      && (v.ok <==> (Kept(extra, "Sec-WebSocket-Accept") + [accept])[0] == accept)
  {
    var buff := Response(extra, accept) + rest;
    StatusLength();
    assert buff[..34] == STATUS;
    ResponseLong(extra, accept);
    ResponseRead(extra, accept, rest);
    ResponseHeaders(extra, accept);
    Words();
  }

  /** A configured header that claims an accepted key of its own makes the client refuse. */
  lemma ForgedAcceptRefused()
    ensures !CheckResponse(Response([Field("Sec-WebSocket-Accept", "x")], "y"), "y", 0).ok
  {
    var extra := [Field("Sec-WebSocket-Accept", "x")];
    assert OneLine(extra[0]) && Trimmed("x") == "x" && Trimmed("y") == "y";
    assert extra[1..] == [] && Kept(extra, "Sec-WebSocket-Accept") == ["x"];
    ClientUnderstands(extra, "y", "", 0);
    assert Response(extra, "y") + "" == Response(extra, "y");
  }

  /** What the client reads after the status line. */
  lemma {:induction false} ResponseRead(extra: seq<Field>, accept: string, rest: string)
    requires AllOneLine(extra) && Without(accept, EOL) && (rest == "" || rest[0] !in EOL)
    ensures |STATUS| == 34 && |Response(extra, accept)| >= 34
    ensures ClientHeaders((Response(extra, accept) + rest)[34..], map[])
         == Reading(ClientEmplaceAll(map[], ResponseFields(extra, accept)), true, rest)
  {
    var fs := ResponseFields(extra, accept);
    StatusLength();
    ResponseOneLine(extra, accept);
    assert (Response(extra, accept) + rest)[34..] == Lines(fs) + (CRLF + rest);
    ClientReadsAll(fs, rest);
  }

  /** The same without a line end in front of the first line. */
  lemma {:induction false} ClientReadsAll(fs: seq<Field>, rest: string)
    requires fs != [] && AllOneLine(fs) && (rest == "" || rest[0] !in EOL)
    ensures ClientHeaders(Lines(fs) + (CRLF + rest), map[]) == Reading(ClientEmplaceAll(map[], fs), true, rest)
  {
    var after := Lines(fs[1..]) + (CRLF + rest);
    assert Lines(fs) + (CRLF + rest) == "" + (Line(fs[0]) + after);
    ClientLine("", fs[0], after, map[]);
    ClientReadsLines(fs[1..], rest, ClientEmplace(map[], fs[0].key, Trimmed(fs[0].value)));
  }

  lemma ResponseHeaders(extra: seq<Field>, accept: string)
    requires Trimmed(accept) == accept && accept != ""
    ensures var headers := ClientEmplaceAll(map[], ResponseFields(extra, accept));
      && headers != map[]
      && Get(headers, "Connection") == Trimmed("Upgrade") && Get(headers, "Upgrade") == Trimmed("websocket")
      && Get(headers, "Sec-WebSocket-Accept") == (Kept(extra, "Sec-WebSocket-Accept") + [accept])[0]
  {
    var fs := ResponseFields(extra, accept);
    FirstKept(map[], fs, "Connection");
    FirstKept(map[], fs, "Upgrade");
    FirstKept(map[], fs, "Sec-WebSocket-Accept");
    ResponseKept(extra, accept);
    Words();
    assert Trimmed("Upgrade") == "Upgrade";
  }

  lemma ResponseLong(extra: seq<Field>, accept: string)
    requires accept != ""
    ensures |Response(extra, accept)| >= MIN_RESPONSE
  {
    var fs := ResponseFields(extra, accept);
    var rest := fs[3..];
    assert Lines(fs[1..]) == Line(fs[1]) + Lines(fs[2..]) by { assert fs[1..][1..] == fs[2..]; }
    assert Lines(fs[2..]) == Line(fs[2]) + Lines(rest) by { assert fs[2..][1..] == rest; }
    assert |Line(fs[0])| == 20 && |Line(fs[1])| == 21 && |Line(fs[2])| == 21;
    assert |Lines(fs)| == 62 + |Lines(rest)|;
    LastLine(rest);
    assert rest[|rest| - 1] == Field("Sec-WebSocket-Accept", accept);
    assert |Line(Field("Sec-WebSocket-Accept", accept))| == 24 + |accept|;
    StatusLength();
  }

  lemma {:induction false} LastLine(fs: seq<Field>)
    requires fs != []
    ensures |Lines(fs)| >= |Line(fs[|fs| - 1])|
    decreases |fs|
  {
    if |fs| > 1 { LastLine(fs[1..]); }
  }

  // The parsers and printers in place.

  /** A token up to the first of `stops`, and where it ends. */
  method ReadUntil(buff: string, from: nat, sz: nat, stops: set<char>) returns (token: string, index: nat)
    requires from <= sz <= |buff|
    ensures from <= index <= sz && token == Before(buff[from..sz], stops) && buff[index..sz] == From(buff[from..sz], stops)
  {
    token, index := "", from;
    while index < sz && buff[index] !in stops
      invariant from <= index <= sz
      invariant token + Before(buff[index..sz], stops) == Before(buff[from..sz], stops)
      invariant From(buff[index..sz], stops) == From(buff[from..sz], stops)
    {
      assert buff[index..sz][1..] == buff[index + 1..sz];
      token := token + [buff[index]];
      index := index + 1;
    }
    assert token + [] == token;
  }

  method SkipOver(buff: string, from: nat, sz: nat, skips: set<char>) returns (index: nat)
    requires from <= sz <= |buff|
    ensures from <= index <= sz && buff[index..sz] == Strip(buff[from..sz], skips)
  {
    index := from;
    while index < sz && buff[index] in skips
      invariant from <= index <= sz && Strip(buff[index..sz], skips) == Strip(buff[from..sz], skips)
    {
      assert buff[index..sz][1..] == buff[index + 1..sz];
      index := index + 1;
    }
  }

  class RequestParser {
    var httpVersion: string
    var requestTarget: string
    var headers: Headers

    function Contents(): Held
      reads this
    {
      Held(requestTarget, httpVersion, headers)
    }

    constructor ()
      ensures Contents() == CLEARED
    {
      httpVersion, requestTarget, headers := "", "", map[];
    }

    method Clear()
      modifies this
      ensures Contents() == CLEARED
    {
      httpVersion, requestTarget, headers := "", "", map[];
    }

    method CollectHeaders(buff: string, sz: nat, from: nat)
      requires from <= sz <= |buff|
      modifies this`headers
      ensures headers == ServerHeaders(buff[from..sz], old(headers))
    {
      var index := from;
      while index < sz
        invariant from <= index <= sz
        invariant ServerHeaders(buff[index..sz], headers) == ServerHeaders(buff[from..sz], old(headers))
      {
        ghost var s := buff[index..sz];
        assert |ServerRest(s)| < |s|;
        var key, value;
        key, index := ReadUntil(buff, index, sz, KEY_END);
        index := SkipOver(buff, index, sz, AFTER_KEY);
        value, index := ReadUntil(buff, index, sz, EOL);
        index := SkipOver(buff, index, sz, AFTER_VALUE);
        headers := Emplace(headers, key, value);
      }
    }

    /** Reads a request onto what is held; false stands for the exceptions. */
    method Parse(buffer: string, received: nat) returns (ok: bool)
      requires received <= |buffer|
      modifies this
      ensures var p := ParseBuffer(old(Contents()), buffer, received); ok == p.Parsed? && Contents() == p.held
    {
      if |buffer| < MIN_REQUEST { return false; }
      var cursor := 0;
      if buffer[0] == '\r' && buffer[1] == '\n' { cursor := 2; }
      assert cursor == 2 <==> buffer[..2] == CRLF;
      if buffer[cursor..cursor + 4] != "GET " { return false; }
      ok := ParseLine(buffer, received);
    }

    /** The request line after its method, and the headers. */
    method ParseLine(buffer: string, received: nat) returns (ok: bool)
      requires received <= |buffer| && 4 <= |buffer|
      modifies this
      ensures var p := ParseText(old(Contents()), if received < 4 then "" else buffer[4..received]);
        ok == p.Parsed? && Contents() == p.held
    {
      var end := if received < 4 then 4 else received;
      var word, cursor;
      word, cursor := ReadUntil(buffer, 4, end, BLANKS);
      requestTarget := requestTarget + word;
      cursor := SkipOver(buffer, cursor, end, BLANKS);
      word, cursor := ReadUntil(buffer, cursor, end, VERSION_END);
      httpVersion := httpVersion + word;
      cursor := SkipOver(buffer, cursor, end, VERSION_END);
      CollectHeaders(buffer, end, cursor);
      ok := headers != map[];
    }

    /** Whether a received request, read onto what is held, asks for an upgrade the server agrees to. */
    method ParseHeader(buffer: string, received: nat) returns (ok: bool)
      requires received <= |buffer|
      modifies this
      ensures var p := ParseBuffer(old(Contents()), buffer, received);
        && Contents() == p.held
        && ok == (p.Parsed? && Acceptable(p.held.headers))
    {
      ok := Parse(buffer, received);
      ok := ok && Acceptable(headers);
    }

    /** The server's decision on a received request. */
    method Handshake(buffer: string, received: nat) returns (ok: bool)
      requires received <= |buffer|
      modifies this
      ensures var p := ParseBuffer(CLEARED, buffer, received);
        && Contents() == p.held
        && ok == (p.Parsed? && Acceptable(p.held.headers))
    {
      Clear();
      ok := ParseHeader(buffer, received);
    }
  }

  // Printing line by line.

  lemma {:induction false} LinesJoin(a: seq<Field>, b: seq<Field>)
    ensures Lines(a + b) == Lines(a) + Lines(b)
    decreases |a|
  {
    if a == [] {
      assert a + b == b;
    } else {
      assert (a + b)[1..] == a[1..] + b;
      LinesJoin(a[1..], b);
      assert Line(a[0]) + (Lines(a[1..]) + Lines(b)) == Line(a[0]) + Lines(a[1..]) + Lines(b);
    }
  }

  lemma LineParts(text: string, f: Field)
    ensures text + Line(f) == text + (f.key + ": ") + f.value + CRLF
  {
  }

  /** One more line behind the first ones, whole or in its parts. */
  lemma LineAdded(text: string, fs: seq<Field>, k: nat)
    requires k < |fs|
    ensures text + Lines(fs[..k + 1]) == text + Lines(fs[..k]) + Line(fs[k])
    ensures text + Lines(fs[..k]) + Line(fs[k]) == text + Lines(fs[..k]) + (fs[k].key + ": ") + fs[k].value + CRLF
    ensures k == 0 ==> text + Lines(fs[..k]) == text
  {
    LineParts(text + Lines(fs[..k]), fs[k]);
    assert fs[..k + 1] == fs[..k] + [fs[k]];
    LinesJoin(fs[..k], [fs[k]]);
    assert Lines([fs[k]]) == Line(fs[k]) by { assert [fs[k]][1..] == []; }
    assert text + (Lines(fs[..k]) + Line(fs[k])) == text + Lines(fs[..k]) + Line(fs[k]);
  }

  lemma PrintedHost(line: string, fs: seq<Field>)
    requires |fs| > 0 && fs[0].key == "Host"
    ensures line + Lines(fs[..1]) == line + "Host: " + fs[0].value + "\r\n"
  {
    LineAdded(line, fs, 0);
    assert "Host: " == fs[0].key + ": ";
  }

  lemma PrintedFixed(line: string, fs: seq<Field>)
    requires |fs| > 3 && fs[1] == Field("Upgrade", "websocket") && fs[2] == Field("Connection", "Upgrade")
    requires fs[3] == Field("User-Agent", "LAppS/0.7.0")
    ensures line + Lines(fs[..4]) == line + Lines(fs[..1])
         + "Upgrade: websocket\r\n" + "Connection: Upgrade\r\n" + "User-Agent: LAppS/0.7.0\r\n"
  {
    LineAdded(line, fs, 1);
    LineAdded(line, fs, 2);
    LineAdded(line, fs, 3);
    UpgradeLiterals();
    AgentLiteral();
  }

  lemma UpgradeLiterals()
    ensures Line(Field("Upgrade", "websocket")) == "Upgrade: websocket\r\n"
    ensures Line(Field("Connection", "Upgrade")) == "Connection: Upgrade\r\n"
  {
  }

  lemma AgentLiteral()
    ensures Line(Field("User-Agent", "LAppS/0.7.0")) == "User-Agent: LAppS/0.7.0\r\n"
  {
  }

  lemma PrintedKey(line: string, fs: seq<Field>)
    requires |fs| > 4 && fs[4].key == "Sec-WebSocket-Key"
    ensures line + Lines(fs[..5]) == line + Lines(fs[..4]) + "Sec-WebSocket-Key: " + fs[4].value + "\r\n"
  {
    LineAdded(line, fs, 4);
    assert "Sec-WebSocket-Key: " == fs[4].key + ": ";
  }

  lemma PrintedOrigin(line: string, fs: seq<Field>, host: string, tls: bool)
    requires |fs| > 5 && fs[5] == Field("Origin", (if tls then "https://" else "http://") + host)
    ensures line + Lines(fs[..6])
         == line + Lines(fs[..5]) + (if tls then "Origin: https://" else "Origin: http://") + host + "\r\n"
  {
    LineAdded(line, fs, 5);
    OriginLiteral(tls);
    OriginParts(line + Lines(fs[..5]), "Origin" + ": ", if tls then "https://" else "http://", host, CRLF);
  }

  lemma OriginLiteral(tls: bool)
    ensures (if tls then "Origin: https://" else "Origin: http://")
         == "Origin" + ": " + if tls then "https://" else "http://"
  {
    assert "Origin: https://" == "Origin" + ": " + "https://";
    assert "Origin: http://" == "Origin" + ": " + "http://";
  }

  lemma OriginParts(text: string, name: string, scheme: string, host: string, eol: string)
    ensures text + name + (scheme + host) + eol == text + (name + scheme) + host + eol
  {
  }

  lemma PrintedRequest(target: string, host: string, key: string, tls: bool)
    ensures var fs := RequestFields(host, key, tls);
      "GET " + target + " " + "HTTP/1.1\r\n" + Lines(fs[..6]) + "Sec-WebSocket-Version: 13\r\n\r\n"
      == Request(target, host, key, tls)
  {
    var fs := RequestFields(host, key, tls);
    LineAdded("", fs, 6);
    assert "" + Lines(fs[..7]) == Lines(fs[..7]) && "" + Lines(fs[..6]) == Lines(fs[..6]);
    assert fs[..7] == fs;
    EndLiterals();
    RequestParts("GET ", target, " ", "HTTP/1.1", CRLF, Lines(fs[..6]), Line(fs[6]));
  }

  lemma EndLiterals()
    ensures "Sec-WebSocket-Version: 13\r\n\r\n" == Line(Field("Sec-WebSocket-Version", "13")) + CRLF
    ensures "HTTP/1.1\r\n" == "HTTP/1.1" + CRLF
  {
    assert Line(Field("Sec-WebSocket-Version", "13")) == "Sec-WebSocket-Version: 13\r\n";
  }

  lemma RequestParts(
      get: string, target: string, blank: string, version: string, eol: string, lines: string, last: string)
    ensures get + target + blank + (version + eol) + lines + (last + eol)
         == get + (target + (blank + (version + (eol + (lines + last + eol)))))
  {
  }

  /** The client's side: the key it sent and the position it goes on from. */
  class ClientHandshake {
    var cursor: nat

    constructor ()
      ensures cursor == 0
    {
      cursor := 0;
    }

    method WsUpgrade(target: string, hostname: string, key: string, tls: bool) returns (request: string)
      ensures request == Request(target, hostname, key, tls)
    {
      ghost var fs := RequestFields(hostname, key, tls);
      request := "GET ";
      request := request + target;
      request := request + " ";
      request := request + "HTTP/1.1\r\n";
      ghost var line := request;
      request := request + "Host: ";
      request := request + hostname;
      request := request + "\r\n";
      PrintedHost(line, fs);
      request := request + "Upgrade: websocket\r\n";
      request := request + "Connection: Upgrade\r\n";
      request := request + "User-Agent: LAppS/0.7.0\r\n";
      PrintedFixed(line, fs);
      request := request + "Sec-WebSocket-Key: ";
      request := request + key;
      request := request + "\r\n";
      PrintedKey(line, fs);
      if tls { request := request + "Origin: https://"; } else { request := request + "Origin: http://"; }
      request := request + hostname;
      request := request + "\r\n";
      PrintedOrigin(line, fs, hostname, tls);
      request := request + "Sec-WebSocket-Version: 13\r\n\r\n";
      PrintedRequest(target, hostname, key, tls);
    }

    method ResponseOK(buff: string, accept: string) returns (ok: bool)
      modifies this`cursor
      ensures Verdict(ok, cursor) == CheckResponse(buff, accept, old(cursor))
    {
      StatusLength();
      if |buff| < MIN_RESPONSE { return false; }
      if buff[..34] != STATUS { return false; }
      var headers := ReadHeaders(buff, 34);
      ok := headers != map[] && ToUpper(Get(headers, "Connection")) == "UPGRADE"
        && ToUpper(Get(headers, "Upgrade")) == "WEBSOCKET" && Get(headers, "Sec-WebSocket-Accept") == accept;
    }

    method ReadHeaders(buff: string, from: nat) returns (headers: Headers)
      requires from <= |buff|
      modifies this`cursor
      ensures var r := ClientHeaders(buff[from..], map[]);
        && headers == r.headers
        && cursor == if !r.ended then old(cursor) else if r.rest == "" then 0 else |buff| - |r.rest|
    {
      headers := map[];
      var index, sz := from, |buff|;
      assert buff[from..sz] == buff[from..];
      while index < sz
        invariant from <= index <= sz && cursor == old(cursor)
        invariant ClientHeaders(buff[index..sz], headers) == ClientHeaders(buff[from..], map[])
      {
        var start := index;
        index := SkipOver(buff, index, sz, EOL);
        if index - start == 4 {
          if index != sz { cursor := index; } else { cursor := 0; }
          return;
        }
        var key, value;
        key, index := ReadUntil(buff, index, sz, COLON);
        index := SkipOver(buff, index, sz, AFTER_KEY);
        value, index := ReadUntil(buff, index, sz, EOL);
        headers := ClientEmplace(headers, key, value);
      }
    }
  }

  /** The name under which a service announces its protocol, if one is configured. */
  datatype Alias = NoAlias | Alias(name: string)

  function Configured(extraHeaders: seq<Field>, alias: Alias): seq<Field> {
    extraHeaders + match alias case NoAlias => [] case Alias(name) => [Field("Sec-WebSocket-Protocol", name)]
  }

  const OK_RESPONSE: string :=
    STATUS + "Upgrade: websocket\r\n" + "Connection: Upgrade\r\n" + "Server: LAppS/0.7.0\r\n"

  method PrintExtraHeaders(text: string, extraHeaders: seq<Field>) returns (response: string)
    ensures response == text + Lines(extraHeaders)
  {
    response := text;
    var k := 0;
    while k < |extraHeaders|
      invariant 0 <= k <= |extraHeaders| && response == text + Lines(extraHeaders[..k])
    {
      LineAdded(text, extraHeaders, k);
      response := response + extraHeaders[k].key;
      response := response + ": ";
      response := response + extraHeaders[k].value;
      response := response + "\r\n";
      k := k + 1;
    }
    assert extraHeaders[..k] == extraHeaders;
  }

  /** The response to a request: the fixed headers, the configured ones, and the accepted key. */
  method PrepareOKResponse(extraHeaders: seq<Field>, alias: Alias, accept: string) returns (response: string)
    ensures response == Response(Configured(extraHeaders, alias), accept)
  {
    response := PrintExtraHeaders(OK_RESPONSE, extraHeaders);
    if alias.Alias? {
      var allowProtocols := "Sec-WebSocket-Protocol: ";
      allowProtocols := allowProtocols + alias.name;
      allowProtocols := allowProtocols + "\r\n";
      response := response + allowProtocols;
    }
    ResponseConfigured(extraHeaders, alias);
    response := response + "Sec-WebSocket-Accept: ";
    response := response + accept;
    response := response + "\r\n\r\n";
    PrintedResponse(Configured(extraHeaders, alias), accept);
  }

  lemma ResponseConfigured(extra: seq<Field>, alias: Alias)
    ensures OK_RESPONSE + Lines(Configured(extra, alias)) == OK_RESPONSE + Lines(extra)
      + match alias case NoAlias => "" case Alias(name) => "Sec-WebSocket-Protocol: " + name + CRLF
  {
    var all := Configured(extra, alias);
    if alias.Alias? {
      LineAdded(OK_RESPONSE, all, |extra|);
      assert all[..|extra|] == extra && all[..|extra| + 1] == all;
      assert "Sec-WebSocket-Protocol" + ": " == "Sec-WebSocket-Protocol: ";
    } else {
      assert all == extra;
    }
  }

  lemma PrintedResponse(configured: seq<Field>, accept: string)
    ensures OK_RESPONSE + Lines(configured) + "Sec-WebSocket-Accept: " + accept + "\r\n\r\n"
         == Response(configured, accept)
  {
    var upgrade, connection, server := Field("Upgrade", "websocket"), Field("Connection", "Upgrade"), Field("Server", "LAppS/0.7.0");
    ResponseLines(upgrade, connection, server, configured, Field("Sec-WebSocket-Accept", accept));
    UpgradeLiterals();
    ServerLiteral();
    AcceptLiterals();
    ResponseParts(
      STATUS, Line(upgrade), Line(connection), Line(server), Lines(configured), "Sec-WebSocket-Accept", ": ", accept, CRLF);
  }

  lemma ResponseLines(a: Field, b: Field, c: Field, fs: seq<Field>, d: Field)
    ensures Lines([a, b, c] + fs + [d]) == Line(a) + (Line(b) + Line(c)) + Lines(fs) + Line(d)
  {
    LinesJoin([a, b, c] + fs, [d]);
    LinesJoin([a, b, c], fs);
    assert [a, b, c][1..] == [b, c] && [b, c][1..] == [c] && [c][1..] == [] && [d][1..] == [];
    assert Lines([c]) == Line(c) && Lines([d]) == Line(d);
    assert Lines([b, c]) == Line(b) + Lines([c]);
  }

  lemma ServerLiteral()
    ensures Line(Field("Server", "LAppS/0.7.0")) == "Server: LAppS/0.7.0\r\n"
  {
  }

  lemma AcceptLiterals()
    ensures "Sec-WebSocket-Accept: " == "Sec-WebSocket-Accept" + ": " && "\r\n\r\n" == CRLF + CRLF
  {
  }

  lemma ResponseParts(
      status: string, u: string, c: string, v: string, lines: string, name: string, colon: string, value: string,
      eol: string)
    ensures status + u + c + v + lines + (name + colon) + value + (eol + eol)
         == status + (u + (c + v) + lines + (name + (colon + (value + eol))) + eol)
  {
  }

  // Both ends together.

  const UID: string := "258EAFA5-E914-47DA-95CA-C5AB0DC85B11"

  lemma AliasKept(extra: seq<Field>, alias: Alias)
    ensures Kept(Configured(extra, alias), "Sec-WebSocket-Accept") == Kept(extra, "Sec-WebSocket-Accept")
  {
    var more := match alias case NoAlias => [] case Alias(name) => [Field("Sec-WebSocket-Protocol", name)];
    KeptJoin(extra, more, "Sec-WebSocket-Accept");
    if more != [] { assert more[1..] == []; }
  }

  /**
   * A whole handshake, for any digest of keys that prints as one word: the server accepts the client's request and
   * finds its target and key, and the client accepts the server's response to that key exactly when no configured
   * header claims another accepted key. Frames sent right behind the response start where the client goes on.
   */
  lemma HandshakeAgrees(
      buffer: string, target: string, host: string, key: string, tls: bool, digest: string -> string,
      extra: seq<Field>, alias: Alias, rest: string)
    requires |buffer| >= MIN_REQUEST && Request(target, host, key, tls) <= buffer
    requires Without(target, BLANKS) && Without(host, EOL) && Without(key, EOL) && Trimmed(key) == key && key != ""
    requires Without(digest(key + UID), EOL) && Trimmed(digest(key + UID)) == digest(key + UID) != ""
    requires AllOneLine(extra) && (alias.Alias? ==> Without(alias.name, EOL)) && (rest == "" || rest[0] !in EOL)
    ensures var p := ParseBuffer(CLEARED, buffer, |Request(target, host, key, tls)|);
      && p.Parsed? && Acceptable(p.held.headers) && p.held.target == target
      && var response := Response(Configured(extra, alias), digest(Get(p.held.headers, "Sec-WebSocket-Key") + UID));
         var v := CheckResponse(response + rest, digest(key + UID), 0);
         && v.cursor == (if rest == "" then 0 else |response|)
         && (v.ok <==> (Kept(extra, "Sec-WebSocket-Accept") + [digest(key + UID)])[0] == digest(key + UID))
  {
    ServerUnderstands(buffer, target, host, key, tls);
    AliasOneLine(extra, alias);
    AliasKept(extra, alias);
    ClientUnderstands(Configured(extra, alias), digest(key + UID), rest, 0);
  }

  lemma AliasOneLine(extra: seq<Field>, alias: Alias)
    requires AllOneLine(extra) && (alias.Alias? ==> Without(alias.name, EOL))
    ensures AllOneLine(Configured(extra, alias))
  {
    if alias.Alias? { assert OneLine(Field("Sec-WebSocket-Protocol", alias.name)); }
  }
}
