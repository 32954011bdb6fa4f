/** The two ends of the protocol read against each other: the request a client
    builds is the request the balancer parses, and the response head the balancer
    builds is the one the client parses. */
module Exchange {
  import opened Text
  import opened Wire
  import opened Registry
  import opened Selector
  import opened Dispatch
  import opened Client

  /** Whitespace-free text holds no space, carriage return or line feed. */
  lemma NoSpaceNoBreak(t: string)
    requires NoSpace(t)
    ensures ' ' !in t && '\r' !in t && '\n' !in t
  {
    forall i | 0 <= i < |t|
      ensures t[i] != ' ' && t[i] != '\r' && t[i] != '\n'
    {
      assert !IsSpace(t[i]);
    }
  }

  // ---------------------------------------------------------------------
  // Request: prepare_get_message read back by process_request

  /** Three words joined by single spaces split back into those words. */
  lemma ThreeWords(a: string, b: string, c: string)
    requires a != [] && NoSpace(a) && b != [] && NoSpace(b) && c != [] && NoSpace(c)
    ensures Words(a + " " + b + " " + c) == [a, b, c]
  {
    assert a + " " + b + " " + c == a + [' '] + (b + [' '] + c);
    WordsCons(a, ' ', b + [' '] + c);
    WordsCons(b, ' ', c);
    WordsSingle(c);
  }

  lemma RequestWordsVisible(get: string, version: string)
    requires get == "GET" && version == "HTTP/1.1"
    ensures NoSpace(get) && NoSpace(version)
  {
    VisibleNoSpace(get);
    VisibleNoSpace(version);
  }

  /** The request line splits into the method, the path and the version. */
  lemma RequestLineWords(path: string)
    requires path != [] && NoSpace(path)
    ensures Words("GET " + path + " HTTP/1.1") == ["GET", path, "HTTP/1.1"]
  {
    var get, version := "GET", "HTTP/1.1";
    assert "GET " + path + " HTTP/1.1" == get + " " + path + " " + version;
    RequestWordsVisible(get, version);
    ThreeWords(get, path, version);
  }

  /** The request line of a built request, read from the front of the stream. */
  lemma RequestFirstLine(host: string, port: string, path: string, s: seq<char>)
    requires |PrepareGetMessage(host, port, path)| <= |s|
    requires s[..|PrepareGetMessage(host, port, path)|] == PrepareGetMessage(host, port, path)
    requires '\r' !in path && '\n' !in path
    ensures '\n' in s[0..]
    ensures LineAt(s, 0) == "GET " + path + " HTTP/1.1"
  {
    var l1 := "GET " + path + " HTTP/1.1";
    var msg := PrepareGetMessage(host, port, path);
    assert msg == (l1 + "\r\n") + ("Host: " + host + ":" + port + "\r\n\r\n");
    assert s[0..|msg|] == msg;
    SliceHalves(s, 0, l1 + "\r\n", "Host: " + host + ":" + port + "\r\n\r\n");
    ReadCRLFLine(s, 0, l1);
  }

  /** The whole request, read as a header block from the front of the stream. */
  lemma RequestBlock(host: string, port: string, path: string, s: seq<char>)
    requires |PrepareGetMessage(host, port, path)| <= |s|
    requires s[..|PrepareGetMessage(host, port, path)|] == PrepareGetMessage(host, port, path)
    requires '\r' !in path && '\n' !in path
    requires '\r' !in host && '\n' !in host && '\r' !in port && '\n' !in port
    ensures HasHeaderBlock(s, 0)
    ensures HeaderLines(s, 0) == ["GET " + path + " HTTP/1.1", "Host: " + host + ":" + port]
    ensures HeaderEnd(s, 0) == |PrepareGetMessage(host, port, path)|
  {
    var l1 := "GET " + path + " HTTP/1.1";
    var l2 := "Host: " + host + ":" + port;
    var msg := PrepareGetMessage(host, port, path);
    GetMessageLines(host, port, path);
    assert msg == CRLFLines([l1, l2]) + "\r\n";
    assert '\r' !in l1 && '\n' !in l1 && l1 != [] by { assert l1[0] == 'G'; }
    assert '\r' !in l2 && '\n' !in l2 && l2 != [] by { assert l2[0] == 'H'; }
    assert s[0..|msg|] == msg;
    ReadHeaderBlock(s, 0, [l1, l2]);
  }

  /** A request built by prepare_get_message, followed by anything, is parsed by
      process_request: the target is the path that was sent, and exactly the
      request is consumed. The path must be free of whitespace and hold a
      character other than `/`; host and port must not break the line. */
  lemma RequestRoundTrip(host: string, port: string, path: string, rest: seq<char>, s: seq<char>)
    requires s == PrepareGetMessage(host, port, path) + rest
    requires path != [] && NoSpace(path) && !AllSlashes(path)
    requires '\r' !in host && '\n' !in host && '\r' !in port && '\n' !in port
    ensures RequestOk(s, 0)
    ensures RequestTarget(s, 0) == path
    ensures RequestEnd(s, 0) == |PrepareGetMessage(host, port, path)|
  {
    var msg := PrepareGetMessage(host, port, path);
    assert s[..|msg|] == msg;
    NoSpaceNoBreak(path);
    RequestFirstLine(host, port, path, s);
    RequestBlock(host, port, path, s);
    HeaderStep(s, 0);
    RequestLineWords(path);
  }

  // ---------------------------------------------------------------------
  // Response: the balancer's head read back by the client

  /** The reason phrase the balancer writes after a code it names. */
  function Phrase(code: string): string {
    if code == "301" then "Moved Permanently" else "Service Unavailable"
  }

  /** The status line the balancer writes for the codes it names. */
  function StatusLine(code: string): string {
    "HTTP/1.1 " + code + " " + Phrase(code)
  }

  /** A header line: the field name, one space, the value. */
  function HeaderLine(name: string, value: string): string {
    name + " " + value
  }

  /** The header lines the balancer writes after the status line. */
  function ReplyHeaders(fileName: string, fileSize: nat, location: string, date: string): seq<string> {
    [HeaderLine("Date:", date), HeaderLine("Content-Type:", ContentType(fileName)),
     HeaderLine("Content-Length:", Decimal(fileSize)), HeaderLine("Location:", location)]
  }

  /** Regroups the 301/503 status part into status line and Date line, as a separate step to keep StatusPart cheap. */
  lemma MessageShape(version: string, code: string, phrase: string, date: string)
    ensures version + code + (" " + phrase + "\r\n") + ("Date: " + date) + "\r\n"
         == (version + code + " " + phrase) + "\r\n" + ("Date: " + date) + "\r\n"
  {
  }

  /** prepare_response_message for 301 and 503: the status line and the Date line. */
  lemma StatusPart(code: string, date: string)
    requires code == "301" || code == "503"
    ensures PrepareResponseMessage(code, date) == StatusLine(code) + "\r\n" + HeaderLine("Date:", date) + "\r\n"
  {
    var version := "HTTP/1.1 ";
    assert "Date: " == "Date:" + " ";
    if code == "301" {
      assert " Moved Permanently\r\n" == " " + "Moved Permanently" + "\r\n";
      MessageShape(version, code, "Moved Permanently", date);
    } else {
      assert " Service Unavailable\r\n" == " " + "Service Unavailable" + "\r\n";
      MessageShape(version, code, "Service Unavailable", date);
    }
  }

  lemma FourLines(a: string, b: string, c: string, d: string)
    ensures CRLFLines([a, b, c, d]) == a + "\r\n" + (b + "\r\n" + (c + "\r\n" + (d + "\r\n" + "")))
  {
    var h := [a, b, c, d];
    assert h[1..] == [b, c, d] && h[1..][1..] == [c, d] && h[1..][1..][1..] == [d] && [d][1..] == [];
    assert CRLFLines([d]) == d + "\r\n" + CRLFLines([]);
    assert CRLFLines([c, d]) == c + "\r\n" + CRLFLines([d]);
    assert CRLFLines([b, c, d]) == b + "\r\n" + CRLFLines([c, d]);
  }

  /** Regroups the header concatenation line by line, over plain variables so the solver need not unfold literals. */
  lemma Reassociate(m: string, t: string, n: string, l: string, ct: string, cl: string, lo: string,
                    crlf: string, sp: string)
    ensures m + (ct + sp) + t + (crlf + cl + sp) + n + (crlf + lo + sp) + l + (crlf + crlf)
         == m + ((ct + sp + t) + crlf + ((cl + sp + n) + crlf + ((lo + sp + l) + crlf + ""))) + crlf
  {
  }

  /** The header concatenation of send_response_to_client regrouped as three header lines and the blank line. */
  lemma HeadShape(m: string, t: string, n: string, l: string)
    ensures m + "Content-Type: " + t + "\r\nContent-Length: " + n + "\r\nLocation: " + l + "\r\n\r\n"
         == m + (HeaderLine("Content-Type:", t) + "\r\n" + (HeaderLine("Content-Length:", n) + "\r\n"
                 + (HeaderLine("Location:", l) + "\r\n" + ""))) + "\r\n"
  {
    var ct, cl, lo, crlf, sp := "Content-Type:", "Content-Length:", "Location:", "\r\n", " ";
    assert "Content-Type: " == ct + sp;
    assert "\r\nContent-Length: " == crlf + cl + sp;
    assert "\r\nLocation: " == crlf + lo + sp;
    assert "\r\n\r\n" == crlf + crlf;
    Reassociate(m, t, n, l, ct, cl, lo, crlf, sp);
  }

  /** Regroups status part and header lines into status line plus header block. */
  lemma Assemble(m: string, status: string, first: string, rest: string, crlf: string)
    requires m == status + crlf + first + crlf
    ensures m + rest + crlf == (status + crlf) + ((first + crlf + rest) + crlf)
  {
  }

  /** For 301 and 503 the head is the status line, four header lines and the blank line, each closed by CR LF. */
  lemma ResponseHeadLines(code: string, fileName: string, fileSize: nat, location: string, date: string)
    requires code == "301" || code == "503"
    ensures ResponseHead(code, fileName, fileSize, location, date) ==
            (StatusLine(code) + "\r\n") + (CRLFLines(ReplyHeaders(fileName, fileSize, location, date)) + "\r\n")
  {
    var h := ReplyHeaders(fileName, fileSize, location, date);
    var m := PrepareResponseMessage(code, date);
    var crlf := "\r\n";
    StatusPart(code, date);
    FourLines(h[0], h[1], h[2], h[3]);
    HeadShape(m, ContentType(fileName), Decimal(fileSize), location);
    Assemble(m, StatusLine(code), h[0], h[1] + crlf + (h[2] + crlf + (h[3] + crlf + "")), crlf);
  }

  /** In `a b c` with no space in `a` or `b`, the second space-separated token is `b`. */
  lemma SecondToken(a: string, b: string, c: string)
    requires ' ' !in a && ' ' !in b
    ensures |Split(a + " " + b + " " + c, ' ')| >= 2 && Split(a + " " + b + " " + c, ' ')[1] == b
  {
    assert a + " " + b + " " + c == a + [' '] + (b + [' '] + c);
    SplitCons(a, ' ', b + [' '] + c);
    SplitCons(b, ' ', c);
  }

  /** The second space-separated token of the status line is the code. */
  lemma StatusToken(code: string)
    requires code == "301" || code == "503"
    ensures |Split(StatusLine(code), ' ')| >= 2 && Split(StatusLine(code), ' ')[1] == code
  {
    var version := "HTTP/1.1";
    assert "HTTP/1.1 " == version + " ";
    assert ' ' !in version && ' ' !in code;
    SecondToken(version, code, Phrase(code));
  }

  /** A text opening with `a b ` has `b` for its second space-separated token. */
  lemma OpeningToken(a: string, b: string, c: string, p: string, q: string, r: string)
    requires ' ' !in a && ' ' !in b
    ensures |Split(((a + " ") + ((HeaderLine(b, c) + p) + q)) + r, ' ')| >= 2
    ensures Split(((a + " ") + ((HeaderLine(b, c) + p) + q)) + r, ' ')[1] == b
  {
    assert ((a + " ") + ((HeaderLine(b, c) + p) + q)) + r == a + " " + b + " " + (c + p + q + r);
    SecondToken(a, b, c + p + q + r);
  }

  /** For any other code the head opens with `HTTP/1.1 Content-Type:`, so a client
      splitting it on spaces takes `Content-Type:` for the status token. */
  lemma OtherCodeHead(code: string, fileName: string, fileSize: nat, location: string, date: string)
    requires code != "301" && code != "503"
    ensures |Split(ResponseHead(code, fileName, fileSize, location, date), ' ')| >= 2
    ensures Split(ResponseHead(code, fileName, fileSize, location, date), ' ')[1] == "Content-Type:"
  {
    var version, name, crlf := "HTTP/1.1", "Content-Type:", "\r\n";
    var t, n, l := ContentType(fileName), Decimal(fileSize), location;
    assert PrepareResponseMessage(code, date) == version + " ";
    HeadShape(version + " ", t, n, l);
    assert ' ' !in version && ' ' !in name;
    OpeningToken(version, name, t, crlf,
                 HeaderLine("Content-Length:", n) + crlf + (HeaderLine("Location:", l) + crlf + ""), crlf);
  }

  /** The words that open a head for a code other than 301 and 503 hold no space and break no line. */
  lemma OpeningWords()
    ensures ' ' !in "HTTP/1.1" && ' ' !in "Content-Type:"
    ensures "Content-Type:" != [] && '\r' !in "Content-Type:" && '\n' !in "Content-Type:"
    ensures '\r' !in "HTTP/1.1 " && '\n' !in "HTTP/1.1 "
  {
  }

  /** The client reads the first line of such a head, whatever follows it, and takes
      `Content-Type:` for its status code. */
  lemma OtherCodeStatus(code: string, fileName: string, fileSize: nat, location: string, date: string,
                        rest: seq<char>)
    requires code != "301" && code != "503"
    ensures '\n' in (ResponseHead(code, fileName, fileSize, location, date) + rest)[0..]
    ensures |Split(LineAt(ResponseHead(code, fileName, fileSize, location, date) + rest, 0), ' ')| >= 2
    ensures StatusCode(LineAt(ResponseHead(code, fileName, fileSize, location, date) + rest, 0)) == "Content-Type:"
  {
    var version, name, crlf := "HTTP/1.1", "Content-Type:", "\r\n";
    var t, n, l := ContentType(fileName), Decimal(fileSize), location;
    var m := version + " ";
    var x := HeaderLine("Content-Length:", n) + crlf + (HeaderLine("Location:", l) + crlf + "");
    var head := ResponseHead(code, fileName, fileSize, location, date);
    assert PrepareResponseMessage(code, date) == m;
    HeadShape(m, t, n, l);
    var line := m + HeaderLine(name, t);
    assert head == (line + crlf) + (x + crlf);
    var s := head + rest;
    assert s[0..|head|] == head;
    SliceHalves(s, 0, line + crlf, x + crlf);
    assert line == version + " " + name + " " + t;
    OpeningWords();
    ContentTypeClean(fileName);
    CleanLine(name, t);
    ReadCRLFLine(s, 0, line);
    SecondToken(version, name, t);
  }

  /** A header line whose name holds no space has that name as its first field. */
  lemma FieldOf(name: string, value: string)
    requires ' ' !in name
    ensures Split(HeaderLine(name, value), ' ') == [name] + Split(value, ' ')
    ensures Field(HeaderLine(name, value)) == name
  {
    assert name + " " + value == name + [' '] + value;
    SplitCons(name, ' ', value);
  }

  /** Four header lines named Date, Content-Type, Content-Length and Location carry
      one body length, the third line's. */
  lemma FourHeaderLength(h: seq<string>, fileSize: nat)
    requires |h| == 4
    requires Field(h[0]) == "Date:" && Field(h[1]) == "Content-Type:" && Field(h[3]) == "Location:"
    requires Split(h[2], ' ') == ["Content-Length:", Decimal(fileSize)]
    ensures AllContentLengthOk(h) && LastContentLength(h) == Some(fileSize)
  {
    NumeralOfDecimal(fileSize);
    assert Field(h[2]) == "Content-Length:";
    assert h[..3][2] == h[2];
  }

  /** The same four lines carry one location, the fourth line's. */
  lemma FourHeaderLocation(h: seq<string>, location: string)
    requires |h| == 4
    requires Field(h[0]) == "Date:" && Field(h[1]) == "Content-Type:" && Field(h[2]) == "Content-Length:"
    requires Split(h[3], ' ') == ["Location:", location]
    ensures AllLocationOk(h) && LastLocation(h) == Some(location)
  {
    assert Field(h[3]) == "Location:";
  }

  /** The client's reading of the header lines: the body length is the file size and
      the location comes back whole when it holds no space. */
  lemma ReplyHeaderFields(fileName: string, fileSize: nat, location: string, date: string)
    requires ' ' !in location
    ensures var h := ReplyHeaders(fileName, fileSize, location, date);
            && AllContentLengthOk(h) && LastContentLength(h) == Some(fileSize)
            && AllLocationOk(h) && LastLocation(h) == Some(location)
  {
    var dateName, typeName, lengthName, locationName := "Date:", "Content-Type:", "Content-Length:", "Location:";
    var h := ReplyHeaders(fileName, fileSize, location, date);
    assert h == [HeaderLine(dateName, date), HeaderLine(typeName, ContentType(fileName)),
                 HeaderLine(lengthName, Decimal(fileSize)), HeaderLine(locationName, location)];
    assert ' ' !in dateName && ' ' !in typeName && ' ' !in lengthName && ' ' !in locationName;
    FieldOf(dateName, date);
    FieldOf(typeName, ContentType(fileName));
    FieldOf(lengthName, Decimal(fileSize));
    FieldOf(locationName, location);
    NumeralNoSpace(Decimal(fileSize));
    assert Split(Decimal(fileSize), ' ') == [Decimal(fileSize)];
    assert Split(location, ' ') == [location];
    FourHeaderLength(h, fileSize);
    FourHeaderLocation(h, location);
  }

  /** A header line with a name and value free of line breaks is a non-empty line without them. */
  lemma CleanLine(name: string, value: string)
    requires name != [] && '\r' !in name && '\n' !in name && '\r' !in value && '\n' !in value
    ensures HeaderLine(name, value) != []
    ensures '\r' !in HeaderLine(name, value) && '\n' !in HeaderLine(name, value)
  {
  }

  /** The content type announced is one line of text. */
  lemma ContentTypeClean(fileName: string)
    ensures '\r' !in ContentType(fileName) && '\n' !in ContentType(fileName)
  {
    var html, bytes := "text/html", "application/octet-stream";
    assert ContentType(fileName) == html || ContentType(fileName) == bytes;
    assert '\r' !in html && '\n' !in html && '\r' !in bytes && '\n' !in bytes;
  }

  /** The four header lines the balancer writes break no line when the date and the location do not. */
  lemma ReplyHeadersClean(fileName: string, fileSize: nat, location: string, date: string)
    requires '\r' !in location && '\n' !in location && '\r' !in date && '\n' !in date
    ensures var h := ReplyHeaders(fileName, fileSize, location, date);
            |h| == 4 && forall i :: 0 <= i < |h| ==> h[i] != [] && '\r' !in h[i] && '\n' !in h[i]
  {
    var dateName, typeName, lengthName, locationName := "Date:", "Content-Type:", "Content-Length:", "Location:";
    var h := ReplyHeaders(fileName, fileSize, location, date);
    assert h == [HeaderLine(dateName, date), HeaderLine(typeName, ContentType(fileName)),
                 HeaderLine(lengthName, Decimal(fileSize)), HeaderLine(locationName, location)];
    ContentTypeClean(fileName);
    NumeralNoSpace(Decimal(fileSize));
    NoSpaceNoBreak(Decimal(fileSize));
    assert dateName != [] && '\r' !in dateName && '\n' !in dateName;
    assert typeName != [] && '\r' !in typeName && '\n' !in typeName;
    assert lengthName != [] && '\r' !in lengthName && '\n' !in lengthName;
    assert locationName != [] && '\r' !in locationName && '\n' !in locationName;
    CleanLine(dateName, date);
    CleanLine(typeName, ContentType(fileName));
    CleanLine(lengthName, Decimal(fileSize));
    CleanLine(locationName, location);
  }

  /** The status line of a 301 or 503 is one line of text. */
  lemma StatusLineClean(code: string)
    requires code == "301" || code == "503"
    ensures '\r' !in StatusLine(code) && '\n' !in StatusLine(code)
  {
    var version := "HTTP/1.1 ";
    assert '\r' !in version && '\n' !in version;
    assert '\r' !in code && '\n' !in code;
    var moved, unavailable := "Moved Permanently", "Service Unavailable";
    assert Phrase(code) == moved || Phrase(code) == unavailable;
    assert '\r' !in moved && '\n' !in moved && '\r' !in unavailable && '\n' !in unavailable;
  }

  /** A first line and a header block, each line closed by CR LF and the block by an
      empty line, read back as that line and those header lines. */
  lemma FirstLineAndBlock(s: seq<char>, head: string, first: string, lines: seq<string>)
    requires first != [] && '\r' !in first && '\n' !in first
    requires forall i :: 0 <= i < |lines| ==> lines[i] != [] && '\r' !in lines[i] && '\n' !in lines[i]
    requires head == (first + "\r\n") + (CRLFLines(lines) + "\r\n")
    requires |head| <= |s| && s[..|head|] == head
    ensures '\n' in s[0..] && LineAt(s, 0) == first
    ensures HasHeaderBlock(s, AfterLine(s, 0)) && HeaderLines(s, AfterLine(s, 0)) == lines
    ensures HeaderEnd(s, AfterLine(s, 0)) == |head|
  {
    var all := [first] + lines;
    assert all[1..] == lines;
    assert CRLFLines(all) == first + "\r\n" + CRLFLines(lines);
    assert head == CRLFLines(all) + "\r\n";
    assert forall i :: 0 <= i < |all| ==> all[i] != [] && '\r' !in all[i] && '\n' !in all[i];
    assert s[0..0 + |CRLFLines(all)| + 2] == CRLFLines(all) + "\r\n";
    ReadHeaderBlock(s, 0, all);
    HeaderStep(s, 0);
  }

  /** The header block the client reads after the status line is the four header
      lines, and it ends where the head ends. */
  lemma ResponseBlock(code: string, fileName: string, fileSize: nat, location: string, date: string, s: seq<char>)
    requires code == "301" || code == "503"
    requires |ResponseHead(code, fileName, fileSize, location, date)| <= |s|
    requires s[..|ResponseHead(code, fileName, fileSize, location, date)|] == ResponseHead(code, fileName, fileSize, location, date)
    requires '\r' !in location && '\n' !in location && '\r' !in date && '\n' !in date
    ensures '\n' in s[0..] && LineAt(s, 0) == StatusLine(code)
    ensures HasHeaderBlock(s, AfterLine(s, 0))
    ensures HeaderLines(s, AfterLine(s, 0)) == ReplyHeaders(fileName, fileSize, location, date)
    ensures HeaderEnd(s, AfterLine(s, 0)) == |ResponseHead(code, fileName, fileSize, location, date)|
  {
    ResponseHeadLines(code, fileName, fileSize, location, date);
    StatusLineClean(code);
    ReplyHeadersClean(fileName, fileSize, location, date);
    FirstLineAndBlock(s, ResponseHead(code, fileName, fileSize, location, date), StatusLine(code),
                      ReplyHeaders(fileName, fileSize, location, date));
  }

  /** A 301 or 503 head written by send_response_to_client, followed by the page and
      anything else, is read by the client as the balancer meant it: the status token
      is the code, the header block is the four header lines and ends where the page
      begins, the body length is the page size and the location is the one sent. */
  lemma ResponseRoundTrip(code: string, fileName: string, contents: string, location: string, date: string,
                          rest: seq<char>, s: seq<char>)
    requires code == "301" || code == "503"
    requires s == ResponseHead(code, fileName, |contents|, location, date) + contents + rest
    requires ' ' !in location && '\r' !in location && '\n' !in location && '\r' !in date && '\n' !in date
    ensures '\n' in s[0..] && |Split(LineAt(s, 0), ' ')| >= 2 && StatusCode(LineAt(s, 0)) == code
    ensures HasHeaderBlock(s, AfterLine(s, 0))
    ensures HeaderLines(s, AfterLine(s, 0)) == ReplyHeaders(fileName, |contents|, location, date)
    ensures HeaderEnd(s, AfterLine(s, 0)) == |ResponseHead(code, fileName, |contents|, location, date)|
    ensures AllContentLengthOk(HeaderLines(s, AfterLine(s, 0))) && BodyLength(s, AfterLine(s, 0)) == |contents|
    ensures AllLocationOk(HeaderLines(s, AfterLine(s, 0)))
    ensures LastLocation(HeaderLines(s, AfterLine(s, 0))) == Some(location)
  {
    var head := ResponseHead(code, fileName, |contents|, location, date);
    assert s[..|head|] == head;
    ResponseBlock(code, fileName, |contents|, location, date, s);
    StatusToken(code);
    ReplyHeaderFields(fileName, |contents|, location, date);
  }

  /** What the client makes of a 301 or 503 from the balancer when the page arrives in
      chunks adding up to its size: the reply is readable, the page is the body it
      prints, and a 301 is followed to the location sent exactly when the client follows
      redirects; otherwise the run fails with the code. */
  lemma ReplyOutcomeOfResponse(code: string, fileName: string, contents: string, location: string, date: string,
                               rest: seq<char>, s: seq<char>, chunks: seq<nat>, follow: bool)
    requires code == "301" || code == "503"
    requires s == ResponseHead(code, fileName, |contents|, location, date) + contents + rest
    requires ' ' !in location && '\r' !in location && '\n' !in location && '\r' !in date && '\n' !in date
    requires ChunksOk(chunks) && Sum(chunks) == |contents|
    ensures ReplyOk(fileName, s, 0, chunks)
    ensures Body(s, HeaderEnd(s, AfterLine(s, 0)), BodyLength(s, AfterLine(s, 0)), chunks) == contents
    ensures ReplyOutcome(fileName, s, 0, chunks, follow) ==
            if code == "301" && follow then Redirected(location) else Failed(code)
  {
    ResponseRoundTrip(code, fileName, contents, location, date, rest, s);
    var end := |ResponseHead(code, fileName, |contents|, location, date)|;
    assert BodyArrives(s, end, Sum(chunks), chunks);
    BodyWhole(s, end, chunks);
    assert s[end..end + |contents|] == contents;
  }

  /** The path without its leading slashes keeps the path's freedom from whitespace. */
  lemma UnslashedNoSpace(path: string)
    requires NoSpace(path) && !AllSlashes(path)
    ensures NoSpace(Unslashed(path))
  {
    var r := Unslashed(path);
    var k := Slashes(path);
    forall i | 0 <= i < |r|
      ensures !IsSpace(r[i])
    {
      assert r[i] == path[k..][i] == path[k + i];
    }
  }

  lemma NoSpaceConcat(a: string, b: string)
    requires NoSpace(a) && NoSpace(b)
    ensures NoSpace(a + b)
  {
    forall i | 0 <= i < |a + b|
      ensures !IsSpace((a + b)[i])
    {
      if i >= |a| {
        assert (a + b)[i] == b[i - |a|];
      }
    }
  }

  lemma LocationPiecesNoSpace(scheme: string, colon: string, slash: string)
    requires scheme == "http://" && colon == ":" && slash == "/"
    ensures NoSpace(scheme) && NoSpace(colon) && NoSpace(slash)
  {
    assert !IsSpace(scheme[0]) && !IsSpace(scheme[4]) && !IsSpace(colon[0]) && !IsSpace(slash[0]);
  }

  /** A location built from a backend and a file name holds no whitespace when the
      host, the port and the file name hold none. */
  lemma LocationNoSpace(server: Server, reqFile: string)
    requires NoSpace(server.host) && NoSpace(server.port) && NoSpace(reqFile)
    ensures NoSpace(Location(server, reqFile))
  {
    var scheme, colon, slash := "http://", ":", "/";
    LocationPiecesNoSpace(scheme, colon, slash);
    NoSpaceConcat(scheme, server.host);
    NoSpaceConcat(scheme + server.host, colon);
    NoSpaceConcat(scheme + server.host + colon, server.port);
    NoSpaceConcat(scheme + server.host + colon + server.port, slash);
    NoSpaceConcat(scheme + server.host + colon + server.port + slash, reqFile);
  }

  /** One client request through the balancer: the GET the client builds is read by
      process_request with the path it asked for, and the 301 that handle-connection
      then writes sends the client, following redirects, to the drawn backend under
      the path without its leading slashes. */
  lemma RedirectEndToEnd(host: string, port: string, path: string, rest: seq<char>, request: seq<char>,
                         table: seq<Server>, draw: int, date: string, page301: string,
                         replyRest: seq<char>, reply: seq<char>, chunks: seq<nat>)
    requires request == PrepareGetMessage(host, port, path) + rest
    requires path != [] && NoSpace(path) && !AllSlashes(path)
    requires '\r' !in host && '\n' !in host && '\r' !in port && '\n' !in port
    requires table != [] && DrawInRange(table, draw)
    requires forall k :: 0 <= k < |table| ==> NoSpace(table[k].host) && NoSpace(table[k].port)
    requires '\r' !in date && '\n' !in date
    requires reply == ResponseHead("301", PAGE_301, |page301|,
                                   Location(table[FirstCovering(table, draw)], Unslashed(path)), date)
                      + page301 + replyRest
    requires ChunksOk(chunks) && Sum(chunks) == |page301|
    ensures RequestOk(request, 0) && RequestTarget(request, 0) == path
    ensures ReplyOk(path, reply, 0, chunks)
    ensures ReplyOutcome(path, reply, 0, chunks, true)
            == Redirected(Location(table[FirstCovering(table, draw)], Unslashed(path)))
  {
    RequestRoundTrip(host, port, path, rest, request);
    var server := table[FirstCovering(table, draw)];
    UnslashedNoSpace(path);
    LocationNoSpace(server, Unslashed(path));
    NoSpaceNoBreak(Location(server, Unslashed(path)));
    var code := "301";
    ReplyOutcomeOfResponse(code, PAGE_301, page301, Location(server, Unslashed(path)), date,
                           replyRest, reply, chunks, true);
  }

  /** With no backend left the balancer answers 503, and the client run fails with that code. */
  lemma UnavailableEndToEnd(fileName: string, date: string, page503: string, replyRest: seq<char>,
                            reply: seq<char>, chunks: seq<nat>, follow: bool)
    requires '\r' !in date && '\n' !in date
    requires reply == ResponseHead("503", PAGE_503, |page503|, "", date) + page503 + replyRest
    requires ChunksOk(chunks) && Sum(chunks) == |page503|
    ensures ReplyOk(fileName, reply, 0, chunks)
    ensures ReplyOutcome(fileName, reply, 0, chunks, follow) == Failed("503")
  {
    var code, empty := "503", "";
    ReplyOutcomeOfResponse(code, PAGE_503, page503, empty, date, replyRest, reply, chunks, follow);
  }
}
