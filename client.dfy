/** The client: it sends one GET, reads the status line and branches on the status
    token. 200 saves the body under the file's base name, 301 follows the
    `Location` header once, and any other code prints the error and stops. */
module Client {
  import opened Text
  import opened Wire

  /** Directory prefix of saved files. */
  const SAVE_DESTINATION: string := "./"

  // ---------------------------------------------------------------------
  // Location headers

  /** A `Location:` line the source reads without raising: `split(' ')[1]` exists. */
  predicate LocationOk(line: string) {
    Field(line) == "Location:" ==> |Split(line, ' ')| >= 2
  }

  predicate AllLocationOk(lines: seq<string>) {
    forall i :: 0 <= i < |lines| ==> LocationOk(lines[i])
  }

  /** The value of the last `Location:` line, if any: each one overwrites `location`. */
  function LastLocation(lines: seq<string>): (r: Option<string>)
    requires AllLocationOk(lines)
    ensures r.None? <==> forall i :: 0 <= i < |lines| ==> Field(lines[i]) != "Location:"
    decreases |lines|
  {
    if lines == [] then None
    else
      var last := lines[|lines| - 1];
      if Field(last) == "Location:" then Some(Split(last, ' ')[1])
      else LastLocation(lines[..|lines| - 1])
  }

  /** One more header line read: a `Location:` line sets the value, any other keeps it. */
  lemma LastLocationSnoc(lines: seq<string>, line: string)
    requires AllLocationOk(lines) && LocationOk(line)
    ensures AllLocationOk(lines + [line])
    ensures LastLocation(lines + [line]) ==
            if Field(line) == "Location:" then Some(Split(line, ' ')[1]) else LastLocation(lines)
  {
    assert (lines + [line])[..|lines|] == lines;
  }

  /** A later `Location:` wins over an earlier one; lines of other kinds change nothing. */
  lemma {:induction false} LastLocationAppend(a: seq<string>, b: seq<string>)
    requires AllLocationOk(a) && AllLocationOk(b)
    ensures AllLocationOk(a + b)
    ensures LastLocation(a + b) == if LastLocation(b).Some? then LastLocation(b) else LastLocation(a)
    decreases |b|
  {
    if b != [] {
      var b' := b[..|b| - 1];
      assert (a + b)[..|a + b| - 1] == a + b';
      assert (a + b)[|a + b| - 1] == b[|b| - 1];
      LastLocationAppend(a, b');
    } else {
      assert a + b == a;
    }
  }

  /** The body length a client takes from the headers: the last `Content-Length:`, 0 without one. */
  function BodyLength(s: seq<char>, pos: nat): nat
    requires HasHeaderBlock(s, pos) && AllContentLengthOk(HeaderLines(s, pos))
  {
    LastContentLength(HeaderLines(s, pos)).GetOr(0)
  }

  /** A header block and body the source reads without raising or blocking. */
  predicate HeadersAndBodyOk(s: seq<char>, pos: nat, chunks: seq<nat>) {
    && HasHeaderBlock(s, pos)
    && AllContentLengthOk(HeaderLines(s, pos))
    && BodyArrives(s, HeaderEnd(s, pos), BodyLength(s, pos), chunks)
  }

  // ---------------------------------------------------------------------
  // handle_error_response

  /** handle_error_response: reads the header lines to the empty one, keeping the last
      `Content-Length:` (0 without one) and the last `Location:` (empty without one),
      prints that many body bytes and returns the location. */
  method HandleErrorResponse(s: seq<char>, pos: nat, chunks: seq<nat>)
    returns (location: string, printed: string, next: nat)
    requires HeadersAndBodyOk(s, pos, chunks) && AllLocationOk(HeaderLines(s, pos))
    ensures location == LastLocation(HeaderLines(s, pos)).GetOr("")
    ensures printed == Body(s, HeaderEnd(s, pos), BodyLength(s, pos), chunks)
    ensures next == HeaderEnd(s, pos) + |printed|
  {
    var p := pos;
    var done := false;
    var bytesToRead := 0;
    location := "";
    ghost var seen: seq<string> := [];
    ScanStart(s, pos);
    while !done
      invariant pos <= p <= |s|
      invariant AllContentLengthOk(seen) && bytesToRead == LastContentLength(seen).GetOr(0)
      invariant AllLocationOk(seen) && location == LastLocation(seen).GetOr("")
      invariant !done ==> Scanning(s, pos, p, seen)
      invariant done ==> seen == HeaderLines(s, pos) && p == HeaderEnd(s, pos)
      decreases |s| - p
    {
      ScanStep(s, pos, p, seen);
      var headerLine, after := GetLineFromSocket(s, p);
      var headerList := Split(headerLine, ' ');
      if headerLine == [] {
        done := true;
      } else {
        LastContentLengthSnoc(seen, headerLine);
        LastLocationSnoc(seen, headerLine);
        if headerList[0] == "Content-Length:" {
          bytesToRead := NumeralValue(headerList[1]);
        } else if headerList[0] == "Location:" {
          location := headerList[1];
        }
        seen := seen + [headerLine];
      }
      p := after;
    }
    var recvCount;
    printed, recvCount, next := DrainBody(s, p, bytesToRead, chunks);
  }

  // ---------------------------------------------------------------------
  // download_file and save_file_from_socket

  /** `os.path.basename`: the text after the last `/`. */
  function Basename(p: string): (r: string)
    ensures '/' !in r && |r| <= |p| && p[|p| - |r|..] == r
    ensures |r| < |p| ==> p[|p| - |r| - 1] == '/'
    decreases |p|
  {
    if p == [] || p[|p| - 1] == '/' then []
    else
      var init := p[..|p| - 1];
      var r := Basename(init);
      assert p[|p| - |r| - 1..] == init[|init| - |r|..] + [p[|p| - 1]];
      assert |r| < |init| ==> p[|p| - |r| - 2] == init[|init| - |r| - 1];
      r + [p[|p| - 1]]
  }

  /** save_file_from_socket: the body goes to SAVE_DESTINATION under the base name. */
  method SaveFileFromSocket(s: seq<char>, pos: nat, bytesToRead: int, reqFile: string, chunks: seq<nat>)
    returns (savedAs: string, contents: string, next: nat)
    requires BodyArrives(s, pos, bytesToRead, chunks)
    ensures savedAs == SAVE_DESTINATION + Basename(reqFile)
    ensures contents == Body(s, pos, bytesToRead, chunks) && next == pos + |contents|
  {
    var fileName := Basename(reqFile);
    savedAs := SAVE_DESTINATION + fileName;
    var recvCount;
    contents, recvCount, next := DrainBody(s, pos, bytesToRead, chunks);
  }

  /** download_file: strips the leading slashes from the file name, reads the headers
      for the last `Content-Length:` (0 without one) and saves that many bytes. */
  method DownloadFile(fileName: string, s: seq<char>, pos: nat, chunks: seq<nat>)
    returns (savedAs: string, contents: string, next: nat)
    requires !AllSlashes(fileName)
    requires HeadersAndBodyOk(s, pos, chunks)
    ensures savedAs == SAVE_DESTINATION + Basename(Unslashed(fileName))
    ensures contents == Body(s, HeaderEnd(s, pos), BodyLength(s, pos), chunks)
    ensures next == HeaderEnd(s, pos) + |contents|
  {
    var name := StripLeadingSlashes(fileName);
    var p := pos;
    var done := false;
    var bytesToRead := 0;
    ghost var seen: seq<string> := [];
    ScanStart(s, pos);
    while !done
      invariant pos <= p <= |s|
      invariant AllContentLengthOk(seen) && bytesToRead == LastContentLength(seen).GetOr(0)
      invariant !done ==> Scanning(s, pos, p, seen)
      invariant done ==> seen == HeaderLines(s, pos) && p == HeaderEnd(s, pos)
      decreases |s| - p
    {
      ScanStep(s, pos, p, seen);
      var headerLine, after := GetLineFromSocket(s, p);
      var headerList := Split(headerLine, ' ');
      if headerLine == [] {
        done := true;
      } else {
        LastContentLengthSnoc(seen, headerLine);
        if headerList[0] == "Content-Length:" {
          bytesToRead := NumeralValue(headerList[1]);
        }
        seen := seen + [headerLine];
      }
      p := after;
    }
    savedAs, contents, next := SaveFileFromSocket(s, p, bytesToRead, name, chunks);
  }

  // ---------------------------------------------------------------------
  // The status branch of main and redirect_request

  /** How a client run ends: the file saved, a redirect to follow, or exit status 1
      after printing an error reply with the given status token. */
  datatype Outcome = Saved(path: string, contents: string) | Redirected(location: string) | Failed(code: string)

  /** `response_line.split(' ')[1]`: the status token. */
  function StatusCode(line: string): (code: string)
    requires |Split(line, ' ')| >= 2
    ensures ' ' !in code
  {
    Split(line, ' ')[1]
  }

  /** A reply the client reads without raising or blocking: a status line with a
      second token, then headers and body in the form its branch expects. */
  predicate ReplyOk(fileName: string, s: seq<char>, pos: nat, chunks: seq<nat>) {
    && pos <= |s| && '\n' in s[pos..]
    && |Split(LineAt(s, pos), ' ')| >= 2
    && HeadersAndBodyOk(s, AfterLine(s, pos), chunks)
    && (StatusCode(LineAt(s, pos)) == "200" ==> !AllSlashes(fileName))
    && (StatusCode(LineAt(s, pos)) != "200" ==> AllLocationOk(HeaderLines(s, AfterLine(s, pos))))
  }

  /** What a reply leads to. `follow` is whether a 301 is followed (main) or treated
      like any other error (the redirected request). */
  function ReplyOutcome(fileName: string, s: seq<char>, pos: nat, chunks: seq<nat>, follow: bool): Outcome
    requires ReplyOk(fileName, s, pos, chunks)
  {
    var code := StatusCode(LineAt(s, pos));
    var h := AfterLine(s, pos);
    if code == "200" then
      Saved(SAVE_DESTINATION + Basename(Unslashed(fileName)), Body(s, HeaderEnd(s, h), BodyLength(s, h), chunks))
    else if code == "301" && follow then Redirected(LastLocation(HeaderLines(s, h)).GetOr(""))
    else Failed(code)
  }

  /** Reads the status line and branches on its token, as main and redirect_request do. */
  method ReadReply(fileName: string, s: seq<char>, chunks: seq<nat>, follow: bool) returns (outcome: Outcome)
    requires ReplyOk(fileName, s, 0, chunks)
    ensures outcome == ReplyOutcome(fileName, s, 0, chunks, follow)
    ensures outcome.Saved? <==> StatusCode(LineAt(s, 0)) == "200"
    ensures outcome.Redirected? <==> follow && StatusCode(LineAt(s, 0)) == "301"
    ensures outcome.Failed? ==> outcome.code == StatusCode(LineAt(s, 0)) && outcome.code != "200"
  {
    var responseLine, p := GetLineFromSocket(s, 0);
    var responseList := Split(responseLine, ' ');
    if responseList[1] != "200" {
      var location, printed, next := HandleErrorResponse(s, p, chunks);
      if responseList[1] != "301" || !follow {
        outcome := Failed(responseList[1]);
      } else {
        outcome := Redirected(location);
      }
    } else {
      var savedAs, contents, next := DownloadFile(fileName, s, p, chunks);
      outcome := Saved(savedAs, contents);
    }
  }

  /** main after argument parsing: sends the GET for `fileName` to `host:port` (the port
      is an integer, written in decimal) and acts on the reply stream `s`. */
  method RunClient(host: string, port: nat, fileName: string, s: seq<char>, chunks: seq<nat>)
    returns (request: string, outcome: Outcome)
    requires ReplyOk(fileName, s, 0, chunks)
    ensures request == PrepareGetMessage(host, Decimal(port), fileName)
    ensures outcome == ReplyOutcome(fileName, s, 0, chunks, true)
  {
    request := PrepareGetMessage(host, Decimal(port), fileName);
    outcome := ReadReply(fileName, s, chunks, true);
  }

  /** redirect_request after the location is parsed into host, port and path: one more
      GET, and a 301 in its reply is an error like any other. */
  method RedirectRequest(host: string, port: nat, path: string, s: seq<char>, chunks: seq<nat>)
    returns (request: string, outcome: Outcome)
    requires ReplyOk(path, s, 0, chunks)
    ensures request == PrepareGetMessage(host, Decimal(port), path)
    ensures outcome == ReplyOutcome(path, s, 0, chunks, false) && !outcome.Redirected?
  {
    request := PrepareGetMessage(host, Decimal(port), path);
    outcome := ReadReply(path, s, chunks, false);
  }
}
