/** The balancer's side of a client connection: read the request, pick a backend,
    and answer with a 301 that points at it, or a 503 when there is none. Also the
    rebuild of the weighted list, `analyze_server_performance`. */
module Dispatch {
  import opened Text
  import opened Wire
  import opened Registry
  import opened Prober
  import opened Selector

  // ---------------------------------------------------------------------
  // process_request

  /** A request the source handles without raising: a request line with at least
      two whitespace-separated words, the second not made only of `/` (that makes
      the slash loop index an empty string), and a header block after it. */
  predicate RequestOk(s: seq<char>, pos: nat) {
    && pos <= |s| && '\n' in s[pos..]
    && |Words(LineAt(s, pos))| >= 2
    && !AllSlashes(Words(LineAt(s, pos))[1])
    && HasHeaderBlock(s, AfterLine(s, pos))
  }

  /** The second word of the request line: the requested path. */
  function RequestTarget(s: seq<char>, pos: nat): string
    requires RequestOk(s, pos)
  {
    Words(LineAt(s, pos))[1]
  }

  /** The cursor just past the empty line that ends the request's headers. */
  function RequestEnd(s: seq<char>, pos: nat): nat
    requires RequestOk(s, pos)
  {
    HeaderEnd(s, AfterLine(s, pos))
  }

  /** process_request: the requested path without its leading slashes; the
      request line and all header lines up to the empty one are consumed. */
  method ProcessRequest(s: seq<char>, pos: nat) returns (reqFile: string, next: nat)
    requires RequestOk(s, pos)
    ensures reqFile == Unslashed(RequestTarget(s, pos))
    ensures reqFile != [] && reqFile[0] != '/'
    ensures pos < next == RequestEnd(s, pos) <= |s|
  {
    var request, p := GetLineFromSocket(s, pos);
    var requestList := Words(request);
    var start := p;
    HeaderStep(s, p);
    var line, q := GetLineFromSocket(s, p);
    while line != []
      invariant start <= p && HasHeaderBlock(s, p) && HeaderEnd(s, p) == HeaderEnd(s, start)
      invariant line == LineAt(s, p) && q == AfterLine(s, p)
      decreases |s| - p
    {
      p := q;
      HeaderStep(s, p);
      line, q := GetLineFromSocket(s, p);
    }
    next := q;
    reqFile := StripLeadingSlashes(requestList[1]);
  }

  // ---------------------------------------------------------------------
  // The response

  /** prepare_response_message: the status line and the `Date` header for 301 and
      503; for any other code only `HTTP/1.1 `. `date` is the formatted clock text. */
  function PrepareResponseMessage(value: string, date: string): (m: string)
    ensures |m| >= 9 && m[..9] == "HTTP/1.1 "
    ensures m == "HTTP/1.1 " <==> value != "301" && value != "503"
  {
    var dateString := "Date: " + date;
    var message := "HTTP/1.1 ";
    if value == "301" then message + value + " Moved Permanently\r\n" + dateString + "\r\n"
    else if value == "503" then message + value + " Service Unavailable\r\n" + dateString + "\r\n"
    else message
  }

  /** The content type announced for a file: HTML by extension, bytes otherwise. */
  function ContentType(fileName: string): (t: string)
    ensures t == "text/html" || t == "application/octet-stream"
  {
    if EndsWith(fileName, ".html") || EndsWith(fileName, ".htm") then "text/html"
    else "application/octet-stream"
  }

  lemma ContentTypeCases(fileName: string)
    ensures ContentType(fileName) == "text/html" <==> EndsWith(fileName, ".html") || EndsWith(fileName, ".htm")
    ensures ContentType(fileName) != "text/html" ==> ContentType(fileName) == "application/octet-stream"
    ensures ContentType("errors/301.html") == "text/html" && ContentType("errors/503.html") == "text/html"
  {
    assert "errors/301.html"[15 - 5..] == ".html";
    assert "errors/503.html"[15 - 5..] == ".html";
  }

  /** The header of a response: status part, then `Content-Type`, `Content-Length`
      (the decimal file size) and `Location`, then the blank line. */
  function ResponseHead(code: string, fileName: string, fileSize: nat, location: string, date: string): (h: string)
    ensures |PrepareResponseMessage(code, date)| + 4 <= |h|
    ensures h[..|PrepareResponseMessage(code, date)|] == PrepareResponseMessage(code, date)
    ensures h[|h| - 4..] == "\r\n\r\n"
  {
    PrepareResponseMessage(code, date) + "Content-Type: " + ContentType(fileName)
      + "\r\nContent-Length: " + Decimal(fileSize) + "\r\nLocation: " + location + "\r\n\r\n"
  }

  /** Pieces that spell `contents[..offset]`, each of BUFFER_SIZE bytes but the last,
      still do so with the next piece `contents[offset..end]` appended. */
  lemma NextPiece(contents: string, offset: nat, end: nat, pieces: seq<string>)
    requires offset < end <= |contents| && end - offset <= BUFFER_SIZE
    requires end < |contents| ==> end - offset == BUFFER_SIZE
    requires Concat(pieces) == contents[..offset]
    requires forall i :: 0 <= i < |pieces| ==> 0 < |pieces[i]| <= BUFFER_SIZE
    requires forall i :: 0 <= i < |pieces| - 1 ==> |pieces[i]| == BUFFER_SIZE
    requires pieces != [] && |pieces[|pieces| - 1]| < BUFFER_SIZE ==> offset == |contents|
    ensures var next := pieces + [contents[offset..end]];
            && Concat(next) == contents[..end]
            && (forall i :: 0 <= i < |next| ==> 0 < |next[i]| <= BUFFER_SIZE)
            && (forall i :: 0 <= i < |next| - 1 ==> |next[i]| == BUFFER_SIZE)
            && (|next[|next| - 1]| < BUFFER_SIZE ==> end == |contents|)
  {
    var chunk := contents[offset..end];
    var next := pieces + [chunk];
    assert next[..|pieces|] == pieces;
    assert contents[..end] == contents[..offset] + chunk;
  }

  /** The file loop of send_response_to_client: reads of BUFFER_SIZE bytes, the last
      one possibly shorter, each sent as it comes, until a read comes back empty.
      `contents` stands for the file. */
  method SendFile(contents: string) returns (pieces: seq<string>)
    ensures Concat(pieces) == contents
    ensures forall i :: 0 <= i < |pieces| ==> 0 < |pieces[i]| <= BUFFER_SIZE
    ensures forall i :: 0 <= i < |pieces| - 1 ==> |pieces[i]| == BUFFER_SIZE
  {
    pieces := [];
    var offset := 0;
    while true
      invariant offset <= |contents| && Concat(pieces) == contents[..offset]
      invariant forall i :: 0 <= i < |pieces| ==> 0 < |pieces[i]| <= BUFFER_SIZE
      invariant forall i :: 0 <= i < |pieces| - 1 ==> |pieces[i]| == BUFFER_SIZE
      invariant pieces != [] && |pieces[|pieces| - 1]| < BUFFER_SIZE ==> offset == |contents|
      decreases |contents| - offset
    {
      var end := if offset + BUFFER_SIZE <= |contents| then offset + BUFFER_SIZE else |contents|;
      var chunk := contents[offset..end];
      if chunk != [] {
        NextPiece(contents, offset, end, pieces);
        pieces := pieces + [chunk];
        offset := end;
      } else {
        break;
      }
    }
    assert contents[..offset] == contents;
  }

  /** send_response_to_client: the header, then the file in the pieces SendFile reads.
      `contents` stands for the file, so its size is `|contents|`. Returns everything
      sent and the file pieces in the order they were sent. */
  method SendResponseToClient(code: string, fileName: string, contents: string, location: string, date: string)
    returns (sent: string, pieces: seq<string>)
    ensures sent == ResponseHead(code, fileName, |contents|, location, date) + contents
    ensures Concat(pieces) == contents
    ensures forall i :: 0 <= i < |pieces| ==> 0 < |pieces[i]| <= BUFFER_SIZE
    ensures forall i :: 0 <= i < |pieces| - 1 ==> |pieces[i]| == BUFFER_SIZE
  {
    var header := ResponseHead(code, fileName, |contents|, location, date);
    pieces := SendFile(contents);
    sent := header + Concat(pieces);
  }

  /** The redirect target: `http://host:port/` followed by the requested file. */
  function Location(server: Server, reqFile: string): (l: string)
    ensures |l| == 9 + |server.host| + |server.port| + |reqFile|
    ensures l[..7] == "http://" && l[7..7 + |server.host|] == server.host
    ensures l[|l| - |reqFile| - 1..] == "/" + reqFile
  {
    "http://" + server.host + ":" + server.port + "/" + reqFile
  }

  const PAGE_301: string := "errors/301.html"
  const PAGE_503: string := "errors/503.html"

  /** redirect_request: a 301 carrying the backend's location and the 301 page. */
  method RedirectRequest(selected: Server, reqFile: string, page301: string, date: string) returns (sent: string)
    ensures sent == ResponseHead("301", PAGE_301, |page301|, Location(selected, reqFile), date) + page301
  {
    var newLocation := Location(selected, reqFile);
    var pieces;
    sent, pieces := SendResponseToClient("301", PAGE_301, page301, newLocation, date);
  }

  /** One pass of main's loop for an accepted connection: read the request, draw a
      backend, answer 503 when there is none and 301 to it otherwise. */
  method HandleConnection(table: seq<Server>, s: seq<char>, pos: nat, draw: int, date: string,
                          page301: string, page503: string)
    returns (sent: string, next: nat)
    requires RequestOk(s, pos) && DrawInRange(table, draw)
    ensures next == RequestEnd(s, pos)
    ensures table == [] ==> sent == ResponseHead("503", PAGE_503, |page503|, "", date) + page503
    ensures table != [] ==>
              sent == ResponseHead("301", PAGE_301, |page301|,
                                   Location(table[FirstCovering(table, draw)], Unslashed(RequestTarget(s, pos))),
                                   date) + page301
  {
    var reqFile;
    reqFile, next := ProcessRequest(s, pos);
    var selected := AssignServer(table, draw);
    if selected.None? {
      var pieces;
      sent, pieces := SendResponseToClient("503", PAGE_503, page503, "", date);
    } else {
      sent := RedirectRequest(selected.value, reqFile, page301, date);
    }
  }

  // ---------------------------------------------------------------------
  // analyze_server_performance

  /** The weighted list built from the configuration file and the probe outcomes. */
  function AnalyzedTable(file: seq<string>, refused: seq<bool>, times: seq<int>): seq<Server>
    requires |refused| == |Accepted(ConfigLines(file))| && |times| == |refused|
  {
    Weighted(SortByLatency(Probed(Accepted(ConfigLines(file)), refused, times)))
  }

  /** analyze_server_performance: parse the configuration, probe, weight. */
  method AnalyzeServerPerformance(file: seq<string>, refused: seq<bool>, times: seq<int>)
    returns (table: seq<Server>)
    requires |refused| == |Accepted(ConfigLines(file))| && |times| == |refused|
    ensures table == AnalyzedTable(file, refused, times)
  {
    var servers, warnings := InitServerList(file);
    var requests, sorted := RecordResponseTimes(servers, refused, times);
    table := ComputeServerAvailability(sorted);
  }

  /** The rebuilt list is ordered slowest first and weighted 1, 3, 6, ...: weights
      strictly increase and the k-th (counting from 1) is k(k+1)/2. */
  lemma AnalyzedTableOrder(file: seq<string>, refused: seq<bool>, times: seq<int>)
    requires |refused| == |Accepted(ConfigLines(file))| && |times| == |refused|
    ensures var table := AnalyzedTable(file, refused, times);
            && Increasing(table)
            && (forall i, j :: 0 <= i < j < |table| ==> table[i].latency >= table[j].latency)
            && (forall k :: 0 <= k < |table| ==> 2 * table[k].weight == (k + 1) * (k + 2))
  {
    var sorted := SortByLatency(Probed(Accepted(ConfigLines(file)), refused, times));
    SortSlowestFirst(Probed(Accepted(ConfigLines(file)), refused, times));
    WeightsIncrease(sorted);
    WeightedEntries(sorted);
  }

  /** Every entry of the weighted, sorted probe list is a server that accepted the
      probe, with its measured latency. */
  lemma WeightedProbedEntries(servers: seq<Server>, refused: seq<bool>, times: seq<int>, k: nat)
    requires |refused| == |servers| && |times| == |servers|
    requires k < |Weighted(SortByLatency(Probed(servers, refused, times)))|
    ensures var e := Weighted(SortByLatency(Probed(servers, refused, times)))[k];
            exists i :: 0 <= i < |servers| && !refused[i] && e.host == servers[i].host
                        && e.port == servers[i].port && e.latency == times[i]
  {
    var probed := Probed(servers, refused, times);
    var sorted := SortByLatency(probed);
    SortPermutes(probed);
    assert sorted[k] in multiset(probed);
    ProbedEntries(servers, refused, times, sorted[k]);
    var i :| 0 <= i < |servers| && !refused[i] && sorted[k] == Probe(servers[i], times[i]);
    assert Weighted(sorted)[k].host == servers[i].host;
  }

  /** Every entry of the rebuilt list is a configured server that accepted the probe,
      with its measured latency. */
  lemma AnalyzedTableEntries(file: seq<string>, refused: seq<bool>, times: seq<int>)
    requires |refused| == |Accepted(ConfigLines(file))| && |times| == |refused|
    ensures var servers := Accepted(ConfigLines(file));
            var table := AnalyzedTable(file, refused, times);
            forall k :: 0 <= k < |table| ==>
              exists i :: 0 <= i < |servers| && !refused[i] && table[k].host == servers[i].host
                          && table[k].port == servers[i].port && table[k].latency == times[i]
  {
    var servers := Accepted(ConfigLines(file));
    forall k | 0 <= k < |AnalyzedTable(file, refused, times)|
      ensures var table := AnalyzedTable(file, refused, times);
              exists i :: 0 <= i < |servers| && !refused[i] && table[k].host == servers[i].host
                          && table[k].port == servers[i].port && table[k].latency == times[i]
    {
      WeightedProbedEntries(servers, refused, times, k);
    }
  }

  // ---------------------------------------------------------------------
  // main

  /** What ends one wait in main's loop: an accepted connection carrying the request
      stream, the random draw and the date text, or an accept timeout followed by a
      new round of probes with the given outcomes. */
  datatype Event = Connection(s: seq<char>, draw: int, date: string) | Timeout(refused: seq<bool>, times: seq<int>)

  /** An event the source handles without raising, given the current list. */
  predicate EventOk(file: seq<string>, table: seq<Server>, e: Event) {
    match e
    case Connection(s, draw, _) => RequestOk(s, 0) && DrawInRange(table, draw)
    case Timeout(refused, times) => |refused| == |Accepted(ConfigLines(file))| && |times| == |refused|
  }

  /** One turn of main's loop: a connection is answered from the current list, which
      stays as it is; a timeout rebuilds the list and sends nothing. */
  method MainStep(file: seq<string>, table: seq<Server>, e: Event, page301: string, page503: string)
    returns (next: seq<Server>, sent: string)
    requires EventOk(file, table, e)
    ensures e.Timeout? ==> next == AnalyzedTable(file, e.refused, e.times) && sent == []
    ensures e.Connection? ==> next == table
    ensures e.Connection? && table == [] ==> sent == ResponseHead("503", PAGE_503, |page503|, "", e.date) + page503
    ensures e.Connection? && table != [] ==>
              sent == ResponseHead("301", PAGE_301, |page301|,
                                   Location(table[FirstCovering(table, e.draw)], Unslashed(RequestTarget(e.s, 0))),
                                   e.date) + page301
  {
    match e
    case Connection(s, draw, date) =>
      var consumed;
      sent, consumed := HandleConnection(table, s, 0, draw, date, page301, page503);
      next := table;
    case Timeout(refused, times) =>
      next := AnalyzeServerPerformance(file, refused, times);
      sent := [];
  }

  /** A configuration in which no line names a server leaves the list empty, so
      every connection is answered with a 503. */
  lemma NoServersMeansUnavailable(file: seq<string>)
    requires forall i :: 0 <= i < |file| ==> ':' !in file[i]
    ensures Accepted(ConfigLines(file)) == []
    ensures AnalyzedTable(file, [], []) == []
  {
    var lines := ConfigLines(file);
    assert forall i :: 0 <= i < |lines| ==> lines[i] == file[i];
    NoServerConfigured(lines);
  }

  /** Latencies 5, 2 and 8 sort to 8, 5, 2. */
  lemma SortExample(a: Server, b: Server, c: Server)
    requires a.latency == 5 && b.latency == 2 && c.latency == 8
    ensures SortByLatency([a, b, c]) == [c, a, b]
  {
    var t := [a, b, c];
    assert t[1..] == [b, c] && t[1..][1..] == [c] && t[1..][1..][1..] == [];
    assert SortByLatency([c]) == [c];
    assert Insert(b, [c]) == [c] + Insert(b, []);
    assert SortByLatency([b, c]) == [c, b];
    assert Insert(a, [c, b]) == [c] + Insert(a, [b]);
  }

  /** Weights 1, 3, 6: draw 1 selects the first entry, draws 2 and 3 the second,
      draws 4 to 6 the third. */
  lemma DrawExample(table: seq<Server>)
    requires |table| == 3 && table[0].weight == 1 && table[1].weight == 3 && table[2].weight == 6
    ensures FirstCovering(table, 1) == 0
    ensures FirstCovering(table, 2) == 1 && FirstCovering(table, 3) == 1
    ensures FirstCovering(table, 4) == 2 && FirstCovering(table, 6) == 2
  {
    assert table[1..][1..] == [table[2]];
  }

  /** Latencies 5, 2 and 8 are weighted in the order 8, 5, 2 with weights 1, 3, 6;
      draw 1 selects latency 8, draw 3 latency 5, and draws 4 and 6 latency 2. */
  lemma DispatchExample(a: Server, b: Server, c: Server)
    requires a.latency == 5 && b.latency == 2 && c.latency == 8
    ensures var table := Weighted(SortByLatency([a, b, c]));
            && |table| == 3
            && table[0].host == c.host && table[1].host == a.host && table[2].host == b.host
            && table[0].weight == 1 && table[1].weight == 3 && table[2].weight == 6
            && FirstCovering(table, 1) == 0 && FirstCovering(table, 3) == 1
            && FirstCovering(table, 4) == 2 && FirstCovering(table, 6) == 2
  {
    SortExample(a, b, c);
    var table := Weighted([c, a, b]);
    assert Tri(1) == 1 && Tri(2) == 3 && Tri(3) == 6;
    DrawExample(table);
  }
}
