/** The framing both the balancer and the client use on a connection.
    A connection's incoming bytes are a `seq<char>` and a read cursor `pos`;
    each reading operation returns the cursor after what it consumed.
    `get_line_from_socket`, `prepare_get_message` and the leading-slash
    loop exist as identical copies in balancer/balancer.py and
    client/client.py and are modelled once here. */
module Wire {
  import opened Text

  /** The `recv` size the drain loops ask for. */
  const BUFFER_SIZE: nat := 1024

  // ---------------------------------------------------------------------
  // Line reader

  /** Position of the first line feed at or after `pos`. */
  function NextNewline(s: seq<char>, pos: nat): (i: nat)
    requires pos <= |s| && '\n' in s[pos..]
    ensures pos <= i < |s| && s[i] == '\n'
    ensures forall k :: pos <= k < i ==> s[k] != '\n'
    ensures '\n' !in s[pos..i]
  {
    var j := IndexOf(s[pos..], '\n');
    assert s[pos..][..j] == s[pos..pos + j];
    forall k | pos <= k < pos + j
      ensures s[k] != '\n'
    {
      assert s[k] == s[pos..pos + j][k - pos];
    }
    pos + j
  }

  /** The text read from `pos` up to `next`: every character but carriage returns. */
  function LinePrefix(s: seq<char>, pos: nat, next: nat): (r: string)
    requires pos <= next <= |s|
    ensures '\r' !in r
    decreases next - pos
  {
    if next == pos then []
    else LinePrefix(s, pos, next - 1) + (if s[next - 1] == '\r' then [] else [s[next - 1]])
  }

  /** The text of the line that starts at `pos`: what precedes the line feed, less every carriage return. */
  function LineAt(s: seq<char>, pos: nat): string
    requires pos <= |s| && '\n' in s[pos..]
  {
    LinePrefix(s, pos, NextNewline(s, pos))
  }

  /** The cursor once that line and its line feed are consumed. */
  function AfterLine(s: seq<char>, pos: nat): (next: nat)
    requires pos <= |s| && '\n' in s[pos..]
    ensures pos < next <= |s|
  {
    NextNewline(s, pos) + 1
  }

  /** Text read where no line feed is adds no line feed. */
  lemma {:induction false} LinePrefixNoNewline(s: seq<char>, pos: nat, next: nat)
    requires pos <= next <= |s|
    requires forall k :: pos <= k < next ==> s[k] != '\n'
    ensures '\n' !in LinePrefix(s, pos, next)
    decreases next - pos
  {
    if next > pos {
      LinePrefixNoNewline(s, pos, next - 1);
    }
  }

  /** Text read from a stretch that spells `t`, which holds no carriage return, is `t`'s prefix. */
  lemma {:induction false} LinePrefixPlain(s: seq<char>, pos: nat, t: string, k: nat)
    requires k <= |t| && pos + k <= |s| && '\r' !in t
    requires forall i :: 0 <= i < k ==> s[pos + i] == t[i]
    ensures LinePrefix(s, pos, pos + k) == t[..k]
    decreases k
  {
    if k > 0 {
      LinePrefixPlain(s, pos, t, k - 1);
      assert t[..k] == t[..k - 1] + [t[k - 1]];
    }
  }

  /** The line at `pos` holds no carriage return and no line feed. */
  lemma LineEnd(s: seq<char>, pos: nat)
    requires pos <= |s| && '\n' in s[pos..]
    ensures '\r' !in LineAt(s, pos) && '\n' !in LineAt(s, pos)
  {
    LinePrefixNoNewline(s, pos, NextNewline(s, pos));
  }

  /** get_line_from_socket: read one character at a time, skip `\r`, stop at `\n`.
      A stream that closes before a line feed makes the source spin forever,
      so a line feed must be on its way. */
  method GetLineFromSocket(s: seq<char>, pos: nat) returns (line: string, next: nat)
    requires pos <= |s| && '\n' in s[pos..]
    ensures pos < next <= |s| && s[next - 1] == '\n'
    ensures forall k :: pos <= k < next - 1 ==> s[k] != '\n'
    ensures '\r' !in line && '\n' !in line
    ensures line == LineAt(s, pos) && next == AfterLine(s, pos)
  {
    ghost var nl := NextNewline(s, pos);
    var done := false;
    line := "";
    next := pos;
    while !done
      invariant pos <= next
      invariant !done ==> next <= nl && line == LinePrefix(s, pos, next)
      invariant done ==> next == nl + 1 && line == LinePrefix(s, pos, nl)
      decreases nl + 1 - next
    {
      var c := s[next];
      next := next + 1;
      if c == '\r' {
      } else if c == '\n' {
        done := true;
      } else {
        line := line + [c];
      }
    }
    LineEnd(s, pos);
  }

  /** A line made of `t` followed by CR LF reads back as `t`. */
  lemma ReadCRLFLine(s: seq<char>, pos: nat, t: string)
    requires '\r' !in t && '\n' !in t
    requires pos + |t| + 2 <= |s| && s[pos..pos + |t| + 2] == t + "\r\n"
    ensures '\n' in s[pos..]
    ensures NextNewline(s, pos) == pos + |t| + 1
    ensures LineAt(s, pos) == t && AfterLine(s, pos) == pos + |t| + 2
  {
    var e := pos + |t| + 1;
    assert s[e] == (t + "\r\n")[|t| + 1] == '\n';
    assert s[pos..][|t| + 1] == '\n';
    forall k | pos <= k < e
      ensures s[k] != '\n'
    {
      assert s[k] == (t + "\r\n")[k - pos];
    }
    assert NextNewline(s, pos) == e;
    forall i | 0 <= i < |t|
      ensures s[pos + i] == t[i]
    {
      assert s[pos + i] == (t + "\r\n")[i];
    }
    LinePrefixPlain(s, pos, t, |t|);
    assert s[pos + |t|] == (t + "\r\n")[|t|];
    assert t[..|t|] == t;
  }

  /** Reading a slice that holds `a + b` as its two halves. */
  lemma SliceHalves(s: seq<char>, pos: nat, a: string, b: string)
    requires pos + |a| + |b| <= |s| && s[pos..pos + |a| + |b|] == a + b
    ensures s[pos..pos + |a|] == a
    ensures s[pos + |a|..pos + |a| + |b|] == b
  {
    assert s[pos..pos + |a|] == s[pos..pos + |a| + |b|][..|a|];
    assert s[pos + |a|..pos + |a| + |b|] == s[pos..pos + |a| + |b|][|a|..];
  }

  // ---------------------------------------------------------------------
  // Header blocks: lines up to and including the first empty one

  /** A complete header block starts at `pos`: lines follow one another until an empty one. */
  predicate HasHeaderBlock(s: seq<char>, pos: nat)
    decreases |s| - pos
  {
    pos <= |s| && '\n' in s[pos..] &&
    (LineAt(s, pos) == [] || HasHeaderBlock(s, AfterLine(s, pos)))
  }

  /** The non-empty header lines of that block, in order. */
  function HeaderLines(s: seq<char>, pos: nat): (lines: seq<string>)
    requires HasHeaderBlock(s, pos)
    ensures forall i :: 0 <= i < |lines| ==> lines[i] != [] && '\r' !in lines[i] && '\n' !in lines[i]
    decreases |s| - pos
  {
    LineEnd(s, pos);
    if LineAt(s, pos) == [] then [] else [LineAt(s, pos)] + HeaderLines(s, AfterLine(s, pos))
  }

  /** The cursor just past the empty line that closes the block. */
  function HeaderEnd(s: seq<char>, pos: nat): (next: nat)
    requires HasHeaderBlock(s, pos)
    ensures pos < next <= |s|
    decreases |s| - pos
  {
    if LineAt(s, pos) == [] then AfterLine(s, pos) else HeaderEnd(s, AfterLine(s, pos))
  }

  /** Lines written one after another, each closed by CR LF. */
  function CRLFLines(lines: seq<string>): string {
    if lines == [] then "" else lines[0] + "\r\n" + CRLFLines(lines[1..])
  }

  /** A non-empty line in front of a header block extends it by that line. */
  lemma HeaderBlockCons(s: seq<char>, pos: nat, t: string, next: nat)
    requires pos <= |s| && '\n' in s[pos..] && LineAt(s, pos) == t && t != []
    requires AfterLine(s, pos) == next && HasHeaderBlock(s, next)
    ensures HasHeaderBlock(s, pos)
    ensures HeaderLines(s, pos) == [t] + HeaderLines(s, next)
    ensures HeaderEnd(s, pos) == HeaderEnd(s, next)
  {
  }

  /** Reading one line of a header block: an empty line closes it, any other
      line is its first header and the block goes on after it. */
  lemma HeaderStep(s: seq<char>, pos: nat)
    requires HasHeaderBlock(s, pos)
    ensures pos <= |s| && '\n' in s[pos..]
    ensures LineAt(s, pos) == [] ==> HeaderLines(s, pos) == [] && HeaderEnd(s, pos) == AfterLine(s, pos)
    ensures LineAt(s, pos) != [] ==>
              HasHeaderBlock(s, AfterLine(s, pos)) &&
              HeaderLines(s, pos) == [LineAt(s, pos)] + HeaderLines(s, AfterLine(s, pos)) &&
              HeaderEnd(s, pos) == HeaderEnd(s, AfterLine(s, pos))
  {
  }

  /** A header scan that has read the lines `seen` of the block at `pos` and stands at `p`. */
  predicate Scanning(s: seq<char>, pos: nat, p: nat, seen: seq<string>) {
    && HasHeaderBlock(s, pos) && HasHeaderBlock(s, p)
    && HeaderLines(s, pos) == seen + HeaderLines(s, p)
    && HeaderEnd(s, p) == HeaderEnd(s, pos)
  }

  lemma ScanStart(s: seq<char>, pos: nat)
    requires HasHeaderBlock(s, pos)
    ensures Scanning(s, pos, pos, [])
  {
    assert [] + HeaderLines(s, pos) == HeaderLines(s, pos);
  }

  /** One step of a header scan: the empty line ends it, past the whole block;
      any other line is the next header of the block. */
  lemma ScanStep(s: seq<char>, pos: nat, p: nat, seen: seq<string>)
    requires Scanning(s, pos, p, seen)
    ensures p <= |s| && '\n' in s[p..]
    ensures LineAt(s, p) == [] ==> seen == HeaderLines(s, pos) && AfterLine(s, p) == HeaderEnd(s, pos)
    ensures LineAt(s, p) != [] ==>
              |seen| < |HeaderLines(s, pos)| && LineAt(s, p) == HeaderLines(s, pos)[|seen|] &&
              Scanning(s, pos, AfterLine(s, p), seen + [LineAt(s, p)])
  {
    HeaderStep(s, p);
    if LineAt(s, p) == [] {
      assert seen + [] == seen;
    } else {
      Regroup(seen, LineAt(s, p), HeaderLines(s, AfterLine(s, p)));
    }
  }

  /** Moving one line from the unread part of a block to the read part. */
  lemma Regroup(seen: seq<string>, t: string, rest: seq<string>)
    ensures seen + ([t] + rest) == (seen + [t]) + rest
    ensures |seen| < |seen + ([t] + rest)| && (seen + ([t] + rest))[|seen|] == t
  {
  }

  /** A block written as CR LF lines is its first line and the block of the others. */
  lemma BlockHalves(s: seq<char>, pos: nat, lines: seq<string>)
    requires lines != []
    requires pos + |CRLFLines(lines)| + 2 <= |s|
    requires s[pos..pos + |CRLFLines(lines)| + 2] == CRLFLines(lines) + "\r\n"
    ensures |CRLFLines(lines)| == |lines[0]| + 2 + |CRLFLines(lines[1..])|
    ensures pos + |lines[0]| + 2 <= |s| && s[pos..pos + |lines[0]| + 2] == lines[0] + "\r\n"
    ensures var p := pos + |lines[0]| + 2;
            s[p..p + |CRLFLines(lines[1..])| + 2] == CRLFLines(lines[1..]) + "\r\n"
  {
    var t, crlf := lines[0], "\r\n";
    var rest := CRLFLines(lines[1..]);
    assert CRLFLines(lines) + crlf == (t + crlf) + (rest + crlf);
    SliceHalves(s, pos, t + crlf, rest + crlf);
  }

  /** The first line of a block written as CR LF lines, and where the rest of it begins. */
  lemma BlockFirstLine(s: seq<char>, pos: nat, lines: seq<string>)
    requires lines != [] && '\r' !in lines[0] && '\n' !in lines[0]
    requires pos + |CRLFLines(lines)| + 2 <= |s|
    requires s[pos..pos + |CRLFLines(lines)| + 2] == CRLFLines(lines) + "\r\n"
    ensures pos <= |s| && '\n' in s[pos..]
    ensures LineAt(s, pos) == lines[0] && AfterLine(s, pos) == pos + |lines[0]| + 2
    ensures |CRLFLines(lines)| == |lines[0]| + 2 + |CRLFLines(lines[1..])|
    ensures var p := pos + |lines[0]| + 2;
            s[p..p + |CRLFLines(lines[1..])| + 2] == CRLFLines(lines[1..]) + "\r\n"
  {
    BlockHalves(s, pos, lines);
    ReadCRLFLine(s, pos, lines[0]);
  }

  /** A list of clean header lines is its first line and the clean others. */
  lemma SplitFirst(lines: seq<string>)
    requires lines != []
    requires forall i :: 0 <= i < |lines| ==> lines[i] != [] && '\r' !in lines[i] && '\n' !in lines[i]
    ensures lines == [lines[0]] + lines[1..]
    ensures forall i :: 0 <= i < |lines[1..]| ==> lines[1..][i] != [] && '\r' !in lines[1..][i] && '\n' !in lines[1..][i]
  {
    assert forall i :: 0 <= i < |lines[1..]| ==> lines[1..][i] == lines[i + 1];
  }

  /** A block written as CR LF lines and an empty CR LF line reads back line for line. */
  lemma {:induction false} ReadHeaderBlock(s: seq<char>, pos: nat, lines: seq<string>)
    requires forall i :: 0 <= i < |lines| ==> lines[i] != [] && '\r' !in lines[i] && '\n' !in lines[i]
    requires pos + |CRLFLines(lines)| + 2 <= |s|
    requires s[pos..pos + |CRLFLines(lines)| + 2] == CRLFLines(lines) + "\r\n"
    ensures HasHeaderBlock(s, pos)
    ensures HeaderLines(s, pos) == lines
    ensures HeaderEnd(s, pos) == pos + |CRLFLines(lines)| + 2
    decreases |lines|
  {
    if lines == [] {
      ReadCRLFLine(s, pos, "");
    } else {
      var t, tail := lines[0], lines[1..];
      var p := pos + |t| + 2;
      BlockFirstLine(s, pos, lines);
      SplitFirst(lines);
      ReadHeaderBlock(s, p, tail);
      HeaderBlockCons(s, pos, t, p);
    }
  }

  // ---------------------------------------------------------------------
  // Header fields

  /** First space-separated token of a header line: `header_line.split(' ')[0]`. */
  function Field(line: string): string {
    Split(line, ' ')[0]
  }

  /** A `Content-Length:` line the source can read without raising: `split(' ')[1]` exists and `int()` accepts it. */
  predicate ContentLengthOk(line: string) {
    Field(line) == "Content-Length:" ==> |Split(line, ' ')| >= 2 && IsNumeral(Split(line, ' ')[1])
  }

  predicate AllContentLengthOk(lines: seq<string>) {
    forall i :: 0 <= i < |lines| ==> ContentLengthOk(lines[i])
  }

  /** The value of the last `Content-Length:` line, if any: each one overwrites `bytes_to_read`. */
  function LastContentLength(lines: seq<string>): (r: Option<nat>)
    requires AllContentLengthOk(lines)
    ensures r.None? <==> forall i :: 0 <= i < |lines| ==> Field(lines[i]) != "Content-Length:"
    decreases |lines|
  {
    if lines == [] then None
    else
      var last := lines[|lines| - 1];
      if Field(last) == "Content-Length:" then Some(NumeralValue(Split(last, ' ')[1]))
      else LastContentLength(lines[..|lines| - 1])
  }

  /** A later `Content-Length:` wins over an earlier one; lines of other kinds change nothing. */
  lemma {:induction false} LastContentLengthAppend(a: seq<string>, b: seq<string>)
    requires AllContentLengthOk(a) && AllContentLengthOk(b)
    ensures AllContentLengthOk(a + b)
    ensures LastContentLength(a + b) ==
            if LastContentLength(b).Some? then LastContentLength(b) else LastContentLength(a)
    decreases |b|
  {
    if b != [] {
      var b' := b[..|b| - 1];
      assert (a + b)[..|a + b| - 1] == a + b';
      assert (a + b)[|a + b| - 1] == b[|b| - 1];
      LastContentLengthAppend(a, b');
    } else {
      assert a + b == a;
    }
  }

  /** One more header line read: a `Content-Length:` line sets the value, any other keeps it. */
  lemma LastContentLengthSnoc(lines: seq<string>, line: string)
    requires AllContentLengthOk(lines) && ContentLengthOk(line)
    ensures AllContentLengthOk(lines + [line])
    ensures LastContentLength(lines + [line]) ==
            if Field(line) == "Content-Length:" then Some(NumeralValue(Split(line, ' ')[1]))
            else LastContentLength(lines)
  {
    assert (lines + [line])[..|lines|] == lines;
  }

  // ---------------------------------------------------------------------
  // Request builder

  /** prepare_get_message: the request line, a `Host` header and the blank line. */
  function PrepareGetMessage(host: string, port: string, fileName: string): (m: string)
    ensures |m| >= |fileName| + 8 && m[..4] == "GET " && m[4..4 + |fileName|] == fileName
    ensures m[|m| - 4..] == "\r\n\r\n"
  {
    "GET " + fileName + " HTTP/1.1\r\nHost: " + host + ":" + port + "\r\n\r\n"
  }

  /** The request is exactly two CR LF lines and a blank line. */
  lemma GetMessageLines(host: string, port: string, fileName: string)
    ensures PrepareGetMessage(host, port, fileName) ==
            CRLFLines(["GET " + fileName + " HTTP/1.1", "Host: " + host + ":" + port]) + "\r\n"
  {
    var l1 := "GET " + fileName + " HTTP/1.1";
    var l2 := "Host: " + host + ":" + port;
    assert CRLFLines([l1, l2]) == l1 + "\r\n" + CRLFLines([l2]);
    assert CRLFLines([l2]) == l2 + "\r\n" + CRLFLines([]);
  }

  // ---------------------------------------------------------------------
  // Leading-slash stripping

  predicate AllSlashes(p: string) {
    forall i :: 0 <= i < |p| ==> p[i] == '/'
  }

  /** The number of leading `/` of a path that holds another character. */
  function Slashes(p: string): (n: nat)
    requires !AllSlashes(p)
    ensures n < |p| && p[n] != '/'
    ensures forall i :: 0 <= i < n ==> p[i] == '/'
    decreases |p|
  {
    if p[0] == '/' then
      var m := Slashes(p[1..]);
      assert forall i :: 1 <= i < m + 1 ==> p[i] == p[1..][i - 1];
      1 + m
    else 0
  }

  /** The path with every leading `/` removed: the path is a run of `/` followed by a
      non-empty rest that starts with another character. */
  function Unslashed(p: string): (r: string)
    requires !AllSlashes(p)
    ensures r != [] && r[0] != '/' && |r| <= |p|
    ensures p == p[..|p| - |r|] + r && AllSlashes(p[..|p| - |r|])
  {
    p[Slashes(p)..]
  }

  /** The `while x[0] == '/': x = x[1:]` loop of process_request and download_file.
      An all-slash path makes the source raise IndexError, so one character must be another. */
  method StripLeadingSlashes(p: string) returns (r: string)
    requires !AllSlashes(p)
    ensures r == Unslashed(p)
  {
    r := p;
    ghost var k := 0;
    while r[0] == '/'
      invariant k <= Slashes(p) && r == p[k..]
      decreases |r|
    {
      r := r[1..];
      k := k + 1;
    }
  }

  // ---------------------------------------------------------------------
  // Body drain

  /** The bytes the first `k` chunks bring. */
  function Received(c: seq<nat>, k: nat): nat
    requires k <= |c|
  {
    if k == 0 then 0 else Received(c, k - 1) + c[k - 1]
  }

  /** The bytes all chunks bring. */
  function Sum(c: seq<nat>): nat {
    Received(c, |c|)
  }

  /** More chunks bring no fewer bytes. */
  lemma {:induction false} ReceivedGrows(c: seq<nat>, j: nat, k: nat)
    requires j <= k <= |c|
    ensures Received(c, j) <= Received(c, k)
    decreases k - j
  {
    if j < k {
      ReceivedGrows(c, j, k - 1);
    }
  }

  /** `recv(BUFFER_SIZE)` on an open stream returns between 1 and BUFFER_SIZE bytes. */
  predicate ChunksOk(chunks: seq<nat>) {
    forall i :: 0 <= i < |chunks| ==> 1 <= chunks[i] <= BUFFER_SIZE
  }

  /** At least `n` bytes arrive, in the given chunks, from `pos` on. The source
      spins forever on a stream that closes earlier. */
  predicate BodyArrives(s: seq<char>, pos: nat, n: int, chunks: seq<nat>) {
    ChunksOk(chunks) && pos + Sum(chunks) <= |s| && n <= Sum(chunks)
  }

  function ReadsFrom(c: seq<nat>, n: int, k: nat): (r: nat)
    requires k <= |c| && n <= Sum(c)
    requires forall j :: 0 <= j < k ==> Received(c, j) < n
    ensures k <= r <= |c| && n <= Received(c, r)
    ensures forall j :: 0 <= j < r ==> Received(c, j) < n
    decreases |c| - k
  {
    if n <= Received(c, k) then k else ReadsFrom(c, n, k + 1)
  }

  /** The number of `recv` calls a drain loop makes: the fewest chunks that reach `n` bytes. */
  function ChunksRead(c: seq<nat>, n: int): (k: nat)
    requires n <= Sum(c)
    ensures k <= |c| && n <= Received(c, k)
    ensures forall j :: 0 <= j < k ==> Received(c, j) < n
  {
    ReadsFrom(c, n, 0)
  }

  /** The bytes a drain loop takes from the stream. */
  function Body(s: seq<char>, pos: nat, n: int, chunks: seq<nat>): (body: string)
    requires BodyArrives(s, pos, n, chunks)
    ensures |body| >= n
  {
    var k := ChunksRead(chunks, n);
    ReceivedGrows(chunks, k, |chunks|);
    s[pos..pos + Received(chunks, k)]
  }

  /** When the chunks add up to exactly the bytes wanted, the drain ends on the last
      chunk and the body is exactly that many bytes. */
  lemma BodyWhole(s: seq<char>, pos: nat, chunks: seq<nat>)
    requires BodyArrives(s, pos, Sum(chunks), chunks)
    ensures Body(s, pos, Sum(chunks), chunks) == s[pos..pos + Sum(chunks)]
  {
    var k := ChunksRead(chunks, Sum(chunks));
    ReceivedGrows(chunks, k, |chunks|);
  }

  /** The loop of print_file_from_socket, save_file_from_socket and read_file_from_socket:
      `recv` until the running total reaches `bytesToRead`. */
  method DrainBody(s: seq<char>, pos: nat, bytesToRead: int, chunks: seq<nat>)
    returns (body: string, recvCount: nat, next: nat)
    requires BodyArrives(s, pos, bytesToRead, chunks)
    ensures pos <= next <= |s| && body == s[pos..next]
    ensures recvCount <= |chunks| && |body| == Received(chunks, recvCount)
    ensures |body| >= bytesToRead
    ensures forall j :: 0 <= j < recvCount ==> Received(chunks, j) < bytesToRead
    ensures bytesToRead <= 0 ==> recvCount == 0 && body == []
    ensures bytesToRead > 0 ==> |body| < bytesToRead + BUFFER_SIZE
    ensures recvCount == ChunksRead(chunks, bytesToRead) && body == Body(s, pos, bytesToRead, chunks)
  {
    var bytesRead := 0;
    recvCount := 0;
    while bytesRead < bytesToRead
      invariant recvCount <= |chunks| && bytesRead == Received(chunks, recvCount)
      invariant forall j :: 0 <= j < recvCount ==> Received(chunks, j) < bytesToRead
      decreases |chunks| - recvCount
    {
      bytesRead := bytesRead + chunks[recvCount];
      recvCount := recvCount + 1;
    }
    ReceivedGrows(chunks, recvCount, |chunks|);
    next := pos + bytesRead;
    body := s[pos..next];
  }
}
