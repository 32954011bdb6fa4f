/** Probing the configured backends: `record_response_times` asks every server
    for a test file, keeps those that accept the connection with the measured
    latency, and orders them slowest first; `read_file_from_socket` consumes a
    probe reply. */
module Prober {
  import opened Text
  import opened Wire
  import opened Registry

  /** The file every probe asks for. */
  const TEST_FILE: string := "files/plshelp.txt"

  /** A probed entry: the configured host and port with the measured latency and weight 0. */
  function Probe(server: Server, time: int): (e: Server)
    ensures e.host == server.host && e.port == server.port && e.latency == time && e.weight == 0
  {
    Server(server.host, server.port, time, 0)
  }

  /** The entries that survive probing, in configuration order. `refused[i]` says
      whether server `i` refused the connection; `times[i]` is its measured latency. */
  function Probed(servers: seq<Server>, refused: seq<bool>, times: seq<int>): (r: seq<Server>)
    requires |refused| == |servers| && |times| == |servers|
    ensures |r| <= |servers|
    decreases |servers|
  {
    if servers == [] then []
    else
      var n := |servers| - 1;
      Probed(servers[..n], refused[..n], times[..n])
        + (if refused[n] then [] else [Probe(servers[n], times[n])])
  }

  /** One more server probed: its entry, if any, goes at the end. */
  lemma ProbeOneMore(servers: seq<Server>, refused: seq<bool>, times: seq<int>, i: nat)
    requires |refused| == |servers| && |times| == |servers| && i < |servers|
    ensures Probed(servers[..i + 1], refused[..i + 1], times[..i + 1])
         == Probed(servers[..i], refused[..i], times[..i])
            + (if refused[i] then [] else [Probe(servers[i], times[i])])
  {
    assert servers[..i + 1][..i] == servers[..i];
    assert refused[..i + 1][..i] == refused[..i];
    assert times[..i + 1][..i] == times[..i];
  }

  /** Every surviving entry is the probe of a server that accepted the connection. */
  lemma {:induction false} ProbedSound(servers: seq<Server>, refused: seq<bool>, times: seq<int>, e: Server)
    requires |refused| == |servers| && |times| == |servers|
    requires e in Probed(servers, refused, times)
    ensures exists i :: 0 <= i < |servers| && !refused[i] && e == Probe(servers[i], times[i])
    decreases |servers|
  {
    var n := |servers| - 1;
    if e in Probed(servers[..n], refused[..n], times[..n]) {
      ProbedSound(servers[..n], refused[..n], times[..n], e);
      var i :| 0 <= i < n && !refused[..n][i] && e == Probe(servers[..n][i], times[..n][i]);
      assert servers[..n][i] == servers[i] && refused[..n][i] == refused[i] && times[..n][i] == times[i];
    } else {
      assert !refused[n] && e == Probe(servers[n], times[n]);
    }
  }

  /** Every server that accepted the connection has its probe among the survivors. */
  lemma {:induction false} ProbedComplete(servers: seq<Server>, refused: seq<bool>, times: seq<int>, i: nat)
    requires |refused| == |servers| && |times| == |servers|
    requires i < |servers| && !refused[i]
    ensures Probe(servers[i], times[i]) in Probed(servers, refused, times)
    decreases |servers|
  {
    var n := |servers| - 1;
    if i < n {
      ProbedComplete(servers[..n], refused[..n], times[..n], i);
      assert servers[..n][i] == servers[i] && times[..n][i] == times[i];
    }
  }

  /** An entry survives probing exactly when it is the probe of a server that accepted the connection. */
  lemma ProbedEntries(servers: seq<Server>, refused: seq<bool>, times: seq<int>, e: Server)
    requires |refused| == |servers| && |times| == |servers|
    ensures e in Probed(servers, refused, times) <==>
            exists i :: 0 <= i < |servers| && !refused[i] && e == Probe(servers[i], times[i])
  {
    if e in Probed(servers, refused, times) {
      ProbedSound(servers, refused, times, e);
    }
    if exists i :: 0 <= i < |servers| && !refused[i] && e == Probe(servers[i], times[i]) {
      var i :| 0 <= i < |servers| && !refused[i] && e == Probe(servers[i], times[i]);
      ProbedComplete(servers, refused, times, i);
    }
  }

  // ---------------------------------------------------------------------
  // The sort at `sorted_server_list.sort(reverse = True, key = get_time)`

  /** Latencies do not increase along the list: slowest first. */
  predicate SlowestFirst(t: seq<Server>) {
    forall i, j :: 0 <= i < j < |t| ==> t[i].latency >= t[j].latency
  }

  /** Inserts `x` into a slowest-first list in front of the first entry that is not slower. */
  function Insert(x: Server, t: seq<Server>): (r: seq<Server>)
    ensures |r| == |t| + 1
    ensures r[0] == x || (t != [] && r[0] == t[0])
    ensures multiset(r) == multiset(t) + multiset{x}
  {
    if t == [] || t[0].latency <= x.latency then [x] + t
    else
      assert t == [t[0]] + t[1..];
      [t[0]] + Insert(x, t[1..])
  }

  /** A stable sort by descending latency: Python's `list.sort(reverse=True, key=...)`
      keeps entries with equal keys in their original order. */
  function SortByLatency(t: seq<Server>): (r: seq<Server>)
    ensures |r| == |t|
    decreases |t|
  {
    if t == [] then [] else Insert(t[0], SortByLatency(t[1..]))
  }

  lemma {:induction false} InsertSlowestFirst(x: Server, t: seq<Server>)
    requires SlowestFirst(t)
    ensures SlowestFirst(Insert(x, t))
    decreases |t|
  {
    if t != [] && t[0].latency > x.latency {
      InsertSlowestFirst(x, t[1..]);
      var r' := Insert(x, t[1..]);
      assert r'[0].latency <= t[0].latency;
      assert forall k :: 0 <= k < |r'| ==> r'[k].latency <= r'[0].latency;
    }
  }

  /** After the sort, latencies are non-increasing. */
  lemma {:induction false} SortSlowestFirst(t: seq<Server>)
    ensures SlowestFirst(SortByLatency(t))
    decreases |t|
  {
    if t != [] {
      SortSlowestFirst(t[1..]);
      InsertSlowestFirst(t[0], SortByLatency(t[1..]));
    }
  }

  /** The sort only reorders: the result is a permutation of its input. */
  lemma {:induction false} SortPermutes(t: seq<Server>)
    ensures multiset(SortByLatency(t)) == multiset(t)
    decreases |t|
  {
    if t != [] {
      SortPermutes(t[1..]);
      assert t == [t[0]] + t[1..];
    }
  }

  /** The entries whose latency is `v`, in list order. */
  function WithLatency(t: seq<Server>, v: int): seq<Server>
    decreases |t|
  {
    if t == [] then [] else (if t[0].latency == v then [t[0]] else []) + WithLatency(t[1..], v)
  }

  lemma {:induction false} InsertWithLatency(x: Server, t: seq<Server>, v: int)
    requires SlowestFirst(t)
    ensures WithLatency(Insert(x, t), v) ==
            if x.latency == v then [x] + WithLatency(t, v) else WithLatency(t, v)
    decreases |t|
  {
    if t == [] || t[0].latency <= x.latency {
      assert Insert(x, t) == [x] + t;
      assert ([x] + t)[1..] == t;
    } else {
      var r := Insert(x, t[1..]);
      assert Insert(x, t) == [t[0]] + r;
      assert forall i, j :: 0 <= i < j < |t[1..]| ==> t[1..][i] == t[i + 1] && t[1..][j] == t[j + 1];
      InsertWithLatency(x, t[1..], v);
      assert ([t[0]] + r)[1..] == r;
      // x is faster than t[0], so when x has latency v, t[0] does not
      assert x.latency == v ==> t[0].latency != v;
    }
  }

  /** The sort is stable: entries of equal latency keep their relative order. */
  lemma {:induction false} SortStable(t: seq<Server>, v: int)
    ensures WithLatency(SortByLatency(t), v) == WithLatency(t, v)
    decreases |t|
  {
    if t != [] {
      SortStable(t[1..], v);
      SortSlowestFirst(t[1..]);
      InsertWithLatency(t[0], SortByLatency(t[1..]), v);
    }
  }

  // ---------------------------------------------------------------------
  // record_response_times

  /** record_response_times. The outcome of each probe comes in as `refused[i]`
      (the connection was refused) and `times[i]` (the measured latency). Returns
      the request sent to each server that accepted, in probing order, and the
      sorted list. */
  method RecordResponseTimes(servers: seq<Server>, refused: seq<bool>, times: seq<int>)
    returns (requests: seq<string>, sorted: seq<Server>)
    requires |refused| == |servers| && |times| == |servers|
    ensures sorted == SortByLatency(Probed(servers, refused, times))
    ensures |requests| == |sorted|
    ensures forall k :: 0 <= k < |requests| ==>
              requests[k] == PrepareGetMessage(Probed(servers, refused, times)[k].host,
                                               Probed(servers, refused, times)[k].port, TEST_FILE)
  {
    requests := [];
    sorted := [];
    for i := 0 to |servers|
      invariant sorted == Probed(servers[..i], refused[..i], times[..i])
      invariant |requests| == |sorted|
      invariant forall k :: 0 <= k < |requests| ==>
                  requests[k] == PrepareGetMessage(sorted[k].host, sorted[k].port, TEST_FILE)
    {
      ProbeOneMore(servers, refused, times, i);
      if refused[i] {
        continue;
      }
      var message := PrepareGetMessage(servers[i].host, servers[i].port, TEST_FILE);
      requests := requests + [message];
      sorted := sorted + [Probe(servers[i], times[i])];
    }
    assert servers[..|servers|] == servers && refused[..|servers|] == refused && times[..|servers|] == times;
    sorted := SortByLatency(sorted);
  }

  // ---------------------------------------------------------------------
  // read_file_from_socket

  /** A probe reply the source reads to its end: a complete header block whose
      `Content-Length:` values parse, at least one of them (otherwise
      `bytes_to_read` is unbound), and that many body bytes arriving. */
  predicate ProbeReplyOk(s: seq<char>, pos: nat, chunks: seq<nat>) {
    && HasHeaderBlock(s, pos)
    && AllContentLengthOk(HeaderLines(s, pos))
    && LastContentLength(HeaderLines(s, pos)).Some?
    && BodyArrives(s, HeaderEnd(s, pos), LastContentLength(HeaderLines(s, pos)).value, chunks)
  }

  /** The header loop of read_file_from_socket: reads lines up to the empty one,
      keeping the value of the last `Content-Length:` line. */
  method SkipHeaders(s: seq<char>, pos: nat) returns (length: Option<nat>, p: nat)
    requires HasHeaderBlock(s, pos) && AllContentLengthOk(HeaderLines(s, pos))
    ensures length == LastContentLength(HeaderLines(s, pos))
    ensures p == HeaderEnd(s, pos)
  {
    p := pos;
    length := None;
    var done := false;
    ghost var seen: seq<string> := [];
    ScanStart(s, pos);
    while !done
      invariant pos <= p <= |s|
      invariant AllContentLengthOk(seen) && length == LastContentLength(seen)
      invariant !done ==> Scanning(s, pos, p, seen)
      invariant done ==> seen == HeaderLines(s, pos) && p == HeaderEnd(s, pos)
      decreases |s| - p
    {
      ScanStep(s, pos, p, seen);
      var line, after := GetLineFromSocket(s, p);
      if line == [] {
        done := true;
      } else {
        var fields := Split(line, ' ');
        LastContentLengthSnoc(seen, line);
        if fields[0] == "Content-Length:" {
          length := Some(NumeralValue(fields[1]));
        }
        seen := seen + [line];
      }
      p := after;
    }
  }

  /** read_file_from_socket: skips the header block keeping the last
      `Content-Length:`, then drains that many bytes. */
  method ReadFileFromSocket(s: seq<char>, pos: nat, chunks: seq<nat>) returns (bytesToRead: nat, next: nat)
    requires ProbeReplyOk(s, pos, chunks)
    ensures bytesToRead == LastContentLength(HeaderLines(s, pos)).value
    ensures next == HeaderEnd(s, pos) + |Body(s, HeaderEnd(s, pos), bytesToRead, chunks)|
    ensures next >= HeaderEnd(s, pos) + bytesToRead
  {
    var length, p := SkipHeaders(s, pos);
    bytesToRead := length.value;
    var body, recvCount, rest := DrainBody(s, p, bytesToRead, chunks);
    next := rest;
  }
}
