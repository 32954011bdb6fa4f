/** The server registry: `init_server_list` turns the lines of the
    configuration file into backend entries. */
module Registry {
  import opened Text

  /** A backend entry, the source's tuple `(host_name, port_number, response_time, ratio)`.
      The port stays the text the configuration gave; the latency is an abstract
      ordered value; the weight is the cumulative selection weight. */
  datatype Server = Server(host: string, port: string, latency: int, weight: int)

  /** The lines `readline` hands out before end of file. `readline` returns an
      empty string only at end of file, so the first empty entry ends the file. */
  function ConfigLines(file: seq<string>): (lines: seq<string>)
    ensures |lines| <= |file| && lines == file[..|lines|]
    ensures forall i :: 0 <= i < |lines| ==> lines[i] != ""
    ensures |lines| == |file| || file[|lines|] == ""
    decreases |file|
  {
    if file == [] || file[0] == "" then []
    else
      var rest := ConfigLines(file[1..]);
      assert file[..|rest| + 1] == [file[0]] + file[1..][..|rest|];
      [file[0]] + rest
  }

  /** One configuration line: skipped when it holds no `:`; otherwise the host is
      the first `:`-field and the port is the second `:`-field less its last
      character (the line feed, when there is one). */
  function ParseConfigLine(line: string): (r: Option<Server>)
    ensures r.None? <==> ':' !in line
    ensures r.Some? ==> r.value.latency == 0 && r.value.weight == 0 && ':' !in r.value.host
    ensures r.Some? ==> |r.value.host| < |line| && line[..|r.value.host|] == r.value.host && line[|r.value.host|] == ':'
    ensures r.Some? ==> r.value.port == DropLast(Split(line[|r.value.host| + 1..], ':')[0])
  {
    if ':' !in line then None
    else
      var fields := Split(line, ':');
      Some(Server(fields[0], DropLast(fields[1]), 0, 0))
  }

  /** What one line contributes to the list: its entry, or nothing. */
  function Entry(line: string): seq<Server> {
    match ParseConfigLine(line)
    case Some(e) => [e]
    case None => []
  }

  /** The entries accepted from the lines, in file order. */
  function Accepted(lines: seq<string>): (r: seq<Server>)
    ensures |r| <= |lines|
    ensures forall k :: 0 <= k < |r| ==> r[k].latency == 0 && r[k].weight == 0
    decreases |lines|
  {
    if lines == [] then []
    else
      var n := |lines| - 1;
      Accepted(lines[..n]) + Entry(lines[n])
  }

  /** The warning line `n` (counting from 1) gives: its ordinal when it holds no `:`. */
  function Warned(line: string, n: nat): seq<nat> {
    if ':' in line then [] else [n]
  }

  /** The 1-based ordinals of the skipped lines: `server_count` advances on every line. */
  function Warnings(lines: seq<string>): (w: seq<nat>)
    ensures |w| <= |lines|
    ensures forall i :: 0 <= i < |w| ==> 1 <= w[i] <= |lines|
    decreases |lines|
  {
    if lines == [] then []
    else
      var n := |lines| - 1;
      Warnings(lines[..n]) + Warned(lines[n], n + 1)
  }

  /** One more line read: its entry and warning go at the end. */
  lemma ReadOneMore(lines: seq<string>, k: nat)
    requires k < |lines|
    ensures Accepted(lines[..k + 1]) == Accepted(lines[..k]) + Entry(lines[k])
    ensures Warnings(lines[..k + 1]) == Warnings(lines[..k]) + Warned(lines[k], k + 1)
  {
    assert lines[..k + 1][..k] == lines[..k];
    assert lines[..k + 1][k] == lines[k];
  }

  /** Reading position `k` of the file: a line is handed out exactly when the
      file has not yet ended there, and it is the file's own entry. */
  lemma ReadPosition(file: seq<string>, k: nat)
    requires k <= |ConfigLines(file)|
    ensures k < |ConfigLines(file)| <==> k < |file| && file[k] != ""
    ensures k < |ConfigLines(file)| ==> ConfigLines(file)[k] == file[k]
  {
    var lines := ConfigLines(file);
    if k < |lines| {
      assert lines[k] == file[..|lines|][k];
    }
  }

  /** init_server_list over the successive `readline` results of the file. */
  method InitServerList(file: seq<string>) returns (servers: seq<Server>, warnings: seq<nat>)
    ensures servers == Accepted(ConfigLines(file))
    ensures warnings == Warnings(ConfigLines(file))
  {
    servers := [];
    warnings := [];
    var serverCount := 0;
    ghost var lines := ConfigLines(file);
    while true
      invariant serverCount <= |lines|
      invariant servers == Accepted(lines[..serverCount])
      invariant warnings == Warnings(lines[..serverCount])
      decreases |lines| - serverCount
    {
      ReadPosition(file, serverCount);
      serverCount := serverCount + 1;
      if serverCount > |file| || file[serverCount - 1] == "" {
        assert lines[..serverCount - 1] == lines;
        break;
      }
      var line := file[serverCount - 1];
      ReadOneMore(lines, serverCount - 1);
      if ':' !in line {
        warnings := warnings + [serverCount];
      } else {
        var fields := Split(line, ':');
        servers := servers + [Server(fields[0], DropLast(fields[1]), 0, 0)];
      }
    }
  }

  /** Accepting distributes over concatenation of line lists, so accepted entries keep file order. */
  lemma {:induction false} AcceptedAppend(a: seq<string>, b: seq<string>)
    ensures Accepted(a + b) == Accepted(a) + Accepted(b)
    decreases |b|
  {
    if b == [] {
      assert a + b == a;
    } else {
      var n := |b| - 1;
      assert (a + b)[..|a + b| - 1] == a + b[..n];
      assert (a + b)[|a + b| - 1] == b[n];
      AcceptedAppend(a, b[..n]);
    }
  }

  /** Every line is either accepted or warned about; every accepted entry starts with latency and weight 0. */
  lemma {:induction false} AcceptedOrWarned(lines: seq<string>)
    ensures |Accepted(lines)| + |Warnings(lines)| == |lines|
    ensures forall k :: 0 <= k < |Accepted(lines)| ==>
              Accepted(lines)[k].latency == 0 && Accepted(lines)[k].weight == 0
    decreases |lines|
  {
    if lines != [] {
      AcceptedOrWarned(lines[..|lines| - 1]);
    }
  }

  /** A warning carries ordinal `w` exactly when line `w` (counting from 1) has no `:`. */
  lemma {:induction false} WarningOrdinals(lines: seq<string>, w: int)
    ensures w in Warnings(lines) <==> 1 <= w <= |lines| && ':' !in lines[w - 1]
    decreases |lines|
  {
    if lines != [] {
      var n := |lines| - 1;
      WarningOrdinals(lines[..n], w);
      assert w in Warnings(lines) <==> w in Warnings(lines[..n]) || w in Warned(lines[n], n + 1);
      if 1 <= w <= n {
        assert lines[..n][w - 1] == lines[w - 1];
      }
    }
  }

  /** A well-formed record `host:port` and its line feed read back as that host and port. */
  lemma ConfigLineRoundTrip(host: string, port: string)
    requires ':' !in host && ':' !in port
    ensures ParseConfigLine(host + ":" + port + "\n") == Some(Server(host, port, 0, 0))
  {
    var line := host + ":" + port + "\n";
    assert line == host + [':'] + (port + "\n");
    SplitCons(host, ':', port + "\n");
    assert ':' !in port + "\n";
    assert (port + "\n")[..|port|] == port;
  }

  /** A last record with no line feed loses the last character of its port. */
  lemma UnterminatedLastLine()
    ensures ParseConfigLine("b.com:81") == Some(Server("b.com", "8", 0, 0))
  {
    assert "b.com:81" == "b.com" + [':'] + "81";
    SplitCons("b.com", ':', "81");
    assert ':' !in "81";
    assert Split("81", ':') == ["81"];
    assert DropLast("81") == "8";
  }

  /** A record line `host:port` with its line feed contributes that entry. */
  lemma EntryOf(line: string, host: string, port: string)
    requires ':' !in host && ':' !in port && line == host + ":" + port + "\n"
    ensures ':' in line && Entry(line) == [Server(host, port, 0, 0)]
  {
    ConfigLineRoundTrip(host, port);
    assert line[|host|] == ':';
  }

  /** A file in which no read comes back empty is read whole. */
  lemma ReadWhole(file: seq<string>)
    requires forall i :: 0 <= i < |file| ==> file[i] != ""
    ensures ConfigLines(file) == file
  {
    var lines := ConfigLines(file);
    assert |lines| == |file|;
    assert file[..|file|] == file;
  }

  /** A three-line file without an empty line is read whole. */
  lemma ReadThree(file: seq<string>)
    requires |file| == 3 && file[0] != "" && file[1] != "" && file[2] != ""
    ensures ConfigLines(file) == file
  {
    ReadWhole(file);
  }

  /** Three lines give the entries and warnings of each, in order. */
  lemma ThreeLines(lines: seq<string>)
    requires |lines| == 3
    ensures Accepted(lines) == Entry(lines[0]) + Entry(lines[1]) + Entry(lines[2])
    ensures Warnings(lines) == Warned(lines[0], 1) + Warned(lines[1], 2) + Warned(lines[2], 3)
  {
    var two, one := lines[..2], lines[..1];
    assert two[..1] == one && one[..0] == [];
    assert Accepted(one) == Entry(lines[0]) && Warnings(one) == Warned(lines[0], 1);
    assert Accepted(two) == Entry(lines[0]) + Entry(lines[1]);
    assert Warnings(two) == Warned(lines[0], 1) + Warned(lines[1], 2);
  }

  /** Three lines of which the first and last are records and the middle one is not. */
  lemma TwoRecordsOneSkip(lines: seq<string>, a: Server, b: Server)
    requires |lines| == 3 && ':' in lines[0] && ':' !in lines[1] && ':' in lines[2]
    requires Entry(lines[0]) == [a] && Entry(lines[1]) == [] && Entry(lines[2]) == [b]
    ensures Accepted(lines) == [a, b] && Warnings(lines) == [2]
  {
    ThreeLines(lines);
    assert Warned(lines[0], 1) == [] && Warned(lines[1], 2) == [2] && Warned(lines[2], 3) == [];
  }

  /** Two records around a line without a `:` give the two entries and one warning, for line 2. */
  lemma RecordsAroundSkipped(file: seq<string>, a: Server, b: Server)
    requires ':' !in a.host && ':' !in a.port && ':' !in b.host && ':' !in b.port
    requires a.latency == 0 && a.weight == 0 && b.latency == 0 && b.weight == 0
    requires |file| == 3 && file[1] != "" && ':' !in file[1]
    requires file[0] == a.host + ":" + a.port + "\n" && file[2] == b.host + ":" + b.port + "\n"
    ensures Accepted(ConfigLines(file)) == [a, b]
    ensures Warnings(ConfigLines(file)) == [2]
  {
    assert file[0] != "" && file[2] != "" by {
      assert |file[0]| == |a.host| + |a.port| + 2 && |file[2]| == |b.host| + |b.port| + 2;
    }
    ReadThree(file);
    EntryOf(file[0], a.host, a.port);
    EntryOf(file[2], b.host, b.port);
    assert Entry(file[1]) == [];
    TwoRecordsOneSkip(file, a, b);
  }

  /** The file `a.com:80`, `bad-line`, `b.com:81` yields two entries and one warning, for line 2. */
  lemma RegistryExample(file: seq<string>)
    requires file == ["a.com:80\n", "bad-line\n", "b.com:81\n"]
    ensures Accepted(ConfigLines(file)) == [Server("a.com", "80", 0, 0), Server("b.com", "81", 0, 0)]
    ensures Warnings(ConfigLines(file)) == [2]
  {
    var a, b := Server("a.com", "80", 0, 0), Server("b.com", "81", 0, 0);
    var bad := "bad-line\n";
    assert ':' !in a.host && ':' !in a.port && ':' !in b.host && ':' !in b.port && ':' !in bad;
    RecordsAroundSkipped(file, a, b);
  }

  /** A file in which no line names a server configures no backend and warns about every line. */
  lemma {:induction false} NoServerConfigured(lines: seq<string>)
    requires forall i :: 0 <= i < |lines| ==> ':' !in lines[i]
    ensures Accepted(lines) == []
    ensures |Warnings(lines)| == |lines|
    decreases |lines|
  {
    if lines != [] {
      NoServerConfigured(lines[..|lines| - 1]);
    }
  }
}
