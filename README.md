# Weighted HTTP load balancer and its client, modelled in Dafny

The system is a small HTTP/1.1 load balancer and a command-line client.

**The balancer**
- It reads a configuration file of `host:port` lines.
- It probes each backend by fetching a test file.
- It orders the backends that answered slowest first, then gives the k-th entry the triangular weight k(k+1)/2.
- On each connection it reads the GET request and draws a random integer between 1 and the last weight. It redirects the client with a `301` to the first backend whose weight reaches the draw. With no backend left it answers `503`.
- When `accept` times out, it probes again and rebuilds the weighted list.

**The client**
- It sends one GET and reads the status line.
- On `200` it saves the body under the file's base name.
- On `301` it follows the `Location` header once.
- On any other code it prints the error reply and exits.

Both programs share a small framing codec:
- lines are read byte by byte up to `\n`, with every `\r` dropped;
- header lines are split on single spaces;
- the body length comes from `Content-Length:`.

The model takes the source's shapes:
- Loops that build or scan become methods with loop invariants, each proved against a specification function:
  - `GetLineFromSocket`, `InitServerList`, `ComputeServerAvailability`, `AssignServer`, `StripLeadingSlashes`;
  - the header scans in `SkipHeaders`, `HandleErrorResponse` and `DownloadFile`;
  - the body drain in `DrainBody` and the chunked send in `SendFile`.
- Pure string builders become functions: `PrepareGetMessage`, `PrepareResponseMessage`, `Location`, `ContentType`.
- A socket is a `seq<char>` with a read cursor.
- The sizes `recv` hands back are an oracle sequence `chunks` (each 1 to `BUFFER_SIZE`).
- The probe outcomes, probe latencies, random draw, date text and page contents are parameters.

Modules:

| Module | Contents |
|---|---|
| `Text` | splitting on a separator, whitespace words, decimal numerals |
| `Wire` | line reading, header blocks, `Content-Length:`, the GET builder, slash stripping, body draining |
| `Registry` | `init_server_list` |
| `Prober` | `record_response_times`, the latency sort, `read_file_from_socket` |
| `Selector` | `compute_server_availability`, `assign_server` |
| `Dispatch` | `process_request`, the response head, `redirect_request`, one turn of `main`'s loop |
| `Client` | the client's header scans, download and status branch |
| `Exchange` | lemmas joining the two programs: what the balancer writes, the client reads back |

## Model

| member | source | states |
|---|---|---|
| Text.Split | balancer/balancer.py:135 | `str.split(sep)`: at least one part, at least two when the separator occurs, no part holds the separator |
| Text.SplitJoin | client/client.py:87 | splitting the joined parts gives back the parts, when no part holds the separator |
| Text.JoinSplit | client/client.py:87 | joining the parts of a split gives back the text |
| Text.Words | balancer/balancer.py:207 | `str.split()`: the non-empty whitespace-free runs of the text |
| Text.WordsCons | balancer/balancer.py:207 | a word followed by whitespace and the rest splits into that word and the rest's words |
| Text.NumeralOfDecimal | balancer/balancer.py:275 | `int(str(n)) == n` for the written file size |
| Wire.NextNewline | balancer/balancer.py:151-162 | the first `\n` at or after the cursor, with none before it |
| Wire.GetLineFromSocket | balancer/balancer.py:151-162 | consumes exactly through the first `\n`; returns the characters before it with every `\r` dropped; the line holds neither `\r` nor `\n` |
| Wire.LineEnd | client/client.py:61-72 | a line read holds neither `\r` nor `\n` |
| Wire.ReadCRLFLine | balancer/balancer.py:151-162 | text free of line breaks followed by CR LF reads back as that text and the cursor moves past the LF |
| Wire.HeaderStep | balancer/balancer.py:132-142 | an empty line ends the header block; a non-empty line is the block's first line |
| Wire.ScanStep | client/client.py:84-96 | each turn of a header scan reads the next header line of the block, or ends the block |
| Wire.ReadHeaderBlock | balancer/balancer.py:132-142 | CR LF terminated lines plus an empty line read back as those header lines, ending after the empty line |
| Wire.LastContentLength | client/client.py:147-153 | no length exactly when no header line is a `Content-Length:` line |
| Wire.LastContentLengthSnoc | client/client.py:147-153 | a later `Content-Length:` overrides an earlier one; other headers leave the value unchanged |
| Wire.LastContentLengthAppend | client/client.py:147-153 | the last `Content-Length:` of two blocks is the second's, or the first's when the second has none |
| Wire.PrepareGetMessage | client/client.py:54-56 | the request starts with `GET ` and the path and ends with the blank line CR LF CR LF |
| Wire.GetMessageLines | balancer/balancer.py:122-124 | the GET request is the request line `GET path HTTP/1.1`, the `Host: host:port` line and an empty line, each closed by CR LF |
| Wire.Slashes | client/client.py:142-143 | the count of leading `/`, followed by a character that is not `/` |
| Wire.Unslashed | balancer/balancer.py:214-216 | the path is a run of `/` followed by the result, which is non-empty and does not start with `/` |
| Wire.StripLeadingSlashes | client/client.py:142-143 | the loop removing the first character while it is `/` computes exactly that suffix |
| Wire.ReceivedGrows | client/client.py:100-105 | the bytes received never decrease as more reads happen |
| Wire.ChunksRead | client/client.py:162-166 | the number of reads the drain makes: the first count whose total reaches the length, with every shorter count short of it |
| Wire.Body | client/client.py:162-166 | the drained bytes are at least the requested length |
| Wire.BodyWhole | client/client.py:162-166 | when the reads add up exactly to the length, the drained bytes are exactly that many bytes of the stream |
| Wire.DrainBody | client/client.py:158-167 | the drain loop stops at the first read whose total reaches `bytes_to_read`; with 0 it reads nothing; it overshoots by less than `BUFFER_SIZE` |
| Registry.ConfigLines | balancer/balancer.py:49-56 | `readline` hands out the file's lines up to the first empty read |
| Registry.ParseConfigLine | balancer/balancer.py:59-68 | a line is skipped exactly when it holds no `:`; the host is the text before the first `:`; the port is the text after it up to the next `:`, its last character dropped; latency and weight are 0 |
| Registry.Accepted | balancer/balancer.py:49-70 | at most one entry per line, each with latency 0 and weight 0 |
| Registry.Warnings | balancer/balancer.py:49-70 | at most one warning per line, each a line number between 1 and the number of lines |
| Registry.ReadOneMore | balancer/balancer.py:49-70 | each line read adds its entry, or its warning with the 1-based line number |
| Registry.ReadPosition | balancer/balancer.py:49-56 | a line is handed out exactly when the file has one there and it is not empty |
| Registry.InitServerList | balancer/balancer.py:44-73 | the loop returns the accepted entries and the warnings of the lines read |
| Registry.AcceptedAppend | balancer/balancer.py:49-70 | accepted entries keep file order |
| Registry.AcceptedOrWarned | balancer/balancer.py:49-70 | every line is either accepted or warned about; accepted entries start with latency 0 and weight 0 |
| Registry.WarningOrdinals | balancer/balancer.py:49-63 | a warning names line w exactly when line w has no `:`, because the counter advances on every line |
| Registry.ConfigLineRoundTrip | balancer/balancer.py:65-66 | `host:port` with its line feed parses to that host and port |
| Registry.UnterminatedLastLine | balancer/balancer.py:66 | a last line without line feed loses the last digit of its port |
| Registry.EntryOf | balancer/balancer.py:65-68 | a record line contributes exactly its entry |
| Registry.ReadWhole | balancer/balancer.py:49-56 | a file without empty reads is read whole |
| Registry.RecordsAroundSkipped | balancer/balancer.py:49-70 | two records around a malformed line give two entries in order and one warning, for line 2 |
| Registry.RegistryExample | balancer/balancer.py:44-73 | a concrete three-line file gives two entries and the warning for line 2 |
| Registry.NoServerConfigured | balancer/balancer.py:49-70 | a file in which no line holds `:` yields no entries and warns about every line |
| Prober.Probed | balancer/balancer.py:86-114 | the surviving entries are no more than the configured servers |
| Prober.ProbeOneMore | balancer/balancer.py:86-114 | each probed server that answers appends its entry at the end |
| Prober.ProbedSound | balancer/balancer.py:89-95 | every surviving entry is the probe of a server that was not refused |
| Prober.ProbedComplete | balancer/balancer.py:110-114 | every server that was not refused has its probe among the survivors |
| Prober.ProbedEntries | balancer/balancer.py:86-114 | an entry survives exactly when it is the probe of a server that was not refused |
| Prober.Probe | balancer/balancer.py:114 | the probed entry keeps the host and port, carries the measured latency and weight 0 |
| Prober.SortByLatency | balancer/balancer.py:117 | the sort keeps the length; its order and permutation are stated by `Prober.SortSlowestFirst`, `Prober.SortPermutes` and `Prober.SortStable` |
| Prober.Insert | balancer/balancer.py:117 | insertion adds exactly the new entry to the multiset |
| Prober.InsertSlowestFirst | balancer/balancer.py:117 | inserting into a slowest-first list keeps it slowest first |
| Prober.SortSlowestFirst | balancer/balancer.py:117 | after the sort, latencies do not increase |
| Prober.SortPermutes | balancer/balancer.py:117 | the sort is a permutation of its input |
| Prober.InsertWithLatency | balancer/balancer.py:117 | inserting keeps the relative order of entries of any one latency |
| Prober.SortStable | balancer/balancer.py:117 | entries of equal latency keep their relative order, as Python's sort does |
| Prober.RecordResponseTimes | balancer/balancer.py:79-118 | the sorted survivors, and one GET for the test file per probed server |
| Prober.SkipHeaders | balancer/balancer.py:129-140 | reads the header block up to the empty line; the length kept is the value of the last `Content-Length:` line, none if there is none |
| Prober.ReadFileFromSocket | balancer/balancer.py:128-146 | the last `Content-Length:` of the block is the length drained; the cursor ends after the body |
| Selector.Tri | balancer/balancer.py:178-182 | the running `availability_factor` after k steps is at least k |
| Selector.TriClosedForm | balancer/balancer.py:172-184 | the running sum 1 + 2 + ... + k is k(k+1)/2 |
| Selector.TriIncreasing | balancer/balancer.py:172-184 | the running sums strictly increase |
| Selector.Weighted | balancer/balancer.py:172-184 | the weighted list has one entry per server |
| Selector.ComputeServerAvailability | balancer/balancer.py:172-184 | the loop gives entry k the weight Tri(k+1) |
| Selector.WeightedEntries | balancer/balancer.py:172-184 | same length and order; host, port and latency unchanged; the k-th weight (from 0) is (k+1)(k+2)/2 |
| Selector.WeightsIncrease | balancer/balancer.py:172-184 | the weights strictly increase along the list |
| Selector.LastWeight | balancer/balancer.py:231-234 | the last weight of N entries is N(N+1)/2, the upper end of the draw |
| Selector.FirstCovering | balancer/balancer.py:239-243 | the index of the first entry whose weight reaches the draw; every earlier entry is below it |
| Selector.AssignServer | balancer/balancer.py:223-245 | no server exactly when the list is empty; otherwise the first entry whose weight reaches the draw |
| Selector.SelectionBands | balancer/balancer.py:223-245 | on a weighted list, entry i takes exactly the draws above Tri(i) and up to Tri(i+1) |
| Dispatch.ProcessRequest | balancer/balancer.py:201-218 | the second word of the request line without leading `/`; the cursor ends after the first empty line |
| Dispatch.PrepareResponseMessage | balancer/balancer.py:289-297 | the status part starts with `HTTP/1.1 ` and is exactly that bare prefix when the code is neither `301` nor `503` |
| Dispatch.ContentType | balancer/balancer.py:265-268 | the announced type is `text/html` or `application/octet-stream` |
| Dispatch.ResponseHead | balancer/balancer.py:274-275 | the head starts with the status part and ends with the blank line CR LF CR LF |
| Dispatch.ContentTypeCases | balancer/balancer.py:265-268 | `text/html` exactly for names ending in `.html` or `.htm`, otherwise `application/octet-stream` |
| Dispatch.SendFile | balancer/balancer.py:278-285 | the pieces sent spell the whole file; each is non-empty and at most `BUFFER_SIZE` long, and all but the last are exactly `BUFFER_SIZE` |
| Dispatch.SendResponseToClient | balancer/balancer.py:263-285 | sends the head and then the whole file, in the pieces `Dispatch.SendFile` states |
| Dispatch.Location | balancer/balancer.py:255 | an `http://` URL naming the backend's host, followed by `/` and the requested file |
| Dispatch.RedirectRequest | balancer/balancer.py:249-259 | a 301 whose `Location` is `http://host:port/` plus the file, with the 301 page |
| Dispatch.HandleConnection | balancer/balancer.py:316-330 | an empty list gives the 503 reply; otherwise the 301 to the entry chosen by the draw, with the stripped path |
| Dispatch.AnalyzeServerPerformance | balancer/balancer.py:30-40 | the list rebuilt from the configuration, the probes and the weights |
| Dispatch.AnalyzedTableOrder | balancer/balancer.py:30-40 | the rebuilt list is slowest first with weights 1, 3, 6, ... |
| Dispatch.AnalyzedTableEntries | balancer/balancer.py:30-40 | every rebuilt entry comes from a configured server that was not refused, carrying its latency |
| Dispatch.MainStep | balancer/balancer.py:313-338 | a connection is answered from the current list and leaves it unchanged; a timeout rebuilds the list and sends nothing |
| Dispatch.NoServersMeansUnavailable | balancer/balancer.py:225-228 | a configuration without any record gives an empty list, hence a 503 |
| Dispatch.SortExample | balancer/balancer.py:117 | latencies 5, 2, 8 sort to 8, 5, 2 |
| Dispatch.DrawExample | balancer/balancer.py:239-243 | with weights 1, 3, 6: draw 1 takes the first entry, draws 2 and 3 the second, draws 4 and 6 the third |
| Dispatch.DispatchExample | balancer/balancer.py:30-40 | latencies 5, 2, 8 weighted 1, 3, 6 in order 8, 5, 2; draw 4 lands on the fastest |
| Client.LastLocation | client/client.py:92-93 | no location exactly when no header line is a `Location:` line |
| Client.StatusCode | client/client.py:180 | the status token holds no space |
| Client.LastLocationAppend | client/client.py:84-96 | the last `Location:` of two blocks is the second's, or the first's when the second has none |
| Client.LastLocationSnoc | client/client.py:84-96 | a later `Location:` overrides an earlier one; other headers leave the value unchanged |
| Client.HandleErrorResponse | client/client.py:76-96 | the last `Location:` value, or `''` without one; prints the body the last `Content-Length:` gives (0 without one) |
| Client.Basename | client/client.py:159 | the text after the last `/`: a suffix of the path holding no `/` |
| Client.SaveFileFromSocket | client/client.py:158-167 | saves the drained body under `./` plus the base name |
| Client.DownloadFile | client/client.py:137-154 | strips the leading `/` and saves the body of the last `Content-Length:` length, 0 without one |
| Client.ReadReply | client/client.py:178-195 | `200` exactly saves; `301` exactly redirects when redirects are followed; anything else fails with that code |
| Client.RunClient | client/client.py:171-195 | sends the GET for the file and acts on the reply; on a 301 it returns the redirect location |
| Client.RedirectRequest | client/client.py:109-133 | the redirected request treats a 301 like any other error and never redirects again |
| Exchange.RequestRoundTrip | client/client.py:54-56 | the GET the client builds is read by `process_request` with the path the client asked for |
| Exchange.ResponseHeadLines | balancer/balancer.py:272-297 | a 301 or 503 head is the status line, four header lines and the blank line, each closed by CR LF |
| Exchange.OtherCodeHead | balancer/balancer.py:289-297 | for any other code the head's second space-separated token is `Content-Type:` |
| Exchange.OtherCodeStatus | client/client.py:179-184 | for any other code, the status code the client takes from the first line it reads is `Content-Type:` |
| Exchange.StatusToken | client/client.py:179-184 | the status line's second space-separated token is the code |
| Exchange.ReplyHeaderFields | client/client.py:84-93 | the balancer's headers parse back to the file size and, when it has no space, the location |
| Exchange.ResponseBlock | balancer/balancer.py:272-275 | the client reads the balancer's head as the status line and the four header lines, ending where the page starts |
| Exchange.ResponseRoundTrip | balancer/balancer.py:263-297 | a 301 or 503 reply parses back: status token is the code, body length is the page size, location is the one sent |
| Exchange.ReplyOutcomeOfResponse | client/client.py:178-195 | the client prints the page, follows a 301 exactly when it follows redirects, and otherwise fails with the code |
| Exchange.LocationNoSpace | balancer/balancer.py:255 | the redirect location holds no whitespace when the host, port and file hold none |
| Exchange.RedirectEndToEnd | balancer/balancer.py:316-330 | a client's GET through the balancer ends redirected to the drawn backend, under the path without leading `/` |
| Exchange.UnavailableEndToEnd | balancer/balancer.py:326-327 | with no backend the client run fails with `503` |

## Left out

- Sockets are not modelled: creating them, `connect`, `accept` and `close`. A socket is a character sequence with a cursor.
- `send` is not modelled: the bytes sent are returned as one string, and the file's pieces as a sequence.
- `main`'s endless loop is modelled one turn at a time (`Dispatch.MainStep`). A turn is an `Event`: a connection, or an `accept` timeout that triggers the rebuild.
- The `socket.timeout` itself is not modelled, only the event it causes.
- `time.time()` probe latencies are not measured: they come in as integers, so they are not floating point.
- The `ConnectionRefusedError` handling is an oracle sequence `refused`, one flag per configured server.
- `random.randint` is not modelled: the draw is a parameter in the range it would have.
- `datetime.now().strftime` is not modelled: the date text is a parameter.
- File I/O is not modelled:
  - the configuration file is the sequence of `readline` results;
  - the error pages and the downloaded file are strings, and a file size is its length;
  - writing the saved file is left out; the model returns its path and contents.
- `signal_handler`, `argparse`, `urlparse` in the client's `redirect_request`, `print` output and `sys.exit` are left out. The redirected request takes the parsed host, port and path as parameters, and exit status 1 is the outcome `Failed`.
- `int()` on header values is read as a plain decimal numeral. Other forms `int()` accepts (sign, surrounding blanks, underscores) are treated like malformed values, which the model excludes by precondition.
- Prober.RecordResponseTimes: the probe loop's uncaught failures are not modelled, so the model rebuilds the list where the source stops. The `try` around `connect` (balancer/balancer.py:89-95) catches only `ConnectionRefusedError`, and the flag `refused` stands for that error alone. Any other failure in the loop stops the balancer:
  - `int(server[1])` raises `ValueError` on a port text `int()` rejects, such as the empty port `Registry.ParseConfigLine` gives for `b.com:\n` and for an unterminated last line with a one-digit port (`b.com:8`); what counts is what `int()` rejects, not a plain decimal numeral, since `int()` also accepts `+80`, ` 80` and `8_0`;
  - a port numeral outside 0 to 65535 passes `int()`, and then `connect` raises `OverflowError` (`b.com:99999\n`);
  - an unresolvable host raises `socket.gaierror`, and an unreachable or timed-out host raises `OSError`;
  - on the reply side (balancer/balancer.py:102), every failure of `Prober.ProbeReplyOk` stops it. That covers a reply without a `Content-Length:` line (unbound `bytes_to_read`), a `Content-Length:` value `int()` rejects (`ValueError`, balancer/balancer.py:140), a `Content-Length:` with no space after it (`IndexError`), and a reply that ends before its header block or body is complete, on which the loops at balancer/balancer.py:154-161 and balancer/balancer.py:144-146 spin. `RecordResponseTimes` takes no replies, so none of this reaches it.
  Each failure stops the balancer (or, for the spinning loops, hangs it) at startup and in the timeout handler (balancer/balancer.py:333-338). For such inputs, `Dispatch.AnalyzeServerPerformance` and `Dispatch.MainStep` on a timeout return a table the source never builds.
- Wire.GetLineFromSocket: a character stands for one byte. The source decodes each byte on its own with `recv(1).decode()`, which raises `UnicodeDecodeError` on any byte of 0x80 or above, and in the balancer nothing catches it. The model reads any character, so non-ASCII input, on which the source stops with that error, is outside the model. The same holds for `print(chunk.decode())` in the client's `print_file_from_socket` (client/client.py:105), which raises on a chunk that is not complete UTF-8, for instance a multibyte character split across two `recv` chunks, before a 301 is followed: `Client.HandleErrorResponse` and `Exchange.ReplyOutcomeOfResponse` hold for the source only on such input that decodes.
- Exchange.RequestRoundTrip: for the same reason, the read-back it proves holds for the source only when the path, host and port are ASCII.
- `list.sort` works in place. `Prober.SortByLatency` models it as a stable insertion sort on values, so in-place update and aliasing are not captured.
- Crash and hang paths are preconditions, not modelled behaviour:
  - `get_line_from_socket` spins on a closed stream, so enough bytes must arrive;
  - `process_request` raises on a path made only of `/`;
  - `read_file_from_socket` leaves `bytes_to_read` unbound without a `Content-Length:` line;
  - the client's `split(' ')[1]` raises on a status line with one token;
  - `process_request` raises on a request line with fewer than two words (`Dispatch.RequestOk`);
  - the client's `download_file` raises on a file name made only of `/` (`Client.DownloadFile`);
  - a `Content-Length:` or `Location:` line with no space after the field name raises in `split(' ')[1]`, and a `Content-Length:` value that is not a numeral raises in `int()` (`Wire.ContentLengthOk`, `Client.LocationOk`).
- `Selector.AssignServer`: the draw comes in as a parameter, so the model does not state that every entry can be drawn with probability proportional to its band. `Selector.SelectionBands` states which draws select each entry.

Two consequences of the code worth noting:
- With weights 1, 3, 6, a draw of 4 selects the third entry, the fastest of three, since 3 < 4 ≤ 6 (`Dispatch.DrawExample`, `Dispatch.DispatchExample`).
- A port is kept as text, the second `:`-field with its last character dropped, not as an integer. A last line without a line feed therefore loses a digit of its port (`Registry.UnterminatedLastLine`).
