/**
 Request handling of server.cpp, with io_uring, sockets and printing
 taken away: the `iovec` construction, the "GET" test, extraction of the
 request target, the choice of response, and the decisions to retry a
 read or a write. The results of the reads and writes `serve` awaits, and the
 `errno` each leaves, are inputs.
 */
module HttpServer {
  import opened Wrappers

  /** `BUF_LEN`, the size of the receive buffer. */
  const BufLen: nat := 1024

  /** `EAGAIN` on Linux. */
  const EAGAIN: int := 11

  /** `size_t(-1)`, also `std::string_view::npos`, on a 64-bit target. */
  const NPos: int := 0xFFFF_FFFF_FFFF_FFFF

  type SizeT = x: int | 0 <= x <= NPos

  /** A `std::string_view` as `to_iov` sees it: a base address and a length. */
  datatype StringView = StringView(data: nat, size: SizeT)

  datatype IoVec = IoVec(iovBase: nat, iovLen: SizeT)

  /** `std::out_of_range`, thrown by `substr`. */
  datatype Error = OutOfRange

  /** `to_iov(sv, len)`: the base is always the view's data pointer; a
      length of `size_t(-1)` (the default) stands for the whole view. */
  function ToIov(sv: StringView, len: SizeT): (iov: IoVec)
    ensures iov.iovBase == sv.data
    ensures len == NPos ==> iov.iovLen == sv.size
    ensures len != NPos ==> iov.iovLen == len
  {
    IoVec(sv.data, if len == NPos then sv.size else len)
  }

  /** `to_iov(sv)` with the default length covers the whole view. */
  function ToIovWhole(sv: StringView): (iov: IoVec)
    ensures iov == IoVec(sv.data, sv.size)
  {
    ToIov(sv, NPos)
  }

  function Min(a: int, b: int): int
  {
    if a <= b then a else b
  }

  /** `std::string_view::substr(pos, count)`: at most `count` characters
      from `pos`; a `pos` past the end throws `out_of_range`. */
  function Substr(s: seq<char>, pos: SizeT, count: SizeT): (r: Result<seq<char>, Error>)
    ensures r.Failure? <==> pos > |s|
    ensures r.Success? ==> |r.value| == Min(count, |s| - pos) && r.value == s[pos..pos + |r.value|]
  {
    if pos > |s| then Failure(OutOfRange)
    else Success(s[pos..pos + Min(count, |s| - pos)])
  }

  /** `std::string_view::find(c, pos)`: the first index at or after `pos`
      holding `c`, or `npos` when there is none. */
  function Find(s: seq<char>, c: char, pos: SizeT): (r: SizeT)
    requires |s| < NPos
    ensures r == NPos <==> forall k :: pos <= k < |s| ==> s[k] != c
    ensures r != NPos ==> pos <= r < |s| && s[r] == c
    ensures r != NPos ==> forall k :: pos <= k < r ==> s[k] != c
    decreases |s| - pos
  {
    if pos >= |s| then NPos
    else if s[pos] == c then pos
    else Find(s, c, pos + 1)
  }

  /** `buf.compare(0, 3, "GET") == 0`: the request is a GET exactly when
      its first three bytes are "GET"; a shorter buffer never is. */
  function IsGet(buf: seq<char>): (r: bool)
    ensures r <==> |buf| >= 3 && buf[..3] == "GET"
  {
    var head := Substr(buf, 0, 3);
    head.Success? && head.value == "GET"
  }

  /** `buf.substr(4, buf.find(' ', 4) - 4)`: the bytes from offset 4 up to
      the first space at or after it, or to the end when there is none.
      A buffer shorter than 4 bytes makes `substr` throw. */
  function RequestTarget(buf: seq<char>): (r: Result<seq<char>, Error>)
    requires |buf| < NPos
    ensures r.Failure? <==> |buf| < 4
    ensures r.Success? ==>
              && 4 + |r.value| <= |buf|
              && r.value == buf[4..4 + |r.value|]
              && (forall k :: 0 <= k < |r.value| ==> r.value[k] != ' ')
              && (4 + |r.value| == |buf| || buf[4 + |r.value|] == ' ')
  {
    var end := Find(buf, ' ', 4);
    Substr(buf, 4, end - 4)
  }

  const OkLine: string := "HTTP/1.1 200 OK"
  const NotFoundLine: string := "HTTP/1.1 404 Not Found"
  const HeaderTail: string := "\r\nContent-type: text/html\r\n\r\n"

  /** `html_hdr` and `error_hdr`: a status line and a `Content-type` header. */
  const HtmlHdr: string := OkLine + HeaderTail
  const ErrorHdr: string := NotFoundLine + HeaderTail
  const IndexHtml: string :=
    "<!doctype html><meta charset='utf-8'><title>Congrats!</title>"
    + "<h1>Welcome to our HTTP server demo!</h1>"
    + "<p>This is a just small test page.</p>\n"

  /** The buffers `http_send_file` hands to one `writev` for `target`. */
  function Response(target: seq<char>): (parts: seq<string>)
    ensures |parts| >= 1
    ensures target == "/" <==> parts[0] == HtmlHdr
    ensures target == "/" ==> parts == [HtmlHdr, IndexHtml]
    ensures target != "/" ==> parts == [ErrorHdr]
  {
    if target == "/" then [HtmlHdr, IndexHtml] else [ErrorHdr]
  }

  /** The bytes a `writev` of `parts` sends, in order. */
  function Concat(parts: seq<string>): string
  {
    if |parts| == 0 then [] else parts[0] + Concat(parts[1..])
  }

  /** The status line on the wire: "200 OK" with the index page behind the
      header exactly for "/", "404 Not Found" and nothing else for any
      other target. */
  lemma ResponseStatus(target: seq<char>)
    ensures var bytes := Concat(Response(target));
      && (target == "/" <==> bytes[..15] == OkLine)
      && (target == "/" ==> bytes == HtmlHdr + IndexHtml)
      && (target != "/" <==> bytes[..22] == NotFoundLine)
      && (target != "/" ==> bytes == ErrorHdr)
  {
    var bytes := Concat(Response(target));
    if target == "/" {
      assert [HtmlHdr, IndexHtml][1..] == [IndexHtml];
      assert [IndexHtml][1..] == [];
      assert Concat([IndexHtml]) == IndexHtml + Concat([]) == IndexHtml;
      assert bytes == HtmlHdr + Concat([IndexHtml]);
      assert bytes[..15] == HtmlHdr[..15] == OkLine;
      assert bytes[9] == '2';
    } else {
      assert [ErrorHdr][1..] == [];
      assert bytes == ErrorHdr + Concat([]);
      assert bytes[..22] == ErrorHdr[..22] == NotFoundLine;
      assert bytes[9] == '4';
    }
  }

  /** What `serve` does after one read completes. */
  datatype ReadDecision = RetryRead | GiveUp | Received(request: seq<char>)

  /** A read result of 0 or less is retried under `EAGAIN` and ends
      `serve` otherwise; a positive result is the number of bytes read. */
  function OnRead(res: int, errno: int, buf: seq<char>): (d: ReadDecision)
    requires |buf| == BufLen && res <= BufLen
    ensures d.RetryRead? <==> res <= 0 && errno == EAGAIN
    ensures d.GiveUp? <==> res <= 0 && errno != EAGAIN
    ensures d.Received? <==> res > 0
    ensures d.Received? ==> d.request == buf[..res] && 0 < |d.request| <= BufLen
  {
    if res <= 0 then (if errno == EAGAIN then RetryRead else GiveUp)
    else Received(buf[..res])
  }

  /** What `http_send_file` does after its `writev` completes. */
  datatype WriteDecision = Resend | Done

  /** A write result of 0 or less under `EAGAIN` sends the response again;
      anything else ends the send, including a short positive write. */
  function OnWrite(res: int, errno: int): (d: WriteDecision)
    ensures d == Resend <==> res <= 0 && errno == EAGAIN
  {
    if res <= 0 && errno == EAGAIN then Resend else Done
  }

  /** One completed `readv`: its result, the `errno` it left, and the
      receive buffer after it. */
  datatype ReadEvent = ReadEvent(res: int, errno: int, buf: seq<char>)

  /** One completed `writev`. */
  datatype WriteEvent = WriteEvent(res: int, errno: int)

  predicate WellSized(e: ReadEvent)
  {
    |e.buf| == BufLen && e.res <= BufLen
  }

  function Decide(e: ReadEvent): ReadDecision
    requires WellSized(e)
  {
    OnRead(e.res, e.errno, e.buf)
  }

  /** How the `retry:` loop of `serve` ends over the reads that complete:
      still waiting, given up at read `at`, or a request received at `at`. */
  datatype Reading = Waiting | ReadFailed(at: nat) | Request(at: nat, bytes: seq<char>)

  function Later(r: Reading): Reading
  {
    match r
    case Waiting => Waiting
    case ReadFailed(at) => ReadFailed(at + 1)
    case Request(at, bytes) => Request(at + 1, bytes)
  }

  /** The `retry:` loop: reads are reissued as long as they fail with
      `EAGAIN`; the first read that does not ends the loop. */
  function ReadLoop(readLog: seq<ReadEvent>): (r: Reading)
    requires forall k :: 0 <= k < |readLog| ==> WellSized(readLog[k])
    ensures r.Waiting? ==> forall k :: 0 <= k < |readLog| ==> Decide(readLog[k]) == RetryRead
    ensures !r.Waiting? ==> r.at < |readLog|
    ensures !r.Waiting? ==> forall k :: 0 <= k < r.at ==> Decide(readLog[k]) == RetryRead
    ensures r.ReadFailed? ==> Decide(readLog[r.at]) == GiveUp
    ensures r.Request? ==> Decide(readLog[r.at]) == Received(r.bytes)
    decreases |readLog|
  {
    if |readLog| == 0 then Waiting
    else
      match Decide(readLog[0])
      case RetryRead => Later(ReadLoop(readLog[1..]))
      case GiveUp => ReadFailed(0)
      case Received(bytes) => Request(0, bytes)
  }

  /** The responses `http_send_file` submitted, and whether it returned. */
  datatype Sending = Sending(attempts: seq<seq<string>>, completed: bool)

  /** `http_send_file(target)` over the writeLog that complete: every
      attempt sends the same response for the same target, and it is
      sent again for each leading write that failed with `EAGAIN`. */
  function SendFile(target: seq<char>, writeLog: seq<WriteEvent>): (r: Sending)
    ensures |r.attempts| >= 1
    ensures forall k :: 0 <= k < |r.attempts| ==> r.attempts[k] == Response(target)
    ensures forall k :: 0 <= k < |r.attempts| - 1 ==>
              k < |writeLog| && OnWrite(writeLog[k].res, writeLog[k].errno) == Resend
    ensures r.completed ==>
              |r.attempts| <= |writeLog|
              && OnWrite(writeLog[|r.attempts| - 1].res, writeLog[|r.attempts| - 1].errno) == Done
    ensures !r.completed ==> |r.attempts| == |writeLog| + 1
    decreases |writeLog|
  {
    if |writeLog| == 0 then Sending([Response(target)], false)
    else if OnWrite(writeLog[0].res, writeLog[0].errno) == Resend then
      var rest := SendFile(target, writeLog[1..]);
      Sending([Response(target)] + rest.attempts, rest.completed)
    else
      Sending([Response(target)], true)
  }

  /** Where `serve` stands: it returned `fd` after submitting `sent`, it
      still awaits an I/O completion, or `substr` threw. */
  datatype Served =
    | Answered(fd: int, sent: seq<seq<string>>)
    | Suspended(sent: seq<seq<string>>)
    | Failed(error: Error)

  /** `serve(sockfd)`: read a request, answer a GET, ignore anything else. */
  function Serve(sockfd: int, readLog: seq<ReadEvent>, writeLog: seq<WriteEvent>): (r: Served)
    requires forall k :: 0 <= k < |readLog| ==> WellSized(readLog[k])
    ensures r.Answered? ==> r.fd == sockfd
    ensures r.Failed? <==> ReadLoop(readLog).Request? && ReadLoop(readLog).bytes == "GET"
    ensures ReadLoop(readLog).ReadFailed? ==> r == Answered(sockfd, [])
    ensures ReadLoop(readLog).Request? && !IsGet(ReadLoop(readLog).bytes) ==> r == Answered(sockfd, [])
    ensures ReadLoop(readLog).Waiting? ==> r == Suspended([])
    ensures !r.Failed? && |r.sent| > 0 ==>
              && ReadLoop(readLog).Request? && IsGet(ReadLoop(readLog).bytes)
              && RequestTarget(ReadLoop(readLog).bytes).Success?
              && forall k :: 0 <= k < |r.sent| ==>
                   r.sent[k] == Response(RequestTarget(ReadLoop(readLog).bytes).value)
    ensures var reading := ReadLoop(readLog);
      reading.Request? && IsGet(reading.bytes) && RequestTarget(reading.bytes).Success? ==>
        var sending := SendFile(RequestTarget(reading.bytes).value, writeLog);
        && |r.sent| >= 1
        && r.sent == sending.attempts
        && (r.Answered? <==> sending.completed)
  {
    match ReadLoop(readLog)
    case Waiting => Suspended([])
    case ReadFailed(_) => Answered(sockfd, [])
    case Request(_, bytes) =>
      if !IsGet(bytes) then Answered(sockfd, [])
      else
        match RequestTarget(bytes)
        case Failure(e) => Failed(e)
        case Success(target) =>
          var sending := SendFile(target, writeLog);
          if sending.completed then Answered(sockfd, sending.attempts)
          else Suspended(sending.attempts)
  }

  /** A three-byte "GET" passes the GET test but leaves no offset 4 to
      take the target from: `substr` throws. */
  lemma BareGetThrows()
    ensures IsGet("GET")
    ensures RequestTarget("GET") == Failure(OutOfRange)
  {
  }

  /** "GET / HTTP/1.1" asks for "/". */
  lemma IndexRequestTarget()
    ensures RequestTarget("GET / HTTP/1.1") == Success("/")
  {
    var buf := "GET / HTTP/1.1";
    assert buf[5] == ' ' && buf[4] != ' ';
    assert buf[4..5] == "/";
  }

  /** A connection whose first read delivers "GET / HTTP/1.1" and whose
      first write succeeds is answered with one `writev` of the 200 header
      and the index page, and `serve` returns the socket. */
  lemma IndexRequestServed(sockfd: int, buf: seq<char>, errno: int, written: int)
    requires |buf| == BufLen && buf[..14] == "GET / HTTP/1.1" && written > 0
    ensures Serve(sockfd, [ReadEvent(14, errno, buf)], [WriteEvent(written, errno)])
            == Answered(sockfd, [[HtmlHdr, IndexHtml]])
  {
    var readLog := [ReadEvent(14, errno, buf)];
    assert readLog[1..] == [];
    assert ReadLoop(readLog) == Request(0, "GET / HTTP/1.1");
    IndexRequestTarget();
    var writeLog := [WriteEvent(written, errno)];
    assert SendFile("/", writeLog) == Sending([[HtmlHdr, IndexHtml]], true);
  }

  /** The `iovec`s of one `writev`: the whole view of each part, at the
      address `bases` gives it. */
  function WholeIovs(parts: seq<string>, bases: seq<nat>): (iovs: seq<IoVec>)
    requires |bases| == |parts| && forall k :: 0 <= k < |parts| ==> |parts[k]| <= NPos
    ensures |iovs| == |parts|
    ensures forall k :: 0 <= k < |parts| ==> iovs[k] == IoVec(bases[k], |parts[k]|)
  {
    seq(|parts|, k requires 0 <= k < |parts| => ToIovWhole(StringView(bases[k], |parts[k]|)))
  }

  /** The number of bytes a `writev` of `iovs` asks to send. */
  function TotalLength(iovs: seq<IoVec>): nat
  {
    if |iovs| == 0 then 0 else iovs[0].iovLen + TotalLength(iovs[1..])
  }

  /** The whole-view `iovec`s of some strings ask for exactly as many bytes
      as the strings hold together. */
  lemma {:induction false} WholeIovsCover(parts: seq<string>, bases: seq<nat>)
    requires |bases| == |parts| && forall k :: 0 <= k < |parts| ==> |parts[k]| <= NPos
    ensures TotalLength(WholeIovs(parts, bases)) == |Concat(parts)|
    decreases |parts|
  {
    if |parts| > 0 {
      WholeIovsCover(parts[1..], bases[1..]);
      assert WholeIovs(parts, bases)[1..] == WholeIovs(parts[1..], bases[1..]);
    }
  }

  /** The `iovec`s `serve` builds: the read covers the whole 1024-byte
      buffer at `buf`, whatever view of it is passed, which is what bounds
      a read result by `BufLen`; the response `iovec`s ask for exactly the
      bytes of the response for `target`. */
  lemma ServeIovecs(buf: StringView, target: seq<char>, bases: seq<nat>)
    requires |bases| == |Response(target)|
    ensures ToIov(buf, BufLen) == IoVec(buf.data, BufLen)
    ensures TotalLength(WholeIovs(Response(target), bases)) == |Concat(Response(target))|
  {
    WholeIovsCover(Response(target), bases);
  }
}
