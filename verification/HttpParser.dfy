/**
 * The meaning of the incremental HTTP/1.1 parser, given one byte at a time.
 *
 * View is everything the parser and its sink know after a stream of bytes; Feed folds a
 * stream into it. The receiver (HttpReceiver.dfy) works on whole buffers instead, and is
 * proved to reach exactly the view that Feed reaches.
 */
module HttpParser {
  import opened Util
  import opened HttpText

  type size_t = n: nat | n <= UINT_MAX

  const SIZE_UNKNOWN: size_t := UINT_MAX

  const kBufferSize: nat := 32 * 1024
  const SOCKET_EACCES: int := 13
  const SEC_E_CERT_EXPIRED: int := -2146893016

  datatype HttpMode = HM_NONE | HM_CONNECT | HM_RECV | HM_SEND

  datatype HttpError =
    | HE_NONE | HE_PROTOCOL | HE_DISCONNECTED | HE_OVERFLOW | HE_CONNECT_FAILED
    | HE_SOCKET_ERROR | HE_SHUTDOWN | HE_OPERATION_CANCELLED | HE_AUTH
    | HE_CERTIFICATE_EXPIRED | HE_STREAM | HE_CACHE

  /** The error to report when the network stream closes with the given code. */
  function CloseError(code: int, connecting: bool, validEnd: bool): HttpError {
    if code == 0 then if validEnd then HE_NONE else HE_DISCONNECTED
    else if code == SOCKET_EACCES then HE_AUTH
    else if code == SEC_E_CERT_EXPIRED then HE_CERTIFICATE_EXPIRED
    else if connecting then HE_CONNECT_FAILED
    else HE_SOCKET_ERROR
  }

  /** Every code of a closed stream, and what is reported for it. */
  lemma CloseErrorMeans(code: int, connecting: bool, validEnd: bool)
    ensures CloseError(0, connecting, validEnd) == if validEnd then HE_NONE else HE_DISCONNECTED
    ensures CloseError(13, connecting, validEnd) == HE_AUTH
    ensures CloseError(-2146893016, connecting, validEnd) == HE_CERTIFICATE_EXPIRED
    ensures code !in {0, 13, -2146893016} ==>
      CloseError(code, connecting, validEnd) == if connecting then HE_CONNECT_FAILED else HE_SOCKET_ERROR
  {
  }

  datatype State = ST_LEADER | ST_HEADERS | ST_CHUNKSIZE | ST_CHUNKTERM | ST_TRAILERS | ST_DATA | ST_COMPLETE {
    /** The position in the enumeration, which the parser compares. */
    function Ord(): nat {
      match this
      case ST_LEADER => 0
      case ST_HEADERS => 1
      case ST_CHUNKSIZE => 2
      case ST_CHUNKTERM => 3
      case ST_TRAILERS => 4
      case ST_DATA => 5
      case ST_COMPLETE => 6
    }

    predicate IsLine() { Ord() < ST_DATA.Ord() }
  }

  datatype Header = Header(name: string, value: string)

  /** What the owner of the connection answers when the headers are complete. */
  datatype Decision = Decision(error: HttpError, size: size_t, ignore: bool)

  /** The parts of the owner that the parser calls back. */
  datatype Env = Env(
    parseLeader: string -> HttpError,
    headerComplete: (string, seq<Header>, bool, size_t) -> Decision,
    hasDocument: bool)

  datatype View = View(
    state: State, chunked: bool, size: size_t,
    line: string,           // bytes of the line that has not ended yet
    leader: string, headers: seq<Header>, body: string, ignore: bool,
    used: nat,              // bytes of completely processed elements
    done: Option<HttpError>)

  const Initial: View := View(ST_LEADER, false, SIZE_UNKNOWN, "", "", [], "", false, 0, None)

  function Fail(v: View, e: HttpError): View { v.(done := Some(e)) }

  /** One header is recorded, and heeded when it describes the message body. */
  function TakeHeader(v: View, h: Header): View {
    var added := v.(headers := v.headers + [h]);
    if EqualsIgnoreCase(h.name, "Content-Length") then
      match ScanUnsigned(h.value)
      case None => Fail(v, HE_PROTOCOL)
      case Some(size) => added.(size := size)
    else if EqualsIgnoreCase(h.name, "Transfer-Encoding") then
      if EqualsIgnoreCase(h.value, "chunked") then added.(chunked := true)
      else if EqualsIgnoreCase(h.value, "identity") then added.(chunked := false)
      else Fail(v, HE_PROTOCOL)
    else added
  }

  /** One header line, already trimmed and not empty. */
  function ProcessHeaderLine(v: View, line: string): View {
    var colon := IndexOf(line, ':');
    if colon == |line| then Fail(v, HE_PROTOCOL)
    else TakeHeader(v, Header(line[..colon], TrimLeft(line[colon + 1..])))
  }

  /** One complete line without its end, in the states that read lines. */
  function ProcessLine(env: Env, v: View, line: string): View {
    match v.state
    case ST_LEADER =>
      var error := env.parseLeader(line);
      var w := v.(state := ST_HEADERS, leader := line);
      if error == HE_NONE then w else Fail(w, error)
    case ST_HEADERS =>
      if line != "" then ProcessHeaderLine(v, line)
      else
        var d := env.headerComplete(v.leader, v.headers, v.chunked, v.size);
        var next := if v.chunked then ST_CHUNKSIZE else ST_DATA;
        var w := v.(state := next, size := d.size, ignore := v.ignore || d.ignore);
        if d.error == HE_NONE then w else Fail(w, d.error)
    case ST_CHUNKSIZE =>
      if line == "" then Fail(v, HE_PROTOCOL)
      else
        var (size, whole) := StrToUl16(line);
        var w := v.(size := size);
        if !whole then Fail(w, HE_PROTOCOL)
        else w.(state := if size == 0 then ST_TRAILERS else ST_DATA)
    case ST_CHUNKTERM =>
      if line != "" then Fail(v, HE_PROTOCOL)
      else v.(state := if v.chunked then ST_CHUNKSIZE else ST_DATA)
    case ST_TRAILERS =>
      if line == "" then Fail(v, HE_NONE) else v
    case _ => v
  }

  /** The transition out of an exhausted data section, which needs no input. */
  function Settle(v: View): View {
    if v.done.None? && v.state == ST_DATA && v.size == 0 then
      if v.chunked then v.(state := ST_CHUNKTERM) else Fail(v, HE_NONE)
    else v
  }

  /** The sink takes these bytes of the data section. */
  function TakeData(env: Env, v: View, data: string): View {
    v.(body := if v.ignore || !env.hasDocument then v.body else v.body + data,
       size := if v.size == SIZE_UNKNOWN || v.size < |data| then v.size else v.size - |data|,
       used := v.used + |data|)
  }

  /** A line that has not ended: once it fills the whole buffer nothing more can be read. */
  function Pending(v: View, line: string): View {
    v.(line := line, done := if |line| >= kBufferSize then Some(HE_OVERFLOW) else None)
  }

  function LineTaken(v: View, line: string): View { v.(line := "", used := v.used + |line| + 1) }

  /** The line feed that completes a line arrives. */
  function EndLine(env: Env, v: View, line: string): View {
    ProcessLine(env, LineTaken(v, line), TrimRight(line))
  }

  /** One byte of input. */
  function Step(env: Env, v: View, c: char): View {
    if v.done.Some? then v
    else if v.state.IsLine() then
      if c == '\n' then EndLine(env, v, v.line) else Pending(v, v.line + [c])
    else if v.state == ST_DATA then TakeData(env, v, [c])
    else v
  }

  /** The view after a stream of bytes. */
  function Feed(env: Env, v: View, input: string): View
    decreases |input|
  {
    if input == "" then Settle(v) else Feed(env, Step(env, Settle(v), input[0]), input[1..])
  }

  // ---- Streams compose ---------------------------------------------------

  /** Cutting the stream anywhere changes nothing. */
  lemma {:induction false} FeedConcat(env: Env, v: View, s: string, t: string)
    ensures Feed(env, v, s + t) == Feed(env, Feed(env, v, s), t)
    decreases |s|
  {
    if s == "" {
      assert s + t == t;
      assert Settle(Settle(v)) == Settle(v);
    } else {
      assert (s + t)[1..] == s[1..] + t;
      FeedConcat(env, Step(env, Settle(v), s[0]), s[1..], t);
    }
  }

  lemma FeedOne(env: Env, v: View, c: char, rest: string)
    ensures Feed(env, v, [c] + rest) == Feed(env, Step(env, Settle(v), c), rest)
  {
    assert ([c] + rest)[1..] == rest;
  }

  /** Once the message is complete, whatever follows it is left alone. */
  lemma {:induction false} FeedDone(env: Env, v: View, s: string)
    requires v.done.Some?
    ensures Feed(env, v, s) == v
    decreases |s|
  {
    if s != "" { FeedDone(env, v, s[1..]); }
  }

  /** Bytes of an unfinished line only lengthen it, up to the size of the buffer. */
  lemma {:induction false} FeedPartialLine(env: Env, v: View, s: string)
    requires v.done.None? && v.state.IsLine() && '\n' !in s && |v.line| < kBufferSize && |v.line| + |s| <= kBufferSize
    ensures Feed(env, v, s) == Pending(v, v.line + s)
    decreases |s|
  {
    if s == "" {
      assert v.line + s == v.line;
    } else {
      var w := Pending(v, v.line + [s[0]]);
      assert v.line + s == w.line + s[1..];
      if |s| == 1 {
        assert s[1..] == "" && w.line == v.line + s;
      } else {
        FeedPartialLine(env, w, s[1..]);
      }
    }
  }

  lemma LineEnds(env: Env, v: View, line: string)
    requires v.done.None? && v.state.IsLine() && v.line == ""
    ensures Step(env, Settle(v.(line := line)), '\n') == EndLine(env, v, line)
  {
    var w := v.(line := line);
    assert LineTaken(w, line) == LineTaken(v, line);
  }

  /** A whole line is processed as one element. */
  lemma FeedLine(env: Env, v: View, line: string, rest: string)
    requires v.done.None? && v.state.IsLine() && v.line == "" && '\n' !in line && |line| < kBufferSize
    ensures Feed(env, v, line + ("\n" + rest)) == Feed(env, EndLine(env, v, line), rest)
  {
    FeedPartialLine(env, v, line);
    var w := v.(line := line);
    assert Feed(env, v, line) == w by { assert v.line + line == line; }
    FeedConcat(env, v, line, "\n" + rest);
    FeedOne(env, w, '\n', rest);
    LineEnds(env, v, line);
  }

  /** The same, when the stream stops after the line. */
  lemma FeedWholeLine(env: Env, v: View, line: string)
    requires v.done.None? && v.state.IsLine() && v.line == "" && '\n' !in line && |line| < kBufferSize
    ensures Feed(env, v, line + "\n") == Settle(EndLine(env, v, line))
  {
    hide Settle, EndLine;
    FeedLine(env, v, line, "");
    assert line + ("\n" + "") == line + "\n";
  }

  lemma TakeDataTwice(env: Env, v: View, a: string, b: string)
    requires v.size == SIZE_UNKNOWN || |a + b| <= v.size
    ensures TakeData(env, TakeData(env, v, a), b) == TakeData(env, v, a + b)
  {
    assert v.body + a + b == v.body + (a + b);
  }

  /** Any number of bytes within the data section are taken as one piece. */
  lemma {:induction false} FeedData(env: Env, v: View, data: string, rest: string)
    requires v.done.None? && v.state == ST_DATA
    requires v.size == SIZE_UNKNOWN || |data| <= v.size
    ensures Feed(env, v, data + rest) == Feed(env, TakeData(env, v, data), rest)
    decreases |data|
  {
    if data == "" {
      assert data + rest == rest && v.body + data == v.body;
    } else {
      var w := TakeData(env, v, [data[0]]);
      assert Step(env, Settle(v), data[0]) == w;
      FeedData(env, w, data[1..], rest);
      TakeDataTwice(env, v, [data[0]], data[1..]);
      assert [data[0]] + data[1..] == data;
      assert (data + rest)[1..] == data[1..] + rest;
    }
  }

  /** An exhausted data section ends without input: in a chunk terminator or in completion. */
  lemma FeedExhausted(env: Env, v: View, s: string)
    requires v.done.None? && v.state == ST_DATA && v.size == 0
    ensures Feed(env, v, s) == if v.chunked then Feed(env, v.(state := ST_CHUNKTERM), s) else Fail(v, HE_NONE)
  {
    assert Settle(Settle(v)) == Settle(v);
    if !v.chunked { FeedDone(env, Fail(v, HE_NONE), s); }
  }

  lemma StepBodyGrows(env: Env, v: View, c: char)
    ensures v.body <= Step(env, Settle(v), c).body
  {
    hide EqualsIgnoreCase, ScanUnsigned, StrToUl16, IndexOf, TrimLeft, TrimRight;
  }

  /** No byte takes back what the sink has been given. */
  lemma {:induction false} BodyGrows(env: Env, v: View, s: string)
    ensures v.body <= Feed(env, v, s).body
    decreases |s|
  {
    if s != "" {
      StepBodyGrows(env, v, s[0]);
      BodyGrows(env, Step(env, Settle(v), s[0]), s[1..]);
    }
  }

  // ---- What each line means ----------------------------------------------

  /** A line of the message is about to be read. */
  predicate AtLine(v: View, state: State) { v.done.None? && v.state == state && v.line == "" }

  /** A whole line for the parser, without its line feed. */
  predicate LineFits(line: string) { '\n' !in line && |line| < kBufferSize }

  /** Nothing but the line feed ends a line, unless it has grown to 32 KB. */
  lemma LongLineMeans(env: Env, v: View, s: string)
    requires v.done.None? && v.state.IsLine() && v.line == "" && '\n' !in s && |s| <= 32768
    ensures Feed(env, v, s) == v.(line := s, done := if |s| == 32768 then Some(HE_OVERFLOW) else None)
  {
    FeedPartialLine(env, v, s);
    assert "" + s == s;
  }

  lemma LeaderMeans(env: Env, line: string)
    requires LineFits(line)
    ensures var leader := TrimRight(line); var error := env.parseLeader(leader);
      Feed(env, Initial, line + "\n") == View(ST_HEADERS, false, 0xFFFF_FFFF, "", leader, [], "", false, |line| + 1,
        if error == HE_NONE then None else Some(error))
  {
    hide TrimRight;
    FeedWholeLine(env, Initial, line);
  }

  /** A header without a colon, or with a colon behind a zero byte only, is an error. */
  lemma NoColonMeans(env: Env, v: View, line: string)
    requires AtLine(v, ST_HEADERS) && LineFits(line) && TrimRight(line) != ""
    requires forall k :: 0 <= k < |TrimRight(line)| && TrimRight(line)[k] == ':' ==> '\0' in TrimRight(line)[..k]
    ensures Feed(env, v, line + "\n") == v.(used := v.used + |line| + 1, done := Some(HE_PROTOCOL))
  {
    hide TrimRight;
    FeedWholeLine(env, v, line);
    var t := TrimRight(line);
    assert IndexOf(t, ':') == |t|;
  }

  /** What a header does, by its name and value; other headers are only recorded. */
  lemma HeaderMeans(v: View, h: Header)
    ensures var w := TakeHeader(v, h); var number := ScanUnsigned(h.value);
      var added := v.(headers := v.headers + [h]);
      if EqualsIgnoreCase(h.name, "Content-Length") then
        w == if number == None then v.(done := Some(HE_PROTOCOL)) else added.(size := number.value)
      else if EqualsIgnoreCase(h.name, "Transfer-Encoding") then
        if EqualsIgnoreCase(h.value, "chunked") then w == added.(chunked := true)
        else if EqualsIgnoreCase(h.value, "identity") then w == added.(chunked := false)
        else w == v.(done := Some(HE_PROTOCOL))
      else w == added
  {
    hide ScanUnsigned, EqualsIgnoreCase;
  }

  /** The blank line: the owner has the last word on the size, on ignoring the body, and on going on at all. */
  lemma HeadEndMeans(env: Env, v: View, line: string)
    requires AtLine(v, ST_HEADERS) && LineFits(line) && TrimRight(line) == ""
    ensures var d := env.headerComplete(v.leader, v.headers, v.chunked, v.size); var w := Feed(env, v, line + "\n");
      && w == v.(state := if v.chunked then ST_CHUNKSIZE else ST_DATA, size := d.size, ignore := v.ignore || d.ignore,
                 used := v.used + |line| + 1, done := w.done)
      && w.done == if d.error != HE_NONE then Some(d.error)
                   else if !v.chunked && d.size == 0 then Some(HE_NONE) else None
  {
    hide TrimRight, Feed;
    FeedWholeLine(env, v, line);
  }

  lemma ChunkSizeMeans(env: Env, v: View, line: string)
    requires AtLine(v, ST_CHUNKSIZE) && v.chunked && LineFits(line)
    ensures var t := TrimRight(line); var (n, whole) := StrToUl16(t); var w := Feed(env, v, line + "\n");
      && w == v.(state := w.state, size := w.size, used := v.used + |line| + 1, done := w.done)
      && (t == "" || !whole ==> w.done == Some(HE_PROTOCOL))
      && (t != "" && whole ==>
            w.done == None && w.size == n && w.state == if n == 0 then ST_TRAILERS else ST_DATA)
  {
    hide TrimRight, StrToUl16;
    FeedWholeLine(env, v, line);
  }

  /** Behind a chunk there is nothing but a line end. */
  lemma ChunkEndMeans(env: Env, v: View, line: string)
    requires AtLine(v, ST_CHUNKTERM) && v.chunked && LineFits(line)
    ensures Feed(env, v, line + "\n")
      == if TrimRight(line) == "" then v.(state := ST_CHUNKSIZE, used := v.used + |line| + 1)
         else v.(used := v.used + |line| + 1, done := Some(HE_PROTOCOL))
  {
    hide TrimRight;
    FeedWholeLine(env, v, line);
  }

  function Lines(lines: seq<string>): string {
    if lines == [] then "" else lines[0] + "\n" + Lines(lines[1..])
  }

  /** Trailers are passed over; the blank line behind them ends the message. */
  lemma {:induction false} TrailersMean(env: Env, v: View, lines: seq<string>, last: string)
    requires AtLine(v, ST_TRAILERS) && LineFits(last) && TrimRight(last) == ""
    requires forall line :: line in lines ==> LineFits(line) && TrimRight(line) != ""
    ensures Feed(env, v, Lines(lines)) == v.(used := v.used + |Lines(lines)|)
    ensures Feed(env, v, Lines(lines) + (last + "\n"))
      == v.(used := v.used + |Lines(lines) + last| + 1, done := Some(HE_NONE))
    decreases |lines|
  {
    hide TrimRight, Feed;
    FeedConcat(env, v, Lines(lines), last + "\n");
    if lines == [] {
      FeedPartialLine(env, v, "");
      FeedWholeLine(env, v, last);
    } else {
      assert lines[0] in lines;
      var line, later := lines[0], Lines(lines[1..]);
      FeedWholeLine(env, v, line);
      FeedConcat(env, v, line + "\n", later);
      var w := v.(used := v.used + |line| + 1);
      TrailersMean(env, w, lines[1..], last);
      FeedWholeLine(env, w.(used := w.used + |later|), last);
    }
  }

  /** Bytes of the data section, short of its end: they reach the document unless they are ignored. */
  lemma DataMeans(env: Env, v: View, data: string)
    requires v.done.None? && v.state == ST_DATA && (|data| < v.size || v.size == 0xFFFF_FFFF)
    ensures var known := v.size != 0xFFFF_FFFF;
      Feed(env, v, data) == v.(
        body := if env.hasDocument && !v.ignore then v.body + data else v.body,
        size := if known then v.size - |data| else v.size, used := v.used + |data|)
  {
    FeedData(env, v, data, "");
    assert data + "" == data;
  }
}
