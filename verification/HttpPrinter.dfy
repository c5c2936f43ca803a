/**
 * What a sent HTTP message looks like on the wire, and the proof that the parser reads it
 * back: same leader, same headers, same document, and not a byte of what follows.
 * Chunked coding is section 3.6.1 of RFC 2616.
 */
module HttpPrinter {
  import opened Util
  import opened HttpText
  import opened HttpParser

  const kChunkDigits: nat := 8
  const LastChunk: string := "0\r\n\r\n"

  // ---- Text --------------------------------------------------------------

  function HeaderLine(h: Header): string { CText(h.name) + ": " + CText(h.value) + "\r\n" }

  /** Headers that could never fit the buffer are not sent. */
  predicate Fits(h: Header) { |HeaderLine(h)| < kBufferSize - 3 }

  function Sent(headers: seq<Header>): seq<Header> {
    if headers == [] then []
    else Sent(headers[..|headers| - 1]) + (if Fits(headers[|headers| - 1]) then [headers[|headers| - 1]] else [])
  }

  function HeaderLines(headers: seq<Header>): string {
    if headers == [] then ""
    else HeaderLines(headers[..|headers| - 1]) + HeaderLine(headers[|headers| - 1])
  }

  function Head(leader: string, headers: seq<Header>): string {
    leader + "\r\n" + HeaderLines(Sent(headers)) + "\r\n"
  }

  function Chunk(data: string): string { HexDigits(|data|, kChunkDigits) + "\r\n" + data + "\r\n" }

  function Chunks(pieces: seq<string>): string {
    if pieces == [] then ""
    else Chunks(pieces[..|pieces| - 1]) + Chunk(pieces[|pieces| - 1])
  }

  function ChunkedMessage(leader: string, headers: seq<Header>, pieces: seq<string>): string {
    Head(leader, headers) + Chunks(pieces) + LastChunk
  }

  // ---- Well-formedness ---------------------------------------------------

  predicate WellFormedHeader(h: Header) {
    && ':' !in h.name && '\n' !in h.name && '\n' !in h.value && '\0' !in h.name && '\0' !in h.value
    && TrimLeft(h.value) == h.value && TrimRight(h.value) == h.value
  }

  function TakeHeaders(v: View, headers: seq<Header>): View {
    if headers == [] then v
    else
      var w := TakeHeaders(v, headers[..|headers| - 1]);
      if w.done.Some? then w else TakeHeader(w, headers[|headers| - 1])
  }

  /** The view once the leader has been read. */
  function AfterLeader(leader: string): View {
    Initial.(state := ST_HEADERS, leader := leader, used := |leader| + 2)
  }

  /** The view just before the blank line that ends the headers. */
  function AfterHeaders(leader: string, headers: seq<Header>): View {
    TakeHeaders(AfterLeader(leader), Sent(headers))
  }

  /** The leader leaves room in the sender's buffer, so its line fits the receiver's. */
  predicate LeaderFits(leader: string) { |leader| + 4 < kBufferSize }

  /** The parser's owner accepts this message, and its headers agree with how the body is sent. */
  ghost predicate Acceptable(env: Env, leader: string, headers: seq<Header>) {
    var v := AfterHeaders(leader, headers);
    && '\n' !in leader && TrimRight(leader) == leader && env.parseLeader(leader) == HE_NONE
    && (forall h :: h in Sent(headers) ==> WellFormedHeader(h))
    && v.done == None
    && env.headerComplete(leader, Sent(headers), v.chunked, v.size).error == HE_NONE
    && !env.headerComplete(leader, Sent(headers), v.chunked, v.size).ignore
  }

  // ---- Reading the head back ---------------------------------------------

  lemma TrimEnd(s: string)
    requires TrimRight(s) == s
    ensures TrimRight(s + "\r") == s
  {
    TrimRightAppend(s, "\r");
  }

  lemma IndexOfFirst(s: string, c: char, rest: string)
    requires c !in s && '\0' !in s && c != '\0'
    ensures IndexOf(s + [c] + rest, c) == |s|
  {
    var t := s + [c] + rest;
    assert t[|s|] == c && t[..|s| + 1] == s + [c];
    assert forall i :: 0 <= i < |s| ==> t[i] == s[i] != c;
    assert '\0' !in s + [c];
  }

  /** A header line as the parser sees it after trimming. */
  function TrimmedLine(h: Header): string {
    if h.value == "" then h.name + ":" else h.name + ": " + h.value
  }

  lemma {:induction false} TrimRightShrinks(s: string)
    ensures |TrimRight(s)| <= |s|
  {
    if s != "" && IsSpace(s[|s| - 1]) { TrimRightShrinks(s[..|s| - 1]); }
  }

  lemma LastOfTrimmed(s: string)
    requires s != "" && TrimRight(s) == s
    ensures !IsSpace(s[|s| - 1])
  {
    if IsSpace(s[|s| - 1]) { TrimRightShrinks(s[..|s| - 1]); }
  }

  lemma HeaderLineTrims(h: Header)
    requires WellFormedHeader(h)
    ensures TrimRight(h.name + ": " + h.value + "\r") == TrimmedLine(h)
  {
    var line := TrimmedLine(h);
    if h.value == "" {
      assert h.name + ": " + h.value + "\r" == line + " \r";
      TrimRightAppend(line, " \r");
    } else {
      LastOfTrimmed(h.value);
      TrimRightAppend(line, "\r");
    }
  }

  /** A printed header line, once trimmed, splits into the name and value it was made of. */
  lemma HeaderLineReadsBack(v: View, h: Header)
    requires WellFormedHeader(h)
    ensures ProcessHeaderLine(v, TrimmedLine(h)) == TakeHeader(v, h)
  {
    hide TakeHeader;
    var line, rest := TrimmedLine(h), if h.value == "" then "" else " " + h.value;
    assert line == h.name + [':'] + rest;
    IndexOfFirst(h.name, ':', rest);
    assert line[..|h.name|] == h.name;
    assert line[|h.name| + 1..] == rest;
    assert rest != "" ==> rest[1..] == h.value;
  }

  /** Any header line: the name is what is in front of the first colon, as it is; blanks behind that are skipped. */
  lemma HeaderLineMeans(v: View, name: string, blanks: string, value: string)
    requires ':' !in name && '\0' !in name && (forall c :: c in blanks ==> IsSpace(c))
    requires value == "" || !IsSpace(value[0])
    ensures ProcessHeaderLine(v, name + ":" + blanks + value) == TakeHeader(v, Header(name, value))
  {
    hide TakeHeader, TrimLeft;
    var line := name + ":" + blanks + value;
    assert line == name + [':'] + (blanks + value);
    IndexOfFirst(name, ':', blanks + value);
    BlanksInFront(blanks, value);
    assert line[..|name|] == name && line[|name| + 1..] == blanks + value;
  }

  lemma WholeText(s: string)
    requires '\0' !in s
    ensures CText(s) == s
  {
  }

  lemma HeaderLineWhole(h: Header)
    requires WellFormedHeader(h)
    ensures HeaderLine(h) == h.name + ": " + h.value + "\r" + "\n"
  {
    hide CText;
    WholeText(h.name);
    WholeText(h.value);
  }

  lemma FeedHeaderLine(env: Env, v: View, h: Header)
    requires v.done == None && v.state == ST_HEADERS && v.line == "" && WellFormedHeader(h) && Fits(h)
    ensures Feed(env, v, HeaderLine(h)) == TakeHeader(LineTaken(v, h.name + ": " + h.value + "\r"), h)
  {
    hide Feed, ProcessHeaderLine, HeaderLine;
    var line := h.name + ": " + h.value + "\r";
    HeaderLineWhole(h);
    FeedWholeLine(env, v, line);
    HeaderLineTrims(h);
    HeaderLineReadsBack(LineTaken(v, line), h);
  }

  /** A blank line, which is a carriage return alone once the line feed is gone. */
  lemma FeedBlankLine(env: Env, v: View)
    requires v.done == None && v.state.IsLine() && v.line == ""
    ensures Feed(env, v, "\r\n") == Settle(ProcessLine(env, LineTaken(v, "\r"), ""))
  {
    hide Feed, Settle, ProcessLine;
    assert "\r\n" == "\r" + "\n";
    FeedWholeLine(env, v, "\r");
    TrimEnd("");
    assert "" + "\r" == "\r";
  }

  /** A header changes only what it describes. */
  lemma TakeHeaderFrame(v: View, h: Header)
    ensures var w := TakeHeader(v, h);
      && (w.done == None ==> v.done == None && w.headers == v.headers + [h])
      && w == v.(chunked := w.chunked, size := w.size, headers := w.headers, done := w.done)
  {
    hide EqualsIgnoreCase, ScanUnsigned;
  }

  lemma TakeHeaderUsed(v: View, h: Header, n: nat)
    ensures TakeHeader(v.(used := n), h) == TakeHeader(v, h).(used := n)
  {
    hide EqualsIgnoreCase, ScanUnsigned;
  }

  lemma {:induction false} TakeHeadersFrame(v: View, headers: seq<Header>)
    ensures var w := TakeHeaders(v, headers);
      && (w.done == None ==> v.done == None && w.headers == v.headers + headers)
      && w == v.(chunked := w.chunked, size := w.size, headers := w.headers, done := w.done)
  {
    hide TakeHeader;
    if headers != [] {
      var n := |headers| - 1;
      TakeHeadersFrame(v, headers[..n]);
      TakeHeaderFrame(TakeHeaders(v, headers[..n]), headers[n]);
      assert headers == headers[..n] + [headers[n]];
    } else {
      assert v.headers + headers == v.headers;
    }
  }

  /** The parser's view follows the printed headers one by one. */
  lemma {:induction false} FeedHeaderLines(env: Env, v: View, headers: seq<Header>)
    requires v.done == None && v.state == ST_HEADERS && v.line == ""
    requires forall h :: h in headers ==> WellFormedHeader(h) && Fits(h)
    requires TakeHeaders(v, headers).done == None
    ensures Feed(env, v, HeaderLines(headers)) == TakeHeaders(v, headers).(used := v.used + |HeaderLines(headers)|)
  {
    hide Feed, TakeHeader, HeaderLine;
    if headers == [] {
      FeedPartialLine(env, v, "");
      assert v.line + "" == "";
    } else {
      var n := |headers| - 1;
      var before, h := headers[..n], headers[n];
      FeedHeaderLines(env, v, before);
      FeedConcat(env, v, HeaderLines(before), HeaderLine(h));
      TakeHeadersFrame(v, before);
      var w := TakeHeaders(v, before);
      var m := v.used + |HeaderLines(before)|;
      FeedHeaderLine(env, w.(used := m), h);
      HeaderLineWhole(h);
      TakeHeaderUsed(w, h, m + |HeaderLine(h)|);
      assert LineTaken(w.(used := m), h.name + ": " + h.value + "\r") == w.(used := m + |HeaderLine(h)|);
    }
  }

  lemma {:induction false} SentFit(headers: seq<Header>)
    ensures forall h :: h in Sent(headers) ==> Fits(h)
  {
    if headers != [] { SentFit(headers[..|headers| - 1]); }
  }

  lemma LeaderLine(env: Env, leader: string)
    requires TrimRight(leader + "\r") == leader && env.parseLeader(leader) == HE_NONE
    ensures Settle(EndLine(env, Initial, leader + "\r")) == AfterLeader(leader)
  {
  }

  /** The view after the head: ready for the first chunk, or for the data. */
  function AfterHead(env: Env, leader: string, headers: seq<Header>): View {
    var v := AfterHeaders(leader, headers);
    v.(state := if v.chunked then ST_CHUNKSIZE else ST_DATA,
       size := env.headerComplete(v.leader, v.headers, v.chunked, v.size).size,
       used := |Head(leader, headers)|)
  }

  lemma HeadersEnd(env: Env, leader: string, headers: seq<Header>, v: View)
    requires Acceptable(env, leader, headers)
    requires v == AfterHeaders(leader, headers).(used := |leader| + 2 + |HeaderLines(Sent(headers))|)
    requires v.headers == Sent(headers) && v.leader == leader && !v.ignore && v.line == "" && v.state == ST_HEADERS
    ensures ProcessLine(env, LineTaken(v, "\r"), "") == AfterHead(env, leader, headers)
  {
    hide TakeHeaders;
  }

  /** Everything up to the blank line after the headers. */
  lemma FeedHead(env: Env, leader: string, headers: seq<Header>)
    requires Acceptable(env, leader, headers) && LeaderFits(leader)
    ensures Feed(env, Initial, Head(leader, headers)) == Settle(AfterHead(env, leader, headers))
  {
    hide Feed, TakeHeaders, Settle, HeaderLines, Sent, TrimRight, ProcessLine, EndLine, Fits, WellFormedHeader;
    var v0 := AfterLeader(leader);
    var text := HeaderLines(Sent(headers));
    var v1 := AfterHeaders(leader, headers);
    TrimEnd(leader);
    FeedWholeLine(env, Initial, leader + "\r");
    LeaderLine(env, leader);
    TakeHeadersFrame(v0, Sent(headers));
    FeedConcat(env, Initial, leader + "\r" + "\n", text);
    SentFit(headers);
    FeedHeaderLines(env, v0, Sent(headers));
    FeedConcat(env, Initial, leader + "\r" + "\n" + text, "\r\n");
    FeedBlankLine(env, v1.(used := v0.used + |text|));
    HeadersEnd(env, leader, headers, v1.(used := v0.used + |text|));
    assert leader + "\r" + "\n" == leader + "\r\n";
  }

  // ---- Reading chunks back -----------------------------------------------

  /** Where the parser stands between chunks. */
  predicate BetweenChunks(v: View) {
    v.done == None && v.state == ST_CHUNKSIZE && v.chunked && v.line == ""
  }

  /** The chunk size line, in the printer's eight digits. */
  lemma FeedChunkSize(env: Env, v: View, size: nat)
    requires BetweenChunks(v) && size < Power16(7)
    ensures Feed(env, v, HexDigits(size, 8) + "\r\n")
      == v.(state := if size == 0 then ST_TRAILERS else ST_DATA, size := size, used := v.used + 10)
  {
    hide Feed, HexDigits;
    var digits := HexDigits(size, 8);
    ChunkSizeReadsBack(size);
    assert Power16(7) == 0x1000_0000;
    assert !IsSpace(digits[7]) by { assert IsHex(digits[7]); }
    TrimRightAppend(digits, "\r");
    assert '\n' !in digits + "\r";
    FeedWholeLine(env, v, digits + "\r");
    assert digits + "\r" + "\n" == digits + "\r\n";
  }

  /** The blank line behind a chunk's data. */
  lemma FeedChunkEnd(env: Env, v: View)
    requires v.done == None && v.state == ST_DATA && v.chunked && v.size == 0 && v.line == ""
    ensures Feed(env, v, "\r\n") == v.(state := ST_CHUNKSIZE, used := v.used + 2)
  {
    hide Feed;
    FeedExhausted(env, v, "\r\n");
    FeedBlankLine(env, v.(state := ST_CHUNKTERM));
  }

  /** One chunk with data appends it to the document. */
  lemma FeedChunk(env: Env, v: View, data: string)
    requires BetweenChunks(v) && !v.ignore && env.hasDocument && 0 < |data| < Power16(7)
    ensures Feed(env, v, Chunk(data))
      == v.(body := v.body + data, size := 0, used := v.used + |Chunk(data)|)
  {
    hide Feed, HexDigits;
    var sizeLine := HexDigits(|data|, 8) + "\r\n";
    assert Power16(7) == 0x1000_0000;
    FeedChunkSize(env, v, |data|);
    var w := v.(state := ST_DATA, size := |data|, used := v.used + 10);
    FeedConcat(env, v, sizeLine, data + "\r\n");
    FeedData(env, w, data, "\r\n");
    FeedChunkEnd(env, TakeData(env, w, data));
    assert Chunk(data) == sizeLine + (data + "\r\n");
  }

  /** The view after some chunks with data. */
  function AfterChunks(v: View, pieces: seq<string>): View {
    v.(body := v.body + Concat(pieces), size := if pieces == [] then v.size else 0, used := v.used + |Chunks(pieces)|)
  }

  lemma AfterChunksSnoc(v: View, pieces: seq<string>, data: string)
    ensures var w := AfterChunks(v, pieces);
      AfterChunks(v, pieces + [data]) == w.(body := w.body + data, size := 0, used := w.used + |Chunk(data)|)
  {
    hide Concat, Chunk;
    ConcatSnoc(pieces, data);
    assert (pieces + [data])[..|pieces|] == pieces;
    assert v.body + Concat(pieces) + data == v.body + (Concat(pieces) + data);
  }

  /** Any list of non-empty chunks appends their concatenation. */
  lemma {:induction false} FeedChunks(env: Env, v: View, pieces: seq<string>)
    requires BetweenChunks(v) && !v.ignore && env.hasDocument
    requires forall p :: p in pieces ==> 0 < |p| < Power16(7)
    ensures Feed(env, v, Chunks(pieces)) == AfterChunks(v, pieces)
  {
    hide Feed, Chunk, Power16;
    if pieces == [] {
      FeedPartialLine(env, v, "");
      assert v.body + Concat(pieces) == v.body;
    } else {
      var n := |pieces| - 1;
      var before, data := pieces[..n], pieces[n];
      FeedChunks(env, v, before);
      FeedConcat(env, v, Chunks(before), Chunk(data));
      FeedChunk(env, AfterChunks(v, before), data);
      AfterChunksSnoc(v, before, data);
      assert pieces == before + [data];
    }
  }

  lemma TrimmedZeros(zeros: string)
    requires zeros == "0" || zeros == "00000000"
    ensures TrimRight(zeros + "\r") == zeros
  {
    TrimRightAppend(zeros, "\r");
  }

  lemma {:induction false} AllZeros(n: nat)
    ensures HexDigits(0, n) == seq(n, i => '0')
  {
    if n > 0 { AllZeros(n - 1); }
  }

  lemma ZerosAreZero(zeros: string)
    requires zeros == "0" || zeros == "00000000"
    ensures StrToUl16(zeros) == (0, true)
  {
    if zeros == "0" {
      HexReadsBack("", "", "", "0", "");
      assert "" + "" + ("" + "0") + "" == "0" && "0"[1..] == "";
    } else {
      assert Power16(7) == 0x1000_0000;
      ChunkSizeReadsBack(0);
      AllZeros(8);
      assert HexDigits(0, 8) == zeros;
    }
  }

  lemma FeedZeroSize(env: Env, v: View, zeros: string)
    requires BetweenChunks(v) && (zeros == "0" || zeros == "00000000")
    ensures Feed(env, v, zeros + "\r" + "\n") == v.(state := ST_TRAILERS, size := 0, used := v.used + |zeros| + 2)
  {
    hide Feed, StrToUl16, TrimRight;
    ZerosAreZero(zeros);
    TrimmedZeros(zeros);
    FeedWholeLine(env, v, zeros + "\r");
  }

  lemma FeedTrailersEnd(env: Env, v: View)
    requires v.done == None && v.state == ST_TRAILERS && v.line == ""
    ensures Feed(env, v, "\r\n") == v.(used := v.used + 2, done := Some(HE_NONE))
  {
    hide Feed;
    FeedBlankLine(env, v);
  }

  /** An empty chunk, eight zeros or one, ends the message together with the next blank line. */
  lemma FeedEmptyChunk(env: Env, v: View, zeros: string)
    requires BetweenChunks(v) && (zeros == "0" || zeros == "00000000")
    ensures Feed(env, v, zeros + "\r\n\r\n")
      == v.(state := ST_TRAILERS, size := 0, used := v.used + |zeros| + 4, done := Some(HE_NONE))
  {
    hide Feed;
    assert zeros + "\r\n\r\n" == (zeros + "\r" + "\n") + "\r\n";
    FeedZeroSize(env, v, zeros);
    FeedConcat(env, v, zeros + "\r" + "\n", "\r\n");
    FeedTrailersEnd(env, v.(state := ST_TRAILERS, size := 0, used := v.used + |zeros| + 2));
  }

  // ---- Round trips -------------------------------------------------------

  /** The view of a receiver that has read exactly this chunked message. */
  function Received(env: Env, leader: string, headers: seq<Header>, pieces: seq<string>, length: nat): View {
    AfterHead(env, leader, headers).(
      state := ST_TRAILERS, size := 0, body := Concat(pieces), used := length, done := Some(HE_NONE))
  }

  /** What it says about the message, field by field. */
  lemma ReceivedFields(env: Env, leader: string, headers: seq<Header>, pieces: seq<string>, length: nat)
    requires Acceptable(env, leader, headers)
    ensures var v := Received(env, leader, headers, pieces, length);
      && v.leader == leader && v.headers == Sent(headers) && v.body == Concat(pieces)
      && v.done == Some(HE_NONE) && v.used == length
  {
    hide TakeHeaders;
    TakeHeadersFrame(AfterLeader(leader), Sent(headers));
  }

  lemma ChunksThenEmpty(env: Env, leader: string, headers: seq<Header>, pieces: seq<string>, zeros: string,
    suffix: string)
    requires Acceptable(env, leader, headers) && LeaderFits(leader) && AfterHeaders(leader, headers).chunked
      && env.hasDocument
    requires forall p :: p in pieces ==> 0 < |p| < Power16(7)
    requires zeros == "0" || zeros == "00000000"
    ensures var read := Head(leader, headers) + Chunks(pieces) + (zeros + "\r\n\r\n");
      Feed(env, Initial, read + suffix) == Received(env, leader, headers, pieces, |read|)
  {
    hide Feed, Concat, TakeHeaders, Chunks;
    var head, chunks, last := Head(leader, headers), Chunks(pieces), zeros + "\r\n\r\n";
    FeedHead(env, leader, headers);
    TakeHeadersFrame(AfterLeader(leader), Sent(headers));
    var v := AfterHead(env, leader, headers);
    FeedChunks(env, v, pieces);
    FeedEmptyChunk(env, AfterChunks(v, pieces), zeros);
    assert "" + Concat(pieces) == Concat(pieces);
    FeedConcat(env, Initial, head, chunks);
    FeedConcat(env, Initial, head + chunks, last);
    var result := Received(env, leader, headers, pieces, |head + chunks + last|);
    FeedConcat(env, Initial, head + chunks + last, suffix);
    FeedDone(env, result, suffix);
  }

  /**
   * A chunked message reads back as it was sent, whatever follows it on the connection,
   * for every way of cutting the document into non-empty pieces.
   */
  lemma ChunkedRoundTrip(env: Env, leader: string, headers: seq<Header>, pieces: seq<string>, suffix: string)
    requires Acceptable(env, leader, headers) && LeaderFits(leader) && AfterHeaders(leader, headers).chunked
      && env.hasDocument
    requires forall p :: p in pieces ==> 0 < |p| < Power16(7)
    ensures var message := ChunkedMessage(leader, headers, pieces);
      Feed(env, Initial, message + suffix) == Received(env, leader, headers, pieces, |message|)
  {
    hide Feed, Concat, TakeHeaders;
    var message := ChunkedMessage(leader, headers, pieces);
    ChunksThenEmpty(env, leader, headers, pieces, "0", suffix);
    assert LastChunk == "0" + "\r\n\r\n";
  }

  lemma {:induction false} ChunksPrefix(pieces: seq<string>, k: nat)
    requires k <= |pieces|
    ensures Chunks(pieces[..k]) <= Chunks(pieces)
  {
    hide Chunk;
    if k < |pieces| {
      ChunksPrefix(pieces[..|pieces| - 1], k);
      assert pieces[..|pieces| - 1][..k] == pieces[..k];
    } else {
      assert pieces[..k] == pieces;
    }
  }

  lemma {:induction false} FirstEmpty(pieces: seq<string>) returns (k: nat)
    requires "" in pieces
    ensures k < |pieces| && pieces[k] == "" && "" !in pieces[..k]
  {
    if pieces[0] == "" {
      k := 0;
    } else {
      k := FirstEmpty(pieces[1..]);
      k := k + 1;
      assert pieces[..k] == [pieces[0]] + pieces[1..][..k - 1];
    }
  }

  lemma EmptyChunkText()
    ensures Chunk("") == "00000000" + "\r\n\r\n"
  {
    AllZeros(8);
  }

  lemma ChunksStep(pieces: seq<string>, k: nat)
    requires k < |pieces|
    ensures Chunks(pieces[..k + 1]) == Chunks(pieces[..k]) + Chunk(pieces[k])
  {
    hide Chunk;
    assert pieces[..k + 1][..k] == pieces[..k];
  }

  lemma PrefixAndRest(s: string, p: string)
    requires p <= s
    ensures s == p + s[|p|..]
  {
  }

  lemma JoinFive(h: string, a: string, b: string, c: string, d: string, e: string)
    ensures h + (a + b + c) + d + e == h + a + b + (c + d + e)
  {
  }

  /** The text up to the first empty chunk, and the rest. */
  lemma SplitAtEmpty(head: string, pieces: seq<string>, suffix: string) returns (k: nat, rest: string)
    requires "" in pieces
    ensures k < |pieces| && "" !in pieces[..k]
    ensures var read := head + Chunks(pieces[..k]) + ("00000000" + "\r\n\r\n");
      && head + Chunks(pieces) + LastChunk + suffix == read + rest
      && |read| < |head + Chunks(pieces) + LastChunk|
  {
    hide Chunk, Chunks;
    k := FirstEmpty(pieces);
    ChunksPrefix(pieces, k + 1);
    ChunksStep(pieces, k);
    EmptyChunkText();
    var before, empty, later := Chunks(pieces[..k]), Chunk(""), Chunks(pieces)[|Chunks(pieces[..k + 1])|..];
    rest := later + LastChunk + suffix;
    PrefixAndRest(Chunks(pieces), before + empty);
    JoinFive(head, before, empty, later, LastChunk, suffix);
  }

  /**
   * An empty piece prints as the last chunk: the receiver stops there. So a chunked message
   * is consumed to its last byte exactly when no piece is empty.
   */
  lemma ChunkedConsumedIffNoEmptyPiece(env: Env, leader: string, headers: seq<Header>, pieces: seq<string>,
    suffix: string)
    requires Acceptable(env, leader, headers) && LeaderFits(leader) && AfterHeaders(leader, headers).chunked
      && env.hasDocument
    requires forall p :: p in pieces ==> |p| < Power16(7)
    ensures var message := ChunkedMessage(leader, headers, pieces);
      Feed(env, Initial, message + suffix).used == |message| <==> "" !in pieces
  {
    hide Feed, Concat, TakeHeaders, Power16, Acceptable, AfterHeaders;
    if "" !in pieces {
      ChunkedRoundTrip(env, leader, headers, pieces, suffix);
    } else {
      hide Chunks;
      var k, rest := SplitAtEmpty(Head(leader, headers), pieces, suffix);
      ChunksThenEmpty(env, leader, headers, pieces[..k], "00000000", rest);
    }
  }

  /** A message whose length the parser knows reads back as well, and ends exactly there. */
  lemma SizedBody(env: Env, leader: string, headers: seq<Header>, body: string, suffix: string)
    requires Acceptable(env, leader, headers) && LeaderFits(leader) && !AfterHeaders(leader, headers).chunked
      && env.hasDocument
    requires AfterHead(env, leader, headers).size == |body| < SIZE_UNKNOWN
    ensures var message := Head(leader, headers) + body;
      Feed(env, Initial, message + suffix)
        == AfterHead(env, leader, headers).(body := body, size := 0, used := |message|, done := Some(HE_NONE))
  {
    hide Feed, TakeHeaders;
    FeedHead(env, leader, headers);
    TakeHeadersFrame(AfterLeader(leader), Sent(headers));
    var v := AfterHead(env, leader, headers);
    FeedConcat(env, Initial, Head(leader, headers), body + suffix);
    assert Head(leader, headers) + body + suffix == Head(leader, headers) + (body + suffix);
    assert "" + body == body;
    if body == "" {
      FeedDone(env, Settle(v), body + suffix);
    } else {
      FeedData(env, v, body, suffix);
      FeedExhausted(env, TakeData(env, v, body), suffix);
    }
  }

  // ---- An empty piece ----------------------------------------------------

  const WillingEnv: Env := Env(
    _ => HE_NONE, (leader, headers, chunked, size: size_t) => Decision(HE_NONE, size, false), true)

  /** The same coding to a receiver, whatever the case of its letters. */
  datatype Spelling = LowerCase | Capital

  function ChunkedHeader(spelling: Spelling): Header {
    Header("Transfer-Encoding", if spelling == LowerCase then "chunked" else "Chunked")
  }

  lemma PlainName()
    ensures var n := "Transfer-Encoding"; ':' !in n && '\n' !in n && '\0' !in n
  {
  }

  lemma PlainValue()
    ensures var v := "chunked"; '\n' !in v && '\0' !in v && TrimLeft(v) == v && TrimRight(v) == v
    ensures var v := "Chunked"; '\n' !in v && '\0' !in v && TrimLeft(v) == v && TrimRight(v) == v
  {
  }

  lemma ChunkedHeaderWellFormed(spelling: Spelling)
    ensures WellFormedHeader(ChunkedHeader(spelling))
  {
    hide TrimLeft, TrimRight;
    PlainName();
    PlainValue();
  }

  lemma SentOne(h: Header)
    requires Fits(h)
    ensures Sent([h]) == [h]
  {
    hide Fits;
    assert [h][..0] == [];
  }

  lemma TakeOne(v: View, h: Header)
    requires v.done == None
    ensures TakeHeaders(v, [h]) == TakeHeader(v, h)
  {
    hide TakeHeader;
    assert [h][..0] == [];
  }

  lemma HeedsChunked(v: View, spelling: Spelling)
    ensures var h := ChunkedHeader(spelling); TakeHeader(v, h) == v.(headers := v.headers + [h], chunked := true)
  {
    hide ScanUnsigned;
    assert |"Transfer-Encoding"| == 17 && |"Content-Length"| == 14;
    assert "Chunked"[1..] == "chunked"[1..];
  }

  lemma PlainLeader()
    ensures var l := "POST"; '\n' !in l && TrimRight(l) == l && |l| == 4
  {
  }

  lemma ChunkedHeaderFits(spelling: Spelling)
    ensures Fits(ChunkedHeader(spelling))
  {
    hide WellFormedHeader, HeaderLine;
    var h := ChunkedHeader(spelling);
    ChunkedHeaderWellFormed(spelling);
    HeaderLineWhole(h);
    assert |h.name| == 17 && |h.value| == 7;
  }

  lemma ChunkedHeaderAcceptable(spelling: Spelling)
    ensures var headers := [ChunkedHeader(spelling)];
      Acceptable(WillingEnv, "POST", headers) && AfterHeaders("POST", headers).chunked
  {
    hide TakeHeader, TakeHeaders, Sent, WellFormedHeader, TrimRight, Fits, ChunkedHeader;
    var h := ChunkedHeader(spelling);
    ChunkedHeaderWellFormed(spelling);
    ChunkedHeaderFits(spelling);
    PlainLeader();
    SentOne(h);
    TakeOne(AfterLeader("POST"), h);
    HeedsChunked(AfterLeader("POST"), spelling);
  }

  /** One document read of no bytes in front of another: the receiver stops before the second. */
  lemma EmptyPieceCutsOff()
    ensures var message := ChunkedMessage("POST", [ChunkedHeader(LowerCase)], ["", "rest"]);
      && Feed(WillingEnv, Initial, message).done.Some?
      && Feed(WillingEnv, Initial, message).used < |message|
      && Feed(WillingEnv, Initial, message).body == ""
  {
    hide Feed, Acceptable, AfterHeaders, Chunks, Received, ChunkedHeader;
    ChunkedHeaderAcceptable(LowerCase);
    var head, pieces := Head("POST", [ChunkedHeader(LowerCase)]), ["", "rest"];
    var k, rest := SplitAtEmpty(head, pieces, "");
    assert k == 0 && pieces[..0] == [];
    ChunksThenEmpty(WillingEnv, "POST", [ChunkedHeader(LowerCase)], [], "00000000", rest);
    ReceivedFields(WillingEnv, "POST", [ChunkedHeader(LowerCase)], [], |head + Chunks([]) + ("00000000" + "\r\n\r\n")|);
    assert ChunkedMessage("POST", [ChunkedHeader(LowerCase)], pieces) == head + Chunks(pieces) + LastChunk + "";
  }
}
