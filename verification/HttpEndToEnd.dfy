/** One HttpBase sends, another receives: the message arrives, whatever the network did to it. */
module HttpEndToEnd {
  import opened Util
  import opened HttpText
  import opened HttpParser
  import opened HttpPrinter
  import opened HttpHeaders
  import HttpReceiver
  import HttpSender

  /** The sender has finished, and the receiver's owner accepts the head of the message. */
  ghost predicate SentAll(s: HttpSender.HttpBase, env: Env)
    reads s
  {
    && s.Told() && s.completions_ == [HE_NONE] && s.hasDocument
    && env.hasDocument && Acceptable(env, s.leader, s.headers)
  }

  /** Its one Transfer-Encoding header says "chunked", and no read of the document was empty. */
  ghost predicate InChunks(s: HttpSender.HttpBase)
    reads s
  {
    Announces(s.headers, HH_TRANSFER_ENCODING, "chunked") && "" !in s.pieces_
  }

  /** It has no such header, and its one Content-Length header is the length of the document. */
  ghost predicate InOnePiece(s: HttpSender.HttpBase, env: Env)
    reads s
  {
    && NoneNamed(s.headers, HH_TRANSFER_ENCODING) && |s.body_| < SIZE_UNKNOWN
    && AnnouncesLength(s.headers, |s.body_|)
    && KeepsLength(env, s.leader, s.headers, |s.body_|)
  }

  ghost predicate SentWhole(s: HttpSender.HttpBase, env: Env)
    reads s
  {
    SentAll(s, env) && (InChunks(s) || InOnePiece(s, env))
  }

  /** A sender chunks its document, or not, as its headers announce it. */
  lemma CodingOfSender(headers: seq<Header>, value: string)
    ensures Announces(headers, HH_TRANSFER_ENCODING, value) ==>
      (HttpSender.SaysChunked(headers) <==> value == "chunked")
    ensures NoneNamed(headers, HH_TRANSFER_ENCODING) ==> !HttpSender.SaysChunked(headers)
  {
    hide Named, Fits;
    HasHeaderMeans(headers, HH_TRANSFER_ENCODING);
    if Announces(headers, HH_TRANSFER_ENCODING, value) {
      var k :| 0 <= k < |headers| && Sole(headers, k, HH_TRANSFER_ENCODING) && headers[k].value == value;
      SoleInside(headers, k, HH_TRANSFER_ENCODING);
    }
  }

  /** What the wire means, with anything behind it. */
  ghost predicate MeansMessage(s: HttpSender.HttpBase, v: View)
    reads s
  {
    && v.leader == s.leader && v.headers == Sent(s.headers) && v.body == s.body_
    && v.used == |s.wire_| && v.done == Some(HE_NONE)
  }

  lemma AcceptableIsTaken(env: Env, leader: string, headers: seq<Header>)
    requires Acceptable(env, leader, headers)
    ensures AfterHeaders(leader, headers).done == None
  {
  }

  lemma SameText(s: string)
    ensures EqualsIgnoreCase(s, s)
  {
  }

  lemma ChunksMeaning(s: HttpSender.HttpBase, env: Env, suffix: string)
    requires SentAll(s, env) && InChunks(s)
    ensures MeansMessage(s, Feed(env, Initial, s.wire_ + suffix))
  {
    hide Feed, Head, Chunks, Acceptable, AfterHeaders, Received, Concat, Announces, EqualsIgnoreCase;
    assert AfterHeaders(s.leader, s.headers).done == None by { AcceptableIsTaken(env, s.leader, s.headers); }
    CodingOfSender(s.headers, "chunked");
    CodingAnnounced(s.leader, s.headers, "chunked");
    SameText("chunked");
    assert Power16(7) == 0x1000_0000;
    ChunkedRoundTrip(env, s.leader, s.headers, s.pieces_, suffix);
    HttpSender.JoinThree(Head(s.leader, s.headers), Chunks(s.pieces_), LastChunk);
    assert s.wire_ == ChunkedMessage(s.leader, s.headers, s.pieces_);
    ReceivedFields(env, s.leader, s.headers, s.pieces_, |s.wire_|);
  }

  lemma PieceMeaning(s: HttpSender.HttpBase, env: Env, suffix: string)
    requires SentAll(s, env) && InOnePiece(s, env)
    ensures MeansMessage(s, Feed(env, Initial, s.wire_ + suffix))
  {
    hide Feed, Head, Chunks, Acceptable, Concat, AnnouncesLength, NoneNamed, KeepsLength;
    CodingOfSender(s.headers, "");
    SizedRoundTrip(env, s.leader, s.headers, s.body_, suffix);
    assert Concat(s.pieces_) + "" == Concat(s.pieces_);
    assert s.wire_ == Head(s.leader, s.headers) + s.body_;
  }

  lemma WireMeaning(s: HttpSender.HttpBase, env: Env, suffix: string)
    requires SentWhole(s, env)
    ensures MeansMessage(s, Feed(env, Initial, s.wire_ + suffix))
  {
    hide SentAll, InChunks, InOnePiece, MeansMessage;
    if InChunks(s) { ChunksMeaning(s, env, suffix); } else { PieceMeaning(s, env, suffix); }
  }

  /** The receiver has the sender's message, and has consumed nothing behind it. */
  ghost predicate HasMessage(s: HttpSender.HttpBase, r: HttpReceiver.HttpBase)
    requires r.Valid()
    reads s, r, r.buffer_
  {
    && r.outcome_ == Some((HttpReceiver.Parsed, HE_NONE))
    && r.leader_ == s.leader && r.headers_ == Sent(s.headers) && r.document_ == s.body_
    && r.used_ == |s.wire_| <= |r.received_| && r.buffer_[..r.len_] == r.received_[|s.wire_|..]
  }

  /**
   * However a receiver has come to the end of the message, it has the sender's leader, headers
   * and document, and has consumed the message to its last byte and nothing behind it: for every
   * packing of the buffer, every partial write, every cut of the stream and every partial
   * acceptance. None of its lines overflows the receiver's buffer.
   */
  lemma DeliveredAsSent(s: HttpSender.HttpBase, r: HttpReceiver.HttpBase, suffix: string)
    requires SentWhole(s, r.env)
    requires r.Inv() && HttpReceiver.Concluded(r) && r.received_ <= s.wire_ + suffix
    ensures HasMessage(s, r)
  {
    hide Feed, SentWhole;
    WireMeaning(s, r.env, suffix);
    HttpReceiver.EndIsStable(r.env, r.received_, s.wire_ + suffix);
    HttpReceiver.ReceiverHoldsMeaning(r);
  }

  /** The message is kept from the receiver's owner by its document alone. */
  ghost predicate HeldUpByDocument(r: HttpReceiver.HttpBase)
    reads r
  {
    if r.outcome_ == None || r.outcome_.value.0.StreamClosed? then !HttpReceiver.NeverBlocks(r.script) && r.len_ > 0
    else r.outcome_.value.0 == HttpReceiver.SinkFailed && !HttpReceiver.NeverFails(r.script)
  }

  /** Once the last byte has arrived, a receiver has the message, or its document has blocked or failed. */
  lemma NotLeftWaiting(s: HttpSender.HttpBase, r: HttpReceiver.HttpBase)
    requires SentWhole(s, r.env) && r.Inv() && s.wire_ <= r.received_
    ensures HasMessage(s, r) || HeldUpByDocument(r)
    ensures HttpReceiver.NeverBlocks(r.script) && HttpReceiver.NeverFails(r.script) ==> HasMessage(s, r)
  {
    hide Feed, SentWhole;
    var rest := r.received_[|s.wire_|..];
    assert s.wire_ + rest == r.received_;
    WireMeaning(s, r.env, rest);
    if HttpReceiver.Concluded(r) {
      DeliveredAsSent(s, r, rest);
    } else if r.outcome_ == None || r.outcome_.value.0.StreamClosed? {
      var v := if r.outcome_ == None then r.Current() else r.final_;
      if HttpReceiver.StuckAt(v, r.buffer_[..r.len_]) { HttpReceiver.StuckMeaning(r.env, v, r.buffer_[..r.len_]); }
    }
  }

  // ---- A coding in capitals ----------------------------------------------

  /**
   * Both ends go by the same coding except for spellings of "chunked" other than this one: the
   * sender wants just these letters, the receiver any case of them.
   */
  lemma CodingsAgreeIff(leader: string, headers: seq<Header>, value: string)
    requires AfterHeaders(leader, headers).done == None && Announces(headers, HH_TRANSFER_ENCODING, value)
    ensures (HttpSender.SaysChunked(headers) <==> AfterHeaders(leader, headers).chunked)
      <==> (value == "chunked" || !EqualsIgnoreCase(value, "chunked"))
  {
    hide Announces, AfterHeaders, HttpSender.SaysChunked, EqualsIgnoreCase;
    CodingOfSender(headers, value);
    CodingAnnounced(leader, headers, value);
    SameText("chunked");
  }

  lemma FreshHead(env: Env, leader: string, headers: seq<Header>)
    requires AfterHeaders(leader, headers).done == None && AfterHeaders(leader, headers).chunked
    ensures var v := AfterHead(env, leader, headers); AtLine(v, ST_CHUNKSIZE) && v.chunked && Settle(v) == v
  {
    hide TakeHeaders;
    TakeHeadersFrame(AfterLeader(leader), Sent(headers));
  }

  lemma NoSize()
    ensures LineFits("text") && TrimRight("text") == "text" && !StrToUl16("text").1
  {
    assert TrimLeft("text") == "text";
  }

  /** "Chunked": the document goes out bare, and the receiver looks for a chunk size in it. */
  lemma CapitalChunked()
    ensures var headers := [ChunkedHeader(Capital)];
      && Acceptable(WillingEnv, "POST", headers) && !HttpSender.SaysChunked(headers)
      && Feed(WillingEnv, Initial, Head("POST", headers) + "text\n").done == Some(HE_PROTOCOL)
  {
    hide Feed, Head, AfterHeaders, Acceptable;
    var h := ChunkedHeader(Capital);
    ChunkedHeaderAcceptable(Capital);
    FeedHead(WillingEnv, "POST", [h]);
    FeedConcat(WillingEnv, Initial, Head("POST", [h]), "text\n");
    var v := AfterHead(WillingEnv, "POST", [h]);
    AcceptableIsTaken(WillingEnv, "POST", [h]);
    FreshHead(WillingEnv, "POST", [h]);
    NoSize();
    assert "text" + "\n" == "text\n";
    ChunkSizeMeans(WillingEnv, v, "text");
    assert [h][1..] == [];
    assert !HttpSender.SaysChunked([h]);
  }
}
