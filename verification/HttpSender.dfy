/**
 * The sending side of HttpBase: send, flush_data and queue_headers pack the leader, the
 * headers and the document through one 32 KB buffer onto a network that takes any part of
 * what it is offered. Whatever the scripts do, the bytes on the wire and the bytes still
 * buffered are a printed message (HttpPrinter.dfy) as far as it has got.
 */
module HttpSender {
  import opened Util
  import opened HttpText
  import opened HttpParser
  import opened HttpPrinter
  import opened HttpHeaders

  /** What the document does with the next read; an empty script is its end. */
  datatype DocEvent = Piece(data: string) | DocBlock | DocError

  /** What the network does with the next write; an empty script takes everything. */
  datatype WriteEvent = Taken(count: nat) | WriteBlock | WriteError(code: int)

  datatype ReadResult = Read(data: string) | Blocked | Eos | Failed

  function DocBytes(script: seq<DocEvent>): string {
    if script == [] then ""
    else (if script[0].Piece? then script[0].data else "") + DocBytes(script[1..])
  }

  function DocSize(script: seq<DocEvent>): nat {
    if script == [] then 0
    else 1 + (if script[0].Piece? then |script[0].data| else 0) + DocSize(script[1..])
  }

  predicate NoEmptyPiece(script: seq<DocEvent>) { forall e :: e in script && e.Piece? ==> e.data != "" }

  /** Every read of the document makes progress. */
  predicate Flowing(script: seq<DocEvent>) {
    forall e :: e in script ==> !e.DocBlock? && (e.Piece? ==> e.data != "")
  }

  /** How many of the next writes are refused. */
  function LeadingBlocks(script: seq<WriteEvent>): nat {
    if script != [] && script[0].WriteBlock? then 1 + LeadingBlocks(script[1..]) else 0
  }

  /** How many writes take something, or fail, before the script ends. */
  function Takes(script: seq<WriteEvent>): nat {
    if script == [] then 0 else (if script[0].WriteBlock? then 0 else 1) + Takes(script[1..])
  }

  predicate NeverBlocks(script: seq<WriteEvent>) { forall e :: e in script ==> !e.WriteBlock? }

  /** Neither the document nor the network fails. */
  predicate Healthy(doc: seq<DocEvent>, writes: seq<WriteEvent>) {
    DocError !in doc && forall e :: e in writes ==> !e.WriteError?
  }

  /** memcpy of text to the given offset. */
  function Overwritten(memory: string, offset: nat, text: string): (r: string)
    requires offset + |text| <= |memory|
    ensures |r| == |memory|
  {
    memory[..offset] + text + memory[offset + |text|..]
  }

  /** A size line and a line end around document bytes already in place make a chunk. */
  lemma ChunkInPlace(memory: string, start: nat, digits: string, data: string)
    requires |digits| == kChunkDigits && start + kChunkDigits + 2 + |data| + 2 <= |memory|
    requires memory[start + kChunkDigits + 2..][..|data|] == data
    ensures
      var offset := start + kChunkDigits + 2;
      var m1 := Overwritten(memory, start, digits);
      var m2 := Overwritten(m1, start + kChunkDigits, "\r\n");
      Overwritten(m2, offset + |data|, "\r\n")[..offset + |data| + 2]
        == memory[..start] + (digits + "\r\n" + data + "\r\n")
  {
    var offset := start + kChunkDigits + 2;
    var a, tail := memory[..start], memory[offset..];
    assert memory[start + kChunkDigits..][2..] == tail;
    var m1 := a + digits + memory[start + kChunkDigits..];
    var m2 := m1[..start + kChunkDigits] + "\r\n" + m1[offset..];
    assert m1[..start + kChunkDigits] == a + digits;
    assert m1[offset..] == tail;
    assert m2 == (a + digits + "\r\n" + data) + tail[|data|..];
  }

  lemma HeadIs(leader: string, headers: seq<Header>)
    ensures Head(leader, headers) == leader + "\r\n" + HeaderLines(Sent(headers)) + "\r\n"
  {
  }

  lemma NoHeadersYet(leader: string, headers: seq<Header>)
    ensures leader + "\r\n" + HeaderLines(Sent(headers[..0])) == leader + "\r\n"
  {
    assert headers[..0] == [];
  }

  /** One more header, sent or dropped. */
  lemma NextHeader(headers: seq<Header>, k: nat)
    requires k < |headers|
    ensures HeaderLines(Sent(headers[..k + 1]))
      == HeaderLines(Sent(headers[..k])) + (if Fits(headers[k]) then HeaderLine(headers[k]) else "")
  {
    hide HeaderLine;
    assert headers[..k + 1][..k] == headers[..k];
    var before := Sent(headers[..k]);
    if Fits(headers[k]) {
      assert Sent(headers[..k + 1]) == before + [headers[k]];
      assert (before + [headers[k]])[..|before|] == before;
    } else {
      assert Sent(headers[..k + 1]) == before;
    }
  }

  /** The document as sent so far: in chunks or as it is, with or without the last chunk. */
  function BodyText(chunked: bool, ended: bool, pieces: seq<string>): string {
    (if chunked then Chunks(pieces) else Concat(pieces)) + (if ended then LastChunk else "")
  }

  lemma BodySnoc(chunked: bool, pieces: seq<string>, data: string)
    ensures BodyText(chunked, false, pieces + [data])
      == BodyText(chunked, false, pieces) + (if chunked then Chunk(data) else data)
  {
    hide Chunk;
    ConcatSnoc(pieces, data);
    assert (pieces + [data])[..|pieces|] == pieces;
  }

  lemma JoinThree(a: string, b: string, c: string)
    ensures a + b + c == a + (b + c)
  {
  }

  /** How many of the writes have been made when those are left. */
  predicate Leaves(writes: seq<WriteEvent>, left: seq<WriteEvent>) {
    |left| <= |writes| && left == writes[|writes| - |left|..]
  }

  /** None of the writes made has failed. */
  predicate NoneFailed(writes: seq<WriteEvent>, left: seq<WriteEvent>)
    requires Leaves(writes, left)
  {
    forall i :: 0 <= i < |writes| - |left| ==> !writes[i].WriteError?
  }

  /** The last write made has failed, and the owner has been told so. */
  predicate LastFailed(writes: seq<WriteEvent>, left: seq<WriteEvent>, completions: seq<HttpError>)
    requires Leaves(writes, left)
  {
    |left| < |writes| && var last := writes[|writes| - |left| - 1];
    last.WriteError? && completions == [CloseError(last.code, false, false)]
  }

  /** What the owner has been told, and why: nothing is hidden from it, and nothing is made up. */
  predicate ToldWhy(hasDocument: bool, doc: seq<DocEvent>, docLeft: seq<DocEvent>,
                    writes: seq<WriteEvent>, left: seq<WriteEvent>, completions: seq<HttpError>)
    requires Leaves(writes, left)
  {
    || (completions == [] && NoneFailed(writes, left) && (DocError in docLeft <==> DocError in doc))
    || (completions == [HE_NONE] && NoneFailed(writes, left) && (hasDocument ==> DocError !in doc))
    || (completions == [HE_STREAM] && NoneFailed(writes, left) && DocError in doc)
    || LastFailed(writes, left, completions)
  }

  lemma LeavesTwice(writes: seq<WriteEvent>, middle: seq<WriteEvent>, left: seq<WriteEvent>)
    requires Leaves(writes, middle) && Leaves(middle, left)
    ensures Leaves(writes, left)
    ensures NoneFailed(writes, middle) && NoneFailed(middle, left) ==> NoneFailed(writes, left)
    ensures |left| < |middle| ==> middle[|middle| - |left| - 1] == writes[|writes| - |left| - 1]
  {
    var k := |writes| - |middle|;
    assert forall i :: 0 <= i < |middle| ==> middle[i] == writes[k + i];
  }

  /** What one turn has told, seen from the start. */
  lemma ToldTwice(hasDocument: bool, doc: seq<DocEvent>, docMiddle: seq<DocEvent>, docLeft: seq<DocEvent>,
                  writes: seq<WriteEvent>, middle: seq<WriteEvent>, left: seq<WriteEvent>, completions: seq<HttpError>)
    requires Leaves(writes, middle) && Leaves(middle, left)
    requires ToldWhy(hasDocument, doc, docMiddle, writes, middle, [])
    requires ToldWhy(hasDocument, docMiddle, docLeft, middle, left, completions)
    ensures Leaves(writes, left) && ToldWhy(hasDocument, doc, docLeft, writes, left, completions)
  {
    LeavesTwice(writes, middle, left);
  }

  /** The document goes out in chunks: the Transfer-Encoding header says so, in just these letters. */
  predicate SaysChunked(headers: seq<Header>) { HasHeader(headers, HH_TRANSFER_ENCODING) == Some("chunked") }

  class HttpBase {
    const leader: string
    const headers: seq<Header>
    const hasDocument: bool
    const chunked: bool := SaysChunked(headers)
    var mode_: HttpMode
    var buffer_: array<char>
    var len_: nat
    var chunk_data_: bool
    var header_: nat              // the iterator over headers
    // Environment
    var doc_: seq<DocEvent>
    var writes_: seq<WriteEvent>
    var completions_: seq<HttpError>
    // History
    ghost var wire_: string       // every byte the network took
    ghost var pieces_: seq<string>
    ghost var body_: string       // the whole document

    /** The part of the message produced so far. */
    ghost function Produced(): string
      reads `header_, `chunk_data_, `pieces_
      requires header_ <= |headers|
    {
      if header_ < |headers| then leader + "\r\n" + HeaderLines(Sent(headers[..header_]))
      else Head(leader, headers) + Body()
    }

    ghost function Body(): string
      reads `chunk_data_, `pieces_
    {
      if hasDocument then BodyText(chunked, chunked && !chunk_data_, pieces_) else ""
    }

    /** Wire and buffer hold exactly what has been produced. */
    ghost predicate Framed()
      reads `buffer_, buffer_, `len_, `header_, `wire_, `chunk_data_, `pieces_
    {
      && buffer_.Length == kBufferSize && len_ <= kBufferSize && header_ <= |headers|
      && wire_ + buffer_[..len_] == Produced()
    }

    ghost predicate Valid()
      reads `buffer_, buffer_, `len_, `header_, `wire_, `chunk_data_, `pieces_, `doc_, `body_
    {
      && Framed() && header_ <= |headers| && len_ <= kBufferSize == buffer_.Length && LeaderFits(leader)
      && Concat(pieces_) + DocBytes(doc_) == body_
      && (forall p :: p in pieces_ ==> |p| <= kBufferSize)
      && (chunk_data_ ==> chunked)
      && (header_ < |headers| ==> pieces_ == [] && chunk_data_ == chunked && len_ + 2 < kBufferSize)
      && (hasDocument && chunked && !chunk_data_ ==> doc_ == [])
    }

    /** Leader and some headers are produced; the blank line is not. */
    ghost predicate HeadOpen()
      reads this, buffer_
    {
      && buffer_.Length == kBufferSize && len_ + 2 < kBufferSize && header_ <= |headers| && LeaderFits(leader)
      && wire_ + buffer_[..len_] == leader + "\r\n" + HeaderLines(Sent(headers[..header_]))
      && pieces_ == [] && chunk_data_ == chunked && DocBytes(doc_) == body_
    }

    /** What is left to put into the buffer; it never grows. */
    ghost function Work(): nat
      reads `doc_, `header_, `chunk_data_
      requires header_ <= |headers|
    {
      DocSize(doc_) + (|headers| - header_) + (if chunk_data_ then 1 else 0)
    }

    /** Nothing is left to do but to write the buffer. */
    predicate Idle()
      reads `header_, `len_
    {
      !hasDocument && header_ == |headers| && len_ > 0
    }

    /** How many turns of the flush loop are still ahead, but for refused writes. */
    ghost function Ahead(): nat
      reads `doc_, `header_, `chunk_data_, `writes_, `len_
      requires header_ <= |headers|
    {
      Takes(writes_) + 2 * Work() + (if len_ > 0 then 1 else 0)
    }

    /** The whole message has been taken by the network. */
    ghost predicate Finished()
      reads this
    {
      && mode_ == HM_NONE && LeaderFits(leader)
      && wire_ == Head(leader, headers)
           + (if hasDocument then BodyText(chunked, chunked, pieces_) else "")
      && (hasDocument ==> Concat(pieces_) == body_)
      && (forall p :: p in pieces_ ==> |p| <= kBufferSize)
    }

    /** The owner is told exactly once, and told of success only when everything was sent. */
    ghost predicate Told()
      reads this
    {
      && (mode_ == HM_SEND ==> completions_ == [])
      && (mode_ != HM_SEND ==> mode_ == HM_NONE && |completions_| == 1)
      && (completions_ == [HE_NONE] ==> Finished())
    }

    constructor (leader: string, headers: seq<Header>, hasDocument: bool, doc: seq<DocEvent>, writes: seq<WriteEvent>)
      requires LeaderFits(leader)
      ensures this.leader == leader && this.headers == headers && this.hasDocument == hasDocument
      ensures chunked <==>
        exists k: nat :: FirstNamed(headers, HH_TRANSFER_ENCODING, k) && headers[k].value == "chunked"
      ensures doc_ == doc && writes_ == writes && mode_ == HM_NONE && completions_ == []
      ensures fresh(buffer_) && buffer_.Length == kBufferSize
      ensures wire_ == "" && pieces_ == [] && body_ == DocBytes(doc)
    {
      this.leader, this.headers, this.hasDocument := leader, headers, hasDocument;
      mode_, len_, chunk_data_, header_ := HM_NONE, 0, false, 0;
      buffer_ := new char[kBufferSize];
      doc_, writes_, completions_ := doc, writes, [];
      wire_, pieces_, body_ := "", [], DocBytes(doc);
      HasHeaderMeans(headers, HH_TRANSFER_ENCODING);
    }

    /** Copies text behind the buffered bytes without counting it yet. */
    method WriteAt(offset: nat, text: string)
      requires len_ <= offset && offset + |text| <= buffer_.Length
      modifies buffer_
      ensures buffer_[..] == Overwritten(old(buffer_[..]), offset, text)
    {
      forall i | 0 <= i < |text| { buffer_[offset + i] := text[i]; }
    }

    method Append(text: string)
      requires len_ + |text| <= buffer_.Length
      modifies `len_, buffer_
      ensures len_ == old(len_) + |text|
      ensures buffer_[..len_] == old(buffer_[..len_]) + text
    {
      WriteAt(len_, text);
      len_ := len_ + |text|;
    }

    /** Starts sending: the leader, and the blank line at once when there are no headers. */
    method Send() returns (ghost turns: nat)
      requires mode_ == HM_NONE && buffer_.Length == kBufferSize && LeaderFits(leader)
      requires completions_ == [] && wire_ == "" && pieces_ == [] && body_ == DocBytes(doc_)
      modifies this, buffer_
      ensures Valid() && buffer_ == old(buffer_) && body_ == old(body_)
      ensures Told()
      ensures old(NoEmptyPiece(doc_)) ==> NoEmptyPiece(doc_) && "" !in pieces_
      ensures old(Flowing(doc_) && NeverBlocks(writes_)) ==> mode_ == HM_NONE
      // Success, a failing document, or the network's error, and nothing else.
      ensures Leaves(old(writes_), writes_)
      ensures ToldWhy(hasDocument, old(doc_), doc_, old(writes_), writes_, completions_)
      // A document bounds the turns of the flush loop; without one every refused write is one more.
      ensures hasDocument ==> turns <= Takes(old(writes_)) + 2 * (DocSize(old(doc_)) + |headers| + 1) + 2
      ensures !hasDocument && headers == [] ==> turns >= LeadingBlocks(old(writes_))
      // Without failures there is no other end than success.
      ensures old(Healthy(doc_, writes_)) && mode_ != HM_SEND ==> completions_ == [HE_NONE]
    {
      hide Valid, DocBytes, DocSize, NoEmptyPiece, Flowing, NeverBlocks, Finished, Healthy;
      BeginMessage();
      turns := FlushData();
    }

    /** The leader, and the blank line if nothing else comes before it. */
    method BeginMessage()
      requires mode_ == HM_NONE && buffer_.Length == kBufferSize && LeaderFits(leader)
      requires completions_ == [] && wire_ == "" && pieces_ == [] && body_ == DocBytes(doc_)
      modifies `mode_, `len_, `header_, `chunk_data_, buffer_
      ensures Valid() && mode_ == HM_SEND && header_ == 0 <= |headers|
      ensures 0 < len_ < kBufferSize && (chunk_data_ ==> chunked)
    {
      hide Head, HeaderLines, Sent, DocBytes, BodyText;
      mode_, len_, header_ := HM_SEND, 0, 0;
      chunk_data_ := chunked;
      Append(leader);
      Append("\r\n");
      NoHeadersYet(leader, headers);
      assert buffer_[..len_] == leader + "\r\n";
      assert HeadOpen();
      if header_ == |headers| { var _ := QueueHeaders(); } else { HeadOpenIsValid(); }
    }

    lemma HeadOpenIsValid()
      requires HeadOpen() && header_ < |headers|
      ensures Valid()
    {
    }

    lemma ValidIsHeadOpen()
      requires Valid() && header_ < |headers|
      ensures HeadOpen()
    {
      assert Concat<char>([]) == [];
    }

    /** Packs as many headers as fit; true when the buffer must be written first. */
    method QueueHeaders() returns (sendRequired: bool)
      requires HeadOpen()
      modifies `len_, `header_, buffer_
      ensures Valid() && old(header_) <= header_ <= |headers|
      ensures sendRequired <==> header_ < |headers|
      ensures sendRequired ==> len_ > 0 && (header_ == old(header_) ==> len_ == old(len_))
      ensures !sendRequired ==> len_ > 0
      ensures old(header_) == |headers| ==> !sendRequired && len_ == old(len_) + 2
    {
      hide HeaderLines, Sent, Head, HeaderLine;
      while header_ < |headers|
        invariant old(header_) <= header_ <= |headers| && len_ + 2 < kBufferSize
        invariant wire_ + buffer_[..len_] == leader + "\r\n" + HeaderLines(Sent(headers[..header_]))
        invariant header_ == old(header_) ==> len_ == old(len_)
      {
        NextHeader(headers, header_);
        ghost var before, text := buffer_[..len_], HeaderLine(headers[header_]);
        var accepted := QueueHeader(HeaderLine(headers[header_]));
        assert wire_ + (before + text) == wire_ + before + text;
        assert leader + "\r\n" + HeaderLines(Sent(headers[..header_])) + text
          == leader + "\r\n" + (HeaderLines(Sent(headers[..header_])) + text);
        assert buffer_[..len_] == before + (if accepted then text else "");
        if accepted || len_ == 0 {
          header_ := header_ + 1;
        } else {
          return true;
        }
      }
      assert headers[..header_] == headers;
      Append("\r\n");
      HeadIs(leader, headers);
      assert wire_ + buffer_[..len_] == Head(leader, headers) + Body();
      return false;
    }

    /** Prints one header line into the rest of the buffer and keeps it if it fits. */
    method QueueHeader(text: string) returns (accepted: bool)
      requires buffer_.Length == kBufferSize && len_ + 2 < kBufferSize
      modifies `len_, buffer_
      ensures accepted <==> old(len_) + |text| < kBufferSize - 3
      ensures len_ == old(len_) + (if accepted then |text| else 0)
      ensures buffer_[..len_] == old(buffer_[..len_]) + (if accepted then text else "")
    {
      var room := kBufferSize - len_;
      var written := if |text| < room then text else text[..room - 1];  // sprintfn truncates
      WriteAt(len_, written);
      accepted := len_ + |written| < kBufferSize - 3;
      if accepted { len_ := len_ + |written|; }
    }

    /** The document delivers at most room bytes. */
    method ReadDocument(room: nat) returns (result: ReadResult)
      requires room > 0
      modifies `doc_
      ensures result.Read? ==> |result.data| <= room && DocBytes(old(doc_)) == result.data + DocBytes(doc_)
      ensures !result.Read? ==> DocBytes(old(doc_)) == DocBytes(doc_)
      ensures result.Failed? <==> old(doc_ != [] && doc_[0].DocError?)
      ensures !result.Failed? ==> (DocError in doc_ <==> DocError in old(doc_))
      ensures DocError in doc_ ==> DocError in old(doc_)
      ensures result.Eos? <==> old(doc_) == []
      ensures result.Read? <==> old(doc_ != [] && doc_[0].Piece?)
      ensures result.Read? ==> result.data == old(doc_)[0].data[..Min(room, |old(doc_)[0].data|)]
      ensures !result.Read? ==> doc_ == if old(doc_) == [] then [] else old(doc_)[1..]
      ensures if result.Eos? then doc_ == [] else DocSize(doc_) < DocSize(old(doc_))
      ensures result.Blocked? ==> old(doc_[0].DocBlock?)
      ensures NoEmptyPiece(old(doc_)) ==> NoEmptyPiece(doc_) && (result.Read? ==> result.data != "")
      ensures Flowing(old(doc_)) ==> Flowing(doc_) && !result.Blocked?
    {
      if doc_ == [] { return Eos; }
      var event := doc_[0];
      assert forall e :: e in doc_[1..] ==> e in doc_;
      doc_ := doc_[1..];
      match event {
        case Piece(data) =>
          if |data| <= room { return Read(data); }
          doc_ := [Piece(data[room..])] + doc_;
          assert data == data[..room] + data[room..];
          return Read(data[..room]);
        case DocBlock => return Blocked;
        case DocError => return Failed;
      }
    }

    /** Puts the size line before document bytes already in place, and ends the chunk. */
    method FrameChunk(offset: nat, data: string)
      requires offset == len_ + kChunkDigits + 2 && offset + |data| + 2 <= buffer_.Length
      requires buffer_[..][offset..][..|data|] == data
      modifies `len_, buffer_
      ensures len_ == old(len_) + |Chunk(data)|
      ensures buffer_[..len_] == old(buffer_[..len_]) + Chunk(data)
    {
      ghost var before := buffer_[..len_];
      var digits := HexDigits(|data|, kChunkDigits);
      ChunkInPlace(buffer_[..], len_, digits, data);
      WriteAt(len_, digits);
      WriteAt(len_ + kChunkDigits, "\r\n");
      WriteAt(offset + |data|, "\r\n");
      len_ := offset + |data| + 2;
      assert buffer_[..len_] == before + Chunk(data);
    }

    /** do_complete: the owner is told, and the sender is idle again. */
    method DoComplete(error: HttpError)
      requires completions_ == []
      modifies `mode_, `completions_
      ensures mode_ == HM_NONE && completions_ == [error]
      ensures error != HE_NONE ==> Told()
    {
      mode_ := HM_NONE;
      completions_ := completions_ + [error];
    }

    /** Document bytes join the buffer as they are, or as a chunk. */
    method QueueData(data: string)
      requires Framed() && LeaderFits(leader) && header_ == |headers| && hasDocument && chunk_data_ == chunked
      requires Concat(pieces_) + (data + DocBytes(doc_)) == body_ && (forall p :: p in pieces_ ==> |p| <= kBufferSize)
      requires len_ + |data| + (if chunked then kChunkDigits + 4 else 0) <= kBufferSize
      modifies `len_, `pieces_, buffer_
      ensures Valid() && pieces_ == old(pieces_) + [data] && len_ >= old(len_) + |data|
      ensures chunked ==> len_ > 0
    {
      hide Head, Chunk, Concat, DocBytes, BodyText;
      if chunk_data_ { AppendChunk(data); } else { Append(data); }
      BodySnoc(chunked, pieces_, data);
      ConcatSnoc(pieces_, data);
      JoinThree(wire_, old(buffer_[..len_]), if chunked then Chunk(data) else data);
      JoinThree(Head(leader, headers), BodyText(chunked, false, pieces_), if chunked then Chunk(data) else data);
      JoinThree(Concat(pieces_), data, DocBytes(doc_));
      pieces_ := pieces_ + [data];
    }

    /** The document is read into its place first; the frame goes around it. */
    method AppendChunk(data: string)
      requires len_ + |data| + kChunkDigits + 4 <= buffer_.Length
      modifies `len_, buffer_
      ensures len_ == old(len_) + |data| + kChunkDigits + 4
      ensures buffer_[..len_] == old(buffer_[..len_]) + Chunk(data)
    {
      var offset := len_ + kChunkDigits + 2;
      WriteAt(offset, data);
      assert buffer_[..len_] == old(buffer_[..len_]);
      FrameChunk(offset, data);
    }

    /** The last chunk, after which nothing is chunked any more. */
    method EndChunks()
      requires Framed() && header_ == |headers| && hasDocument && chunk_data_ && chunked
      requires len_ + 5 <= kBufferSize
      modifies `len_, `chunk_data_, buffer_
      ensures Framed() && !chunk_data_ && len_ == old(len_) + 5
    {
      hide Head, Chunks;
      Append(LastChunk);
      chunk_data_ := false;
      JoinThree(wire_, old(buffer_[..len_]), LastChunk);
      assert Chunks(pieces_) + "" == Chunks(pieces_);
      JoinThree(Head(leader, headers), Chunks(pieces_), LastChunk);
    }

    /** The document has ended: write the last chunk, or finish once everything is written. */
    method EndDocument()
      requires Valid() && mode_ == HM_SEND && header_ == |headers| && hasDocument && completions_ == []
      requires doc_ == [] && (chunk_data_ ==> len_ + 5 <= kBufferSize)
      modifies `mode_, `completions_, `len_, `chunk_data_, buffer_
      ensures Valid() && len_ >= old(len_)
      ensures mode_ == HM_SEND ==> completions_ == [] && len_ > 0
      ensures mode_ == HM_SEND ==>
        (old(chunk_data_) && !chunk_data_) || (chunk_data_ == old(chunk_data_) && len_ == old(len_))
      ensures mode_ != HM_SEND ==> mode_ == HM_NONE && completions_ == [HE_NONE] && Finished()
    {
      hide Head, Chunks, Concat, Sent, HeaderLines;
      if chunk_data_ {
        EndChunks();
      } else if len_ == 0 {
        assert wire_ == wire_ + buffer_[..len_] && Concat(pieces_) == Concat(pieces_) + "" == body_;
        DoComplete(HE_NONE);
      }
    }

    /** Moves document bytes into the buffer, framed as a chunk when chunking. */
    method QueueDocument() returns (sendRequired: bool)
      requires Valid() && mode_ == HM_SEND && header_ == |headers| && hasDocument && completions_ == []
      modifies `mode_, `completions_, `len_, `chunk_data_, `doc_, `pieces_, buffer_
      ensures Valid() && len_ >= old(len_)
      ensures Told()
      ensures NoEmptyPiece(old(doc_)) && "" !in old(pieces_) ==> NoEmptyPiece(doc_) && "" !in pieces_
      ensures Flowing(old(doc_)) ==> Flowing(doc_) && (mode_ == HM_SEND ==> len_ > 0)
      ensures mode_ != HM_SEND ==> completions_ == if DocError in old(doc_) then [HE_STREAM] else [HE_NONE]
      ensures mode_ == HM_SEND ==> (DocError in doc_ <==> DocError in old(doc_))
      ensures DocError in doc_ ==> DocError in old(doc_)
      // The document is read once, into all of the room that a chunk leaves it.
      ensures var room := kBufferSize - old(len_) - (if old(chunk_data_) then 12 else 0);
        if room <= 0 then sendRequired && doc_ == old(doc_) && pieces_ == old(pieces_)
        else if old(doc_ != [] && doc_[0].Piece?) then
          !sendRequired && pieces_ == old(pieces_) + [old(doc_)[0].data[..Min(room, |old(doc_)[0].data|)]]
        else sendRequired && pieces_ == old(pieces_) && doc_ == if old(doc_) == [] then [] else old(doc_)[1..]
      // Either the document moves on, or the last chunk is written, or the buffer has to be.
      ensures mode_ == HM_SEND ==>
        Work() < old(Work()) || (Work() == old(Work()) && sendRequired && len_ == old(len_) > 0)
    {
      hide Head, Chunks, Concat, DocBytes, DocSize, Sent, HeaderLines, HexDigits, BodyText, Framed, Finished;
      var offset := len_ + (if chunk_data_ then kChunkDigits + 2 else 0);
      var reserve := offset + (if chunk_data_ then 2 else 0);
      if reserve >= kBufferSize { return true; }
      var result := ReadDocument(kBufferSize - reserve);
      match result {
        case Read(data) =>
          sendRequired := false;
          QueueData(data);
        case Blocked =>
          sendRequired := true;
        case Eos =>
          EndDocument();
          sendRequired := true;
        case Failed =>
          DoComplete(HE_STREAM);
          sendRequired := true;
      }
    }

    /** Offers the buffer to the network. */
    method Transmit() returns (event: WriteEvent)
      requires Valid() && mode_ == HM_SEND
      modifies `len_, `wire_, `writes_, buffer_
      ensures Valid() && len_ <= old(len_)
      ensures if old(writes_) == [] then event.Taken? && len_ == 0 && writes_ == []
        else event == old(writes_)[0] && writes_ == old(writes_)[1..]
      ensures !event.Taken? ==> len_ == old(len_) && wire_ == old(wire_)
      ensures NeverBlocks(old(writes_)) ==> NeverBlocks(writes_) && !event.WriteBlock?
      ensures forall e :: e in writes_ ==> e in old(writes_)
    {
      hide Produced, DocBytes, Concat;
      if writes_ == [] {
        event := Taken(len_);
      } else {
        event := writes_[0];
        assert forall e :: e in writes_[1..] ==> e in writes_;
        writes_ := writes_[1..];
      }
      if event.Taken? { DropWritten(Min(event.count, len_)); }
    }

    /** What was written leaves the buffer; the rest moves to its front. */
    method DropWritten(written: nat)
      requires written <= len_ <= buffer_.Length
      modifies `len_, `wire_, buffer_
      ensures len_ == old(len_) - written && wire_ + buffer_[..len_] == old(wire_ + buffer_[..len_])
      ensures wire_ == old(wire_) + old(buffer_[..len_])[..written]
    {
      ghost var bytes := buffer_[..len_];
      wire_ := wire_ + bytes[..written];
      len_ := len_ - written;
      forall i | 0 <= i < len_ { buffer_[i] := buffer_[written + i]; }
      assert buffer_[..len_] == bytes[written..];
      JoinThree(old(wire_), bytes[..written], bytes[written..]);
      assert bytes == bytes[..written] + bytes[written..];
    }

    /** Fills the buffer with headers, then with document bytes, as far as they go. */
    method FillBuffer(required: bool) returns (sendRequired: bool)
      requires Valid() && mode_ == HM_SEND && completions_ == [] && (required ==> len_ > 0)
      modifies `mode_, `completions_, `len_, `header_, `chunk_data_, `doc_, `pieces_, buffer_
      ensures Valid()
      ensures Told()
      ensures NoEmptyPiece(old(doc_)) && "" !in old(pieces_) ==> NoEmptyPiece(doc_) && "" !in pieces_
      ensures Flowing(old(doc_)) ==> Flowing(doc_) && (mode_ == HM_SEND && len_ == 0 ==> !hasDocument)
      ensures mode_ == HM_SEND && !sendRequired ==> header_ == |headers|
      ensures mode_ != HM_SEND ==> completions_ == if DocError in old(doc_) then [HE_STREAM] else [HE_NONE]
      ensures mode_ == HM_SEND ==> (DocError in doc_ <==> DocError in old(doc_))
      ensures DocError in doc_ ==> DocError in old(doc_)
      ensures mode_ == HM_SEND && len_ == 0 ==> header_ == |headers|
      ensures mode_ == HM_SEND ==>
        Work() < old(Work()) || (Work() == old(Work()) && len_ == old(len_) && (sendRequired || !hasDocument))
      ensures old(!hasDocument && header_ == |headers|) ==>
        && mode_ == HM_SEND && len_ == old(len_) && sendRequired == required
        && header_ == old(header_) && Work() == old(Work())
      ensures required ==> sendRequired
      ensures mode_ == HM_SEND && Work() == old(Work()) ==> header_ == old(header_)
    {
      hide DocSize, Framed, HeadOpen, Finished, NoEmptyPiece, Flowing, Concat, DocBytes;
      sendRequired := required;
      if !sendRequired && header_ < |headers| {
        ValidIsHeadOpen();
        sendRequired := QueueHeaders();
      }
      if !sendRequired && hasDocument {
        sendRequired := QueueDocument();
      }
    }

    /** One turn of the flush loop: fill the buffer as far as it goes, then write. */
    method FlushRound(required: bool) returns (sendRequired: bool, again: bool)
      requires Valid() && mode_ == HM_SEND && completions_ == [] && (required ==> len_ > 0)
      modifies `mode_, `completions_, `len_, `header_, `chunk_data_, `doc_, `pieces_, `wire_, `writes_, buffer_
      ensures Valid()
      ensures Told() && (again ==> mode_ == HM_SEND)
      ensures NoEmptyPiece(old(doc_)) && "" !in old(pieces_) ==> NoEmptyPiece(doc_) && "" !in pieces_
      ensures Flowing(old(doc_)) && NeverBlocks(old(writes_)) ==>
        Flowing(doc_) && NeverBlocks(writes_) && (mode_ == HM_SEND ==> again)
      ensures again ==> !sendRequired
      // Success, a failing document, or the network's error.
      ensures Leaves(old(writes_), writes_)
      ensures ToldWhy(hasDocument, old(doc_), doc_, old(writes_), writes_, completions_)
      ensures Healthy(old(doc_), old(writes_)) ==>
        Healthy(doc_, writes_) && (mode_ != HM_SEND ==> completions_ == [HE_NONE])
      // A blocked network is not waited for exactly when only the buffer is left and no write has been called for.
      ensures old(writes_ != [] && writes_[0].WriteBlock?) ==>
        (again && Work() == old(Work()) <==> !required && old(Idle()))
      ensures old(writes_ != [] && writes_[0].WriteBlock? && Idle()) && !required ==>
        again && Idle() && len_ == old(len_) && wire_ == old(wire_) && writes_ == old(writes_)[1..]
      // Otherwise another turn comes only after some progress.
      ensures again ==>
        || Ahead() < old(Ahead())
        || (Ahead() == old(Ahead()) && !hasDocument && |writes_| < |old(writes_)|)
      ensures |writes_| <= |old(writes_)|
    {
      hide Framed, Produced, Body, Concat, DocBytes, Finished, Work, Flowing, NeverBlocks, NoEmptyPiece, HeadOpen;
      sendRequired := FillBuffer(required);
      if mode_ != HM_SEND { return sendRequired, false; }
      if len_ == 0 {
        if !hasDocument { CompleteEmpty(); }
        return sendRequired, false;
      }
      var event := Transmit();
      match event {
        case Taken(_) => return false, true;
        case WriteBlock => return sendRequired, !sendRequired;
        case WriteError(code) =>
          DoComplete(CloseError(code, false, false));
          return sendRequired, false;
      }
    }

    /**
     * flush_data: turns until the message is finished or something blocks. A document, or a network
     * that takes something in the end, bounds the turns; without either they go on for ever.
     */
    method FlushData() returns (ghost turns: nat)
      requires Valid() && mode_ == HM_SEND && completions_ == []
      modifies `mode_, `completions_, `len_, `header_, `chunk_data_, `doc_, `pieces_, `wire_, `writes_, buffer_
      ensures Valid() && Told()
      ensures NoEmptyPiece(old(doc_)) && "" !in old(pieces_) ==> NoEmptyPiece(doc_) && "" !in pieces_
      ensures Flowing(old(doc_)) && NeverBlocks(old(writes_)) ==> mode_ == HM_NONE
      ensures Healthy(old(doc_), old(writes_)) ==>
        Healthy(doc_, writes_) && (mode_ != HM_SEND ==> completions_ == [HE_NONE])
      ensures Leaves(old(writes_), writes_)
      ensures ToldWhy(hasDocument, old(doc_), doc_, old(writes_), writes_, completions_)
      ensures turns <= old(Ahead()) + 1 + (if hasDocument then 0 else |old(writes_)|)
      ensures old(Idle() && len_ < kBufferSize) ==> turns >= LeadingBlocks(old(writes_))
    {
      var sendRequired, again := len_ >= kBufferSize, true;
      turns := 0;
      while again
        invariant Valid() && Told() && (again ==> mode_ == HM_SEND) && (sendRequired && again ==> len_ > 0)
        invariant NoEmptyPiece(old(doc_)) && "" !in old(pieces_) ==> NoEmptyPiece(doc_) && "" !in pieces_
        invariant Flowing(old(doc_)) && NeverBlocks(old(writes_)) ==>
          Flowing(doc_) && NeverBlocks(writes_) && (mode_ == HM_SEND ==> again)
        invariant Healthy(old(doc_), old(writes_)) ==>
          Healthy(doc_, writes_) && (mode_ != HM_SEND ==> completions_ == [HE_NONE])
        invariant Leaves(old(writes_), writes_)
        invariant ToldWhy(hasDocument, old(doc_), doc_, old(writes_), writes_, completions_)
        invariant turns <= old(Ahead()) - (if again then Ahead() else -1)
          + (if hasDocument then 0 else |old(writes_)| - |writes_|)
        invariant old(Idle() && len_ < kBufferSize) && turns < LeadingBlocks(old(writes_)) ==>
          again && !sendRequired && Idle() && turns + LeadingBlocks(writes_) == LeadingBlocks(old(writes_))
        decreases again, Ahead(), |writes_|
      {
        hide Framed, Work, Ahead, Finished, DocSize, Flowing, NeverBlocks, NoEmptyPiece, Healthy, ToldWhy;
        ghost var doc, writes := doc_, writes_;
        sendRequired, again := FlushRound(sendRequired);
        ToldTwice(hasDocument, old(doc_), doc, doc_, old(writes_), writes, writes_, completions_);
        turns := turns + 1;
      }
    }

    /** An empty buffer without a document: everything is on the wire. */
    method CompleteEmpty()
      requires Valid() && header_ == |headers| && !hasDocument && len_ == 0 && completions_ == []
      modifies `mode_, `completions_
      ensures mode_ == HM_NONE && completions_ == [HE_NONE] && Valid() && Told()
    {
      hide Head;
      assert wire_ + buffer_[..len_] == wire_;
      assert Head(leader, headers) + "" == Head(leader, headers);
      DoComplete(HE_NONE);
    }
  }

  function Refusals(n: nat): seq<WriteEvent> { seq(n, i => WriteBlock) }

  lemma {:induction false} AllRefused(n: nat)
    ensures LeadingBlocks(Refusals(n)) == n
  {
    if n > 0 {
      AllRefused(n - 1);
      assert Refusals(n)[1..] == Refusals(n - 1);
    }
  }

  /** A request without headers and document: as often as the network refuses it, the loop turns. */
  method TurnsWhileBlocked(n: nat) returns (s: HttpBase, ghost turns: nat)
    ensures fresh(s) && turns >= n
  {
    s := new HttpBase("GET / HTTP/1.0", [], false, [], Refusals(n));
    AllRefused(n);
    turns := s.Send();
  }
}
