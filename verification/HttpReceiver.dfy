/**
 * The receiving side of HttpBase: the parser fields, the 32 KB buffer, and the loop that
 * pumps bytes from the network stream through the parser into the document.
 *
 * The network stream and the document are scripts of what they will do next, so every
 * statement about all scripts is a statement about all behaviours of the environment.
 */
module HttpReceiver {
  import opened Util
  import opened HttpText
  import opened HttpParser

  const kMaxReadCount: nat := 20

  datatype ProcessResult = PR_CONTINUE | PR_BLOCK | PR_COMPLETE

  /** What the network stream does next; an empty script blocks. */
  datatype NetEvent = Arrive(data: string) | WouldBlock | CleanEnd | ReadError(code: int)

  /** What the document does with the next write; an empty script accepts everything. */
  datatype SinkEvent = Accept(count: nat) | SinkBlock | SinkEos | SinkError

  /** Why a message ended: by its own bytes, by a line too long, by the stream's close, or by its document. */
  datatype Cause = Parsed | Overflow | StreamClosed(code: int) | SinkFailed

  /** What one round of the receive loop leads to. */
  datatype Verdict = Again | Wait | Ended(error: HttpError)

  function NetBytes(script: seq<NetEvent>): string {
    if script == [] then ""
    else if script[0].Arrive? then script[0].data + NetBytes(script[1..])
    else NetBytes(script[1..])
  }

  /** How much the network still has to do. */
  function NetSize(script: seq<NetEvent>): nat {
    if script == [] then 0
    else 1 + (if script[0].Arrive? then |script[0].data| else 0) + NetSize(script[1..])
  }

  /** Every accepting write takes at least one byte. */
  predicate Progressive(script: seq<SinkEvent>) {
    forall e :: e in script && e.Accept? ==> e.count > 0
  }

  /** The document never asks the parser to wait. */
  predicate NeverBlocks(script: seq<SinkEvent>) { SinkBlock !in script }

  /** The document never ends or fails. */
  predicate NeverFails(script: seq<SinkEvent>) { SinkEos !in script && SinkError !in script }

  predicate Within(left: seq<SinkEvent>, script: seq<SinkEvent>) { forall e :: e in left ==> e in script }

  predicate BlocksFirst(script: seq<SinkEvent>) { script != [] && script[0] == SinkBlock }

  /** Reads never find the network empty-handed while it has something to give. */
  predicate Ready(script: seq<NetEvent>) { WouldBlock !in script }

  /** A read that finds the stream at its end, and the code it comes with. */
  predicate Closes(script: seq<NetEvent>) { script != [] && (script[0].CleanEnd? || script[0].ReadError?) }

  function CloseCode(script: seq<NetEvent>): int
    requires Closes(script)
  {
    if script[0].CleanEnd? then 0 else script[0].code
  }

  /** The line with its trailing blanks cut off, carriage return included. */
  method WithoutTrailingSpace(line: string) returns (trimmed: string)
    ensures trimmed == TrimRight(line)
  {
    var end: nat := |line|;
    assert line[..end] == line;
    while end > 0 && IsSpace(line[end - 1])
      invariant end <= |line| && TrimRight(line[..end]) == TrimRight(line)
    {
      assert line[..end][..end - 1] == line[..end - 1];
      end := end - 1;
    }
    return line[..end];
  }

  /** The position of the first line feed in buffer[start..len], or len. */
  method FindLineEnd(buffer: array<char>, start: nat, len: nat) returns (pos: nat)
    requires start <= len <= buffer.Length
    ensures start <= pos <= len && '\n' !in buffer[start..pos]
    ensures pos < len ==> buffer[pos] == '\n'
  {
    pos := start;
    while pos < len && buffer[pos] != '\n'
      invariant start <= pos <= len && '\n' !in buffer[start..pos]
    {
      pos := pos + 1;
    }
  }

  // ---- Where a parser can rest -------------------------------------------

  /** The end of the stream is the end of the message. */
  predicate OpenEnded(v: View) { v.state == ST_DATA && v.size == SIZE_UNKNOWN }

  /** Nothing more can be done with the buffered bytes alone. */
  predicate StuckAt(v: View, rest: string) {
    if v.state.IsLine() then '\n' !in rest else v.state == ST_DATA && v.size != 0 && rest == ""
  }

  /** There are document bytes that the document has not taken. */
  predicate BlockedAt(env: Env, v: View, rest: string) {
    v.state == ST_DATA && v.size != 0 && rest != "" && env.hasDocument && !v.ignore
  }

  /** A stuck parser adds the buffered bytes to its view as a pending line and nothing else. */
  lemma StuckMeaning(env: Env, v: View, rest: string)
    requires v.done == None && v.line == "" && StuckAt(v, rest) && |rest| <= kBufferSize
    ensures Feed(env, v, rest) == Pending(v, rest)
  {
    if v.state.IsLine() {
      FeedPartialLine(env, v, rest);
      assert "" + rest == rest;
    }
  }

  /** A parser blocked by its document still owes it bytes. */
  lemma BlockedMeaning(env: Env, v: View, rest: string)
    requires v.done == None && BlockedAt(env, v, rest)
    ensures v.body < Feed(env, v, rest).body
  {
    var w := TakeData(env, v, [rest[0]]);
    assert Step(env, Settle(v), rest[0]) == w;
    BodyGrows(env, w, rest[1..]);
  }

  /** An open-ended data section has no end of its own. */
  lemma OpenEndMeaning(env: Env, v: View, rest: string)
    requires v.done == None && OpenEnded(v)
    ensures Feed(env, v, rest) == TakeData(env, v, rest)
  {
    FeedData(env, v, rest, "");
    assert rest + "" == rest;
  }

  /** A data section of known size that is not a chunk is complete with its last byte. */
  lemma SizedMeaning(env: Env, v: View, rest: string)
    requires v.done == None && v.state == ST_DATA && !v.chunked && v.size != SIZE_UNKNOWN
    ensures Feed(env, v, rest).done == (if v.size <= |rest| then Some(HE_NONE) else None)
    ensures v.size > |rest| ==> Feed(env, v, rest).size == v.size - |rest|
  {
    if v.size <= |rest| {
      var data, left := rest[..v.size], rest[v.size..];
      assert rest == data + left;
      FeedData(env, v, data, left);
      FeedExhausted(env, TakeData(env, v, data), left);
    } else {
      FeedData(env, v, rest, "");
      assert rest + "" == rest;
    }
  }

  /** Behind the headers a message stays chunked, or not. */
  lemma {:induction false} ChunkedStays(env: Env, v: View, s: string)
    requires v.state != ST_LEADER && v.state != ST_HEADERS
    ensures Feed(env, v, s).chunked == v.chunked
    decreases |s|
  {
    hide StrToUl16, TrimRight;
    if s != "" { ChunkedStays(env, Step(env, Settle(v), s[0]), s[1..]); }
  }

  /** A data section that is open-ended in the end has been so all along. */
  lemma OpenEndedBefore(env: Env, v: View, rest: string)
    requires v.done == None && v.state == ST_DATA
    requires var w := Feed(env, v, rest); w.done == None && w.size == SIZE_UNKNOWN && !w.chunked
    ensures OpenEnded(v)
  {
    ChunkedStays(env, v, rest);
    if v.size != SIZE_UNKNOWN { SizedMeaning(env, v, rest); }
  }

  lemma SuffixOfSuffix(s: string, i: nat, j: nat)
    requires i + j <= |s|
    ensures s[i..][j..] == s[i + j..]
  {
  }

  lemma PrefixOfPrefix(s: string, i: nat, j: nat)
    requires j <= i <= |s|
    ensures s[..i][..j] == s[..j]
  {
  }

  lemma DataTaken(env: Env, v: View, data: string, read: nat)
    requires v.done.None? && v.state == ST_DATA && read <= |data| && (v.size == SIZE_UNKNOWN || read <= v.size)
    ensures Feed(env, v, data) == Feed(env, TakeData(env, v, data[..read]), data[read..])
  {
    hide Feed;
    FeedData(env, v, data[..read], data[read..]);
    assert data == data[..read] + data[read..];
  }

  lemma WithinItself(script: seq<SinkEvent>)
    ensures Within(script, script)
  {
  }

  lemma StillWithin(left: seq<SinkEvent>, before: seq<SinkEvent>, script: seq<SinkEvent>)
    requires Within(left, before) && Within(before, script)
    ensures Within(left, script)
    ensures !NeverBlocks(before) ==> !NeverBlocks(script)
    ensures !NeverFails(before) ==> !NeverFails(script)
  {
  }

  lemma SomethingLeft(script: seq<NetEvent>)
    ensures script != [] ==> NetSize([]) < NetSize(script)
  {
  }

  class HttpBase {
    const env: Env
    // HttpParser
    var state_: State
    var chunked_: bool
    var data_size_: size_t
    // HttpBase
    var mode_: HttpMode
    var buffer_: array<char>
    var len_: nat
    var ignore_data_: bool
    // HttpData being filled in
    var leader_: string
    var headers_: seq<Header>
    var document_: string
    // Environment
    var net_: seq<NetEvent>
    var sink_: seq<SinkEvent>
    var completions_: seq<(HttpMode, HttpError)>
    // History
    ghost var received_: string   // every byte read from the network
    ghost var used_: nat          // every byte consumed by Process
    ghost var reads_: nat         // how often the network has been read
    ghost const script: seq<SinkEvent>   // all that the document will do
    ghost var outcome_: Option<(Cause, HttpError)>
    ghost var final_: View        // the parser's view when the message ended

    ghost predicate Valid()
      reads `buffer_, `len_, `sink_
    {
      && buffer_.Length == kBufferSize && len_ <= kBufferSize
      && Progressive(sink_) && Within(sink_, script)
    }

    /** The parser's own part of the view: it never holds a partial line itself. */
    ghost function Current(): View
      reads `state_, `chunked_, `data_size_, `leader_, `headers_, `document_, `ignore_data_, `used_
    {
      View(state_, chunked_, data_size_, "", leader_, headers_, document_, ignore_data_, used_, None)
    }

    /** The view that the bytes received so far mean. */
    ghost function Meaning(): View
      reads `received_
    {
      Feed(env, Initial, received_)
    }

    /** The buffer holds exactly the bytes received and not yet consumed. */
    ghost predicate TailKept()
      reads `buffer_, `len_, `sink_, `received_, `used_, buffer_
    {
      && Valid()
      && used_ + len_ == |received_|
      && buffer_[..len_] == received_[used_..]
    }

    /** The parser and the unprocessed tail of the buffer stand for all bytes received. */
    ghost predicate InSync()
      reads this, buffer_
    {
      && TailKept()
      && Meaning() == Feed(env, Current(), buffer_[..len_])
    }

    /** Nothing more can be done with the buffered bytes alone. */
    ghost predicate Stuck()
      reads this, buffer_
      requires Valid()
    {
      StuckAt(Current(), buffer_[..len_])
    }

    /** A view in which the pump comes to rest: stuck, or blocked by a document that can block. */
    ghost predicate RestsAt(v: View)
      reads `buffer_, `len_, `sink_, buffer_
      requires Valid()
    {
      StuckAt(v, buffer_[..len_]) || (!NeverBlocks(script) && BlockedAt(env, v, buffer_[..len_]))
    }

    constructor (env: Env, net: seq<NetEvent>, sink: seq<SinkEvent>)
      requires Progressive(sink)
      ensures Inv() && this.env == env && net_ == net && sink_ == script == sink
      ensures received_ == document_ == "" && len_ == 0 && outcome_ == None && Stuck() && fresh(buffer_)
    {
      this.env, script := env, sink;
      state_, chunked_, data_size_ := ST_LEADER, false, SIZE_UNKNOWN;
      mode_, len_, ignore_data_ := HM_RECV, 0, false;
      buffer_ := new char[kBufferSize];
      leader_, headers_, document_ := "", [], "";
      net_, sink_, completions_ := net, sink, [];
      received_, used_, reads_, outcome_, final_ := "", 0, 0, None, Initial;
    }

    /** One header line: recorded, and heeded when it describes the message body. */
    method ProcessHeaderLine(line: string) returns (result: ProcessResult, error: HttpError)
      modifies `chunked_, `data_size_, `headers_
      ensures result == PR_CONTINUE ==> Current() == HttpParser.ProcessHeaderLine(old(Current()), line)
      ensures result == PR_COMPLETE ==> Fail(Current(), error) == HttpParser.ProcessHeaderLine(old(Current()), line)
      ensures result != PR_BLOCK && (result == PR_CONTINUE ==> error == HE_NONE)
    {
      var colon := IndexOf(line, ':');
      if colon == |line| { return PR_COMPLETE, HE_PROTOCOL; }
      var name, value := line[..colon], TrimLeft(line[colon + 1..]);
      if EqualsIgnoreCase(name, "Content-Length") {
        var size := ScanUnsigned(value);
        if size == None { return PR_COMPLETE, HE_PROTOCOL; }
        data_size_ := size.value;
      } else if EqualsIgnoreCase(name, "Transfer-Encoding") {
        if EqualsIgnoreCase(value, "chunked") {
          chunked_ := true;
        } else if EqualsIgnoreCase(value, "identity") {
          chunked_ := false;
        } else {
          return PR_COMPLETE, HE_PROTOCOL;
        }
      }
      headers_ := headers_ + [Header(name, value)];
      return PR_CONTINUE, HE_NONE;
    }

    /** One complete line, in a state that reads lines. */
    method ProcessLine(line: string) returns (result: ProcessResult, error: HttpError)
      requires state_.IsLine()
      modifies `state_, `chunked_, `data_size_, `leader_, `headers_, `ignore_data_
      ensures result == PR_CONTINUE ==> Current() == HttpParser.ProcessLine(env, old(Current()), line)
      ensures result == PR_COMPLETE ==> Fail(Current(), error) == HttpParser.ProcessLine(env, old(Current()), line)
      ensures result != PR_BLOCK && state_ != ST_COMPLETE
      ensures result == PR_CONTINUE ==> error == HE_NONE
    {
      error := HE_NONE;
      match state_ {
        case ST_LEADER =>
          state_ := ST_HEADERS;
          leader_ := line;
          error := env.parseLeader(line);
          return if error == HE_NONE then PR_CONTINUE else PR_COMPLETE, error;
        case ST_HEADERS =>
          if line != "" {
            result, error := ProcessHeaderLine(line);
            return;
          } else {
            state_ := if chunked_ then ST_CHUNKSIZE else ST_DATA;
            var decision := env.headerComplete(leader_, headers_, chunked_, data_size_);
            data_size_ := decision.size;
            ignore_data_ := ignore_data_ || decision.ignore;
            error := decision.error;
            return if error == HE_NONE then PR_CONTINUE else PR_COMPLETE, error;
          }
        case ST_CHUNKSIZE =>
          if line != "" {
            var (size, whole) := StrToUl16(line);
            data_size_ := size;
            if !whole { return PR_COMPLETE, HE_PROTOCOL; }
            state_ := if data_size_ == 0 then ST_TRAILERS else ST_DATA;
          } else {
            return PR_COMPLETE, HE_PROTOCOL;
          }
        case ST_CHUNKTERM =>
          if line != "" { return PR_COMPLETE, HE_PROTOCOL; }
          state_ := if chunked_ then ST_CHUNKSIZE else ST_DATA;
        case ST_TRAILERS =>
          if line == "" { return PR_COMPLETE, HE_NONE; }
      }
      result := PR_CONTINUE;
    }

    /** The document takes some of the offered bytes. */
    method ProcessData(data: string) returns (result: ProcessResult, read: nat, error: HttpError)
      requires data != "" && Progressive(sink_)
      modifies `sink_, `document_
      ensures Progressive(sink_) && Within(sink_, old(sink_))
      // The document is asked once, unless nobody wants the bytes.
      ensures ignore_data_ || !env.hasDocument ==> sink_ == old(sink_) && result == PR_CONTINUE && read == |data|
      ensures !ignore_data_ && env.hasDocument ==>
        if old(sink_) == [] then sink_ == [] && result == PR_CONTINUE && read == |data|
        else
          && sink_ == old(sink_)[1..]
          && match old(sink_)[0] {
               case Accept(count) => result == PR_CONTINUE && read == Min(count, |data|)
               case SinkBlock => result == PR_BLOCK
               case _ => result == PR_COMPLETE
             }
      ensures result == PR_CONTINUE ==> 0 < read <= |data| && error == HE_NONE
      ensures result == PR_CONTINUE ==>
        document_ == if ignore_data_ || !env.hasDocument then old(document_) else old(document_) + data[..read]
      ensures result != PR_CONTINUE ==> read == 0 && document_ == old(document_) && env.hasDocument && !ignore_data_
      ensures result == PR_BLOCK ==> error == HE_NONE && !NeverBlocks(old(sink_))
      ensures result == PR_COMPLETE ==> error == HE_STREAM && !NeverFails(old(sink_))
      ensures old(BlocksFirst(sink_)) ==>
        document_ == old(document_) && if result == PR_CONTINUE then sink_ == old(sink_) else result == PR_BLOCK
    {
      if ignore_data_ || !env.hasDocument { return PR_CONTINUE, |data|, HE_NONE; }
      var event := if sink_ == [] then Accept(|data|) else sink_[0];
      sink_ := if sink_ == [] then [] else sink_[1..];
      match event {
        case Accept(count) =>
          read := Min(count, |data|);
          document_ := document_ + data[..read];
          return PR_CONTINUE, read, HE_NONE;
        case SinkBlock => return PR_BLOCK, 0, HE_NONE;
        case SinkEos => return PR_COMPLETE, 0, HE_STREAM;
        case SinkError => return PR_COMPLETE, 0, HE_STREAM;
      }
    }

    /** Takes the line that ends at pos and processes it. */
    method TakeLine(buffer: array<char>, len: nat, start: nat, pos: nat)
      returns (result: ProcessResult, error: HttpError)
      requires start <= pos < len <= buffer.Length && buffer[pos] == '\n' && '\n' !in buffer[start..pos]
      requires state_.IsLine() && len <= kBufferSize
      modifies `state_, `chunked_, `data_size_, `leader_, `headers_, `ignore_data_, `used_
      ensures result != PR_BLOCK && (result == PR_CONTINUE ==> error == HE_NONE)
      ensures state_ != ST_COMPLETE && used_ == old(used_) + (pos + 1 - start)
      ensures Feed(env, old(Current()), buffer[start..len]) ==
        if result == PR_CONTINUE then Feed(env, Current(), buffer[pos + 1..len]) else Fail(Current(), error)
    {
      ghost var v, left := Current(), buffer[start..len];
      var line := buffer[start..pos];
      used_ := used_ + |line| + 1;
      assert left == line + ("\n" + buffer[pos + 1..len]);
      FeedLine(env, v, line, buffer[pos + 1..len]);
      assert Current() == LineTaken(v, line);
      var trimmed := WithoutTrailingSpace(line);
      result, error := ProcessLine(trimmed);
      if result != PR_CONTINUE {
        FeedDone(env, Fail(Current(), error), buffer[pos + 1..len]);
      }
    }

    /** Offers the available part of the data section to the document. */
    method TakeAvailable(buffer: array<char>, len: nat, start: nat)
      returns (result: ProcessResult, read: nat, error: HttpError)
      requires start < len <= buffer.Length && Progressive(sink_)
      requires state_ == ST_DATA && data_size_ != 0
      modifies `data_size_, `document_, `sink_, `used_
      ensures Progressive(sink_) && Within(sink_, old(sink_))
      ensures result == PR_CONTINUE ==> 0 < read <= len - start && error == HE_NONE
      ensures result != PR_CONTINUE ==> Current() == old(Current()) && read == 0 && env.hasDocument && !ignore_data_
      ensures result != PR_CONTINUE ==> data_size_ == old(data_size_)
      ensures result == PR_BLOCK ==> !NeverBlocks(old(sink_))
      ensures result == PR_COMPLETE ==> error == HE_STREAM && !NeverFails(old(sink_))
      ensures old(BlocksFirst(sink_)) ==>
        document_ == old(document_) && if result == PR_CONTINUE then sink_ == old(sink_) else result == PR_BLOCK
      ensures used_ == old(used_) + read
      ensures Feed(env, old(Current()), buffer[start..len]) == Feed(env, Current(), buffer[start + read..len])
    {
      hide Feed, Settle, Progressive, Within, NeverBlocks, NeverFails, BlocksFirst;
      ghost var v, left := Current(), buffer[start..len];
      var available := len - start;
      if data_size_ != SIZE_UNKNOWN && available > data_size_ { available := data_size_; }
      var offered := buffer[start..start + available];
      assert offered == left[..available];
      result, read, error := ProcessData(offered);
      if result != PR_CONTINUE { return; }
      used_ := used_ + read;
      if data_size_ != SIZE_UNKNOWN { data_size_ := data_size_ - read; }
      PrefixOfPrefix(left, available, read);
      assert left[read..] == buffer[start + read..len];
      assert document_ == (if v.ignore || !env.hasDocument then v.body else v.body + left[..read]);
      assert |left[..read]| == read && (v.size == SIZE_UNKNOWN || read <= v.size);
      assert Current() == TakeData(env, v, left[..read]);
      DataTaken(env, v, left, read);
    }

    /** The data section is exhausted: a chunk terminator follows, or nothing. */
    method EndData(ghost rest: string) returns (ended: bool)
      requires state_ == ST_DATA && data_size_ == 0
      modifies `state_
      ensures ended <==> !chunked_
      ensures ended ==> state_ == ST_DATA && Feed(env, old(Current()), rest) == Fail(Current(), HE_NONE)
      ensures !ended ==> state_ == ST_CHUNKTERM && Feed(env, old(Current()), rest) == Feed(env, Current(), rest)
    {
      hide Feed;
      FeedExhausted(env, Current(), rest);
      if chunked_ { state_ := ST_CHUNKTERM; }
      ended := !chunked_;
    }

    /** Runs the parser over buffer[..len], a part of the pump's buffer, until it needs input, blocks or ends. */
    method Process(buffer: array<char>, len: nat)
      returns (result: ProcessResult, processed: nat, error: HttpError, ghost cause: Cause)
      requires len <= buffer.Length && len <= kBufferSize && Progressive(sink_) && state_ != ST_COMPLETE
      modifies `state_, `chunked_, `data_size_, `leader_, `headers_, `document_, `ignore_data_, `sink_, `used_
      ensures Progressive(sink_) && Within(sink_, old(sink_)) && processed <= len && state_ != ST_COMPLETE
      ensures used_ == old(used_) + processed
      // The bytes processed and the bytes left mean what the whole input meant.
      ensures result != PR_COMPLETE || cause == SinkFailed ==>
        Feed(env, old(Current()), buffer[..len]) == Feed(env, Current(), buffer[processed..len])
      ensures result == PR_COMPLETE && cause == Parsed ==>
        Feed(env, old(Current()), buffer[..len]) == Fail(Current(), error)
      ensures result == PR_COMPLETE ==>
        cause == Parsed || (cause == SinkFailed && error == HE_STREAM && !NeverFails(old(sink_)))
      // It stops only where no complete element is left, or where the document blocks.
      ensures result == PR_CONTINUE ==> StuckAt(Current(), buffer[processed..len])
      ensures result == PR_BLOCK ==> !NeverBlocks(old(sink_)) && BlockedAt(env, Current(), buffer[processed..len])
      ensures old(state_).IsLine() && '\n' !in buffer[..len] ==>
        result == PR_CONTINUE && processed == 0 && Current() == old(Current())
      ensures old(BlocksFirst(sink_)) ==> document_ == old(document_) && (result == PR_COMPLETE ==> cause == Parsed)
    {
      hide Feed, Current, Fail, Progressive, Within, NeverBlocks, NeverFails, BlocksFirst;
      ghost var all := Feed(env, Current(), buffer[..len]);
      ghost var idle := state_.IsLine() && '\n' !in buffer[..len];
      processed, error, cause := 0, HE_NONE, Parsed;
      assert buffer[0..len] == buffer[..len];
      WithinItself(sink_);
      while true
        invariant processed <= len && used_ == old(used_) + processed
        invariant Progressive(sink_) && Within(sink_, old(sink_)) && error == HE_NONE && state_ != ST_COMPLETE
        invariant all == Feed(env, Current(), buffer[processed..len])
        invariant idle ==> processed == 0 && state_.IsLine() && Current() == old(Current())
        invariant old(BlocksFirst(sink_)) ==> document_ == old(document_) && sink_ == old(sink_)
        decreases len - processed, if state_ == ST_DATA && data_size_ == 0 then 1 else 0
      {
        if state_.IsLine() {
          var pos := FindLineEnd(buffer, processed, len);
          if pos >= len {
            LineStuck(buffer, processed, len);
            return PR_CONTINUE, processed, HE_NONE, Parsed;
          }
          result, error := TakeLine(buffer, len, processed, pos);
          processed := pos + 1;
          if result != PR_CONTINUE { return; }
        } else if data_size_ == 0 {
          var ended := EndData(buffer[processed..len]);
          if ended { return PR_COMPLETE, processed, HE_NONE, Parsed; }
        } else {
          if processed == len {
            DataStuck(buffer, processed, len);
            return PR_CONTINUE, processed, HE_NONE, Parsed;
          }
          var read;
          ghost var left := sink_;
          result, read, error := TakeAvailable(buffer, len, processed);
          processed := processed + read;
          StillWithin(sink_, left, old(sink_));
          if result != PR_CONTINUE {
            if result == PR_BLOCK { DataBlocked(buffer, processed, len); }
            return result, processed, error, SinkFailed;
          }
        }
      }
    }

    lemma LineStuck(buffer: array<char>, start: nat, len: nat)
      requires start <= len <= buffer.Length && state_.IsLine() && '\n' !in buffer[start..len]
      ensures StuckAt(Current(), buffer[start..len])
    {
    }

    lemma DataStuck(buffer: array<char>, start: nat, len: nat)
      requires start == len <= buffer.Length && state_ == ST_DATA && data_size_ != 0
      ensures StuckAt(Current(), buffer[start..len])
    {
    }

    lemma DataBlocked(buffer: array<char>, start: nat, len: nat)
      requires start < len <= buffer.Length && state_ == ST_DATA && data_size_ != 0 && env.hasDocument && !ignore_data_
      ensures BlockedAt(env, Current(), buffer[start..len])
    {
    }

    /** The error to report when the network stream ends. */
    function HandleStreamClose(code: int): HttpError
      reads this
    {
      CloseError(code, mode_ == HM_CONNECT, mode_ == HM_RECV && IsValidEndOfInput())
    }

    predicate IsValidEndOfInput()
      reads this
    {
      state_ == ST_DATA && data_size_ == SIZE_UNKNOWN
    }

    /** The network stream delivers at most room bytes. */
    method ReadStream(room: nat) returns (event: NetEvent)
      requires room > 0
      modifies `net_
      ensures old(net_) == [] <==> NetSize(net_) == NetSize(old(net_))
      ensures NetSize(net_) <= NetSize(old(net_))
      ensures event.Arrive? ==> |event.data| <= room && NetBytes(old(net_)) == event.data + NetBytes(net_)
      ensures !event.Arrive? ==> NetBytes(old(net_)) == NetBytes(net_)
      ensures old(net_) == [] ==> event == WouldBlock
      ensures Ready(old(net_)) ==> Ready(net_) && (event == WouldBlock ==> net_ == [])
      ensures old(net_) != [] && (old(net_)[0].Arrive? ==> |old(net_)[0].data| <= room) ==>
        event == old(net_)[0] && net_ == old(net_)[1..]
    {
      if net_ == [] { return WouldBlock; }
      event := net_[0];
      net_ := net_[1..];
      if event.Arrive? && |event.data| > room {
        var data := event.data;
        event := Arrive(data[..room]);
        net_ := [Arrive(data[room..])] + net_;
        assert data == data[..room] + data[room..];
      }
    }

    /** Reads from the network behind the bytes already buffered. */
    method ReadNetwork() returns (event: NetEvent)
      requires InSync() && len_ < kBufferSize
      modifies `net_, `len_, `received_, `reads_, buffer_
      ensures InSync() && TailKept() && Valid() && len_ >= old(len_) && reads_ == old(reads_) + 1
      ensures Ready(old(net_)) ==> Ready(net_) && (event == WouldBlock ==> net_ == [])
      ensures !event.Arrive? ==>
        len_ == old(len_) && received_ == old(received_) && buffer_[..len_] == old(buffer_[..len_])
      ensures event.Arrive? ==> received_ == old(received_) + event.data
      ensures received_ + NetBytes(net_) == old(received_ + NetBytes(net_))
      ensures old(net_) == [] <==> NetSize(net_) == NetSize(old(net_))
      ensures NetSize(net_) <= NetSize(old(net_))
      ensures old(net_) == [] ==> event == WouldBlock
      ensures old(net_) != [] && (old(net_)[0].Arrive? ==> |old(net_)[0].data| <= kBufferSize - old(len_)) ==>
        event == old(net_)[0] && net_ == old(net_)[1..]
    {
      hide Feed, Current, Progressive, Within, NetBytes, NetSize;
      event := ReadStream(kBufferSize - len_);
      reads_ := reads_ + 1;
      if event.Arrive? {
        var data := event.data;
        FeedConcat(env, Initial, received_, data);
        FeedConcat(env, Current(), buffer_[..len_], data);
        Append(data);
        received_ := received_ + data;
        assert received_[used_..] == old(received_)[used_..] + data;
      }
    }

    /** Copies bytes behind those already buffered. */
    method Append(data: string)
      requires len_ + |data| <= buffer_.Length
      modifies `len_, buffer_
      ensures len_ == old(len_) + |data|
      ensures buffer_[..len_] == old(buffer_[..len_]) + data
    {
      forall i | 0 <= i < |data| { buffer_[len_ + i] := data[i]; }
      len_ := len_ + |data|;
    }

    /** Drops the processed bytes from the front of the buffer. */
    method Discard(processed: nat)
      requires processed <= len_ <= kBufferSize == buffer_.Length
      modifies `len_, buffer_
      ensures len_ == old(len_) - processed
      ensures buffer_[..len_] == old(buffer_[processed..len_])
    {
      len_ := len_ - processed;
      forall i | 0 <= i < len_ { buffer_[i] := buffer_[processed + i]; }
    }

    /** Processes the buffered bytes and keeps the rest. */
    method ProcessBuffered() returns (result: ProcessResult, error: HttpError, ghost cause: Cause)
      requires InSync() && state_ != ST_COMPLETE
      modifies `state_, `chunked_, `data_size_, `leader_, `headers_, `document_, `ignore_data_, `sink_, `used_,
        `len_, buffer_
      ensures TailKept() && Valid() && state_ != ST_COMPLETE
      ensures result != PR_COMPLETE || cause == SinkFailed ==> InSync()
      ensures result == PR_COMPLETE && cause == Parsed ==> Meaning() == Fail(Current(), error)
      ensures result == PR_COMPLETE ==>
        cause == Parsed || (cause == SinkFailed && error == HE_STREAM && !NeverFails(script))
      ensures result == PR_CONTINUE ==> Stuck()
      ensures result == PR_BLOCK ==> !NeverBlocks(script) && BlockedAt(env, Current(), buffer_[..len_])
      ensures old(state_.IsLine() && Stuck()) ==> result == PR_CONTINUE && len_ == old(len_)
      ensures old(BlocksFirst(sink_)) ==> document_ == old(document_) && (result == PR_COMPLETE ==> cause == Parsed)
    {
      hide Feed, Progressive, Within, NeverBlocks, NeverFails, BlocksFirst, BlockedAt;
      var processed;
      ghost var left := sink_;
      result, processed, error, cause := Process(buffer_, len_);
      StillWithin(sink_, left, script);
      Discard(processed);
      SuffixOfSuffix(received_, old(used_), processed);
    }

    /** A buffer with no line end in it, and no room for one. */
    ghost predicate Full()
      reads this, buffer_
      requires Valid()
    {
      Stuck() && len_ == kBufferSize
    }

    lemma FullInLine()
      requires Valid() && Full()
      ensures state_.IsLine()
    {
    }

    /** The next read will find the stream closed. */
    ghost predicate AboutToClose()
      reads this
    {
      len_ < kBufferSize && Closes(net_)
    }

    /** The next read will bring document bytes, and the document will not take the first of them. */
    ghost predicate AboutToBlock()
      reads this
    {
      && len_ < kBufferSize && BlocksFirst(sink_)
      && net_ != [] && net_[0].Arrive? && |net_[0].data| <= kBufferSize - len_
      && |Feed(env, Initial, received_ + net_[0].data).body| > |document_|
    }

    /** One turn of the pump: read what the network has, then process what is buffered. */
    method ReceiveRound(needsMore: bool) returns (verdict: Verdict, ghost cause: Cause)
      requires InSync() && Valid() && mode_ == HM_RECV && state_ != ST_COMPLETE && RestsAt(Current())
      requires needsMore ==> Stuck()
      modifies `state_, `chunked_, `data_size_, `leader_, `headers_, `document_, `ignore_data_, `sink_, `used_, `len_,
        `net_, `received_, `reads_, buffer_
      ensures TailKept() && Valid() && state_ != ST_COMPLETE
      ensures reads_ == old(reads_) + if old(len_) < kBufferSize then 1 else 0
      ensures Ready(old(net_)) ==> Ready(net_) && (verdict == Wait && NeverBlocks(script) ==> net_ == [])
      ensures verdict == Again && needsMore ==> old(len_) < kBufferSize
      ensures received_ + NetBytes(net_) == old(received_ + NetBytes(net_)) && NetSize(net_) <= NetSize(old(net_))
      ensures verdict == Again ==> InSync() && Stuck()
      ensures verdict == Wait ==> InSync() && RestsAt(Current())
      ensures verdict.Ended? ==> EndedAs(cause, verdict.error, Current())
      // The network is drained, or the buffer is full.
      ensures verdict == Again && old(Stuck() && net_ != []) ==>
        NetSize(net_) < NetSize(old(net_)) || len_ == kBufferSize
      ensures verdict == Wait && NeverBlocks(script) ==> old(net_) == [] || NetSize(net_) < NetSize(old(net_))
      // A full buffer with no line in it.
      ensures old(Full()) ==>
        if needsMore then verdict.Ended? && cause == Overflow else verdict == Again && len_ == kBufferSize
      // The close is seen before anything else is done.
      ensures old(AboutToClose()) ==>
        && verdict.Ended? && cause == StreamClosed(CloseCode(old(net_)))
        && len_ == old(len_) && received_ == old(received_) && document_ == old(document_)
        && state_ == old(state_) && data_size_ == old(data_size_)
      // A document that blocks leaves its bytes behind.
      ensures old(AboutToBlock()) ==>
        && verdict == Wait && document_ == old(document_)
        && net_ == old(net_)[1..] && received_ == old(received_) + old(net_)[0].data
    {
      hide Feed, Progressive, Within, NeverBlocks, NeverFails, BlocksFirst, BlockedAt, NetBytes, NetSize, StuckAt,
        Current, Closes, AboutToClose;
      if Full() { FullInLine(); }
      var stop;
      stop, cause := ReadRound(needsMore);
      if stop.Some? { return stop.value, cause; }
      var result, error;
      result, error, cause := ProcessBuffered();
      match result {
        case PR_CONTINUE =>
          verdict := Again;
          HeldBody(false, error);
        case PR_BLOCK => verdict := Wait;
        case PR_COMPLETE =>
          verdict := Ended(error);
          if cause == Parsed { HeldBody(true, error); }
      }
    }

    /** What is pending, or how a message was parsed, does not concern the document. */
    lemma HeldBody(ended: bool, error: HttpError)
      requires Valid() && if ended then Meaning() == Fail(Current(), error) else InSync() && Stuck()
      ensures Meaning().body == document_
    {
      if !ended { StuckMeaning(env, Current(), buffer_[..len_]); }
    }

    /** The first half of a turn: a read, unless the buffer is full. */
    method ReadRound(needsMore: bool) returns (stop: Option<Verdict>, ghost cause: Cause)
      requires InSync() && Valid() && mode_ == HM_RECV && state_ != ST_COMPLETE && RestsAt(Current())
      requires needsMore ==> Stuck()
      modifies `len_, `net_, `received_, `reads_, buffer_
      ensures InSync() && TailKept() && Valid()
      ensures reads_ == old(reads_) + if old(len_) < kBufferSize then 1 else 0
      ensures Ready(old(net_)) ==> Ready(net_) && (stop == Some(Wait) ==> net_ == [])
      ensures received_ + NetBytes(net_) == old(received_ + NetBytes(net_)) && NetSize(net_) <= NetSize(old(net_))
      ensures old(len_ < kBufferSize && net_ != []) ==> NetSize(net_) < NetSize(old(net_))
      ensures stop == Some(Wait) ==> RestsAt(Current()) && old(len_) < kBufferSize
      ensures stop != Some(Again) && (stop.Some? && stop.value.Ended? ==> EndedAs(cause, stop.value.error, Current()))
      ensures old(len_) == kBufferSize ==>
        if needsMore then stop == Some(Ended(HE_OVERFLOW)) && cause == Overflow
        else stop == None && len_ == old(len_) && buffer_[..len_] == old(buffer_[..len_])
      ensures old(AboutToClose()) ==>
        && stop.Some? && stop.value.Ended? && cause == StreamClosed(CloseCode(old(net_)))
        && len_ == old(len_) && received_ == old(received_)
      // An empty network is waited for once nothing is left to be done without it.
      ensures old(len_ < kBufferSize && (net_ == [] || net_[0] == WouldBlock)) ==>
        stop == if needsMore then Some(Wait) else None
      ensures old(AboutToBlock()) ==>
        stop == None && net_ == old(net_)[1..] && received_ == old(received_) + old(net_)[0].data
    {
      hide Feed, Progressive, Within, NeverBlocks, NeverFails, BlocksFirst, BlockedAt, NetBytes, NetSize, StuckAt;
      cause := Parsed;
      if len_ < kBufferSize {
        var event := ReadNetwork();
        match event {
          case Arrive(_) => return None, Parsed;
          case WouldBlock => return if needsMore then Some(Wait) else None, Parsed;
          case CleanEnd => return Some(Ended(HandleStreamClose(0))), StreamClosed(0);
          case ReadError(code) => return Some(Ended(HandleStreamClose(code))), StreamClosed(code);
        }
      } else if needsMore {
        StuckMeaning(env, Current(), buffer_[..len_]);
        return Some(Ended(HE_OVERFLOW)), Overflow;
      }
      stop := None;
    }

    /** How the ending of a message agrees with the bytes received, v being the parser's view at the end. */
    ghost predicate EndedAs(cause: Cause, error: HttpError, v: View)
      reads `buffer_, `len_, `sink_, `received_, buffer_
      requires Valid()
    {
      match cause
      case Parsed => Meaning() == Fail(v, error)
      case Overflow => error == HE_OVERFLOW && len_ == kBufferSize && Meaning() == Pending(v, buffer_[..len_])
      case StreamClosed(code) =>
        && RestsAt(v) && Meaning() == Feed(env, v, buffer_[..len_])
        && error == CloseError(code, false, OpenEnded(v))
      case SinkFailed => error == HE_STREAM && !NeverFails(script) && Meaning() == Feed(env, v, buffer_[..len_])
    }

    /** The data pump: rounds until the message ends, something blocks, or the network has had its share. */
    method DoReceiveLoop() returns (complete: bool, error: HttpError, ghost cause: Cause)
      requires InSync() && TailKept() && Valid() && mode_ == HM_RECV && state_ != ST_COMPLETE && RestsAt(Current())
      modifies `state_, `chunked_, `data_size_, `leader_, `headers_, `document_, `ignore_data_, `sink_, `used_, `len_,
        `net_, `received_, `reads_, buffer_
      ensures TailKept() && Valid() && state_ != ST_COMPLETE
      // At most 21 reads; fewer only if the network has nothing more to give.
      ensures reads_ <= old(reads_) + 21
      ensures !complete && NeverBlocks(script) && Ready(old(net_)) ==> net_ == [] || reads_ >= old(reads_) + 20
      ensures received_ + NetBytes(net_) == old(received_ + NetBytes(net_))
      ensures if complete then EndedAs(cause, error, Current()) else InSync() && RestsAt(Current())
      // Each call takes something from the network while it has something to give.
      ensures NetSize(net_) <= NetSize(old(net_))
      ensures NeverBlocks(script) && old(net_) != [] ==> complete || NetSize(net_) < NetSize(old(net_))
      ensures old(Full()) ==> complete && cause == Overflow
      ensures old(AboutToClose()) ==>
        && complete && cause == StreamClosed(CloseCode(old(net_)))
        && len_ == old(len_) && received_ == old(received_) && document_ == old(document_)
        && state_ == old(state_) && data_size_ == old(data_size_)
      ensures old(AboutToBlock()) ==>
        && !complete && document_ == old(document_)
        && net_ == old(net_)[1..] && received_ == old(received_) + old(net_)[0].data
    {
      hide Feed, InSync, TailKept, Meaning, Current, StuckAt, BlockedAt, EndedAs, NetBytes, NetSize, NeverBlocks,
        AboutToClose, AboutToBlock;
      var loopCount, needsMore := 0, false;
      SomethingLeft(net_);
      while true
        invariant InSync() && TailKept() && Valid() && state_ != ST_COMPLETE
        invariant if needsMore then Stuck() else RestsAt(Current())
        invariant received_ + NetBytes(net_) == old(received_ + NetBytes(net_))
        invariant loopCount <= kMaxReadCount && (needsMore <==> loopCount > 0)
        invariant reads_ <= old(reads_) + loopCount && reads_ + 1 >= old(reads_) + loopCount
        invariant Ready(old(net_)) ==> Ready(net_)
        invariant loopCount == 0 ==> unchanged(this) && unchanged(buffer_)
        invariant old(Full()) ==> loopCount <= 1 && len_ == kBufferSize
        invariant loopCount > 0 ==> !old(AboutToClose()) && !old(AboutToBlock())
        invariant NetSize(net_) <= NetSize(old(net_))
        invariant NeverBlocks(script) && old(net_) != [] && loopCount > 0 ==>
          NetSize(net_) < NetSize(old(net_)) || (loopCount == 1 && len_ == kBufferSize)
        decreases kMaxReadCount - loopCount
      {
        var verdict;
        verdict, cause := ReceiveRound(needsMore);
        match verdict {
          case Again => needsMore := true;
          case Wait => return false, HE_NONE, Parsed;
          case Ended(e) => return true, e, cause;
        }
        loopCount := loopCount + 1;
        if loopCount > kMaxReadCount { return false, HE_NONE, Parsed; }
      }
    }

    /** The message in progress, or how it ended: what every event of the connection keeps. */
    ghost predicate Inv()
      reads this, buffer_
    {
      && TailKept()
      && match outcome_ {
           case None =>
             mode_ == HM_RECV && state_ != ST_COMPLETE && completions_ == [] && InSync() && RestsAt(Current())
           case Some((cause, error)) =>
             && mode_ == HM_NONE && state_ == ST_COMPLETE && completions_ == [(HM_RECV, error)]
             && final_.state != ST_COMPLETE && Current() == final_.(state := ST_COMPLETE)
             && EndedAs(cause, error, final_)
         }
    }

    /** HttpParser::complete and do_complete: the owner is told once. */
    method Complete(error: HttpError, ghost cause: Cause)
      modifies `state_, `mode_, `completions_, `outcome_, `final_
      ensures old(state_) == ST_COMPLETE ==> unchanged(this)
      ensures old(state_) != ST_COMPLETE ==>
        && state_ == ST_COMPLETE && mode_ == HM_NONE && outcome_ == Some((cause, error))
        && final_ == old(Current()) && final_.state == old(state_) && Current() == final_.(state := ST_COMPLETE)
        && final_.size == data_size_
        && completions_ == old(completions_) + [(old(mode_), error)]
    {
      if state_.Ord() < ST_COMPLETE.Ord() {
        final_ := Current();
        state_ := ST_COMPLETE;
        completions_ := completions_ + [(mode_, error)];
        mode_ := HM_NONE;
        outcome_ := Some((cause, error));
      }
    }

    /** The network or the document became ready. */
    method ReadAndProcessData()
      requires Inv()
      modifies this, buffer_
      ensures Inv() && buffer_ == old(buffer_)
      ensures received_ + NetBytes(net_) == old(received_ + NetBytes(net_)) && NetSize(net_) <= NetSize(old(net_))
      ensures old(outcome_).Some? ==> outcome_ == old(outcome_) && received_ == old(received_)
      ensures reads_ <= old(reads_) + 21
      ensures NeverBlocks(script) && Ready(old(net_)) && outcome_ == None ==> net_ == [] || reads_ >= old(reads_) + 20
      ensures NeverBlocks(script) && old(outcome_ == None && net_ != []) ==>
        outcome_.Some? || NetSize(net_) < NetSize(old(net_))
      ensures old(outcome_ == None && Full()) ==> outcome_ == Some((Overflow, HE_OVERFLOW))
      // A close that is read ends the message before anything that is buffered.
      ensures old(outcome_ == None && AboutToClose()) ==>
        ClosedWith(CloseCode(old(net_))) && len_ == old(len_) && document_ == old(document_)
          && received_ == old(received_)
      // A document that blocks at once leaves its bytes in the buffer.
      ensures old(outcome_ == None && AboutToBlock()) ==>
        && outcome_ == None && document_ == old(document_)
        && net_ == old(net_)[1..] && received_ == old(received_) + old(net_)[0].data
    {
      hide Feed, Meaning, Current, StuckAt, BlockedAt, NetBytes, NetSize, NeverBlocks, AboutToBlock, Progressive,
        CloseError, Within, Ready, Closes;
      if mode_ != HM_RECV { return; }
      var complete, error;
      ghost var cause;
      complete, error, cause := DoReceiveLoop();
      if complete {
        Complete(error, cause);
        if cause.StreamClosed? { WholeIfAtRest(this); }
      }
    }

    /** The network stream reports that it has closed. */
    method OnStreamClose(code: int)
      requires Inv()
      modifies `state_, `mode_, `completions_, `outcome_, `final_
      ensures Inv() && outcome_.Some?
      ensures if old(outcome_).Some? then outcome_ == old(outcome_) else ClosedWith(code)
    {
      hide Feed, Meaning, StuckAt, BlockedAt;
      var error := HandleStreamClose(code);
      if mode_ == HM_RECV {
        Complete(error, StreamClosed(code));
        WholeIfAtRest(this);
      }
    }

    /**
     * The message in progress has been ended by a close: with success exactly in an open-ended
     * data section, and with its whole document exactly when no document bytes were buffered.
     */
    twostate predicate ClosedWith(code: int)
      requires old(Inv()) && Valid()
      reads this, buffer_
    {
      && outcome_ == Some((StreamClosed(code), CloseError(code, false, old(IsValidEndOfInput()))))
      && (document_ == Meaning().body <==> old(state_ != ST_DATA || len_ == 0))
      && old(Meaning()) == Meaning()
    }
  }

  /** What a receiver holds at the end of the stream is all it was sent, unless document bytes are still buffered. */
  lemma WholeIfAtRest(b: HttpBase)
    requires b.Inv() && b.outcome_.Some? && b.outcome_.value.0.StreamClosed?
    ensures b.document_ == b.Meaning().body <==> b.final_.state != ST_DATA || b.len_ == 0
  {
    hide Feed;
    var v, rest := b.final_, b.buffer_[..b.len_];
    if StuckAt(v, rest) { StuckMeaning(b.env, v, rest); } else { BlockedMeaning(b.env, v, rest); }
  }

  /** Read events until the message ends, or the network has delivered everything and no overflow is pending. */
  method ReceiveAll(b: HttpBase)
    requires b.Inv() && NeverBlocks(b.script)
    modifies b, b.buffer_
    ensures b.Inv()
    ensures b.received_ + NetBytes(b.net_) == old(b.received_ + NetBytes(b.net_))
    ensures b.outcome_ == None ==> b.net_ == [] && b.len_ < kBufferSize
  {
    while b.mode_ == HM_RECV && (b.net_ != [] || b.len_ == kBufferSize)
      invariant b.Inv() && b.buffer_ == old(b.buffer_)
      invariant b.received_ + NetBytes(b.net_) == old(b.received_ + NetBytes(b.net_))
      decreases b.mode_ == HM_RECV, NetSize(b.net_)
    {
      hide Feed, NeverBlocks, NetBytes, NetSize;
      b.ReadAndProcessData();
    }
  }

  // ---- Fragmentation independence ----------------------------------------

  /** Whatever has happened to a receiver whose document never blocks, it holds what its bytes mean. */
  ghost predicate HoldsMeaning(b: HttpBase)
    requires b.Valid()
    reads b, b.buffer_
  {
    var v := b.Meaning();
    && b.leader_ == v.leader && b.headers_ == v.headers && b.document_ == v.body && b.used_ == v.used
    && b.chunked_ == v.chunked && b.data_size_ == v.size && b.ignore_data_ == v.ignore
  }

  /** The message has been ended by its own bytes. */
  ghost predicate Concluded(b: HttpBase)
    reads b
  {
    b.outcome_.Some? && (b.outcome_.value.0 == Parsed || b.outcome_.value.0 == Overflow)
  }

  /** It has not failed through its document. */
  ghost predicate Fair(b: HttpBase)
    reads b
  {
    NeverBlocks(b.script) && (b.outcome_.Some? ==> b.outcome_.value.0 != SinkFailed)
  }

  lemma ReceiverHoldsMeaning(b: HttpBase)
    requires b.Inv() && (Fair(b) || Concluded(b))
    ensures HoldsMeaning(b)
    ensures Concluded(b) ==> b.Meaning().done == Some(b.outcome_.value.1)
    ensures Concluded(b) ==> b.Meaning().line == if b.outcome_.value.0 == Parsed then "" else b.buffer_[..b.len_]
    ensures !Concluded(b) ==> b.Meaning() == Pending(b.Meaning(), b.buffer_[..b.len_])
    ensures b.outcome_ == None ==> b.Current() == b.Meaning().(line := "", done := None)
    ensures b.outcome_.Some? && b.outcome_.value.0.StreamClosed? ==>
      && b.outcome_.value.1 == CloseError(b.outcome_.value.0.code, false, OpenEnded(b.Meaning()))
      && (b.final_.state == ST_DATA ==> b.len_ == 0)
  {
    hide Feed;
    var rest := b.buffer_[..b.len_];
    if b.outcome_ == None {
      StuckMeaning(b.env, b.Current(), rest);
    } else if b.outcome_.value.0.StreamClosed? {
      StuckMeaning(b.env, b.final_, rest);
    }
  }

  lemma EndIsStable(env: Env, prefix: string, stream: string)
    requires prefix <= stream && Feed(env, Initial, prefix).done.Some?
    ensures Feed(env, Initial, stream) == Feed(env, Initial, prefix)
  {
    var rest := stream[|prefix|..];
    assert stream == prefix + rest;
    FeedConcat(env, Initial, prefix, rest);
    FeedDone(env, Feed(env, Initial, prefix), rest);
  }

  /** The parts of a message that a receiver hands over. */
  ghost predicate SameMessage(a: HttpBase, b: HttpBase)
    reads a, b
  {
    a.leader_ == b.leader_ && a.headers_ == b.headers_ && a.document_ == b.document_ && a.used_ == b.used_
  }

  /**
   * Two receivers of the same bytes, however cut and however accepted, have the same message,
   * waiting or ended. They end alike, the codes of their closes being the same, except that a
   * line as long as the buffer may be told by an overflow or, when the close comes first, by it.
   */
  lemma FragmentationIndependence(a: HttpBase, b: HttpBase)
    requires a.Inv() && b.Inv() && Fair(a) && Fair(b) && a.env == b.env && a.received_ == b.received_
    ensures SameMessage(a, b) && a.chunked_ == b.chunked_ && a.data_size_ == b.data_size_
    ensures a.buffer_[..a.len_] == b.buffer_[..b.len_]
    ensures Concluded(a) && Concluded(b) ==> a.outcome_ == b.outcome_
    ensures Concluded(a) && !Concluded(b) ==> a.outcome_ == Some((Overflow, HE_OVERFLOW)) && b.len_ == kBufferSize
    ensures a.outcome_ == None && b.outcome_ == None ==> a.Current() == b.Current()
    ensures a.outcome_.Some? && b.outcome_.Some? && a.outcome_.value.0 == b.outcome_.value.0 ==>
      a.outcome_ == b.outcome_
  {
    hide Feed;
    ReceiverHoldsMeaning(a);
    ReceiverHoldsMeaning(b);
  }

  /** The end of a message is the same for every receiver of the stream, whatever its document does. */
  lemma SameMessageDelivered(a: HttpBase, b: HttpBase, stream: string)
    requires a.Inv() && b.Inv() && a.env == b.env && a.received_ <= stream && b.received_ <= stream
    requires Concluded(a) && Concluded(b)
    ensures a.outcome_ == b.outcome_ && SameMessage(a, b)
  {
    hide Feed;
    ReceiverHoldsMeaning(a);
    ReceiverHoldsMeaning(b);
    EndIsStable(a.env, a.received_, stream);
    EndIsStable(b.env, b.received_, stream);
  }

  /**
   * Once a message has ended for one receiver, another with at least its bytes has it too and
   * has ended alike; only a line as long as the buffer may still wait for its overflow.
   */
  lemma NoneLeftWaiting(a: HttpBase, b: HttpBase)
    requires a.Inv() && b.Inv() && Fair(b) && a.env == b.env && Concluded(a) && a.received_ <= b.received_
    ensures SameMessage(a, b)
    ensures a.outcome_ == b.outcome_ ||
      (a.outcome_ == Some((Overflow, HE_OVERFLOW)) && !Concluded(b) && b.len_ == kBufferSize)
  {
    hide Feed;
    ReceiverHoldsMeaning(a);
    ReceiverHoldsMeaning(b);
    EndIsStable(a.env, a.received_, b.received_);
  }

  // ---- A close while the document blocks ---------------------------------

  /** Document bytes buffered up to the last one are a whole message, which a clean close then calls disconnected. */
  lemma WholeMessageCalledDisconnected(b: HttpBase)
    requires b.Inv() && b.outcome_ == None && b.state_ == ST_DATA && !b.chunked_ && b.data_size_ != SIZE_UNKNOWN
    ensures b.HandleStreamClose(0) == HE_DISCONNECTED
    ensures b.Meaning().done == Some(HE_NONE) <==> b.data_size_ <= b.len_
  {
    SizedMeaning(b.env, b.Current(), b.buffer_[..b.len_]);
  }

  /** An owner that accepts every message and says how long it is. */
  function EnvOf(size: size_t): Env {
    Env(_ => HE_NONE, (leader, headers, chunked, announced) => Decision(HE_NONE, size, false), true)
  }

  const ShortMessage: string := "L" + ("\n" + ("" + ("\n" + "x")))

  lemma FeedNothing(env: Env, v: View)
    ensures Feed(env, v, "") == Settle(v)
  {
  }

  lemma ShortMessageMeaning(size: size_t)
    requires size > 0
    ensures var v := Feed(EnvOf(size), Initial, ShortMessage);
      && v.body == "x" && !v.chunked
      && if size == 1 then v.done == Some(HE_NONE) else v.done == None && (size == SIZE_UNKNOWN ==> v.size == size)
  {
    hide Feed;
    var env := EnvOf(size);
    FeedLine(env, Initial, "L", "" + ("\n" + "x"));
    assert TrimRight("L") == "L" && TrimRight("") == "";
    var v := EndLine(env, Initial, "L");
    FeedLine(env, v, "", "x");
    var w := EndLine(env, v, "");
    FeedData(env, w, "x", "");
    assert "x" + "" == "x" && "" + "x" == "x";
    FeedNothing(env, TakeData(env, w, "x"));
  }

  /** All bytes have arrived, and the document has taken none of its own. */
  method BlockedByDocument(size: size_t) returns (b: HttpBase)
    requires size == 1 || size == SIZE_UNKNOWN
    ensures fresh(b) && fresh(b.buffer_) && b.Inv() && b.outcome_ == None && b.net_ == [CleanEnd]
    ensures b.received_ == ShortMessage && b.env == EnvOf(size) && b.document_ == "" && b.len_ < kBufferSize
    ensures b.state_ == ST_DATA && (b.data_size_ == SIZE_UNKNOWN <==> size == SIZE_UNKNOWN)
  {
    hide Feed;
    var env := EnvOf(size);
    b := new HttpBase(env, [Arrive(ShortMessage), CleanEnd], [SinkBlock]);
    ShortMessageMeaning(size);
    assert "" + ShortMessage == ShortMessage && |ShortMessage| < kBufferSize;
    b.ReadAndProcessData();
    ghost var v, rest := b.Current(), b.buffer_[..b.len_];
    if StuckAt(v, rest) { StuckMeaning(env, v, rest); }
    if size == 1 {
      if OpenEnded(v) { OpenEndMeaning(env, v, rest); }
    } else {
      OpenEndedBefore(env, v, rest);
    }
  }

  /**
   * The document blocks and the peer closes, all bytes having arrived. An open-ended message is
   * reported complete without its last byte, one of known size is reported disconnected.
   */
  method BlockedThenClosed(size: size_t) returns (b: HttpBase)
    requires size == 1 || size == SIZE_UNKNOWN
    ensures fresh(b) && b.Inv() && b.document_ == "" && b.Meaning().body == "x"
    ensures size == SIZE_UNKNOWN ==> b.outcome_ == Some((StreamClosed(0), HE_NONE))
    ensures size == 1 ==> b.outcome_ == Some((StreamClosed(0), HE_DISCONNECTED)) && b.Meaning().done == Some(HE_NONE)
  {
    hide Feed, HttpBase.Inv, ShortMessage;
    b := BlockedByDocument(size);
    ShortMessageMeaning(size);
    b.ReadAndProcessData();
  }
}
