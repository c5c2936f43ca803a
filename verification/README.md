# talk_base, modelled and verified

Dafny models of the protocol engines and data structures in `trunk/talk/base`, with proofs of
what they promise. `dafny verify dfyconfig.toml` checks everything.

| file | what it models |
|---|---|
| `HttpParser.dfy` | the meaning of the incremental HTTP/1.1 parser, byte by byte |
| `HttpReceiver.dfy` | the receiving half of `HttpBase`: parser fields, 32 KB buffer, receive loop |
| `HttpPrinter.dfy` | what a message looks like on the wire, and that it reads back (sections 3.6.1 and 4.4 of RFC 2616) |
| `HttpHeaders.dfy` | what the headers announce about the body, to sender and receiver |
| `HttpSender.dfy` | the sending half of `HttpBase`: `send`, `flush_data`, `queue_headers` |
| `HttpEndToEnd.dfy` | one sends, the other receives |
| `HttpText.dfy`, `Util.dfy` | the C library conversions the engine uses, and shared vocabulary |
| `AsyncTcpSocket.dfy` | packets behind 16-bit lengths over a byte stream |
| `LockFreeQueue.dfy` | the single-producer, single-consumer queue as interleaved atomic steps |
| `Base64.dfy`, `Base64Laws.dfy` | encoder and tolerant decoder (sections 3.5 and 4 of RFC 4648) |
| `Crc32.dfy` | the lazily built table against bitwise division (section 8 of RFC 1952) |
| `DiskCache.dfy` | lock states, open streams and size accounts of the disk cache |
| `HttpClient.dfy` | retries, redirects and proxy authentication of the HTTP client |
| `ByteBuffer.dfy`, `ByteOrder.dfy` | the growable buffer with remembered positions; numbers in memory |
| `IpAddress.dfy` | prefix truncation and mask lengths |
| `HttpAttributes.dfy` | the attribute-list parser and the two writers it serves |

## How the environment is modelled

Network streams, documents, the connection pool and the file system are scripts or parameters
that say what each will do next: take or deliver any number of bytes, block, end or fail. A
statement about all scripts is a statement about all behaviours. `HttpBase` is split by its
mode into a receiving and a sending class. Characters are a superset of bytes; `size_t` and
`unsigned long` are 32 bits wide, as on the arm build, and `SIZE_UNKNOWN` is their maximum. The
loops of the source are loops here; long ones have their inner steps in methods of their own.
Shifts and "or" of bytes are written as arithmetic in `ByteOrder` and `Base64`, and as bit
vectors in `Crc32` and `IpAddress`. Iteration over headers is over a sequence in the order of
the source's container.

## Where the code does not keep its promise

Each of these is proved with the exact condition under which the code does keep it, and shown
by an input (second name), or for every input of a kind:

* A document read of zero bytes prints as the last chunk and ends the message early
  (`HttpPrinter.ChunkedConsumedIffNoEmptyPiece`, `HttpPrinter.EmptyPieceCutsOff`).
* A close is acted on before the bytes that a blocking document has left in the buffer. The
  document is whole exactly when none were left; an open-ended message is still reported as
  complete, and one of known size as disconnected even if all of it had arrived
  (`HttpReceiver.HttpBase.ReadAndProcessData` and `OnStreamClose`,
  `HttpReceiver.WholeMessageCalledDisconnected`, `HttpReceiver.BlockedThenClosed`).
* Without a document, the flush loop does not wait for a blocked network, and turns for as long
  as it stays blocked (`HttpSender.HttpBase.FlushRound` and `FlushData`,
  `HttpSender.TurnsWhileBlocked`).
* A sender chunks for "chunked" only, a receiver expects chunks for any spelling of it
  (`HttpEndToEnd.CodingsAgreeIff`, `HttpEndToEnd.CapitalChunked`).
* A Content-Length of 2^31 and more is printed as a negative number; this parser reads it back as
  the length it was (`HttpHeaders.DigitsAloneIff`, `HttpHeaders.ContentLengthReadsBack`).
* The queue is first in, first out for ever only when its capacity divides 2^32
  (`LockFreeQueue.FifoForeverIff`, `LockFreeQueue.WrapOverwrites`).
* `DO_PARSE_WHITE` refuses white space behind whole quanta when padding is required
  (`Base64Laws.WhiteIsStrictWithoutBlanks`, `Base64Laws.BlankBehindQuantum`).
* `CheckLimit` picks the oldest entry from the first free one on without asking whether that one is
  free, and evicts it exactly if it is. So the cache is brought within its limit unless no entry is
  free or a free one is not older than one that is not (`DiskCache.DiskCache.EvictOne` and
  `CheckLimit`, `DiskCache.LockedOldEntryIsPicked`).
* `Purge` leaves the total size behind (`DiskCache.DiskCache.Purge`, `DiskCache.PurgeLeavesSize`).
* `CountIPMaskBits` ignores IPv6 words after the first incomplete one
  (`IpAddress.CountCoversIff`, `IpAddress.GapHidesTheRest`).
* `HttpComposeAttributes` writes lists its parser does not read back
  (`HttpAttributes.ComposeRoundTripIff`, `HttpAttributes.BareNameSwallowsComma`).

## Model

| member | source | states |
|---|---|---|
| HttpText.ChunkSizeReadsBack | trunk/talk/base/httpbase.cc:655-656 | the eight hexadecimal digits printed for a chunk size are read back by strtoul as the same number, with nothing left over |
| HttpText.Unsigned32 | trunk/talk/base/httpbase.cc:172-199 | the unsigned conversions saturate at 2^32 - 1 and negate modulo 2^32 |
| HttpText.IndexOf | trunk/talk/base/stringutils.h:175-183 | strchrn: the first occurrence of the character in front of any zero byte, or the end when there is none |
| HttpText.CText | trunk/talk/base/httpbase.cc:727-737 | formatting takes of a header text everything in front of the first zero byte |
| HttpText.TrimRightMeans | trunk/talk/base/httpbase.cc:102-104 | blanks are cut off the end, and nothing else is |
| HttpText.TrimLeftMeans | trunk/talk/base/httpbase.cc:164-166 | blanks are skipped at the start, and nothing else is |
| HttpText.EqualsIgnoreCaseMeans | trunk/talk/base/stringutils.h:129-134 | texts are equal position by position, or have the two cases of one of 26 letters there |
| HttpText.DigitMeans | trunk/talk/base/httpbase.cc:196-199 | the digits to base 10 and 16, in both cases, and no other characters |
| HttpText.DecimalReadsBack | trunk/talk/base/httpbase.cc:172-178 | %u reads the decimal digits of n as n, behind blanks and in front of other text; saturated from 2^32 on, negated modulo 2^32 behind a minus |
| HttpText.NothingToScan | trunk/talk/base/httpbase.cc:172-178 | without a digit, behind blanks and a sign, %u reads nothing |
| HttpText.HexReadsBack | trunk/talk/base/httpbase.cc:197-203 | strtoul reads any hexadecimal digits, behind blanks, sign and 0x, as their value, and tells whether something follows |
| HttpParser.FeedConcat | trunk/talk/base/httpbase.cc:90-141 | the meaning of a stream of bytes does not depend on where it is cut |
| HttpParser.FeedLine | trunk/talk/base/httpbase.cc:91-111 | a complete line shorter than the buffer is one element: line taken, trailing blanks cut, then processed |
| HttpParser.FeedPartialLine | trunk/talk/base/httpbase.cc:92-98 | bytes of a line without its line feed only lengthen the pending line, until it is as long as the buffer and the message fails with HE_OVERFLOW |
| HttpParser.FeedData | trunk/talk/base/httpbase.cc:118-137 | any part of the data section counts as one piece: body, remaining size and bytes used |
| HttpParser.FeedExhausted | trunk/talk/base/httpbase.cc:112-117 | an exhausted data section becomes a chunk terminator or completes, without input |
| HttpParser.FeedDone | trunk/talk/base/httpbase.cc:84-88 | after completion no byte is consumed |
| HttpParser.BodyGrows | trunk/talk/base/httpbase.cc:118-137 | no byte takes back what the document has been given |
| HttpParser.CloseErrorMeans | trunk/talk/base/httpbase.cc:495-512 | the error for every code of a closed stream |
| HttpParser.LongLineMeans | trunk/talk/base/httpbase.cc:557-563 | a line without its end waits up to 32767 bytes and overflows with 32768 |
| HttpParser.LeaderMeans | trunk/talk/base/httpbase.cc:151-153 | the first line, without the blanks at its end, is the leader; the owner may refuse it |
| HttpParser.NoColonMeans | trunk/talk/base/httpbase.cc:157-161 | a header line without a colon is HE_PROTOCOL |
| HttpParser.HeaderMeans | trunk/talk/base/httpbase.cc:168-189 | what each header does, by its name and value |
| HttpParser.HeadEndMeans | trunk/talk/base/httpbase.cc:190-193 | the blank line: successor state, the owner's size, ignoring and error |
| HttpParser.ChunkSizeMeans | trunk/talk/base/httpbase.cc:196-209 | a chunk size line: error, last chunk, or so many bytes of data |
| HttpParser.ChunkEndMeans | trunk/talk/base/httpbase.cc:211-218 | nothing but a line end may follow a chunk |
| HttpParser.TrailersMean | trunk/talk/base/httpbase.cc:220-226 | any trailer lines are passed over; the blank line ends the message, with success |
| HttpParser.DataMeans | trunk/talk/base/httpbase.cc:118-137 | bytes of the data section reach the document unless they are ignored, and are counted |
| HttpReceiver.HttpBase.constructor | trunk/talk/base/httpbase.cc:455-476 | a receiver at the start of a message, with any scripts for network and document |
| HttpReceiver.HttpBase.ProcessHeaderLine | trunk/talk/base/httpbase.cc:155-189 | one header line does to the parser fields what the byte-wise meaning says, errors included |
| HttpReceiver.HttpBase.ProcessLine | trunk/talk/base/httpbase.cc:144-233 | every line state: same successor state, size, header, decision and error as the byte-wise meaning |
| HttpReceiver.HttpBase.ProcessData | trunk/talk/base/httpbase.cc:866-889 | the document is asked once and what it accepted is appended; ignored data is taken whole without asking; a document that blocks stops the parser, one that ends or fails is HE_STREAM |
| HttpReceiver.HttpBase.TakeLine | trunk/talk/base/httpbase.cc:99-111 | taking a line off the buffer keeps the meaning of the buffered bytes |
| HttpReceiver.HttpBase.TakeAvailable | trunk/talk/base/httpbase.cc:119-137 | taking any accepted part of the data section keeps the meaning of the buffered bytes |
| HttpReceiver.HttpBase.Process | trunk/talk/base/httpbase.cc:79-142 | terminates; what was processed and what is left mean what the input meant; it stops only in front of an unfinished line, with nothing left, or where the document blocks |
| HttpReceiver.FindLineEnd | trunk/talk/base/httpbase.cc:92-98 | the first line feed, or the end |
| HttpReceiver.WithoutTrailingSpace | trunk/talk/base/httpbase.cc:102-104 | the trimming loop computes the trimmed line |
| HttpReceiver.HttpBase.ReadStream | trunk/talk/base/httpbase.cc:535-541 | a read delivers a non-rewritten prefix of what the network has, at most the room asked for |
| HttpReceiver.HttpBase.ReadNetwork | trunk/talk/base/httpbase.cc:531-558 | reading keeps buffer, bytes received and their meaning in step |
| HttpReceiver.HttpBase.Discard | trunk/talk/base/httpbase.cc:575-576 | the unconsumed tail moves to the front unchanged |
| HttpReceiver.HttpBase.ProcessBuffered | trunk/talk/base/httpbase.cc:571-588 | processing and keeping the tail preserves the meaning of everything received |
| HttpReceiver.HttpBase.ReadRound | trunk/talk/base/httpbase.cc:523-569 | one read keeps buffer and meaning; a close ends the message before anything buffered is looked at; HE_OVERFLOW only for one line that fills the buffer |
| HttpReceiver.HttpBase.ReceiveRound | trunk/talk/base/httpbase.cc:523-592 | one turn of the pump: every way it ends agrees with the meaning of the bytes received; each turn moves the network on, or the buffer is full |
| HttpReceiver.HttpBase.DoReceiveLoop | trunk/talk/base/httpbase.cc:514-593 | the pump preserves the meaning of all bytes received and ends only as they demand; a full buffer without a line overflows; a close is seen first; progress on every call, which reads until nothing is left, twenty times at least and 21 at most |
| HttpReceiver.HttpBase.Complete | trunk/talk/base/httpbase.cc:240-246 | the owner is told once; a second completion changes nothing |
| HttpReceiver.HttpBase.ReadAndProcessData | trunk/talk/base/httpbase.cc:595-601 | every read event keeps the connection invariant, which names the view the message ended with; a close that is read gives success exactly in an open-ended data section, and the whole document exactly when no document bytes were buffered; after completion nothing moves |
| HttpReceiver.HttpBase.OnStreamClose | trunk/talk/base/httpbase.cc:796-803 | closing always ends the message, and only once: with the error its state before the close demands, and with the whole document exactly when no document bytes were buffered |
| HttpReceiver.ReceiveAll | trunk/talk/base/httpbase.cc:771-790 | read events until the message ends or everything has arrived keep the invariant; none is left with a full buffer |
| HttpReceiver.StuckMeaning | trunk/talk/base/httpbase.cc:518-594 | what a parser that waits for input holds is exactly the meaning of the bytes received, the buffer being the pending line |
| HttpReceiver.BlockedMeaning | trunk/talk/base/httpbase.cc:866-889 | a parser that waits for its document still owes it bytes that have arrived |
| HttpReceiver.WholeIfAtRest | trunk/talk/base/httpbase.cc:531-556 | a message ended by a close has all of its document exactly when no document bytes were buffered |
| HttpReceiver.ReceiverHoldsMeaning | trunk/talk/base/httpbase.cc:514-593 | whatever has happened to a receiver, unless its document blocked or failed, it holds what its bytes mean: leader, headers, document, sizes, bytes used, error; ended by a close, its error is the one for where the bytes end and no document byte is left in the buffer |
| HttpReceiver.FragmentationIndependence | trunk/talk/base/httpbase.cc:514-593 | two receivers of the same bytes, however cut and however accepted, waiting or ended in any way, agree on leader, headers, document, sizes, bytes used, buffered tail, cause and error; only a line as long as the buffer may be told by HE_OVERFLOW or by a close that comes first |
| HttpReceiver.SameMessageDelivered | trunk/talk/base/httpbase.cc:514-593 | two receivers of one stream that end by its bytes, HE_OVERFLOW included, end alike and have the same message, whatever their documents did |
| HttpReceiver.NoneLeftWaiting | trunk/talk/base/httpbase.cc:514-593 | once a message has ended for one receiver, every other with at least its bytes has the same message and the same end; only a line as long as the buffer may still wait for its overflow |
| HttpReceiver.EndIsStable | trunk/talk/base/httpbase.cc:84-88 | bytes behind a complete message do not change what it means |
| HttpReceiver.HttpBase.EndData | trunk/talk/base/httpbase.cc:112-117 | an exhausted data section is left as the byte-wise meaning says |
| HttpReceiver.OpenEndMeaning | trunk/talk/base/httpbase.cc:235-238 | in an open-ended data section everything buffered is data |
| HttpReceiver.SizedMeaning | trunk/talk/base/httpbase.cc:112-137 | a data section of known size ends with its last byte and not before |
| HttpReceiver.OpenEndedBefore | trunk/talk/base/httpbase.cc:235-238 | a data section that is open-ended at the end of the bytes has been so all along |
| HttpReceiver.WholeMessageCalledDisconnected | trunk/talk/base/httpbase.cc:495-502 | finding: a clean close calls a message of known size disconnected although it is whole, exactly when the buffer holds all the bytes it lacks |
| HttpReceiver.BlockedThenClosed | trunk/talk/base/httpbase.cc:531-556 | finding, by an input: a document that blocks once and a peer that closes; an open-ended message is reported complete without its last byte, one of known size is reported disconnected though whole |
| HttpPrinter.FeedHeaderLines | trunk/talk/base/httpbase.cc:726-741 | any list of well-formed headers, as printed, is read back header by header |
| HttpPrinter.HeaderLineMeans | trunk/talk/base/httpbase.cc:157-167 | in any header line the name is what stands in front of the first colon, and the value what follows the blanks behind it |
| HttpPrinter.FeedHead | trunk/talk/base/httpbase.cc:444-453 | leader, headers and blank line are read back, with the size and coding the headers announce |
| HttpPrinter.FeedChunkSize | trunk/talk/base/httpbase.cc:196-209 | a printed chunk size line puts the parser in front of that many bytes |
| HttpPrinter.FeedChunk | trunk/talk/base/httpbase.cc:651-662 | a printed chunk with data appends exactly that data |
| HttpPrinter.FeedChunks | trunk/talk/base/httpbase.cc:651-662 | any list of non-empty chunks appends their concatenation and consumes exactly their text |
| HttpPrinter.FeedEmptyChunk | trunk/talk/base/httpbase.cc:667-673 | an empty chunk, of one zero or eight, ends the message |
| HttpPrinter.ReceivedFields | trunk/talk/base/httpbase.cc:144-233 | the final view of a chunked message names leader, headers, body, length and success |
| HttpPrinter.ChunkedRoundTrip | trunk/talk/base/httpbase.cc:603-745 | printer/parser inversion: any document in any non-empty pieces, followed by any suffix, is read back with exactly the message consumed |
| HttpPrinter.ChunkedConsumedIffNoEmptyPiece | trunk/talk/base/httpbase.cc:649-662 | finding: a zero-length document read prints as the last chunk; the message is consumed to its end exactly when no piece is empty |
| HttpPrinter.EmptyPieceCutsOff | trunk/talk/base/httpbase.cc:649-662 | finding, by an input: an empty read in front of another; the receiver is done before the second |
| HttpPrinter.SizedBody | trunk/talk/base/httpbase.cc:649-662 | the same for a document whose length the parser has been told |
| HttpHeaders.HasHeaderMeans | trunk/talk/base/httpcommon.cc:471-480 | a header is found exactly when there is one of that name, in whatever case; the value is the first one's |
| HttpHeaders.SentSole | trunk/talk/base/httpbase.cc:726-741 | the only header of its name stays the only one when headers too long are left out |
| HttpHeaders.TakenIff | trunk/talk/base/httpbase.cc:168-189 | a list of headers is taken exactly when every length is a number and every coding is known |
| HttpHeaders.TakenNone | trunk/talk/base/httpbase.cc:168-189 | headers of other names leave size and coding alone |
| HttpHeaders.TakenSole | trunk/talk/base/httpbase.cc:168-189 | the only header of its name decides size or coding, wherever it stands |
| HttpHeaders.CodingAnnounced | trunk/talk/base/httpbase.cc:179-188 | the parser takes a message for chunked exactly when its Transfer-Encoding header says so |
| HttpHeaders.DigitsAloneIff | trunk/talk/base/httpcommon.cc:488-503 | finding: the printed Content-Length is a negative number exactly for lengths of 2^31 and more |
| HttpHeaders.ContentLengthReadsBack | trunk/talk/base/httpcommon.cc:488-503 | it is read back as the length all the same, for every 32-bit length |
| HttpHeaders.LengthAnnounced | trunk/talk/base/httpbase.cc:168-178 | the parser takes the number in the Content-Length header for the size of the body |
| HttpHeaders.NothingAnnounced | trunk/talk/base/httpbase.cc:168-193 | without these headers a message is not chunked and has no end but that of the connection |
| HttpHeaders.SizedRoundTrip | trunk/talk/base/httpbase.cc:649-662 | printer/parser inversion for a message with a Content-Length header: leader, headers and body come back, and exactly the message is consumed, whatever follows |
| HttpSender.ChunkInPlace | trunk/talk/base/httpbase.cc:651-662 | writing the size line before and the line end behind data already in place makes a chunk |
| HttpSender.NextHeader | trunk/talk/base/httpbase.cc:726-740 | each header is printed once or, when it can never fit, left out |
| HttpSender.HttpBase.constructor | trunk/talk/base/httpbase.cc:418-442 | a sender with a leader that fits the buffer; it chunks exactly when the first Transfer-Encoding header, wherever it stands, is "chunked" |
| HttpSender.HttpBase.Send | trunk/talk/base/httpbase.cc:418-453 | after sending starts wire and buffer hold the message as far as it has got; the owner is told of success only for a finished message, of a failing document or of the error of a failing write, each when and only when it happens; with a flowing document and network the message is finished; at least one turn for each leading refusal of the network when there is neither document nor header |
| HttpSender.HttpBase.BeginMessage | trunk/talk/base/httpbase.cc:418-453 | the leader is in the buffer and nothing else; chunking follows the Transfer-Encoding header |
| HttpSender.HttpBase.QueueHeaders | trunk/talk/base/httpbase.cc:723-745 | headers are packed while they fit; the blank line follows the last one; a full buffer asks for a write |
| HttpSender.HttpBase.QueueHeader | trunk/talk/base/httpbase.cc:727-737 | a printed header is kept exactly when it leaves three bytes free, and printing it never overruns the buffer |
| HttpSender.HttpBase.ReadDocument | trunk/talk/base/httpbase.cc:646-649 | a read delivers the next part of the document, at most the room asked for, and fails exactly when the document does |
| HttpSender.HttpBase.FrameChunk | trunk/talk/base/httpbase.cc:651-662 | the chunk is framed in place |
| HttpSender.HttpBase.AppendChunk | trunk/talk/base/httpbase.cc:631-662 | document bytes join the buffer as a chunk |
| HttpSender.HttpBase.QueueData | trunk/talk/base/httpbase.cc:649-662 | document bytes join the message, chunked or not |
| HttpSender.HttpBase.EndChunks | trunk/talk/base/httpbase.cc:667-673 | the last chunk is written once |
| HttpSender.HttpBase.EndDocument | trunk/talk/base/httpbase.cc:666-681 | at the end of the document: last chunk, or completion exactly when everything is written |
| HttpSender.HttpBase.QueueDocument | trunk/talk/base/httpbase.cc:626-688 | each round reads the document once, into all the room that a chunk leaves it, ends the message with it, or asks for a write; the reserve never overruns the buffer |
| HttpSender.HttpBase.Transmit | trunk/talk/base/httpbase.cc:699-717 | whatever part the network takes, wire and buffer still hold the same message |
| HttpSender.HttpBase.DropWritten | trunk/talk/base/httpbase.cc:702-706 | bytes taken leave the front of the buffer; nothing is lost or repeated |
| HttpSender.HttpBase.FillBuffer | trunk/talk/base/httpbase.cc:621-688 | one filling keeps the message and makes progress unless a write is required or only the buffer is left; a required write stays required |
| HttpSender.HttpBase.FlushRound | trunk/talk/base/httpbase.cc:611-718 | one turn keeps the message and makes progress; finding: a blocked network is not waited for exactly when headers are out, there is no document, and no write has been called for |
| HttpSender.HttpBase.FlushData | trunk/talk/base/httpbase.cc:603-721 | success is reported only when leader, headers and whole document are on the wire, and every failure is reported as what it is; the turns are bounded by the work ahead when there is a document, and otherwise by that and the answers of the network; without either the loop turns at least as often as the network refuses |
| HttpSender.TurnsWhileBlocked | trunk/talk/base/httpbase.cc:611-718 | finding, by an input: a request without headers and document turns n times for a network that refuses n times, for every n |
| HttpSender.HttpBase.DoComplete | trunk/talk/base/httpbase.cc:747-765 | the owner is told once |
| HttpSender.HttpBase.CompleteEmpty | trunk/talk/base/httpbase.cc:690-697 | an empty buffer without a document means that everything was sent |
| HttpEndToEnd.WireMeaning | trunk/talk/base/httpbase.cc:603-745 | the bytes a sender put on the wire mean its message, whatever follows, for a message in chunks and for one of announced length |
| HttpEndToEnd.CodingOfSender | trunk/talk/base/httpbase.cc:437-441 | a sender chunks exactly when its one Transfer-Encoding header is "chunked", and not without such a header |
| HttpEndToEnd.CodingsAgreeIff | trunk/talk/base/httpbase.cc:437-441 | finding: sender and receiver go by the same coding except for spellings of "chunked" in other letters |
| HttpEndToEnd.CapitalChunked | trunk/talk/base/httpbase.cc:437-441 | finding, by an input: with "Chunked" the document goes out bare and the receiver reports HE_PROTOCOL |
| HttpEndToEnd.DeliveredAsSent | trunk/talk/base/httpbase.cc:418-745 | however a receiver has come to the end of what was sent, it has the sender's leader, headers and document, without error, and has consumed the message and nothing behind it; no line of it overflows |
| HttpEndToEnd.NotLeftWaiting | trunk/talk/base/httpbase.cc:514-593 | once the last byte has arrived, a receiver has the message or was held up by its own document, blocked with bytes buffered or failed; a document that does neither always has it |
| AsyncTcpSocket.SameFirstFrame | trunk/talk/base/asynctcpsocket.cc:289-306 | no frame is a proper prefix of another stream of frames: the length decides |
| AsyncTcpSocket.FramesPrefix | trunk/talk/base/asynctcpsocket.cc:289-306 | what can be cut off a stream of frames is its first packets; with nothing left over, all of them |
| AsyncTcpSocket.FrameMeans | trunk/talk/base/asynctcpsocket.cc:273-275 | a frame is the high byte of the length, its low byte, and the packet |
| AsyncTcpSocket.IncompleteMeans | trunk/talk/base/asynctcpsocket.cc:289-297 | input is left for later exactly when it does not start with a frame |
| AsyncTcpSocket.AsyncTCPSocket.constructor | trunk/talk/base/asynctcpsocket.cc:68-96 | empty buffers of 64 KB and two bytes |
| AsyncTcpSocket.AsyncTCPSocket.FlushOutBuffer | trunk/talk/base/asynctcpsocket.cc:166-181 | sent and pending bytes together stay the same for every partial write |
| AsyncTcpSocket.AsyncTCPSocket.AppendToOutBuffer | trunk/talk/base/asynctcpsocket.cc:183-187 | bytes are appended within the buffer |
| AsyncTcpSocket.AsyncTCPSocket.Send | trunk/talk/base/asynctcpsocket.cc:264-287 | a packet is accepted whole, or dropped without a trace, exactly when the code drops it; the result claims all of an accepted or blocked packet |
| AsyncTcpSocket.AsyncTCPSocket.SendFrame | trunk/talk/base/asynctcpsocket.cc:273-284 | a packet that passes the checks is framed behind nothing, offered to the network, and forgotten if not one byte was taken |
| AsyncTcpSocket.AsyncTCPSocket.StageFrame | trunk/talk/base/asynctcpsocket.cc:274-276 | both appends stay inside the buffer for every packet of at most 65535 bytes |
| AsyncTcpSocket.AsyncTCPSocket.OnWriteEvent | trunk/talk/base/asynctcpsocket.cc:232-242 | pending bytes go out; the owner may send again exactly when none are left |
| AsyncTcpSocket.AsyncTCPSocket.ProcessInput | trunk/talk/base/asynctcpsocket.cc:289-307 | whole frames are delivered; a strictly incomplete one is left |
| AsyncTcpSocket.AsyncTCPSocket.TakeFrame | trunk/talk/base/asynctcpsocket.cc:296-305 | the first frame is delivered byte for byte and the rest moves to the front |
| AsyncTcpSocket.AsyncTCPSocket.OnReadEvent | trunk/talk/base/asynctcpsocket.cc:193-230 | any arrival keeps the invariant; the overflow branch is never taken |
| AsyncTcpSocket.AsyncTCPSocket.Recv | trunk/talk/base/asynctcpsocket.cc:211-220 | bytes join the input behind those buffered |
| AsyncTcpSocket.IncompleteLeavesRoom | trunk/talk/base/asynctcpsocket.cc:211-228 | an incomplete frame leaves room for at least one more byte |
| AsyncTcpSocket.PacketsArriveInOrder | trunk/talk/base/asynctcpsocket.cc:166-307 | the delivered packets are a prefix of the packets not dropped, in order and byte-exact; all of them when nothing is pending or in flight |
| AsyncTcpSocket.Step | trunk/talk/base/asynctcpsocket.cc:210-307 | every event at either end keeps the two ends linked and has its own effect: a packet is accepted or dropped whole, pending bytes go out, bytes in flight arrive |
| AsyncTcpSocket.Run | trunk/talk/base/asynctcpsocket.cc:166-307 | every run of two connected endpoints keeps them linked through all of its events: what is delivered is a prefix of what was accepted, and all of it once nothing is pending or in flight |
| ByteOrder.WriteThenRead | trunk/talk/base/byteorder.h:55-145 | every number of n bytes is read back as written, in both orders |
| ByteOrder.ReadThenWriteBE | trunk/talk/base/byteorder.h:55-99 | every big-endian byte pattern is some number's |
| ByteOrder.ReadThenWriteLE | trunk/talk/base/byteorder.h:101-145 | every little-endian byte pattern is some number's |
| ByteOrder.OrdersMirror | trunk/talk/base/byteorder.h:55-145 | the two orders are each other reversed |
| ByteOrder.KnownBytes | trunk/talk/base/byteorder.h:55-145 | 0x01020304 is 1, 2, 3, 4 in network order and 4, 3, 2, 1 in the other |
| ByteOrder.UnrolledForms | trunk/talk/base/byteorder.h:55-122 | the 16-, 32- and 64-bit SetBE and SetLE write the number in that order |
| ByteOrder.UnrolledReads | trunk/talk/base/byteorder.h:78-145 | the 16-, 32- and 64-bit GetBE and GetLE read the number in that order |
| LockFreeQueue.AlignedSlots | trunk/talk/base/atomicops.h:101-121 | wrapped counters designate the slots unbounded ones would, before 2^32 pushes or when the capacity divides 2^32 |
| LockFreeQueue.DistinctSlots | trunk/talk/base/atomicops.h:101-121 | values within one capacity of each other use different slots |
| LockFreeQueue.WrappedDifference | trunk/talk/base/atomicops.h:146-151 | IsFull, IsEmpty and Size on wrapped counters are those of the true counts |
| LockFreeQueue.ProducerKeepsInv | trunk/talk/base/atomicops.h:92-107 | every atomic step of PushBack keeps the invariant, whatever the consumer is doing |
| LockFreeQueue.ConsumerKeepsInv | trunk/talk/base/atomicops.h:112-134 | every atomic step of PeekFront and PopFront keeps the invariant, whatever the producer is doing |
| LockFreeQueue.WritesOnlyFreeSlots | trunk/talk/base/atomicops.h:101-101 | no step writes a slot that still holds an unpopped value, including one being read |
| LockFreeQueue.StepRefinesFifo | trunk/talk/base/atomicops.h:92-134 | each atomic step does to the contents what a bounded first-in, first-out queue does, refusals included |
| LockFreeQueue.RunKeepsInv | trunk/talk/base/atomicops.h:92-134 | the invariant holds in every interleaving |
| LockFreeQueue.FirstInFirstOut | trunk/talk/base/atomicops.h:92-151 | in every interleaving popped values are a prefix of pushed ones, peeked values are the right ones, and 0 <= Size <= capacity |
| LockFreeQueue.PushAtRest | trunk/talk/base/atomicops.h:92-107 | an undisturbed PushBack, also beyond 2^32 |
| LockFreeQueue.PopAtRest | trunk/talk/base/atomicops.h:112-134 | an undisturbed PopFront, also beyond 2^32 |
| LockFreeQueue.PassThrough | trunk/talk/base/atomicops.h:92-134 | any number of values can be passed through |
| LockFreeQueue.WrapOverwrites | trunk/talk/base/atomicops.h:101-105 | finding: for a capacity that does not divide 2^32 a run exists in which the 2^32-nd value overwrites the oldest waiting one |
| LockFreeQueue.FifoForeverIff | trunk/talk/base/atomicops.h:52-151 | first in, first out holds in all runs exactly for the capacities that divide 2^32 |
| LockFreeQueue.FixedSizeLockFreeQueue.constructor | trunk/talk/base/atomicops.h:84-87 | an empty queue of the given capacity |
| LockFreeQueue.FixedSizeLockFreeQueue.ClearAndResizeUnsafe | trunk/talk/base/atomicops.h:138-143 | an empty queue of the new capacity |
| LockFreeQueue.FixedSizeLockFreeQueue.BeginPush | trunk/talk/base/atomicops.h:93-99 | the check of PushBack is the model's step |
| LockFreeQueue.FixedSizeLockFreeQueue.WriteSlot | trunk/talk/base/atomicops.h:101-101 | the slot write of PushBack is the model's step |
| LockFreeQueue.FixedSizeLockFreeQueue.IncrementPushed | trunk/talk/base/atomicops.h:105-105 | the increment of PushBack is the model's step |
| LockFreeQueue.FixedSizeLockFreeQueue.BeginPop | trunk/talk/base/atomicops.h:113-119 | the check of PeekFront is the model's step |
| LockFreeQueue.FixedSizeLockFreeQueue.ReadSlot | trunk/talk/base/atomicops.h:121-121 | the read of PeekFront is the model's step |
| LockFreeQueue.FixedSizeLockFreeQueue.IncrementPopped | trunk/talk/base/atomicops.h:130-130 | the increment of PopFront is the model's step |
| LockFreeQueue.FixedSizeLockFreeQueue.PushBack | trunk/talk/base/atomicops.h:92-107 | with the other thread still: appends, and refuses exactly when full |
| LockFreeQueue.FixedSizeLockFreeQueue.PeekFront | trunk/talk/base/atomicops.h:112-123 | with the other thread still: tells the oldest value, and refuses exactly when empty |
| LockFreeQueue.FixedSizeLockFreeQueue.PopFront | trunk/talk/base/atomicops.h:128-134 | with the other thread still: takes the oldest value, and refuses exactly when empty |
| Base64.TablesAgree | trunk/talk/base/base64.cc:33-70 | the decode table inverts the encode table |
| Base64.TablesMean | trunk/talk/base/base64.cc:33-70 | the encode table is the alphabet of RFC 4648, and the decode table tells its characters, pads, blanks and all others apart |
| Base64.SextetsMean | trunk/talk/base/base64.cc:109-134 | the four sextets are the digits to base 64 of three bytes taken as one number |
| Base64.EncodeMeans | trunk/talk/base/base64.cc:99-136 | every group of four characters stands for its three bytes, missing ones as zero bits and pads |
| Base64.EncodeFromArray | trunk/talk/base/base64.cc:99-136 | the loop computes the encoding, of four characters for every three bytes begun, each group the digits to base 64 of its bytes |
| Base64.EncodeGroup | trunk/talk/base/base64.cc:109-134 | one round encodes up to three bytes |
| Base64.GetNextQuantum | trunk/talk/base/base64.cc:138-190 | the loop reads the quantum that the scan describes, with zero fill and rolled-back pads |
| Base64.BytesOfQuantum | trunk/talk/base/base64.cc:227-239 | a quantum yields its whole bytes and the unused bits |
| Base64.DecodeFromArray | trunk/talk/base/base64.cc:203-257 | the decoder computes success, bytes and data used under all 27 flag combinations |
| Base64Laws.DecodeFour | trunk/talk/base/base64.cc:224-249 | four symbols in front are three bytes, and the rest is decoded as if alone |
| Base64Laws.DecodeEncode | trunk/talk/base/base64.cc:99-257 | decode(encode(x)) is x, with all of the text used, under every parse and term flag and both padding flags that allow padding |
| Base64Laws.EncodeStrictlyDecoded | trunk/talk/base/base64.cc:203-257 | text accepted under DO_STRICT is the encoding of its result and is used to the end |
| Base64Laws.StrictIsCanonical | trunk/talk/base/base64.cc:203-257 | strict decoding succeeds with x exactly on the encoding of x |
| Base64Laws.EncodeInjective | trunk/talk/base/base64.cc:99-136 | different byte strings have different encodings |
| Base64Laws.VerdictMeans | trunk/talk/base/base64.cc:203-257 | under all 27 flag combinations the bytes are those of the alphabet characters in the text used, and success, unless padding is required, means exactly what the term flag asks: no stray bits, all text used |
| Base64Laws.PadIsIllegal | trunk/talk/base/base64.cc:145-148 | under DO_PAD_NO a pad is an illegal character like any other |
| Base64Laws.BareMeans | trunk/talk/base/base64.cc:99-136 | an encoding is its symbols followed by the pads that fill its last group |
| Base64Laws.DecodeBare | trunk/talk/base/base64.cc:203-257 | an encoding without its pads is decoded under all flags, and accepted unless padding is required and missing |
| Base64Laws.TolerantDecode | trunk/talk/base/base64.cc:138-190 | under DO_PARSE_ANY the bytes are those of the alphabet characters alone, and success under DO_LAX means no bit left over |
| Base64Laws.BytesDependOnSymbolsOnly | trunk/talk/base/base64.cc:145-176 | texts with the same alphabet characters decode alike under DO_PARSE_ANY |
| Base64Laws.JunkIsIgnored | trunk/talk/base/base64.cc:145-176 | an encoding with anything outside the alphabet inserted decodes to x under DO_LAX |
| Base64Laws.InsertJunk | trunk/talk/base/base64.cc:145-176 | inserting a non-alphabet character anywhere keeps the alphabet characters |
| Base64Laws.WhiteDecode | trunk/talk/base/base64.cc:149-152 | the next row for any two positions that have got equally far |
| Base64Laws.WhiteIsStrictWithoutBlanks | trunk/talk/base/base64.cc:149-257 | DO_PARSE_WHITE gives the bytes of the strict decode without white space, and the same verdict except exactly when padding is required and white space follows whole quanta |
| Base64Laws.BlankBehindQuantum | trunk/talk/base/base64.cc:213-226 | finding, by an input: "AAAA " is refused under DO_PARSE_WHITE and DO_PAD_YES, "AAAA" is accepted |
| Crc32.DivideLinear | trunk/talk/base/crc32.cc:47-51 | a division step is linear over exclusive or |
| Crc32.FeedBitsAtOnce | trunk/talk/base/crc32.cc:46-52 | dividing bit by bit is adding all bits and dividing |
| Crc32.TableStep | trunk/talk/base/crc32.cc:63-63 | one table lookup does the work of eight divisions |
| Crc32.EightDivisions | trunk/talk/base/crc32.cc:45-52 | the inner loop divides eight times |
| Crc32.Crc32Table.constructor | trunk/talk/base/crc32.cc:39-39 | the table starts as zeros |
| Crc32.Crc32Table.EnsureInited | trunk/talk/base/crc32.cc:41-55 | the table is filled on the first call and never again |
| Crc32.Crc32Table.UpdateCrc32 | trunk/talk/base/crc32.cc:57-66 | the table form equals bit-by-bit division for every start value and byte string |
| Crc32.ChecksumContinues | trunk/talk/base/crc32.cc:57-66 | updating over a then b is updating over a followed by b |
| Crc32.LastEntryNotZero | trunk/talk/base/crc32.cc:42-43 | entry 255 is 0x2d02ef8d, so the test for a filled table works |
| Crc32.CorruptedByteDetected | trunk/talk/base/crc32.cc:57-66 | changing any one byte of a message changes its checksum |
| Crc32.KnownChecksums | trunk/talk/base/crc32.cc:57-66 | the checksum of nothing is 0, and that of "abc" is 0x352441C2 |
| DiskCache.SumSet | trunk/talk/base/diskcache.cc:148-152 | the sum over entries follows the change of one of them |
| DiskCache.DiskCache.constructor | trunk/talk/base/diskcache.cc:77-96 | an empty cache with sound books |
| DiskCache.DiskCache.DeleteFiles | trunk/talk/base/diskcache.cc:211-222 | exactly the deletable files of the resource go |
| DiskCache.DiskCache.DeleteResource | trunk/talk/base/diskcache.cc:203-227 | an entry goes exactly when it is unlocked and has no accessors; the books stay sound |
| DiskCache.DiskCache.CheckLimit | trunk/talk/base/diskcache.cc:229-264 | terminates; an entry that is locked, being unlocked or in use stays as it was; while deletions succeed, success exactly when it ends within the limit, which it does unless no entry is free or a free one is not older than one that is not |
| DiskCache.DiskCache.PickVictim | trunk/talk/base/diskcache.cc:242-258 | the two loops pick the oldest entry from the first free one on, free or not, and nothing when none is free |
| DiskCache.DiskCache.EvictOne | trunk/talk/base/diskcache.cc:241-263 | a round evicts exactly if what it picks is free |
| DiskCache.PickedOnce | trunk/talk/base/diskcache.cc:242-258 | what is picked is determined by the order and the times |
| DiskCache.PickedOrNot | trunk/talk/base/diskcache.cc:242-263 | what is picked can be deleted, or a free entry is not older than one that is not free |
| DiskCache.LockedOldEntryIsPicked | trunk/talk/base/diskcache.cc:254-258 | finding, by an input: behind a free entry an older locked one is picked, so nothing can be evicted |
| DiskCache.DiskCache.LockResource | trunk/talk/base/diskcache.cc:114-126 | refused, with nothing changed, while locked or while unlocked with readers; otherwise granted exactly when the cache ends within its limit (when deletions succeed), and always when it was within it |
| DiskCache.DiskCache.WriteResource | trunk/talk/base/diskcache.cc:128-154 | the new accounts; the size taken off never exceeds the entry's size while each file has one writer |
| DiskCache.DiskCache.UnlockResource | trunk/talk/base/diskcache.cc:156-169 | the lock goes at once, or with the last writer; without one the cache is brought within its limit, as far as its eviction goes |
| DiskCache.DiskCache.ReadResource | trunk/talk/base/diskcache.cc:171-186 | only unlocked resources are read, and the reader is counted |
| DiskCache.DiskCache.ReleaseReader | trunk/talk/base/diskcache.cc:331-342 | the entry of an open stream exists; the reader is uncounted |
| DiskCache.DiskCache.ReleaseWriter | trunk/talk/base/diskcache.cc:331-360 | the entry of an open stream exists; its file counts again; the last writer completes an unlock |
| DiskCache.DiskCache.CloseWriter | trunk/talk/base/diskcache.cc:339-353 | the accounts of closing a writer |
| DiskCache.DiskCache.MakeEntry | trunk/talk/base/diskcache.cc:314-329 | a new entry changes no account |
| DiskCache.DiskCache.Purge | trunk/talk/base/diskcache.cc:98-112 | finding: purging deletes the files and, if none is left, clears the entries but not the total size, so the books stay sound exactly when the size was zero |
| DiskCache.PurgeLeavesSize | trunk/talk/base/diskcache.cc:98-112 | finding, by an input: lock, write three bytes, close, purge; no entry and no file is left, and a total size of three |
| DiskCache.HasEntry | trunk/talk/base/diskcache.cc:331-337 | an open write stream has an entry, so the missing-entry branch is never taken |
| DiskCache.HasEntryToRead | trunk/talk/base/diskcache.cc:331-337 | so has an open read stream |
| DiskCache.ExactOpen | trunk/talk/base/diskcache.cc:135-149 | opening a file for writing takes its size off without underflow and the entry size stays exact |
| DiskCache.ExactClose | trunk/talk/base/diskcache.cc:345-351 | closing a file puts its size back and the entry size stays exact |
| DiskCache.SoundErase | trunk/talk/base/diskcache.cc:203-227 | erasing an unlocked, unused entry leaves the others sound |
| DiskCache.ApplyToStream | trunk/talk/base/diskcache.cc:114-360 | an event of an open stream fills, closes or releases just that stream, whose entry exists, and does nothing where no such stream is open |
| DiskCache.ApplyToEntry | trunk/talk/base/diskcache.cc:114-260 | an event of the owner is granted or refused by the entry it names, with its effect on entries and streams |
| DiskCache.Apply | trunk/talk/base/diskcache.cc:114-360 | every operation keeps the books, failed deletions and second writers included; an entry that is locked or in use goes only by its own unlock or its last writer; a lock holds until it is given up; a free entry is deleted on demand; sizes stay exact while deletions succeed and a file has one writer |
| DiskCache.Run | trunk/talk/base/diskcache.cc:114-360 | in every run, which goes through all of its events, whatever cannot be opened or deleted, total size and accessors are the sums over the entries; where deletions succeed and a file has one writer at a time, each entry's size is that of its files not being written |
| DiskCache.HoldLock | trunk/talk/base/diskcache.cc:114-264 | a granted lock holds in every run without its unlock: the resource stays, locked, and nobody reads it |
| DiskCache.LockedIsNotRead | trunk/talk/base/diskcache.cc:171-186 | nobody reads a resource that is locked or being unlocked, and nobody writes one that is read |
| HttpClient.Authenticate | trunk/talk/base/httpcommon.cc:753-803 | a response is computed exactly without a context, for a user and a supported method, and creates the context; credentials are asked for exactly when the answer was refused or there is no user; everything else is ignored |
| HttpClient.BudgetOfFresh | trunk/talk/base/httpclient.cc:281-282 | a fresh client may connect 6 * 2 * (retries + 1) times |
| HttpClient.RedirectCosts | trunk/talk/base/httpclient.cc:774-780 | a redirect uses up more than the connections it allows |
| HttpClient.CredentialsCost | trunk/talk/base/httpclient.cc:796-806 | so do credentials |
| HttpClient.RetryCosts | trunk/talk/base/httpclient.cc:735-741 | and a retry uses up one |
| HttpClient.HttpClient.constructor | trunk/talk/base/httpclient.cc:284-299 | a fresh client |
| HttpClient.HttpClient.Start | trunk/talk/base/httpclient.cc:354-413 | resets the attempts, keeps the request and asks for a connection |
| HttpClient.HttpClient.Connect | trunk/talk/base/httpclient.cc:415-431 | a name is resolved first; otherwise the pool is asked once, and a refusal is a failed connection: tried again, or reported; the connections still possible never grow |
| HttpClient.HttpClient.OnResolveResult | trunk/talk/base/httpclient.cc:319-334 | a resolved name leads to a connection; a failed lookup is a failed connection: tried again, or reported as such |
| HttpClient.HttpClient.OnHttpComplete | trunk/talk/base/httpclient.cc:727-825 | terminates; which connections are tried again, by error, status code and attempts; which responses are informational (100 to 199), followed (300 to 399, by action, verb and code, at most five times), challenged (407, once, by the first supported method) or reported; connections made and still possible never exceed the bound; at most one signal |
| HttpClient.HttpClient.OnResponse | trunk/talk/base/httpclient.cc:748-825 | the same for a final response alone, each outcome bringing the request nearer to its end |
| HttpClient.HttpClient.FollowRedirect | trunk/talk/base/httpclient.cc:760-773 | 303 turns the request into a GET without document; anything else must replay its document |
| HttpClient.HttpClient.AnswerChallenge | trunk/talk/base/httpclient.cc:784-814 | a challenge is answered exactly when there is no context yet, a user, a supported method, and no document or one that can be sent again |
| HttpClient.RequestIsBounded | trunk/talk/base/httpclient.cc:727-825 | at most 6 * 2 * (retries + 1) connections and one completion signal for one request |
| HttpClient.Handle | trunk/talk/base/httpclient.cc:319-825 | each event ends what the client waits for: an address leads to a connection, a connection to sending, sending to receiving; a success is reported at once, an informational answer waited out; a finished request is left alone |
| HttpClient.RunRequest | trunk/talk/base/httpclient.cc:354-825 | the same after every sequence of events, the signal having fired exactly when the request is done |
| ByteBuffer.ImageOfNetwork | trunk/talk/base/byteorder.h:153-169 | HostToNetwork puts the most significant byte first in memory on either kind of host |
| ByteBuffer.HostOfNetwork | trunk/talk/base/byteorder.h:171-181 | NetworkToHost reads it back |
| ByteBuffer.Narrower | trunk/talk/base/bytebuffer.cc:171-178 | the three low bytes of a 32-bit image are the 24-bit image |
| ByteBuffer.Wider | trunk/talk/base/bytebuffer.cc:99-114 | three bytes read into a zeroed 32-bit integer are the 24-bit value |
| ByteBuffer.FieldsReadBack | trunk/talk/base/bytebuffer.cc:81-192 | integers of any widths written one after the other are read back one after the other, in both orders |
| ByteBuffer.ByteBuffer.Empty | trunk/talk/base/bytebuffer.cc:41-47 | an empty buffer of 4096 bytes |
| ByteBuffer.ByteBuffer.FromBytes | trunk/talk/base/bytebuffer.cc:49-75 | a buffer holding the given bytes |
| ByteBuffer.ByteBuffer.ReadBytes | trunk/talk/base/bytebuffer.cc:152-160 | takes exactly the first bytes, or nothing when there are too few |
| ByteBuffer.ByteBuffer.ReadString | trunk/talk/base/bytebuffer.cc:140-150 | the same, appended to a text |
| ByteBuffer.ByteBuffer.Consume | trunk/talk/base/bytebuffer.cc:225-230 | skips exactly the first bytes, or none |
| ByteBuffer.ByteBuffer.Resize | trunk/talk/base/bytebuffer.cc:207-223 | growth and compaction keep the unread bytes, up to the given size, and invalidate positions |
| ByteBuffer.ByteBuffer.ReserveWriteBuffer | trunk/talk/base/bytebuffer.cc:198-205 | room behind the unread bytes; positions stay valid exactly when it was there |
| ByteBuffer.ByteBuffer.WriteBytes | trunk/talk/base/bytebuffer.cc:194-196 | appends, and invalidates positions exactly when there was too little room behind |
| ByteBuffer.ByteBuffer.Clear | trunk/talk/base/bytebuffer.cc:244-248 | empties the buffer and invalidates positions |
| ByteBuffer.ByteBuffer.SetReadPosition | trunk/talk/base/bytebuffer.cc:236-242 | accepted exactly when nothing was moved since |
| ByteBuffer.ByteBuffer.WriteUInt8 | trunk/talk/base/bytebuffer.cc:162-164 | appends the byte |
| ByteBuffer.ByteBuffer.WriteUInt | trunk/talk/base/bytebuffer.cc:166-188 | appends the 2, 4 or 8 bytes in the buffer's order |
| ByteBuffer.ByteBuffer.WriteUInt24 | trunk/talk/base/bytebuffer.cc:171-178 | appends the three low bytes in the buffer's order |
| ByteBuffer.ByteBuffer.ReadUInt8 | trunk/talk/base/bytebuffer.cc:81-85 | takes one byte |
| ByteBuffer.ByteBuffer.ReadUInt | trunk/talk/base/bytebuffer.cc:87-138 | takes 2, 4 or 8 bytes as a number in the buffer's order |
| ByteBuffer.ByteBuffer.ReadUInt24 | trunk/talk/base/bytebuffer.cc:99-114 | takes three bytes as a number in the buffer's order |
| ByteBuffer.ByteBuffer.Apply | trunk/talk/base/bytebuffer.cc:140-248 | one operation does to the contents what it does to a byte queue |
| ByteBuffer.ByteBuffer.Run | trunk/talk/base/bytebuffer.cc:140-248 | in every run the buffer is a byte queue |
| ByteBuffer.ByteBuffer.RememberAndReturn | trunk/talk/base/bytebuffer.cc:232-242 | a position remembered before any run and returned to after it restores the bytes unread then and all written since, or is rejected, exactly when something was moved |
| ByteBuffer.MovesIff | trunk/talk/base/bytebuffer.cc:198-248 | something was moved exactly when there was a Resize or Clear, or more was written than there was room behind the contents |
| ByteBuffer.NothingLost | trunk/talk/base/bytebuffer.cc:152-230 | without Resize and Clear what is unread is a tail of what was there and what was written |
| IpAddress.MaskWordBit | trunk/talk/base/ipaddress.cc:323-326 | a word mask keeps exactly the first n bits |
| IpAddress.TruncatedKeeps | trunk/talk/base/ipaddress.cc:312-353 | truncation keeps exactly the first n bits, for both families |
| IpAddress.KeepsDetermines | trunk/talk/base/ipaddress.cc:312-353 | there is exactly one such address |
| IpAddress.TruncatedTwice | trunk/talk/base/ipaddress.cc:312-353 | truncating to a and then to b is truncating to the smaller |
| IpAddress.KnownPrefixes | trunk/talk/base/ipaddress.cc:312-353 | 192.168.1.2 down to 16 and 24 bits, and the mask of 70 bits |
| IpAddress.TruncateWords | trunk/talk/base/ipaddress.cc:332-350 | the IPv6 loop |
| IpAddress.TruncateIP | trunk/talk/base/ipaddress.cc:312-353 | the first length bits and zeroes; a negative length gives no address |
| IpAddress.NormalizedIsTop | trunk/talk/base/ipaddress.cc:391-397 | the five tests of the bit trick locate the lowest set bit of every word |
| IpAddress.CountWord | trunk/talk/base/ipaddress.cc:390-399 | the bit trick gives the length of a word up to its last set bit |
| IpAddress.CountIPMaskBits | trunk/talk/base/ipaddress.cc:355-400 | the length up to the last set bit among the words looked at, for every mask |
| IpAddress.LengthOfMask | trunk/talk/base/ipaddress.cc:355-400 | the mask of n bits counts as n, for every n and both families |
| IpAddress.CountCoversIff | trunk/talk/base/ipaddress.cc:368-379 | finding: a count covers a mask exactly when no bit is set behind the first incomplete IPv6 word |
| IpAddress.ForIPv4Always | trunk/talk/base/ipaddress.cc:358-362 | an IPv4 mask is always covered by its count |
| IpAddress.GapHidesTheRest | trunk/talk/base/ipaddress.cc:368-379 | finding, for every input: an IPv6 mask that starts with an empty word counts as zero, whatever follows |
| HttpAttributes.IsEndOfAttributeName | trunk/talk/base/httpcommon.cc:226-239 | a name ends at the end, at white space, or at an equal sign followed by a value |
| HttpAttributes.NameStopsAtEnd | trunk/talk/base/httpcommon.cc:281-284 | a name stops where names end |
| HttpAttributes.ParseOne | trunk/talk/base/httpcommon.cc:279-314 | each round uses up at least one character |
| HttpAttributes.ParseName | trunk/talk/base/httpcommon.cc:279-287 | the loop reads the name |
| HttpAttributes.ParseQuoted | trunk/talk/base/httpcommon.cc:293-301 | the loop reads a quoted value up to its closing quote, escapes removed |
| HttpAttributes.ParsePlain | trunk/talk/base/httpcommon.cc:303-307 | the loop reads an unquoted value |
| HttpAttributes.ParseValue | trunk/talk/base/httpcommon.cc:289-309 | the value after a name, if there is one |
| HttpAttributes.ParseAttribute | trunk/talk/base/httpcommon.cc:279-314 | one round, with its comma |
| HttpAttributes.HttpParseAttributes | trunk/talk/base/httpcommon.cc:268-316 | terminates on every input and computes the list |
| HttpAttributes.QuoteString | trunk/talk/base/httpcommon.cc:722-732 | quote() writes the value between quotes with quotes and backslashes escaped |
| HttpAttributes.EscapeOne | trunk/talk/base/stringencode.cc:52-58 | one character with its escape, if both fit |
| HttpAttributes.Escape | trunk/talk/base/stringencode.cc:43-63 | the longest escaped prefix that fits the buffer, and a terminating zero |
| HttpAttributes.EscapeAttribute | trunk/talk/base/httpcommon.cc:243-250 | the buffer is never too small: the whole value is escaped |
| HttpAttributes.HttpComposeAttributes | trunk/talk/base/httpcommon.cc:253-266 | the loop writes the list |
| HttpAttributes.QuotedReadsBack | trunk/talk/base/httpcommon.cc:293-301 | a value escaped in either way is read back, and nothing behind its closing quote |
| HttpAttributes.ListReadsBack | trunk/talk/base/httpcommon.cc:253-316 | what the parser makes of any written list with proper names, for every separator |
| HttpAttributes.QuotedListRoundTrip | trunk/talk/base/httpcommon.cc:268-316 | name=quote(value) joined by ", " comes back as it was, for arbitrary values |
| HttpAttributes.PlainReadsBack | trunk/talk/base/httpcommon.cc:303-307 | a value without quotes, blanks and commas is read up to the next of these |
| HttpAttributes.PlainListRoundTrip | trunk/talk/base/httpcommon.cc:268-316 | name=value joined by ", " comes back as it was, for values that need no quotes |
| HttpAttributes.TrailingEquals | trunk/talk/base/httpcommon.cc:226-239 | equal signs at the end of a token belong to it |
| HttpAttributes.UnclosedQuote | trunk/talk/base/httpcommon.cc:293-301 | a quote that is never closed takes everything |
| HttpAttributes.MarksMean | trunk/talk/base/httpcommon.cc:243-250 | quotes and backslashes are escaped by both writers, the zero character by EscapeAttribute |
| HttpAttributes.ComposeRoundTripIff | trunk/talk/base/httpcommon.cc:253-316 | finding: a composed list comes back unchanged in just these cases: at most one attribute, a blank separator, or a comma with no empty value before the last |
| HttpAttributes.BareNameSwallowsComma | trunk/talk/base/httpcommon.cc:253-316 | finding, by an input: two attributes, the first without a value; it comes back with the comma in its name |

## Left out

- HttpReceiver.HttpBase.ProcessLine: the break out of the loop when a header callback attaches a document stream is not modelled, nor the pull mode of `DocumentStream` and its swap of the document pointer
- HttpReceiver.HttpBase.ProcessData: an accepting document takes at least one byte per call; one that takes none keeps the source's loop going for ever
- HttpReceiver.FragmentationIndependence: stated for receivers whose document neither blocks nor fails, since a blocked one holds bytes back by design; `HttpReceiver.SameMessageDelivered` needs neither
- HttpReceiver.HttpBase.Process: called with more bytes than the buffer of 32 KB holds; its one caller, `DoReceiveLoop`, never does (httpbase.cc:572)
- HttpPrinter.ChunkedRoundTrip: header names without colons, texts without line feeds, zero bytes, and blanks at their ends; leaders that fit the 32 KB buffer; pieces shorter than 2^28 bytes, which that buffer guarantees
- HttpSender.HttpBase.Send: leaders that do not fit the buffer by themselves, and the formatting of the leader, which is a parameter here
- AsyncTcpSocket.AsyncTCPSocket.Send: packets of 65536 to 65538 bytes, which pass the size check but not the append assertion or the 16-bit length
- DiskCache.DiskCache.PickVictim: entries are listed in any order; when the first free one is the last, the source compares it with what lies behind the end of its map, the model with itself
- DiskCache.DiskCache.LockResource: the eviction spares the id being locked; the source may pick it and goes on through its dangling entry pointer
- DiskCache.Run: calls for resources without an entry other than locking and deleting, which dereference a null entry, and `Purge`, whose effect on the books `DiskCache.DiskCache.Purge` states
- HttpClient.HttpClient.Start: the rewriting of headers and of the request path
- HttpClient.Authenticate: the contents of the responses (MD5, time) and, on Windows, Negotiate and NTLM
- ByteBuffer.ByteBuffer.SetReadPosition: positions of another buffer; sizes beyond the range of `size_t` and a wrapped version count are not modelled either
- ByteBuffer.ByteBuffer.WriteBytes: source bytes that lie inside the buffer itself
- Base64Laws.DecodeEncode: `DO_PAD_NO`, under which the encoder's pads are illegal characters
- IpAddress.TruncateIP: words are in host order throughout; the two byte swaps of the source cancel
- LockFreeQueue.StepRefinesFifo: memory order below sequential consistency, which the barrier before the increment is there to provide
- HTTP client caching and validation (`CheckCache`, `CompleteValidate`), and date handling: they depend on local time and other components
- `HttpServer`, signals and threads: re-entrant callbacks dominate them
- Real sockets, timers, name servers and files: replaced by scripts and parameters
- `BandwidthSmoother`, `CpuSampler`, wrappers over libraries and the operating system, command-line flags, `buffer.h`, address category predicates: only easy members, or floating point
