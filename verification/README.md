# Verified models of the hand-rolled protocol programs

The repository is a collection of small Node programs that do their own framing, dispatching and bookkeeping on
top of bare sockets. This project models those parts in Dafny and proves what the programs are for: what arrives
is what was sent, however the stream is cut into `data` events and however handlers, workers and timers
interleave; and what each program's tables say holds in every reachable state.

`dafny verify dfyconfig.toml` checks everything.

## How it is laid out

| module | program |
|---|---|
| `JsText`, `Unicode`, `Framing`, `Bytes`, `Sequences`, `Arith`, `Options` | JavaScript strings (UTF-16 code units) and their UTF-8 bytes, the delimiter loop that all text readers share, Buffer fields and exclusive or, insertion-ordered sets, division facts |
| `Primes`, `RoundRobin`, `WorkerPool`, `ReaderServer` | the io thread, its worker pool and the workers' prime count; the layer-4 proxy's cursor |
| `Mux` | several channels on one byte stream |
| `Rfc6455`, `WebSocket`, `TestClient`, `HandshakeCuts` | RFC 6455 framing (sections 5.2 and 5.3) as the reference, the hand-written codecs, and the test client over all cuts of what it receives |
| `PubSubText`, `Subscriber`, `Topics`, `Broker` | the pub/sub protocol from publisher through broker to subscriber |
| `Sse` | the word-by-word event stream |
| `Signaling`, `SignalingRuns`, `SignalingServer` | the WebRTC signaling server's rooms as a value, over whole runs, and on the heap |
| `Shutdown`, `LongPoll`, `Idempotency` | graceful shutdown, long polling, idempotency keys |
| `Base64Url`, `Jwt` | section 5 of RFC 4648, and the token library |

A program that changes variables is a class. A pure value says what its state is (`Value()`, `View()`), pure step
functions say what each handler does to it, lemmas show that each step keeps the invariant, and each method is
proved to be its step. Text readers and the demultiplexer keep a ghost record of all they have received, and their
invariant says that their state is a function of that record alone: so no result depends on how it was cut. The
proxy's test client is the exception; its record is the list of chunks.

`{:induction false}` on a lemma means that its proof is the one written down.

### What is assumed of the platform

- Handlers run one at a time. Resolving a promise and running its `then` callback is one step (the callback is a
  microtask), and so are `res.end` with its `finish` handler, and `destroy` with its `close` event.
- The worker pool has at least one worker, workers do not die, each has a first-in first-out inbox and reply
  channel, and the random ids are pairwise distinct; the model names an id by the order in which it is drawn.
- Timers are ideal where times matter (`Shutdown`, the runs of `LongPoll`): a timer fires when it is due, and
  timers that are due at the same millisecond fire in any order.
- `server.close` refuses new connections at once and calls back only when no connection is open.
- Readers that call `chunk.toString()` on each chunk are modelled on text chunks.
- Case mapping, JSON, HMAC and what Node decodes from a text outside the base64url alphabet are parameters.

### Where the code falls short of what is said about it

Each of these is proved with the exact condition.

- A publisher's message is not always the one that is delivered: the broker trims the line and splits it at
  blanks, so it is exactly when the topic has no blank, topic and message have no line break, and the message (the
  topic, if the message is empty) is not empty and does not end in white space (`PubSubText.PublishExact`). Of a
  topic with a blank the second word goes to the message (`PubSubText.BlankSplitsOneTopic`).
- `test-client.js` says it speaks WebSocket, but reads and writes only the one-byte length: its frames are right
  exactly up to 125 bytes, and of the servers' frames it reads exactly those up to 125 bytes and one curiosity of
  126 bytes (`WebSocket.ClientFrameExact`, `WebSocket.ServerFrameExact`).
- It also takes the chunk with the words of the status line for the end of the handshake. The backend's answer is
  shown exactly when the stream is cut at the end of the header and nowhere between the beginning of the words and
  it (`HandshakeCuts.ProxyByCuts`; for any header and payload, `TestClient.ShownExact`). If the header is cut behind its first line, the client shows
  header text as the message, or nothing (`TestClient.HeaderCut`); if the words themselves are cut, it waits for
  ever (`TestClient.NeverGreets`).
- The signaling server cleans up on `error` and again on `close`. If another peer joins the room in between, the
  second cleanup can take that peer's live room out of the table (`Signaling.StaleHappens`,
  `SignalingRuns.DisturbedBreaks`); it does so exactly when the captured Set is empty and the room is mapped again
  (`Signaling.CleanupExact`). Without such a join the rooms are right for good
  (`SignalingRuns.UndisturbedIsCoherent`).
- The same server's "relay verbatim" parses the message and serializes it again for each peer. A peer is sent the
  text that came in exactly when that is what `JSON.stringify` writes for it and it fits in a 16-bit length
  (`Signaling.VerbatimExact`); a blank is lost (`Signaling.BlankIsLost`); and a message that is no JSON, or grows
  past 65535 bytes, makes the handler throw before anyone is sent anything, if there is another peer
  (`Signaling.HeardExact`).
- The grace period saves a request only if it arrives less than 3000 ms after the shutdown signal
  (`Shutdown.ForceCloseExact`): a later one on a connection that stays open is accepted, worked on, and cut off
  unanswered (`Shutdown.LateRequestCut`). At exactly 3000 ms either can happen (`Shutdown.TieAnswered`).
- With ideal timers the long-polling server never sends its timeout answer in any run: the order always ships
  before the first ten seconds are over (`LongPoll.NeverTimesOut`; exactly then, `LongPoll.TimesOutExact`).
- `verify` does not always fail with `invalid signature` on a wrong one: on a signature of the right number of
  characters with one that is not ASCII, the comparison itself throws (`Jwt.UnequalLengthsExact`,
  `Jwt.AccentThrows`); and it accepts
  a token that goes on after the signature with a dot and anything (`Jwt.AcceptedExact`).

## Model

| member | source | states |
|---|---|---|
| Framing.FramesAppend | practice/be-executn-patterns/reader-thread-pool/server.js:15-33 | Taking frames from a buffer and then from what is left plus a new chunk gives the frames and the rest of the whole text, for any delimiter, also one that the chunk boundary cuts |
| Framing.FramesLossless | practice/comms-design-pattern/pub-sub-chat/broker.js:28-35 | Frames with their delimiters, then the buffer, are exactly the text received; no delimiter is left in the buffer |
| Framing.FramesUnframe | practice/misc/llm-style-streaming/client-fetch.js:21-26 | A list of frames comes back from the wire just when each frame's delimiter is the first one in it |
| Primes.TrialDivision | practice/be-executn-patterns/reader-thread-pool/worker.js:10-15 | Stopping at the square root is enough: a composite has a divisor that small |
| Primes.CountPrimes | practice/be-executn-patterns/reader-thread-pool/worker.js:6-18 | The nested loops with their early break count exactly the primes below n |
| Primes.Process | practice/be-executn-patterns/reader-thread-pool/worker.js:5-19 | The answer is the upper-case payload and the fixed words, with the thread id, the true number of primes below 15000 times the payload's length, and that bound in their places, each in plain decimal |
| Primes.DecimalWrites | practice/be-executn-patterns/reader-thread-pool/worker.js:18 | A number is written with decimal digits that read back as it, most significant first and with no needless zero |
| RoundRobin.LaneMembers | practice/be-executn-patterns/reader-thread-pool/pool.js:30-31 | Target w gets exactly the dispatches j with j mod k = w, once each and in order |
| RoundRobin.LaneSize | practice/be-executn-patterns/reader-thread-pool/pool.js:30-31 | After n dispatches the first n mod k targets have one more than the others |
| RoundRobin.Fairness | practice/be-executn-patterns/reader-thread-pool/pool.js:30-31 | Any two targets' totals differ by at most one |
| RoundRobin.EachOnce | practice/proxy-n-load-balancing/reverse-proxy-l4-vs-l7/l4-proxy.js:7-15 | Any k dispatches in a row reach every target once |
| RoundRobin.L4Proxy.OnConnection | practice/proxy-n-load-balancing/reverse-proxy-l4-vs-l7/l4-proxy.js:13-15 | Connection number j goes to backend j mod k; earlier choices stand |
| RoundRobin.L4Proxy.FairShare | practice/proxy-n-load-balancing/reverse-proxy-l4-vs-l7/l4-proxy.js:11-15 | In every reachable state each backend has had its share of the connections |
| WorkerPool.QueuedExactlyOnce | practice/be-executn-patterns/reader-thread-pool/pool.js:14-33 | An id is pending exactly when it is once in the inbox or reply channel of the worker it was dispatched to, and it is in no other worker's |
| WorkerPool.HeadOfReplies | practice/be-executn-patterns/reader-thread-pool/pool.js:14-20 | Every reply is expected, belongs to the worker it comes from, and is the result of its own payload |
| WorkerPool.SettledOnce | practice/be-executn-patterns/reader-thread-pool/pool.js:15-19 | A promise is resolved once if its id is no longer pending, and otherwise not at all |
| WorkerPool.SettledInOrder | practice/be-executn-patterns/reader-thread-pool/pool.js:25-33 | A worker's answers come back in dispatch order, none skipped |
| WorkerPool.AllSettled | practice/be-executn-patterns/reader-thread-pool/pool.js:14-33 | With nothing pending every call has been resolved exactly once |
| WorkerPool.Progress | practice/be-executn-patterns/reader-thread-pool/pool.js:14-33 | The measure 2 x inbox messages + replies is zero just when nothing is pending; until then some worker or reply can step |
| WorkerPool.DispatchInv | practice/be-executn-patterns/reader-thread-pool/pool.js:25-33 | A call of `run` keeps the pool's invariant |
| WorkerPool.WorkInv | practice/be-executn-patterns/reader-thread-pool/worker.js:21-24 | A worker's computation keeps the invariant and lowers the measure |
| WorkerPool.ReceiveInv | practice/be-executn-patterns/reader-thread-pool/pool.js:14-20 | A reply received keeps the invariant and lowers the measure |
| WorkerPool.WorkerPool.Run | practice/be-executn-patterns/reader-thread-pool/pool.js:25-33 | `run` posts call number n to worker n mod k and records its promise |
| WorkerPool.WorkerPool.WorkerStep | practice/be-executn-patterns/reader-thread-pool/worker.js:21-24 | The worker takes the head of its inbox and posts the answer with the same id |
| WorkerPool.WorkerPool.OnMessage | practice/be-executn-patterns/reader-thread-pool/pool.js:14-20 | The lookup never fails; the promise of the reply's id is resolved with the result of that call's own payload |
| ReaderServer.EndToEnd | practice/be-executn-patterns/reader-thread-pool/server.js:13-33 | Once nothing is pending a socket has been written, as a multiset, one answer for each of its non-blank lines, by the worker the line went to, for every chunking and interleaving |
| JsText.TrimPadded | practice/be-executn-patterns/reader-thread-pool/server.js:19 | Trimming takes away exactly the white space around a text, at both ends |
| ReaderServer.LinesDispatched | practice/be-executn-patterns/reader-thread-pool/server.js:15-28 | If a socket has sent lines, each a word between white space, and an unfinished rest, then what was dispatched for it is the words that are not empty, in order, and the buffer is the rest |
| ReaderServer.EveryLineAnswered | practice/be-executn-patterns/reader-thread-pool/server.js:13-33 | In the client's terms: once nothing is pending the socket has been written one answer for the word of each line that is not blank, by the worker of the id it got, and nothing else |
| ReaderServer.AnyText | practice/be-executn-patterns/reader-thread-pool/server.js:15-20 | Every text at all is such lines and a rest, so the two rows above are about everything a client can send |
| ReaderServer.AnswerText | practice/be-executn-patterns/reader-thread-pool/worker.js:18-23 | Each of these answers is the word in upper case and the fixed words with the worker's thread id, the true prime count and the bound in their places, and a line break |
| ReaderServer.OrderPerWorker | practice/be-executn-patterns/reader-thread-pool/server.js:28-31 | At any time the answers of one worker on a socket are, in order and without a gap, the first of those to the socket's lines that went to that worker |
| ReaderServer.DataInv | practice/be-executn-patterns/reader-thread-pool/server.js:15-28 | A chunk of any socket keeps every socket's account of lines and answers |
| ReaderServer.DeliverInv | practice/be-executn-patterns/reader-thread-pool/server.js:28-31 | A reply is added to the output of the socket that asked and of no other |
| ReaderServer.Server.OnData | practice/be-executn-patterns/reader-thread-pool/server.js:15-33 | The handler's loop dispatches the finished lines in order and keeps the rest |
| ReaderServer.Server.FrameLines | practice/be-executn-patterns/reader-thread-pool/server.js:16-28 | The loop takes out all frames, trims them, skips blank ones and runs the others |
| ReaderServer.Server.OnReply | practice/be-executn-patterns/reader-thread-pool/server.js:28-31 | The result and a line break are written to the asking socket |
| Mux.ChunkInvariance | practice/comms-design-pattern/multiplexing-vs-demultiplexing/server.js:15-32 | Frames handled and bytes buffered after any list of `data` events depend on the bytes only, not on the cuts |
| Mux.WireFormat | practice/comms-design-pattern/multiplexing-vs-demultiplexing/client.js:22-28 | A frame is the channel byte, the payload's length in four bytes, most significant first, and the payload |
| Mux.OnChannelExact | practice/comms-design-pattern/multiplexing-vs-demultiplexing/client.js:11-17 | A channel's messages are the payloads of exactly the frames with its number, in order |
| Mux.DecodeLossless | practice/comms-design-pattern/multiplexing-vs-demultiplexing/server.js:20-31 | The handled frames' encodings and the buffer are exactly the bytes received, and the buffer holds no complete frame |
| Mux.DecodeUnique | practice/comms-design-pattern/multiplexing-vs-demultiplexing/server.js:22-31 | No other frames and incomplete remainder make up the same bytes |
| Mux.DemuxUndoesMux | practice/comms-design-pattern/multiplexing-vs-demultiplexing/server.js:22-31 | Of any part of the stream the first frames sent come out; of all of it, all frames and an empty buffer |
| Mux.ChannelsRecovered | practice/comms-design-pattern/multiplexing-vs-demultiplexing/client.js:8-18 | Whatever chunks have arrived, each channel's handled messages are the first of its list, in order; when all have, all of it, with an empty buffer |
| Mux.Client.SendFrame | practice/comms-design-pattern/multiplexing-vs-demultiplexing/client.js:22-28 | The header array is filled so that the stream stays the encoding of the frames sent; it throws exactly when a field does not fit |
| Mux.Server.OnData | practice/comms-design-pattern/multiplexing-vs-demultiplexing/server.js:17-32 | The loop leaves handled frames and buffer a function of all bytes received |
| Rfc6455.ParseSerialize | practice/protocols/websockets/server.js:73-118 | The reference framing of RFC 6455 section 5.2 parses what it serializes, in the minimal length form, whatever follows |
| Bytes.XorBits | practice/protocols/websockets/server.js:96 | Each binary digit of an exclusive or is the sum of the two digits without carry (a number is determined by its digits: `Bytes.BitsDetermine`) |
| Rfc6455.MaskedBits | practice/protocols/websockets/server.js:95-97 | Masking adds, digit by digit and without carry, to byte i the byte i mod 4 of the key |
| Rfc6455.HelloFrames | practice/protocols/websockets/server.js:73-118 | The reference writes the single-frame examples of section 5.7 of RFC 6455, the masked one byte for byte |
| Rfc6455.LongFrames | practice/protocols/websockets/server.js:110-117 | And its examples with extended lengths, in network byte order |
| WebSocket.DecodersCompared | practice/protocols/websockets/server.js:74-100 | On any bytes the echo server's decoder answers as the other two, but for null when the mask bit is clear |
| WebSocket.DecodeOutcomes | practice/protocols/websockets/server.js:80-88 | On any bytes: null, an exception or a message, each exactly when the length code, the mask bit and the number of bytes say so |
| WebSocket.HelloExchanged | practice/protocols/websockets/server.js:74-100 | All three decoders read section 5.7's masked frame as "Hello", whatever follows; the test client makes that frame and reads the unmasked one |
| WebSocket.DecodeIsRfc | practice/protocols/webrtc-signaling/signaling-server.js:82-98 | Every complete masked frame with a 7-bit or 16-bit length is read as RFC 6455 says, by all three decoders |
| WebSocket.MaskedRoundTrip | practice/protocols/websockets/server.js:74-100 | A payload of up to 65535 bytes comes back from its masked frame for every key and whatever follows |
| WebSocket.TruncatedFrame | practice/protocols/websockets/server.js:90-97 | A masked frame that is cut off in its data is taken for a shorter message: what there is of the payload |
| WebSocket.RelayDecodeFrame | practice/proxy-n-load-balancing/websocket-proxy/backend.js:50-66 | The imperative decoder with its unmasking loop is the function the theorems are about, for every buffer |
| WebSocket.EchoDecodeFrame | practice/protocols/websockets/server.js:74-100 | Likewise for the echo server's |
| WebSocket.EncodeFrame | practice/proxy-n-load-balancing/websocket-proxy/backend.js:68-80 | The servers' frame is the minimal RFC 6455 text frame for every payload up to 65535 bytes and an exception for every longer one |
| WebSocket.ClientEncodeFrame | practice/proxy-n-load-balancing/websocket-proxy/test-client.js:45-54 | The masking loop and the one-byte length give the frame of the next row |
| WebSocket.ClientFrameExact | practice/proxy-n-load-balancing/websocket-proxy/test-client.js:45-54 | The test client's frame is the RFC 6455 frame, and reaches the servers intact, exactly up to 125 bytes |
| WebSocket.ServerFrameIncremental | practice/proxy-n-load-balancing/websocket-proxy/test-client.js:56-62 | Up to 125 bytes the client waits on every strict prefix of a server frame and reads the payload from all of it |
| WebSocket.ServerFrameExact | practice/proxy-n-load-balancing/websocket-proxy/test-client.js:56-62 | Of the frames the servers can send, the client reads exactly those up to 125 bytes and one of 126 |
| WebSocket.EchoRoundTrip | practice/proxy-n-load-balancing/websocket-proxy/backend.js:38-44 | Client to backend and back: label and message are read together just when they fit in 125 bytes |
| TestClient.AfterIs | practice/proxy-n-load-balancing/websocket-proxy/test-client.js:26-43 | The client's state is a function of the bytes after the first chunk that holds the words, for every list of chunks |
| TestClient.ShownExact | practice/proxy-n-load-balancing/websocket-proxy/test-client.js:26-43 | Of header and short frame, cut in any way, the payload is shown exactly when some chunk holds the words and the first that does ends with the header, or cuts off a tail of it in which the payload goes round |
| TestClient.BackendShownExact | practice/proxy-n-load-balancing/websocket-proxy/test-client.js:26-43 | For the backend's messages, which start with a bracket, there is no such tail: shown exactly when that chunk ends with the header |
| TestClient.ProxyRoundTrip | practice/proxy-n-load-balancing/websocket-proxy/backend.js:26-44 | Greeting to backend and its answer back, behind a header without brackets and cut in any way: the same condition |
| HandshakeCuts.WordsOnce | practice/proxy-n-load-balancing/websocket-proxy/backend.js:24-34 | The header that the backend sends holds the words once, at position 9, for every accept key |
| HandshakeCuts.CutsExact | practice/proxy-n-load-balancing/websocket-proxy/test-client.js:26-36 | The first chunk with the words ends with the header exactly when there is a cut at its end and none between the beginning of the words and it |
| HandshakeCuts.ProxyByCuts | practice/proxy-n-load-balancing/websocket-proxy/test-client.js:26-43 | Round trip for the backend's own header: the answer to the greeting is shown exactly under that condition on the cuts |
| TestClient.ShownWhen | practice/proxy-n-load-balancing/websocket-proxy/test-client.js:36-42 | Once the header has ended with that chunk nothing is shown before the last byte of the answer, and then exactly its payload, whatever follows |
| TestClient.HeaderCut | practice/proxy-n-load-balancing/websocket-proxy/test-client.js:27-35 | With the header cut behind its first line the client reads a length of 112 and shows header text, or nothing of a very short answer |
| TestClient.NeverGreets | practice/proxy-n-load-balancing/websocket-proxy/test-client.js:27-35 | If no chunk holds the words the handshake never ends |
| TestClient.Client.OnData | practice/proxy-n-load-balancing/websocket-proxy/test-client.js:26-43 | The handler's variables are those of all chunks received; the greeting is sent once, when the words are first in a chunk |
| PubSubText.PublishExact | practice/comms-design-pattern/pub-sub-chat/publisher.js:14-15 | The broker reads back the published topic and message exactly when they are deliverable |
| PubSubText.SentLines | practice/comms-design-pattern/pub-sub-chat/publisher.js:6-15 | The publisher sends its arguments, joined by blanks behind the keyword, if there is a topic and a word, and otherwise nothing; the subscriber its topic |
| PubSubText.LineOfWords | practice/comms-design-pattern/pub-sub-chat/broker.js:33-42 | What the broker makes of any line of words with white space around it: by the first word a subscription, a publish of the words from the third on, or nothing |
| PubSubText.BlankSplitsTopic | practice/comms-design-pattern/pub-sub-chat/broker.js:37-41 | A topic with a blank is accepted by the publisher, and published as its first word, with the rest in the message |
| PubSubText.BlankSplitsOneTopic | practice/comms-design-pattern/pub-sub-chat/publisher.js:14-15 | `a b` and `c` are published as `a` and `b c` |
| PubSubText.SubscribeExact | practice/comms-design-pattern/pub-sub-chat/subscriber.js:12-15 | A subscription is for the topic that was asked for exactly when that topic is deliverable |
| PubSubText.ParsedDeliverable | practice/comms-design-pattern/pub-sub-chat/broker.js:33-42 | What the broker parses from a line is always deliverable again |
| JsText.JoinSplit | practice/comms-design-pattern/pub-sub-chat/broker.js:37-41 | Joining what was split is the identity and no part holds the separator |
| JsText.SplitJoin | practice/comms-design-pattern/pub-sub-chat/subscriber.js:25-26 | Splitting what was joined gives the parts back when none holds the separator |
| Subscriber.PrintsDeliveries | practice/comms-design-pattern/pub-sub-chat/subscriber.js:17-29 | Of any part of the broker's text the subscriber prints the first deliveries, unchanged; of all of it, all |
| Subscriber.MsgLine | practice/comms-design-pattern/pub-sub-chat/broker.js:21-25 | The broker's line is MSG, the topic (or the word undefined) and the message; the subscriber prints exactly the lines that begin with MSG and a blank |
| Subscriber.PrintedWords | practice/comms-design-pattern/pub-sub-chat/subscriber.js:23-28 | Of any such line it prints the second word as the topic and the rest as the message |
| Subscriber.Reader.OnData | practice/comms-design-pattern/pub-sub-chat/subscriber.js:18-29 | Printed lines and buffer are a function of all text received |
| Topics.SubscribedMeans | practice/comms-design-pattern/pub-sub-chat/broker.js:7-19 | Being subscribed is having asked for the topic and not having closed since |
| Topics.DeliveriesExact | practice/comms-design-pattern/pub-sub-chat/broker.js:21-25 | What a socket is due is exactly the publishes to topics it has a standing subscription to at that moment, in order |
| Topics.JoinRefines | practice/comms-design-pattern/pub-sub-chat/broker.js:7-11 | A subscription, also a repeated one, keeps the topic sets the subscription relation and writes nothing |
| Topics.PublishRefines | practice/comms-design-pattern/pub-sub-chat/broker.js:21-25 | A publish is written once to exactly the subscribers of its topic |
| Topics.LeaveRefines | practice/comms-design-pattern/pub-sub-chat/broker.js:13-19 | A socket that closes is out of every set, and nobody else is |
| Broker.Server.Subscribe | practice/comms-design-pattern/pub-sub-chat/broker.js:7-11 | The socket joins the topic's insertion-ordered set, made if there is none |
| Broker.Server.UnsubscribeAll | practice/comms-design-pattern/pub-sub-chat/broker.js:13-19 | The loop over all topics removes exactly this socket from each |
| Broker.Server.Publish | practice/comms-design-pattern/pub-sub-chat/broker.js:21-25 | The loop writes one line to each socket of the set and to no other |
| Broker.Server.OnData | practice/comms-design-pattern/pub-sub-chat/broker.js:29-44 | Each finished line is obeyed, in order; the rest is kept |
| Broker.Server.OnClose | practice/comms-design-pattern/pub-sub-chat/broker.js:46 | Closing leaves every topic |
| Broker.DataInv | practice/comms-design-pattern/pub-sub-chat/broker.js:29-44 | A chunk of any socket keeps the tables the history's subscriptions and deliveries |
| Broker.ClosedNowhere | practice/comms-design-pattern/pub-sub-chat/broker.js:46 | A closed socket is in no topic's set in any reachable state |
| Broker.EndToEnd | practice/comms-design-pattern/pub-sub-chat/broker.js:27-48 | Over every run and any chunking of both hops a subscriber prints the publishes made while its socket was subscribed, in order, once each, unchanged; and a publisher's line is its publish exactly when it is deliverable |
| Broker.RoundTrip | practice/comms-design-pattern/pub-sub-chat/publisher.js:7-15 | A deliverable topic and message of a publisher's command line have one place in the history, and a subscriber prints, right behind what was due before it, exactly that topic and message if it was subscribed there, and otherwise nothing for it |
| Sse.CarriedIsClean | practice/misc/llm-style-streaming/client-fetch.js:21-26 | A frame keeps its boundary exactly when its word has no blank line and no line break at its end |
| Sse.StreamText | practice/misc/llm-style-streaming/server.js:32-45 | The stream in letters: each word behind its field name and before a blank line, then the end marker |
| Sse.CarriedMeans | practice/misc/llm-style-streaming/client-fetch.js:21-28 | A word is carried exactly when it has no two line breaks in a row, none at its end, and is not the marker |
| Sse.StreamExact | practice/misc/llm-style-streaming/client-fetch.js:24-34 | The client gathers every word and a blank, in order, and stops at the marker, exactly when every word is carried |
| Sse.PartialStream | practice/misc/llm-style-streaming/client-fetch.js:15-36 | Of any part of the stream the client has gathered a first part of the sentence |
| Sse.ResponseArrives | practice/misc/llm-style-streaming/server.js:9-9 | The words of the one response are all carried, so the client gathers a first part of that response, and in the end all of it and a blank |
| Sse.Emitter.Tick | practice/misc/llm-style-streaming/server.js:32-45 | What is written and what is to come are the stream; the interval stops with the whole stream written |
| Sse.Emitter.OnClose | practice/misc/llm-style-streaming/server.js:47 | A closed request leaves a first part of the stream |
| Sse.Client.OnChunk | practice/misc/llm-style-streaming/client-fetch.js:19-35 | `fullText`, the end and the buffer are a function of all text received |
| Signaling.RoomsAreRelation | practice/protocols/webrtc-signaling/signaling-server.js:47-58 | The mapped Set of a room holds exactly the open connections that joined it |
| Signaling.RoomsDisjoint | practice/protocols/webrtc-signaling/signaling-server.js:22-23 | Different rooms have different Set objects without a common member |
| Signaling.EnterCoherent | practice/protocols/webrtc-signaling/signaling-server.js:47-58 | A join keeps every open connection's captured Set the one mapped for its room |
| Signaling.EnterExact | practice/protocols/webrtc-signaling/signaling-server.js:54-56 | `peer-joined` goes to the one connection that was alone in the room, and to nobody else |
| Signaling.PeerJoinedFrame | practice/protocols/webrtc-signaling/signaling-server.js:54-56 | What that connection is written is the two-byte header and the 22 bytes of the `peer-joined` object |
| Signaling.RelayExact | practice/protocols/webrtc-signaling/signaling-server.js:60-67 | A message goes once to every other open connection of the sender's room and to nobody else |
| Signaling.CleanupExact | practice/protocols/webrtc-signaling/signaling-server.js:69-75 | Cleanup, also a second one, keeps the rooms coherent exactly when the captured Set is not stale; a second one that is not stale changes nothing |
| Signaling.StaleHappens | practice/protocols/webrtc-signaling/signaling-server.js:69-75 | A join between `error` and `close` makes the second cleanup unmap a live room |
| Signaling.FreshlyCleaned | practice/protocols/webrtc-signaling/signaling-server.js:69-75 | The Set of a connection that has just left is not stale |
| Signaling.JoinElsewhere | practice/protocols/webrtc-signaling/signaling-server.js:47-58 | A join of another room makes no departed connection's Set stale |
| Signaling.CleanupElsewhere | practice/protocols/webrtc-signaling/signaling-server.js:69-75 | Nor does the cleanup of another connection |
| SignalingRuns.FailingMeans | practice/protocols/webrtc-signaling/signaling-server.js:74-75 | A connection is failing when its `error` has come and its `close` has not |
| SignalingRuns.UndisturbedMeans | practice/protocols/webrtc-signaling/signaling-server.js:47-75 | A run is disturbed exactly when in its history somebody joins the room of a connection whose `error` has come and whose `close` has not |
| SignalingRuns.CoherentExact | practice/protocols/webrtc-signaling/signaling-server.js:47-75 | The rooms are right all along a run exactly when every cleanup in it finds a Set that is not stale |
| SignalingRuns.UndisturbedIsCoherent | practice/protocols/webrtc-signaling/signaling-server.js:47-75 | In every run in which nobody joins a room while a connection of that room is between its `error` and its `close`, the rooms are right all along |
| SignalingRuns.PresentIs | practice/protocols/webrtc-signaling/signaling-server.js:47-75 | Along a run that keeps the rooms right, being open in a room is having joined it and neither failed nor closed since |
| SignalingRuns.SentIs | practice/protocols/webrtc-signaling/signaling-server.js:47-75 | Along such a run every connection has been sent, in order, its `peer-joined` signals and the rewritten messages of the others in its room while it was there, by the history alone |
| SignalingRuns.UndisturbedSent | practice/protocols/webrtc-signaling/signaling-server.js:47-75 | And so in every run in which nobody joins a room while a connection of that room is between its `error` and its `close` |
| SignalingRuns.DisturbedBreaks | practice/protocols/webrtc-signaling/signaling-server.js:69-75 | The four-event run in which such a join takes a live room out of the table |
| Signaling.HeardExact | practice/protocols/webrtc-signaling/signaling-server.js:60-67 | All or nobody: every other open connection of the room is sent the same rewritten text, or the handler throws before anything is sent; it throws exactly when there is another member and the message is no JSON or outgrows a frame |
| Signaling.VerbatimExact | practice/protocols/webrtc-signaling/signaling-server.js:63-66 | A peer is sent the message as it came exactly when it is what `JSON.stringify` writes for it and fits in a frame |
| Signaling.BlankIsLost | practice/protocols/webrtc-signaling/signaling-server.js:63-66 | A message with a blank between brackets arrives without it |
| Signaling.RelayedFrame | practice/protocols/webrtc-signaling/signaling-server.js:60-112 | On bytes: a masked frame in, whatever follows it, is on every other connection of the room the minimal frame of the rewritten text, which an RFC 6455 reader reads back |
| SignalingServer.Server.Upgrade | practice/protocols/webrtc-signaling/signaling-server.js:28-58 | On the heap: the new connection shares the mapped Set object, or a new one if there is none, and a lone peer is told |
| SignalingServer.Server.OnData | practice/protocols/webrtc-signaling/signaling-server.js:60-67 | On the heap, from the bytes of a chunk to the frames written: decoding, and the loop over the captured Set that parses, serializes and frames for each other member, are the message event of the run, with every exception |
| SignalingServer.Server.OnError | practice/protocols/webrtc-signaling/signaling-server.js:69-75 | On the heap: an `error` of an open connection keeps the invariant |
| SignalingServer.Server.OnClose | practice/protocols/webrtc-signaling/signaling-server.js:69-75 | On the heap: a `close` keeps it exactly when the captured Set is not stale |
| SignalingServer.Server.WrittenExact | practice/protocols/webrtc-signaling/signaling-server.js:54-67 | In every state reached without such a join the frames written to a connection are exactly those of what it was due |
| Shutdown.NextInv | practice/misc/graceful-shutdown/graceful-server.js:5-44 | Every event keeps the invariant of sockets, timers and requests |
| Shutdown.RecordIs | practice/misc/graceful-shutdown/graceful-server.js:5-44 | Every event of a run is in the record of sockets, requests, answers, shutdown and exit, with the time at which it happened |
| Shutdown.OnlyEvents | practice/misc/graceful-shutdown/graceful-server.js:5-44 | And the record holds nothing else; in particular the process has exited exactly if the close callback has run |
| Shutdown.FirstSignal | practice/misc/graceful-shutdown/graceful-server.js:22-26 | The shutdown begins at the first signal |
| Shutdown.Tracked | practice/misc/graceful-shutdown/graceful-server.js:15-19 | In every run `sockets` is the set of open connections, none opened after the signal, and the exit comes with none open |
| Shutdown.GoneAfterGrace | practice/misc/graceful-shutdown/graceful-server.js:36-43 | No connection is open after 5000 ms from the signal |
| Shutdown.CanExit | practice/misc/graceful-shutdown/graceful-server.js:28-34 | After a signal the process can exit exactly when no connection is open, and in any case once the grace timer has fired |
| Shutdown.AnsweredInTime | practice/misc/graceful-shutdown/graceful-server.js:5-11 | A request is answered exactly 2000 ms after it came if its connection is still open then |
| Shutdown.ForceCloseExact | practice/misc/graceful-shutdown/graceful-server.js:36-43 | On a connection closed by force, a request that came less than 3000 ms after the signal has been answered and one that came later than that never is |
| Shutdown.LateRequestCut | practice/misc/graceful-shutdown/graceful-server.js:36-43 | For every delay from 3000 to 5000 ms a run in which the request is accepted and cut off unanswered |
| Shutdown.TieAnswered | practice/misc/graceful-shutdown/graceful-server.js:36-43 | At exactly 3000 ms also a run in which it is answered |
| Shutdown.RepeatedSignal | practice/misc/graceful-shutdown/graceful-server.js:23-26 | Taking a repeated signal out of any run leaves a possible run with the same end |
| Shutdown.ClockRuns | practice/misc/graceful-shutdown/graceful-server.js:38-43 | The timer rules never stop the clock: time can pass or a timer is due |
| Shutdown.GracefulServer.Shutdown | practice/misc/graceful-shutdown/graceful-server.js:23-44 | The guarded handler is the signal event of the run |
| Shutdown.GracefulServer.OnGraceOver | practice/misc/graceful-shutdown/graceful-server.js:38-43 | The loop destroys all sockets that are left |
| LongPoll.RequestInv | practice/comms-design-pattern/notification-delivery/long-polling/server.js:23-47 | A request keeps: waiting is exactly parked and unanswered, in order, with exactly their timers armed; no response is answered twice, only status requests wait or get a status, and nobody is told "shipped" before |
| LongPoll.ShipInv | practice/comms-design-pattern/notification-delivery/long-polling/server.js:10-19 | Shipping answers everyone that waits, in order of arrival, and leaves no timer and no request without an answer |
| LongPoll.TimeoutInv | practice/comms-design-pattern/notification-delivery/long-polling/server.js:40-45 | A timeout answers one waiting response and keeps the same account; only such answers say "processing" |
| LongPoll.AllAnswered | practice/comms-design-pattern/notification-delivery/long-polling/server.js:6-48 | After shipping every request has exactly one answer |
| LongPoll.RecordIs | practice/comms-design-pattern/notification-delivery/long-polling/server.js:9-29 | The record by the events of a run: its time, whether the order has shipped, who asked, and whether for the status path |
| LongPoll.ParkedIs | practice/comms-design-pattern/notification-delivery/long-polling/server.js:29-38 | Held open are exactly those that asked for the status before the order had shipped, in that order |
| LongPoll.NeverTimesOut | practice/comms-design-pattern/notification-delivery/long-polling/server.js:9-45 | In no run with ideal timers does a timeout fire or an answer say so; after the shipping time every request has its answer |
| LongPoll.TimesOutExact | practice/comms-design-pattern/notification-delivery/long-polling/server.js:8-45 | A timeout can happen in some run exactly if the order ships ten seconds after the start or later, which the code rules out |
| LongPoll.ToldWhenShipped | practice/comms-design-pattern/notification-delivery/long-polling/server.js:10-19 | A run in which a request is held open and told when the order ships |
| LongPoll.ClockRuns | practice/comms-design-pattern/notification-delivery/long-polling/server.js:9-45 | The timer rules of these runs never stop the clock: time can pass or the order ships |
| LongPoll.Server.OnRequest | practice/comms-design-pattern/notification-delivery/long-polling/server.js:23-48 | The handler's three branches are the request step |
| LongPoll.Server.OnShip | practice/comms-design-pattern/notification-delivery/long-polling/server.js:10-19 | The loop over the taken list is the shipping step |
| LongPoll.Server.OnTimeout | practice/comms-design-pattern/notification-delivery/long-polling/server.js:40-45 | The filter and the answer are the timeout step |
| Idempotency.RetryErasure | practice/be-executn-patterns/idempotency-and-nagle/server.js:18-41 | Any of the repeats can be taken out of any history: the ledger ends the same and every other response stays |
| Idempotency.WithoutExact | practice/be-executn-patterns/idempotency-and-nagle/server.js:25-32 | Taking requests out of a history leaves exactly the others, in order |
| Idempotency.ReceiptExact | practice/be-executn-patterns/idempotency-and-nagle/server.js:11-39 | A charge is answered with 10 charged, and a total of ten for each charge up to and with it |
| Idempotency.RepeatGetsFirst | practice/be-executn-patterns/idempotency-and-nagle/server.js:25-31 | Every request with a key gets the response of the first with that key |
| Idempotency.RefusedExact | practice/be-executn-patterns/idempotency-and-nagle/server.js:18-43 | A request is refused for want of a key, or as an unknown path, exactly when it is one, and then charges nothing |
| Idempotency.TotalCharged | practice/be-executn-patterns/idempotency-and-nagle/server.js:4-37 | The total is ten for each naive charge and each distinct key, and exactly those keys are cached |
| Idempotency.ChargesDistinct | practice/be-executn-patterns/idempotency-and-nagle/server.js:11-36 | A later charge shows a greater total |
| Idempotency.CachedTotalsDistinct | practice/be-executn-patterns/idempotency-and-nagle/server.js:34-37 | Distinct keys have cached distinct totals |
| Idempotency.ChargeServer.OnRequest | practice/be-executn-patterns/idempotency-and-nagle/server.js:7-44 | The handler's state and responses are those of the history of all requests |
| Base64Url.DecodeEncode | practice/misc/backend-security/jwt-auth/jwt-lib.js:7-9 | base64url is invertible on every byte sequence and stays in its alphabet |
| Base64Url.GroupNumber | practice/misc/backend-security/jwt-auth/jwt-lib.js:7-9 | The digits of a group write, to base 64, the number its bytes are to base 256, with zero bits behind a group that is not full |
| Base64Url.EncodeAppend | practice/misc/backend-security/jwt-auth/jwt-lib.js:7-9 | Full groups are written first, in order |
| Base64Url.EncodeShape | practice/misc/backend-security/jwt-auth/jwt-lib.js:7-9 | No padding, and never a dot |
| Unicode.Utf8Length | practice/misc/backend-security/jwt-auth/jwt-lib.js:34-36 | A text has as many UTF-8 bytes as code units exactly when it is ASCII |
| Unicode.Utf8Characters | practice/misc/backend-security/jwt-auth/jwt-lib.js:36 | The bytes of a text are, character by character, those of the table in section 3 of RFC 3629, a lone surrogate being U+FFFD |
| Jwt.RoundTrip | practice/misc/backend-security/jwt-auth/jwt-lib.js:11-44 | A signed token verifies until its non-zero `exp` to all that the payload had, with `iat` and `exp` the seconds of signing and of expiry; it is expired after that, and decodes to the same at any time |
| Jwt.SignedParts | practice/misc/backend-security/jwt-auth/jwt-lib.js:12-20 | Split at its dots a token is the base64url texts of the HS256 header, of the serialized claims, and of the MAC of these two with the dot between them |
| Jwt.ExpiredExact | practice/misc/backend-security/jwt-auth/jwt-lib.js:40-43 | An accepted token is refused as expired exactly when it has an `exp` that is not zero and is over |
| Jwt.DecodeReads | practice/misc/backend-security/jwt-auth/jwt-lib.js:48-52 | `decode` reads what stands between the first dot and the next one or the end, with or without a signature behind it |
| Jwt.AcceptedExact | practice/misc/backend-security/jwt-auth/jwt-lib.js:24-38 | A signature is accepted exactly on two non-empty parts followed by the text of their MAC, alone or before a further dot |
| Jwt.MalformedExact | practice/misc/backend-security/jwt-auth/jwt-lib.js:24-26 | A token is malformed exactly when it does not start with three non-empty parts |
| Jwt.UnequalLengthsExact | practice/misc/backend-security/jwt-auth/jwt-lib.js:34-36 | The comparison throws exactly on a signature of the right length that is not ASCII |
| Jwt.AccentThrows | practice/misc/backend-security/jwt-auth/jwt-lib.js:34-36 | It does, for every header, payload and secret, on the right signature with its first character replaced by an accented one |
| Jwt.Forgery | practice/misc/backend-security/jwt-auth/jwt-lib.js:24-38 | A made signature is accepted for other parts only on a MAC collision |

## Left out

- Sockets, HTTP, the WebSocket handshake with its SHA-1, process signals and the worker runtime: only the events they deliver are modelled.
- Text readers on byte chunks: `chunk.toString()` damages a character that a chunk boundary cuts, so the text results are about text chunks; `TextDecoder` with `stream: true` makes that view exact for the event stream.
- WebSocket frames that are split across `data` events in the servers, opcodes, fragmentation, control frames and 64-bit lengths: the code does not handle them; payloads are bytes, UTF-8 decoding of a payload is left out.
- The echo server's set of clients and the backend's message counter: they would only add easy members.
- SignalingServer.Server.OnData: the text of a payload, `JSON.parse` and `JSON.stringify` are parameters; that an exception out of a handler ends the process is not modelled, and the results hold of the longer runs too.
- SignalingServer.Server.Upgrade: a request that is no WebSocket upgrade is destroyed before the modelled part; a repeated `room` parameter, which `url.parse` turns into an array that is a Map key of its own, is not modelled.
- TestClient.Client.OnData: the search for the words is made on the bytes of a chunk, which for an ASCII text is the same as on its decoded text; the handshake key is not checked, as in the code.
- Mux.Client.SendFrame: takes the payload as bytes; channel names and their logging are left out.
- ReaderServer.EndToEnd: assumes that sockets stay open; a write to a closed one is not modelled.
- Broker.Server.OnClose: a socket is not written to after it has closed; the empty `error` handler does nothing.
- Topics.LeaveRefines: topics whose set has become empty stay in the map, as in the code, which the reference does not observe.
- LongPoll.Server.OnTimeout: a client that goes away keeps its place until ship or timeout, as in the code; that its answer then reaches nobody is not modelled.
- Idempotency.ChargeServer.OnRequest: totals are unbounded integers, so rounding of numbers above 2^53 is left out.
- Jwt.RoundTrip: whole seconds only; an `exp` that is no whole number, and a payload that is JSON but no object, are left to the parameters.
- Jwt.Decode: a missing second part and text that is no JSON are one error here, two kinds of exception in the code.
- Logs, HTML clients, benchmarks, and the repository's other servers (polling, push, counters, query builders): no protocol machinery beyond what is modelled here.
