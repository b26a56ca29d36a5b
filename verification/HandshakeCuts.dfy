/** Where the backend's answer may be cut on its way to the test client: the round trip of the proxy demo for the
    header that the backend sends, by the positions of the cuts. */
module HandshakeCuts {
  import opened Bytes
  import opened Options
  import opened Sequences
  import opened TestClient
  import opened WebSocket

  /** The base64 text of a SHA-1 digest. */
  predicate IsKey(acceptKey: seq<byte>) {
    |acceptKey| == 28 && forall i :: 0 <= i < |acceptKey| ==> IsBase64(acceptKey[i])
  }

  predicate IsBase64(b: byte) { b == 43 || 47 <= b <= 57 || b == 61 || 65 <= b <= 90 || 97 <= b <= 122 }

  /** The accept key of section 1.3 of RFC 6455 is one. */
  lemma SampleKey()
    ensures IsKey(AsciiBytes("s3pPLMBiTxaQ9kYGzzhZRbK+xOo="))
  {
  }

  function Header(acceptKey: seq<byte>): seq<byte> { StatusLine() + HeaderRest(acceptKey) }

  const WORDS_AT := 9

  lemma StatusLineBytes(j: nat)
    requires j < |StatusLine()|
    ensures |StatusLine()| == 34 && StatusLine()[j] != BRACKET
    ensures StatusLine()[j] == 48 ==> j == 10
  {
    assert forall i :: 0 <= i < 9 ==> AsciiBytes("HTTP/1.1 ")[i] != 48 && AsciiBytes("HTTP/1.1 ")[i] != BRACKET;
    assert forall i :: 0 <= i < 23 ==> WORDS[i] != BRACKET && (WORDS[i] == 48 ==> i == 1);
  }

  /** Neither a zero nor a bracket. */
  predicate Plain(b: seq<byte>) { forall i :: 0 <= i < |b| ==> b[i] != 48 && b[i] != BRACKET }

  lemma UpgradePlain()
    ensures Plain(AsciiBytes("Upgrade: websocket")) && Plain(AsciiBytes("Connection: Upgrade"))
  {
  }

  lemma AcceptPlain()
    ensures Plain(AsciiBytes("Sec-WebSocket-Accept: ")) && Plain(CRLF)
  {
  }

  lemma PlainJoined(a: seq<byte>, b: seq<byte>)
    requires Plain(a) && Plain(b)
    ensures Plain(a + b)
  {
  }

  lemma HeaderFieldsBytes(j: nat)
    requires j < |HeaderFields()|
    ensures |HeaderFields()| == 63 && HeaderFields()[j] != 48 && HeaderFields()[j] != BRACKET
  {
    var a, b := AsciiBytes("Upgrade: websocket"), AsciiBytes("Connection: Upgrade");
    var c := AsciiBytes("Sec-WebSocket-Accept: ");
    UpgradePlain();
    AcceptPlain();
    PlainJoined(a, CRLF);
    PlainJoined(a + CRLF, b);
    PlainJoined(a + CRLF + b, CRLF);
    PlainJoined(a + CRLF + b + CRLF, c);
  }

  /** The header's bytes: no bracket; a zero only in the status or the key; and no blank from the key on. */
  lemma HeaderBytes(acceptKey: seq<byte>, j: nat)
    requires IsKey(acceptKey) && j < |Header(acceptKey)|
    ensures |Header(acceptKey)| == 129 && Header(acceptKey)[j] != BRACKET
    ensures Header(acceptKey)[j] == 48 ==> j == 10 || j >= 97
    ensures j >= 97 ==> Header(acceptKey)[j] != 32
  {
    StatusLineBytes(0);
    HeaderFieldsBytes(0);
    if j < 34 {
      StatusLineBytes(j);
      assert Header(acceptKey)[j] == StatusLine()[j];
    } else if j < 97 {
      HeaderFieldsBytes(j - 34);
      assert Header(acceptKey)[j] == HeaderFields()[j - 34];
    } else if j < 125 {
      assert Header(acceptKey)[j] == acceptKey[j - 97];
    } else {
      assert Header(acceptKey)[j] == (CRLF + CRLF)[j - 125];
    }
  }

  lemma WordsThere(acceptKey: seq<byte>)
    ensures |Header(acceptKey)| >= 32 && Header(acceptKey)[9..32] == WORDS
  {
    assert StatusLine()[9..32] == WORDS;
  }

  lemma WordsBytes()
    ensures |WORDS| == 23 && WORDS[1] == 48 && WORDS[3] == 32
  {
  }

  lemma HeldBytes(b: seq<byte>, i: int)
    requires HoldsAt(b, WORDS, i)
    ensures |WORDS| == 23 && 0 <= i <= |b| - 23 && b[i + 1] == 48 && b[i + 3] == 32
  {
    WordsBytes();
    assert b[i..i + |WORDS|][1] == b[i + 1] && b[i..i + |WORDS|][3] == b[i + 3];
  }

  /** The words are in the header once, behind the name of the protocol. */
  lemma WordsOnce(acceptKey: seq<byte>, i: int)
    requires IsKey(acceptKey)
    ensures HoldsAt(Header(acceptKey), WORDS, i) <==> i == WORDS_AT
  {
    WordsBytes();
    WordsThere(acceptKey);
    if HoldsAt(Header(acceptKey), WORDS, i) {
      HeldBytes(Header(acceptKey), i);
      HeaderBytes(acceptKey, i + 1);
      HeaderBytes(acceptKey, i + 3);
    }
  }

  /** A chunk ends after `p` bytes. */
  ghost predicate CutAt(chunks: seq<seq<byte>>, p: nat) { exists i :: EndsAt(chunks, i, p) }

  ghost predicate EndsAt(chunks: seq<seq<byte>>, i: int, p: nat) {
    0 <= i <= |chunks| && |Concat(chunks[..i])| == p
  }

  lemma {:induction false} EndsGrow(chunks: seq<seq<byte>>, i: nat, j: nat)
    requires i <= j <= |chunks|
    ensures |Concat(chunks[..i])| <= |Concat(chunks[..j])| <= |Concat(chunks)|
  {
    ConcatSplit(chunks[..j], i);
    assert chunks[..j][..i] == chunks[..i];
    ConcatSplit(chunks, j);
  }

  /** Where a chunk lies in the stream. */
  lemma {:induction false} ChunkAt(chunks: seq<seq<byte>>, k: nat)
    requires k < |chunks|
    ensures var a := |Concat(chunks[..k])|;
            && |Concat(chunks[..k + 1])| == a + |chunks[k]| <= |Concat(chunks)|
            && Concat(chunks)[a..a + |chunks[k]|] == chunks[k]
  {
    var a := Concat(chunks[..k]);
    assert chunks[..k + 1][..k] == chunks[..k];
    ConcatSplit(chunks, k + 1);
    InTheMiddle(a, chunks[k], Concat(chunks[k + 1..]));
  }

  lemma InTheMiddle(a: seq<byte>, b: seq<byte>, c: seq<byte>)
    ensures (a + b + c)[|a|..|a| + |b|] == b
  {
  }

  lemma PlaceWords(head: seq<byte>, frame: seq<byte>, chunk: seq<byte>, a: nat, r: int)
    requires a + |chunk| <= |head| && (head + frame)[a..a + |chunk|] == chunk
    ensures HoldsAt(chunk, WORDS, r) ==> HoldsAt(head, WORDS, a + r)
    ensures 0 <= r && HoldsAt(head, WORDS, a + r) && r + |WORDS| <= |chunk| ==> HoldsAt(chunk, WORDS, r)
  {
    assert head[a..a + |chunk|] == chunk;
    if 0 <= r && r + |WORDS| <= |chunk| {
      SliceOfSlice(head, a, a + |chunk|, r, |WORDS|);
    }
  }

  lemma SliceOfSlice(s: seq<byte>, a: nat, b: nat, r: nat, n: nat)
    requires a <= b <= |s| && r + n <= b - a
    ensures s[a..b][r..r + n] == s[a + r..a + r + n]
  {
    var left, right := s[a..b][r..r + n], s[a + r..a + r + n];
    assert forall i :: 0 <= i < n ==> left[i] == right[i];
  }

  /** A chunk that holds the words and ends within the header begins at them or before. */
  lemma {:induction false} GreetingChunk(chunks: seq<seq<byte>>, head: seq<byte>, frame: seq<byte>, at: nat, k: nat)
    requires Concat(chunks) == head + frame && k < |chunks| && |Concat(chunks[..k + 1])| <= |head|
    requires forall i :: HoldsAt(head, WORDS, i) ==> i == at
    requires EndsHandshake(chunks[k])
    ensures |Concat(chunks[..k])| <= at && at + |WORDS| <= |Concat(chunks[..k + 1])|
  {
    ChunkAt(chunks, k);
    var r :| 0 <= r <= |chunks[k]| - |WORDS| && HoldsAt(chunks[k], WORDS, r);
    PlaceWords(head, frame, chunks[k], |Concat(chunks[..k])|, r);
  }

  /** The first chunk that ends at `p`. */
  lemma {:induction false} FirstEnd(chunks: seq<seq<byte>>, p: nat, last: nat) returns (i: nat)
    requires p > 0 && EndsAt(chunks, last, p)
    ensures 0 < i <= last && EndsAt(chunks, i, p) && |Concat(chunks[..i - 1])| < p
  {
    NothingYet(chunks);
    EndsGrow(chunks, last - 1, last);
    if |Concat(chunks[..last - 1])| == p {
      i := FirstEnd(chunks, p, last - 1);
    } else {
      i := last;
    }
  }

  lemma {:induction false} NothingYet(chunks: seq<seq<byte>>)
    ensures |Concat(chunks[..0])| == 0
  {
    assert chunks[..0] == [];
  }

  /** The first chunk with the words ends with the header exactly when there is a cut at the end of the header
      and none between the beginning of the words and it. */
  lemma {:induction false} CutsExact(chunks: seq<seq<byte>>, head: seq<byte>, frame: seq<byte>, at: nat)
    requires Concat(chunks) == head + frame
    requires forall i :: HoldsAt(head, WORDS, i) <==> i == at
    ensures var k := First(chunks, EndsHandshake);
            k < |chunks| && |Concat(chunks[..k + 1])| == |head|
            <==> CutAt(chunks, |head|) && forall p :: at < p < |head| ==> !CutAt(chunks, p)
  {
    var k := First(chunks, EndsHandshake);
    FirstIs(chunks, EndsHandshake);
    if k < |chunks| && |Concat(chunks[..k + 1])| == |head| {
      GreetingChunk(chunks, head, frame, at, k);
      NoCutBetween(chunks, k, at, |head|);
    }
    if CutAt(chunks, |head|) && forall p :: at < p < |head| ==> !CutAt(chunks, p) {
      CutsSuffice(chunks, head, frame, at);
    }
  }

  lemma {:induction false} NoCutBetween(chunks: seq<seq<byte>>, k: nat, at: nat, end: nat)
    requires k < |chunks| && |Concat(chunks[..k])| <= at && |Concat(chunks[..k + 1])| == end
    ensures CutAt(chunks, end) && forall p :: at < p < end ==> !CutAt(chunks, p)
  {
    assert EndsAt(chunks, k + 1, end);
    forall p, i | at < p < end ensures !EndsAt(chunks, i, p) {
      if 0 <= i <= k { EndsGrow(chunks, i, k); } else if k < i <= |chunks| { EndsGrow(chunks, k + 1, i); }
    }
  }

  lemma {:induction false} WordsInChunk(chunks: seq<seq<byte>>, head: seq<byte>, frame: seq<byte>, at: nat, c: nat)
    requires Concat(chunks) == head + frame && HoldsAt(head, WORDS, at)
    requires c < |chunks| && |Concat(chunks[..c])| <= at && |Concat(chunks[..c + 1])| == |head|
    ensures EndsHandshake(chunks[c])
  {
    var a := |Concat(chunks[..c])|;
    ChunkAt(chunks, c);
    PlaceWords(head, frame, chunks[c], a, at - a);
    assert HoldsAt(chunks[c], WORDS, at - a);
  }

  lemma {:induction false} CutsSuffice(chunks: seq<seq<byte>>, head: seq<byte>, frame: seq<byte>, at: nat)
    requires Concat(chunks) == head + frame
    requires forall i :: HoldsAt(head, WORDS, i) <==> i == at
    requires CutAt(chunks, |head|) && forall p :: at < p < |head| ==> !CutAt(chunks, p)
    ensures var k := First(chunks, EndsHandshake); k < |chunks| && |Concat(chunks[..k + 1])| == |head|
  {
    var last :| EndsAt(chunks, last, |head|);
    assert HoldsAt(head, WORDS, at);
    var end := FirstEnd(chunks, |head|, last);
    var c := end - 1;
    var a := |Concat(chunks[..c])|;
    assert EndsAt(chunks, c, a) && CutAt(chunks, a);
    WordsInChunk(chunks, head, frame, at, c);
    FirstIs(chunks, EndsHandshake);
    var k := First(chunks, EndsHandshake);
    if k < c {
      EndsGrow(chunks, k + 1, c);
      GreetingChunk(chunks, head, frame, at, k);
    }
  }

  /** Round trip over the proxy, for the header that the backend sends: the answer to the greeting is shown exactly
      when the stream is cut at the end of the header, and nowhere between the beginning of the status words
      and it. */
  lemma {:induction false} ProxyByCuts(greeting: seq<byte>, mask: seq<byte>, prefix: seq<byte>, acceptKey: seq<byte>,
                    chunks: seq<seq<byte>>)
    requires |mask| == 4 && |prefix + greeting| <= 125 && IsKey(acceptKey)
    requires prefix != [] && prefix[0] == BRACKET
    requires var answer := BackendAnswer(ClientFrame(greeting, mask), prefix);
             answer.Some? && Concat(chunks) == Header(acceptKey) + answer.value
    ensures var end := |Header(acceptKey)|;
            After(chunks).shown == Some(prefix + greeting)
            <==> CutAt(chunks, end) && forall p :: WORDS_AT < p < end ==> !CutAt(chunks, p)
  {
    var head := Header(acceptKey);
    forall j: nat | j < |head| ensures head[j] != BRACKET {
      HeaderBytes(acceptKey, j);
    }
    forall i ensures HoldsAt(head, WORDS, i) <==> i == WORDS_AT {
      WordsOnce(acceptKey, i);
    }
    ProxyRoundTrip(greeting, mask, prefix, head, chunks);
    CutsExact(chunks, head, BackendAnswer(ClientFrame(greeting, mask), prefix).value, WORDS_AT);
  }
}
