/** The word-by-word event stream: the server's frames, cut anywhere on the way, and the client's loop that
    finds the two-character delimiter, strips the field name and stops at the end marker. */
module Sse {
  import opened JsText
  import opened Framing
  import opened Sequences

  const BLANK_LINE: Text := [NEWLINE, NEWLINE]
  const DATA: Text := [100, 97, 116, 97, 58, 32]
  const DONE: Text := [91, 68, 79, 78, 69, 93]

  lemma Literals()
    ensures DATA == Ascii("data: ") && DONE == Ascii("[DONE]")
  {
  }

  /** The server's stream for a list of words. */
  function Stream(words: seq<Text>): Text {
    if words == [] then DATA + DONE + BLANK_LINE else DATA + words[0] + BLANK_LINE + Stream(words[1..])
  }

  /** The stream in letters: a frame for each word, and the end marker. */
  lemma {:induction false} StreamText(words: seq<Text>)
    ensures Stream([]) == Ascii("data: [DONE]\n\n")
    ensures words != [] ==> Stream(words) == Ascii("data: ") + words[0] + Ascii("\n\n") + Stream(words[1..])
  {
    assert Ascii("data: [DONE]\n\n") == DATA + DONE + BLANK_LINE;
    assert Ascii("\n\n") == BLANK_LINE;
    Literals();
  }

  /** `frame.replace(/^data: /, "")`. */
  function Strip(frame: Text): Text {
    if |frame| >= 6 && frame[..6] == DATA then frame[6..] else frame
  }

  /** The field name is taken away once, where it stands first; any other frame is kept as it is. */
  lemma FieldName(w: Text)
    ensures Strip(Ascii("data: ") + w) == w
    ensures !(Ascii("data: ") <= w) ==> Strip(w) == w
  {
    Literals();
    assert (DATA + w)[..6] == DATA && (DATA + w)[6..] == w;
  }

  /** The text a client gathers from its frames, and whether it met the end marker. */
  function Spoken(frames: seq<Text>): Text {
    if frames == [] || Strip(frames[0]) == DONE then []
    else Strip(frames[0]) + [SPACE] + Spoken(frames[1..])
  }

  predicate Ended(frames: seq<Text>) {
    frames != [] && (Strip(frames[0]) == DONE || Ended(frames[1..]))
  }

  function Sentence(words: seq<Text>): Text {
    if words == [] then [] else words[0] + [SPACE] + Sentence(words[1..])
  }

  lemma {:induction false} SpokenAppend(a: seq<Text>, b: seq<Text>)
    ensures Spoken(a + b) == if Ended(a) then Spoken(a) else Spoken(a) + Spoken(b)
    ensures Ended(a + b) <==> Ended(a) || Ended(b)
  {
    if a == [] {
      assert a + b == b;
    } else {
      SpokenAppend(a[1..], b);
      assert (a + b)[0] == a[0] && (a + b)[1..] == a[1..] + b;
      Regroup(Strip(a[0]) + [SPACE], Spoken(a[1..]), Spoken(b));
    }
  }

  /** A word that the framing carries: no blank line in it, no line break at its end, and not the marker. */
  predicate Carried(w: Text) {
    IndexOf(w, BLANK_LINE) == -1 && (w != [] ==> w[|w| - 1] != NEWLINE) && w != DONE
  }

  predicate BreakAt(s: Text, j: int) { 0 <= j && j + 2 <= |s| && s[j] == NEWLINE && s[j + 1] == NEWLINE }

  lemma MatchIsBreak(s: Text, j: int)
    ensures MatchAt(s, BLANK_LINE, j) <==> BreakAt(s, j)
  {
    if 0 <= j && j + 2 <= |s| {
      assert s[j..j + 2] == [s[j], s[j + 1]];
    }
  }

  /** Where a frame holds a blank line before its own: inside the word or across its end. */
  lemma BreakInFrame(w: Text, j: int)
    requires j < |DATA + w|
    ensures BreakAt(DATA + w + BLANK_LINE, j)
            <==> BreakAt(w, j - 6) || (w != [] && j + 1 == |DATA + w| && w[|w| - 1] == NEWLINE)
  {
    var s := DATA + w + BLANK_LINE;
    assert forall k :: 0 <= k < |w| ==> s[k + 6] == w[k];
    assert s[|DATA + w|] == NEWLINE;
  }

  lemma CarriedIsClean(w: Text)
    ensures Clean(DATA + w, BLANK_LINE) <==> IndexOf(w, BLANK_LINE) == -1 && (w != [] ==> w[|w| - 1] != NEWLINE)
  {
    var f := DATA + w;
    var s := f + BLANK_LINE;
    var i, k := IndexOf(s, BLANK_LINE), IndexOf(w, BLANK_LINE);
    assert s[|f|..|f| + 2] == BLANK_LINE;
    assert MatchAt(s, BLANK_LINE, |f|);
    MatchIsBreak(s, i);
    if i < |f| {
      BreakInFrame(w, i);
      MatchIsBreak(w, i - 6);
    }
    if k != -1 {
      MatchIsBreak(w, k);
      BreakInFrame(w, k + 6);
      MatchIsBreak(s, k + 6);
    }
    BreakInFrame(w, |f| - 1);
    MatchIsBreak(s, |f| - 1);
  }

  /** In letters: no two line breaks in a row, none at the end, and not the word "[DONE]". */
  lemma CarriedMeans(w: Text)
    ensures Carried(w)
            <==> (forall j :: 0 <= j < |w| - 1 ==> !(w[j] == 10 && w[j + 1] == 10))
                 && (w != [] ==> w[|w| - 1] != 10) && w != Ascii("[DONE]")
  {
    Literals();
    var i := IndexOf(w, BLANK_LINE);
    MatchIsBreak(w, i);
    forall j | 0 <= j < |w| - 1 ensures MatchAt(w, BLANK_LINE, j) <==> w[j] == 10 && w[j + 1] == 10 {
      MatchIsBreak(w, j);
    }
  }

  lemma NoBreak(w: Text)
    requires NEWLINE !in w
    ensures IndexOf(w, BLANK_LINE) == -1
  {
    var i := IndexOf(w, BLANK_LINE);
    MatchIsBreak(w, i);
  }

  /** The first frame of the stream, when the first word is carried. */
  lemma {:induction false} StreamFirst(w: Text, rest: Text)
    requires Clean(DATA + w, BLANK_LINE)
    ensures Frames(DATA + w + BLANK_LINE + rest, BLANK_LINE) == [DATA + w] + Frames(rest, BLANK_LINE)
    ensures Rest(DATA + w + BLANK_LINE + rest, BLANK_LINE) == Rest(rest, BLANK_LINE)
    ensures Strip(DATA + w) == w
  {
    CleanFirst(DATA + w, rest, BLANK_LINE);
    assert (DATA + w)[..6] == DATA && (DATA + w)[6..] == w;
  }

  lemma StreamEnd()
    ensures Frames(DATA + DONE + BLANK_LINE, BLANK_LINE) == [DATA + DONE]
    ensures Strip(DATA + DONE) == DONE
  {
    NoBreak(DONE);
    CarriedIsClean(DONE);
    StreamFirst(DONE, []);
    assert DATA + DONE + BLANK_LINE + [] == DATA + DONE + BLANK_LINE;
    assert Frames([], BLANK_LINE) == [];
  }

  /** A word that is not carried changes the text where its own first line break stands. */
  lemma {:induction false} BadWord(w: Text, rest: Text, tail: Text)
    requires !Clean(DATA + w, BLANK_LINE)
    ensures Spoken(Frames(DATA + w + BLANK_LINE + rest, BLANK_LINE)) != w + [SPACE] + tail
  {
    var s := DATA + w + BLANK_LINE;
    var i := IndexOf(s, BLANK_LINE);
    assert s[|DATA + w|..] == BLANK_LINE;
    assert MatchAt(s, BLANK_LINE, |DATA + w|);
    assert s[i..i + 2] == BLANK_LINE;
    assert s[i] == s[i..i + 2][0];
    assert 6 <= i < |DATA + w|;
    IndexOfAppend(s, rest, BLANK_LINE);
    FramesStep(s + rest, BLANK_LINE, i);
    var payload := w[..i - 6];
    assert (s + rest)[..i] == DATA + payload;
    assert (DATA + payload)[..6] == DATA && (DATA + payload)[6..] == payload;
    assert w[|payload|] == NEWLINE;
    var spoken := Spoken(Frames(s + rest, BLANK_LINE));
    if payload != DONE {
      assert spoken[|payload|] == SPACE;
    }
    assert (w + [SPACE] + tail)[|payload|] == NEWLINE;
  }

  /** Round trip: the client gathers every word followed by a blank, in order, and stops at the marker,
      exactly when every word is carried. */
  lemma {:induction false} StreamExact(words: seq<Text>)
    ensures Spoken(Frames(Stream(words), BLANK_LINE)) == Sentence(words)
            <==> forall w :: w in words ==> Carried(w)
    ensures (forall w :: w in words ==> Carried(w)) ==> Ended(Frames(Stream(words), BLANK_LINE))
  {
    if words == [] {
      StreamEnd();
    } else {
      var w, rest := words[0], Stream(words[1..]);
      assert words == [w] + words[1..];
      StreamExact(words[1..]);
      CarriedIsClean(w);
      if Clean(DATA + w, BLANK_LINE) {
        SpokenFirst(w, rest);
        SameTail(w + [SPACE], Spoken(Frames(rest, BLANK_LINE)), Sentence(words[1..]));
      } else {
        BadWord(w, rest, Sentence(words[1..]));
        assert w in words && !Carried(w);
      }
    }
  }

  lemma {:induction false} SpokenFirst(w: Text, rest: Text)
    requires Clean(DATA + w, BLANK_LINE)
    ensures var frames, more := Frames(DATA + w + BLANK_LINE + rest, BLANK_LINE), Frames(rest, BLANK_LINE);
            && Spoken(frames) == (if w == DONE then [] else w + [SPACE] + Spoken(more))
            && Ended(frames) == (w == DONE || Ended(more))
  {
    StreamFirst(w, rest);
    var more := Frames(rest, BLANK_LINE);
    assert ([DATA + w] + more)[1..] == more;
  }

  lemma SameTail(a: Text, b: Text, c: Text)
    ensures a + b == a + c <==> b == c
  {
    assert b == (a + b)[|a|..] && c == (a + c)[|a|..];
  }

  /** With carried words, whatever part of the stream has arrived, cut however, the client has gathered a
      first part of the sentence. */
  lemma {:induction false} PartialStream(words: seq<Text>, received: Text)
    requires forall w :: w in words ==> Carried(w)
    requires received <= Stream(words)
    ensures Spoken(Frames(received, BLANK_LINE)) <= Sentence(words)
    ensures received == Stream(words) ==> Spoken(Frames(received, BLANK_LINE)) == Sentence(words)
  {
    var rest := Stream(words)[|received|..];
    assert Stream(words) == received + rest;
    StreamExact(words);
    FramesAppend(received, rest, BLANK_LINE);
    SpokenAppend(Frames(received, BLANK_LINE), Frames(Rest(received, BLANK_LINE) + rest, BLANK_LINE));
  }

  /** The one response that the server streams, in pieces. */
  const RESPONSE_1: Text := Ascii("Server-sent events let a ")
  const RESPONSE_2: Text := Ascii("backend stream a response as ")
  const RESPONSE_3: Text := Ascii("it is generated, instead of ")
  const RESPONSE_4: Text := Ascii("making the client wait for ")
  const RESPONSE_5: Text := Ascii("the entire thing to finish ")
  const RESPONSE_6: Text := Ascii("before seeing anything at all.")

  const RESPONSE: Text := RESPONSE_1 + RESPONSE_2 + RESPONSE_3 + RESPONSE_4 + RESPONSE_5 + RESPONSE_6

  /** No line break, and nothing that the marker begins with. */
  predicate Plain(t: Text) { NEWLINE !in t && DONE[0] !in t }

  lemma FirstHalfPlain()
    ensures Plain(RESPONSE_1) && Plain(RESPONSE_2) && Plain(RESPONSE_3)
  {
  }

  lemma SecondHalfPlain()
    ensures Plain(RESPONSE_4) && Plain(RESPONSE_5) && Plain(RESPONSE_6)
  {
  }

  lemma ResponseCarried(w: Text)
    requires w in Split(RESPONSE, SPACE)
    ensures Carried(w)
  {
    FirstHalfPlain();
    SecondHalfPlain();
    SplitFree(RESPONSE, SPACE, NEWLINE);
    SplitFree(RESPONSE, SPACE, DONE[0]);
    NoBreak(w);
  }

  lemma {:induction false} SentenceJoined(parts: seq<Text>)
    requires parts != []
    ensures Sentence(parts) == Join(parts, SPACE) + [SPACE]
  {
    if |parts| <= 1 {
    } else {
      SentenceJoined(parts[1..]);
    }
  }

  /** So the client's text is the whole response and a blank, for every cut of the stream. */
  lemma {:induction false} ResponseArrives(received: Text)
    requires received <= Stream(Split(RESPONSE, SPACE))
    ensures Spoken(Frames(received, BLANK_LINE)) <= RESPONSE + [SPACE]
    ensures received == Stream(Split(RESPONSE, SPACE)) ==>
              Spoken(Frames(received, BLANK_LINE)) == RESPONSE + [SPACE] && Ended(Frames(received, BLANK_LINE))
  {
    forall w | w in Split(RESPONSE, SPACE) ensures Carried(w) {
      ResponseCarried(w);
    }
    PartialStream(Split(RESPONSE, SPACE), received);
    StreamExact(Split(RESPONSE, SPACE));
    SentenceJoined(Split(RESPONSE, SPACE));
    JoinSplit(RESPONSE, SPACE);
  }

  /** The server: an interval callback that writes one frame a time. */
  class Emitter {
    const words: seq<Text>
    var i: nat
    var running: bool      // the interval has not been cleared
    var written: Text

    /** What is written and what is still to be written make up the stream, until it is cut short. */
    ghost predicate Valid()
      reads this
    {
      && i <= |words|
      && (running ==> written + Stream(words[i..]) == Stream(words))
      && written <= Stream(words)
    }

    constructor (words: seq<Text>)
      ensures Valid() && this.words == words && running && i == 0 && written == []
    {
      this.words := words;
      i, running, written := 0, true, [];
      new;
      assert words[0..] == words && [] + Stream(words) == Stream(words);
    }

    method Tick()
      requires Valid() && running
      modifies this`i, this`running, this`written
      ensures Valid()
      ensures old(i) < |words| ==> written == old(written) + (DATA + words[old(i)] + BLANK_LINE)
      ensures running <==> old(i) < |words|
      ensures running ==> i == old(i) + 1
      ensures !running ==> written == Stream(words)
    {
      if i >= |words| {
        running := false;
        assert words[i..] == [];
        written := written + (DATA + DONE + BLANK_LINE);
        return;
      }
      WrittenStep(words, i, written);
      written := written + (DATA + words[i] + BLANK_LINE);
      i := i + 1;
    }

    /** The request closes: the stream stays a first part of what it would have been. */
    method OnClose()
      requires Valid()
      modifies this`running
      ensures Valid() && !running && written <= Stream(words)
    {
      running := false;
    }
  }

  lemma {:induction false} WrittenStep(words: seq<Text>, i: nat, written: Text)
    requires i < |words| && written + Stream(words[i..]) == Stream(words)
    ensures written + (DATA + words[i] + BLANK_LINE) + Stream(words[i + 1..]) == Stream(words)
    ensures written + (DATA + words[i] + BLANK_LINE) <= Stream(words)
  {
    assert words[i..][1..] == words[i + 1..];
    Regroup(written, DATA + words[i] + BLANK_LINE, Stream(words[i + 1..]));
  }

  /** The client's reading loop. */
  class Client {
    var buffer: Text
    var fullText: Text
    var finished: bool
    ghost var received: Text

    ghost predicate Valid()
      reads this
    {
      && fullText == Spoken(Frames(received, BLANK_LINE))
      && finished == Ended(Frames(received, BLANK_LINE))
      && (!finished ==> buffer == Rest(received, BLANK_LINE))
    }

    constructor ()
      ensures Valid() && received == []
    {
      buffer, fullText, finished, received := [], [], false, [];
      new;
      assert Frames([], BLANK_LINE) == [];
    }

    method OnChunk(chunk: Text)
      requires Valid() && !finished
      modifies this
      ensures Valid() && received == old(received) + chunk
      ensures fullText == Spoken(Frames(received, BLANK_LINE)) && finished == Ended(Frames(received, BLANK_LINE))
    {
      ghost var whole := buffer + chunk;
      FramesAppend(received, chunk, BLANK_LINE);
      SpokenAppend(Frames(received, BLANK_LINE), Frames(whole, BLANK_LINE));
      received := received + chunk;
      buffer := buffer + chunk;
      var boundary := IndexOf(buffer, BLANK_LINE);
      while boundary != -1
        invariant boundary == IndexOf(buffer, BLANK_LINE) && !finished
        invariant received == old(received) + chunk
        invariant Rest(received, BLANK_LINE) == Rest(buffer, BLANK_LINE)
        invariant Spoken(Frames(received, BLANK_LINE)) == fullText + Spoken(Frames(buffer, BLANK_LINE))
        invariant Ended(Frames(received, BLANK_LINE)) == Ended(Frames(buffer, BLANK_LINE))
        decreases |buffer|
      {
        SpokenStep(buffer, boundary, fullText);
        var frame := buffer[..boundary];
        buffer := buffer[boundary + 2..];
        boundary := IndexOf(buffer, BLANK_LINE);
        var payload := Strip(frame);
        if payload == DONE {
          finished := true;
          return;
        }
        fullText := fullText + (payload + [SPACE]);
      }
      assert Spoken(Frames(buffer, BLANK_LINE)) == [];
    }
  }

  /** One round of the loop. */
  lemma {:induction false} SpokenStep(buffer: Text, i: int, done: Text)
    requires i == IndexOf(buffer, BLANK_LINE) != -1
    ensures Rest(buffer, BLANK_LINE) == Rest(buffer[i + 2..], BLANK_LINE)
    ensures var payload, more := Strip(buffer[..i]), Frames(buffer[i + 2..], BLANK_LINE);
            && done + Spoken(Frames(buffer, BLANK_LINE))
               == (if payload == DONE then done else done + (payload + [SPACE]) + Spoken(more))
            && Ended(Frames(buffer, BLANK_LINE)) == (payload == DONE || Ended(more))
  {
    FramesStep(buffer, BLANK_LINE, i);
    var payload, more := Strip(buffer[..i]), Frames(buffer[i + 2..], BLANK_LINE);
    assert ([buffer[..i]] + more)[1..] == more;
    Regroup(done, payload + [SPACE], Spoken(more));
  }
}
