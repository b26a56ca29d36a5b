/** The text protocol of the pub/sub demo: the lines of publisher and subscriber, the broker's reading of a
    line, its `MSG` lines, and the subscriber's reading of those. */
module PubSubText {
  import opened JsText
  import opened Framing
  import opened Options

  const SUBSCRIBE: Text := [83, 85, 66, 83, 67, 82, 73, 66, 69]
  const PUBLISH: Text := [80, 85, 66, 76, 73, 83, 72]
  const MSG: Text := [77, 83, 71]
  const UNDEFINED: Text := [117, 110, 100, 101, 102, 105, 110, 101, 100]

  lemma Keywords()
    ensures SUBSCRIBE == Ascii("SUBSCRIBE") && PUBLISH == Ascii("PUBLISH") && MSG == Ascii("MSG")
    ensures UNDEFINED == Ascii("undefined")
  {
  }

  /** A topic is undefined when the line has no second word. */
  type Topic = Option<Text>

  datatype Command = Subscribe(topic: Topic) | Publish(topic: Topic, message: Text) | Ignored

  /** What the broker does with a framed line. */
  function ParseLine(raw: Text): Command {
    var line := Trim(raw);
    if line == [] then Ignored
    else
      var parts := Split(line, SPACE);
      var topic := if |parts| > 1 then Some(parts[1]) else None;
      var rest := if |parts| > 2 then parts[2..] else [];
      if parts[0] == SUBSCRIBE then Subscribe(topic)
      else if parts[0] == PUBLISH then Publish(topic, Join(rest, SPACE))
      else Ignored
  }

  /** The command in a framed line, unless it is none. */
  function CommandOf(raw: Text): seq<Command> { if ParseLine(raw).Ignored? then [] else [ParseLine(raw)] }

  function Commands(lines: seq<Text>): seq<Command> { Collect(lines, CommandOf) }

  function PublishBody(topic: Text, message: Text): Text { PUBLISH + [SPACE] + topic + [SPACE] + message }

  /** The publisher's command line: a topic and at least one word, joined by blanks; otherwise it exits. */
  function PublisherLine(args: seq<Text>): Option<Text> {
    if args == [] || args[0] == [] || |args| == 1 then None
    else Some(PublishBody(args[0], Join(args[1..], SPACE)) + NL)
  }

  function SubscribeBody(topic: Text): Text { SUBSCRIBE + [SPACE] + topic }

  /** The topics and messages that survive the broker's line reading. */
  predicate Deliverable(topic: Text, message: Text) {
    && SPACE !in topic && NEWLINE !in topic && NEWLINE !in message
    && var tail := if message != [] then message else topic;
       tail != [] && !IsSpace(tail[|tail| - 1])
  }

  lemma {:induction false} PublishWords(args: seq<Text>)
    requires |args| >= 2
    ensures PublishBody(args[0], Join(args[1..], SPACE)) == PUBLISH + [SPACE] + Join(args, SPACE)
  {
    Nested(PUBLISH, args[0], Join(args[1..], SPACE), SPACE);
  }

  lemma PublishWord()
    ensures Ascii("PUBLISH ") == PUBLISH + [SPACE] && Ascii("SUBSCRIBE ") == SUBSCRIBE + [SPACE]
  {
  }

  /** What the programs send: the subscriber its topic; the publisher its arguments, if there is a topic and a word,
      and else nothing. */
  lemma {:induction false} SentLines(topic: Text, args: seq<Text>)
    ensures SubscribeBody(topic) == Ascii("SUBSCRIBE ") + topic
    ensures PublisherLine(args)
            == if |args| >= 2 && args[0] != [] then Some(Ascii("PUBLISH ") + Join(args, 32) + [10]) else None
  {
    PublishWord();
    if |args| >= 2 && args[0] != [] { PublishWords(args); }
  }

  /** What the broker makes of a line of words, by its first one; white space around the line does not count. */
  lemma {:induction false} LineOfWords(lead: Text, words: seq<Text>, trail: Text)
    requires words != [] && forall w :: w in words ==> SPACE !in w
    requires Blank(lead) && Blank(trail) && Tight(Join(words, SPACE))
    ensures var topic := if |words| == 1 then None else Some(words[1]);
            ParseLine(lead + Join(words, SPACE) + trail)
            == if words[0] == Ascii("SUBSCRIBE") then Subscribe(topic)
               else if words[0] == Ascii("PUBLISH") then
                 Publish(topic, if |words| == 1 then [] else Join(words[2..], SPACE))
               else Ignored
  {
    TrimPadded(lead, Join(words, SPACE), trail);
    SplitJoin(words, SPACE);
    Keywords();
  }

  /** And of a blank line. */
  lemma BlankLine(line: Text)
    requires Blank(line)
    ensures ParseLine(line) == Ignored
  {
    TrimPadded(line, [], []);
    assert line + [] + [] == line;
  }

  lemma {:induction false} TrimStartSuffix(s: Text)
    ensures |TrimStart(s)| <= |s| && TrimStart(s) == s[|s| - |TrimStart(s)|..]
    ensures TrimStart(s) != [] ==> !IsSpace(TrimStart(s)[0])
  {
    if s == [] || !IsSpace(s[0]) {
    } else {
      TrimStartSuffix(s[1..]);
    }
  }

  /** Trimming keeps a stretch of the text, with no white space at its end. */
  lemma TrimSublist(s: Text)
    ensures forall c :: c in Trim(s) ==> c in s
    ensures Trim(s) != [] ==> !IsSpace(Trim(s)[|Trim(s)| - 1])
  {
    TrimStartSuffix(s);
    TrimEndIsPrefix(TrimStart(s));
    var m := TrimStart(s);
    forall c | c in Trim(s) ensures c in s {
      assert c in m;
    }
  }

  lemma {:induction false} JoinFree(parts: seq<Text>, c: CodeUnit, d: CodeUnit)
    requires d != c && forall p :: p in parts ==> d !in p
    ensures d !in Join(parts, c)
  {
    if |parts| <= 1 {
    } else {
      JoinFree(parts[1..], c, d);
    }
  }

  /** Only deliverable topics and messages are ever published. */
  lemma ParsedDeliverable(raw: Text)
    requires NEWLINE !in raw
    ensures var p := ParseLine(raw);
            p.Publish? && p.topic.Some? ==> Deliverable(p.topic.value, p.message)
    ensures var p := ParseLine(raw);
            p.Publish? ==> (p.topic.None? ==> p.message == []) && NEWLINE !in p.message
    ensures var p := ParseLine(raw);
            p.Subscribe? && p.topic.Some? ==> SPACE !in p.topic.value && NEWLINE !in p.topic.value
  {
    var line := Trim(raw);
    TrimSublist(raw);
    if line != [] {
      var parts := Split(line, SPACE);
      JoinSplit(line, SPACE);
      SplitFree(line, SPACE, NEWLINE);
      if |parts| > 1 {
        assert parts[1] in parts;
        if |parts| > 2 {
          JoinFree(parts[2..], SPACE, NEWLINE);
          JoinThree(parts);
        }
      }
    }
  }

  /** The tail of a joined line. */
  lemma {:induction false} JoinThree(parts: seq<Text>)
    requires |parts| > 2
    ensures Join(parts, SPACE) == parts[0] + [SPACE] + (parts[1] + [SPACE] + Join(parts[2..], SPACE))
  {
    assert parts[1..][1..] == parts[2..];
  }

  /** The broker reads back what the publisher wrote exactly when it is deliverable. */
  lemma PublishExact(topic: Text, message: Text)
    ensures Commands(Frames(PublishBody(topic, message) + NL, NL)) == [Publish(Some(topic), message)]
            <==> Deliverable(topic, message)
  {
    var body := PublishBody(topic, message);
    if Deliverable(topic, message) {
      assert NEWLINE !in body;
      OneFrame(body);
      PublishParsed(topic, message);
    } else {
      var cs := Commands(Frames(body + NL, NL));
      FramesFree(body + NL, NEWLINE);
      CommandsDeliverable(Frames(body + NL, NL));
      assert cs != [] ==> cs[0] in cs;
    }
  }

  lemma {:induction false} OneFrame(body: Text)
    requires NEWLINE !in body
    ensures Frames(body + NL, NL) == [body]
    ensures Commands(Frames(body + NL, NL)) == CommandOf(body)
  {
    CleanUnit(body, NEWLINE);
    CleanFirst(body, [], NL);
    assert body + NL + [] == body + NL;
    assert Frames([], NL) == [];
    CollectOne(body, CommandOf);
  }

  /** Every command read from newline-free lines is one that a single such line gives. */
  lemma {:induction false} CommandsDeliverable(lines: seq<Text>)
    requires forall l :: l in lines ==> NEWLINE !in l
    ensures forall c :: c in Commands(lines) && c.Publish? ==>
              NEWLINE !in c.message
              && (c.topic.None? ==> c.message == [])
              && (c.topic.Some? ==> Deliverable(c.topic.value, c.message))
  {
    if lines == [] {
    } else {
      ParsedDeliverable(lines[0]);
      CommandsDeliverable(lines[1..]);
    }
  }

  lemma PublishParsed(topic: Text, message: Text)
    requires Deliverable(topic, message)
    ensures ParseLine(PublishBody(topic, message)) == Publish(Some(topic), message)
  {
    if message != [] {
      PublishSplit(topic, message);
      JoinSplit(message, SPACE);
    } else {
      PublishEmpty(topic);
    }
  }

  lemma {:induction false} PublishSplit(topic: Text, message: Text)
    requires Deliverable(topic, message) && message != []
    ensures var body := PublishBody(topic, message);
            var parts := Split(body, SPACE);
            && Trim(body) == body && body != []
            && |parts| > 2 && parts[0] == PUBLISH && parts[1] == topic && parts[2..] == Split(message, SPACE)
  {
    TrimKeepsTight(PublishBody(topic, message));
    SplitTwo(PUBLISH, topic, message);
  }

  lemma {:induction false} SplitTwo(a: Text, b: Text, rest: Text)
    requires SPACE !in a && SPACE !in b
    ensures var parts := Split(a + [SPACE] + b + [SPACE] + rest, SPACE);
            |parts| > 2 && parts[0] == a && parts[1] == b && parts[2..] == Split(rest, SPACE)
  {
    SplitHead(b, rest, SPACE);
    SplitHead(a, b + [SPACE] + rest, SPACE);
    Nested(a, b, rest, SPACE);
    assert [a] + ([b] + Split(rest, SPACE)) == [a, b] + Split(rest, SPACE);
  }

  /** An empty message leaves a trailing blank, which the broker trims away again. */
  lemma PublishEmpty(topic: Text)
    requires Deliverable(topic, [])
    ensures ParseLine(PublishBody(topic, [])) == Publish(Some(topic), [])
  {
    var body, line := PublishBody(topic, []), PUBLISH + [SPACE] + topic;
    assert body[..|body| - 1] == line && body[|body| - 1] == SPACE;
    assert TrimStart(body) == body && TrimEnd(line) == line;
    SplitHead(PUBLISH, topic, SPACE);
    IndexOfUnit(topic, SPACE);
  }

  /** It does happen: a topic with a blank in it is accepted on the command line, and its first word becomes the
      topic and the rest of it part of the message. */
  lemma BlankSplitsTopic(first: Text, second: Text, message: Text)
    requires Deliverable(first, second + [SPACE] + message)
    ensures var topic := first + [SPACE] + second;
            && PublisherLine([topic, message]) == Some(PublishBody(topic, message) + NL)
            && Commands(Frames(PublishBody(topic, message) + NL, NL))
               == [Publish(Some(first), second + [SPACE] + message)]
            && first != topic
  {
    var topic := first + [SPACE] + second;
    assert [topic, message][1..] == [message];
    Nested(PUBLISH, first, second + [SPACE] + message, SPACE);
    assert PublishBody(topic, message) == PublishBody(first, second + [SPACE] + message);
    PublishExact(first, second + [SPACE] + message);
  }

  /** The texts `a`, `b` and `c`. */
  lemma BlankSplitsOneTopic()
    ensures var a: Text, b: Text, c: Text := [97], [98], [99];
            Commands(Frames(PublishBody(a + [SPACE] + b, c) + NL, NL)) == [Publish(Some(a), b + [SPACE] + c)]
  {
    var a: Text, b: Text, c: Text := [97], [98], [99];
    assert Deliverable(a, b + [SPACE] + c);
    BlankSplitsTopic(a, b, c);
  }

  /** A subscription reaches the topic that was asked for exactly when the topic is deliverable. */
  lemma SubscribeExact(topic: Text)
    ensures Commands(Frames(SubscribeBody(topic) + NL, NL)) == [Subscribe(Some(topic))]
            <==> Deliverable(topic, [])
  {
    var body := SubscribeBody(topic);
    if NEWLINE in topic {
      var cs := Commands(Frames(body + NL, NL));
      FramesFree(body + NL, NEWLINE);
      CommandsSubscribe(Frames(body + NL, NL));
      assert cs != [] ==> cs[0] in cs;
    } else {
      OneFrame(body);
      SubscribeParsed(topic);
    }
  }

  lemma {:induction false} CommandsSubscribe(lines: seq<Text>)
    requires forall l :: l in lines ==> NEWLINE !in l
    ensures forall c :: c in Commands(lines) && c.Subscribe? && c.topic.Some? ==>
              SPACE !in c.topic.value && NEWLINE !in c.topic.value
  {
    if lines == [] {
    } else {
      ParsedDeliverable(lines[0]);
      CommandsSubscribe(lines[1..]);
    }
  }

  lemma SubscribeParsed(topic: Text)
    requires NEWLINE !in topic
    ensures ParseLine(SubscribeBody(topic)) == Subscribe(Some(topic)) <==> Deliverable(topic, [])
  {
    var body := SubscribeBody(topic);
    if Deliverable(topic, []) {
      TrimKeepsTight(body);
      SplitHead(SUBSCRIBE, topic, SPACE);
      IndexOfUnit(topic, SPACE);
    } else if ParseLine(body) == Subscribe(Some(topic)) {
      var line := Trim(body);
      TrimSublist(body);
      ParsedDeliverable(body);
      var parts := Split(line, SPACE);
      JoinSplit(line, SPACE);
      TrimLength(body);
      if |parts| > 2 {
        JoinThree(parts);
      }
    }
  }

  lemma TrimLength(s: Text)
    ensures |Trim(s)| <= |s|
  {
    TrimStartSuffix(s);
    TrimEndIsPrefix(TrimStart(s));
  }
}
