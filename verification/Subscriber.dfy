/** The subscriber program: what it prints for the text the broker wrote to it. */
module Subscriber {
  import opened JsText
  import opened Framing
  import opened PubSubText

  /** One message fanned out by the broker. */
  datatype Delivery = Delivery(topic: Topic, message: Text)

  /** One printed line, as its topic and message. */
  datatype Printed = Printed(topic: Text, message: Text)

  /** A template literal prints a missing topic as a word. */
  function Word(topic: Topic): Text { if topic.Some? then topic.value else UNDEFINED }

  function MsgBody(d: Delivery): Text { MSG + [SPACE] + Word(d.topic) + [SPACE] + d.message }

  /** The text the broker writes for a list of deliveries. */
  function Wire(ds: seq<Delivery>): Text {
    if ds == [] then []
    else
      var m := |ds| - 1;
      Wire(ds[..m]) + (MsgBody(ds[m]) + NL)
  }

  /** The broker's line, in letters, and which lines the subscriber prints. */
  lemma MsgLine(d: Delivery, line: Text)
    ensures MsgBody(d)
            == Ascii("MSG ") + (if d.topic.Some? then d.topic.value else Ascii("undefined")) + Ascii(" ") + d.message
    ensures PrintOf(line) != [] <==> Ascii("MSG ") <= line
  {
    Keywords();
    assert Ascii("MSG ") == MSG + [SPACE] && Ascii(" ") == [SPACE];
  }

  /** What is printed for a line of words. */
  lemma {:induction false} PrintedWords(words: seq<Text>)
    requires |words| >= 2 && forall w :: w in words ==> SPACE !in w
    ensures PrintOf(Join(words, SPACE))
            == if words[0] == Ascii("MSG") then [Printed(words[1], Join(words[2..], SPACE))] else []
  {
    Keywords();
    SplitJoin(words, SPACE);
    JoinStarts(words[0], Join(words[1..], SPACE));
  }

  lemma JoinStarts(first: Text, rest: Text)
    requires SPACE !in first
    ensures IsMsg(first + [SPACE] + rest) <==> first == MSG
  {
    var line := first + [SPACE] + rest;
    if |first| != 3 {
      var i := if |first| < 3 then |first| else 3;
      assert |line| >= 4 ==> line[..4][i] == line[i] && (MSG + [SPACE])[i] != line[i];
    } else {
      assert |line| >= 4 && line[..4] == first + [SPACE];
      assert first == (first + [SPACE])[..3] && MSG == (MSG + [SPACE])[..3];
    }
  }

  predicate WellFormed(d: Delivery) {
    SPACE !in Word(d.topic) && NEWLINE !in Word(d.topic) && NEWLINE !in d.message
  }

  /** `line.startsWith("MSG ")`. */
  predicate IsMsg(line: Text) { |line| >= 4 && line[..4] == MSG + [SPACE] }

  /** What is printed for one framed line. */
  function PrintOf(line: Text): seq<Printed> {
    if IsMsg(line) then
      var parts := Split(line, SPACE);
      [Printed(if |parts| > 1 then parts[1] else UNDEFINED,
               Join(if |parts| > 2 then parts[2..] else [], SPACE))]
    else []
  }

  function Shown(lines: seq<Text>): seq<Printed> { Collect(lines, PrintOf) }

  /** What a reader of the deliveries ought to see. */
  function Faithful(ds: seq<Delivery>): seq<Printed> {
    seq(|ds|, i requires 0 <= i < |ds| => Printed(Word(ds[i].topic), ds[i].message))
  }

  lemma MsgPrinted(d: Delivery)
    requires WellFormed(d)
    ensures PrintOf(MsgBody(d)) == [Printed(Word(d.topic), d.message)]
    ensures NEWLINE !in MsgBody(d)
  {
    SplitTwo(MSG, Word(d.topic), d.message);
    JoinSplit(d.message, SPACE);
    MsgStarts(d);
  }

  lemma MsgStarts(d: Delivery)
    requires WellFormed(d)
    ensures IsMsg(MsgBody(d)) && NEWLINE !in MsgBody(d)
  {
    assert MsgBody(d)[..4] == MSG + [SPACE];
  }

  /** The whole wire text frames into its messages and nothing else. */
  lemma {:induction false} WireShown(ds: seq<Delivery>)
    requires forall i :: 0 <= i < |ds| ==> WellFormed(ds[i])
    ensures Shown(Frames(Wire(ds), NL)) == Faithful(ds) && Rest(Wire(ds), NL) == []
  {
    if ds == [] {
      assert Frames([], NL) == [];
    } else {
      var m := |ds| - 1;
      WireShown(ds[..m]);
      MsgPrinted(ds[m]);
      FrameSnoc(Wire(ds[..m]), MsgBody(ds[m]));
      CollectAppend(Frames(Wire(ds[..m]), NL), [MsgBody(ds[m])], PrintOf);
      CollectOne(MsgBody(ds[m]), PrintOf);
      FaithfulSnoc(ds);
    }
  }

  lemma {:induction false} FrameSnoc(text: Text, body: Text)
    requires Rest(text, NL) == [] && NEWLINE !in body
    ensures Frames(text + (body + NL), NL) == Frames(text, NL) + [body]
    ensures Rest(text + (body + NL), NL) == []
  {
    FramesAppend(text, body + NL, NL);
    assert [] + (body + NL) == body + NL;
    OneFrame(body);
    BodyRest(body);
  }

  lemma FaithfulSnoc(ds: seq<Delivery>)
    requires ds != []
    ensures var m := |ds| - 1;
            Faithful(ds) == Faithful(ds[..m]) + [Printed(Word(ds[m].topic), ds[m].message)]
  {
  }

  lemma {:induction false} BodyRest(body: Text)
    requires NEWLINE !in body
    ensures Rest(body + NL, NL) == []
  {
    CleanUnit(body, NEWLINE);
    CleanFirst(body, [], NL);
    assert body + NL + [] == body + NL;
  }

  /** Whatever part of the broker's text has arrived, the subscriber has printed a first part of the
      deliveries, each as it was published; all of them once all of the text has arrived. */
  lemma {:induction false} PrintsDeliveries(ds: seq<Delivery>, received: Text)
    requires forall i :: 0 <= i < |ds| ==> WellFormed(ds[i])
    requires received <= Wire(ds)
    ensures Shown(Frames(received, NL)) <= Faithful(ds)
    ensures received == Wire(ds) ==> Shown(Frames(received, NL)) == Faithful(ds)
  {
    var rest := Wire(ds)[|received|..];
    assert Wire(ds) == received + rest;
    WireShown(ds);
    CollectData(received, rest, NL, PrintOf);
  }

  class Reader {
    var buffer: Text
    var printed: seq<Printed>
    ghost var received: Text

    /** The state depends on the text received only, not on how it was cut into chunks. */
    ghost predicate Valid()
      reads this
    {
      buffer == Rest(received, NL) && printed == Shown(Frames(received, NL))
    }

    constructor ()
      ensures Valid() && received == []
    {
      buffer, printed, received := [], [], [];
      new;
      assert Frames([], NL) == [];
    }

    method OnData(chunk: Text)
      requires Valid()
      modifies this
      ensures Valid() && received == old(received) + chunk
      ensures buffer == Rest(received, NL) && printed == Shown(Frames(received, NL))
    {
      CollectData(received, chunk, NL, PrintOf);
      buffer := buffer + chunk;
      received := received + chunk;
      var newlineIndex := IndexOf(buffer, NL);
      while newlineIndex != -1
        invariant newlineIndex == IndexOf(buffer, NL)
        invariant Rest(received, NL) == Rest(buffer, NL)
        invariant Shown(Frames(received, NL)) == printed + Shown(Frames(buffer, NL))
        invariant received == old(received) + chunk
        decreases |buffer|
      {
        CollectStep(buffer, NL, newlineIndex, PrintOf, printed);
        var line := buffer[..newlineIndex];
        buffer := buffer[newlineIndex + 1..];
        newlineIndex := IndexOf(buffer, NL);
        if IsMsg(line) {
          var parts := Split(line, SPACE);
          var rest := if |parts| > 2 then parts[2..] else [];
          printed := printed + [Printed(if |parts| > 1 then parts[1] else UNDEFINED, Join(rest, SPACE))];
        } else {
          assert printed + PrintOf(line) == printed;
        }
      }
      assert Shown(Frames(buffer, NL)) == [];
    }
  }
}
