/** Delimiter framing, the loop shared by every text reader of the repository:
    `while ((i = buffer.indexOf(d)) !== -1) { frame = buffer.slice(0, i); buffer = buffer.slice(i + |d|); ... }`.
    The delimiter may be longer than one unit and may be cut by a chunk boundary. */
module Framing {
  import opened JsText
  import opened Sequences

  /** The frames the loop takes out of a buffer, in order. */
  function Frames(s: Text, d: Text): seq<Text>
    requires d != []
    decreases |s|
  {
    var i := IndexOf(s, d);
    if i == -1 then [] else [s[..i]] + Frames(s[i + |d|..], d)
  }

  /** What the loop leaves in the buffer. */
  function Rest(s: Text, d: Text): Text
    requires d != []
    decreases |s|
  {
    var i := IndexOf(s, d);
    if i == -1 then s else Rest(s[i + |d|..], d)
  }

  /** The text a writer sends for a list of frames. */
  function Unframe(fs: seq<Text>, d: Text): Text {
    if fs == [] then [] else fs[0] + d + Unframe(fs[1..], d)
  }

  /** One round of the loop. */
  lemma {:induction false} FramesStep(s: Text, d: Text, i: int)
    requires d != [] && i == IndexOf(s, d) != -1
    ensures Frames(s, d) == [s[..i]] + Frames(s[i + |d|..], d)
    ensures Rest(s, d) == Rest(s[i + |d|..], d)
  {
  }

  lemma CutAt(s: Text, d: Text, i: int)
    requires MatchAt(s, d, i)
    ensures s == s[..i] + d + s[i + |d|..]
  {
  }

  lemma {:induction false} UnframeCons(f: Text, fs: seq<Text>, r: Text, d: Text)
    ensures Unframe([f] + fs, d) + r == f + d + (Unframe(fs, d) + r)
  {
    assert ([f] + fs)[1..] == fs;
  }

  /** The first occurrence of a delimiter stays the first when text is appended. */
  lemma IndexOfAppend(s: Text, t: Text, d: Text)
    requires d != []
    requires IndexOf(s, d) != -1
    ensures IndexOf(s + t, d) == IndexOf(s, d)
  {
    var i := IndexOf(s, d);
    assert (s + t)[i..i + |d|] == s[i..i + |d|];
    assert MatchAt(s + t, d, i);
    var j := IndexOf(s + t, d);
    if j < i {
      assert (s + t)[j..j + |d|] == s[j..j + |d|];
      assert MatchAt(s, d, j);
    }
  }

  /** A text that holds a delimiter, before and after more text is appended: the same first frame. */
  lemma {:induction false} FirstFrame(s: Text, t: Text, d: Text) returns (f: Text, s': Text)
    requires d != [] && IndexOf(s, d) != -1
    ensures |s'| < |s|
    ensures Frames(s, d) == [f] + Frames(s', d) && Rest(s, d) == Rest(s', d)
    ensures Frames(s + t, d) == [f] + Frames(s' + t, d) && Rest(s + t, d) == Rest(s' + t, d)
  {
    var i := IndexOf(s, d);
    f, s' := s[..i], s[i + |d|..];
    FramesStep(s, d, i);
    FirstFrameAppend(s, t, d, i);
  }

  lemma {:induction false} FirstFrameAppend(s: Text, t: Text, d: Text, i: nat)
    requires d != [] && i == IndexOf(s, d)
    ensures Frames(s + t, d) == [s[..i]] + Frames(s[i + |d|..] + t, d)
    ensures Rest(s + t, d) == Rest(s[i + |d|..] + t, d)
  {
    IndexOfAppend(s, t, d);
    FramesStep(s + t, d, i);
    CutBefore(s, t, i, i + |d|);
  }

  lemma CutBefore(s: Text, t: Text, i: nat, j: nat)
    requires i <= j <= |s|
    ensures (s + t)[..i] == s[..i] && (s + t)[j..] == s[j..] + t
  {
  }

  /** One `data` event: framing a buffer and then more text is framing the whole text. */
  lemma {:induction false} FramesAppend(s: Text, t: Text, d: Text)
    requires d != []
    ensures Frames(s + t, d) == Frames(s, d) + Frames(Rest(s, d) + t, d)
    ensures Rest(s + t, d) == Rest(Rest(s, d) + t, d)
    decreases |s|
  {
    if IndexOf(s, d) == -1 {
      assert Frames(s, d) == [] && Rest(s, d) == s;
    } else {
      var f, s' := FirstFrame(s, t, d);
      FramesAppend(s', t, d);
      Regroup([f], Frames(s', d), Frames(Rest(s', d) + t, d));
    }
  }

  /** Nothing is lost: the frames with their delimiters and the leftover are the text received,
      and the leftover holds no delimiter. */
  lemma {:induction false} FramesLossless(s: Text, d: Text)
    requires d != []
    ensures Unframe(Frames(s, d), d) + Rest(s, d) == s
    ensures IndexOf(Rest(s, d), d) == -1
    decreases |s|
  {
    var i := IndexOf(s, d);
    if i == -1 {
    } else {
      var f, s' := s[..i], s[i + |d|..];
      FramesStep(s, d, i);
      CutAt(s, d, i);
      FramesLossless(s', d);
      UnframeCons(f, Frames(s', d), Rest(s', d), d);
    }
  }

  /** A frame that a reader can recover: its delimiter is the first one in `f + d`. */
  predicate Clean(f: Text, d: Text)
    requires d != []
  {
    IndexOf(f + d, d) == |f|
  }

  lemma {:induction false} CleanFirst(f: Text, t: Text, d: Text)
    requires d != [] && Clean(f, d)
    ensures Frames(f + d + t, d) == [f] + Frames(t, d)
    ensures Rest(f + d + t, d) == Rest(t, d)
  {
    var s := f + d + t;
    IndexOfAppend(f + d, t, d);
    assert s == (f + d) + t;
    assert s[..|f|] == f && s[|f| + |d|..] == t;
  }

  /** Framing undoes unframing exactly on clean frames. */
  lemma {:induction false} FramesUnframe(fs: seq<Text>, d: Text)
    requires d != []
    ensures (Frames(Unframe(fs, d), d) == fs && Rest(Unframe(fs, d), d) == [])
            <==> forall f :: f in fs ==> Clean(f, d)
  {
    if fs == [] {
    } else {
      var f, t := fs[0], Unframe(fs[1..], d);
      var s := Unframe(fs, d);
      assert s == f + d + t == (f + d) + t;
      assert (f + d)[|f|..|f| + |d|] == d;
      assert MatchAt(f + d, d, |f|);
      IndexOfAppend(f + d, t, d);
      FramesUnframe(fs[1..], d);
      assert fs == [f] + fs[1..];
      if Clean(f, d) {
        CleanFirst(f, t, d);
        if Frames(s, d) == fs { assert Frames(t, d) == Frames(s, d)[1..] == fs[1..]; }
      } else {
        assert Frames(s, d)[0] == s[..IndexOf(s, d)];
        assert f in fs;
      }
    }
  }

  /** With a one-unit delimiter, clean means that the delimiter does not occur. */
  lemma CleanUnit(f: Text, c: CodeUnit)
    ensures Clean(f, [c]) <==> c !in f
  {
    if c !in f {
      assert (f + [c])[..|f|] == f;
      IndexOfUnitIs(f + [c], c, |f|);
    } else {
      IndexOfUnit(f + [c], c);
      assert (f + [c])[..|f|] == f;
    }
  }

  /** The frames of a one-unit delimiter do not hold it. */
  lemma {:induction false} FramesFree(s: Text, c: CodeUnit)
    ensures forall f :: f in Frames(s, [c]) ==> c !in f
    decreases |s|
  {
    IndexOfUnit(s, c);
    var i := IndexOf(s, [c]);
    if i == -1 {
    } else {
      FramesFree(s[i + 1..], c);
    }
  }

  /** What a reader makes of its frames, in order: each gives some results, or none. */
  function Collect<T>(frames: seq<Text>, f: Text -> seq<T>): seq<T> {
    if frames == [] then [] else f(frames[0]) + Collect(frames[1..], f)
  }

  lemma {:induction false} CollectAppend<T>(a: seq<Text>, b: seq<Text>, f: Text -> seq<T>)
    ensures Collect(a + b, f) == Collect(a, f) + Collect(b, f)
  {
    if a == [] {
      assert a + b == b;
    } else {
      CollectAppend(a[1..], b, f);
      assert (a + b)[1..] == a[1..] + b;
      Regroup(f(a[0]), Collect(a[1..], f), Collect(b, f));
    }
  }

  lemma CollectOne<T>(frame: Text, f: Text -> seq<T>)
    ensures Collect([frame], f) == f(frame)
  {
  }

  /** One round of a reader's loop, after the results `done`. */
  lemma {:induction false} CollectStep<T>(buffer: Text, d: Text, i: int, f: Text -> seq<T>, done: seq<T>)
    requires d != [] && i == IndexOf(buffer, d) != -1
    ensures Rest(buffer, d) == Rest(buffer[i + |d|..], d)
    ensures done + Collect(Frames(buffer, d), f)
            == done + f(buffer[..i]) + Collect(Frames(buffer[i + |d|..], d), f)
  {
    FramesStep(buffer, d, i);
    CollectAppend([buffer[..i]], Frames(buffer[i + |d|..], d), f);
    CollectOne(buffer[..i], f);
    Regroup(done, f(buffer[..i]), Collect(Frames(buffer[i + |d|..], d), f));
  }

  /** One `data` event, for the results. */
  lemma {:induction false} CollectData<T>(received: Text, chunk: Text, d: Text, f: Text -> seq<T>)
    requires d != []
    ensures Rest(received + chunk, d) == Rest(Rest(received, d) + chunk, d)
    ensures Collect(Frames(received + chunk, d), f)
            == Collect(Frames(received, d), f) + Collect(Frames(Rest(received, d) + chunk, d), f)
  {
    FramesAppend(received, chunk, d);
    CollectAppend(Frames(received, d), Frames(Rest(received, d) + chunk, d), f);
  }
}
