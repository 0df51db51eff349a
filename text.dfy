/** The string operations the receiver relies on: `str.split` on one
    separator character, Python's universal-newline translation when a file
    is read in text mode, and iteration over the lines of a text file. */
module Text {
  import opened Common

  /** `s.split(c)` for a one-character separator: the pieces between the
      separators, empty pieces included, so there is always at least one. */
  function SplitOn(s: string, c: char): (parts: seq<string>)
    ensures |parts| >= 1
    ensures forall i :: 0 <= i < |parts| ==> c !in parts[i]
  {
    if s == [] then [""]
    else
      var rest := SplitOn(s[1..], c);
      if s[0] == c then [""] + rest else [[s[0]] + rest[0]] + rest[1..]
  }

  /** `c.join(parts)`. */
  function Join(parts: seq<string>, c: char): (s: string)
    requires |parts| >= 1
  {
    if |parts| == 1 then parts[0] else parts[0] + [c] + Join(parts[1..], c)
  }

  /** Splitting and joining again gives back the string. */
  lemma {:induction false} JoinSplit(s: string, c: char)
    ensures Join(SplitOn(s, c), c) == s
    decreases |s|
  {
    if s != [] {
      var rest := SplitOn(s[1..], c);
      JoinSplit(s[1..], c);
      if s[0] == c {
        assert SplitOn(s, c)[1..] == rest;
      } else {
        var parts := SplitOn(s, c);
        if |rest| == 1 {
          assert parts == [[s[0]] + rest[0]];
        } else {
          assert parts[1..] == rest[1..];
          assert Join(rest, c) == rest[0] + [c] + Join(rest[1..], c);
        }
      }
    }
  }

  /** Splitting a separator-free piece, the separator, and a rest: the piece
      comes out first and the rest is split on its own. */
  lemma {:induction false} SplitAfter(a: string, c: char, b: string)
    requires c !in a
    ensures SplitOn(a + [c] + b, c) == [a] + SplitOn(b, c)
    decreases |a|
  {
    if a == [] {
      assert a + [c] + b == [c] + b;
      assert ([c] + b)[1..] == b;
    } else {
      SplitAfter(a[1..], c, b);
      assert (a + [c] + b)[1..] == a[1..] + [c] + b;
      assert [a[0]] + a[1..] == a;
    }
  }

  /** A separator-free string is a single piece. */
  lemma {:induction false} SplitNone(a: string, c: char)
    requires c !in a
    ensures SplitOn(a, c) == [a]
    decreases |a|
  {
    if a != [] {
      SplitNone(a[1..], c);
      assert [a[0]] + a[1..] == a;
    }
  }

  /** Splitting the join of separator-free pieces gives the pieces back. */
  lemma {:induction false} SplitJoin(parts: seq<string>, c: char)
    requires |parts| >= 1 && forall i :: 0 <= i < |parts| ==> c !in parts[i]
    ensures SplitOn(Join(parts, c), c) == parts
    decreases |parts|
  {
    if |parts| == 1 {
      SplitNone(parts[0], c);
    } else {
      SplitJoin(parts[1..], c);
      SplitAfter(parts[0], c, Join(parts[1..], c));
      assert [parts[0]] + parts[1..] == parts;
    }
  }

  /** `s.split(c)[0]`: the text before the first `c`, or all of `s`. */
  function Head(s: string, c: char): (h: string)
    ensures c !in h
  {
    SplitOn(s, c)[0]
  }

  /** The head is the longest separator-free prefix. */
  lemma {:induction false} HeadIsPrefix(s: string, c: char)
    ensures |Head(s, c)| <= |s| && Head(s, c) == s[..|Head(s, c)|]
    ensures Head(s, c) == s || s[|Head(s, c)|] == c
    decreases |s|
  {
    if s != [] && s[0] != c {
      HeadIsPrefix(s[1..], c);
    }
  }

  /** Universal newlines: reading a file in text mode turns "\r\n" and a
      lone "\r" into "\n". */
  function Translate(s: string): (t: string)
    ensures |t| <= |s|
    ensures '\r' !in t
  {
    if s == [] then []
    else if s[0] == '\r' then
      if |s| > 1 && s[1] == '\n' then "\n" + Translate(s[2..]) else "\n" + Translate(s[1..])
    else [s[0]] + Translate(s[1..])
  }

  /** Text without carriage returns is read back unchanged. */
  lemma {:induction false} TranslateNoReturns(s: string)
    requires '\r' !in s
    ensures Translate(s) == s
    decreases |s|
  {
    if s != [] {
      TranslateNoReturns(s[1..]);
      assert [s[0]] + s[1..] == s;
    }
  }

  /** A line of `line + "\r"` framing reads back as `line + "\n"`, as long as
      the line holds no carriage return and what follows does not start
      with "\n". */
  lemma {:induction false} TranslateFramedLine(line: string, rest: string)
    requires '\r' !in line
    requires rest == [] || rest[0] != '\n'
    ensures Translate(line + "\r" + rest) == line + "\n" + Translate(rest)
    decreases |line|
  {
    if line == [] {
      assert line + "\r" + rest == "\r" + rest;
      assert ("\r" + rest)[1..] == rest;
    } else {
      TranslateFramedLine(line[1..], rest);
      assert (line + "\r" + rest)[1..] == line[1..] + "\r" + rest;
      assert [line[0]] + line[1..] == line;
    }
  }

  /** The lines a text-mode file iterator yields for the (translated) text
      `t`: each line keeps its "\n"; the last line has none when the text
      does not end in "\n". */
  function Lines(t: string): (lines: seq<string>)
  {
    var parts := SplitOn(t, '\n');
    var full := seq(|parts| - 1, i requires 0 <= i < |parts| - 1 => parts[i] + "\n");
    var last := parts[|parts| - 1];
    if last == "" then full else full + [last]
  }

  /** The lines are non-empty and hold at most one "\n", at their end;
      only the last line may lack it. */
  lemma {:induction false} LinesShape(t: string)
    ensures forall i :: 0 <= i < |Lines(t)| ==> Lines(t)[i] != ""
    ensures forall i :: 0 <= i < |Lines(t)| ==> '\n' !in Lines(t)[i][..|Lines(t)[i]| - 1]
    ensures forall i :: 0 <= i < |Lines(t)| - 1 ==> Lines(t)[i][|Lines(t)[i]| - 1] == '\n'
  {
    var parts := SplitOn(t, '\n');
    var lines := Lines(t);
    forall i | 0 <= i < |lines| ensures '\n' !in lines[i][..|lines[i]| - 1] {
      if i < |parts| - 1 {
        assert lines[i][..|lines[i]| - 1] == parts[i];
      } else {
        assert lines[i] == parts[i];
      }
    }
  }

  /** Together the lines make up the text. */
  lemma {:induction false} LinesCover(t: string)
    ensures Flatten(Lines(t)) == t
  {
    JoinSplit(t, '\n');
    FlattenLines(SplitOn(t, '\n'));
  }

  /** Flattening the lines built from the pieces of a split joins the pieces
      with "\n". */
  lemma {:induction false} FlattenLines(parts: seq<string>)
    requires |parts| >= 1
    ensures var full := seq(|parts| - 1, i requires 0 <= i < |parts| - 1 => parts[i] + "\n");
      var last := parts[|parts| - 1];
      Flatten(if last == "" then full else full + [last]) == Join(parts, '\n')
    decreases |parts|
  {
    var full := seq(|parts| - 1, i requires 0 <= i < |parts| - 1 => parts[i] + "\n");
    var last := parts[|parts| - 1];
    if |parts| == 1 {
      assert full == [];
      if last != "" {
        assert Flatten([last]) == last + Flatten([]);
      }
    } else {
      var tail := parts[1..];
      FlattenLines(tail);
      var full' := seq(|tail| - 1, i requires 0 <= i < |tail| - 1 => tail[i] + "\n");
      assert full == [parts[0] + "\n"] + full';
      assert tail[|tail| - 1] == last;
      if last == "" {
        assert Flatten(full) == parts[0] + "\n" + Flatten(full');
      } else {
        assert full + [last] == [parts[0] + "\n"] + (full' + [last]);
        assert Flatten(full + [last]) == parts[0] + "\n" + Flatten(full' + [last]);
      }
    }
  }

  /** What reading a file line by line and keeping `line.split("\n")[0]`
      produces, stated on the whole text: the "\n"-separated pieces of the
      translated text, without the empty piece after a final "\n". */
  function ParseText(content: string): (entries: seq<string>)
    ensures forall i :: 0 <= i < |entries| ==> '\n' !in entries[i]
  {
    var t := Translate(content);
    var parts := SplitOn(t, '\n');
    if parts[|parts| - 1] == "" then
      assert forall i :: 0 <= i < |parts| - 1 ==> parts[..|parts| - 1][i] == parts[i];
      parts[..|parts| - 1]
    else parts
  }

  /** The head of every line is the matching piece of the text. */
  lemma {:induction false} LineHeads(t: string)
    ensures var parts := SplitOn(t, '\n');
      var lines := Lines(t);
      && |lines| == (if parts[|parts| - 1] == "" then |parts| - 1 else |parts|)
      && (forall i :: 0 <= i < |lines| ==> lines[i] != "")
      && (forall i :: 0 <= i < |lines| ==> Head(lines[i], '\n') == parts[i])
  {
    var parts := SplitOn(t, '\n');
    var lines := Lines(t);
    forall i | 0 <= i < |lines| ensures Head(lines[i], '\n') == parts[i] {
      if i < |parts| - 1 {
        assert lines[i] == parts[i] + ['\n'] + "";
        SplitAfter(parts[i], '\n', "");
      } else {
        SplitNone(parts[i], '\n');
      }
    }
  }

  predicate NoBreaks(s: string)
  {
    '\r' !in s && '\n' !in s
  }

  /** The framed lines start with a line's first character or with a
      carriage return, never with "\n". */
  lemma {:induction false} FrameStart(hs: seq<string>)
    requires forall i :: 0 <= i < |hs| ==> NoBreaks(hs[i])
    ensures Frame(hs) == [] || Frame(hs)[0] != '\n'
  {
    if hs != [] {
      FrameCons(hs[0], hs[1..]);
      assert [hs[0]] + hs[1..] == hs;
      if hs[0] != [] {
        assert Frame(hs)[0] == hs[0][0];
      }
    }
  }

  /** Reading `line + "\r"` framing back in text mode turns every frame into
      a "\n"-terminated line. */
  lemma {:induction false} TranslateFrame(hs: seq<string>)
    requires forall i :: 0 <= i < |hs| ==> NoBreaks(hs[i])
    ensures Translate(Frame(hs)) == Join(hs + [""], '\n')
    decreases |hs|
  {
    if hs == [] {
      assert hs + [""] == [""];
    } else {
      var rest := hs[1..];
      FrameCons(hs[0], rest);
      assert [hs[0]] + rest == hs;
      FrameStart(rest);
      TranslateFramedLine(hs[0], Frame(rest));
      TranslateFrame(rest);
      assert (hs + [""])[1..] == rest + [""];
    }
  }

  /** The hash manifest round trip: lines without line terminators, framed
      by write_txt_file and parsed by the receiver's read loop, come back
      unchanged. */
  lemma {:induction false} ParseFrameRoundTrip(hs: seq<string>)
    requires forall i :: 0 <= i < |hs| ==> NoBreaks(hs[i])
    ensures ParseText(Frame(hs)) == hs
  {
    TranslateFrame(hs);
    SplitJoin(hs + [""], '\n');
    assert (hs + [""])[..|hs|] == hs;
  }

  /** Chunks are not safe to frame: a final chunk holding one "\n" comes
      back as two entries, followed by the empty terminator chunk. */
  lemma {:induction false} ChunkBlobDoesNotRoundTrip(x: string, y: string)
    requires NoBreaks(x) && NoBreaks(y)
    ensures ParseText(Frame([x + "\n" + y, ""])) == [x, y, ""]
  {
    var c := x + "\n" + y;
    FrameCons(c, [""]);
    FrameCons("", []);
    assert [c] + [""] == [c, ""];
    assert Frame([c, ""]) == c + "\r" + "\r";
    TranslateFramedLine(c, "\r");
    TranslateFramedLine("", "");
    assert Translate("\r") == "\n";
    var t := x + "\n" + y + "\n" + "\n";
    assert Translate(Frame([c, ""])) == t;
    SplitAfter("", '\n', "");
    assert "" + ['\n'] + "" == "\n";
    SplitAfter(y, '\n', "\n");
    assert y + ['\n'] + "\n" == y + "\n" + "\n";
    SplitAfter(x, '\n', y + "\n" + "\n");
    assert x + ['\n'] + (y + "\n" + "\n") == t;
    assert SplitOn(t, '\n') == [x, y, "", ""];
  }
}
