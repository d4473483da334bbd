/**
  The worker that `Open` starts: it reads the sensor's standard output with
  `bufio.Reader.ReadString('\n')` and pushes each line it gets, newline
  included, as one event payload; the first read error ends the stream, so a
  last fragment with no newline is never pushed.
 */
module Framing {
  import opened Base

  const NL: byte := 10

  /** The index of the first newline of `s`, if any. */
  function FirstNewline(s: Bytes): (r: Option<nat>)
    ensures r.None? <==> NL !in s
    ensures r.Some? ==> r.value < |s| && s[r.value] == NL && NL !in s[..r.value]
    decreases |s|
  {
    if s == [] then None
    else if s[0] == NL then Some(0)
    else match FirstNewline(s[1..])
      case None => None
      case Some(k) =>
        assert s[..k + 1] == [s[0]] + s[1..][..k];
        Some(k + 1)
  }

  /** A line as `ReadString('\n')` returns it: ending with its only newline. */
  predicate IsLine(l: Bytes)
  {
    |l| > 0 && l[|l| - 1] == NL && NL !in l[..|l| - 1]
  }

  /** The payloads pushed for stream `s`: its newline-terminated segments, in order. */
  function Frames(s: Bytes): seq<Bytes>
    decreases |s|
  {
    match FirstNewline(s)
    case None => []
    case Some(k) => [s[..k + 1]] + Frames(s[k + 1..])
  }

  function Concat(ls: seq<Bytes>): Bytes
  {
    if ls == [] then [] else ls[0] + Concat(ls[1..])
  }

  /** A stream that starts with a line frames as that line followed by the frames of the rest. */
  lemma {:induction false} FramesOfLeadingLine(s: Bytes, l: Bytes)
    requires IsLine(l) && l <= s
    ensures Frames(s) == [l] + Frames(s[|l|..])
  {
    var k := |l| - 1;
    assert s[..k] == l[..k];
    assert forall i :: 0 <= i < k ==> s[i] != NL by {
      forall i | 0 <= i < k ensures s[i] != NL { assert s[i] == s[..k][i]; }
    }
    assert s[k] in s;
    var j := FirstNewline(s).value;
    assert forall i :: 0 <= i < j ==> s[i] != NL by {
      forall i | 0 <= i < j ensures s[i] != NL { assert s[i] == s[..j][i]; }
    }
    assert j == k;
    assert s[..k + 1] == l;
  }

  /** Every pushed payload is a line, ending with its newline. */
  lemma {:induction false} FramesAreLines(s: Bytes)
    ensures forall i :: 0 <= i < |Frames(s)| ==> IsLine(Frames(s)[i])
    decreases |s|
  {
    match FirstNewline(s)
    case None =>
    case Some(k) =>
      FramesAreLines(s[k + 1..]);
      var l := s[..k + 1];
      assert l[..|l| - 1] == s[..k];
      forall i | 0 <= i < |Frames(s)| ensures IsLine(Frames(s)[i]) {
        if i > 0 { assert Frames(s)[i] == Frames(s[k + 1..])[i - 1]; }
      }
  }

  /**
    The pushed payloads, put back together, are a prefix of the stream, and
    what follows them holds no newline: only a trailing fragment is dropped.
   */
  lemma {:induction false} FramesCoverStream(s: Bytes)
    ensures Concat(Frames(s)) <= s
    ensures NL !in s[|Concat(Frames(s))|..]
    decreases |s|
  {
    match FirstNewline(s)
    case None =>
    case Some(k) =>
      var line, rest := s[..k + 1], s[k + 1..];
      FramesCoverStream(rest);
      assert Frames(s) == [line] + Frames(rest);
      assert s == line + rest;
      CoverStep(line, rest, Frames(rest));
  }

  /** Putting a line in front of both the frames and the stream keeps the prefix and what is left over. */
  lemma CoverStep(line: Bytes, rest: Bytes, fs: seq<Bytes>)
    requires Concat(fs) <= rest && NL !in rest[|Concat(fs)|..]
    ensures Concat([line] + fs) <= line + rest
    ensures NL !in (line + rest)[|Concat([line] + fs)|..]
  {
    assert ([line] + fs)[1..] == fs;
    assert (line + rest)[|line + Concat(fs)|..] == rest[|Concat(fs)|..];
  }

  /**
    The frames are the only split of the stream into lines that leaves no
    newline behind: any sequence of lines forming a prefix of `s` whose
    remainder holds no newline is `Frames(s)`.
   */
  lemma {:induction false} FramesUnique(s: Bytes, ls: seq<Bytes>)
    requires forall i :: 0 <= i < |ls| ==> IsLine(ls[i])
    requires Concat(ls) <= s
    requires NL !in s[|Concat(ls)|..]
    ensures ls == Frames(s)
    decreases |ls|
  {
    if ls == [] {
      assert s[0..] == s;
      assert FirstNewline(s).None?;
    } else {
      var l := ls[0];
      assert Concat(ls) == l + Concat(ls[1..]);
      assert l <= s;
      FramesOfLeadingLine(s, l);
      var rest := s[|l|..];
      assert Concat(ls[1..]) <= rest;
      assert rest[|Concat(ls[1..])|..] == s[|Concat(ls)|..];
      forall i | 0 <= i < |ls[1..]| ensures IsLine(ls[1..][i]) {
        assert ls[1..][i] == ls[i + 1];
      }
      FramesUnique(rest, ls[1..]);
    }
  }

  /** Number of newline bytes in `s`. */
  function Newlines(s: Bytes): nat
  {
    if s == [] then 0 else (if s[0] == NL then 1 else 0) + Newlines(s[1..])
  }

  lemma {:induction false} NewlinesAppend(a: Bytes, b: Bytes)
    ensures Newlines(a + b) == Newlines(a) + Newlines(b)
    decreases |a|
  {
    if a == [] {
      assert a + b == b;
    } else {
      assert (a + b)[1..] == a[1..] + b;
      NewlinesAppend(a[1..], b);
    }
  }

  lemma {:induction false} NoNewlines(s: Bytes)
    requires NL !in s
    ensures Newlines(s) == 0
    decreases |s|
  {
    if s != [] {
      assert s[0] != NL;
      NoNewlines(s[1..]);
    }
  }

  /** One event per line: as many payloads are pushed as the stream holds newlines. */
  lemma {:induction false} OneFramePerNewline(s: Bytes)
    ensures |Frames(s)| == Newlines(s)
    decreases |s|
  {
    match FirstNewline(s)
    case None => NoNewlines(s);
    case Some(k) =>
      var head, rest := s[..k + 1], s[k + 1..];
      OneFramePerNewline(rest);
      assert |Frames(s)| == 1 + |Frames(rest)|;
      assert s == head + rest;
      NewlinesAppend(head, rest);
      assert head == s[..k] + [NL];
      NewlinesAppend(s[..k], [NL]);
      NoNewlines(s[..k]);
      assert Newlines([NL]) == 1 + Newlines([]);
  }

  /**
    `reader.ReadString('\n')` on a reader whose unread bytes are `unread`:
    the bytes up to and including the next newline, or, with the end-of-file
    error, everything that is left.
   */
  method ReadString(unread: Bytes) returns (line: Bytes, eof: bool)
    ensures line <= unread
    ensures eof <==> NL !in unread
    ensures eof ==> line == unread
    ensures !eof ==> IsLine(line)
  {
    var i := 0;
    while i < |unread| && unread[i] != NL
      invariant i <= |unread|
      invariant NL !in unread[..i]
    {
      assert unread[..i + 1] == unread[..i] + [unread[i]];
      i := i + 1;
    }
    if i == |unread| {
      assert unread[..i] == unread;
      line, eof := unread, true;
    } else {
      assert unread[i] in unread;
      line, eof := unread[..i + 1], false;
      assert line[..|line| - 1] == unread[..i];
    }
  }

  /** The worker loop: push every line `ReadString` returns, stop at the first error. */
  method Pump(stream: Bytes) returns (pushed: seq<Bytes>)
    ensures pushed == Frames(stream)
  {
    pushed := [];
    var unread := stream;
    var done := false;
    while !done
      invariant pushed + Frames(unread) == Frames(stream)
      invariant done ==> Frames(unread) == []
      decreases |unread|, !done
    {
      var line, eof := ReadString(unread);
      if eof {
        assert FirstNewline(unread).None?;
        done := true;
      } else {
        NextFrame(unread, line, pushed, stream);
        pushed, unread := pushed + [line], unread[|line|..];
      }
    }
    assert pushed + [] == pushed;
  }

  /** One step of the worker: the line just read is the next frame, and pushing it keeps the loop's account. */
  lemma NextFrame(unread: Bytes, line: Bytes, pushed: seq<Bytes>, stream: Bytes)
    requires IsLine(line) && line <= unread
    requires pushed + Frames(unread) == Frames(stream)
    ensures (pushed + [line]) + Frames(unread[|line|..]) == Frames(stream)
  {
    FramesOfLeadingLine(unread, line);
    assert (pushed + [line]) + Frames(unread[|line|..]) == pushed + ([line] + Frames(unread[|line|..]));
  }
}
