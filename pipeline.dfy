/**
  The two halves together: payloads pushed by the worker of `Open`, numbered
  by the host, then queried field by field through `Extract`; and
  `Plugin.String`, which renders a payload as it is.
 */
module Pipeline {
  import opened Base
  import opened Message
  import opened Framing
  import opened Fields
  import opened Extractor

  /** What `String` returns: the text and whether the read failed. */
  datatype Rendered = Rendered(text: Bytes, failed: bool)

  /** `Plugin.String`: the payload bytes unchanged, or the empty string with the read error. */
  function Render(input: ReadOutcome): (r: Rendered)
    ensures r.failed <==> input.ReadFailed?
    ensures r.failed ==> r.text == []
    ensures !r.failed ==> r.text == input.data
  {
    match input
    case Read(data) => Rendered(data, false)
    case ReadFailed => Rendered([], true)
  }

  /** The members of the first example line. */
  function Open1(): map<string, string>
  {
    map["etype" := "open", "securityhook" := "file_open", "path" := "/etc/passwd",
        "device" := "8:1", "inode" := "1234", "username" := "root", "group" := "root"]
  }

  /** The members of the second example line. */
  function Exec2(): map<string, string>
  {
    map["etype" := "exec", "securityhook" := "bprm_check", "path" := "/bin/ls",
        "device" := "8:1", "inode" := "5678", "username" := "alice", "group" := "users"]
  }

  function OpenMsg(): LsmMessage
  {
    LsmMessage("open", "file_open", "/etc/passwd", "8:1", "1234", "root", "root")
  }

  function ExecMsg(): LsmMessage
  {
    LsmMessage("exec", "bprm_check", "/bin/ls", "8:1", "5678", "alice", "users")
  }

  lemma DecodedExample()
    ensures Overlay(Empty, Open1()) == OpenMsg()
    ensures Overlay(OpenMsg(), Exec2()) == ExecMsg()
    ensures Overlay(Empty, Exec2()) == ExecMsg()
  {
  }

  /** A stream of two lines is pushed as exactly those two payloads. */
  lemma {:induction false} TwoLinesFrame(l1: Bytes, l2: Bytes)
    requires IsLine(l1) && IsLine(l2)
    ensures Frames(l1 + l2) == [l1, l2]
  {
    var ls := [l1, l2];
    assert Concat(ls) == l1 + l2 by {
      assert Concat(ls[1..]) == l2 + Concat([]);
    }
    assert (l1 + l2)[|l1 + l2|..] == [];
    FramesUnique(l1 + l2, ls);
  }

  /** Three requests in a row, step by step. */
  lemma RunOfThree(c: Cache, r0: Request, r1: Request, r2: Request, decode: Decoder)
    ensures var s0 := ExtractStep(c, r0.field, r0.evt, decode);
            var s1 := ExtractStep(s0.cache, r1.field, r1.evt, decode);
            var s2 := ExtractStep(s1.cache, r2.field, r2.evt, decode);
            Run(c, [r0, r1, r2], decode)
              == Trace([s0.answer, s1.answer, s2.answer], s2.cache,
                       DecodeCost(c, r0.evt) + DecodeCost(s0.cache, r1.evt) + DecodeCost(s1.cache, r2.evt))
  {
    var s0 := ExtractStep(c, r0.field, r0.evt, decode);
    var s1 := ExtractStep(s0.cache, r1.field, r1.evt, decode);
    assert [r0, r1, r2][1..] == [r1, r2];
    assert [r1, r2][1..] == [r2];
    assert [r2][1..] == [];
    assert Run(s1.cache, [r2], decode).answers == [ExtractStep(s1.cache, r2.field, r2.evt, decode).answer];
  }

  /**
    Two lines from the sensor, numbered 1 and 2 by the host: two field
    requests on the first event decode it once, a request on the second
    decodes again and answers from the second line.
   */
  lemma {:induction false} TwoEventSession(l1: Bytes, l2: Bytes, decode: Decoder)
    requires IsLine(l1) && IsLine(l2)
    requires decode(l1) == Decoded(Open1()) && decode(l2) == Decoded(Exec2())
    ensures Frames(l1 + l2) == [l1, l2]
    ensures var reqs := [Request("lsm.file.path", Event(1, Read(l1))),
                         Request("lsm.user.uid", Event(1, Read(l1))),
                         Request("lsm.etype", Event(2, Read(l2)))];
            var t := Run(Initial, reqs, decode);
            t.answers == [Set("/etc/passwd"), Set("root"), Set("exec")] && t.decodes == 2 && t.cache == Cache(2, ExecMsg())
  {
    TwoLinesFrame(l1, l2);
    DecodedExample();
    SelectCases(OpenMsg());
    SelectCases(ExecMsg());
    SelectCases(Empty);
    var r0 := Request("lsm.file.path", Event(1, Read(l1)));
    var r1 := Request("lsm.user.uid", Event(1, Read(l1)));
    var r2 := Request("lsm.etype", Event(2, Read(l2)));
    var c1, c2 := Cache(1, OpenMsg()), Cache(2, ExecMsg());
    assert ExtractStep(Initial, r0.field, r0.evt, decode) == Step(Set("/etc/passwd"), c1);
    assert ExtractStep(c1, r1.field, r1.evt, decode) == Step(Set("root"), c1);
    assert ExtractStep(c1, r2.field, r2.evt, decode) == Step(Set("exec"), c2);
    RunOfThree(Initial, r0, r1, r2, decode);
  }

  /**
    The same session numbered from 0: event 0 matches the cache's initial
    number, so nothing is decoded and the requests on it answer "".
   */
  lemma {:induction false} SessionFromEventZero(l1: Bytes, l2: Bytes, decode: Decoder)
    requires decode(l1) == Decoded(Open1()) && decode(l2) == Decoded(Exec2())
    ensures var reqs := [Request("lsm.file.path", Event(0, Read(l1))),
                         Request("lsm.user.uid", Event(0, Read(l1))),
                         Request("lsm.etype", Event(1, Read(l2)))];
            var t := Run(Initial, reqs, decode);
            t.answers == [Set(""), Set(""), Set("exec")] && t.decodes == 1
  {
    DecodedExample();
    SelectCases(OpenMsg());
    SelectCases(ExecMsg());
    SelectCases(Empty);
    var r0 := Request("lsm.file.path", Event(0, Read(l1)));
    var r1 := Request("lsm.user.uid", Event(0, Read(l1)));
    var r2 := Request("lsm.etype", Event(1, Read(l2)));
    var c1 := Cache(1, ExecMsg());
    assert ExtractStep(Initial, r0.field, r0.evt, decode) == Step(Set(""), Initial);
    assert ExtractStep(Initial, r1.field, r1.evt, decode) == Step(Set(""), Initial);
    assert ExtractStep(Initial, r2.field, r2.evt, decode) == Step(Set("exec"), c1);
    RunOfThree(Initial, r0, r1, r2, decode);
  }
}
