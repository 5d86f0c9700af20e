/**
 * The six notional RECV lines of the module documentation, run through the whole loop.
 * The code gives four records, in the order 127.0.0.1, .2, .3, .4; `127-0-0-2`'s imports come out
 * in insertion order, and the last import of `127-0-0-1` is `127-0-0-4`.
 */
module Example {
  import opened Wrappers
  import opened Text
  import opened Mgen
  import opened Accumulator
  import opened Converter
  import IPv4

  /** A RECV line of the documented shape, as `readlines` yields it (with its trailing newline). */
  function RecvLine(time: string, flow: string, seqNo: string, src: string, dst: string, sent: string): string
  {
    Join([time, "RECV", "proto>UDP", "flow>" + flow, "seq>" + seqNo, "src>" + src, "dst>" + dst,
          "sent>" + sent, "size>1024\n"], ' ')
  }

  predicate NoSpace(s: string) { ' ' !in s }

  lemma NoSpaceConcat(a: string, b: string)
    requires NoSpace(a) && NoSpace(b)
    ensures NoSpace(a + b)
  {
  }

  /** A line whose second token is `RECV` and whose sixth and seventh are `src>a` and `dst>b`, both valid, is accepted. */
  lemma ClassifyRecv(line: string, src: string, dst: string)
    requires |Tokens(line)| > DstField && Tokens(line)[1] == "RECV"
    requires Tokens(line)[SrcField] == "src>" + src && Tokens(line)[DstField] == "dst>" + dst
    requires ValidateNodeAddress(src) && ValidateNodeAddress(dst)
    ensures Classify(line) == Accepted(ConvertNodeAddress(src).value, ConvertNodeAddress(dst).value)
  {
    assert line != "\n" by { SplitWithout("\n", ' '); }
    assert ("src>" + src)[..4] == "src>" && ("dst>" + dst)[..4] == "dst>";
    assert FieldValue("src>" + src) == src && FieldValue("dst>" + dst) == dst;
  }

  /** The tokens of a RECV line of the documented shape are its nine fields. */
  lemma RecvLineTokens(time: string, flow: string, seqNo: string, src: string, dst: string, sent: string)
    requires NoSpace(time) && NoSpace(flow) && NoSpace(seqNo) && NoSpace(src) && NoSpace(dst) && NoSpace(sent)
    ensures Tokens(RecvLine(time, flow, seqNo, src, dst, sent))
      == [time, "RECV", "proto>UDP", "flow>" + flow, "seq>" + seqNo, "src>" + src, "dst>" + dst,
          "sent>" + sent, "size>1024\n"]
  {
    var tokens := [time, "RECV", "proto>UDP", "flow>" + flow, "seq>" + seqNo, "src>" + src, "dst>" + dst,
                   "sent>" + sent, "size>1024\n"];
    NoSpaceConcat("flow>", flow);
    NoSpaceConcat("seq>", seqNo);
    NoSpaceConcat("src>", src);
    NoSpaceConcat("dst>", dst);
    NoSpaceConcat("sent>", sent);
    forall i | 0 <= i < |tokens| ensures ' ' !in tokens[i] {
      assert NoSpace(tokens[i]);
    }
    SplitJoin(tokens, ' ');
  }

  /** A well-formed RECV line with two valid addresses is accepted with their node names. */
  lemma RecvLineAccepted(time: string, flow: string, seqNo: string, src: string, dst: string, sent: string)
    requires NoSpace(time) && NoSpace(flow) && NoSpace(seqNo) && NoSpace(src) && NoSpace(dst) && NoSpace(sent)
    requires ValidateNodeAddress(src) && ValidateNodeAddress(dst)
    ensures Classify(RecvLine(time, flow, seqNo, src, dst, sent))
      == Accepted(ConvertNodeAddress(src).value, ConvertNodeAddress(dst).value)
  {
    RecvLineTokens(time, flow, seqNo, src, dst, sent);
    ClassifyRecv(RecvLine(time, flow, seqNo, src, dst, sent), src, dst);
  }

  /** `999.999.999.999` is not a node address. */
  lemma OutOfRangeInvalid()
    ensures !ValidateNodeAddress("999.999.999.999")
  {
    assert StripPort("999.999.999.999") == "999.999.999.999";
    IPv4.OutOfRangeIsNotAddress();
  }

  /** A RECV line whose source is `999.999.999.999` is skipped, leaving the records unchanged. */
  lemma OutOfRangeSourceSkipped(g: seq<Node>, c: nat, line: string)
    requires |Tokens(line)| > DstField && Tokens(line)[1] == "RECV"
    requires Tokens(line)[SrcField] == "src>999.999.999.999" && HasTag(Tokens(line)[DstField], "dst>")
    ensures Classify(line) == Skipped(BadSrcAddress)
    ensures Step(Finished(g, c), line) == Finished(g, c + 1)
  {
    var a := "999.999.999.999";
    assert "src>999.999.999.999" == "src>" + a;
    OutOfRangeInvalid();
    InvalidSourceSkipped(g, c, line, a);
  }

  /** `127.0.0.d/port` for a digit `d` from 1 to 9. */
  function Localhost(d: char, port: string): string
  {
    "127.0.0." + [d] + "/" + port
  }

  lemma LocalhostNoSpace(d: char, port: string)
    requires d != ' ' && NoSpace(port)
    ensures NoSpace(Localhost(d, port))
  {
    var a := "127.0.0." + [d] + "/";
    assert NoSpace(a) by {
      forall i | 0 <= i < |a| ensures a[i] != ' ' {
        if i < 8 { assert a[i] == "127.0.0."[i]; }
      }
    }
    NoSpaceConcat(a, port);
  }

  function LocalName(d: char): string
  {
    "mgen.127-0-0-" + [d]
  }

  lemma LocalAddressParses(d: char)
    requires '1' <= d <= '9'
    ensures IPv4.IsAddress("127.0.0." + [d])
  {
    var k := IPv4.DigitValue(d);
    var o := [127, 0, 0, k];
    IPv4.ParseFormat(o);
    assert IPv4.FormatOctet(127) == "127";
    assert IPv4.FormatOctet(0) == "0";
    assert IPv4.FormatOctet(k) == [d];
    JoinFour("127", "0", "0", [d], '.');
    assert IPv4.Format(o) == "127" + "." + "0" + "." + "0" + "." + [d];
    assert "127" + "." + "0" + "." + "0" + "." + [d] == "127.0.0." + [d];
  }

  lemma LocalAddressReplaced(d: char)
    requires '1' <= d <= '9'
    ensures Replace("127.0.0." + [d], '.', '-') == "127-0-0-" + [d]
  {
    var a, b := "127.0.0." + [d], "127-0-0-" + [d];
    var r := Replace(a, '.', '-');
    forall i | 0 <= i < 9 ensures r[i] == b[i] {
      if i < 8 {
        assert a[i] == "127.0.0."[i] && b[i] == "127-0-0-"[i];
      }
    }
  }

  lemma LocalAddress(d: char, port: string)
    requires '1' <= d <= '9'
    ensures ValidateNodeAddress(Localhost(d, port))
    ensures ConvertNodeAddress(Localhost(d, port)) == Some(LocalName(d))
  {
    var a := "127.0.0." + [d];
    LocalAddressParses(d);
    assert Localhost(d, port) == a + "/" + port;
    assert '/' !in a by {
      forall i | 0 <= i < |a| ensures a[i] != '/' {
        if i < 8 { assert a[i] == "127.0.0."[i]; }
      }
    }
    PortIsIgnored(a, port);
    StripPortLaws(a, port);
    ConvertValid(a);
    LocalAddressReplaced(d);
    assert StripPort(a) == a;
    assert ConvertNodeAddress(Localhost(d, port)) == Some("mgen." + ("127-0-0-" + [d]));
    assert "mgen." + ("127-0-0-" + [d]) == LocalName(d);
  }

  /** A RECV line of the example between `127.0.0.s` and `127.0.0.d`. */
  lemma ExampleLineAccepted(time: string, flow: string, seqNo: string, s: char, d: char, sent: string)
    requires '1' <= s <= '9' && '1' <= d <= '9'
    requires NoSpace(time) && NoSpace(flow) && NoSpace(seqNo) && NoSpace(sent)
    ensures Classify(RecvLine(time, flow, seqNo, Localhost(s, "5001"), Localhost(d, "5000"), sent))
      == Accepted(LocalName(s), LocalName(d))
  {
    var a, b := Localhost(s, "5001"), Localhost(d, "5000");
    assert ValidateNodeAddress(a) && ConvertNodeAddress(a) == Some(LocalName(s)) by {
      LocalAddress(s, "5001");
    }
    assert ValidateNodeAddress(b) && ConvertNodeAddress(b) == Some(LocalName(d)) by {
      LocalAddress(d, "5000");
    }
    LocalhostNoSpace(s, "5001");
    LocalhostNoSpace(d, "5000");
    RecvLineAccepted(time, flow, seqNo, a, b, sent);
  }

  /**
   * The log of the documentation, line by line, with its twelve timestamps (receive and send time
   * of each line) as parameters: they play no part in the conversion.
   */
  function ExampleLog(t: seq<string>): seq<string>
    requires |t| == 12
  {
    [ RecvLine(t[0], "1", "0", Localhost('1', "5001"), Localhost('2', "5000"), t[1]),
      RecvLine(t[2], "1", "1", Localhost('1', "5001"), Localhost('2', "5000"), t[3]),
      RecvLine(t[4], "2", "0", Localhost('1', "5001"), Localhost('3', "5000"), t[5]),
      RecvLine(t[6], "3", "0", Localhost('2', "5001"), Localhost('3', "5000"), t[7]),
      RecvLine(t[8], "4", "0", Localhost('2', "5001"), Localhost('1', "5000"), t[9]),
      RecvLine(t[10], "5", "0", Localhost('1', "5001"), Localhost('4', "5000"), t[11]) ]
  }

  /** The timestamps of the documented log. */
  const DocumentedTimes: seq<string> := [
    "22:55:07.470450", "22:55:07.470351", "22:55:08.470981", "22:55:08.470860",
    "22:55:10.471264", "22:55:10.471120", "22:55:11.471280", "22:55:11.471140",
    "22:55:13.471262", "22:55:13.471120", "22:55:14.471251", "22:55:14.471128" ]

  /** Lines that are all accepted contribute their pairs, in order, and are all counted. */
  lemma {:induction false} AllAccepted(lines: seq<string>, edges: seq<Edge>)
    requires |lines| == |edges|
    requires forall i :: 0 <= i < |lines| ==> Classify(lines[i]) == Accepted(edges[i].0, edges[i].1)
    ensures NoCrash(lines) && AcceptedEdges(lines) == edges && NonBlankCount(lines) == |lines|
  {
    AllAcceptedEdges(lines, edges);
  }

  lemma {:induction false} AllAcceptedEdges(lines: seq<string>, edges: seq<Edge>)
    requires |lines| == |edges|
    requires forall i :: 0 <= i < |lines| ==> Classify(lines[i]) == Accepted(edges[i].0, edges[i].1)
    ensures AcceptedEdges(lines) == edges && NonBlankCount(lines) == |lines|
  {
    if lines != [] {
      var n := |lines| - 1;
      var pre, last := lines[..n], lines[n];
      forall i | 0 <= i < |pre| ensures Classify(pre[i]) == Accepted(edges[..n][i].0, edges[..n][i].1) {
        assert pre[i] == lines[i] && edges[..n][i] == edges[i];
      }
      AllAcceptedEdges(pre, edges[..n]);
      var k := Classify(last);
      assert k == Accepted(edges[n].0, edges[n].1);
      assert AcceptedEdges(lines) == AcceptedEdges(pre) + [(k.src, k.dst)];
      assert NonBlankCount(lines) == NonBlankCount(pre) + (if last == "\n" then 0 else 1);
      LastSplit(edges);
    }
  }

  lemma LastSplit<T>(s: seq<T>)
    requires s != []
    ensures s == s[..|s| - 1] + [s[|s| - 1]]
  {
  }

  // The six updates of the example, one lemma each, for any four distinct names.

  lemma FirstPair(n1: string, n2: string)
    requires n1 != n2
    ensures AddEdge([], n1, n2) == [Node(n1, 1, [n2]), Node(n2, 0, [])]
  {
    assert Names([Node(n1, 1, [n2])]) == [n1];
  }

  lemma NewDestination(n1: string, n2: string, n3: string)
    requires n1 != n2 && n1 != n3 && n2 != n3
    ensures AddEdge([Node(n1, 1, [n2]), Node(n2, 0, [])], n1, n3)
      == [Node(n1, 2, [n2, n3]), Node(n2, 0, []), Node(n3, 0, [])]
  {
    var g := [Node(n1, 1, [n2]), Node(n2, 0, [])];
    assert Names(g) == [n1, n2];
    var h := AddImports(g, n1, n3);
    assert h[0] == Node(n1, 2, [n2, n3]) && h[1] == Node(n2, 0, []);
    assert h == [Node(n1, 2, [n2, n3]), Node(n2, 0, [])];
    assert Names(h) == [n1, n2];
  }

  lemma KnownDestination(n1: string, n2: string, n3: string)
    requires n1 != n2 && n1 != n3 && n2 != n3
    ensures AddEdge([Node(n1, 2, [n2, n3]), Node(n2, 0, []), Node(n3, 0, [])], n2, n3)
      == [Node(n1, 2, [n2, n3]), Node(n2, 1, [n3]), Node(n3, 0, [])]
  {
    var g := [Node(n1, 2, [n2, n3]), Node(n2, 0, []), Node(n3, 0, [])];
    assert Names(g) == [n1, n2, n3];
    var h := AddImports(g, n2, n3);
    assert h[0] == g[0] && h[1] == Node(n2, 1, [n3]) && h[2] == g[2];
    assert h == [Node(n1, 2, [n2, n3]), Node(n2, 1, [n3]), Node(n3, 0, [])];
  }

  lemma BackEdge(n1: string, n2: string, n3: string)
    requires n1 != n2 && n1 != n3 && n2 != n3
    ensures AddEdge([Node(n1, 2, [n2, n3]), Node(n2, 1, [n3]), Node(n3, 0, [])], n2, n1)
      == [Node(n1, 2, [n2, n3]), Node(n2, 2, [n3, n1]), Node(n3, 0, [])]
  {
    var g := [Node(n1, 2, [n2, n3]), Node(n2, 1, [n3]), Node(n3, 0, [])];
    assert Names(g) == [n1, n2, n3];
    var h := AddImports(g, n2, n1);
    assert h[0] == g[0] && h[1] == Node(n2, 2, [n3, n1]) && h[2] == g[2];
    assert h == [Node(n1, 2, [n2, n3]), Node(n2, 2, [n3, n1]), Node(n3, 0, [])];
  }

  lemma FourthNode(n1: string, n2: string, n3: string, n4: string)
    requires n1 != n2 && n1 != n3 && n1 != n4 && n2 != n3 && n2 != n4 && n3 != n4
    ensures AddEdge([Node(n1, 2, [n2, n3]), Node(n2, 2, [n3, n1]), Node(n3, 0, [])], n1, n4)
      == [Node(n1, 3, [n2, n3, n4]), Node(n2, 2, [n3, n1]), Node(n3, 0, []), Node(n4, 0, [])]
  {
    var g := [Node(n1, 2, [n2, n3]), Node(n2, 2, [n3, n1]), Node(n3, 0, [])];
    assert Names(g) == [n1, n2, n3];
    var h := AddImports(g, n1, n4);
    assert h[0] == Node(n1, 3, [n2, n3, n4]) && h[1] == g[1] && h[2] == g[2];
    assert h == [Node(n1, 3, [n2, n3, n4]), Node(n2, 2, [n3, n1]), Node(n3, 0, [])];
    assert Names(h) == [n1, n2, n3];
  }

  // The records after each prefix of the example's pairs, for any four distinct names.

  lemma AfterTwo(n1: string, n2: string)
    requires n1 != n2
    ensures Build([(n1, n2), (n1, n2)]) == [Node(n1, 1, [n2]), Node(n2, 0, [])]
  {
    var e, es := [(n1, n2)], [(n1, n2), (n1, n2)];
    assert es == e + [(n1, n2)];
    var first := AddEdge([], n1, n2);
    assert first == [Node(n1, 1, [n2]), Node(n2, 0, [])] by {
      FirstPair(n1, n2);
    }
    assert Build(e) == first by {
      BuildSnoc([], n1, n2);
      assert [] + [(n1, n2)] == e;
    }
    assert Build(es) == AddEdge(first, n1, n2) by {
      BuildSnoc(e, n1, n2);
    }
    assert AddEdge(first, n1, n2) == first by {
      AddEdgeIdempotent([], n1, n2);
    }
  }

  lemma AfterThree(n1: string, n2: string, n3: string)
    requires n1 != n2 && n1 != n3 && n2 != n3
    ensures Build([(n1, n2), (n1, n2), (n1, n3)]) == [Node(n1, 2, [n2, n3]), Node(n2, 0, []), Node(n3, 0, [])]
  {
    AfterTwo(n1, n2);
    BuildSnoc([(n1, n2), (n1, n2)], n1, n3);
    assert [(n1, n2), (n1, n2)] + [(n1, n3)] == [(n1, n2), (n1, n2), (n1, n3)];
    NewDestination(n1, n2, n3);
  }

  lemma AfterFour(n1: string, n2: string, n3: string)
    requires n1 != n2 && n1 != n3 && n2 != n3
    ensures Build([(n1, n2), (n1, n2), (n1, n3), (n2, n3)])
      == [Node(n1, 2, [n2, n3]), Node(n2, 1, [n3]), Node(n3, 0, [])]
  {
    var es := [(n1, n2), (n1, n2), (n1, n3)];
    AfterThree(n1, n2, n3);
    BuildSnoc(es, n2, n3);
    assert es + [(n2, n3)] == [(n1, n2), (n1, n2), (n1, n3), (n2, n3)];
    KnownDestination(n1, n2, n3);
  }

  lemma AfterFive(n1: string, n2: string, n3: string)
    requires n1 != n2 && n1 != n3 && n2 != n3
    ensures Build([(n1, n2), (n1, n2), (n1, n3), (n2, n3), (n2, n1)])
      == [Node(n1, 2, [n2, n3]), Node(n2, 2, [n3, n1]), Node(n3, 0, [])]
  {
    var es := [(n1, n2), (n1, n2), (n1, n3), (n2, n3)];
    AfterFour(n1, n2, n3);
    BuildSnoc(es, n2, n1);
    assert es + [(n2, n1)] == [(n1, n2), (n1, n2), (n1, n3), (n2, n3), (n2, n1)];
    BackEdge(n1, n2, n3);
  }

  /** The records the six pairs of the example build, for any four distinct names. */
  lemma ExampleBuild(n1: string, n2: string, n3: string, n4: string)
    requires n1 != n2 && n1 != n3 && n1 != n4 && n2 != n3 && n2 != n4 && n3 != n4
    ensures Build([(n1, n2), (n1, n2), (n1, n3), (n2, n3), (n2, n1), (n1, n4)])
      == [Node(n1, 3, [n2, n3, n4]), Node(n2, 2, [n3, n1]), Node(n3, 0, []), Node(n4, 0, [])]
  {
    var es := [(n1, n2), (n1, n2), (n1, n3), (n2, n3), (n2, n1)];
    AfterFive(n1, n2, n3);
    BuildSnoc(es, n1, n4);
    assert es + [(n1, n4)] == [(n1, n2), (n1, n2), (n1, n3), (n2, n3), (n2, n1), (n1, n4)];
    FourthNode(n1, n2, n3, n4);
  }

  lemma ExampleNames()
    ensures LocalName('1') == "mgen.127-0-0-1" && LocalName('2') == "mgen.127-0-0-2"
    ensures LocalName('3') == "mgen.127-0-0-3" && LocalName('4') == "mgen.127-0-0-4"
  {
  }

  /**
   * The documented log yields four records: `127-0-0-1` importing .2, .3, .4; `127-0-0-2` importing
   * .3 then .1; `127-0-0-3` and `127-0-0-4` with nothing; and six counted lines. This holds for any
   * timestamps without spaces, the documented ones among them.
   */
  lemma DocumentedExample(t: seq<string>)
    requires |t| == 12 && forall i :: 0 <= i < 12 ==> NoSpace(t[i])
    ensures Run(ExampleLog(t)) == Finished(
      [ Node("mgen.127-0-0-1", 3, ["mgen.127-0-0-2", "mgen.127-0-0-3", "mgen.127-0-0-4"]),
        Node("mgen.127-0-0-2", 2, ["mgen.127-0-0-3", "mgen.127-0-0-1"]),
        Node("mgen.127-0-0-3", 0, []),
        Node("mgen.127-0-0-4", 0, []) ], 6)
  {
    var lines := ExampleLog(t);
    var n1, n2, n3, n4 := LocalName('1'), LocalName('2'), LocalName('3'), LocalName('4');
    assert n1[13] == '1' && n2[13] == '2' && n3[13] == '3' && n4[13] == '4';
    var es := [(n1, n2), (n1, n2), (n1, n3), (n2, n3), (n2, n1), (n1, n4)];
    forall i | 0 <= i < 6 ensures Classify(lines[i]) == Accepted(es[i].0, es[i].1) {
      if i == 0 {
        ExampleLineAccepted(t[0], "1", "0", '1', '2', t[1]);
      } else if i == 1 {
        ExampleLineAccepted(t[2], "1", "1", '1', '2', t[3]);
      } else if i == 2 {
        ExampleLineAccepted(t[4], "2", "0", '1', '3', t[5]);
      } else if i == 3 {
        ExampleLineAccepted(t[6], "3", "0", '2', '3', t[7]);
      } else if i == 4 {
        ExampleLineAccepted(t[8], "4", "0", '2', '1', t[9]);
      } else {
        ExampleLineAccepted(t[10], "5", "0", '1', '4', t[11]);
      }
    }
    AllAccepted(lines, es);
    RunSummary(lines);
    ExampleBuild(n1, n2, n3, n4);
    ExampleNames();
  }

  /** The documented log itself, with its own timestamps. */
  lemma DocumentedLog()
    ensures Run(ExampleLog(DocumentedTimes)) == Finished(
      [ Node("mgen.127-0-0-1", 3, ["mgen.127-0-0-2", "mgen.127-0-0-3", "mgen.127-0-0-4"]),
        Node("mgen.127-0-0-2", 2, ["mgen.127-0-0-3", "mgen.127-0-0-1"]),
        Node("mgen.127-0-0-3", 0, []),
        Node("mgen.127-0-0-4", 0, []) ], 6)
  {
    DocumentedExample(DocumentedTimes);
  }
}
