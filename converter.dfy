/**
 * The line loop of `convert_mgen_to_json`: each line of the log is classified, counted and, when
 * it is an accepted RECV record, folded into the record list.
 */
module Converter {
  import opened Wrappers
  import opened Text
  import opened Mgen
  import opened Accumulator

  /** What the loop does with one line. */
  datatype LineKind =
    | Blank                                  // the line is exactly "\n": skipped, not counted
    | Crash                                  // fewer than two tokens: `mgen_line[1]` raises IndexError
    | NotRecv                                // token 1 is not `RECV`: ignored
    | Skipped(why: Rejection)                // a RECV line that fails one of the four checks
    | Accepted(src: string, dst: string)     // the node names of a valid RECV line

  /** The tokens of a line: split on the single character ' ', so a trailing "\n" stays on the last token. */
  function Tokens(line: string): (r: seq<string>)
    ensures |r| >= 1 && forall i :: 0 <= i < |r| ==> ' ' !in r[i]
  {
    Split(line, ' ')
  }

  /** The address part of a tagged field, `token[4:]`. */
  function FieldValue(token: string): (r: string)
    ensures |token| >= 4 ==> token == token[..4] + r
    ensures |token| <= 4 ==> r == []
  {
    Drop(token, 4)
  }

  /** The checks in the order of the loop: RECV, src tag, dst tag, src address, dst address. */
  function Classify(line: string): (k: LineKind)
    ensures k == Blank <==> line == "\n"
    ensures k == Crash <==> line != "\n" && |Tokens(line)| < 2
    ensures k.Skipped? || k.Accepted? ==> Tokens(line)[1] == "RECV"
    ensures k.Accepted? ==> |k.src| >= 5 && k.src[..5] == "mgen." && |k.dst| >= 5 && k.dst[..5] == "mgen."
  {
    if line == "\n" then Blank
    else
      var tokens := Tokens(line);
      if |tokens| < 2 then Crash
      else if tokens[1] != "RECV" then NotRecv
      else match ValidateRecvLine(tokens)
        case Fail(why) => Skipped(why)
        case Pass =>
          var a, b := FieldValue(tokens[SrcField]), FieldValue(tokens[DstField]);
          if !ValidateNodeAddress(a) then Skipped(BadSrcAddress)
          else if !ValidateNodeAddress(b) then Skipped(BadDstAddress)
          else
            assert ConvertNodeAddress(a).Some? && ConvertNodeAddress(b).Some? by {
              ConvertValid(a);
              ConvertValid(b);
            }
            Accepted(ConvertNodeAddress(a).value, ConvertNodeAddress(b).value)
  }

  /**
   * The checks of a line in the loop's order, both ways: a non-`RECV` line is ignored; a `RECV` line
   * failing the src tag, the dst tag, the src address or the dst address is skipped with the first
   * failure; a line is accepted exactly when it passes all four.
   */
  lemma ClassifyChecks(line: string)
    ensures var k := Classify(line); var ts := Tokens(line);
      var recv := line != "\n" && |ts| >= 2 && ts[1] == "RECV";
      && (k == NotRecv <==> line != "\n" && |ts| >= 2 && ts[1] != "RECV")
      && (recv && ValidateRecvLine(ts).Fail? ==> k == Skipped(ValidateRecvLine(ts).why))
      && (k == Skipped(BadSrcAddress) <==>
          recv && ValidateRecvLine(ts) == Pass && !ValidateNodeAddress(FieldValue(ts[SrcField])))
      && (k == Skipped(BadDstAddress) <==>
          recv && ValidateRecvLine(ts) == Pass && ValidateNodeAddress(FieldValue(ts[SrcField]))
          && !ValidateNodeAddress(FieldValue(ts[DstField])))
      && (k.Accepted? <==>
          recv && ValidateRecvLine(ts) == Pass && ValidateNodeAddress(FieldValue(ts[SrcField]))
          && ValidateNodeAddress(FieldValue(ts[DstField])))
  {
  }

  /** An ignored or skipped line leaves the records as they were and is counted. */
  lemma RejectedLineKeepsRecords(g: seq<Node>, c: nat, line: string)
    requires Classify(line).NotRecv? || Classify(line).Skipped?
    ensures Step(Finished(g, c), line) == Finished(g, c + 1)
  {
  }

  /** A RECV line without `dst>` in place is skipped, leaving the records unchanged; the loop carries on. */
  lemma MissingDstTagSkipped(g: seq<Node>, c: nat, line: string)
    requires |Tokens(line)| > SrcField && Tokens(line)[1] == "RECV" && HasTag(Tokens(line)[SrcField], "src>")
    requires |Tokens(line)| <= DstField || !HasTag(Tokens(line)[DstField], "dst>")
    ensures Classify(line) == Skipped(DstOutOfPlace)
    ensures Step(Finished(g, c), line) == Finished(g, c + 1)
  {
    assert line != "\n" by { SplitWithout("\n", ' '); }
  }

  /** A RECV line whose source address `a` is invalid is skipped, leaving the records unchanged. */
  lemma InvalidSourceSkipped(g: seq<Node>, c: nat, line: string, a: string)
    requires |Tokens(line)| > DstField && Tokens(line)[1] == "RECV" && HasTag(Tokens(line)[DstField], "dst>")
    requires Tokens(line)[SrcField] == "src>" + a && !ValidateNodeAddress(a)
    ensures Classify(line) == Skipped(BadSrcAddress)
    ensures Step(Finished(g, c), line) == Finished(g, c + 1)
  {
    assert line != "\n" by { SplitWithout("\n", ' '); }
    assert FieldValue("src>" + a) == a;
  }

  /** A RECV line with a valid source and an invalid destination address `a` is skipped likewise. */
  lemma InvalidDestinationSkipped(g: seq<Node>, c: nat, line: string, a: string)
    requires |Tokens(line)| > DstField && Tokens(line)[1] == "RECV" && HasTag(Tokens(line)[SrcField], "src>")
    requires ValidateNodeAddress(FieldValue(Tokens(line)[SrcField]))
    requires Tokens(line)[DstField] == "dst>" + a && !ValidateNodeAddress(a)
    ensures Classify(line) == Skipped(BadDstAddress)
    ensures Step(Finished(g, c), line) == Finished(g, c + 1)
  {
    assert line != "\n" by { SplitWithout("\n", ' '); }
    assert FieldValue("dst>" + a) == a;
  }

  /** The state of a run: the records and the count of non-blank lines, or the count at an uncaught IndexError. */
  datatype Outcome = Finished(nodes: seq<Node>, count: nat) | Crashed(count: nat)

  function Step(o: Outcome, line: string): (r: Outcome)
    ensures o.Crashed? ==> r == o
    ensures r.count == o.count + (if o.Finished? && line != "\n" then 1 else 0)
  {
    match o
    case Crashed(_) => o
    case Finished(g, c) =>
      match Classify(line)
      case Blank => o
      case Crash => Crashed(c + 1)
      case Accepted(src, dst) => Finished(AddEdge(g, src, dst), c + 1)
      case _ => Finished(g, c + 1)
  }

  /** The loop over all lines, starting from no records and a count of zero. */
  function Run(lines: seq<string>): (r: Outcome)
    ensures r.count <= |lines|
  {
    if lines == [] then Finished([], 0)
    else Step(Run(lines[..|lines| - 1]), lines[|lines| - 1])
  }

  /** The (source, destination) name pairs of the accepted lines, in order. */
  function AcceptedEdges(lines: seq<string>): seq<Edge>
  {
    if lines == [] then []
    else
      var k := Classify(lines[|lines| - 1]);
      AcceptedEdges(lines[..|lines| - 1]) + (if k.Accepted? then [(k.src, k.dst)] else [])
  }

  function NonBlankCount(lines: seq<string>): (r: nat)
    ensures r <= |lines|
    ensures r == |lines| <==> "\n" !in lines
  {
    if lines == [] then 0
    else NonBlankCount(lines[..|lines| - 1]) + (if lines[|lines| - 1] == "\n" then 0 else 1)
  }

  predicate NoCrash(lines: seq<string>)
  {
    forall i :: 0 <= i < |lines| ==> !Classify(lines[i]).Crash?
  }

  /** One line, from a finished state: what it does to the records and to the count. */
  lemma StepFacts(g: seq<Node>, c: nat, line: string)
    ensures var o := Step(Finished(g, c), line); var k := Classify(line);
      && (o.Finished? <==> !k.Crash?)
      && (o.Finished? ==> o.nodes == (if k.Accepted? then AddEdge(g, k.src, k.dst) else g))
      && o.count == c + (if line == "\n" then 0 else 1)
  {
  }

  lemma {:induction false} RunFinishes(lines: seq<string>)
    ensures Run(lines).Finished? <==> NoCrash(lines)
  {
    if lines != [] {
      var pre := lines[..|lines| - 1];
      RunFinishes(pre);
      if Run(pre).Finished? {
        StepFacts(Run(pre).nodes, Run(pre).count, lines[|lines| - 1]);
      }
      if !NoCrash(pre) {
        var i :| 0 <= i < |pre| && Classify(pre[i]).Crash?;
        assert lines[i] == pre[i];
      }
      assert NoCrash(lines) <==> NoCrash(pre) && !Classify(lines[|lines| - 1]).Crash? by {
        assert forall i :: 0 <= i < |pre| ==> pre[i] == lines[i];
      }
    }
  }

  /**
   * Without a crashing line the run finishes; its records are those built from the accepted lines
   * alone (rejected and ignored lines leave them unchanged), and its count is the number of
   * non-blank lines, valid or not.
   */
  lemma {:induction false} RunSummary(lines: seq<string>)
    ensures Run(lines).Finished? <==> NoCrash(lines)
    ensures Run(lines).Finished? ==>
      Run(lines).nodes == Build(AcceptedEdges(lines)) && Run(lines).count == NonBlankCount(lines)
  {
    RunFinishes(lines);
    RunContents(lines);
  }

  lemma {:induction false} RunContents(lines: seq<string>)
    ensures Run(lines).Finished? ==>
      Run(lines).nodes == Build(AcceptedEdges(lines)) && Run(lines).count == NonBlankCount(lines)
  {
    if lines != [] {
      var pre := lines[..|lines| - 1];
      var last := lines[|lines| - 1];
      var k := Classify(last);
      assert Run(lines) == Step(Run(pre), last);
      assert AcceptedEdges(lines) == AcceptedEdges(pre) + (if k.Accepted? then [(k.src, k.dst)] else []);
      assert NonBlankCount(lines) == NonBlankCount(pre) + (if last == "\n" then 0 else 1);
      if Run(lines).Finished? {
        assert Run(pre).Finished?;
        RunContents(pre);
        StepFacts(Run(pre).nodes, Run(pre).count, last);
        if k.Accepted? {
          BuildSnoc(AcceptedEdges(pre), k.src, k.dst);
        } else {
          assert AcceptedEdges(lines) == AcceptedEdges(pre);
        }
      }
    }
  }

  /** After every line the records satisfy the invariants: unique names, size = |imports|, no repeats. */
  lemma RunWellFormed(lines: seq<string>)
    ensures Run(lines).Finished? ==> WellFormed(Run(lines).nodes)
  {
    RunSummary(lines);
    BuildWellFormed(AcceptedEdges(lines));
  }

  /** The final records are the deduplicated adjacency list of the accepted lines, in first-appearance order. */
  lemma RunIsReference(lines: seq<string>)
    ensures Run(lines).Finished? ==> Run(lines).nodes == Reference(AcceptedEdges(lines))
  {
    RunSummary(lines);
    BuildIsReference(AcceptedEdges(lines));
  }

  lemma {:induction false} CrashIsFinal(lines: seq<string>, n: nat)
    requires n <= |lines| && Run(lines[..n]).Crashed?
    ensures Run(lines) == Run(lines[..n])
  {
    if n < |lines| {
      var pre := lines[..|lines| - 1];
      assert pre[..n] == lines[..n];
      CrashIsFinal(pre, n);
    } else {
      assert lines[..n] == lines;
    }
  }

  /** The first line with fewer than two tokens ends the run, reporting the count it was given. */
  lemma FirstCrash(lines: seq<string>, j: nat)
    requires j < |lines| && Classify(lines[j]).Crash? && NoCrash(lines[..j])
    ensures Run(lines) == Crashed(NonBlankCount(lines[..j + 1]))
  {
    var pre, before := lines[..j + 1], lines[..j];
    assert pre[..|pre| - 1] == before && pre[|pre| - 1] == lines[j];
    assert Run(before).Finished? && Run(before).count == NonBlankCount(before) by {
      RunSummary(before);
    }
    assert lines[j] != "\n";
    assert Run(pre) == Crashed(NonBlankCount(pre));
    CrashIsFinal(lines, j + 1);
  }

  // ---------------------------------------------------------------------------------------------
  // The loop itself, over the record list it mutates.

  class LineLoop {
    /** `json_dicts` */
    var nodes: seq<Node>
    /** `count`: the number of non-blank lines seen so far */
    var count: nat

    constructor ()
      ensures nodes == [] && count == 0
    {
      nodes := [];
      count := 0;
    }

    /** The record update for one accepted line (new `src` record, or `dst` added to it; then a `dst` record). */
    method RecordEdge(src: string, dst: string)
      modifies this
      ensures nodes == AddEdge(old(nodes), src, dst)
      ensures count == old(count)
    {
      ghost var start := nodes;
      if |nodes| == 0 {
        nodes := nodes + [Node(src, 1, [dst])];
      } else if src !in Names(nodes) {
        nodes := nodes + [Node(src, 1, [dst])];
      } else {
        ghost var before := nodes;
        var i := 0;
        while i < |nodes|
          invariant 0 <= i <= |nodes| == |before| && count == old(count)
          invariant forall k :: 0 <= k < i ==> nodes[k] == AddImport(before[k], src, dst)
          invariant forall k :: i <= k < |nodes| ==> nodes[k] == before[k]
        {
          if nodes[i].name == src {
            if dst !in nodes[i].imports {
              nodes := nodes[i := Node(nodes[i].name, nodes[i].size + 1, nodes[i].imports + [dst])];
            }
          }
          i := i + 1;
        }
        assert nodes == AddImports(before, src, dst);
      }
      assert nodes == if src in Names(start) then AddImports(start, src, dst) else start + [Node(src, 1, [dst])];
      ghost var withSrc := nodes;
      if dst !in Names(nodes) {
        nodes := nodes + [Node(dst, 0, [])];
      }
      assert nodes == if dst in Names(withSrc) then withSrc else withSrc + [Node(dst, 0, [])];

    }

    /** One iteration of the loop. */
    method ProcessLine(line: string) returns (kind: LineKind)
      modifies this
      ensures kind == Classify(line)
      ensures Step(Finished(old(nodes), old(count)), line) == if kind.Crash? then Crashed(count) else Finished(nodes, count)
    {
      if line == "\n" {
        return Blank;
      }
      count := count + 1;
      var tokens := Tokens(line);
      if |tokens| < 2 {
        return Crash;
      }
      if tokens[1] != "RECV" {
        return NotRecv;
      }
      var check := ValidateRecvLine(tokens);
      if check.Fail? {
        return Skipped(check.why);
      }
      var srcAddress := FieldValue(tokens[SrcField]);
      if !ValidateNodeAddress(srcAddress) {
        return Skipped(BadSrcAddress);
      }
      var dstAddress := FieldValue(tokens[DstField]);
      if !ValidateNodeAddress(dstAddress) {
        return Skipped(BadDstAddress);
      }
      assert ConvertNodeAddress(srcAddress).Some? && ConvertNodeAddress(dstAddress).Some? by {
        ConvertValid(srcAddress);
        ConvertValid(dstAddress);
      }
      var srcNode := ConvertNodeAddress(srcAddress).value;
      var dstNode := ConvertNodeAddress(dstAddress).value;
      RecordEdge(srcNode, dstNode);
      return Accepted(srcNode, dstNode);
    }
  }

  /** The whole loop over the lines of a log; stops at the first uncaught IndexError. */
  method ConvertLines(lines: seq<string>) returns (r: Outcome)
    ensures r == Run(lines)
    ensures r.Finished? ==> WellFormed(r.nodes) && r.count == NonBlankCount(lines)
  {
    var c := new LineLoop();
    var i := 0;
    while i < |lines|
      invariant 0 <= i <= |lines|
      invariant Run(lines[..i]) == Finished(c.nodes, c.count)
    {
      assert lines[..i + 1][..i] == lines[..i];
      var kind := c.ProcessLine(lines[i]);
      if kind.Crash? {
        CrashIsFinal(lines, i + 1);
        return Crashed(c.count);
      }
      i := i + 1;
    }
    assert lines[..i] == lines;
    RunWellFormed(lines);
    RunSummary(lines);
    return Finished(c.nodes, c.count);
  }
}
