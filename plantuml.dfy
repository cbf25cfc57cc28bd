/**
 * generatePlantUML of dz2/plantuml-gen.js: the dependency graph written as
 * a PlantUML "digraph" block, one edge line per (package, dependency) pair,
 * the lines joined with "\n".
 */
module PlantUml {
  import opened PackageParser

  const START := "@startuml"
  const OPEN := "digraph G {"
  const CLOSE := "}"
  const END := "@enduml"

  /** The line for one edge:   "node" -> "dep"; */
  function EdgeLine(node: string, dep: string): string
  {
    "  \"" + node + "\" -> \"" + dep + "\";"
  }

  /** The edge lines of one package, in the order of its dependencies. */
  function NodeLines(node: string, deps: seq<string>): (r: seq<string>)
  {
    if deps == [] then [] else NodeLines(node, deps[..|deps| - 1]) + [EdgeLine(node, deps[|deps| - 1])]
  }

  /** The edge lines of all packages, in the order of the graph's entries. */
  function EdgeLines(graph: Graph): seq<string>
  {
    if graph == [] then []
    else
      var last := graph[|graph| - 1];
      EdgeLines(graph[..|graph| - 1]) + NodeLines(last.0, last.1)
  }

  /** The number of (package, dependency) pairs. */
  function EdgeCount(graph: Graph): nat
  {
    if graph == [] then 0 else EdgeCount(graph[..|graph| - 1]) + |graph[|graph| - 1].1|
  }

  /** The lines of the diagram. */
  function DiagramLines(graph: Graph): seq<string>
  {
    [START, OPEN] + EdgeLines(graph) + [CLOSE, END]
  }

  /** Array.prototype.join with separator "\n". */
  function JoinLines(lines: seq<string>): string
  {
    if lines == [] then ""
    else if |lines| == 1 then lines[0]
    else lines[0] + "\n" + JoinLines(lines[1..])
  }

  /** The text generatePlantUML returns. */
  function Diagram(graph: Graph): string
  {
    JoinLines(DiagramLines(graph))
  }

  /** generatePlantUML: collects the lines in a list, then joins them. */
  method GeneratePlantUML(graph: Graph) returns (text: string)
    ensures text == Diagram(graph)
  {
    var lines := [START, OPEN];
    var i := 0;
    while i < |graph|
      invariant 0 <= i <= |graph|
      invariant lines == [START, OPEN] + EdgeLines(graph[..i])
    {
      var (node, deps) := graph[i];
      var j := 0;
      while j < |deps|
        invariant 0 <= j <= |deps|
        invariant lines == [START, OPEN] + EdgeLines(graph[..i]) + NodeLines(node, deps[..j])
      {
        assert deps[..j + 1][..j] == deps[..j];
        lines := lines + [EdgeLine(node, deps[j])];
        j := j + 1;
      }
      assert graph[..i + 1][..i] == graph[..i] && deps[..j] == deps;
      i := i + 1;
    }
    assert graph[..i] == graph;
    lines := lines + [CLOSE, END];
    text := JoinLines(lines);
  }

  // ---------------------------------------------------------------------
  // The shape of the diagram
  // ---------------------------------------------------------------------

  /** One line per dependency of a package, each naming the package and that dependency. */
  lemma {:induction false} NodeLinesAt(node: string, deps: seq<string>)
    ensures |NodeLines(node, deps)| == |deps|
    ensures forall j :: 0 <= j < |deps| ==> NodeLines(node, deps)[j] == EdgeLine(node, deps[j])
  {
    if deps != [] {
      NodeLinesAt(node, deps[..|deps| - 1]);
    }
  }

  /** The edge lines of two runs of entries are those of the first run, then those of the second. */
  lemma {:induction false} EdgeLinesAppend(g1: Graph, g2: Graph)
    ensures EdgeLines(g1 + g2) == EdgeLines(g1) + EdgeLines(g2)
    ensures EdgeCount(g1 + g2) == EdgeCount(g1) + EdgeCount(g2)
    decreases |g2|
  {
    if g2 == [] {
      assert g1 + g2 == g1;
    } else {
      var init, last := g2[..|g2| - 1], g2[|g2| - 1];
      var g := g1 + g2;
      assert g[..|g| - 1] == g1 + init && g[|g| - 1] == last;
      EdgeLinesAppend(g1, init);
      var tail := NodeLines(last.0, last.1);
      calc {
        EdgeLines(g);
        EdgeLines(g1 + init) + tail;
        (EdgeLines(g1) + EdgeLines(init)) + tail;
        { assert (EdgeLines(g1) + EdgeLines(init)) + tail == EdgeLines(g1) + (EdgeLines(init) + tail); }
        EdgeLines(g1) + EdgeLines(g2);
      }
    }
  }

  /** There are as many edge lines as (package, dependency) pairs. */
  lemma {:induction false} EdgeLinesCount(graph: Graph)
    ensures |EdgeLines(graph)| == EdgeCount(graph)
  {
    if graph != [] {
      var last := graph[|graph| - 1];
      EdgeLinesCount(graph[..|graph| - 1]);
      NodeLinesAt(last.0, last.1);
    }
  }

  /**
   * Edge lines follow entry order, then dependency order: the line for the
   * j-th dependency of the i-th entry comes after the lines of all earlier
   * entries and earlier dependencies.
   */
  lemma EdgeLineAt(graph: Graph, i: nat, j: nat)
    requires i < |graph| && j < |graph[i].1|
    ensures EdgeCount(graph[..i]) + j < |EdgeLines(graph)|
    ensures EdgeLines(graph)[EdgeCount(graph[..i]) + j] == EdgeLine(graph[i].0, graph[i].1[j])
  {
    var before, entry, after := graph[..i], [graph[i]], graph[i + 1..];
    assert graph == before + entry + after;
    EdgeLinesAppend(before + entry, after);
    EdgeLinesAppend(before, entry);
    EdgeLinesCount(before);
    assert entry[..0] == [];
    assert EdgeLines(entry) == NodeLines(graph[i].0, graph[i].1);
    NodeLinesAt(graph[i].0, graph[i].1);
  }

  /** A package without dependencies contributes no line. */
  lemma NoDependenciesNoLine(g1: Graph, node: string, g2: Graph)
    ensures EdgeLines(g1 + [(node, [])] + g2) == EdgeLines(g1 + g2)
  {
    var entry: Graph := [(node, [])];
    EdgeLinesAppend(g1 + entry, g2);
    EdgeLinesAppend(g1, entry);
    EdgeLinesAppend(g1, g2);
    assert entry[..0] == [];
  }

  /** The diagram opens with @startuml and digraph G {, closes with } and @enduml, and has 4 lines more than edges. */
  lemma DiagramFrame(graph: Graph)
    ensures var lines := DiagramLines(graph);
      && |lines| == 4 + EdgeCount(graph)
      && lines[0] == START && lines[1] == OPEN
      && lines[|lines| - 2] == CLOSE && lines[|lines| - 1] == END
  {
    EdgeLinesCount(graph);
  }

  // ---------------------------------------------------------------------
  // The joined text
  // ---------------------------------------------------------------------

  /** String.prototype.split("\n"). */
  function SplitLines(s: string): (r: seq<string>)
    ensures |r| >= 1
  {
    if s == [] then [""]
    else if s[0] == '\n' then [""] + SplitLines(s[1..])
    else
      var r := SplitLines(s[1..]);
      [[s[0]] + r[0]] + r[1..]
  }

  /** Splitting a line without "\n" that is followed by "\n" and more text. */
  lemma {:induction false} SplitAfterLine(line: string, rest: string)
    requires '\n' !in line
    ensures SplitLines(line + "\n" + rest) == [line] + SplitLines(rest)
    ensures SplitLines(line) == [line]
  {
    if line != [] {
      SplitAfterLine(line[1..], rest);
      assert (line + "\n" + rest)[1..] == line[1..] + "\n" + rest;
      assert [line[0]] + line[1..] == line;
    } else {
      assert line + "\n" + rest == "\n" + rest;
      assert ("\n" + rest)[1..] == rest;
    }
  }

  /** Splitting the joined lines at "\n" gives the lines back when no line holds a "\n". */
  lemma {:induction false} SplitJoin(lines: seq<string>)
    requires lines != [] && forall k :: 0 <= k < |lines| ==> '\n' !in lines[k]
    ensures SplitLines(JoinLines(lines)) == lines
  {
    SplitAfterLine(lines[0], "");
    if |lines| > 1 {
      SplitJoin(lines[1..]);
      SplitAfterLine(lines[0], JoinLines(lines[1..]));
      assert [lines[0]] + lines[1..] == lines;
    }
  }

  /** The joined text ends with the last line: the separator only goes between lines. */
  lemma {:induction false} JoinEndsWithLast(lines: seq<string>)
    requires lines != []
    ensures var text, last := JoinLines(lines), lines[|lines| - 1];
      |last| <= |text| && text[|text| - |last|..] == last
  {
    if |lines| > 1 {
      JoinEndsWithLast(lines[1..]);
      var text, tail := JoinLines(lines), JoinLines(lines[1..]);
      assert text == lines[0] + "\n" + tail;
      assert text[|text| - |tail|..] == tail;
    }
  }

  /**
   * The text splits back into the diagram's lines when no package name
   * holds a "\n", and it ends with @enduml, with no newline after it.
   */
  lemma DiagramText(graph: Graph)
    requires forall k :: 0 <= k < |graph| ==> '\n' !in graph[k].0 && forall j :: 0 <= j < |graph[k].1| ==> '\n' !in graph[k].1[j]
    ensures SplitLines(Diagram(graph)) == DiagramLines(graph)
    ensures var text := Diagram(graph); |text| >= |END| && text[|text| - |END|..] == END
  {
    var lines := DiagramLines(graph);
    DiagramFrame(graph);
    EdgeLinesNoNewline(graph);
    forall n | 0 <= n < |lines|
      ensures '\n' !in lines[n]
    {
      if 2 <= n < |lines| - 2 {
        assert lines[n] == EdgeLines(graph)[n - 2];
      }
    }
    SplitJoin(lines);
    JoinEndsWithLast(lines);
  }

  /** An edge line holds a "\n" only if its package or dependency name does. */
  lemma {:induction false} EdgeLinesNoNewline(graph: Graph)
    requires forall k :: 0 <= k < |graph| ==> '\n' !in graph[k].0 && forall j :: 0 <= j < |graph[k].1| ==> '\n' !in graph[k].1[j]
    ensures forall n :: 0 <= n < |EdgeLines(graph)| ==> '\n' !in EdgeLines(graph)[n]
  {
    if graph != [] {
      var init, last := graph[..|graph| - 1], graph[|graph| - 1];
      EdgeLinesNoNewline(init);
      NodeLinesAt(last.0, last.1);
      var lines := NodeLines(last.0, last.1);
      forall j | 0 <= j < |lines|
        ensures '\n' !in lines[j]
      {
        assert lines[j] == "  \"" + last.0 + "\" -> \"" + last.1[j] + "\";";
      }
    }
  }
}
