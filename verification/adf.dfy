/** The structured comment bodies of the issue tracker (Atlassian Document Format) as far as the
    comment sync reads and writes them, and the flattening of a body into one string. */
module Adf {
  import opened Wrappers
  import opened Strings

  /** One JSON object of a document tree: its `type` tag, its `content` child list, its `text`
      and the `type` tags of its `marks`. Any key may be absent. */
  datatype Node = Node(kind: Option<string>, content: Option<seq<Node>>, text: Option<string>, marks: seq<string>)

  /** The `body` of a tracker comment: a JSON object with optional `type`, `version` and
      `content` keys, or some JSON value that is not an object at all. */
  datatype Body =
    | Document(kind: Option<string>, version: Option<int>, content: Option<seq<Node>>)
    | NotAnObject

  /** A top-level node whose runs are read: tagged `paragraph` and holding a `content` key. */
  predicate IsParagraph(n: Node) {
    n.kind == Some("paragraph") && n.content.Some?
  }

  /** A child node whose `text` is read: tagged `text`. */
  predicate IsTextRun(n: Node) {
    n.kind == Some("text")
  }

  /** What one child of a paragraph contributes: its `text` (default "") if it is a text run. */
  function RunText(n: Node): string {
    if IsTextRun(n) then n.text.GetOr("") else ""
  }

  /** The runs of one paragraph, in order, with no separator. */
  function ParagraphText(runs: seq<Node>): string {
    if runs == [] then "" else RunText(runs[0]) + ParagraphText(runs[1..])
  }

  /** What one top-level node contributes. Nodes other than paragraphs, and anything nested
      deeper than a paragraph's direct children, contribute nothing. */
  function NodeText(n: Node): string {
    if IsParagraph(n) then ParagraphText(n.content.value) else ""
  }

  function FlattenNodes(nodes: seq<Node>): string {
    if nodes == [] then "" else NodeText(nodes[0]) + FlattenNodes(nodes[1..])
  }

  /** The single string a tracker comment is reduced to for the duplicate check. */
  function Flatten(b: Body): (r: string)
    ensures b.NotAnObject? || b.content.None? ==> r == ""
  {
    match b
    case Document(_, _, Some(nodes)) => FlattenNodes(nodes)
    case _ => ""
  }

  /** Flattening the runs of a paragraph distributes over concatenation of the run list. */
  lemma {:induction false} ParagraphTextAppend(a: seq<Node>, b: seq<Node>)
    ensures ParagraphText(a + b) == ParagraphText(a) + ParagraphText(b)
  {
    if a == [] {
      assert a + b == b;
    } else {
      assert (a + b)[1..] == a[1..] + b;
      ParagraphTextAppend(a[1..], b);
    }
  }

  /** Flattening distributes over concatenation of the top-level node list: the flattened text
      is associative over paragraphs. */
  lemma {:induction false} FlattenNodesAppend(a: seq<Node>, b: seq<Node>)
    ensures FlattenNodes(a + b) == FlattenNodes(a) + FlattenNodes(b)
  {
    if a == [] {
      assert a + b == b;
    } else {
      assert (a + b)[1..] == a[1..] + b;
      FlattenNodesAppend(a[1..], b);
    }
  }

  /** A single top-level node flattens to exactly its own contribution. */
  lemma FlattenSingleton(n: Node)
    ensures FlattenNodes([n]) == NodeText(n)
  {
    assert [n][1..] == [];
  }

  /** A single run contributes exactly its own text. */
  lemma ParagraphSingleton(n: Node)
    ensures ParagraphText([n]) == RunText(n)
  {
    assert [n][1..] == [];
  }

  /** A node that is not a paragraph with content can be inserted anywhere without changing
      the flattened text. */
  lemma FlattenIgnoresOtherNodes(a: seq<Node>, n: Node, b: seq<Node>)
    requires !IsParagraph(n)
    ensures FlattenNodes(a + [n] + b) == FlattenNodes(a + b)
  {
    FlattenNodesAppend(a + [n], b);
    FlattenNodesAppend(a, [n]);
    FlattenSingleton(n);
    FlattenNodesAppend(a, b);
  }

  /** Likewise a child of a paragraph that is not a text run. */
  lemma ParagraphIgnoresOtherRuns(a: seq<Node>, n: Node, b: seq<Node>)
    requires !IsTextRun(n)
    ensures ParagraphText(a + [n] + b) == ParagraphText(a + b)
  {
    ParagraphTextAppend(a + [n], b);
    ParagraphTextAppend(a, [n]);
    assert [n][1..] == [];
    ParagraphTextAppend(a, b);
  }

  /** A text run's text appears, as a contiguous piece, in its paragraph's text. */
  lemma {:induction false} RunOccurs(runs: seq<Node>, j: int)
    requires 0 <= j < |runs| && IsTextRun(runs[j])
    ensures IsSubstring(runs[j].text.GetOr(""), ParagraphText(runs))
    decreases j
  {
    var p := ParagraphText(runs);
    assert p == RunText(runs[0]) + ParagraphText(runs[1..]);
    if j == 0 {
      SubstringOfConcat(RunText(runs[0]), ParagraphText(runs[1..]));
    } else {
      RunOccurs(runs[1..], j - 1);
      assert runs[1..][j - 1] == runs[j];
      SubstringOfConcat(RunText(runs[0]), ParagraphText(runs[1..]));
      SubstringTrans(runs[j].text.GetOr(""), ParagraphText(runs[1..]), p);
    }
  }

  /** A top-level node's text appears, as a contiguous piece, in the flattened string. */
  lemma {:induction false} NodeOccurs(nodes: seq<Node>, i: int)
    requires 0 <= i < |nodes|
    ensures IsSubstring(NodeText(nodes[i]), FlattenNodes(nodes))
    decreases i
  {
    var f := FlattenNodes(nodes);
    assert f == NodeText(nodes[0]) + FlattenNodes(nodes[1..]);
    if i == 0 {
      SubstringOfConcat(NodeText(nodes[0]), FlattenNodes(nodes[1..]));
    } else {
      NodeOccurs(nodes[1..], i - 1);
      assert nodes[1..][i - 1] == nodes[i];
      SubstringOfConcat(NodeText(nodes[0]), FlattenNodes(nodes[1..]));
      SubstringTrans(NodeText(nodes[i]), FlattenNodes(nodes[1..]), f);
    }
  }

  /** The text of every text run of every paragraph appears, as a contiguous piece, in the
      flattened string. */
  lemma TextRunOccurs(nodes: seq<Node>, i: int, j: int)
    requires 0 <= i < |nodes| && IsParagraph(nodes[i])
    requires 0 <= j < |nodes[i].content.value| && IsTextRun(nodes[i].content.value[j])
    ensures IsSubstring(nodes[i].content.value[j].text.GetOr(""), FlattenNodes(nodes))
  {
    RunOccurs(nodes[i].content.value, j);
    NodeOccurs(nodes, i);
    SubstringTrans(nodes[i].content.value[j].text.GetOr(""), NodeText(nodes[i]), FlattenNodes(nodes));
  }

  /** The inner loop: a paragraph's text runs, accumulated one by one. */
  method ParagraphRuns(runs: seq<Node>) returns (text: string)
    ensures text == ParagraphText(runs)
  {
    text := "";
    var j := 0;
    while j < |runs|
      invariant 0 <= j <= |runs|
      invariant text == ParagraphText(runs[..j])
    {
      if runs[j].kind == Some("text") {
        text := text + runs[j].text.GetOr("");
      }
      ParagraphTextAppend(runs[..j], [runs[j]]);
      ParagraphSingleton(runs[j]);
      assert runs[..j + 1] == runs[..j] + [runs[j]];
      j := j + 1;
    }
    assert runs[..j] == runs;
  }

  /** The nested loop that accumulates a comment's text run by run. */
  method FlattenComment(b: Body) returns (text: string)
    ensures text == Flatten(b)
  {
    text := "";
    if b.NotAnObject? || b.content.None? {
      return;
    }
    var nodes := b.content.value;
    var i := 0;
    while i < |nodes|
      invariant 0 <= i <= |nodes|
      invariant text == FlattenNodes(nodes[..i])
    {
      var n := nodes[i];
      if n.kind == Some("paragraph") && n.content.Some? {
        var p := ParagraphRuns(n.content.value);
        text := text + p;
      }
      FlattenNodesAppend(nodes[..i], [n]);
      FlattenSingleton(n);
      assert nodes[..i + 1] == nodes[..i] + [n];
      i := i + 1;
    }
    assert nodes[..i] == nodes;
  }
}
