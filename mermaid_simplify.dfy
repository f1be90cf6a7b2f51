/** `simplifyMermaidDiagram`: the fallback used when a repaired diagram
    still fails to render. It throws the diagram away and returns one of
    four fixed skeletons, chosen by what the diagram text mentions. */
module MermaidSimplify {
  import opened Options
  import opened JsString
  import opened JsRegex

  const StateSkeleton: string := "stateDiagram\n    Start --> End"
  const SequenceSkeleton: string :=
    "sequenceDiagram\n" + "    participant A\n" + "    participant B\n" + "    A->>B: Message"

  /** The flowchart skeleton, drawn in direction `dir`. */
  function GraphSkeleton(dir: string): string {
    "graph " + dir + "\n    A[Simplified] --> B[Diagram]"
  }

  // /graph\s+([A-Z]{2})/ : `\s+` takes the whole run of whitespace (giving
  // back a space never lets `[A-Z]` match), then exactly two capitals follow.
  // The hit's text is the captured pair.
  function GraphDirectionMatch(s: string, i: nat): (r: Option<Hit>)
    ensures r.Some? ==> OccursAt(s, "graph", i) && |r.value.text| == 2
    ensures r.Some? ==> IsUpper(r.value.text[0]) && IsUpper(r.value.text[1])
  {
    if !OccursAt(s, "graph", i) then None
    else
      var e := SpanEnd(s, i + 5, IsSpace);
      if e == i + 5 || e + 2 > |s| || !IsUpper(s[e]) || !IsUpper(s[e + 1]) then None
      else Some(Hit(e + 2, s[e..e + 2]))
  }

  /** The direction the flowchart skeleton keeps: the capitals of the
      leftmost `graph <XY>`, or `TD`. */
  function GraphDirection(code: string): (dir: string)
    ensures |dir| == 2 && IsUpper(dir[0]) && IsUpper(dir[1])
  {
    match Exec(GraphDirectionMatch, code, 0)
    case None => "TD"
    case Some(f) => f.text
  }

  predicate MentionsFlowchart(code: string) {
    Contains(code, "graph ") || Contains(code, "flowchart ")
  }

  /** The classifier, in the priority order of its branches. The rewrites
      the state branch performs before returning are overwritten by the
      skeleton and have no effect, so they are not part of the model. */
  function Simplify(code: string): string {
    if Contains(code, "stateDiagram") then StateSkeleton
    else if MentionsFlowchart(code) then GraphSkeleton(GraphDirection(code))
    else if Contains(code, "sequenceDiagram") then SequenceSkeleton
    else GraphSkeleton("TD")
  }

  /** The skeletons are told apart by their second character: the state and
      sequence skeletons differ from each other and from every flowchart
      skeleton, whatever its direction. */
  lemma SkeletonsDistinct(dir: string)
    ensures StateSkeleton != SequenceSkeleton
    ensures StateSkeleton != GraphSkeleton(dir)
    ensures SequenceSkeleton != GraphSkeleton(dir)
  {
    assert StateSkeleton[1] == 't';
    assert SequenceSkeleton[1] == 'e';
    assert GraphSkeleton(dir)[1] == 'r';
  }

  /** Flowchart skeletons are equal exactly when their directions are. */
  lemma GraphSkeletonInjective(d1: string, d2: string)
    requires |d1| == 2 && |d2| == 2
    ensures GraphSkeleton(d1) == GraphSkeleton(d2) <==> d1 == d2
  {
    if GraphSkeleton(d1) == GraphSkeleton(d2) {
      assert d1 == GraphSkeleton(d1)[6..8];
      assert d2 == GraphSkeleton(d2)[6..8];
    }
  }

  /** The state skeleton is returned exactly when the text mentions `stateDiagram`. */
  lemma SimplifyStateIff(code: string)
    ensures Simplify(code) == StateSkeleton <==> Contains(code, "stateDiagram")
  {
    SkeletonsDistinct(GraphDirection(code));
    SkeletonsDistinct("TD");
  }

  /** The sequence skeleton is returned exactly when the text mentions
      `sequenceDiagram` and neither `stateDiagram` nor a flowchart header. */
  lemma SimplifySequenceIff(code: string)
    ensures Simplify(code) == SequenceSkeleton <==>
      !Contains(code, "stateDiagram") && !MentionsFlowchart(code) && Contains(code, "sequenceDiagram")
  {
    SkeletonsDistinct(GraphDirection(code));
    SkeletonsDistinct("TD");
  }

  /** A flowchart skeleton in direction `dir` is returned exactly when the
      text mentions no `stateDiagram` and either mentions a flowchart header
      and `dir` is the captured direction, or mentions none of the three
      kinds and `dir` is `TD`. */
  lemma SimplifyGraphIff(code: string, dir: string)
    requires |dir| == 2
    ensures Simplify(code) == GraphSkeleton(dir) <==>
      !Contains(code, "stateDiagram")
      && (if MentionsFlowchart(code) then dir == GraphDirection(code)
          else !Contains(code, "sequenceDiagram") && dir == "TD")
  {
    SkeletonsDistinct(dir);
    GraphSkeletonInjective(dir, GraphDirection(code));
    GraphSkeletonInjective(dir, "TD");
  }

  /** Every text simplifies to one of the four skeletons, and the flowchart
      skeleton's direction is always two capital letters. */
  lemma SimplifyTotal(code: string)
    ensures var r := Simplify(code);
      r == StateSkeleton || r == SequenceSkeleton
      || exists dir :: |dir| == 2 && IsUpper(dir[0]) && IsUpper(dir[1]) && r == GraphSkeleton(dir)
  {
    var r := Simplify(code);
    if !Contains(code, "stateDiagram") && MentionsFlowchart(code) {
      var dir := GraphDirection(code);
      assert r == GraphSkeleton(dir);
    } else if !Contains(code, "stateDiagram") && !Contains(code, "sequenceDiagram") {
      assert r == GraphSkeleton("TD");
    }
  }

  /** Only `graph` is searched for a direction: a `flowchart LR` diagram
      without any `graph` is simplified to a top-down flowchart. */
  lemma FlowchartDirectionIgnored(code: string)
    requires code == "flowchart LR\nA-->B"
    ensures Simplify(code) == GraphSkeleton("TD")
  {
    assert code[..10] == "flowchart ";
    ContainsAt(code, "flowchart ", 0);
    assert 'D' !in code && 'p' !in code;
    if Contains(code, "stateDiagram") { ContainsHasChar(code, "stateDiagram", 'D'); }
    forall j: nat | j <= |code|
      ensures !HitAt(GraphDirectionMatch, code, j)
    {
      if OccursAt(code, "graph", j) { OccursHasChar(code, "graph", j, 'p'); }
    }
  }

  /** Any whitespace run between `graph` and the capitals is skipped. */
  lemma GraphDirectionAfterSpaces(code: string)
    requires code == "graph \t LR"
    ensures Simplify(code) == GraphSkeleton("LR")
  {
    assert code[..6] == "graph ";
    ContainsAt(code, "graph ", 0);
    assert 'D' !in code;
    if Contains(code, "stateDiagram") { ContainsHasChar(code, "stateDiagram", 'D'); }
    assert code[..5] == "graph";
    SpanEndAt(code, 5, IsSpace, 8);
    assert IsUpper(code[8]) && IsUpper(code[9]) && code[8..10] == "LR";
    assert GraphDirectionMatch(code, 0) == Some(Hit(10, "LR"));
  }
}
