/** The Mermaid repair pass `fixMermaidSyntax`: seventeen pattern rewrites
    applied in a fixed order, followed by a clean-up of the diagram header.
    Each rewrite is a matcher (the match its regular expression finds at an
    index and the text that replaces it) and a pass built from it; the
    derivation of each matcher from the backtracking semantics of its
    pattern is given beside it. */
module MermaidRepair {
  import opened Options
  import opened JsString
  import opened JsRegex

  function Min(a: nat, b: nat): nat {
    if a <= b then a else b
  }

  /** `prefix` followed by a greedy, non-empty run of `cls`, replaced by
      `lead` and the run. A shorter run would be followed by another `cls`
      character, so the longest run is the only match. */
  function PrefixRun(s: string, i: nat, prefix: string, cls: char -> bool, lead: string): (r: Option<Hit>)
    ensures r.Some? ==> OccursAt(s, prefix, i)
    ensures r.Some? ==> i + |prefix| < r.value.end <= |s|
  {
    if !OccursAt(s, prefix, i) then None
    else
      var e := SpanEnd(s, i + |prefix|, cls);
      if e == i + |prefix| then None else Some(Hit(e, lead + s[i + |prefix|..e]))
  }

  // ---------------------------------------------------------------------
  // Fix 1: /(\w+)\s+--\s+([^-]+)\s+-->\s+(\w+)/g  ->  `${state1} --> ${state2} : ${text.trim()}`
  //
  // The first `\w+` and the `\s+` before `--` can only take their longest
  // runs. `[^-]+` runs up to the first `-` at index p; the `\s+` before `-->`
  // must end at p, so greedy backtracking gives it exactly the one
  // character at p-1 (which must be whitespace), and the `\s+` after `--`
  // keeps its longest run unless that would leave `[^-]+` empty.
  // ---------------------------------------------------------------------
  function FeedbackTransitionMatch(s: string, i: nat): Option<Hit> {
    if i >= |s| then None
    else
      var a := SpanEnd(s, i, IsWordChar);
      var b := SpanEnd(s, a, IsSpace);
      if a == i || b == a || !OccursAt(s, "--", b) then None
      else
        var c := b + 2;
        var k := SpanEnd(s, c, IsSpace);
        match IndexOf(s, "-", c)
        case None => None
        case Some(p) =>
          if k == c || p < c + 3 || !IsSpace(s[p - 1]) || !OccursAt(s, "-->", p) then None
          else
            var t := Min(k, p - 2);
            var e := p + 3;
            var f := SpanEnd(s, e, IsSpace);
            var g := SpanEnd(s, f, IsWordChar);
            if f == e || g == f then None
            else Some(Hit(g, s[i..a] + " --> " + s[f..g] + " : " + Trim(s[t..p - 1])))
  }

  /** Fix 1 runs only when the ORIGINAL code mentions `stateDiagram` or,
      trimmed, starts with `state`. */
  function FixFeedbackTransitions(original: string, code: string): string {
    if Contains(original, "stateDiagram") || StartsWith(Trim(original), "state")
    then ReplaceAll(FeedbackTransitionMatch, code)
    else code
  }

  // ---------------------------------------------------------------------
  // Fix 2: if the original contains `graph ` but no `graph (TD|TB|LR|RL)`,
  // the first `graph ` of the current code becomes `graph TD `.
  // ---------------------------------------------------------------------
  function GraphSpaceMatch(s: string, i: nat): Option<Hit> {
    LiteralHit("graph ", "graph TD ", s, i)
  }

  predicate HasDirection(s: string) {
    Contains(s, "graph TD") || Contains(s, "graph TB") || Contains(s, "graph LR") || Contains(s, "graph RL")
  }

  function AddMissingDirection(original: string, code: string): string {
    if Contains(original, "graph ") && !HasDirection(original)
    then ReplaceFirst(GraphSpaceMatch, code)
    else code
  }

  // ---------------------------------------------------------------------
  // Fix 3: /(graph|flowchart)_([A-Za-z0-9]+)/g  ->  `${type} ${direction}`
  // ---------------------------------------------------------------------
  function GraphTypeUnderscoreMatch(s: string, i: nat): Option<Hit> {
    match PrefixRun(s, i, "graph_", IsAlnum, "graph ")
    case Some(h) => Some(h)
    case None => PrefixRun(s, i, "flowchart_", IsAlnum, "flowchart ")
  }

  function RemoveGraphTypeUnderscores(code: string): string {
    ReplaceAll(GraphTypeUnderscoreMatch, code)
  }

  // ---------------------------------------------------------------------
  // Fix 4: if the CURRENT code contains `stateDiagram_v2` or
  // `stateDiagram-v2`, /stateDiagram[_-]v2/g -> `stateDiagram`.
  // ---------------------------------------------------------------------
  function StateDiagramV2Match(s: string, i: nat): Option<Hit> {
    if OccursAt(s, "stateDiagram_v2", i) || OccursAt(s, "stateDiagram-v2", i)
    then Some(Hit(i + 15, "stateDiagram"))
    else None
  }

  function CollapseStateDiagramV2(code: string): string {
    if Contains(code, "stateDiagram_v2") || Contains(code, "stateDiagram-v2")
    then ReplaceAll(StateDiagramV2Match, code)
    else code
  }

  // ---------------------------------------------------------------------
  // Fix 5: /state_([A-Za-z0-9]+)\s*{/g  ->  `state "${stateName}" {`
  // Both runs can only be taken whole: a shorter one is followed by a
  // character of its own class instead of the next token.
  // ---------------------------------------------------------------------
  function StateDeclarationMatch(s: string, i: nat): Option<Hit> {
    if !OccursAt(s, "state_", i) then None
    else
      var e := SpanEnd(s, i + 6, IsAlnum);
      var w := SpanEnd(s, e, IsSpace);
      if e == i + 6 || w == |s| || s[w] != '{' then None
      else Some(Hit(w + 1, "state \"" + s[i + 6..e] + "\" {"))
  }

  function QuoteStateDeclarations(code: string): string {
    ReplaceAll(StateDeclarationMatch, code)
  }

  // ---------------------------------------------------------------------
  // Fix 6: /\bend\s*\[/g  ->  `endNode [`
  // `\b` before the word character `e` holds at the start of the text or
  // after a non-word character.
  // ---------------------------------------------------------------------
  function EndNodeMatch(s: string, i: nat): Option<Hit> {
    if !OccursAt(s, "end", i) || (i > 0 && IsWordChar(s[i - 1])) then None
    else
      var w := SpanEnd(s, i + 3, IsSpace);
      if w == |s| || s[w] != '[' then None else Some(Hit(w + 1, "endNode ["))
  }

  function RenameEndNodes(code: string): string {
    ReplaceAll(EndNodeMatch, code)
  }

  // ---------------------------------------------------------------------
  // Fix 7: /===/g  ->  `-->`
  // ---------------------------------------------------------------------
  function TripleEqualsMatch(s: string, i: nat): Option<Hit> {
    LiteralHit("===", "-->", s, i)
  }

  function ReplaceTripleEquals(code: string): string {
    ReplaceAll(TripleEqualsMatch, code)
  }

  // ---------------------------------------------------------------------
  // Fix 8: /classDef\s+(\w+)\s+"([^"]+)"/g  ->  `classDef ${className} ${fixedStyle}`
  // Every run is taken whole; `[^"]+` ends at the next `"`.
  // fixedStyle is the style string put through three rewrites that give
  // back what they match (lines 76-78), so the net effect is that the
  // quotes disappear.
  // ---------------------------------------------------------------------

  /** [a-zA-Z-] */
  predicate IsStyleKeyChar(c: char) {
    'A' <= c <= 'Z' || 'a' <= c <= 'z' || c == '-'
  }

  /** /([a-zA-Z-]+):([^,]+)/g -> '$1:$2': the replacement spells out the match. */
  function StyleColonMatch(s: string, i: nat): Option<Hit> {
    if i >= |s| then None
    else
      var a := SpanEnd(s, i, IsStyleKeyChar);
      if a == i || a == |s| || s[a] != ':' then None
      else
        var e := SpanEnd(s, a + 1, c => c != ',');
        if e == a + 1 then None else Some(Hit(e, s[i..a] + ":" + s[a + 1..e]))
  }

  function StrokeWidthMatch(s: string, i: nat): Option<Hit> {
    LiteralHit("stroke-width", "stroke-width", s, i)
  }

  function StrokeDasharrayMatch(s: string, i: nat): Option<Hit> {
    LiteralHit("stroke-dasharray", "stroke-dasharray", s, i)
  }

  function FixStyle(style: string): string {
    ReplaceAll(StrokeDasharrayMatch, ReplaceAll(StrokeWidthMatch, ReplaceAll(StyleColonMatch, style)))
  }

  /** The three style rewrites give back their input. */
  lemma FixStyleIsIdentity(style: string)
    ensures FixStyle(style) == style
  {
    forall j | 0 <= j < |style| && HitAt(StyleColonMatch, style, j)
      ensures StyleColonMatch(style, j).value.text == style[j..StyleColonMatch(style, j).value.end]
    {
      StyleColonVerbatim(style, j);
    }
    ReplaceIdentity(StyleColonMatch, style, 0);
    ReplaceIdentity(StrokeWidthMatch, style, 0);
    ReplaceIdentity(StrokeDasharrayMatch, style, 0);
  }

  /** A match of the key-colon pattern is rewritten to its own text. */
  lemma StyleColonVerbatim(s: string, j: nat)
    requires HitAt(StyleColonMatch, s, j)
    ensures StyleColonMatch(s, j).value.text == s[j..StyleColonMatch(s, j).value.end]
  {
    var a := SpanEnd(s, j, IsStyleKeyChar);
    var e := SpanEnd(s, a + 1, c => c != ',');
    assert StyleColonMatch(s, j).value == Hit(e, s[j..a] + ":" + s[a + 1..e]);
    ColonPieces(s, j, a, e);
  }

  lemma ColonPieces(s: string, j: nat, a: nat, e: nat)
    requires j <= a < e <= |s| && s[a] == ':'
    ensures s[j..a] + ":" + s[a + 1..e] == s[j..e]
  {
    assert s[j..e] == s[j..a] + [s[a]] + s[a + 1..e];
  }

  function ClassDefStyleMatch(s: string, i: nat): Option<Hit> {
    if !OccursAt(s, "classDef", i) then None
    else
      var a := SpanEnd(s, i + 8, IsSpace);
      var b := SpanEnd(s, a, IsWordChar);
      var c := SpanEnd(s, b, IsSpace);
      if a == i + 8 || b == a || c == b || c == |s| || s[c] != '"' then None
      else
        match IndexOf(s, "\"", c + 1)
        case None => None
        case Some(q) =>
          if q == c + 1 then None
          else Some(Hit(q + 1, "classDef " + s[a..b] + " " + FixStyle(s[c + 1..q])))
  }

  function UnquoteClassDefStyles(code: string): string {
    ReplaceAll(ClassDefStyleMatch, code)
  }

  // ---------------------------------------------------------------------
  // Fix 9: /class\s+([A-Za-z0-9,\s]+)\s+(\w+)_(\w+)/g
  //        ->  `class ${nodes} ${style1}${style2}`
  //
  // Whitespace belongs to the node-list class, so backtracking matters.
  // The node list is followed by whitespace at some index m and then by a
  // word run that holds a `_` with word characters on both sides; the
  // longest node list wins, so m is the LAST index (before the end of the
  // run of node-list characters) that works. style1 reaches the LAST
  // such `_`. The leading `\s+` keeps its longest run unless that would
  // leave the node list empty.
  // ---------------------------------------------------------------------
  predicate IsClassListChar(c: char) {
    IsAlnum(c) || c == ',' || IsSpace(c)
  }

  /** The last `_` at an index in [lo, hi). */
  function LastUnderscore(s: string, lo: nat, hi: nat): (r: Option<nat>)
    requires hi <= |s|
    ensures r.Some? ==> lo <= r.value < hi && s[r.value] == '_'
    decreases hi
  {
    if hi <= lo then None
    else if s[hi - 1] == '_' then Some(hi - 1)
    else LastUnderscore(s, lo, hi - 1)
  }

  /** Where `(\w+)_(\w+)` splits the word run starting at x, if it can. */
  function StyleSplit(s: string, x: nat): (r: Option<nat>)
    requires x <= |s|
    ensures r.Some? ==> x < r.value && r.value + 1 < SpanEnd(s, x, IsWordChar) && s[r.value] == '_'
  {
    var y := SpanEnd(s, x, IsWordChar);
    if y < x + 3 then None else LastUnderscore(s, x + 1, y - 1)
  }

  predicate NodeListEndsAt(s: string, m: nat) {
    m < |s| && IsSpace(s[m]) && StyleSplit(s, SpanEnd(s, m, IsSpace)).Some?
  }

  /** The last m in [lo, hi) at which the node list can end. */
  function LastNodeListEnd(s: string, lo: nat, hi: nat): (r: Option<nat>)
    requires hi <= |s|
    ensures r.Some? ==> lo <= r.value < hi && NodeListEndsAt(s, r.value)
    decreases hi
  {
    if hi <= lo then None
    else if NodeListEndsAt(s, hi - 1) then Some(hi - 1)
    else LastNodeListEnd(s, lo, hi - 1)
  }

  function ClassUsageMatch(s: string, i: nat): Option<Hit> {
    if !OccursAt(s, "class", i) then None
    else
      var c := i + 5;
      var n := SpanEnd(s, c, IsSpace);
      var z := SpanEnd(s, c, IsClassListChar);
      if n == c then None
      else
        match LastNodeListEnd(s, c + 2, z)
        case None => None
        case Some(m) =>
          var n0 := c + Min(n - c, m - c - 1);
          var x := SpanEnd(s, m, IsSpace);
          var y := SpanEnd(s, x, IsWordChar);
          var u := StyleSplit(s, x).value;
          Some(Hit(y, "class " + s[n0..m] + " " + s[x..u] + s[u + 1..y]))
  }

  function JoinClassUsageStyles(code: string): string {
    ReplaceAll(ClassUsageMatch, code)
  }

  // ---------------------------------------------------------------------
  // Fix 10: /class_([A-Za-z0-9]+)\s+(\w+)/g  ->  `class ${id} ${style}`
  // ---------------------------------------------------------------------
  function ClassIdMatch(s: string, i: nat): Option<Hit> {
    if !OccursAt(s, "class_", i) then None
    else
      var e := SpanEnd(s, i + 6, IsAlnum);
      var w := SpanEnd(s, e, IsSpace);
      var y := SpanEnd(s, w, IsWordChar);
      if e == i + 6 || w == e || y == w then None
      else Some(Hit(y, "class " + s[i + 6..e] + " " + s[w..y]))
  }

  function SplitClassIds(code: string): string {
    ReplaceAll(ClassIdMatch, code)
  }

  // ---------------------------------------------------------------------
  // Fix 11: /\[([^"'\]]+\s+[^"'\]]+)\]/g with a callback that quotes the
  // label unless it starts or ends with a quote.
  // Whitespace is itself in [^"'\]], so the label is everything up to the
  // next `"`, `'` or `]`, which must be `]`; it matches when a whitespace
  // character sits at an index with label text on both sides of it.
  // ---------------------------------------------------------------------
  predicate IsLabelChar(c: char) {
    c != '"' && c != '\'' && c != ']'
  }

  /** Some whitespace character at an index in [lo, hi). */
  predicate SpaceIn(s: string, lo: nat, hi: nat)
    requires hi <= |s|
    decreases hi
  {
    hi > lo && (IsSpace(s[hi - 1]) || SpaceIn(s, lo, hi - 1))
  }

  function QuoteLabel(inner: string, matched: string): string {
    if !StartsWith(inner, "\"") && !EndsWith(inner, "\"") && !StartsWith(inner, "'") && !EndsWith(inner, "'")
    then "[\"" + inner + "\"]"
    else matched
  }

  function LabelMatch(s: string, i: nat): Option<Hit> {
    if i >= |s| || s[i] != '[' then None
    else
      var z := SpanEnd(s, i + 1, IsLabelChar);
      if z == |s| || s[z] != ']' || !SpaceIn(s, i + 2, z - 1) then None
      else Some(Hit(z + 1, QuoteLabel(s[i + 1..z], s[i..z + 1])))
  }

  function QuoteLabels(code: string): string {
    ReplaceAll(LabelMatch, code)
  }

  // ---------------------------------------------------------------------
  // Fix 12: /\b(\w+)[-\s](\w+)\b(?!\])/g with a callback that joins the
  // two parts by `_` unless the match contains a bracket.
  // Both word runs can only be taken whole (a shorter second run fails
  // `\b`), and `\b` at the start needs a non-word character (or nothing)
  // before it.
  // ---------------------------------------------------------------------
  function NodeIdMatch(s: string, i: nat): Option<Hit> {
    if i >= |s| || !IsWordChar(s[i]) || (i > 0 && IsWordChar(s[i - 1])) then None
    else
      var a := SpanEnd(s, i, IsWordChar);
      if a == |s| || !(s[a] == '-' || IsSpace(s[a])) then None
      else
        var b := SpanEnd(s, a + 1, IsWordChar);
        if b == a + 1 || (b < |s| && s[b] == ']') then None
        else
          var matched := s[i..b];
          Some(Hit(b, if HasBracket(matched) then matched else s[i..a] + "_" + s[a + 1..b]))
  }

  /** The callback's test `match.includes('[') || match.includes(']')`. */
  predicate HasBracket(t: string) {
    '[' in t || ']' in t
  }

  function JoinNodeIds(code: string): string {
    ReplaceAll(NodeIdMatch, code)
  }

  // ---------------------------------------------------------------------
  // Fix 13: /subgraph_([A-Za-z0-9]+)/g  ->  `subgraph ${name}`
  // ---------------------------------------------------------------------
  function SubgraphMatch(s: string, i: nat): Option<Hit> {
    PrefixRun(s, i, "subgraph_", IsAlnum, "subgraph ")
  }

  function SplitSubgraphs(code: string): string {
    ReplaceAll(SubgraphMatch, code)
  }

  // ---------------------------------------------------------------------
  // Fix 14: /(\w+)\s+end\s+/g  ->  `${prev}\nend\n`
  // The trailing `\s+` takes all the whitespace after `end`.
  // ---------------------------------------------------------------------
  function EndSpacingMatch(s: string, i: nat): Option<Hit> {
    if i >= |s| then None
    else
      var a := SpanEnd(s, i, IsWordChar);
      var b := SpanEnd(s, a, IsSpace);
      if a == i || b == a || !OccursAt(s, "end", b) then None
      else
        var e := SpanEnd(s, b + 3, IsSpace);
        if e == b + 3 then None else Some(Hit(e, s[i..a] + "\nend\n"))
  }

  function BreakEndKeyword(code: string): string {
    ReplaceAll(EndSpacingMatch, code)
  }

  // ---------------------------------------------------------------------
  // Fix 15: /style_(\w+)/g  ->  `style ${name}`
  // ---------------------------------------------------------------------
  function StyleDeclarationMatch(s: string, i: nat): Option<Hit> {
    PrefixRun(s, i, "style_", IsWordChar, "style ")
  }

  function SplitStyleDeclarations(code: string): string {
    ReplaceAll(StyleDeclarationMatch, code)
  }

  // ---------------------------------------------------------------------
  // Fix 16: /classDef_(\w+)/g  ->  `classDef ${name}`
  // ---------------------------------------------------------------------
  function ClassDefDeclarationMatch(s: string, i: nat): Option<Hit> {
    PrefixRun(s, i, "classDef_", IsWordChar, "classDef ")
  }

  function SplitClassDefDeclarations(code: string): string {
    ReplaceAll(ClassDefDeclarationMatch, code)
  }

  // ---------------------------------------------------------------------
  // Fix 17: /(stroke|fill)_([\w#]+)/g  ->  `${attr}:${value}`
  // ---------------------------------------------------------------------
  predicate IsStyleValueChar(c: char) {
    IsWordChar(c) || c == '#'
  }

  function StyleAttributeMatch(s: string, i: nat): Option<Hit> {
    match PrefixRun(s, i, "stroke_", IsStyleValueChar, "stroke:")
    case Some(h) => Some(h)
    case None => PrefixRun(s, i, "fill_", IsStyleValueChar, "fill:")
  }

  function ColonStyleAttributes(code: string): string {
    ReplaceAll(StyleAttributeMatch, code)
  }

  // ---------------------------------------------------------------------
  // Header clean-up (lines 152-165): when the trimmed first line starts with
  // `graph` or `flowchart`, the first line-start /^(graph|flowchart)([A-Za-z0-9]+)/m
  // and then the first line-start /^(graph|flowchart)_([A-Za-z0-9]+)/m are
  // rewritten to `${type} ${direction}`.
  // ---------------------------------------------------------------------

  /** `^` in a multiline pattern. */
  predicate LineStart(s: string, i: nat) {
    i == 0 || (i <= |s| && IsLineTerminator(s[i - 1]))
  }

  function HeaderJoinedMatch(s: string, i: nat): Option<Hit> {
    if !LineStart(s, i) then None
    else
      match PrefixRun(s, i, "graph", IsAlnum, "graph ")
      case Some(h) => Some(h)
      case None => PrefixRun(s, i, "flowchart", IsAlnum, "flowchart ")
  }

  function HeaderUnderscoreMatch(s: string, i: nat): Option<Hit> {
    if !LineStart(s, i) then None
    else
      match PrefixRun(s, i, "graph_", IsAlnum, "graph ")
      case Some(h) => Some(h)
      case None => PrefixRun(s, i, "flowchart_", IsAlnum, "flowchart ")
  }

  predicate IsFlowchartHeader(code: string) {
    var first := Trim(FirstLine(code));
    StartsWith(first, "graph") || StartsWith(first, "flowchart")
  }

  function CleanHeader(code: string): string {
    if IsFlowchartHeader(code)
    then ReplaceFirst(HeaderUnderscoreMatch, ReplaceFirst(HeaderJoinedMatch, code))
    else code
  }

  // ---------------------------------------------------------------------
  // The whole pass (lines 12-174): the rules above, in source order.
  // Fixes 1 and 2 test the code the pass started from; every other rule
  // sees the output of the one before it.
  // ---------------------------------------------------------------------
  function Repair(code: string): string {
    var c1 := FixFeedbackTransitions(code, code);
    var c2 := AddMissingDirection(code, c1);
    var c3 := RemoveGraphTypeUnderscores(c2);
    var c4 := CollapseStateDiagramV2(c3);
    var c5 := QuoteStateDeclarations(c4);
    var c6 := RenameEndNodes(c5);
    var c7 := ReplaceTripleEquals(c6);
    var c8 := UnquoteClassDefStyles(c7);
    var c9 := JoinClassUsageStyles(c8);
    var c10 := SplitClassIds(c9);
    var c11 := QuoteLabels(c10);
    var c12 := JoinNodeIds(c11);
    var c13 := SplitSubgraphs(c12);
    var c14 := BreakEndKeyword(c13);
    var c15 := SplitStyleDeclarations(c14);
    var c16 := SplitClassDefDeclarations(c15);
    var c17 := ColonStyleAttributes(c16);
    CleanHeader(c17)
  }

  /** `fixMermaidSyntax`: `fixedCode` is reassigned rule by rule; the result
      is the pass `Repair` describes. (The title argument only feeds the log.) */
  method FixMermaidSyntax(diagramCode: string) returns (fixedCode: string)
    ensures fixedCode == Repair(diagramCode)
  {
    fixedCode := diagramCode;
    if Contains(diagramCode, "stateDiagram") || StartsWith(Trim(diagramCode), "state") {
      fixedCode := ReplaceAll(FeedbackTransitionMatch, fixedCode);
    }
    if Contains(diagramCode, "graph ") && !HasDirection(diagramCode) {
      fixedCode := ReplaceFirst(GraphSpaceMatch, fixedCode);
    }
    fixedCode := ReplaceAll(GraphTypeUnderscoreMatch, fixedCode);
    if Contains(fixedCode, "stateDiagram_v2") || Contains(fixedCode, "stateDiagram-v2") {
      fixedCode := ReplaceAll(StateDiagramV2Match, fixedCode);
    }
    fixedCode := ReplaceAll(StateDeclarationMatch, fixedCode);
    fixedCode := ReplaceAll(EndNodeMatch, fixedCode);
    fixedCode := ReplaceAll(TripleEqualsMatch, fixedCode);
    fixedCode := ReplaceAll(ClassDefStyleMatch, fixedCode);
    fixedCode := ReplaceAll(ClassUsageMatch, fixedCode);
    fixedCode := ReplaceAll(ClassIdMatch, fixedCode);
    fixedCode := ReplaceAll(LabelMatch, fixedCode);
    fixedCode := ReplaceAll(NodeIdMatch, fixedCode);
    fixedCode := ReplaceAll(SubgraphMatch, fixedCode);
    fixedCode := ReplaceAll(EndSpacingMatch, fixedCode);
    fixedCode := ReplaceAll(StyleDeclarationMatch, fixedCode);
    fixedCode := ReplaceAll(ClassDefDeclarationMatch, fixedCode);
    fixedCode := ReplaceAll(StyleAttributeMatch, fixedCode);
    var firstLine := Trim(FirstLine(fixedCode));
    if StartsWith(firstLine, "graph") || StartsWith(firstLine, "flowchart") {
      fixedCode := ReplaceFirst(HeaderJoinedMatch, fixedCode);
      fixedCode := ReplaceFirst(HeaderUnderscoreMatch, fixedCode);
    }
  }
}
