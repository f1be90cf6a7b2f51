# markdown-to-diagram, modelled in Dafny

markdown-to-diagram takes a Markdown document that describes diagrams in
sections headed `**<Title> Diagram:**`. It asks a language model for a
Mermaid diagram per section and splices the returned blocks into the
document. Then it repairs each Mermaid block's syntax, renders it to a PNG
file with the Mermaid command-line renderer, and replaces the block with an
image reference. This project models the text-processing core of that
pipeline and proves properties of it:

- **Section extraction** (`SectionExtraction`). The `exec` loop of
  `extractSections` finds each `**<title>:**<description>` line and records
  the title, the description, the matched text and a context window of at
  most 500 characters on each side.
- **Response handling** (`ResponseBlock`). The first Mermaid block of the
  model's reply is found, trimmed and wrapped into the block that goes into
  the document.
- **Splicing** (`Splicer`). `insertDiagramsIntoMarkdown` sorts the sections
  by descending position. It then inserts each block at the end of its
  section's paragraph, adding a running offset as it goes.
- **Syntax repair** (`MermaidRepair`, `MermaidRepairFacts`).
  `fixMermaidSyntax` is a fixed chain of 17 regular-expression rewrites
  followed by a clean-up of the header line.
- **Simplification** (`MermaidSimplify`). `simplifyMermaidDiagram` is the
  fallback that reduces a diagram that failed to render to a skeleton of
  its type.
- **Image conversion** (`ImageConversion`). `convertDiagramsToImages` runs
  a title scan, a block scan with the nearest preceding title, slugged and
  numbered file names, the render loop with one retry and an error image,
  and the rewrite of each block into `![alt](path)`.
- **Command line** (`Cli`). `parseArgs` is modelled, together with the
  file names that `generate-diagrams.js` derives from the input.

Two support modules give JavaScript's string and regular-expression
built-ins a precise meaning:

- `JsString` covers `indexOf`, `includes`, `trim`, `split('\n')[0]` and
  decimal printing.
- `JsRegex` covers `exec` with `lastIndex`, global and non-global
  `replace`, and `replace` with a string pattern.

A regular expression is modelled as a *matcher*. A matcher is a function
from a text and a position to the match that JavaScript's backtracking
engine finds at that position, if any, with its replacement text or, for
a scan, its captured group. Each
matcher is derived by hand from its pattern, and the derivation is written
beside it. On top of the matchers, `Exec` searches for the leftmost match
from a position, `FindAll` is the `while (exec)` loop, and `ReplaceAll`,
`ReplaceFirst` and `ReplaceString` are the three kinds of `replace`.

The parts of the source that change state step by step are modelled
imperatively. Each such method is proved against a specification function:

- the scan loops: `ScanTitles`, `ScanDiagrams`, `ExtractSections`,
  `NearestTitle`;
- the render and rewrite loops: `RenderAll`, `RewriteAll`;
- the array sort and the insertion loop: `SortByMatchIndexDescending`,
  `SpliceInOrder`, `InsertDiagramsIntoMarkdown`;
- the argument loop: `ParseArgs`;
- the rule-by-rule reassignment in `FixMermaidSyntax`.

The lemmas then state what the source promises about those functions.

Two behaviours of the code are worth knowing before reading the model:

- Fix 12's pattern `[-\s]` also matches a newline, so the node-identifier
  rule joins a word at the end of one line to the word that starts the
  next. For example, the header `stateDiagram` is joined to a following
  `state` (`MermaidRepairFacts.NodeIdsJoinAcrossLines`,
  `MermaidRepairFacts.RepairStateExample`). The rule also rewrites inside
  quoted labels (`MermaidRepairFacts.NodeIdsJoinInsideLabels`).
- `extractSections` recognises only `**X Diagram:**`
  (`SectionExtraction.ColonOutsideIgnored`), while the title scan of the
  image conversion accepts `**X Diagram**:` as well.

## Model

| member | source | states |
|---|---|---|
| JsString.IndexOf | convert-diagrams-to-images.js:510 | the result is the first occurrence at or after the start; none occurs before it; `None` means there is no occurrence at all |
| JsString.IndexOfAt | convert-diagrams-to-images.js:510 | an occurrence with none before it is the one `indexOf` reports |
| JsString.TrimShape | diagram-generator.js:59-60 | `trim` keeps one contiguous piece of the text and removes only whitespace before and after it |
| JsString.TrimEnds | diagram-generator.js:59-60 | a trimmed text neither starts nor ends with whitespace |
| JsString.TrimTrimmed | diagram-generator.js:59-60 | trimming a text without outer whitespace changes nothing |
| JsString.FirstLine | convert-diagrams-to-images.js:152 | the first line holds no newline and is a prefix of the text |
| JsString.ParseNatToString | convert-diagrams-to-images.js:410 | the decimal rendering of a number reads back as that number |
| JsString.NatToStringInjective | convert-diagrams-to-images.js:410 | different numbers print differently |
| JsRegex.Exec | convert-diagrams-to-images.js:363 | `exec` from `lastIndex` returns the leftmost match at or after it, or none when no position after it matches |
| JsRegex.ExecAt | convert-diagrams-to-images.js:363 | a match with no match before it is the one `exec` returns |
| JsRegex.ExecLoopStep | convert-diagrams-to-images.js:363-370 | the invariant of the `while (exec)` loop is carried over one turn, and the loop ends with every match |
| JsRegex.FindAllOrdered | convert-diagrams-to-images.js:363-370 | every found match is a match of the pattern at its start, after the starting point, and the matches come in ascending order without overlap |
| JsRegex.ReplaceFromIsExecLoop | convert-diagrams-to-images.js:66-69 | a global `replace` copies the text up to the leftmost match, emits its replacement and resumes after the match |
| JsRegex.ReplaceSkip | convert-diagrams-to-images.js:66-69 | a stretch without matches is copied unchanged |
| JsRegex.ReplaceWithoutHit | convert-diagrams-to-images.js:66-69 | a global `replace` whose pattern matches nowhere returns the text unchanged |
| JsRegex.ReplaceInPlace | convert-diagrams-to-images.js:111-117 | when every replacement edits its match in place, the length is kept and each character is unchanged or edited as allowed |
| JsRegex.ReplaceIdentity | convert-diagrams-to-images.js:73-82 | when every replacement gives back the matched text, `replace` changes nothing |
| JsRegex.ReplaceFirst | convert-diagrams-to-images.js:155-164 | a non-global `replace` without any match returns the text unchanged |
| JsRegex.LiteralHit | convert-diagrams-to-images.js:510 | a literal pattern matches exactly where it occurs and spans its own length |
| JsRegex.SubstitutePlain | convert-diagrams-to-images.js:507-510 | a replacement string without `$` is inserted literally |
| JsRegex.ReplaceString | convert-diagrams-to-images.js:510 | `replace` with a string pattern that does not occur returns the text unchanged |
| JsRegex.ReplaceStringPlain | convert-diagrams-to-images.js:510 | with a `$`-free replacement, the first occurrence is replaced by it as written, and no occurrence lies before it |
| MermaidRepair.PrefixRun | convert-diagrams-to-images.js:139-142 | a prefix followed by a greedy non-empty run matches only where the prefix occurs, and the match ends after the prefix |
| MermaidRepair.FixStyleIsIdentity | convert-diagrams-to-images.js:75-78 | the three style rewrites of Fix 8 give back their input |
| MermaidRepair.StyleColonVerbatim | convert-diagrams-to-images.js:76 | the key-colon rewrite replaces each match by its own text |
| MermaidRepair.LastUnderscore | convert-diagrams-to-images.js:87 | finds an `_` inside the range, the last one, where the backtracking of `(\w+)_(\w+)` settles |
| MermaidRepair.StyleSplit | convert-diagrams-to-images.js:87 | `(\w+)_(\w+)` splits a word run at an `_` that has word characters on both sides |
| MermaidRepair.LastNodeListEnd | convert-diagrams-to-images.js:87 | the node list of a `class` match ends at a position inside the range where it can end |
| MermaidRepair.FixFeedbackTransitions | convert-diagrams-to-images.js:17-26 | definition: Fix 1 as a function of the original and the current code: when the original mentions `stateDiagram` or, trimmed, starts with `state`, every `a -- text --> b` becomes `a --> b : text` |
| MermaidRepair.AddMissingDirection | convert-diagrams-to-images.js:28-32 | definition: Fix 2: when the original mentions `graph ` but none of `graph TD`, `graph TB`, `graph LR`, `graph RL`, the first `graph ` of the current code becomes `graph TD ` |
| MermaidRepair.RemoveGraphTypeUnderscores | convert-diagrams-to-images.js:34-40 | definition: Fix 3: in every `graph_X` or `flowchart_X` with a run X of letters and digits the underscore becomes a space |
| MermaidRepair.CollapseStateDiagramV2 | convert-diagrams-to-images.js:42-47 | definition: Fix 4: when the current code mentions `stateDiagram_v2` or `stateDiagram-v2`, each becomes `stateDiagram` |
| MermaidRepair.QuoteStateDeclarations | convert-diagrams-to-images.js:49-55 | definition: Fix 5: every `state_X {` (spaces allowed before the brace) becomes `state "X" {` |
| MermaidRepair.RenameEndNodes | convert-diagrams-to-images.js:57-62 | definition: Fix 6: every word `end` followed by optional whitespace and `[` becomes `endNode [` |
| MermaidRepair.ReplaceTripleEquals | convert-diagrams-to-images.js:64-69 | definition: Fix 7: every `===` becomes `-->` |
| MermaidRepair.UnquoteClassDefStyles | convert-diagrams-to-images.js:71-82 | definition: Fix 8: every `classDef name "style"` becomes `classDef name style`, the style itself unchanged |
| MermaidRepair.JoinClassUsageStyles | convert-diagrams-to-images.js:84-90 | definition: Fix 9: every `class nodes a_b` becomes `class nodes ab` |
| MermaidRepair.SplitClassIds | convert-diagrams-to-images.js:92-98 | definition: Fix 10: every `class_X style` becomes `class X style` |
| MermaidRepair.QuoteLabels | convert-diagrams-to-images.js:100-108 | definition: Fix 11: every bracketed label that holds no quote character and has whitespace between two other characters is quoted |
| MermaidRepair.JoinNodeIds | convert-diagrams-to-images.js:110-117 | definition: Fix 12: every two words separated by one `-` or whitespace character, not followed by `]`, are joined by `_` |
| MermaidRepair.SplitSubgraphs | convert-diagrams-to-images.js:119-124 | definition: Fix 13: every `subgraph_X` becomes `subgraph X` |
| MermaidRepair.BreakEndKeyword | convert-diagrams-to-images.js:126-130 | definition: Fix 14: every word followed by whitespace, `end` and whitespace becomes the word, a line break, `end` and a line break |
| MermaidRepair.SplitStyleDeclarations | convert-diagrams-to-images.js:132-136 | definition: Fix 15: every `style_X` becomes `style X` |
| MermaidRepair.SplitClassDefDeclarations | convert-diagrams-to-images.js:138-142 | definition: Fix 16: every `classDef_X` becomes `classDef X` |
| MermaidRepair.ColonStyleAttributes | convert-diagrams-to-images.js:144-148 | definition: Fix 17: every `stroke_X` or `fill_X` becomes `stroke:X` or `fill:X` |
| MermaidRepair.CleanHeader | convert-diagrams-to-images.js:150-165 | definition: the header clean-up: when the trimmed first line starts with `graph` or `flowchart`, the first line-start `graph` or `flowchart` directly followed by letters or digits gets a space after the keyword, and then the first line-start `graph_` or `flowchart_` has its underscore replaced by a space |
| MermaidRepair.Repair | convert-diagrams-to-images.js:12-174 | definition: the whole pass: Fixes 1 to 17 in source order, Fixes 1 and 2 testing the original code, then the header clean-up |
| MermaidRepair.FixMermaidSyntax | convert-diagrams-to-images.js:12-174 | the code reassigned rule by rule ends as the whole repair pass, with the first two rules testing the original code |
| MermaidRepairFacts.Untouched | convert-diagrams-to-images.js:133-136 | a rule whose every match needs a character leaves text without that character unchanged |
| MermaidRepairFacts.UntouchedEither | convert-diagrams-to-images.js:145-148 | the same for a rule whose matches need one of two characters |
| MermaidRepairFacts.TripleEqualsScan | convert-diagrams-to-images.js:66-69 | the Fix 7 scan agrees with the input, except that every `===` it meets becomes `-->` |
| MermaidRepairFacts.ArrowAgrees | convert-diagrams-to-images.js:66-69 | an `===` written as `-->` in front of an agreeing rest agrees |
| MermaidRepairFacts.CopyAgrees | convert-diagrams-to-images.js:66-69 | a copied character where no `===` starts, in front of an agreeing rest, agrees |
| MermaidRepairFacts.TripleEqualsRewrite | convert-diagrams-to-images.js:66-69 | Fix 7 keeps the length, turns only `=` characters into `-` or `>`, and leaves no `===` behind |
| MermaidRepairFacts.AgreeingHasNoTriple | convert-diagrams-to-images.js:66-69 | an agreeing output changes only `=` characters and holds no `===` |
| MermaidRepairFacts.TripleEqualsLeftmost | convert-diagrams-to-images.js:66-69 | matches do not overlap: `====` becomes `-->=`, and `A===B` becomes `A-->B` |
| MermaidRepairFacts.NodeIdJoins | convert-diagrams-to-images.js:111-117 | a Fix 12 match is two whole word runs around one `-` or whitespace character, not followed by `]`, and its bracket test always passes, so the runs are joined by `_` |
| MermaidRepairFacts.NodeIdsInPlace | convert-diagrams-to-images.js:111-117 | Fix 12 keeps the length and changes only separators, each into `_` |
| MermaidRepairFacts.NodeIdHit | convert-diagrams-to-images.js:111-117 | conversely, two whole word runs around a separator, not followed by `]`, are a match and are joined |
| MermaidRepairFacts.NodeIdHitSpans | convert-diagrams-to-images.js:111-117 | the same, with the word runs given as greedy spans and without brackets |
| MermaidRepairFacts.NoBracketAround | convert-diagrams-to-images.js:113 | word characters around one separator hold no bracket, so the test of line 113 cannot fail on a match |
| MermaidRepairFacts.NodeIdsJoinWords | convert-diagrams-to-images.js:111-117 | joining runs left to right without overlap: `a b c` becomes `a_b c` |
| MermaidRepairFacts.NodeIdsJoinDash | convert-diagrams-to-images.js:111-117 | `a-b` becomes `a_b` |
| MermaidRepairFacts.NodeIdsJoinAcrossLines | convert-diagrams-to-images.js:111-117 | the separator may be a newline: `stateDiagram` followed by a line `state` becomes `stateDiagram_state` |
| MermaidRepairFacts.NodeIdsJoinInsideLabels | convert-diagrams-to-images.js:111-117 | quoted labels are rewritten too: `["Login form"]` becomes `["Login_form"]` |
| MermaidRepairFacts.StateDiagramV2GuardRedundant | convert-diagrams-to-images.js:44-47 | the `includes` test before Fix 4 changes nothing: without either spelling, the pattern has nothing to match |
| MermaidRepairFacts.LabelAlwaysQuoted | convert-diagrams-to-images.js:101-108 | a Fix 11 label holds no quote characters, so the callback always takes its first branch and quotes the label |
| MermaidRepairFacts.FeedbackNeedsDash | convert-diagrams-to-images.js:20-24 | every Fix 1 match needs a `-` |
| MermaidRepairFacts.GraphTypeNeeds | convert-diagrams-to-images.js:37-40 | every Fix 3 match needs `_` and `h` |
| MermaidRepairFacts.StateDeclarationNeedsUnderscore | convert-diagrams-to-images.js:52-55 | every Fix 5 match has `_` as its sixth character |
| MermaidRepairFacts.EndNodeNeedsBracket | convert-diagrams-to-images.js:59-62 | every Fix 6 match needs `[` |
| MermaidRepairFacts.TripleEqualsNeedsEquals | convert-diagrams-to-images.js:66-69 | every Fix 7 match starts with `=` |
| MermaidRepairFacts.ClassPatternsNeedC | convert-diagrams-to-images.js:73-98 | every match of Fixes 8, 9, 10 and 16 needs a `c` |
| MermaidRepairFacts.LabelNeedsBracket | convert-diagrams-to-images.js:101-108 | every Fix 11 match needs `[` |
| MermaidRepairFacts.SubgraphNeedsB | convert-diagrams-to-images.js:121-124 | every Fix 13 match needs a `b` |
| MermaidRepairFacts.EndSpacingNeedsD | convert-diagrams-to-images.js:127-130 | every Fix 14 match needs a `d` |
| MermaidRepairFacts.StyleDeclarationNeedsY | convert-diagrams-to-images.js:133-136 | every Fix 15 match needs a `y` |
| MermaidRepairFacts.StyleAttributeNeeds | convert-diagrams-to-images.js:145-148 | every Fix 17 match needs a `k` or an `f` |
| MermaidRepairFacts.HeaderJoinedNeeds | convert-diagrams-to-images.js:155-158 | a joined-header match starts with `g` or `f` |
| MermaidRepairFacts.StateDiagramV2NeedsD | convert-diagrams-to-images.js:44-47 | every Fix 4 match has `D` as its sixth character |
| MermaidRepairFacts.RepairGraphExample | convert-diagrams-to-images.js:12-174 | the whole pass on `graph LR` with `A===B` gives `graph LR` with `A-->B`: Fix 12 joins the header and the header clean-up splits it again |
| MermaidRepairFacts.GraphBeforeFix7 | convert-diagrams-to-images.js:17-62 | Fixes 1 to 6 leave that diagram unchanged |
| MermaidRepairFacts.GraphGuards | convert-diagrams-to-images.js:20-47 | the guarded Fixes 1, 2 and 4 do not fire on it |
| MermaidRepairFacts.GraphFix7 | convert-diagrams-to-images.js:66-69 | Fix 7 turns its `===` into `-->` |
| MermaidRepairFacts.GraphAfterFix7 | convert-diagrams-to-images.js:73-108 | Fixes 8 to 11 leave the result unchanged |
| MermaidRepairFacts.GraphFix12 | convert-diagrams-to-images.js:111-117 | Fix 12 joins `graph LR` into `graph_LR` |
| MermaidRepairFacts.GraphAfterFix12 | convert-diagrams-to-images.js:121-148 | Fixes 13 to 17 leave the result unchanged |
| MermaidRepairFacts.GraphHeader | convert-diagrams-to-images.js:152-165 | the header clean-up splits `graph_LR` back into `graph LR` |
| MermaidRepairFacts.GraphHeaderIsFlowchart | convert-diagrams-to-images.js:152-153 | that header is recognised as a flowchart header |
| MermaidRepairFacts.HeaderOnlyForFlowcharts | convert-diagrams-to-images.js:152-165 | a diagram whose first character is neither whitespace nor `g` nor `f` is left alone by the header clean-up, since its trimmed first line cannot start with `graph` or `flowchart` |
| MermaidRepairFacts.HeaderJoinedEdit | convert-diagrams-to-images.js:155-158 | whenever the joined-header pattern matches, its leftmost match is at a line start holding `graph` or `flowchart` followed by letters and digits, and the only change is one space inserted after the keyword |
| MermaidRepairFacts.HeaderJoinedHit | convert-diagrams-to-images.js:155 | at a line start, `graph` or `flowchart` followed by a run of letters and digits matches through the run and is replaced by the keyword, a space and the run |
| MermaidRepairFacts.HeaderUnderscoreEdit | convert-diagrams-to-images.js:161-164 | whenever the underscored-header pattern matches, its leftmost match is at a line start holding `graph_` or `flowchart_` followed by letters and digits, and the only change is that underscore becoming a space |
| MermaidRepairFacts.HeaderUnderscoreHit | convert-diagrams-to-images.js:161 | at a line start, `graph_` or `flowchart_` followed by a run of letters and digits matches through the run and is replaced by the keyword, a space and the run |
| MermaidRepairFacts.RepairStateExample | convert-diagrams-to-images.js:12-174 | the whole pass on `stateDiagram_v2`, `state_Requirements {`, `}` gives `stateDiagram_state "Requirements" {`, `}`: Fix 4 drops `_v2`, Fix 5 quotes the name, and Fix 12 joins the header to the `state` keyword on the next line |
| MermaidRepairFacts.StateBeforeFix4 | convert-diagrams-to-images.js:17-40 | Fixes 1 to 3 leave that diagram unchanged |
| MermaidRepairFacts.StateFix4 | convert-diagrams-to-images.js:42-47 | Fix 4 drops the `_v2` of the header |
| MermaidRepairFacts.StateFix5 | convert-diagrams-to-images.js:49-55 | Fix 5 turns `state_Requirements {` into `state "Requirements" {` |
| MermaidRepairFacts.StateFix5Hit | convert-diagrams-to-images.js:52 | the declaration pattern matches at the start of the second line, through the brace |
| MermaidRepairFacts.StateAfterFix5 | convert-diagrams-to-images.js:57-108 | Fixes 6 to 11 leave the result unchanged |
| MermaidRepairFacts.StateFix12 | convert-diagrams-to-images.js:110-117 | Fix 12 joins `stateDiagram` and `state` across the line break into `stateDiagram_state` |
| MermaidRepairFacts.StateFix12Head | convert-diagrams-to-images.js:111 | the node-identifier pattern matches at the start of the text, across the line break |
| MermaidRepairFacts.StateFix12Tail | convert-diagrams-to-images.js:111-113 | nothing after the joined keywords matches again |
| MermaidRepairFacts.StateAfterFix12 | convert-diagrams-to-images.js:119-165 | Fixes 13 to 17 and the header clean-up leave the result unchanged |
| MermaidSimplify.GraphDirectionMatch | convert-diagrams-to-images.js:199 | a direction match starts at `graph` and captures two capital letters |
| MermaidSimplify.GraphSkeleton | convert-diagrams-to-images.js:204-205 | definition: the flowchart skeleton `graph <dir>` with the fixed edge `A[Simplified] --> B[Diagram]` |
| MermaidSimplify.Simplify | convert-diagrams-to-images.js:181-216 | definition: the state skeleton when the code mentions `stateDiagram`; else the flowchart skeleton in the leftmost `graph <XY>` direction (or `TD`) when it mentions `graph ` or `flowchart `; else the sequence skeleton when it mentions `sequenceDiagram`; else the `TD` flowchart skeleton |
| MermaidSimplify.GraphDirection | convert-diagrams-to-images.js:199-200 | the kept direction is always two capital letters |
| MermaidSimplify.SkeletonsDistinct | convert-diagrams-to-images.js:185-211 | the state, sequence and flowchart skeletons are pairwise different |
| MermaidSimplify.GraphSkeletonInjective | convert-diagrams-to-images.js:195-205 | flowchart skeletons are equal exactly when their directions are |
| MermaidSimplify.SimplifyStateIff | convert-diagrams-to-images.js:185-194 | the state skeleton is returned if and only if the code mentions `stateDiagram` |
| MermaidSimplify.SimplifySequenceIff | convert-diagrams-to-images.js:206-208 | the sequence skeleton is returned if and only if the code mentions `sequenceDiagram` and neither `stateDiagram` nor a flowchart header |
| MermaidSimplify.SimplifyGraphIff | convert-diagrams-to-images.js:195-211 | the flowchart skeleton in a given direction is returned if and only if the code has no `stateDiagram` and either is a flowchart with that captured direction, or is nothing else recognised and the direction is `TD` |
| MermaidSimplify.SimplifyTotal | convert-diagrams-to-images.js:181-216 | every code simplifies to one of the skeletons |
| MermaidSimplify.FlowchartDirectionIgnored | convert-diagrams-to-images.js:199-200 | only `graph` is searched for a direction: `flowchart LR` simplifies to a top-down flowchart |
| MermaidSimplify.GraphDirectionAfterSpaces | convert-diagrams-to-images.js:199 | any whitespace run between `graph` and the direction is skipped |
| ImageConversion.TitleMatch | convert-diagrams-to-images.js:357 | a title match captures a `*`-free text ending in `Diagram` |
| ImageConversion.TitleRunShape | convert-diagrams-to-images.js:357 | such a run has the captured group's shape |
| ImageConversion.ScanTitles | convert-diagrams-to-images.js:357-370 | the title loop records one trimmed title per match, in order, and maps each title to the position of its match |
| ImageConversion.TitlesSnoc | convert-diagrams-to-images.js:367 | one more match appends its trimmed title |
| ImageConversion.PositionsSnoc | convert-diagrams-to-images.js:368 | one more match overwrites its title's position |
| ImageConversion.TitleShape | convert-diagrams-to-images.js:366 | every recorded title is non-empty and still ends in `Diagram` |
| ImageConversion.PositionsLastWins | convert-diagrams-to-images.js:368 | a title's recorded position is that of its last occurrence |
| ImageConversion.PositionsKeys | convert-diagrams-to-images.js:367-368 | the keys of the position map are exactly the recorded titles |
| ImageConversion.TitleSetSnoc | convert-diagrams-to-images.js:367 | the recorded titles are those before the last match plus the last one |
| ImageConversion.FenceMatch | convert-diagrams-to-images.js:376 | a block match opens with a `mermaid` fence and line break, captures up to the first closing fence, and fails exactly when no closing fence follows |
| ImageConversion.ClosestTitle | convert-diagrams-to-images.js:393-402 | the chosen title is a recorded title strictly before the block with the greatest such position, and none is chosen when no title precedes the block |
| ImageConversion.NearestTitle | convert-diagrams-to-images.js:393-402 | the nearest-title loop returns the closest title |
| ImageConversion.Slug | convert-diagrams-to-images.js:405-407 | the slug has the title's length; digits are kept, letters lower-cased, and every other character becomes `-` |
| ImageConversion.TitleBase | convert-diagrams-to-images.js:405-407 | definition: the slug of the closest title, or `diagram-<n>` when there is none |
| ImageConversion.FileName | convert-diagrams-to-images.js:410 | definition: `<titleBase>-<timestamp>-<n>` |
| ImageConversion.DiagramAt | convert-diagrams-to-images.js:418-424 | definition: the record pushed for the n-th block: its full text, code, position, number, closest title and file name |
| ImageConversion.DiagramsOf | convert-diagrams-to-images.js:375-426 | one record per block match |
| ImageConversion.ScanDiagrams | convert-diagrams-to-images.js:375-426 | the block loop numbers each match from 1 and records it with its nearest title and file name |
| ImageConversion.DiagramsSnoc | convert-diagrams-to-images.js:418-424 | one more match appends one record |
| ImageConversion.DiagramsShape | convert-diagrams-to-images.js:375-426 | records are numbered 1, 2, …; each record's full text is its fenced code and occurs at its position; records do not overlap and come in order |
| ImageConversion.DiagramShapeAt | convert-diagrams-to-images.js:375-426 | the same, for the record of one match |
| ImageConversion.DiagramAtShape | convert-diagrams-to-images.js:418-424 | the record of one match holds its number, position and full text |
| ImageConversion.FenceHitShape | convert-diagrams-to-images.js:376 | a block match spans the opening line, the body and the closing fence |
| ImageConversion.FileNamesDistinct | convert-diagrams-to-images.js:410 | file names with different numbers differ, whatever the titles |
| ImageConversion.LastDash | convert-diagrams-to-images.js:410 | the last `-` of a name lies inside it |
| ImageConversion.LastDashBefore | convert-diagrams-to-images.js:410 | the last `-` of a file name is the one before its number |
| ImageConversion.LastDashSuffix | convert-diagrams-to-images.js:410 | the number after the last `-` is determined by the name |
| ImageConversion.DiagramFileNamesDistinct | convert-diagrams-to-images.js:375-426 | within one run, file names are pairwise distinct |
| ImageConversion.ConvertOne | convert-diagrams-to-images.js:436-489 | one turn of the conversion loop produces the attempts that the policy function describes |
| ImageConversion.ConvertRepaired | convert-diagrams-to-images.js:445-484 | the same, from the repaired code |
| ImageConversion.AltText | convert-diagrams-to-images.js:506 | definition: the title, or `Diagram <index>` when the title is missing or empty |
| ImageConversion.AttemptsOn | convert-diagrams-to-images.js:441-484 | definition: nothing when the first write fails; one render when the repaired code renders or the second write fails; two renders when the simplified code renders; else two renders and the error image |
| ImageConversion.AttemptsOf | convert-diagrams-to-images.js:436-489 | definition: the attempts of the diagrams, one after the other in document order |
| ImageConversion.RenderAll | convert-diagrams-to-images.js:436-489 | the conversion loop handles every diagram in order, and a failure does not stop the loop |
| ImageConversion.AttemptsOfSnoc | convert-diagrams-to-images.js:436 | one more diagram appends its attempts |
| ImageConversion.AttemptsPolicy | convert-diagrams-to-images.js:441-484 | per diagram: the repaired code is rendered first; there is at most one retry, on the simplified code, only after the first render failed; the error image comes last, exactly when both renders fail; nothing happens when the temporary file cannot be written |
| ImageConversion.EveryDiagramAttempted | convert-diagrams-to-images.js:436-489 | every diagram whose temporary file could be written gets its first render, whatever happened to the diagrams before it |
| ImageConversion.Slashes | convert-diagrams-to-images.js:500-503 | every backslash becomes `/`, and nothing else changes |
| ImageConversion.ImagePath | convert-diagrams-to-images.js:496-503 | definition: the image directory, `/`, the file name and `.png`, with every backslash turned into `/` |
| ImageConversion.ImageMarkdown | convert-diagrams-to-images.js:506-507 | definition: `![<alt text>](<image path>)` |
| ImageConversion.RewriteSpec | convert-diagrams-to-images.js:492-513 | definition: in document order, the first occurrence of each block's full text in the current Markdown is replaced by its image reference |
| ImageConversion.RewriteAll | convert-diagrams-to-images.js:492-513 | the rewrite loop, in document order, replaces the first occurrence of each block's text with its image reference |
| ImageConversion.RewriteStep | convert-diagrams-to-images.js:506-510 | a block's first occurrence is replaced by its reference, and text without an occurrence is left unchanged |
| ImageConversion.FirstBlockFirstOccurrence | convert-diagrams-to-images.js:510 | the first block's text first occurs where that block was found |
| ImageConversion.FirstCopy | convert-diagrams-to-images.js:510 | a block text with no block match before it first occurs at its own position |
| ImageConversion.CopyMatches | convert-diagrams-to-images.js:376 | any copy of a block's text is itself matched by the block pattern |
| ImageConversion.ConvertDiagramsToImages | convert-diagrams-to-images.js:357-519 | without blocks it returns early with nothing; otherwise it returns the rewritten document and the render attempts, built from the scans |
| SectionExtraction.SectionMatch | diagram-generator.js:27 | a match leaves room for `**`, the title group, `:**` and a non-empty rest of the line |
| SectionExtraction.SectionMatchShape | diagram-generator.js:27 | a match is `**`, a `*`-free title ending in `Diagram`, `:**`, then the rest of the line up to the line break |
| SectionExtraction.SectionMatchHead | diagram-generator.js:27 | a match opens with `**`, the title group and `:**` |
| SectionExtraction.SectionMatchTitle | diagram-generator.js:27 | the title group is `*`-free, at least eight characters long and ends in `Diagram` |
| SectionExtraction.SectionMatchLine | diagram-generator.js:27 | the description runs to the end of its line |
| SectionExtraction.SectionsOf | diagram-generator.js:55-76 | one record per match |
| SectionExtraction.WindowStart | diagram-generator.js:63-64 | the context window starts at most 500 characters before the match, and fewer only at the start of the text |
| SectionExtraction.WindowEnd | diagram-generator.js:63-65 | the context window ends at most 500 characters after the match, and fewer only at the end of the text |
| SectionExtraction.SectionAt | diagram-generator.js:59-75 | definition: the record pushed for a match: the context window, the trimmed title and description, the matched text and its position |
| SectionExtraction.ExtractSections | diagram-generator.js:22-101 | the `exec` loop pushes the record of every match, in order |
| SectionExtraction.SectionsSnoc | diagram-generator.js:69-75 | one more match appends its record |
| SectionExtraction.SectionHitShape | diagram-generator.js:55-58 | a match found by the loop has the pattern's shape |
| SectionExtraction.SectionsOrdered | diagram-generator.js:55-76 | records come in ascending position order without overlap, and each full match is the text at its index and opens with `**` |
| SectionExtraction.SectionOrderAt | diagram-generator.js:55-76 | the same, for one record |
| SectionExtraction.MatchedTextShape | diagram-generator.js:69-75 | the text of one match occurs where it starts and opens with `**` |
| SectionExtraction.SectionContents | diagram-generator.js:59-75 | a title is its trimmed group, `*`-free and ending in `Diagram`; a description is its trimmed rest of the line; the context holds the match, with at most 500 characters on each side |
| SectionExtraction.RecordTitle | diagram-generator.js:59 | the recorded title keeps the group's shape |
| SectionExtraction.RecordDescription | diagram-generator.js:60 | the recorded description holds no line break |
| SectionExtraction.RecordWindow | diagram-generator.js:63-65 | the recorded context lies in the text and holds the match |
| SectionExtraction.WindowHolds | diagram-generator.js:63-65 | the context window of a match lies in the text, holds the match and adds at most 1000 characters |
| SectionExtraction.TrimKeepsOut | diagram-generator.js:59-60 | trimming adds no character |
| SectionExtraction.NoMarkerNoSections | diagram-generator.js:22-101 | a text without `:**` yields no section and no error |
| SectionExtraction.ColonOutsideIgnored | diagram-generator.js:27 | the `**X Diagram**:` form yields no section |
| SectionExtraction.Recognised | diagram-generator.js:27 | conversely, every `**<title>:**<description>` line with a valid title and a non-empty description is matched, with the title as its group |
| SectionExtraction.SampleRecognised | diagram-generator.js:36-41 | the sample line that the function checks its pattern against is a match |
| ResponseBlock.Wrap | diagram-generator.js:159 | the inserted block is the body plus 19 characters of framing |
| ResponseBlock.ExtractMermaidBlock | diagram-generator.js:153-164 | an extracted block starts with the opening framing and ends with the closing framing |
| ResponseBlock.NoBlockNull | diagram-generator.js:153-164 | a reply without an opening `mermaid` fence yields `null` |
| ResponseBlock.ExtractFirst | diagram-generator.js:153-164 | the first block of a reply is extracted: its body is trimmed and wrapped, and an empty body yields `null`; the block is the first when no opening line starts before it and no three backquotes start inside the body, counting the closing fence, so the body does not end in a backquote either (`ClosesAtEnd`); these are the exact conditions of the lazy pattern |
| ResponseBlock.FirstFence | diagram-generator.js:153 | the block after a prefix in which no opening line starts is the leftmost match |
| ResponseBlock.FenceAfterPrefix | diagram-generator.js:153 | the pattern matches there, capturing the body |
| ResponseBlock.FenceParts | diagram-generator.js:153 | where the opening line, the body and the closing fence lie: the first three backquotes after the opening line end the body |
| ResponseBlock.NoFenceInPrefix | diagram-generator.js:153 | no match starts inside a prefix in which no opening line starts |
| ResponseBlock.ExtractWrapped | diagram-generator.js:153-160 | round trip: extracting from an inserted block whose body is trimmed, non-empty and holds no three backquotes in a row gives the same block back |
| ResponseBlock.WrapPieces | diagram-generator.js:159 | the inserted block, cut where the extraction pattern sees it |
| Splicer.ParagraphEnd | diagram-generator.js:198-199 | the paragraph end is the first blank line at or after the section, or the end of the text |
| Splicer.ParagraphEndMonotone | diagram-generator.js:198-199 | a later section never finds an earlier paragraph end |
| Splicer.Annotated | diagram-generator.js:198-199 | definition: a section with a block gets the end of its paragraph as `endIndex`; one without a block is unchanged |
| Splicer.Placements | diagram-generator.js:189-213 | one insertion per section with a block, inside the original text, with a non-empty block |
| Splicer.PlacementsLength | diagram-generator.js:189-213 | the insertions add up to the lengths of all blocks |
| Splicer.Shifted | diagram-generator.js:202-211 | the loop from a state grows the text by the total length of the blocks still to come |
| Splicer.Interleave | diagram-generator.js:180-219 | definition of the intended result: the original cut at the insertion points, each block between the pieces around its point |
| Splicer.Splice | diagram-generator.js:180-219 | the result is the original length plus the lengths of all inserted blocks |
| Splicer.SortByMatchIndexDescending | diagram-generator.js:187 | the array ends sorted by descending position and is a permutation of the input |
| Splicer.SinkDown | diagram-generator.js:187 | one insertion step extends the sorted prefix by one and keeps the multiset of sections |
| Splicer.Swap | diagram-generator.js:187 | two sections are exchanged, and nothing else changes |
| Splicer.SpliceInOrder | diagram-generator.js:189-216 | the insertion loop returns the splice of the sections in array order and stores each section's paragraph end |
| Splicer.Progress | diagram-generator.js:189-213 | after each step, the text has grown by the offset |
| Splicer.ProgressResumes | diagram-generator.js:189-213 | from the state after any number of sections, the rest of the loop ends in the splice |
| Splicer.ProgressStep | diagram-generator.js:189-213 | one turn of the loop preserves that invariant |
| Splicer.ProgressSkip | diagram-generator.js:190-193 | a section without a block leaves the state unchanged |
| Splicer.ProgressInsert | diagram-generator.js:204-211 | a section with a block inserts it and grows the offset |
| Splicer.ShiftedStep | diagram-generator.js:207-211 | inserting the next block and running the rest is running the loop from the earlier state |
| Splicer.InsertDiagramsIntoMarkdown | diagram-generator.js:180-219 | the sections end up in descending order, as a permutation of the input; each carries its paragraph end; the text is the splice in that order |
| Splicer.SkippedSectionIgnored | diagram-generator.js:190-193 | removing a section without a block does not change the result |
| Splicer.PlacementsSkip | diagram-generator.js:190-193 | removing such a section does not change the insertions |
| Splicer.PlacementsDescending | diagram-generator.js:187-199 | sections in descending order give insertion points in descending order |
| Splicer.PlacementsBelow | diagram-generator.js:198-199 | sections up to a position are inserted no later than that position's paragraph end |
| Splicer.Inserted | diagram-generator.js:207-209 | inserting each block at its own point, without offset, grows the text by the blocks' lengths |
| Splicer.SpliceCorrected | diagram-generator.js:180-219 | the corrected splice grows the text by the blocks' lengths |
| Splicer.InterleaveAppend | diagram-generator.js:207-209 | text after the last insertion point is carried along unchanged |
| Splicer.InsertedIsInterleave | diagram-generator.js:207-209 | inserting right to left, without offset, is interleaving the blocks into the original text |
| Splicer.CorrectedIsIntended | diagram-generator.js:187-213 | for descending sections, the corrected splice puts every block exactly at the end of its paragraph in the original text |
| Splicer.SingleBlockPlaced | diagram-generator.js:202-211 | with at most one block, the splice as written is the corrected one |
| Splicer.SpliceMisplaces | diagram-generator.js:207-211 | with two blocks, the one inserted second lands one block-length too far |
| Cli.Stop | generate-diagrams.js:116-124 | termination helper: the index at which the argument loop stops is never before its start |
| Cli.Scan | generate-diagrams.js:116-124 | definition: the named-argument loop from an index; `--f` or `--file` takes the next argument as the file, `--imageDir` or `-imageDir` as the image directory, and skips it; any other argument, `-f` and `-i` among them, is passed over |
| Cli.ParseSpec | generate-diagrams.js:102-132 | definition: two arguments of which the first is not a flag are the file and the image directory; otherwise the loop decides, and a missing or empty file is a usage error with code 1 |
| Cli.ParseArgs | generate-diagrams.js:102-132 | the parser returns the result the specification function describes |
| Cli.TwoPlainArguments | generate-diagrams.js:108-113 | two arguments, the first not starting with `-`, are the file and the image directory |
| Cli.ScanShift | generate-diagrams.js:116-124 | after consuming a prefix exactly, the loop continues as the loop over the rest |
| Cli.ScanAppend | generate-diagrams.js:116-124 | the loop over a concatenation is the loop over the second part, started from the first part's result |
| Cli.LastFileFlagWins | generate-diagrams.js:117-119 | a later `--f <value>` overrides any earlier file and keeps the image directory |
| Cli.LastDirFlagWins | generate-diagrams.js:120-122 | a later `--imageDir <value>` overrides any earlier image directory |
| Cli.FlagValueTakenVerbatim | generate-diagrams.js:117-119 | a flag's value is taken even when it looks like a flag |
| Cli.TrailingFileFlag | generate-diagrams.js:117-129 | `--f` as the last argument leaves the file undefined, which is a usage error |
| Cli.ScanKeepsFile | generate-diagrams.js:116-124 | without file flags the loop keeps the file it started with |
| Cli.NoFileFlagNoFile | generate-diagrams.js:126-129 | without a file flag, and not in the two-argument form, the result is a usage error |
| Cli.ScanFileSource | generate-diagrams.js:116-124 | a file that the loop sets is the argument right after a file flag |
| Cli.ParsedFileSource | generate-diagrams.js:102-132 | a parsed file is the first of two plain arguments or the argument after some `--f` or `--file` |
| Cli.TempConversionName | generate-diagrams.js:67-70 | converting the temporary copy writes exactly the file that the rename step looks for |
| Cli.DerivedNamesDistinct | generate-diagrams.js:25-87 | the input, the four derived files, the output of the branch without an image directory and that branch's image directory have pairwise distinct names |
| Cli.FinalOutput | generate-diagrams.js:36-87 | definition of the file left with image references: `<base>-with-images<ext>` with an image directory, `<base>-with-diagrams-with-images<ext>` without one |
| Cli.ReportedOutput | generate-diagrams.js:90-93 | definition: the final message always names `<base>-with-images<ext>` |
| Cli.FinalOutputCorrected | generate-diagrams.js:66-93 | definition of the corrected pipeline: the default branch renamed like the other, so the written file is the reported one |
| Cli.DefaultBranchMisreports | generate-diagrams.js:84-93 | without an image directory, the reported output file is not the one written |
| Cli.CorrectedReportsOutput | generate-diagrams.js:66-93 | with the rename in both branches, the reported file is the one written, and the image-directory branch is unchanged |

## Left out

- File I/O is not modelled: reading and writing documents, creating
  directories, deleting the temporary file and renaming. The model works on
  the text contents. Where a write can fail inside the render loop, a
  parameter `written` says which writes succeed.
- The call to the language model is not modelled: the prompt, the HTTP
  request and its error handling. `ExtractMermaidBlock` starts from the
  reply text. A failed call and a reply without a block both give `null`,
  and the model covers only the second path.
- The Mermaid renderer (`mmdc` run through `execSync`) is a parameter
  `render` that says which codes render. `createErrorImage` is an event in
  the attempt log; the picture it draws is not modelled.
- `Date.now()` is a parameter `timestamp`.
- `path.join`, `path.relative`, `path.dirname`, `path.basename` and
  `path.extname` are not modelled as path algebra. A derived name is the
  base name plus its suffix and the extension, and an image path is the
  directory, `/` and the file name.
- `processMdFile`, `generateDiagrams` and the module entry points are not
  modelled beyond the names they derive. Logging and the debug
  `console.log` calls are left out.
- `process.exit(1)` in `parseArgs` is the value `UsageError(1)`.
- JavaScript strings are UTF-16 code units. The model's characters are
  Unicode scalar values, so positions differ for text outside the Basic
  Multilingual Plane.
- `$` patterns in replacement strings are expanded by
  `JsRegex.Substitute`. The rewrite lemmas assume a reference without `$`,
  because an alt text or path containing `$&` or `` $` `` would be expanded.
- `Array.prototype.sort` is modelled as an insertion sort. The sections
  come from distinct match starts (`SectionExtraction.SectionsOrdered`), so
  "descending and a permutation", which `InsertDiagramsIntoMarkdown`
  states, fixes their order uniquely, as the stable sort of the source
  does.
- Section records are values. Spreading a section into a new object and
  then mutating it is modelled by the annotated copies that
  `SpliceInOrder` stores into the array.
- `mermaidCode` is an `Option`. The empty string, which JavaScript treats
  as falsy, cannot occur, because `ExtractMermaidBlock` never returns an
  empty block.
- `simplifyMermaidDiagram` contains rewrites whose results are discarded
  once a skeleton is returned. `Simplify` returns only the skeleton.
- `fixMermaidSyntax` logs its title argument and nothing else, so
  `FixMermaidSyntax` takes only the code.
- The `includes` and `startsWith` guards of Fixes 1 and 2 read the original
  code; all other rules read the current code. `Repair` keeps both.
- MermaidRepairFacts.RepairGraphExample: the whole repair pass is proved on
  two concrete diagrams only, this flowchart and the state diagram of
  `MermaidRepairFacts.RepairStateExample`. The individual rules are proved
  generally: rules 7 and 12 and the header clean-up in full, and each of
  the others never firing on text without its trigger characters.
- ImageConversion.RewriteStep: stated only for references without `$`; see
  the `$` patterns item above.

## Findings

| source | as written | input that shows it | evidently intended | confidence | as-written member | corrected member |
|---|---|---|---|---|---|---|
| diagram-generator.js:207-211 | sections are processed in descending order of position, yet each insertion point is shifted by the total length of the blocks already inserted, which all lie after it | `a\n\nb\n\n` with block `Y` for the section at 3 and block `X` for the section at 0 gives `a\nX\nbY\n\n` | no offset when working right to left: `aX\n\nbY\n\n`, every block at the end of its paragraph | not executed | Splicer.SpliceMisplaces | Splicer.CorrectedIsIntended |
| generate-diagrams.js:84-93 | without an image directory the converter writes `<base>-with-diagrams-with-images<ext>`, but the final message reports `<base>-with-images<ext>` | running the command without `--imageDir` | the reported file is the file written (rename in both branches) | not executed | Cli.DefaultBranchMisreports | Cli.CorrectedReportsOutput |
