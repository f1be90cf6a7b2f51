/** The text logic of `convertDiagramsToImages`: the scan for diagram
    titles and for fenced Mermaid blocks, the choice of a title and a file
    name for each block, the render attempts with their fallbacks, and the
    rewrite of each block into an image reference. File-system work and the
    Mermaid renderer itself are outside the model: the renderer and the
    temporary-file writes are oracles passed in as parameters. */
module ImageConversion {
  import opened Options
  import opened JsString
  import opened JsRegex
  import opened MermaidRepair
  import opened MermaidSimplify

  // ---------------------------------------------------------------------
  // Titles (lines 357-369):
  //   /\*\*([^*]+Diagram)\*\*:|\*\*([^*]+Diagram):\*\*/g
  // After `**`, `[^*]+` cannot cross a `*`, and both alternatives need a
  // `*` right after the group (first alternative) or right after the `:`
  // that follows it (second alternative). So the group ends at the first
  // `*` after the opening `**`, or one character before it. The first
  // alternative is tried first; the two exclude each other.
  // ---------------------------------------------------------------------

  predicate NotStar(c: char) {
    c != '*'
  }

  /** The hit's text is the captured group: a star-free text ending in `Diagram`. */
  function TitleMatch(s: string, i: nat): (r: Option<Hit>)
    ensures r.Some? ==> |r.value.text| >= 8 && EndsWith(r.value.text, "Diagram")
    ensures r.Some? ==> '*' !in r.value.text
  {
    if !OccursAt(s, "**", i) then None
    else
      var e := SpanEnd(s, i + 2, NotStar);
      if e >= i + 10 && e + 3 <= |s| && s[e..e + 3] == "**:" && s[e - 7..e] == "Diagram" then
        TitleRunShape(s, i + 2, e);
        Some(Hit(e + 3, s[i + 2..e]))
      else if e >= i + 11 && e + 2 <= |s| && s[e - 1] == ':' && s[e..e + 2] == "**" && s[e - 8..e - 1] == "Diagram" then
        TitleRunShape(s, i + 2, e - 1);
        Some(Hit(e + 2, s[i + 2..e - 1]))
      else None
  }

  /** A run without `*` that ends in `Diagram` is a title of that shape. */
  lemma TitleRunShape(s: string, a: nat, e: nat)
    requires a + 8 <= e <= |s| && s[e - 7..e] == "Diagram"
    requires forall k :: a <= k < e ==> NotStar(s[k])
    ensures |s[a..e]| >= 8 && EndsWith(s[a..e], "Diagram") && '*' !in s[a..e]
  {
    assert s[a..e][|s[a..e]| - 7..] == s[e - 7..e];
    forall k | 0 <= k < e - a
      ensures s[a..e][k] != '*'
    {
      assert NotStar(s[a + k]);
    }
  }

  /** The titles pushed by the scan, in document order. */
  function TitlesOf(fs: seq<Found>): (titles: seq<string>)
    decreases |fs|
  {
    if fs == [] then [] else TitlesOf(fs[..|fs| - 1]) + [Trim(fs[|fs| - 1].text)]
  }

  /** The object `diagramPositions`: each title maps to the position of its
      last occurrence. */
  function PositionsOf(fs: seq<Found>): (positions: map<string, nat>)
    decreases |fs|
  {
    if fs == [] then map[]
    else PositionsOf(fs[..|fs| - 1])[Trim(fs[|fs| - 1].text) := fs[|fs| - 1].start]
  }

  /** The title loop: one title per match of the title pattern, and the
      position of the match recorded under it. */
  method ScanTitles(markdown: string) returns (titles: seq<string>, positions: map<string, nat>)
    ensures titles == TitlesOf(FindAll(TitleMatch, markdown, 0))
    ensures positions == PositionsOf(FindAll(TitleMatch, markdown, 0))
  {
    titles, positions := [], map[];
    var from := 0;
    ghost var done: seq<Found> := [];
    while true
      invariant from <= |markdown|
      invariant done + FindAll(TitleMatch, markdown, from) == FindAll(TitleMatch, markdown, 0)
      invariant titles == TitlesOf(done) && positions == PositionsOf(done)
      decreases |markdown| - from
    {
      var titleMatch := Exec(TitleMatch, markdown, from);
      ExecLoopStep(TitleMatch, markdown, from, done, FindAll(TitleMatch, markdown, 0));
      if titleMatch.None? {
        return;
      }
      var f := titleMatch.value;
      var title := Trim(f.text);
      TitlesSnoc(done, f);
      PositionsSnoc(done, f);
      titles := titles + [title];
      positions := positions[title := f.start];
      done := done + [f];
      from := f.end;
    }
  }

  lemma TitlesSnoc(fs: seq<Found>, f: Found)
    ensures TitlesOf(fs + [f]) == TitlesOf(fs) + [Trim(f.text)]
  {
    assert (fs + [f])[..|fs|] == fs;
  }

  lemma PositionsSnoc(fs: seq<Found>, f: Found)
    ensures PositionsOf(fs + [f]) == PositionsOf(fs)[Trim(f.text) := f.start]
  {
    assert (fs + [f])[..|fs|] == fs;
  }

  /** Every recorded title is non-empty and still ends in `Diagram`. */
  lemma TitleShape(group: string)
    requires |group| >= 8 && EndsWith(group, "Diagram")
    ensures |Trim(group)| >= 7 && EndsWith(Trim(group), "Diagram")
  {
    assert group[|group| - 7..] == "Diagram";
    assert group[|group| - 7] == 'D' && group[|group| - 1] == 'm';
    assert TrimEndFrom(group, TrimStartIndex(group), |group|) == |group|;
    TrimShape(group);
    var a := TrimStartIndex(group);
    assert a <= |group| - 7;
    assert Trim(group)[|Trim(group)| - 7..] == group[|group| - 7..];
  }

  /** A title recorded by a later match replaces the earlier position, so
      the position kept is that of the title's last occurrence. */
  lemma {:induction false} PositionsLastWins(fs: seq<Found>, k: nat)
    requires k < |fs|
    requires forall j :: k < j < |fs| ==> Trim(fs[j].text) != Trim(fs[k].text)
    ensures Trim(fs[k].text) in PositionsOf(fs)
    ensures PositionsOf(fs)[Trim(fs[k].text)] == fs[k].start
    decreases |fs|
  {
    if k < |fs| - 1 {
      var init := fs[..|fs| - 1];
      assert init[k] == fs[k];
      forall j | k < j < |init|
        ensures Trim(init[j].text) != Trim(init[k].text)
      {
        assert init[j] == fs[j];
      }
      PositionsLastWins(init, k);
    }
  }

  /** The recorded titles are exactly the keys of the position map. */
  lemma {:induction false} PositionsKeys(fs: seq<Found>)
    ensures PositionsOf(fs).Keys == set k | 0 <= k < |fs| :: Trim(fs[k].text)
    decreases |fs|
  {
    if fs != [] {
      var init := fs[..|fs| - 1];
      PositionsKeys(init);
      var last := Trim(fs[|fs| - 1].text);
      assert PositionsOf(fs).Keys == PositionsOf(init).Keys + {last};
      TitleSetSnoc(fs, init, set k | 0 <= k < |init| :: Trim(init[k].text),
                   set k | 0 <= k < |fs| :: Trim(fs[k].text));
    }
  }

  /** The trimmed titles of the matches are those of all but the last, and the last. */
  lemma TitleSetSnoc(fs: seq<Found>, init: seq<Found>, s1: set<string>, s2: set<string>)
    requires fs != [] && init == fs[..|fs| - 1]
    requires s1 == set k | 0 <= k < |init| :: Trim(init[k].text)
    requires s2 == set k | 0 <= k < |fs| :: Trim(fs[k].text)
    ensures s2 == s1 + {Trim(fs[|fs| - 1].text)}
  {
    var last := Trim(fs[|fs| - 1].text);
    forall t | t in s2
      ensures t in s1 + {last}
    {
      var k :| 0 <= k < |fs| && t == Trim(fs[k].text);
      if k < |init| {
        assert init[k] == fs[k];
        assert t in s1;
      } else {
        assert k == |fs| - 1;
      }
    }
    forall t | t in s1
      ensures t in s2
    {
      var k :| 0 <= k < |init| && t == Trim(init[k].text);
      assert init[k] == fs[k];
    }
  }

  // ---------------------------------------------------------------------
  // Blocks (lines 372-423): /```mermaid\n([\s\S]*?)```/g
  // The lazy body stops at the first ``` after the opening line.
  // ---------------------------------------------------------------------

  /** The hit's text is the body of the block (the captured group). */
  function FenceMatch(s: string, i: nat): (r: Option<Hit>)
    ensures r.Some? ==> OccursAt(s, "```mermaid\n", i) && i + 14 <= r.value.end <= |s|
    ensures r.Some? ==> r.value.text == s[i + 11..r.value.end - 3] && OccursAt(s, "```", r.value.end - 3)
    ensures r.Some? ==> forall k :: i + 11 <= k < r.value.end - 3 ==> !OccursAt(s, "```", k)
    ensures r.None? ==> !OccursAt(s, "```mermaid\n", i) || IndexOf(s, "```", i + 11).None?
  {
    if !OccursAt(s, "```mermaid\n", i) then None
    else
      match IndexOf(s, "```", i + 11)
      case None => None
      case Some(c) => Some(Hit(c + 3, s[i + 11..c]))
  }

  datatype Diagram = Diagram(
    fullMatch: string,
    code: string,
    position: nat,
    index: nat,
    title: Option<string>,
    filename: string)

  /** The title chosen by the `for` loop over the recorded titles: the
      recorded title with the greatest position strictly before `position`
      (the first such in list order), or none. */
  function ClosestTitle(titles: seq<string>, positions: map<string, nat>, position: nat): (r: Option<string>)
    ensures r.Some? ==> r.value in titles && r.value in positions && positions[r.value] < position
    ensures r.Some? ==> forall t :: t in titles && t in positions && positions[t] < position ==>
                          positions[t] <= positions[r.value]
    ensures r.None? ==> forall t :: t in titles && t in positions ==> positions[t] >= position
    decreases |titles|
  {
    if titles == [] then None
    else
      var init := titles[..|titles| - 1];
      var prev := ClosestTitle(init, positions, position);
      var t := titles[|titles| - 1];
      assert forall u :: u in titles ==> u in init || u == t;
      if t in positions && positions[t] < position
         && (prev.None? || position - positions[t] < position - positions[prev.value])
      then Some(t)
      else prev
  }

  /** The nearest-title loop; `closestDistance` is `None` while it is infinite.
      A title missing from `positions` compares as `undefined` does: never. */
  method NearestTitle(titles: seq<string>, positions: map<string, nat>, position: nat) returns (closest: Option<string>)
    ensures closest == ClosestTitle(titles, positions, position)
  {
    closest := None;
    var closestDistance: Option<nat> := None;
    for k := 0 to |titles|
      invariant closest == ClosestTitle(titles[..k], positions, position)
      invariant closestDistance.None? <==> closest.None?
      invariant closest.Some? ==> closest.value in positions && positions[closest.value] < position
      invariant closest.Some? ==> closestDistance.value == position - positions[closest.value]
    {
      assert titles[..k + 1][..k] == titles[..k];
      var title := titles[k];
      if title in positions {
        var titlePos := positions[title];
        if titlePos < position && (closestDistance.None? || position - titlePos < closestDistance.value) {
          closestDistance := Some(position - titlePos);
          closest := Some(title);
        }
      }
    }
    assert titles[..|titles|] == titles;
  }

  /** A JavaScript string is truthy when it is non-empty. */
  predicate HasTitle(title: Option<string>) {
    title.Some? && title.value != ""
  }

  /** `[^a-zA-Z0-9]` becomes `-`, then the text is lower-cased. */
  function SlugChar(c: char): char {
    if IsAlnum(c) then AsciiLower(c) else '-'
  }

  /** The slug of a title: same length, letters lower-cased, digits kept,
      every other character a `-`. */
  function Slug(title: string): (r: string)
    ensures |r| == |title|
    ensures forall k :: 0 <= k < |r| ==> (r[k] == '-' <==> !IsAlnum(title[k]))
    ensures forall k :: 0 <= k < |r| && IsAlnum(title[k]) ==>
              (IsDigit(title[k]) ==> r[k] == title[k])
              && ('a' <= title[k] <= 'z' ==> r[k] == title[k])
              && (IsUpper(title[k]) ==> r[k] as int == title[k] as int + 32)
  {
    seq(|title|, k requires 0 <= k < |title| => SlugChar(title[k]))
  }

  function TitleBase(title: Option<string>, n: nat): string {
    if HasTitle(title) then Slug(title.value) else "diagram-" + NatToString(n)
  }

  /** `${titleBase}-${timestamp}-${diagramCount}` */
  function FileName(title: Option<string>, timestamp: nat, n: nat): string {
    TitleBase(title, n) + "-" + NatToString(timestamp) + "-" + NatToString(n)
  }

  function DiagramAt(markdown: string, f: Found, n: nat, titles: seq<string>,
                     positions: map<string, nat>, timestamp: nat): Diagram
    requires f.start <= f.end <= |markdown|
  {
    var title := ClosestTitle(titles, positions, f.start);
    Diagram(markdown[f.start..f.end], f.text, f.start, n, title, FileName(title, timestamp, n))
  }

  predicate InBounds(markdown: string, fs: seq<Found>) {
    forall k :: 0 <= k < |fs| ==> fs[k].start < fs[k].end <= |markdown|
  }

  /** The records the block loop pushes: the k-th match gets number k + 1. */
  function DiagramsOf(markdown: string, fs: seq<Found>, titles: seq<string>,
                      positions: map<string, nat>, timestamp: nat): (ds: seq<Diagram>)
    requires InBounds(markdown, fs)
    ensures |ds| == |fs|
  {
    seq(|fs|, k requires 0 <= k < |fs| => DiagramAt(markdown, fs[k], k + 1, titles, positions, timestamp))
  }

  /** The block loop: each match is numbered, given its nearest title and a file name. */
  method ScanDiagrams(markdown: string, titles: seq<string>, positions: map<string, nat>, timestamp: nat)
    returns (diagrams: seq<Diagram>)
    ensures InBounds(markdown, FindAll(FenceMatch, markdown, 0))
    ensures diagrams == DiagramsOf(markdown, FindAll(FenceMatch, markdown, 0), titles, positions, timestamp)
  {
    diagrams := [];
    var diagramCount := 0;
    var from := 0;
    ghost var done: seq<Found> := [];
    while true
      invariant from <= |markdown|
      invariant done + FindAll(FenceMatch, markdown, from) == FindAll(FenceMatch, markdown, 0)
      invariant InBounds(markdown, done) && diagramCount == |done|
      invariant diagrams == DiagramsOf(markdown, done, titles, positions, timestamp)
      decreases |markdown| - from
    {
      var match_ := Exec(FenceMatch, markdown, from);
      ExecLoopStep(FenceMatch, markdown, from, done, FindAll(FenceMatch, markdown, 0));
      if match_.None? {
        return;
      }
      var f := match_.value;
      DiagramsSnoc(markdown, done, f, titles, positions, timestamp);
      diagramCount := diagramCount + 1;
      var closestTitle := NearestTitle(titles, positions, f.start);
      var uniqueFilename := FileName(closestTitle, timestamp, diagramCount);
      var diagram := Diagram(markdown[f.start..f.end], f.text, f.start, diagramCount, closestTitle, uniqueFilename);
      diagrams := diagrams + [diagram];
      done := done + [f];
      from := f.end;
    }
  }

  lemma DiagramsSnoc(markdown: string, fs: seq<Found>, f: Found, titles: seq<string>,
                     positions: map<string, nat>, timestamp: nat)
    requires InBounds(markdown, fs) && f.start < f.end <= |markdown|
    ensures InBounds(markdown, fs + [f])
    ensures DiagramsOf(markdown, fs + [f], titles, positions, timestamp)
            == DiagramsOf(markdown, fs, titles, positions, timestamp)
               + [DiagramAt(markdown, f, |fs| + 1, titles, positions, timestamp)]
  {
    assert forall k :: 0 <= k < |fs| ==> (fs + [f])[k] == fs[k];
  }

  /** Each record's `fullMatch` is the block as it stands in the text at
      its position, and its code is the text between the fences. */
  lemma DiagramsShape(markdown: string, titles: seq<string>, positions: map<string, nat>, timestamp: nat)
    requires InBounds(markdown, FindAll(FenceMatch, markdown, 0))
    ensures var ds := DiagramsOf(markdown, FindAll(FenceMatch, markdown, 0), titles, positions, timestamp);
      forall k :: 0 <= k < |ds| ==>
        ds[k].index == k + 1
        && ds[k].fullMatch == "```mermaid\n" + ds[k].code + "```"
        && OccursAt(markdown, ds[k].fullMatch, ds[k].position)
        && (k + 1 < |ds| ==> ds[k].position + |ds[k].fullMatch| <= ds[k + 1].position)
  {
    var fs := FindAll(FenceMatch, markdown, 0);
    FindAllOrdered(FenceMatch, markdown, 0);
    var ds := DiagramsOf(markdown, fs, titles, positions, timestamp);
    forall k | 0 <= k < |ds|
      ensures ds[k].index == k + 1
      ensures ds[k].fullMatch == "```mermaid\n" + ds[k].code + "```"
      ensures OccursAt(markdown, ds[k].fullMatch, ds[k].position)
      ensures k + 1 < |ds| ==> ds[k].position + |ds[k].fullMatch| <= ds[k + 1].position
    {
      DiagramShapeAt(markdown, fs, titles, positions, timestamp, k);
    }
  }

  lemma DiagramShapeAt(markdown: string, fs: seq<Found>, titles: seq<string>,
                       positions: map<string, nat>, timestamp: nat, k: nat)
    requires Ordered(FenceMatch, markdown, 0, fs) && k < |fs|
    ensures InBounds(markdown, fs)
    ensures var ds := DiagramsOf(markdown, fs, titles, positions, timestamp);
      ds[k].index == k + 1
      && ds[k].fullMatch == "```mermaid\n" + ds[k].code + "```"
      && OccursAt(markdown, ds[k].fullMatch, ds[k].position)
      && (k + 1 < |ds| ==> ds[k].position + |ds[k].fullMatch| <= ds[k + 1].position)
  {
    var ds := DiagramsOf(markdown, fs, titles, positions, timestamp);
    assert ds[k] == DiagramAt(markdown, fs[k], k + 1, titles, positions, timestamp);
    DiagramAtShape(markdown, fs[k], k + 1, titles, positions, timestamp);
    if k + 1 < |fs| {
      assert ds[k + 1] == DiagramAt(markdown, fs[k + 1], k + 2, titles, positions, timestamp);
    }
  }

  /** The record of one match of the block pattern. */
  lemma DiagramAtShape(markdown: string, f: Found, n: nat, titles: seq<string>,
                       positions: map<string, nat>, timestamp: nat)
    requires IsHit(FenceMatch, markdown, f) && f.start < f.end <= |markdown|
    ensures var d := DiagramAt(markdown, f, n, titles, positions, timestamp);
      d.index == n && d.position == f.start && d.position + |d.fullMatch| == f.end
      && d.fullMatch == "```mermaid\n" + d.code + "```"
      && OccursAt(markdown, d.fullMatch, d.position)
  {
    FenceHitShape(markdown, f);
  }

  /** A block match spans the opening line, the body and the closing fence. */
  lemma FenceHitShape(s: string, f: Found)
    requires IsHit(FenceMatch, s, f)
    ensures f.start + 14 <= f.end <= |s|
    ensures s[f.start..f.end] == "```mermaid\n" + f.text + "```"
  {
    var i, e := f.start, f.end;
    assert s[i..i + 11] == "```mermaid\n";
    assert s[e - 3..e] == "```";
    assert s[i..e] == s[i..i + 11] + s[i + 11..e - 3] + s[e - 3..e];
  }

  /** Numbers differ, so file names differ, whatever the titles. */
  lemma FileNamesDistinct(t1: Option<string>, t2: Option<string>, timestamp: nat, n1: nat, n2: nat)
    requires n1 != n2
    ensures FileName(t1, timestamp, n1) != FileName(t2, timestamp, n2)
  {
    NatToStringInjective(n1, n2);
    var a := TitleBase(t1, n1) + "-" + NatToString(timestamp);
    var b := TitleBase(t2, n2) + "-" + NatToString(timestamp);
    assert FileName(t1, timestamp, n1) == a + "-" + NatToString(n1);
    assert FileName(t2, timestamp, n2) == b + "-" + NatToString(n2);
    if FileName(t1, timestamp, n1) == FileName(t2, timestamp, n2) {
      LastDashSuffix(a, NatToString(n1), b, NatToString(n2));
    }
  }

  /** Index of the last `-` of `w`. */
  function LastDash(w: string): (r: Option<nat>)
    ensures r.Some? ==> r.value < |w|
    decreases |w|
  {
    if w == [] then None
    else if w[|w| - 1] == '-' then Some(|w| - 1)
    else LastDash(w[..|w| - 1])
  }

  /** The last `-` of `a + "-" + d` is the one before `d` when `d` has none. */
  lemma {:induction false} LastDashBefore(a: string, d: string)
    requires '-' !in d
    ensures LastDash(a + "-" + d) == Some(|a|)
    decreases |d|
  {
    var w := a + "-" + d;
    if d != [] {
      assert w[|w| - 1] == d[|d| - 1];
      assert w[..|w| - 1] == a + "-" + d[..|d| - 1];
      LastDashBefore(a, d[..|d| - 1]);
    }
  }

  /** The text after the last `-` is determined by the whole text. */
  lemma LastDashSuffix(a: string, d1: string, b: string, d2: string)
    requires forall k :: 0 <= k < |d1| ==> IsDigit(d1[k])
    requires forall k :: 0 <= k < |d2| ==> IsDigit(d2[k])
    requires a + "-" + d1 == b + "-" + d2
    ensures d1 == d2
  {
    var w := a + "-" + d1;
    LastDashBefore(a, d1);
    LastDashBefore(b, d2);
    assert d1 == w[|a| + 1..];
    assert d2 == w[|b| + 1..];
  }

  /** Within one run the file names are pairwise distinct. */
  lemma DiagramFileNamesDistinct(markdown: string, fs: seq<Found>, titles: seq<string>,
                                 positions: map<string, nat>, timestamp: nat, j: nat, k: nat)
    requires InBounds(markdown, fs)
    requires j < k < |fs|
    ensures DiagramsOf(markdown, fs, titles, positions, timestamp)[j].filename
            != DiagramsOf(markdown, fs, titles, positions, timestamp)[k].filename
  {
    var ds := DiagramsOf(markdown, fs, titles, positions, timestamp);
    FileNamesDistinct(ds[j].title, ds[k].title, timestamp, j + 1, k + 1);
  }

  // ---------------------------------------------------------------------
  // Rendering (lines 426-491)
  // ---------------------------------------------------------------------

  /** What the conversion does for a diagram, in order: a render attempt of
      some code, or the creation of the error image with a caption. */
  datatype Event = Render(index: nat, code: string) | ErrorImage(index: nat, caption: string)

  /** `diagram.title || \`Diagram ${diagram.index}\``: the alt text and the error-image caption. */
  function AltText(d: Diagram): string {
    if HasTitle(d.title) then d.title.value else "Diagram " + NatToString(d.index)
  }

  /** One diagram's attempts. `render(code)` says whether the renderer
      accepts `code`; `written(i, n)` whether the n-th write of diagram i's
      temporary file succeeds (a failure throws, the diagram is abandoned). */
  function Attempts(d: Diagram, render: string -> bool, written: (nat, nat) -> bool): seq<Event> {
    AttemptsOn(d.index, Repair(d.code), AltText(d), render, written)
  }

  /** The attempts for diagram `index` once its code is repaired into `fixed`. */
  function AttemptsOn(index: nat, fixed: string, caption: string, render: string -> bool,
                      written: (nat, nat) -> bool): seq<Event> {
    var simplified := Simplify(fixed);
    if !written(index, 1) then []
    else if render(fixed) then [Render(index, fixed)]
    else if !written(index, 2) then [Render(index, fixed)]
    else if render(simplified) then [Render(index, fixed), Render(index, simplified)]
    else [Render(index, fixed), Render(index, simplified), ErrorImage(index, caption)]
  }

  function AttemptsOf(ds: seq<Diagram>, render: string -> bool, written: (nat, nat) -> bool): seq<Event>
    decreases |ds|
  {
    if ds == [] then [] else AttemptsOf(ds[..|ds| - 1], render, written) + Attempts(ds[|ds| - 1], render, written)
  }

  /** One turn of the conversion loop: repair, render, retry on the
      simplified diagram, fall back to the error image. A failed write
      throws; the exception is caught and the diagram abandoned. */
  method ConvertOne(diagram: Diagram, render: string -> bool, written: (nat, nat) -> bool)
    returns (events: seq<Event>)
    ensures events == Attempts(diagram, render, written)
  {
    var fixedDiagramCode := FixMermaidSyntax(diagram.code);
    events := ConvertRepaired(diagram.index, fixedDiagramCode, AltText(diagram), render, written);
  }

  method ConvertRepaired(index: nat, fixedDiagramCode: string, caption: string, render: string -> bool,
                         written: (nat, nat) -> bool) returns (events: seq<Event>)
    ensures events == AttemptsOn(index, fixedDiagramCode, caption, render, written)
  {
    events := [];
    if !written(index, 1) {
      return;
    }
    events := [Render(index, fixedDiagramCode)];
    if !render(fixedDiagramCode) {
      var simplifiedCode := Simplify(fixedDiagramCode);
      if !written(index, 2) {
        return;
      }
      events := events + [Render(index, simplifiedCode)];
      if !render(simplifiedCode) {
        events := events + [ErrorImage(index, caption)];
      }
    }
  }

  /** The conversion loop over all diagrams, in order: a failure of one
      diagram does not stop the loop. */
  method RenderAll(diagrams: seq<Diagram>, render: string -> bool, written: (nat, nat) -> bool)
    returns (events: seq<Event>)
    ensures events == AttemptsOf(diagrams, render, written)
  {
    events := [];
    for k := 0 to |diagrams|
      invariant events == AttemptsOf(diagrams[..k], render, written)
    {
      var attempts := ConvertOne(diagrams[k], render, written);
      AttemptsOfSnoc(diagrams, k, render, written);
      events := events + attempts;
    }
    assert diagrams[..|diagrams|] == diagrams;
  }

  lemma AttemptsOfSnoc(ds: seq<Diagram>, k: nat, render: string -> bool, written: (nat, nat) -> bool)
    requires k < |ds|
    ensures AttemptsOf(ds[..k + 1], render, written) == AttemptsOf(ds[..k], render, written) + Attempts(ds[k], render, written)
  {
    assert ds[..k + 1][..k] == ds[..k];
  }

  /** Per diagram: the repaired code is rendered first; at most one retry,
      on the simplified repaired code, only after the first render failed;
      the error image comes last, exactly when both renders failed. */
  lemma AttemptsPolicy(index: nat, fixed: string, caption: string, render: string -> bool,
                       written: (nat, nat) -> bool)
    ensures var a := AttemptsOn(index, fixed, caption, render, written);
      |a| <= 3
      && (forall k :: 0 <= k < |a| ==> a[k].index == index)
      && (|a| > 0 <==> written(index, 1))
      && (|a| > 0 ==> a[0] == Render(index, fixed))
      && (|a| > 1 <==> written(index, 1) && !render(fixed) && written(index, 2))
      && (|a| > 1 ==> a[1] == Render(index, Simplify(fixed)))
      && (|a| > 2 <==> |a| > 1 && !render(Simplify(fixed)))
      && (|a| > 2 ==> a[2] == ErrorImage(index, caption))
  {
    var simplified := Simplify(fixed);
    var a := AttemptsOn(index, fixed, caption, render, written);
    if !written(index, 1) {
      assert a == [];
    } else if render(fixed) {
      assert a == [Render(index, fixed)];
    } else if !written(index, 2) {
      assert a == [Render(index, fixed)];
    } else if render(simplified) {
      assert a == [Render(index, fixed), Render(index, simplified)];
    } else {
      assert a == [Render(index, fixed), Render(index, simplified), ErrorImage(index, caption)];
    }
  }

  /** Every diagram whose temporary file could be written gets its first
      render, whatever happened to the diagrams before it. */
  lemma {:induction false} EveryDiagramAttempted(ds: seq<Diagram>, render: string -> bool,
                                                 written: (nat, nat) -> bool, k: nat)
    requires k < |ds| && written(ds[k].index, 1)
    ensures Render(ds[k].index, Repair(ds[k].code)) in AttemptsOf(ds, render, written)
    decreases |ds|
  {
    var init := ds[..|ds| - 1];
    var a := Attempts(ds[|ds| - 1], render, written);
    assert AttemptsOf(ds, render, written) == AttemptsOf(init, render, written) + a;
    if k == |ds| - 1 {
      AttemptsPolicy(ds[k].index, Repair(ds[k].code), AltText(ds[k]), render, written);
      assert a[0] in AttemptsOf(ds, render, written);
    } else {
      assert init[k] == ds[k];
      EveryDiagramAttempted(init, render, written, k);
    }
  }

  // ---------------------------------------------------------------------
  // Rewrite (lines 494-510)
  // ---------------------------------------------------------------------

  /** `.replace(/\\/g, '/')` */
  function Slashes(p: string): (r: string)
    ensures |r| == |p| && '\\' !in r
    ensures forall k :: 0 <= k < |p| ==> r[k] == (if p[k] == '\\' then '/' else p[k])
  {
    seq(|p|, k requires 0 <= k < |p| => if p[k] == '\\' then '/' else p[k])
  }

  /** The image path: the image directory as it is written in the Markdown
      file, then the file name with `.png`. */
  function ImagePath(imageDir: string, filename: string): string {
    Slashes(imageDir + "/" + filename + ".png")
  }

  function ImageMarkdown(d: Diagram, imageDir: string): string {
    "![" + AltText(d) + "](" + ImagePath(imageDir, d.filename) + ")"
  }

  function RewriteSpec(markdown: string, ds: seq<Diagram>, imageDir: string): string
    decreases |ds|
  {
    if ds == [] then markdown
    else ReplaceString(RewriteSpec(markdown, ds[..|ds| - 1], imageDir), ds[|ds| - 1].fullMatch, ImageMarkdown(ds[|ds| - 1], imageDir))
  }

  /** The rewrite loop: in document order, the first occurrence of each
      block's text in the current Markdown becomes its image reference. */
  method RewriteAll(markdown: string, diagrams: seq<Diagram>, imageDir: string) returns (updatedMarkdown: string)
    ensures updatedMarkdown == RewriteSpec(markdown, diagrams, imageDir)
  {
    updatedMarkdown := markdown;
    for k := 0 to |diagrams|
      invariant updatedMarkdown == RewriteSpec(markdown, diagrams[..k], imageDir)
    {
      assert diagrams[..k + 1][..k] == diagrams[..k];
      var diagram := diagrams[k];
      var imageMarkdown := ImageMarkdown(diagram, imageDir);
      updatedMarkdown := ReplaceString(updatedMarkdown, diagram.fullMatch, imageMarkdown);
    }
    assert diagrams[..|diagrams|] == diagrams;
  }

  /** One step of the rewrite: where the block's text occurs, its first
      occurrence is replaced by the reference (taken literally when it holds
      no `$`); where it does not occur, nothing changes. */
  lemma RewriteStep(s: string, d: Diagram, imageDir: string)
    requires '$' !in ImageMarkdown(d, imageDir)
    ensures var r := ReplaceString(s, d.fullMatch, ImageMarkdown(d, imageDir));
      match IndexOf(s, d.fullMatch, 0)
      case None => r == s
      case Some(k) =>
        r == s[..k] + ImageMarkdown(d, imageDir) + s[k + |d.fullMatch|..]
        && forall j :: 0 <= j < k ==> !OccursAt(s, d.fullMatch, j)
  {
    ReplaceStringPlain(s, d.fullMatch, ImageMarkdown(d, imageDir));
  }

  /** The first block's text first occurs where the block was found: an
      earlier occurrence would be an earlier block. */
  lemma FirstBlockFirstOccurrence(markdown: string, titles: seq<string>, positions: map<string, nat>, timestamp: nat)
    requires InBounds(markdown, FindAll(FenceMatch, markdown, 0))
    requires FindAll(FenceMatch, markdown, 0) != []
    ensures var d := DiagramsOf(markdown, FindAll(FenceMatch, markdown, 0), titles, positions, timestamp)[0];
      IndexOf(markdown, d.fullMatch, 0) == Some(d.position)
  {
    var fs := FindAll(FenceMatch, markdown, 0);
    FindAllOrdered(FenceMatch, markdown, 0);
    FindAllStep(FenceMatch, markdown, 0);
    DiagramShapeAt(markdown, fs, titles, positions, timestamp, 0);
    var d := DiagramsOf(markdown, fs, titles, positions, timestamp)[0];
    assert d.position == fs[0].start;
    FirstCopy(markdown, d.code, d.position);
  }

  /** Text of the block form at `p`, with no block match before `p`: its first occurrence is at `p`. */
  lemma FirstCopy(s: string, body: string, p: nat)
    requires OccursAt(s, "```mermaid\n" + body + "```", p)
    requires forall j :: 0 <= j < p ==> !HitAt(FenceMatch, s, j)
    ensures IndexOf(s, "```mermaid\n" + body + "```", 0) == Some(p)
  {
    var w := "```mermaid\n" + body + "```";
    forall j: nat | j < p
      ensures !OccursAt(s, w, j)
    {
      CopyMatches(s, body, j);
    }
    assert IndexOf(s, w, 0).Some?;
  }

  /** A copy of a block's text is itself matched by the block pattern. */
  lemma CopyMatches(s: string, body: string, j: nat)
    ensures OccursAt(s, "```mermaid\n" + body + "```", j) ==> HitAt(FenceMatch, s, j)
  {
    var w := "```mermaid\n" + body + "```";
    if OccursAt(s, w, j) {
      var c := j + 11 + |body|;
      assert s[j..j + 11] == w[..11];
      assert s[c..c + 3] == w[11 + |body|..];
      assert OccursAt(s, "```", c);
      var r := IndexOf(s, "```", j + 11);
      assert r.Some? && r.value <= c;
    }
  }

  // ---------------------------------------------------------------------
  // The whole conversion (lines 357-510)
  // ---------------------------------------------------------------------

  datatype Conversion = Conversion(markdown: string, events: seq<Event>)

  /** `None` when no block is found (the function returns early and writes
      nothing); otherwise the rewritten Markdown and the render events. */
  method ConvertDiagramsToImages(markdown: string, imageDir: string, timestamp: nat,
                                 render: string -> bool, written: (nat, nat) -> bool)
    returns (result: Option<Conversion>)
    ensures InBounds(markdown, FindAll(FenceMatch, markdown, 0))
    ensures result.None? <==> FindAll(FenceMatch, markdown, 0) == []
    ensures result.Some? ==>
      var fs := FindAll(FenceMatch, markdown, 0);
      var titles := FindAll(TitleMatch, markdown, 0);
      var ds := DiagramsOf(markdown, fs, TitlesOf(titles), PositionsOf(titles), timestamp);
      result.value == Conversion(RewriteSpec(markdown, ds, imageDir), AttemptsOf(ds, render, written))
  {
    var diagramTitles, diagramPositions := ScanTitles(markdown);
    var diagrams := ScanDiagrams(markdown, diagramTitles, diagramPositions, timestamp);
    if |diagrams| == 0 {
      return None;
    }
    var events := RenderAll(diagrams, render, written);
    var updatedMarkdown := RewriteAll(markdown, diagrams, imageDir);
    return Some(Conversion(updatedMarkdown, events));
  }
}
