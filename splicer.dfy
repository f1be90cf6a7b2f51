/** `insertDiagramsIntoMarkdown`: each generated Mermaid block is inserted
    after the paragraph that holds its description. The sections are
    sorted by descending position, then inserted one after the other, each
    at the end of its paragraph in the original text plus a running offset
    that grows by the length of every block inserted so far. */
module Splicer {
  import opened Options
  import opened JsString
  import opened SectionExtraction

  /** An extracted section with the block generated for it; `endIndex` is
      written by the splicer. `None` stands for an absent property. */
  datatype DiagramSection = DiagramSection(section: Section, mermaidCode: Option<string>, endIndex: Option<nat>)

  /** `!section.mermaidCode` is false: there is a non-empty block. */
  predicate HasCode(d: DiagramSection) {
    d.mermaidCode.Some? && d.mermaidCode.value != []
  }

  /** In order of descending `matchIndex`. */
  predicate Descending(ds: seq<DiagramSection>) {
    forall x, y :: 0 <= x < y < |ds| ==> ds[x].section.matchIndex >= ds[y].section.matchIndex
  }

  /** The first blank line at or after `from`, or the end of the text. */
  function ParagraphEnd(s: string, from: nat): (p: nat)
    ensures p <= |s|
    ensures p < |s| ==> from <= p && OccursAt(s, "\n\n", p)
    ensures forall k :: from <= k < p ==> !OccursAt(s, "\n\n", k)
  {
    match IndexOf(s, "\n\n", from)
    case None => |s|
    case Some(k) => k
  }

  /** A later start never finds an earlier paragraph end. */
  lemma ParagraphEndMonotone(s: string, a: nat, b: nat)
    requires a <= b
    ensures ParagraphEnd(s, a) <= ParagraphEnd(s, b)
  {
    var pb := ParagraphEnd(s, b);
    if pb < |s| {
      assert !OccursAt(s, "\n\n", pb) ==> ParagraphEnd(s, a) <= pb;
    }
  }

  /** The section after the splicer has visited it: a section with a block
      gets the end of its paragraph as `endIndex`. */
  function Annotated(original: string, d: DiagramSection): DiagramSection {
    if HasCode(d) then d.(endIndex := Some(ParagraphEnd(original, d.section.matchIndex))) else d
  }

  // ---------------------------------------------------------------------
  // The insertions, in the order the loop performs them.
  // ---------------------------------------------------------------------

  /** A block and where, in the original text, it belongs. */
  datatype Placement = Placement(at: nat, code: string)

  /** The insertions the loop performs, in its order: one per section with
      a block, at the end of its paragraph in the original text. */
  function Placements(original: string, ds: seq<DiagramSection>): (ps: seq<Placement>)
    ensures forall k :: 0 <= k < |ps| ==> ps[k].at <= |original| && ps[k].code != []
    decreases |ds|
  {
    if ds == [] then []
    else
      (if HasCode(ds[0]) then [Placement(ParagraphEnd(original, ds[0].section.matchIndex), ds[0].mermaidCode.value)] else [])
      + Placements(original, ds[1..])
  }

  function CodeLength(ps: seq<Placement>): nat
    decreases |ps|
  {
    if ps == [] then 0 else |ps[0].code| + CodeLength(ps[1..])
  }

  /** Total length of the blocks of the sections that have one. */
  function InsertedLength(ds: seq<DiagramSection>): nat
    decreases |ds|
  {
    if ds == [] then 0
    else (if HasCode(ds[0]) then |ds[0].mermaidCode.value| else 0) + InsertedLength(ds[1..])
  }

  lemma {:induction false} PlacementsLength(original: string, ds: seq<DiagramSection>)
    ensures CodeLength(Placements(original, ds)) == InsertedLength(ds)
    decreases |ds|
  {
    if ds != [] {
      PlacementsLength(original, ds[1..]);
      var ps := Placements(original, ds);
      if HasCode(ds[0]) {
        assert ps[1..] == Placements(original, ds[1..]);
      } else {
        assert ps == Placements(original, ds[1..]);
      }
    }
  }

  /** Every insertion point, shifted by `offset`, lies within `cur`. */
  predicate Fits(cur: string, ps: seq<Placement>, offset: nat) {
    forall k :: 0 <= k < |ps| ==> ps[k].at + offset <= |cur|
  }

  /** The rest of the loop from the state (`cur`, `offset`), as written:
      each block goes at its original position plus the offset, and the
      offset then grows by the block's length. */
  function Shifted(cur: string, ps: seq<Placement>, offset: nat): (r: string)
    requires Fits(cur, ps, offset)
    ensures |r| == |cur| + CodeLength(ps)
    decreases |ps|
  {
    if ps == [] then cur
    else
      var p := ps[0].at + offset;
      var c := ps[0].code;
      Shifted(cur[..p] + c + cur[p..], ps[1..], offset + |c|)
  }

  /** The text `insertDiagramsIntoMarkdown` returns for the sections in
      the order given. Its length is the original length plus the lengths
      of all inserted blocks. */
  function Splice(original: string, ds: seq<DiagramSection>): (r: string)
    ensures |r| == |original| + InsertedLength(ds)
  {
    PlacementsLength(original, ds);
    Shifted(original, Placements(original, ds), 0)
  }

  // ---------------------------------------------------------------------
  // The methods.
  // ---------------------------------------------------------------------

  /** `diagramSections.sort((a, b) => b.matchIndex - a.matchIndex)`, as an
      insertion sort that moves a section only past smaller positions. */
  method SortByMatchIndexDescending(a: array<DiagramSection>)
    modifies a
    ensures Descending(a[..])
    ensures multiset(a[..]) == multiset(old(a[..]))
  {
    for i := 0 to a.Length
      invariant DescendingUpTo(a[..], i)
      invariant multiset(a[..]) == multiset(old(a[..]))
    {
      SinkDown(a, i);
    }
    assert a[..] == a[..a.Length];
  }

  /** The first `n` sections are in descending order. */
  predicate DescendingUpTo(s: seq<DiagramSection>, n: nat) {
    forall x, y :: 0 <= x < y < n && y < |s| ==> s[x].section.matchIndex >= s[y].section.matchIndex
  }

  /** One insertion step: the section at `i` moves down past the sections
      with a smaller position. */
  method SinkDown(a: array<DiagramSection>, i: nat)
    requires i < a.Length && DescendingUpTo(a[..], i)
    modifies a
    ensures DescendingUpTo(a[..], i + 1)
    ensures multiset(a[..]) == multiset(old(a[..]))
  {
    var j := i;
    while j > 0 && a[j - 1].section.matchIndex < a[j].section.matchIndex
      invariant 0 <= j <= i
      invariant forall x, y :: 0 <= x < y <= i && y != j ==> a[x].section.matchIndex >= a[y].section.matchIndex
      invariant 0 < j < i ==> a[j - 1].section.matchIndex >= a[j + 1].section.matchIndex
      invariant multiset(a[..]) == multiset(old(a[..]))
    {
      Swap(a, j - 1, j);
      j := j - 1;
    }
  }

  /** Exchanges two sections of the array. */
  method Swap(a: array<DiagramSection>, x: nat, y: nat)
    requires x < y < a.Length
    modifies a
    ensures a[x] == old(a[y]) && a[y] == old(a[x])
    ensures forall k :: 0 <= k < a.Length && k != x && k != y ==> a[k] == old(a[k])
    ensures multiset(a[..]) == multiset(old(a[..]))
  {
    a[x], a[y] := a[y], a[x];
  }

  /** The insertion loop over sections already in order: it writes each
      visited section's `endIndex` and returns the spliced text. */
  method SpliceInOrder(markdownContent: string, diagramSections: array<DiagramSection>) returns (newContent: string)
    modifies diagramSections
    ensures newContent == Splice(markdownContent, old(diagramSections[..]))
    ensures forall k :: 0 <= k < diagramSections.Length ==>
      diagramSections[k] == Annotated(markdownContent, old(diagramSections[k]))
  {
    ghost var ds := diagramSections[..];
    newContent := markdownContent;
    var offset: nat := 0;
    for i := 0 to diagramSections.Length
      invariant LoopState(newContent, offset) == Progress(markdownContent, ds, i)
      invariant forall k :: i <= k < diagramSections.Length ==> diagramSections[k] == ds[k]
      invariant forall k :: 0 <= k < i ==> diagramSections[k] == Annotated(markdownContent, ds[k])
    {
      var section := diagramSections[i];
      assert section == ds[i];
      if section.mermaidCode.None? || section.mermaidCode.value == [] {
        continue;
      }
      var endIndex := ParagraphEnd(markdownContent, section.section.matchIndex);
      diagramSections[i] := section.(endIndex := Some(endIndex));
      // The source tests `insertPosition !== -1` here; the test always holds.
      var insertPosition := endIndex;
      var code := section.mermaidCode.value;
      newContent := newContent[..insertPosition + offset] + code + newContent[insertPosition + offset..];
      offset := offset + |code|;
    }
    ProgressResumes(markdownContent, ds, |ds|);
    assert ds[|ds|..] == [];
  }

  /** The variables `newContent` and `offset` of the insertion loop. */
  datatype LoopState = LoopState(text: string, offset: nat)

  /** The loop state after the first `i` sections. */
  function Progress(original: string, ds: seq<DiagramSection>, i: nat): (st: LoopState)
    requires i <= |ds|
    ensures |st.text| == |original| + st.offset
    decreases i
  {
    if i == 0 then LoopState(original, 0)
    else
      var st := Progress(original, ds, i - 1);
      var d := ds[i - 1];
      if !HasCode(d) then st
      else
        var p := ParagraphEnd(original, d.section.matchIndex) + st.offset;
        LoopState(st.text[..p] + d.mermaidCode.value + st.text[p..], st.offset + |d.mermaidCode.value|)
  }

  /** From the state after `i` sections, the rest of the loop ends in the splice. */
  lemma {:induction false} ProgressResumes(original: string, ds: seq<DiagramSection>, i: nat)
    requires i <= |ds|
    ensures Shifted(Progress(original, ds, i).text, Placements(original, ds[i..]), Progress(original, ds, i).offset)
            == Splice(original, ds)
    decreases i
  {
    if i == 0 {
      assert ds[0..] == ds;
    } else {
      ProgressResumes(original, ds, i - 1);
      ProgressStep(original, ds, i);
    }
  }

  lemma ProgressStep(original: string, ds: seq<DiagramSection>, i: nat)
    requires 0 < i <= |ds|
    ensures var before, after := Progress(original, ds, i - 1), Progress(original, ds, i);
      Shifted(after.text, Placements(original, ds[i..]), after.offset)
      == Shifted(before.text, Placements(original, ds[i - 1..]), before.offset)
  {
    if HasCode(ds[i - 1]) {
      ProgressInsert(original, ds, i);
    } else {
      ProgressSkip(original, ds, i);
    }
  }

  lemma ProgressSkip(original: string, ds: seq<DiagramSection>, i: nat)
    requires 0 < i <= |ds| && !HasCode(ds[i - 1])
    ensures Progress(original, ds, i) == Progress(original, ds, i - 1)
    ensures Placements(original, ds[i - 1..]) == Placements(original, ds[i..])
  {
    PlacementsStep(original, ds, i - 1);
  }

  lemma ProgressInsert(original: string, ds: seq<DiagramSection>, i: nat)
    requires 0 < i <= |ds| && HasCode(ds[i - 1])
    ensures var before, after := Progress(original, ds, i - 1), Progress(original, ds, i);
      Shifted(after.text, Placements(original, ds[i..]), after.offset)
      == Shifted(before.text, Placements(original, ds[i - 1..]), before.offset)
  {
    var before := Progress(original, ds, i - 1);
    var d := ds[i - 1];
    var at := ParagraphEnd(original, d.section.matchIndex);
    var c := d.mermaidCode.value;
    var rest := Placements(original, ds[i..]);
    PlacementsStep(original, ds, i - 1);
    ShiftedStep(before.text, before.offset, at, c, rest, Progress(original, ds, i));
  }

  /** One turn of the loop, on the insertions still to come. */
  lemma PlacementsStep(original: string, ds: seq<DiagramSection>, i: nat)
    requires i < |ds|
    ensures Placements(original, ds[i..]) ==
      (if HasCode(ds[i]) then [Placement(ParagraphEnd(original, ds[i].section.matchIndex), ds[i].mermaidCode.value)] else [])
      + Placements(original, ds[i + 1..])
  {
    assert ds[i..][0] == ds[i] && ds[i..][1..] == ds[i + 1..];
  }

  /** Inserting the next block, then running the rest of the loop, is
      running the loop from the state before the insertion. */
  lemma ShiftedStep(cur: string, offset: nat, at: nat, c: string, rest: seq<Placement>, next: LoopState)
    requires at + offset <= |cur| && Fits(cur, rest, offset)
    requires next == LoopState(cur[..at + offset] + c + cur[at + offset..], offset + |c|)
    ensures Fits(cur, [Placement(at, c)] + rest, offset)
    ensures Shifted(next.text, rest, next.offset) == Shifted(cur, [Placement(at, c)] + rest, offset)
  {
    var ps := [Placement(at, c)] + rest;
    assert ps[0] == Placement(at, c) && ps[1..] == rest;
  }

  /** The whole of `insertDiagramsIntoMarkdown`: the sections end up sorted
      by descending position (a permutation of the input), each visited
      section carries its paragraph end, and the text is the splice of the
      sections in that order. */
  method InsertDiagramsIntoMarkdown(markdownContent: string, diagramSections: array<DiagramSection>)
    returns (newContent: string, ghost order: seq<DiagramSection>)
    modifies diagramSections
    ensures Descending(order) && multiset(order) == multiset(old(diagramSections[..]))
    ensures newContent == Splice(markdownContent, order)
    ensures |order| == diagramSections.Length
    ensures forall k :: 0 <= k < |order| ==> diagramSections[k] == Annotated(markdownContent, order[k])
  {
    SortByMatchIndexDescending(diagramSections);
    order := diagramSections[..];
    newContent := SpliceInOrder(markdownContent, diagramSections);
  }

  // ---------------------------------------------------------------------
  // Properties of the splice.
  // ---------------------------------------------------------------------

  /** Sections without a block are skipped and leave the offset alone:
      removing one does not change the result. */
  lemma {:induction false} SkippedSectionIgnored(original: string, ds: seq<DiagramSection>, k: nat)
    requires k < |ds| && !HasCode(ds[k])
    ensures Splice(original, ds) == Splice(original, ds[..k] + ds[k + 1..])
  {
    PlacementsSkip(original, ds, k);
  }

  lemma {:induction false} PlacementsSkip(original: string, ds: seq<DiagramSection>, k: nat)
    requires k < |ds| && !HasCode(ds[k])
    ensures Placements(original, ds) == Placements(original, ds[..k] + ds[k + 1..])
    decreases k
  {
    var rest := ds[..k] + ds[k + 1..];
    if k == 0 {
      assert rest == ds[1..];
    } else {
      PlacementsSkip(original, ds[1..], k - 1);
      assert ds[1..][..k - 1] + ds[1..][k..] == rest[1..];
      assert rest[0] == ds[0];
    }
  }

  /** Sections in descending order give insertion points in descending order. */
  lemma {:induction false} PlacementsDescending(original: string, ds: seq<DiagramSection>)
    requires Descending(ds)
    ensures PlacedDescending(Placements(original, ds))
    decreases |ds|
  {
    if ds != [] {
      PlacementsDescending(original, ds[1..]);
      PlacementsBelow(original, ds[1..], ds[0].section.matchIndex);
    }
  }

  predicate PlacedDescending(ps: seq<Placement>) {
    forall x, y :: 0 <= x < y < |ps| ==> ps[x].at >= ps[y].at
  }

  lemma {:induction false} PlacementsBelow(original: string, ds: seq<DiagramSection>, bound: nat)
    requires forall j :: 0 <= j < |ds| ==> ds[j].section.matchIndex <= bound
    ensures forall k :: 0 <= k < |Placements(original, ds)| ==>
      Placements(original, ds)[k].at <= ParagraphEnd(original, bound)
    decreases |ds|
  {
    if ds != [] {
      PlacementsBelow(original, ds[1..], bound);
      ParagraphEndMonotone(original, ds[0].section.matchIndex, bound);
    }
  }

  // ---------------------------------------------------------------------
  // The splice the sort was meant to allow: working from the end of the
  // text towards its start, earlier positions are not moved by later
  // insertions, so no offset is needed.
  // ---------------------------------------------------------------------

  /** Each block inserted at its original position, without an offset. */
  function Inserted(cur: string, ps: seq<Placement>): (r: string)
    requires Fits(cur, ps, 0)
    ensures |r| == |cur| + CodeLength(ps)
    decreases |ps|
  {
    if ps == [] then cur
    else
      var p := ps[0].at;
      Inserted(cur[..p] + ps[0].code + cur[p..], ps[1..])
  }

  /** The corrected splicer: the same loop without the offset. */
  function SpliceCorrected(original: string, ds: seq<DiagramSection>): (r: string)
    ensures |r| == |original| + InsertedLength(ds)
  {
    PlacementsLength(original, ds);
    Inserted(original, Placements(original, ds))
  }

  /** The intended result, stated independently of any loop: the original
      cut at the insertion points, each block between the pieces around
      its point. Insertion points are listed from the last to the first. */
  function Interleave(s: string, ps: seq<Placement>): string
    requires PlacedDescending(ps) && Fits(s, ps, 0)
    decreases |ps|
  {
    if ps == [] then s
    else Interleave(s[..ps[0].at], ps[1..]) + ps[0].code + s[ps[0].at..]
  }

  /** Text after the last insertion point is carried along unchanged. */
  lemma {:induction false} InterleaveAppend(x: string, y: string, ps: seq<Placement>)
    requires PlacedDescending(ps) && Fits(x, ps, 0)
    ensures Interleave(x + y, ps) == Interleave(x, ps) + y
  {
    if ps != [] {
      var p := ps[0].at;
      assert (x + y)[..p] == x[..p];
      assert (x + y)[p..] == x[p..] + y;
      var front := Interleave(x[..p], ps[1..]) + ps[0].code;
      assert Interleave(x + y, ps) == front + (x[p..] + y);
      assert Interleave(x, ps) == front + x[p..];
    }
  }

  lemma {:induction false} InsertedIsInterleave(cur: string, ps: seq<Placement>)
    requires PlacedDescending(ps) && Fits(cur, ps, 0)
    ensures Inserted(cur, ps) == Interleave(cur, ps)
    decreases |ps|
  {
    if ps != [] {
      var p, c := ps[0].at, ps[0].code;
      var next := cur[..p] + c + cur[p..];
      InsertedIsInterleave(next, ps[1..]);
      assert next == cur[..p] + (c + cur[p..]);
      InterleaveAppend(cur[..p], c + cur[p..], ps[1..]);
    }
  }

  /** For sections in descending order, the corrected splicer puts every
      block exactly at the end of its paragraph in the original text. */
  lemma CorrectedIsIntended(original: string, ds: seq<DiagramSection>)
    requires Descending(ds)
    ensures PlacedDescending(Placements(original, ds))
    ensures SpliceCorrected(original, ds) == Interleave(original, Placements(original, ds))
  {
    PlacementsDescending(original, ds);
    InsertedIsInterleave(original, Placements(original, ds));
  }

  /** With a single block the offset is still zero, so the splice as
      written puts it where it belongs. */
  lemma SingleBlockPlaced(original: string, ds: seq<DiagramSection>)
    requires |Placements(original, ds)| <= 1
    ensures Splice(original, ds) == SpliceCorrected(original, ds)
  {
    var ps := Placements(original, ds);
    if ps != [] {
      var p := ps[0].at;
      var once := original[..p] + ps[0].code + original[p..];
      assert ps[1..] == [];
      assert Shifted(original, ps, 0) == Shifted(once, [], |ps[0].code|) == once;
      assert Inserted(original, ps) == Inserted(once, []) == once;
    }
  }

  /** With two blocks the second lands one block-length too far: in
      `a\n\nb\n\n` with blocks `Y` for the paragraph at 3 and `X` for the
      paragraph at 0, `X` ends up inside the blank line after `a` instead
      of right after `a`. */
  lemma SpliceMisplaces(s0: Section, s3: Section)
    requires s0.matchIndex == 0 && s3.matchIndex == 3
    ensures var ds := [DiagramSection(s3, Some("Y"), None), DiagramSection(s0, Some("X"), None)];
      Descending(ds)
      && Splice("a\n\nb\n\n", ds) == "a\nX\nbY\n\n"
      && SpliceCorrected("a\n\nb\n\n", ds) == "aX\n\nbY\n\n"
  {
    var s := "a\n\nb\n\n";
    var ds := [DiagramSection(s3, Some("Y"), None), DiagramSection(s0, Some("X"), None)];
    SamplePlacements(s, ds, s0, s3);
    var ps := [Placement(4, "Y"), Placement(1, "X")];
    SampleShifted(s, ps);
    SampleInserted(s, ps);
  }

  lemma SampleParagraphEnds(s: string)
    requires s == "a\n\nb\n\n"
    ensures ParagraphEnd(s, 3) == 4 && ParagraphEnd(s, 0) == 1
  {
    assert s[0] == 'a' && s[1] == '\n' && s[2] == '\n' && s[3] == 'b' && s[4] == '\n' && s[5] == '\n';
    NotBlankAt(s, 3);
    BlankAt(s, 4);
    IndexOfAt(s, "\n\n", 3, 4);
    NotBlankAt(s, 0);
    BlankAt(s, 1);
    IndexOfAt(s, "\n\n", 0, 1);
  }

  lemma BlankAt(s: string, k: nat)
    requires k + 1 < |s| && s[k] == '\n' && s[k + 1] == '\n'
    ensures OccursAt(s, "\n\n", k)
  {
    assert s[k..k + 2] == [s[k], s[k + 1]];
  }

  lemma NotBlankAt(s: string, k: nat)
    requires k < |s| && s[k] != '\n'
    ensures !OccursAt(s, "\n\n", k)
  {
    if k + 2 <= |s| {
      assert s[k..k + 2][0] == s[k];
    }
  }

  lemma SamplePlacements(s: string, ds: seq<DiagramSection>, s0: Section, s3: Section)
    requires s == "a\n\nb\n\n" && s0.matchIndex == 0 && s3.matchIndex == 3
    requires ds == [DiagramSection(s3, Some("Y"), None), DiagramSection(s0, Some("X"), None)]
    ensures Placements(s, ds) == [Placement(4, "Y"), Placement(1, "X")]
  {
    SampleParagraphEnds(s);
    PlacementsStep(s, ds, 0);
    PlacementsStep(s, ds, 1);
    assert ds[2..] == [];
    assert ds[0..] == ds;
  }

  lemma SampleShifted(s: string, ps: seq<Placement>)
    requires s == "a\n\nb\n\n" && ps == [Placement(4, "Y"), Placement(1, "X")]
    ensures Fits(s, ps, 0) && Shifted(s, ps, 0) == "a\nX\nbY\n\n"
  {
    var first := s[..4] + "Y" + s[4..];
    assert first == "a\n\nbY\n\n";
    assert ps[1..] == [Placement(1, "X")] && ps[1..][1..] == [];
    assert Shifted(s, ps, 0) == Shifted(first, ps[1..], 1);
    assert Shifted(first, ps[1..], 1) == Shifted(first[..2] + "X" + first[2..], [], 2);
    assert first[..2] + "X" + first[2..] == "a\nX\nbY\n\n";
  }

  lemma SampleInserted(s: string, ps: seq<Placement>)
    requires s == "a\n\nb\n\n" && ps == [Placement(4, "Y"), Placement(1, "X")]
    ensures Fits(s, ps, 0) && Inserted(s, ps) == "aX\n\nbY\n\n"
  {
    var first := s[..4] + "Y" + s[4..];
    assert first == "a\n\nbY\n\n";
    assert ps[1..] == [Placement(1, "X")] && ps[1..][1..] == [];
    assert Inserted(s, ps) == Inserted(first, ps[1..]);
    assert Inserted(first, ps[1..]) == Inserted(first[..1] + "X" + first[1..], []);
    assert first[..1] + "X" + first[1..] == "aX\n\nbY\n\n";
  }
}
