/** `extractSections`: the scan of a Markdown document for diagram
    descriptions of the form `**<title> Diagram:** <description>`, each
    returned with its title, its description, the matched text, its
    position and a window of surrounding context. */
module SectionExtraction {
  import opened Options
  import opened JsString
  import opened JsRegex
  import opened ImageConversion

  // ---------------------------------------------------------------------
  // The pattern /\*\*([^*]+Diagram):\*\*([^\n]+)/g
  // `[^*]+` cannot cross a `*`, and the group, then `:`, must be followed
  // by `**`; so the group ends one character before the first `*` after
  // the opening `**`. The second group takes the rest of the line and must
  // not be empty. The hit's text is the first group; the second group is
  // the text between `:**` and the end of the match.
  // ---------------------------------------------------------------------

  predicate NotNewline(c: char) {
    c != '\n'
  }

  /** A match leaves room for `**`, the title group, `:**` and a non-empty
      second group. */
  function SectionMatch(s: string, i: nat): (r: Option<Hit>)
    ensures r.Some? ==> i + |r.value.text| + 5 < r.value.end <= |s|
  {
    if !OccursAt(s, "**", i) then None
    else
      var e := SpanEnd(s, i + 2, NotStar);
      if e >= i + 11 && e + 2 <= |s| && s[e - 1] == ':' && s[e..e + 2] == "**" && s[e - 8..e - 1] == "Diagram" then
        var d := SpanEnd(s, e + 2, NotNewline);
        if d > e + 2 then Some(Hit(d, s[i + 2..e - 1])) else None
      else None
  }

  /** Where the two groups lie: `**`, a star-free title group ending in
      `Diagram`, `:**`, then the rest of the line. */
  lemma SectionMatchShape(s: string, i: nat)
    requires SectionMatch(s, i).Some?
    ensures var h := SectionMatch(s, i).value;
      s[i..i + |h.text| + 5] == "**" + h.text + ":**"
      && |h.text| >= 8 && EndsWith(h.text, "Diagram") && '*' !in h.text
      && (forall k :: i + |h.text| + 5 <= k < h.end ==> s[k] != '\n')
      && (h.end == |s| || s[h.end] == '\n')
  {
    SectionMatchHead(s, i);
    SectionMatchTitle(s, i);
    SectionMatchLine(s, i);
  }

  /** A match read off the definition of the pattern. */
  lemma SectionMatchUnfold(s: string, i: nat)
    requires SectionMatch(s, i).Some?
    ensures OccursAt(s, "**", i)
    ensures var e := SpanEnd(s, i + 2, NotStar);
      e >= i + 11 && e + 2 <= |s| && s[e - 1] == ':' && s[e..e + 2] == "**" && s[e - 8..e - 1] == "Diagram"
      && SectionMatch(s, i).value == Hit(SpanEnd(s, e + 2, NotNewline), s[i + 2..e - 1])
  {
  }

  lemma SectionMatchHead(s: string, i: nat)
    requires SectionMatch(s, i).Some?
    ensures var g := SectionMatch(s, i).value.text;
      s[i..i + |g| + 5] == "**" + g + ":**"
  {
    SectionMatchUnfold(s, i);
    var e := SpanEnd(s, i + 2, NotStar);
    HeadPieces(s, i, e);
  }

  lemma HeadPieces(s: string, i: nat, e: nat)
    requires i + 11 <= e && e + 2 <= |s| && OccursAt(s, "**", i) && s[e - 1] == ':' && s[e..e + 2] == "**"
    ensures s[i..e + 2] == "**" + s[i + 2..e - 1] + ":**"
  {
    assert s[e - 1..e + 2] == ":**" by {
      SliceJoin(s, e - 1, e, e + 2);
      assert s[e - 1..e] == [s[e - 1]];
    }
    SliceJoin(s, i, i + 2, e - 1);
    SliceJoin(s, i, e - 1, e + 2);
  }

  lemma SectionMatchTitle(s: string, i: nat)
    requires SectionMatch(s, i).Some?
    ensures var g := SectionMatch(s, i).value.text;
      |g| >= 8 && EndsWith(g, "Diagram") && '*' !in g
  {
    SectionMatchUnfold(s, i);
    var e := SpanEnd(s, i + 2, NotStar);
    var g := s[i + 2..e - 1];
    SliceSlice(s, i + 2, e - 1, |g| - 7, |g|);
    assert forall k :: 0 <= k < |g| ==> g[k] == s[i + 2 + k];
  }

  lemma SectionMatchLine(s: string, i: nat)
    requires SectionMatch(s, i).Some?
    ensures var h := SectionMatch(s, i).value;
      (forall k :: i + |h.text| + 5 <= k < h.end ==> s[k] != '\n')
      && (h.end == |s| || s[h.end] == '\n')
  {
    SectionMatchUnfold(s, i);
  }

  /** The record pushed for each match. */
  datatype Section = Section(
    sectionContent: string,
    diagramTitle: string,
    diagramDescription: string,
    fullMatch: string,
    matchIndex: nat)

  /** Every match leaves room for its `:**` and a non-empty second group. */
  predicate Spans(content: string, fs: seq<Found>) {
    forall k :: 0 <= k < |fs| ==> fs[k].start + |fs[k].text| + 5 < fs[k].end <= |content|
  }

  /** Start of the context window: 500 characters before the match, or the start of the text. */
  function WindowStart(index: nat): (r: nat)
    ensures r <= index && index - r <= 500
    ensures index - r < 500 ==> r == 0
  {
    if index >= 500 then index - 500 else 0
  }

  /** End of the context window: 500 characters after the match, or the end of the text. */
  function WindowEnd(content: string, matchEnd: nat): (r: nat)
    ensures r <= |content| && r <= matchEnd + 500
    ensures r < matchEnd + 500 ==> r == |content|
  {
    if matchEnd + 500 <= |content| then matchEnd + 500 else |content|
  }

  /** The second group: the rest of the line after `:**`. */
  function Description(content: string, f: Found): string
    requires f.start + |f.text| + 5 < f.end <= |content|
  {
    content[f.start + |f.text| + 5..f.end]
  }

  function SectionAt(content: string, f: Found): Section
    requires f.start + |f.text| + 5 < f.end <= |content|
  {
    Section(
      content[WindowStart(f.start)..WindowEnd(content, f.end)],
      Trim(f.text),
      Trim(Description(content, f)),
      content[f.start..f.end],
      f.start)
  }

  /** The records the loop pushes, one per match, in the order found. */
  function SectionsOf(content: string, fs: seq<Found>): (sections: seq<Section>)
    requires Spans(content, fs)
    ensures |sections| == |fs|
  {
    seq(|fs|, k requires 0 <= k < |fs| => SectionAt(content, fs[k]))
  }

  /** The `exec` loop of `extractSections`. */
  method ExtractSections(markdownContent: string) returns (sections: seq<Section>)
    ensures Spans(markdownContent, FindAll(SectionMatch, markdownContent, 0))
    ensures sections == SectionsOf(markdownContent, FindAll(SectionMatch, markdownContent, 0))
  {
    sections := [];
    var from := 0;
    ghost var done: seq<Found> := [];
    while true
      invariant from <= |markdownContent|
      invariant done + FindAll(SectionMatch, markdownContent, from) == FindAll(SectionMatch, markdownContent, 0)
      invariant Spans(markdownContent, done)
      invariant sections == SectionsOf(markdownContent, done)
      decreases |markdownContent| - from
    {
      var match_ := Exec(SectionMatch, markdownContent, from);
      ExecLoopStep(SectionMatch, markdownContent, from, done, FindAll(SectionMatch, markdownContent, 0));
      if match_.None? {
        return;
      }
      var f := match_.value;
      SectionsSnoc(markdownContent, done, f);
      var diagramTitle := Trim(f.text);
      var diagramDescription := Trim(Description(markdownContent, f));
      var startPos := WindowStart(f.start);
      var endPos := WindowEnd(markdownContent, f.end);
      var sectionContent := markdownContent[startPos..endPos];
      var section := Section(sectionContent, diagramTitle, diagramDescription, markdownContent[f.start..f.end], f.start);
      sections := sections + [section];
      done := done + [f];
      from := f.end;
    }
  }

  /** Appending the next match extends the records by the one built from it. */
  lemma SectionsSnoc(content: string, fs: seq<Found>, f: Found)
    requires Spans(content, fs) && IsHit(SectionMatch, content, f)
    ensures f.start + |f.text| + 5 < f.end <= |content|
    ensures Spans(content, fs + [f])
    ensures SectionsOf(content, fs + [f]) == SectionsOf(content, fs) + [SectionAt(content, f)]
  {
    assert forall k :: 0 <= k < |fs| ==> (fs + [f])[k] == fs[k];
  }

  /** A match found by the loop has the shape of the pattern. */
  lemma SectionHitShape(s: string, f: Found)
    requires IsHit(SectionMatch, s, f)
    ensures f.start + |f.text| + 5 < f.end <= |s|
    ensures s[f.start..f.end] == "**" + f.text + ":**" + s[f.start + |f.text| + 5..f.end]
    ensures |f.text| >= 8 && EndsWith(f.text, "Diagram") && '*' !in f.text
    ensures '\n' !in s[f.start + |f.text| + 5..f.end]
  {
    var i, j, e := f.start, f.start + |f.text| + 5, f.end;
    SectionMatchShape(s, i);
    assert s[i..e] == s[i..j] + s[j..e];
    forall k | 0 <= k < e - j
      ensures s[j..e][k] != '\n'
    {
      assert s[j..e][k] == s[j + k];
    }
  }

  /** The records come in ascending order of position without overlapping;
      each `fullMatch` is the text at its `matchIndex`, made of `**`, the
      title group, `:**` and the rest of that line. */
  lemma SectionsOrdered(content: string)
    requires Spans(content, FindAll(SectionMatch, content, 0))
    ensures var ss := SectionsOf(content, FindAll(SectionMatch, content, 0));
      forall k :: 0 <= k < |ss| ==>
        OccursAt(content, ss[k].fullMatch, ss[k].matchIndex)
        && StartsWith(ss[k].fullMatch, "**")
        && (k + 1 < |ss| ==> ss[k].matchIndex + |ss[k].fullMatch| <= ss[k + 1].matchIndex)
  {
    var fs := FindAll(SectionMatch, content, 0);
    FindAllOrdered(SectionMatch, content, 0);
    var ss := SectionsOf(content, fs);
    forall k | 0 <= k < |ss|
      ensures OccursAt(content, ss[k].fullMatch, ss[k].matchIndex)
      ensures StartsWith(ss[k].fullMatch, "**")
      ensures k + 1 < |ss| ==> ss[k].matchIndex + |ss[k].fullMatch| <= ss[k + 1].matchIndex
    {
      SectionOrderAt(content, fs, k);
    }
  }

  lemma SectionOrderAt(content: string, fs: seq<Found>, k: nat)
    requires Ordered(SectionMatch, content, 0, fs) && Spans(content, fs) && k < |fs|
    ensures var ss := SectionsOf(content, fs);
      OccursAt(content, ss[k].fullMatch, ss[k].matchIndex)
      && StartsWith(ss[k].fullMatch, "**")
      && (k + 1 < |ss| ==> ss[k].matchIndex + |ss[k].fullMatch| <= ss[k + 1].matchIndex)
  {
    var ss := SectionsOf(content, fs);
    assert ss[k] == SectionAt(content, fs[k]);
    assert ss[k].fullMatch == content[fs[k].start..fs[k].end] && ss[k].matchIndex == fs[k].start;
    MatchedTextShape(content, fs[k], ss[k].fullMatch);
    if k + 1 < |fs| {
      assert ss[k + 1] == SectionAt(content, fs[k + 1]);
    }
  }

  /** The text of one match occurs where the match starts and opens with `**`. */
  lemma MatchedTextShape(content: string, f: Found, full: string)
    requires IsHit(SectionMatch, content, f) && f.start < f.end <= |content|
    requires full == content[f.start..f.end]
    ensures OccursAt(content, full, f.start) && StartsWith(full, "**")
  {
    SectionHitShape(content, f);
    assert full[..2] == "**";
  }

  /** Each record's title is its group trimmed: non-empty, free of `*` and
      still ending in `Diagram`; its description is the rest of the line
      trimmed; and its context holds the match, with at most 500
      characters on either side. */
  lemma SectionContents(content: string, fs: seq<Found>, k: nat)
    requires Ordered(SectionMatch, content, 0, fs) && Spans(content, fs) && k < |fs|
    ensures var sec := SectionsOf(content, fs)[k];
      var lo := WindowStart(sec.matchIndex);
      |sec.diagramTitle| >= 7 && EndsWith(sec.diagramTitle, "Diagram") && '*' !in sec.diagramTitle
      && '\n' !in sec.diagramDescription
      && OccursAt(content, sec.sectionContent, lo)
      && OccursAt(sec.sectionContent, sec.fullMatch, sec.matchIndex - lo)
      && |sec.sectionContent| <= |sec.fullMatch| + 1000
  {
    var f := fs[k];
    var sec := SectionsOf(content, fs)[k];
    RecordTitle(content, f, sec);
    RecordDescription(content, f, sec);
    RecordWindow(content, f, sec);
  }

  lemma RecordTitle(content: string, f: Found, sec: Section)
    requires IsHit(SectionMatch, content, f) && f.start + |f.text| + 5 < f.end <= |content|
    requires sec == SectionAt(content, f)
    ensures |sec.diagramTitle| >= 7 && EndsWith(sec.diagramTitle, "Diagram") && '*' !in sec.diagramTitle
  {
    SectionMatchTitle(content, f.start);
    TitleShape(f.text);
    TrimKeepsOut(f.text, '*');
  }

  lemma RecordDescription(content: string, f: Found, sec: Section)
    requires IsHit(SectionMatch, content, f) && f.start + |f.text| + 5 < f.end <= |content|
    requires sec == SectionAt(content, f)
    ensures '\n' !in sec.diagramDescription
  {
    SectionHitShape(content, f);
    TrimKeepsOut(Description(content, f), '\n');
  }

  lemma RecordWindow(content: string, f: Found, sec: Section)
    requires f.start + |f.text| + 5 < f.end <= |content|
    requires sec == SectionAt(content, f)
    ensures var lo := WindowStart(sec.matchIndex);
      OccursAt(content, sec.sectionContent, lo)
      && OccursAt(sec.sectionContent, sec.fullMatch, sec.matchIndex - lo)
      && |sec.sectionContent| <= |sec.fullMatch| + 1000
  {
    WindowHolds(content, f.start, f.end);
  }

  /** The context window lies in the text and holds the match. */
  lemma WindowHolds(content: string, start: nat, end: nat)
    requires start <= end <= |content|
    ensures var lo, hi := WindowStart(start), WindowEnd(content, end);
      lo <= start && end <= hi <= |content|
      && OccursAt(content[lo..hi], content[start..end], start - lo)
      && hi - lo <= end - start + 1000
  {
    var lo, hi := WindowStart(start), WindowEnd(content, end);
    assert content[lo..hi][start - lo..end - lo] == content[start..end];
  }

  /** Trimming removes characters and adds none. */
  lemma TrimKeepsOut(s: string, c: char)
    requires c !in s
    ensures c !in Trim(s)
  {
    TrimShape(s);
    var a, b := TrimStartIndex(s), TrimEndFrom(s, TrimStartIndex(s), |s|);
    forall k | 0 <= k < b - a
      ensures Trim(s)[k] != c
    {
      assert Trim(s)[k] == s[a + k];
    }
  }

  /** A match needs `:**`; a text without it yields no record, and no error. */
  lemma NoMarkerNoSections(content: string)
    requires !Contains(content, ":**")
    ensures Spans(content, FindAll(SectionMatch, content, 0))
    ensures SectionsOf(content, FindAll(SectionMatch, content, 0)) == []
  {
    forall j: nat | j <= |content|
      ensures !HitAt(SectionMatch, content, j)
    {
      if HitAt(SectionMatch, content, j) {
        var g := SectionMatch(content, j).value.text;
        SectionMatchShape(content, j);
        assert content[j + |g| + 2..j + |g| + 5] == content[j..j + |g| + 5][|g| + 2..];
        ContainsAt(content, ":**", j + |g| + 2);
      }
    }
    FindAllStep(SectionMatch, content, 0);
  }

  /** The form with the colon after the closing stars is not recognised. */
  lemma ColonOutsideIgnored(content: string)
    requires content == "**Flow Diagram**: x"
    ensures SectionsOf(content, FindAll(SectionMatch, content, 0)) == []
  {
    forall j: nat | j + 3 <= |content|
      ensures !OccursAt(content, ":**", j)
    {
      if j < 16 {
        assert content[j] == content[..16][j] && ':' !in content[..16];
      } else {
        assert content[j + 1] == ' ';
      }
      assert content[j..j + 3][0] == content[j] && content[j..j + 3][1] == content[j + 1];
    }
    NoMarkerNoSections(content);
  }

  /** Conversely, every `**<title>:**<description>` with a star-free title
      of at least eight characters ending in `Diagram` and a non-empty
      description on the same line is matched, with the title as the first
      group and the match ending at the end of the line. */
  lemma Recognised(title: string, description: string, rest: string)
    requires |title| >= 8 && EndsWith(title, "Diagram") && '*' !in title
    requires |description| > 0 && '\n' !in description
    requires rest == [] || rest[0] == '\n'
    ensures var s := "**" + title + ":**" + description + rest;
      SectionMatch(s, 0) == Some(Hit(|title| + 5 + |description|, title))
  {
    var s := "**" + title + ":**" + description + rest;
    var e := |title| + 3;
    var d := e + 2 + |description|;
    assert s[..2] == "**";
    assert forall k :: 2 <= k < e - 1 ==> s[k] == title[k - 2];
    SpanEndAt(s, 2, NotStar, e);
    assert s[e - 8..e - 1] == title[|title| - 7..];
    assert s[e..e + 2] == "**";
    assert forall k :: e + 2 <= k < d ==> s[k] == description[k - e - 2];
    SpanEndAt(s, e + 2, NotNewline, d);
    assert s[2..e - 1] == title;
  }

  /** The sample line `extractSections` checks its pattern against is a match. */
  lemma SampleRecognised()
    ensures var t := "Authentication Flow Diagram";
      var line := "**" + t + ":**" + " The diagram shows a sequence of steps";
      SectionMatch(line, 0) == Some(Hit(|line|, t))
  {
    var t, d := "Authentication Flow Diagram", " The diagram shows a sequence of steps";
    SampleParts(t, d);
    Recognised(t, d, []);
    assert "**" + t + ":**" + d + [] == "**" + t + ":**" + d;
  }

  lemma SampleParts(t: string, d: string)
    requires t == "Authentication Flow Diagram" && d == " The diagram shows a sequence of steps"
    ensures |t| >= 8 && EndsWith(t, "Diagram") && '*' !in t
    ensures |d| > 0 && '\n' !in d
  {
    assert t[|t| - 7..] == "Diagram";
    assert forall k :: 0 <= k < |t| ==> t[k] != '*';
    assert forall k :: 0 <= k < |d| ==> d[k] != '\n';
  }
}
