/** What the repair pass `fixMermaidSyntax` does and does not promise:
    the shape of the `===` and node-identifier rewrites, the guards that
    never decide anything, and the pass on two whole diagrams. */
module MermaidRepairFacts {
  import opened Options
  import opened JsString
  import opened JsRegex
  import opened MermaidRepair

  /** A pass whose every match needs the character `c` leaves text without `c` alone. */
  lemma Untouched(m: Matcher, s: string, c: char)
    requires forall j :: HitAt(m, s, j) ==> c in s
    requires forall k :: 0 <= k < |s| ==> s[k] != c
    ensures ReplaceAll(m, s) == s
  {
    ReplaceWithoutHit(m, s, 0);
  }

  /** The same, for a pass whose every match needs `c` or `d`. */
  lemma UntouchedEither(m: Matcher, s: string, c: char, d: char)
    requires forall j :: HitAt(m, s, j) ==> c in s || d in s
    requires forall k :: 0 <= k < |s| ==> s[k] != c && s[k] != d
    ensures ReplaceAll(m, s) == s
  {
    ReplaceWithoutHit(m, s, 0);
  }

  // ---------------------------------------------------------------------
  // Fix 7 (lines 66-69)
  // ---------------------------------------------------------------------

  /** Index k of the input and index k - i of the scan's output from i agree,
      except where an `=` became `-` or `>`; an `=` of the output is an `=`
      of the input at which no `===` starts. */
  predicate EqualsAgree(s: string, r: string, i: nat, k: nat)
    requires i <= k < |s| && |r| == |s| - i
  {
    (r[k - i] != s[k] ==> s[k] == '=' && (r[k - i] == '-' || r[k - i] == '>'))
    && (r[k - i] == '=' ==> !OccursAt(s, "===", k))
  }

  /** Index i onwards of the output of the scan from i keeps the length and
      agrees with the input. */
  predicate ScanAgrees(s: string, r: string, i: nat)
    requires i <= |s|
  {
    |r| == |s| - i && forall k :: i <= k < |s| ==> EqualsAgree(s, r, i, k)
  }

  lemma {:induction false} TripleEqualsScan(s: string, i: nat)
    requires i <= |s|
    ensures ScanAgrees(s, ReplaceFrom(TripleEqualsMatch, s, i), i)
    decreases |s| - i
  {
    if i < |s| {
      if HitAt(TripleEqualsMatch, s, i) {
        TripleEqualsScan(s, i + 3);
        ReplaceFromHit(TripleEqualsMatch, s, i);
        ArrowAgrees(s, i, ReplaceFrom(TripleEqualsMatch, s, i + 3));
      } else {
        TripleEqualsScan(s, i + 1);
        ReplaceFromMiss(TripleEqualsMatch, s, i);
        CopyAgrees(s, i, ReplaceFrom(TripleEqualsMatch, s, i + 1));
      }
    }
  }

  /** An `===` at i written as `-->` before an agreeing rest agrees. */
  lemma ArrowAgrees(s: string, i: nat, rest: string)
    requires OccursAt(s, "===", i) && ScanAgrees(s, rest, i + 3)
    ensures ScanAgrees(s, "-->" + rest, i)
  {
    var r := "-->" + rest;
    forall k | i <= k < |s|
      ensures EqualsAgree(s, r, i, k)
    {
      if k < i + 3 {
        assert k - i == 0 || k - i == 1 || k - i == 2;
        assert s[k] == s[i..i + 3][k - i];
        assert r[k - i] == "-->"[k - i];
      } else {
        assert r[k - i] == rest[k - (i + 3)];
        assert EqualsAgree(s, rest, i + 3, k);
      }
    }
  }

  /** A character at which no `===` starts, copied before an agreeing rest, agrees. */
  lemma CopyAgrees(s: string, i: nat, rest: string)
    requires i < |s| && !OccursAt(s, "===", i) && ScanAgrees(s, rest, i + 1)
    ensures ScanAgrees(s, [s[i]] + rest, i)
  {
    var r := [s[i]] + rest;
    forall k | i <= k < |s|
      ensures EqualsAgree(s, r, i, k)
    {
      if k > i {
        assert r[k - i] == rest[k - (i + 1)];
        assert EqualsAgree(s, rest, i + 1, k);
      }
    }
  }

  /** Fix 7 keeps the length of the code, changes nothing but `=` characters
      (each into `-` or `>`), and leaves no `===` behind. */
  lemma TripleEqualsRewrite(s: string)
    ensures |ReplaceTripleEquals(s)| == |s|
    ensures forall k :: 0 <= k < |s| && ReplaceTripleEquals(s)[k] != s[k] ==>
      s[k] == '=' && (ReplaceTripleEquals(s)[k] == '-' || ReplaceTripleEquals(s)[k] == '>')
    ensures !Contains(ReplaceTripleEquals(s), "===")
  {
    TripleEqualsScan(s, 0);
    AgreeingHasNoTriple(s, ReplaceTripleEquals(s));
  }

  /** An output that agrees with the input from index 0 changed only `=`
      characters and holds no `===`. */
  lemma AgreeingHasNoTriple(s: string, r: string)
    requires ScanAgrees(s, r, 0)
    ensures |r| == |s|
    ensures forall k :: 0 <= k < |s| && r[k] != s[k] ==> s[k] == '=' && (r[k] == '-' || r[k] == '>')
    ensures !Contains(r, "===")
  {
    forall k | 0 <= k < |s|
      ensures r[k] != s[k] ==> s[k] == '=' && (r[k] == '-' || r[k] == '>')
    {
      assert EqualsAgree(s, r, 0, k);
    }
    forall k: nat | k + 3 <= |r|
      ensures !OccursAt(r, "===", k)
    {
      assert EqualsAgree(s, r, 0, k) && EqualsAgree(s, r, 0, k + 1) && EqualsAgree(s, r, 0, k + 2);
      assert r[k..k + 3] == [r[k], r[k + 1], r[k + 2]];
      assert s[k..k + 3] == [s[k], s[k + 1], s[k + 2]];
    }
  }

  /** Matches do not overlap: of `====` only the first three characters are rewritten. */
  lemma TripleEqualsLeftmost()
    ensures ReplaceTripleEquals("====") == "-->="
    ensures ReplaceTripleEquals("A===B") == "A-->B"
  {
  }

  // ---------------------------------------------------------------------
  // Fix 12 (lines 111-117)
  // ---------------------------------------------------------------------

  /** A match of Fix 12 is two whole word runs around one `-` or whitespace
      character, not followed by `]`; it holds no bracket, so the callback
      always joins the runs with `_`. */
  lemma NodeIdJoins(s: string, i: nat)
    requires HitAt(NodeIdMatch, s, i)
    ensures var a, h := SpanEnd(s, i, IsWordChar), NodeIdMatch(s, i).value;
      i < a && a + 1 < h.end && (s[a] == '-' || IsSpace(s[a]))
      && (forall k :: i <= k < h.end && k != a ==> IsWordChar(s[k]))
      && (h.end == |s| || (!IsWordChar(s[h.end]) && s[h.end] != ']'))
      && h.text == s[i..a] + "_" + s[a + 1..h.end]
  {
    NodeIdUnfold(s, i);
    var a := SpanEnd(s, i, IsWordChar);
    var b := SpanEnd(s, a + 1, IsWordChar);
    NoBracketAround(s, i, a, b);
  }

  /** The shape of a match of Fix 12, read off its definition. */
  lemma NodeIdUnfold(s: string, i: nat)
    requires HitAt(NodeIdMatch, s, i)
    ensures var a := SpanEnd(s, i, IsWordChar);
      i < a < |s| && (s[a] == '-' || IsSpace(s[a]))
      && var b := SpanEnd(s, a + 1, IsWordChar);
      a + 1 < b && (b == |s| || s[b] != ']')
      && NodeIdMatch(s, i).value
         == Hit(b, if HasBracket(s[i..b]) then s[i..b] else s[i..a] + "_" + s[a + 1..b])
  {
  }

  /** Fix 12 keeps the length of the code and changes only separators
      (`-` or whitespace), each into `_`. */
  lemma NodeIdsInPlace(s: string)
    ensures |JoinNodeIds(s)| == |s|
    ensures forall k :: 0 <= k < |s| && JoinNodeIds(s)[k] != s[k] ==>
      (s[k] == '-' || IsSpace(s[k])) && JoinNodeIds(s)[k] == '_'
  {
    var edit := (c: char, d: char) => (c == '-' || IsSpace(c)) && d == '_';
    forall j | 0 <= j < |s| && HitAt(NodeIdMatch, s, j)
      ensures EditedInPlace(NodeIdMatch(s, j).value, s, j, edit)
    {
      NodeIdJoins(s, j);
      var a, h := SpanEnd(s, j, IsWordChar), NodeIdMatch(s, j).value;
      forall k | j <= k < h.end
        ensures h.text[k - j] == s[k] || edit(s[k], h.text[k - j])
      {
        if k < a {
          assert h.text[k - j] == s[j..a][k - j];
        } else if k > a {
          assert h.text[k - j] == s[a + 1..h.end][k - a - 1];
        }
      }
    }
    ReplaceInPlace(NodeIdMatch, s, 0, edit);
  }

  /** Two whole word runs `s[i..a]` and `s[a + 1..b]` around a separator,
      without brackets and not followed by `]`, are joined by `_`. */
  lemma NodeIdHit(s: string, i: nat, a: nat, b: nat)
    requires i < a < |s| && a + 1 < b <= |s|
    requires i == 0 || !IsWordChar(s[i - 1])
    requires forall k :: i <= k < a ==> IsWordChar(s[k])
    requires s[a] == '-' || IsSpace(s[a])
    requires forall k :: a < k < b ==> IsWordChar(s[k])
    requires b == |s| || (!IsWordChar(s[b]) && s[b] != ']')
    ensures NodeIdMatch(s, i) == Some(Hit(b, s[i..a] + "_" + s[a + 1..b]))
  {
    SpanEndAt(s, i, IsWordChar, a);
    SpanEndAt(s, a + 1, IsWordChar, b);
    NoBracketAround(s, i, a, b);
    NodeIdHitSpans(s, i, a, b);
  }

  lemma NodeIdHitSpans(s: string, i: nat, a: nat, b: nat)
    requires i < a < |s| && a + 1 < b <= |s| && IsWordChar(s[i])
    requires i == 0 || !IsWordChar(s[i - 1])
    requires SpanEnd(s, i, IsWordChar) == a && SpanEnd(s, a + 1, IsWordChar) == b
    requires s[a] == '-' || IsSpace(s[a])
    requires b == |s| || s[b] != ']'
    requires !HasBracket(s[i..b])
    ensures NodeIdMatch(s, i) == Some(Hit(b, s[i..a] + "_" + s[a + 1..b]))
  {
    assert !(i >= |s| || !IsWordChar(s[i]) || (i > 0 && IsWordChar(s[i - 1])));
    assert !(a == |s| || !(s[a] == '-' || IsSpace(s[a])));
    assert !(b == a + 1 || (b < |s| && s[b] == ']'));
  }

  /** Word characters and one separator hold no bracket. */
  lemma NoBracketAround(s: string, i: nat, a: nat, b: nat)
    requires i < a < b <= |s|
    requires forall k :: i <= k < a ==> IsWordChar(s[k])
    requires s[a] == '-' || IsSpace(s[a])
    requires forall k :: a < k < b ==> IsWordChar(s[k])
    ensures !HasBracket(s[i..b])
  {
    var matched := s[i..b];
    forall k | 0 <= k < |matched|
      ensures matched[k] != '[' && matched[k] != ']'
    {
      assert matched[k] == s[i + k];
      assert IsWordChar(s[i + k]) || i + k == a;
    }
  }

  /** Fix 12 joins any two words one separator apart, left to right without
      overlap, and does so across lines and inside quoted labels too. */
  lemma NodeIdsJoinWords(s: string)
    requires s == "a b c"
    ensures JoinNodeIds(s) == "a_b c"
  {
    NodeIdHit(s, 0, 1, 3);
    ReplaceFromHit(NodeIdMatch, s, 0);
    assert !IsWordChar(s[3]) && IsWordChar(s[2]);
    ReplaceFromMiss(NodeIdMatch, s, 3);
    assert NodeIdMatch(s, 4) == None by { SpanEndAt(s, 4, IsWordChar, 5); }
    ReplaceFromMiss(NodeIdMatch, s, 4);
    WordsPieces(s, s[0..1] + "_" + s[2..3], [s[3]] + ([s[4]] + []));
  }

  lemma WordsPieces(s: string, joined: string, tail: string)
    requires s == "a b c" && joined == s[0..1] + "_" + s[2..3] && tail == [s[3]] + ([s[4]] + [])
    ensures joined + tail == "a_b c"
  {
  }

  lemma NodeIdsJoinDash(s: string)
    requires s == "a-b"
    ensures JoinNodeIds(s) == "a_b"
  {
    NodeIdHit(s, 0, 1, 3);
    ReplaceFromHit(NodeIdMatch, s, 0);
    DashPieces(s, s[0..1] + "_" + s[2..3]);
  }

  lemma DashPieces(s: string, joined: string)
    requires s == "a-b" && joined == s[0..1] + "_" + s[2..3]
    ensures joined + [] == "a_b"
  {
  }

  lemma NodeIdsJoinAcrossLines(s: string)
    requires s == "stateDiagram\nstate"
    ensures JoinNodeIds(s) == "stateDiagram_state"
  {
    AcrossLinesHit(s);
    ReplaceFromHit(NodeIdMatch, s, 0);
    AcrossLinesPieces(s, s[0..12] + "_" + s[13..18]);
  }

  lemma AcrossLinesHit(s: string)
    requires s == "stateDiagram\nstate"
    ensures NodeIdMatch(s, 0) == Some(Hit(18, s[0..12] + "_" + s[13..18]))
  {
    assert forall k :: 0 <= k < 12 ==> IsWordChar(s[k]);
    assert forall k :: 12 < k < 18 ==> IsWordChar(s[k]);
    NodeIdHit(s, 0, 12, 18);
  }

  lemma AcrossLinesPieces(s: string, joined: string)
    requires s == "stateDiagram\nstate" && joined == s[0..12] + "_" + s[13..18]
    ensures joined + [] == "stateDiagram_state"
  {
  }

  lemma NodeIdsJoinInsideLabels(s: string)
    requires s == "[\"Login form\"]"
    ensures JoinNodeIds(s) == "[\"Login_form\"]"
  {
    LoginFormMatches(s);
    ReplaceSkip(NodeIdMatch, s, 0, 2);
    ReplaceFromHit(NodeIdMatch, s, 2);
    ReplaceSkip(NodeIdMatch, s, 12, 14);
    assert ReplaceFrom(NodeIdMatch, s, 14) == [];
    LabelPieces(s, s[0..2], s[12..14]);
  }

  lemma LabelPieces(s: string, head: string, tail: string)
    requires s == "[\"Login form\"]" && head == s[0..2] && tail == s[12..14]
    ensures head + ("Login_form" + (tail + [])) == "[\"Login_form\"]"
  {
  }

  lemma LoginFormMatches(s: string)
    requires s == "[\"Login form\"]"
    ensures NodeIdMatch(s, 0) == None && NodeIdMatch(s, 1) == None
    ensures NodeIdMatch(s, 2) == Some(Hit(12, "Login_form"))
    ensures NodeIdMatch(s, 12) == None && NodeIdMatch(s, 13) == None
  {
    assert !IsWordChar(s[0]) && !IsWordChar(s[1]) && !IsWordChar(s[12]) && !IsWordChar(s[13]);
    LoginFormHit(s);
  }

  lemma LoginFormHit(s: string)
    requires s == "[\"Login form\"]"
    ensures NodeIdMatch(s, 2) == Some(Hit(12, "Login_form"))
  {
    assert forall k :: 2 <= k < 7 ==> IsWordChar(s[k]);
    assert forall k :: 7 < k < 12 ==> IsWordChar(s[k]);
    NodeIdHit(s, 2, 7, 12);
    LoginFormText(s, s[2..7] + "_" + s[8..12]);
  }

  lemma LoginFormText(s: string, joined: string)
    requires s == "[\"Login form\"]" && joined == s[2..7] + "_" + s[8..12]
    ensures joined == "Login_form"
  {
  }

  // ---------------------------------------------------------------------
  // Guards that decide nothing
  // ---------------------------------------------------------------------

  /** The test at line 44 is redundant: without either spelling in the code
      the pattern of line 45 has nothing to match. */
  lemma StateDiagramV2GuardRedundant(s: string)
    ensures CollapseStateDiagramV2(s) == ReplaceAll(StateDiagramV2Match, s)
  {
    if !(Contains(s, "stateDiagram_v2") || Contains(s, "stateDiagram-v2")) {
      forall j | 0 <= j < |s|
        ensures !HitAt(StateDiagramV2Match, s, j)
      {
        if OccursAt(s, "stateDiagram_v2", j) { ContainsAt(s, "stateDiagram_v2", j); }
        if OccursAt(s, "stateDiagram-v2", j) { ContainsAt(s, "stateDiagram-v2", j); }
      }
      ReplaceWithoutHit(StateDiagramV2Match, s, 0);
    }
  }

  /** Fix 11's label excludes both quote characters, so the callback of
      lines 103-107 always takes its first branch: the label is quoted. */
  lemma LabelAlwaysQuoted(s: string, i: nat)
    requires HitAt(LabelMatch, s, i)
    ensures var h := LabelMatch(s, i).value;
      s[i] == '[' && s[h.end - 1] == ']'
      && h.text == "[\"" + s[i + 1..h.end - 1] + "\"]"
      && (forall k :: i < k < h.end - 1 ==> s[k] != '"' && s[k] != '\'' && s[k] != ']')
  {
    var z := SpanEnd(s, i + 1, IsLabelChar);
    var inner := s[i + 1..z];
    assert |inner| > 0 ==> inner[0] == s[i + 1] && inner[|inner| - 1] == s[z - 1];
    assert !StartsWith(inner, "\"") && !StartsWith(inner, "'");
    assert !EndsWith(inner, "\"") && !EndsWith(inner, "'");
  }

  // ---------------------------------------------------------------------
  // Characters each pattern needs: text without them is left alone.
  // ---------------------------------------------------------------------

  lemma FeedbackNeedsDash(s: string)
    ensures forall j :: HitAt(FeedbackTransitionMatch, s, j) ==> '-' in s
  {
    forall j | HitAt(FeedbackTransitionMatch, s, j)
      ensures '-' in s
    {
      var b := SpanEnd(s, SpanEnd(s, j, IsWordChar), IsSpace);
      OccursHasChar(s, "--", b, '-');
    }
  }

  lemma GraphTypeNeeds(s: string)
    ensures forall j :: HitAt(GraphTypeUnderscoreMatch, s, j) ==> '_' in s && 'h' in s
  {
    forall j | HitAt(GraphTypeUnderscoreMatch, s, j)
      ensures '_' in s && 'h' in s
    {
      if OccursAt(s, "graph_", j) {
        OccursHasChar(s, "graph_", j, '_');
        OccursHasChar(s, "graph_", j, 'h');
      } else {
        OccursHasChar(s, "flowchart_", j, '_');
        OccursHasChar(s, "flowchart_", j, 'h');
      }
    }
  }

  lemma StateDeclarationNeedsUnderscore(s: string)
    ensures forall j: nat :: HitAt(StateDeclarationMatch, s, j) ==> j + 5 < |s| && s[j + 5] == '_'
  {
    forall j: nat | HitAt(StateDeclarationMatch, s, j)
      ensures j + 5 < |s| && s[j + 5] == '_'
    {
      assert s[j + 5] == s[j..j + 6][5];
    }
  }

  lemma EndNodeNeedsBracket(s: string)
    ensures forall j :: HitAt(EndNodeMatch, s, j) ==> '[' in s
  {
  }

  lemma TripleEqualsNeedsEquals(s: string)
    ensures forall j: nat :: HitAt(TripleEqualsMatch, s, j) ==> j < |s| && s[j] == '='
  {
    forall j: nat | HitAt(TripleEqualsMatch, s, j)
      ensures j < |s| && s[j] == '='
    {
      assert s[j] == s[j..j + 3][0];
    }
  }

  lemma ClassPatternsNeedC(s: string)
    ensures forall j :: HitAt(ClassDefStyleMatch, s, j) ==> 'c' in s
    ensures forall j :: HitAt(ClassUsageMatch, s, j) ==> 'c' in s
    ensures forall j :: HitAt(ClassIdMatch, s, j) ==> 'c' in s
    ensures forall j :: HitAt(ClassDefDeclarationMatch, s, j) ==> 'c' in s
  {
    forall j | HitAt(ClassDefStyleMatch, s, j) ensures 'c' in s { OccursHasChar(s, "classDef", j, 'c'); }
    forall j | HitAt(ClassUsageMatch, s, j) ensures 'c' in s { OccursHasChar(s, "class", j, 'c'); }
    forall j | HitAt(ClassIdMatch, s, j) ensures 'c' in s { OccursHasChar(s, "class_", j, 'c'); }
    forall j | HitAt(ClassDefDeclarationMatch, s, j) ensures 'c' in s { OccursHasChar(s, "classDef_", j, 'c'); }
  }

  lemma LabelNeedsBracket(s: string)
    ensures forall j :: HitAt(LabelMatch, s, j) ==> '[' in s
  {
  }

  lemma SubgraphNeedsB(s: string)
    ensures forall j :: HitAt(SubgraphMatch, s, j) ==> 'b' in s
  {
    forall j | HitAt(SubgraphMatch, s, j) ensures 'b' in s { OccursHasChar(s, "subgraph_", j, 'b'); }
  }

  lemma EndSpacingNeedsD(s: string)
    ensures forall j :: HitAt(EndSpacingMatch, s, j) ==> 'd' in s
  {
    forall j | HitAt(EndSpacingMatch, s, j)
      ensures 'd' in s
    {
      var b := SpanEnd(s, SpanEnd(s, j, IsWordChar), IsSpace);
      OccursHasChar(s, "end", b, 'd');
    }
  }

  lemma StyleDeclarationNeedsY(s: string)
    ensures forall j :: HitAt(StyleDeclarationMatch, s, j) ==> 'y' in s
  {
    forall j | HitAt(StyleDeclarationMatch, s, j) ensures 'y' in s { OccursHasChar(s, "style_", j, 'y'); }
  }

  lemma StyleAttributeNeeds(s: string)
    ensures forall j :: HitAt(StyleAttributeMatch, s, j) ==> 'k' in s || 'f' in s
  {
    forall j | HitAt(StyleAttributeMatch, s, j)
      ensures 'k' in s || 'f' in s
    {
      if OccursAt(s, "stroke_", j) {
        OccursHasChar(s, "stroke_", j, 'k');
      } else {
        OccursHasChar(s, "fill_", j, 'f');
      }
    }
  }

  lemma HeaderJoinedNeeds(s: string)
    ensures forall j: nat :: HitAt(HeaderJoinedMatch, s, j) ==> j < |s| && (s[j] == 'g' || s[j] == 'f')
  {
    forall j: nat | HitAt(HeaderJoinedMatch, s, j)
      ensures j < |s| && (s[j] == 'g' || s[j] == 'f')
    {
      if OccursAt(s, "graph", j) {
        assert s[j] == s[j..j + 5][0];
      } else {
        assert s[j] == s[j..j + 9][0];
      }
    }
  }

  // ---------------------------------------------------------------------
  // The pass on `graph LR\nA===B`: Fix 7 turns `===` into `-->`, Fix 12
  // joins the header into `graph_LR`, and the header clean-up splits it
  // again.
  // ---------------------------------------------------------------------

  lemma RepairGraphExample(code: string)
    requires code == "graph LR\nA===B"
    ensures Repair(code) == "graph LR\nA-->B"
  {
    GraphBeforeFix7(code);
    var c7 := "graph LR\nA-->B";
    GraphFix7(code);
    GraphAfterFix7(c7);
    var c12 := "graph_LR\nA-->B";
    GraphFix12(c7);
    GraphAfterFix12(c12);
    GraphHeader(c12);
  }

  lemma GraphBeforeFix7(o: string)
    requires o == "graph LR\nA===B"
    ensures FixFeedbackTransitions(o, o) == o && AddMissingDirection(o, o) == o
    ensures RemoveGraphTypeUnderscores(o) == o && CollapseStateDiagramV2(o) == o
    ensures QuoteStateDeclarations(o) == o && RenameEndNodes(o) == o
  {
    GraphBeforeFix7Chars(o);
    GraphGuards(o);
    GraphTypeNeeds(o);
    Untouched(GraphTypeUnderscoreMatch, o, '_');
    StateDeclarationNeedsUnderscore(o);
    Untouched(StateDeclarationMatch, o, '_');
    EndNodeNeedsBracket(o);
    Untouched(EndNodeMatch, o, '[');
  }

  lemma GraphBeforeFix7Chars(o: string)
    requires o == "graph LR\nA===B"
    ensures forall k :: 0 <= k < |o| ==> o[k] != '_' && o[k] != '['
  {
  }

  lemma GraphGuards(o: string)
    requires o == "graph LR\nA===B"
    ensures FixFeedbackTransitions(o, o) == o && AddMissingDirection(o, o) == o
    ensures CollapseStateDiagramV2(o) == o
  {
    if Contains(o, "stateDiagram") { ContainsHasChar(o, "stateDiagram", 'D'); }
    if Contains(o, "stateDiagram_v2") { ContainsHasChar(o, "stateDiagram_v2", 'D'); }
    if Contains(o, "stateDiagram-v2") { ContainsHasChar(o, "stateDiagram-v2", 'D'); }
    TrimTrimmed(o);
    assert o[0..5][0] == 'g';
    ContainsAt(o, "graph LR", 0);
  }

  lemma GraphFix7(o: string)
    requires o == "graph LR\nA===B"
    ensures ReplaceTripleEquals(o) == "graph LR\nA-->B"
  {
    TripleEqualsNeedsEquals(o);
    GraphFix7Head(o);
    ReplaceSkip(TripleEqualsMatch, o, 0, 10);
    GraphFix7Arrow(o);
    ReplaceFromHit(TripleEqualsMatch, o, 10);
    ReplaceFromMiss(TripleEqualsMatch, o, 13);
    var head, tail := o[0..10], ReplaceFrom(TripleEqualsMatch, o, 13);
    assert tail == [o[13]] + ReplaceFrom(TripleEqualsMatch, o, 14);
    assert ReplaceFrom(TripleEqualsMatch, o, 14) == [];
    GraphFix7Pieces(o, head, tail);
  }

  lemma GraphFix7Head(o: string)
    requires o == "graph LR\nA===B"
    ensures forall k :: 0 <= k < 10 ==> o[k] != '='
  {
  }

  lemma GraphFix7Arrow(o: string)
    requires o == "graph LR\nA===B"
    ensures TripleEqualsMatch(o, 10) == Some(Hit(13, "-->"))
    ensures !HitAt(TripleEqualsMatch, o, 13)
  {
    assert OccursAt(o, "===", 10);
    assert o[13] != '=';
  }

  lemma GraphFix7Pieces(o: string, head: string, tail: string)
    requires o == "graph LR\nA===B" && head == o[0..10] && tail == [o[13]] + []
    ensures head + ("-->" + tail) == "graph LR\nA-->B"
  {
  }

  lemma GraphAfterFix7(o: string)
    requires o == "graph LR\nA-->B"
    ensures UnquoteClassDefStyles(o) == o && JoinClassUsageStyles(o) == o
    ensures SplitClassIds(o) == o && QuoteLabels(o) == o
  {
    GraphAfterFix7Chars(o);
    ClassPatternsNeedC(o);
    Untouched(ClassDefStyleMatch, o, 'c');
    Untouched(ClassUsageMatch, o, 'c');
    Untouched(ClassIdMatch, o, 'c');
    LabelNeedsBracket(o);
    Untouched(LabelMatch, o, '[');
  }

  lemma GraphAfterFix7Chars(o: string)
    requires o == "graph LR\nA-->B"
    ensures forall k :: 0 <= k < |o| ==> o[k] != 'c' && o[k] != '['
  {
  }

  lemma GraphFix12(o: string)
    requires o == "graph LR\nA-->B"
    ensures JoinNodeIds(o) == "graph_LR\nA-->B"
  {
    GraphFix12Head(o);
    ReplaceFromHit(NodeIdMatch, o, 0);
    GraphFix12Tail(o);
    ReplaceSkip(NodeIdMatch, o, 8, 14);
    assert ReplaceFrom(NodeIdMatch, o, 14) == [];
    GraphFix12Pieces(o, o[8..14]);
  }

  lemma GraphFix12Head(o: string)
    requires o == "graph LR\nA-->B"
    ensures NodeIdMatch(o, 0) == Some(Hit(8, "graph_LR"))
  {
    assert forall k :: 0 <= k < 5 ==> IsWordChar(o[k]);
    assert forall k :: 5 < k < 8 ==> IsWordChar(o[k]);
    NodeIdHit(o, 0, 5, 8);
    GraphHeadText(o, o[0..5] + "_" + o[6..8]);
  }

  lemma GraphHeadText(o: string, joined: string)
    requires o == "graph LR\nA-->B" && joined == o[0..5] + "_" + o[6..8]
    ensures joined == "graph_LR"
  {
  }

  lemma GraphFix12Pieces(o: string, tail: string)
    requires o == "graph LR\nA-->B" && tail == o[8..14]
    ensures "graph_LR" + (tail + []) == "graph_LR\nA-->B"
  {
  }

  lemma GraphFix12Tail(o: string)
    requires o == "graph LR\nA-->B"
    ensures forall k :: 8 <= k < 14 ==> !HitAt(NodeIdMatch, o, k)
  {
    SpanEndAt(o, 9, IsWordChar, 10);
    SpanEndAt(o, 11, IsWordChar, 11);
    assert NodeIdMatch(o, 9) == None;
    assert !IsWordChar(o[8]) && !IsWordChar(o[10]) && !IsWordChar(o[11]) && !IsWordChar(o[12]);
    assert NodeIdMatch(o, 13) == None;
  }

  lemma GraphAfterFix12(o: string)
    requires o == "graph_LR\nA-->B"
    ensures SplitSubgraphs(o) == o && BreakEndKeyword(o) == o
    ensures SplitStyleDeclarations(o) == o && SplitClassDefDeclarations(o) == o
    ensures ColonStyleAttributes(o) == o
  {
    GraphNoSubgraphOrEnd(o);
    GraphNoStyleOrClassDef(o);
    GraphAfterFix12Chars(o);
    StyleAttributeNeeds(o);
    UntouchedEither(StyleAttributeMatch, o, 'k', 'f');
  }

  /** The characters the later graph passes look for are absent from the graph. */
  lemma GraphAfterFix12Chars(o: string)
    requires o == "graph_LR\nA-->B"
    ensures forall k :: 0 <= k < |o| ==>
      o[k] != 'b' && o[k] != 'd' && o[k] != 'y' && o[k] != 'c' && o[k] != 'k' && o[k] != 'f'
  {
  }

  lemma GraphNoSubgraphOrEnd(o: string)
    requires o == "graph_LR\nA-->B"
    ensures SplitSubgraphs(o) == o && BreakEndKeyword(o) == o
  {
    GraphAfterFix12Chars(o);
    SubgraphNeedsB(o);
    Untouched(SubgraphMatch, o, 'b');
    EndSpacingNeedsD(o);
    Untouched(EndSpacingMatch, o, 'd');
  }

  lemma GraphNoStyleOrClassDef(o: string)
    requires o == "graph_LR\nA-->B"
    ensures SplitStyleDeclarations(o) == o && SplitClassDefDeclarations(o) == o
  {
    GraphAfterFix12Chars(o);
    StyleDeclarationNeedsY(o);
    Untouched(StyleDeclarationMatch, o, 'y');
    ClassPatternsNeedC(o);
    Untouched(ClassDefDeclarationMatch, o, 'c');
  }

  lemma GraphHeader(o: string)
    requires o == "graph_LR\nA-->B"
    ensures CleanHeader(o) == "graph LR\nA-->B"
  {
    GraphHeaderIsFlowchart(o);
    GraphHeaderNotJoined(o);
    assert ReplaceFirst(HeaderJoinedMatch, o) == o;
    GraphHeaderSplit(o);
  }

  lemma GraphHeaderSplit(o: string)
    requires o == "graph_LR\nA-->B"
    ensures ReplaceFirst(HeaderUnderscoreMatch, o) == "graph LR\nA-->B"
  {
    GraphHeaderUnderscoreHit(o);
    ExecAt(HeaderUnderscoreMatch, o, 0, 0);
    HeaderSplitPieces(o, o[..0], o[8..]);
  }

  lemma GraphHeaderUnderscoreHit(o: string)
    requires o == "graph_LR\nA-->B"
    ensures HeaderUnderscoreMatch(o, 0) == Some(Hit(8, "graph LR"))
  {
    SpanEndAt(o, 6, IsAlnum, 8);
    assert o[0..6] == "graph_" && o[6..8] == "LR" && "graph " + "LR" == "graph LR";
  }

  lemma HeaderSplitPieces(o: string, head: string, tail: string)
    requires o == "graph_LR\nA-->B" && head == o[..0] && tail == o[8..]
    ensures head + "graph LR" + tail == "graph LR\nA-->B"
  {
  }

  lemma GraphHeaderIsFlowchart(o: string)
    requires o == "graph_LR\nA-->B"
    ensures IsFlowchartHeader(o)
  {
    FirstLineAt(o, 8);
    assert o[..8] == "graph_LR";
    TrimTrimmed(o[..8]);
  }

  lemma GraphHeaderNotJoined(o: string)
    requires o == "graph_LR\nA-->B"
    ensures forall j :: 0 <= j <= |o| ==> !HitAt(HeaderJoinedMatch, o, j)
  {
    HeaderJoinedNeeds(o);
    GraphHeaderNotJoinedAtStart(o);
    GraphTailLetters(o);
  }

  lemma GraphTailLetters(o: string)
    requires o == "graph_LR\nA-->B"
    ensures forall j :: 1 <= j < |o| ==> o[j] != 'g' && o[j] != 'f'
  {
  }

  lemma GraphHeaderNotJoinedAtStart(o: string)
    requires o == "graph_LR\nA-->B"
    ensures HeaderJoinedMatch(o, 0) == None
  {
    SpanEndAt(o, 5, IsAlnum, 5);
    assert !OccursAt(o, "flowchart", 0) by { assert o[0] != 'f'; }
  }

  // ---------------------------------------------------------------------
  // The pass on `stateDiagram_v2\nstate_Requirements {\n}`: Fix 4 drops
  // `_v2`, Fix 5 quotes the state name, and Fix 12 then joins the diagram
  // keyword with the `state` keyword on the next line.
  // ---------------------------------------------------------------------

  lemma RepairStateExample(code: string)
    requires code == "stateDiagram_v2\nstate_Requirements {\n}"
    ensures Repair(code) == "stateDiagram_state \"Requirements\" {\n}"
  {
    StateBeforeFix4(code);
    var c4 := "stateDiagram\nstate_Requirements {\n}";
    StateFix4(code);
    var c5 := "stateDiagram\nstate \"Requirements\" {\n}";
    StateFix5(c4);
    StateAfterFix5(c5);
    var c12 := "stateDiagram_state \"Requirements\" {\n}";
    StateFix12(c5);
    StateAfterFix12(c12);
  }

  /** Fixes 1 to 3 leave the state diagram alone: it has no `-`, no `p` and no `h`. */
  lemma StateBeforeFix4(o: string)
    requires o == "stateDiagram_v2\nstate_Requirements {\n}"
    ensures FixFeedbackTransitions(o, o) == o && AddMissingDirection(o, o) == o
    ensures RemoveGraphTypeUnderscores(o) == o
  {
    StateBeforeFix4Chars(o);
    FeedbackNeedsDash(o);
    Untouched(FeedbackTransitionMatch, o, '-');
    if Contains(o, "graph ") { ContainsHasChar(o, "graph ", 'p'); }
    GraphTypeNeeds(o);
    Untouched(GraphTypeUnderscoreMatch, o, 'h');
  }

  lemma StateBeforeFix4Chars(o: string)
    requires o == "stateDiagram_v2\nstate_Requirements {\n}"
    ensures forall k :: 0 <= k < |o| ==> o[k] != '-' && o[k] != 'p' && o[k] != 'h'
  {
  }

  /** Fix 4 drops the `_v2` of the header. */
  lemma StateFix4(o: string)
    requires o == "stateDiagram_v2\nstate_Requirements {\n}"
    ensures CollapseStateDiagramV2(o) == "stateDiagram\nstate_Requirements {\n}"
  {
    assert OccursAt(o, "stateDiagram_v2", 0);
    ContainsAt(o, "stateDiagram_v2", 0);
    ReplaceFromHit(StateDiagramV2Match, o, 0);
    StateDiagramV2NeedsD(o);
    StateFix4Tail(o);
    ReplaceWithoutHit(StateDiagramV2Match, o, 15);
    StateFix4Pieces(o, o[15..]);
  }

  lemma StateFix4Tail(o: string)
    requires o == "stateDiagram_v2\nstate_Requirements {\n}"
    ensures forall k :: 6 <= k < |o| ==> o[k] != 'D'
  {
  }

  lemma StateFix4Pieces(o: string, tail: string)
    requires o == "stateDiagram_v2\nstate_Requirements {\n}" && tail == o[15..]
    ensures "stateDiagram" + tail == "stateDiagram\nstate_Requirements {\n}"
  {
  }

  /** Fix 5 quotes the state name of the one `state_` declaration. */
  lemma StateFix5(o: string)
    requires o == "stateDiagram\nstate_Requirements {\n}"
    ensures QuoteStateDeclarations(o) == "stateDiagram\nstate \"Requirements\" {\n}"
  {
    StateDeclarationNeedsUnderscore(o);
    StateFix5Underscore(o);
    ReplaceSkip(StateDeclarationMatch, o, 0, 13);
    StateFix5Hit(o);
    ReplaceFromHit(StateDeclarationMatch, o, 13);
    ReplaceWithoutHit(StateDeclarationMatch, o, 33);
    StateFix5Pieces(o, o[0..13], o[33..]);
  }

  lemma StateFix5Underscore(o: string)
    requires o == "stateDiagram\nstate_Requirements {\n}"
    ensures forall k :: 0 <= k < |o| && k != 18 ==> o[k] != '_'
  {
  }

  lemma StateFix5Hit(o: string)
    requires o == "stateDiagram\nstate_Requirements {\n}"
    ensures StateDeclarationMatch(o, 13) == Some(Hit(33, "state \"Requirements\" {"))
  {
    SliceIs(o, 13, "state_");
    SpanEndAt(o, 19, IsAlnum, 31);
    SpanEndAt(o, 31, IsSpace, 32);
    assert o[19..31] == "Requirements";
    assert o[32] == '{';
    StateDeclarationText(o[19..31]);
  }

  lemma StateDeclarationText(name: string)
    requires name == "Requirements"
    ensures "state \"" + name + "\" {" == "state \"Requirements\" {"
  {
  }

  lemma StateFix5Pieces(o: string, head: string, tail: string)
    requires o == "stateDiagram\nstate_Requirements {\n}" && head == o[0..13] && tail == o[33..]
    ensures head + ("state \"Requirements\" {" + tail) == "stateDiagram\nstate \"Requirements\" {\n}"
  {
  }

  /** Fixes 6 to 11 find no `[`, `=` or `c` to work on. */
  lemma StateAfterFix5(o: string)
    requires o == "stateDiagram\nstate \"Requirements\" {\n}"
    ensures RenameEndNodes(o) == o && ReplaceTripleEquals(o) == o
    ensures UnquoteClassDefStyles(o) == o && JoinClassUsageStyles(o) == o
    ensures SplitClassIds(o) == o && QuoteLabels(o) == o
  {
    StateAfterFix5Chars(o);
    EndNodeNeedsBracket(o);
    Untouched(EndNodeMatch, o, '[');
    TripleEqualsNeedsEquals(o);
    ReplaceWithoutHit(TripleEqualsMatch, o, 0);
    ClassPatternsNeedC(o);
    Untouched(ClassDefStyleMatch, o, 'c');
    Untouched(ClassUsageMatch, o, 'c');
    Untouched(ClassIdMatch, o, 'c');
    LabelNeedsBracket(o);
    Untouched(LabelMatch, o, '[');
  }

  lemma StateAfterFix5Chars(o: string)
    requires o == "stateDiagram\nstate \"Requirements\" {\n}"
    ensures forall k :: 0 <= k < |o| ==> o[k] != '[' && o[k] != '=' && o[k] != 'c'
  {
  }

  /** Fix 12 joins the header keyword and the `state` keyword across the line break. */
  lemma StateFix12(o: string)
    requires o == "stateDiagram\nstate \"Requirements\" {\n}"
    ensures JoinNodeIds(o) == "stateDiagram_state \"Requirements\" {\n}"
  {
    StateFix12Head(o);
    ReplaceFromHit(NodeIdMatch, o, 0);
    StateFix12Tail(o);
    ReplaceSkip(NodeIdMatch, o, 18, 37);
    assert ReplaceFrom(NodeIdMatch, o, 37) == [];
    StateFix12Pieces(o, o[18..37]);
  }

  lemma StateFix12Head(o: string)
    requires o == "stateDiagram\nstate \"Requirements\" {\n}"
    ensures NodeIdMatch(o, 0) == Some(Hit(18, "stateDiagram_state"))
  {
    assert forall k :: 0 <= k < 12 ==> IsWordChar(o[k]);
    assert forall k :: 12 < k < 18 ==> IsWordChar(o[k]);
    NodeIdHit(o, 0, 12, 18);
    StateHeadText(o, o[0..12] + "_" + o[13..18]);
  }

  lemma StateHeadText(o: string, joined: string)
    requires o == "stateDiagram\nstate \"Requirements\" {\n}" && joined == o[0..12] + "_" + o[13..18]
    ensures joined == "stateDiagram_state"
  {
  }

  lemma StateFix12Pieces(o: string, tail: string)
    requires o == "stateDiagram\nstate \"Requirements\" {\n}" && tail == o[18..37]
    ensures "stateDiagram_state" + (tail + []) == "stateDiagram_state \"Requirements\" {\n}"
  {
  }

  /** After the joined keywords, `Requirements` is followed by a quote, not a separator. */
  lemma StateFix12Tail(o: string)
    requires o == "stateDiagram\nstate \"Requirements\" {\n}"
    ensures forall k :: 18 <= k < 37 ==> !HitAt(NodeIdMatch, o, k)
  {
    SpanEndAt(o, 20, IsWordChar, 32);
    assert NodeIdMatch(o, 20) == None;
    forall k | 21 <= k < 32
      ensures NodeIdMatch(o, k) == None
    {
      assert IsWordChar(o[k - 1]);
    }
    assert !IsWordChar(o[18]) && !IsWordChar(o[19]);
    assert forall k :: 32 <= k < 37 ==> !IsWordChar(o[k]);
  }

  /** Fixes 13 to 17 and the header clean-up leave the result alone. */
  lemma StateAfterFix12(o: string)
    requires o == "stateDiagram_state \"Requirements\" {\n}"
    ensures SplitSubgraphs(o) == o && BreakEndKeyword(o) == o
    ensures SplitStyleDeclarations(o) == o && SplitClassDefDeclarations(o) == o
    ensures ColonStyleAttributes(o) == o && CleanHeader(o) == o
  {
    StateAfterFix12Chars(o);
    SubgraphNeedsB(o);
    Untouched(SubgraphMatch, o, 'b');
    EndSpacingNeedsD(o);
    Untouched(EndSpacingMatch, o, 'd');
    StyleDeclarationNeedsY(o);
    Untouched(StyleDeclarationMatch, o, 'y');
    ClassPatternsNeedC(o);
    Untouched(ClassDefDeclarationMatch, o, 'c');
    StyleAttributeNeeds(o);
    UntouchedEither(StyleAttributeMatch, o, 'k', 'f');
    HeaderOnlyForFlowcharts(o);
  }

  lemma StateAfterFix12Chars(o: string)
    requires o == "stateDiagram_state \"Requirements\" {\n}"
    ensures forall k :: 0 <= k < |o| ==>
      o[k] != 'b' && o[k] != 'd' && o[k] != 'y' && o[k] != 'c' && o[k] != 'k' && o[k] != 'f'
  {
  }

  lemma StateDiagramV2NeedsD(s: string)
    ensures forall j: nat :: HitAt(StateDiagramV2Match, s, j) ==> j + 5 < |s| && s[j + 5] == 'D'
  {
    forall j: nat | HitAt(StateDiagramV2Match, s, j)
      ensures j + 5 < |s| && s[j + 5] == 'D'
    {
      assert s[j + 5] == s[j..j + 15][5];
    }
  }

  /** A diagram whose first character is neither whitespace nor `g` nor
      `f` is left alone by the header clean-up: its trimmed first line
      cannot start with `graph` or `flowchart`. */
  lemma HeaderOnlyForFlowcharts(s: string)
    requires |s| > 0 && !IsSpace(s[0]) && s[0] != 'g' && s[0] != 'f'
    ensures CleanHeader(s) == s
  {
    FirstLineHead(s);
    TrimHead(FirstLine(s));
    var t := Trim(FirstLine(s));
    assert |t| < 5 || t[..5][0] == t[0];
    assert |t| < 9 || t[..9][0] == t[0];
    assert !IsFlowchartHeader(s);
  }

  /** The first step of the header clean-up (lines 155-158): the leftmost
      line-start `graph` or `flowchart` directly followed by letters or
      digits gets a space after the keyword, and nothing else changes. */
  lemma HeaderJoinedEdit(t: string)
    requires Exec(HeaderJoinedMatch, t, 0).Some?
    ensures var f := Exec(HeaderJoinedMatch, t, 0).value;
      var k := if OccursAt(t, "graph", f.start) then 5 else 9;
      LineStart(t, f.start)
      && (k == 5 || OccursAt(t, "flowchart", f.start))
      && f.start + k < f.end <= |t|
      && (forall j :: f.start + k <= j < f.end ==> IsAlnum(t[j]))
      && ReplaceFirst(HeaderJoinedMatch, t) == t[..f.start + k] + " " + t[f.start + k..]
  {
    var f := Exec(HeaderJoinedMatch, t, 0).value;
    HeaderJoinedHit(t, f.start);
    var k := if OccursAt(t, "graph", f.start) then 5 else 9;
    SpliceEdit(t, f.start, k, k, f.end, f.text);
  }

  /** A match of the first step: the keyword, then a non-empty run of letters
      and digits; the replacement puts a space between them. */
  lemma HeaderJoinedHit(t: string, i: nat)
    requires HitAt(HeaderJoinedMatch, t, i)
    ensures var h, k := HeaderJoinedMatch(t, i).value, if OccursAt(t, "graph", i) then 5 else 9;
      LineStart(t, i)
      && (k == 5 || OccursAt(t, "flowchart", i))
      && i + k < h.end <= |t|
      && (forall j :: i + k <= j < h.end ==> IsAlnum(t[j]))
      && h.text == t[i..i + k] + " " + t[i + k..h.end]
  {
    if PrefixRun(t, i, "graph", IsAlnum, "graph ").None? {
      assert t[i..i + 9][0] == t[i] == 'f';
      assert !OccursAt(t, "graph", i) by { assert "graph"[0] == 'g'; }
    }
  }

  /** The second step (lines 161-164): the leftmost line-start `graph_` or
      `flowchart_` directly followed by letters or digits has that `_`
      turned into a space, and nothing else changes. */
  lemma HeaderUnderscoreEdit(t: string)
    requires Exec(HeaderUnderscoreMatch, t, 0).Some?
    ensures var f := Exec(HeaderUnderscoreMatch, t, 0).value;
      var k := if OccursAt(t, "graph_", f.start) then 5 else 9;
      LineStart(t, f.start)
      && (k == 5 || OccursAt(t, "flowchart_", f.start))
      && f.start + k + 1 < f.end <= |t| && t[f.start + k] == '_'
      && (forall j :: f.start + k + 1 <= j < f.end ==> IsAlnum(t[j]))
      && ReplaceFirst(HeaderUnderscoreMatch, t) == t[..f.start + k] + " " + t[f.start + k + 1..]
  {
    var f := Exec(HeaderUnderscoreMatch, t, 0).value;
    HeaderUnderscoreHit(t, f.start);
    var k := if OccursAt(t, "graph_", f.start) then 5 else 9;
    SpliceEdit(t, f.start, k, k + 1, f.end, f.text);
  }

  /** A match of the second step: the keyword, `_`, then a non-empty run of
      letters and digits; the replacement puts a space in place of the `_`. */
  lemma HeaderUnderscoreHit(t: string, i: nat)
    requires HitAt(HeaderUnderscoreMatch, t, i)
    ensures var h, k := HeaderUnderscoreMatch(t, i).value, if OccursAt(t, "graph_", i) then 5 else 9;
      LineStart(t, i)
      && (k == 5 || OccursAt(t, "flowchart_", i))
      && i + k + 1 < h.end <= |t| && t[i + k] == '_'
      && (forall j :: i + k + 1 <= j < h.end ==> IsAlnum(t[j]))
      && h.text == t[i..i + k] + " " + t[i + k + 1..h.end]
  {
    if PrefixRun(t, i, "graph_", IsAlnum, "graph ").Some? {
      assert t[i..i + 6][5] == t[i + 5];
      assert t[i..i + 5] == t[i..i + 6][..5] == "graph";
      var h := HeaderUnderscoreMatch(t, i).value;
      assert h.text == "graph " + t[i + 6..h.end];
      assert "graph " == t[i..i + 5] + " ";
    } else {
      assert t[i..i + 10][0] == t[i] == 'f';
      assert t[i..i + 10][9] == t[i + 9];
      assert t[i..i + 9] == t[i..i + 10][..9] == "flowchart";
      assert !OccursAt(t, "graph_", i) by { assert "graph_"[0] == 'g'; }
      var h := HeaderUnderscoreMatch(t, i).value;
      assert h.text == "flowchart " + t[i + 10..h.end];
      assert "flowchart " == t[i..i + 9] + " ";
    }
  }

  /** Replacing `t[i..e]` by `t[i..i + a] + " " + t[i + b..e]` is replacing `t[i + a..i + b]` by a space. */
  lemma SpliceEdit(t: string, i: nat, a: nat, b: nat, e: nat, text: string)
    requires i + a <= i + b <= e <= |t| && text == t[i..i + a] + " " + t[i + b..e]
    ensures t[..i] + text + t[e..] == t[..i + a] + " " + t[i + b..]
  {
    assert t[..i + a] == t[..i] + t[i..i + a];
    assert t[i + b..] == t[i + b..e] + t[e..];
  }
}
