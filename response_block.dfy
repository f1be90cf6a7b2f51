/** The extraction of the generated diagram from the model's reply in
    `generateDiagramWithClaude`: the body of the first fenced Mermaid block
    of the reply, trimmed and wrapped in a fresh fenced block set off by
    blank lines. The request itself is outside the model. */
module ResponseBlock {
  import opened Options
  import opened JsString
  import opened JsRegex
  import opened ImageConversion

  const Opening: string := "\n\n```mermaid\n"
  const Closing: string := "\n```\n\n"

  /** The block inserted into the document for a diagram body. */
  function Wrap(body: string): (r: string)
    ensures |r| == |body| + 19
  {
    Opening + body + Closing
  }

  /** `claudeResponse.match(/```mermaid\n([\s\S]*?)```/)`: the first block,
      searched from the start; a block whose body is empty counts as no
      block, since the captured group is then falsy. `None` is `null`. */
  function ExtractMermaidBlock(claudeResponse: string): (r: Option<string>)
    ensures r.Some? ==> StartsWith(r.value, Opening) && EndsWith(r.value, Closing)
  {
    match Exec(FenceMatch, claudeResponse, 0)
    case None => None
    case Some(mermaidMatch) =>
      if mermaidMatch.text == [] then None
      else
        var w := Wrap(Trim(mermaidMatch.text));
        assert w[..13] == Opening && w[|w| - 6..] == Closing;
        Some(w)
  }

  /** A reply in which no line opens a Mermaid block yields `null`. */
  lemma NoBlockNull(claudeResponse: string)
    requires !Contains(claudeResponse, "```mermaid\n")
    ensures ExtractMermaidBlock(claudeResponse) == None
  {
    forall j: nat | j <= |claudeResponse|
      ensures !HitAt(FenceMatch, claudeResponse, j)
    {
      if HitAt(FenceMatch, claudeResponse, j) {
        ContainsAt(claudeResponse, "```mermaid\n", j);
      }
    }
  }

  /** The first block of a reply is the one extracted: its body is trimmed
      and wrapped, and an empty body yields `null`. The block is the first
      when no opening line starts before it, and its body runs to the first
      closing backquotes after the opening line. */
  lemma ExtractFirst(prefix: string, body: string, rest: string)
    requires OpensFirst(prefix)
    requires ClosesAtEnd(body)
    ensures var r := ExtractMermaidBlock(prefix + "```mermaid\n" + body + "```" + rest);
      if body == [] then r == None else r == Some(Wrap(Trim(body)))
  {
    var s := prefix + "```mermaid\n" + body + "```" + rest;
    FirstFence(s, prefix, body, rest);
  }

  /** No opening line starts inside `prefix` when it is followed by one. */
  predicate OpensFirst(prefix: string) {
    forall k :: 0 <= k < |prefix| ==> !OccursAt(prefix + "```mermaid\n", "```mermaid\n", k)
  }

  /** No closing backquotes start inside `body` when it is followed by them. */
  predicate ClosesAtEnd(body: string) {
    forall j :: 0 <= j < |body| ==> !OccursAt(body + "```", "```", j)
  }

  /** The block after the prefix is the leftmost match. */
  lemma FirstFence(s: string, prefix: string, body: string, rest: string)
    requires s == prefix + "```mermaid\n" + body + "```" + rest
    requires OpensFirst(prefix)
    requires ClosesAtEnd(body)
    ensures Exec(FenceMatch, s, 0) == Some(Found(|prefix|, |prefix| + 14 + |body|, body))
  {
    FenceAfterPrefix(s, prefix, body, rest);
    NoFenceInPrefix(s, prefix, body, rest);
    ExecAt(FenceMatch, s, 0, |prefix|);
  }

  lemma FenceAfterPrefix(s: string, prefix: string, body: string, rest: string)
    requires s == prefix + "```mermaid\n" + body + "```" + rest
    requires ClosesAtEnd(body)
    ensures FenceMatch(s, |prefix|) == Some(Hit(|prefix| + 14 + |body|, body))
  {
    FenceParts(s, prefix, body, rest);
  }

  /** Where the opening line, the body and the closing backquotes lie. */
  lemma FenceParts(s: string, prefix: string, body: string, rest: string)
    requires s == prefix + "```mermaid\n" + body + "```" + rest
    requires ClosesAtEnd(body)
    ensures var p, c := |prefix|, |prefix| + 11 + |body|;
      OccursAt(s, "```mermaid\n", p) && IndexOf(s, "```", p + 11) == Some(c) && s[p + 11..c] == body
  {
    var p := |prefix|;
    var a := prefix + "```mermaid\n";
    assert s == a + (body + "```") + rest;
    assert s[p..p + 11] == "```mermaid\n";
    ClosingAfterOpening(s, a, body, rest);
    MiddlePiece(a, body, "```" + rest, s);
  }

  /** The first closing backquotes after the opening line end the body. */
  lemma ClosingAfterOpening(s: string, a: string, body: string, rest: string)
    requires s == a + (body + "```") + rest
    requires ClosesAtEnd(body)
    ensures IndexOf(s, "```", |a|) == Some(|a| + |body|)
  {
    var u := body + "```";
    forall k | |a| <= k < |a| + |body|
      ensures !OccursAt(s, "```", k)
    {
      var j := k - |a|;
      assert !OccursAt(u, "```", j);
      SliceOfMiddle(s, a, u, rest, j, 3);
    }
    SliceOfMiddle(s, a, u, rest, |body|, 3);
    assert u[|body|..|body| + 3] == "```";
    IndexOfAt(s, "```", |a|, |a| + |body|);
  }

  lemma MiddlePiece(a: string, b: string, c: string, s: string)
    requires s == a + b + c
    ensures s[|a|..|a| + |b|] == b
  {
  }

  /** A window inside the middle piece of `a + u + v` is a window of `u`. */
  lemma SliceOfMiddle(s: string, a: string, u: string, v: string, j: nat, n: nat)
    requires s == a + u + v && j + n <= |u|
    ensures s[|a| + j..|a| + j + n] == u[j..j + n]
  {
    assert s[|a|..|a| + |u|] == u;
  }

  lemma NoFenceInPrefix(s: string, prefix: string, body: string, rest: string)
    requires s == prefix + "```mermaid\n" + body + "```" + rest
    requires OpensFirst(prefix)
    ensures forall k :: 0 <= k < |prefix| ==> !HitAt(FenceMatch, s, k)
  {
    var a := prefix + "```mermaid\n";
    assert s == [] + a + (body + "```" + rest);
    forall k | 0 <= k < |prefix|
      ensures !HitAt(FenceMatch, s, k)
    {
      assert !OccursAt(a, "```mermaid\n", k);
      SliceOfMiddle(s, [], a, body + "```" + rest, k, 11);
    }
  }

  /** Extracting from an inserted block gives the same block back: a
      non-empty trimmed body holding no three backquotes in a row survives
      the round trip. */
  lemma ExtractWrapped(body: string)
    requires |body| > 0 && !IsSpace(body[0]) && !IsSpace(body[|body| - 1])
    requires !Contains(body, "```")
    ensures ExtractMermaidBlock(Wrap(body)) == Some(Wrap(body))
  {
    WrapPieces(body);
    OpeningFirst();
    BodyClosesAtEnd(body);
    ExtractFirst("\n\n", body + "\n", "\n\n");
    TrimTrailing(body, "\n");
  }

  lemma OpeningFirst()
    ensures OpensFirst("\n\n")
  {
    var t := "\n\n" + "```mermaid\n";
    forall k | 0 <= k < 2
      ensures !OccursAt(t, "```mermaid\n", k)
    {
      assert t[k..k + 11][0] == t[k] == '\n';
    }
  }

  /** The line break ending the body stops any closing backquotes before it. */
  lemma BodyClosesAtEnd(body: string)
    requires !Contains(body, "```")
    ensures ClosesAtEnd(body + "\n")
  {
    var t := body + "\n" + "```";
    assert IndexOf(body, "```", 0).None?;
    forall j | 0 <= j < |body| + 1
      ensures !OccursAt(t, "```", j)
    {
      NoClosingAt(body, t, j);
    }
  }

  lemma NoClosingAt(body: string, t: string, j: nat)
    requires t == body + "\n" + "```" && j <= |body|
    requires !OccursAt(body, "```", j)
    ensures !OccursAt(t, "```", j)
  {
    if j + 3 <= |body| {
      assert t[j..j + 3] == body[j..j + 3];
    } else {
      assert t[j..j + 3][|body| - j] == t[|body|] == '\n';
    }
  }

  /** The inserted block, cut where the extraction pattern sees it. */
  lemma WrapPieces(body: string)
    ensures Wrap(body) == "\n\n" + "```mermaid\n" + (body + "\n") + "```" + "\n\n"
  {
    assert Opening == "\n\n" + "```mermaid\n";
    assert Closing == "\n" + "```" + "\n\n";
  }
}
