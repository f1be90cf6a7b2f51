/** The parts of JavaScript's regular-expression machinery the pipeline
    uses, over a "matcher": a function that says whether the pattern
    matches AT a given index of a string and, if so, where the match ends
    and what it yields (the replacement text for `replace`, the captured
    group for `exec`). Each pattern of the pipeline is given as such a
    matcher, written out from the backtracking semantics of the pattern.
    Every pattern used matches only non-empty text. */
module JsRegex {
  import opened Options
  import opened JsString

  datatype Hit = Hit(end: nat, text: string)

  /** One `exec` result: where the match starts and ends, and the text it yields. */
  datatype Found = Found(start: nat, end: nat, text: string)

  type Matcher = (string, nat) -> Option<Hit>

  /** The pattern matches a non-empty piece of `s` starting at `i`. */
  predicate HitAt(m: Matcher, s: string, i: nat) {
    m(s, i).Some? && i < m(s, i).value.end <= |s|
  }

  /** `re.exec(s)` with `re.lastIndex == from`: the leftmost match starting at or after `from`. */
  function Exec(m: Matcher, s: string, from: nat): (r: Option<Found>)
    requires from <= |s|
    ensures r.Some? ==> from <= r.value.start && HitAt(m, s, r.value.start)
    ensures r.Some? ==> r.value.end == m(s, r.value.start).value.end
                        && r.value.text == m(s, r.value.start).value.text
    ensures r.Some? ==> forall j :: from <= j < r.value.start ==> !HitAt(m, s, j)
    ensures r.None? ==> forall j :: from <= j <= |s| ==> !HitAt(m, s, j)
    decreases |s| - from
  {
    if from == |s| then None
    else if HitAt(m, s, from) then Some(Found(from, m(s, from).value.end, m(s, from).value.text))
    else Exec(m, s, from + 1)
  }

  /** The leftmost match at or after `from` is the one with none before it. */
  lemma ExecAt(m: Matcher, s: string, from: nat, j: nat)
    requires from <= j <= |s| && HitAt(m, s, j)
    requires forall k :: from <= k < j ==> !HitAt(m, s, k)
    ensures Exec(m, s, from) == Some(Found(j, m(s, j).value.end, m(s, j).value.text))
  {
  }

  /** The results of the loop `while ((x = re.exec(s)) !== null)` on a global
      pattern, started with `lastIndex == from`. */
  function FindAll(m: Matcher, s: string, from: nat): (r: seq<Found>)
    requires from <= |s|
    decreases |s| - from
  {
    match Exec(m, s, from)
    case None => []
    case Some(f) => [f] + FindAll(m, s, f.end)
  }

  /** One turn of the `exec` loop: the next match, then the matches after it. */
  lemma FindAllStep(m: Matcher, s: string, from: nat)
    requires from <= |s|
    ensures Exec(m, s, from).None? ==> FindAll(m, s, from) == []
    ensures Exec(m, s, from).Some? ==>
      FindAll(m, s, from) == [Exec(m, s, from).value] + FindAll(m, s, Exec(m, s, from).value.end)
  {
  }

  /** The invariant of the `exec` loop, `done + FindAll(m, s, from) == all`,
      carried over one turn: the loop ends with `all` when no match is left,
      and otherwise moves the match into `done` and resumes after it. */
  lemma ExecLoopStep(m: Matcher, s: string, from: nat, done: seq<Found>, all: seq<Found>)
    requires from <= |s| && done + FindAll(m, s, from) == all
    ensures Exec(m, s, from).None? ==> done == all
    ensures Exec(m, s, from).Some? ==>
      (done + [Exec(m, s, from).value]) + FindAll(m, s, Exec(m, s, from).value.end) == all
  {
    FindAllStep(m, s, from);
    if Exec(m, s, from).Some? {
      var f := Exec(m, s, from).value;
      assert (done + [f]) + FindAll(m, s, f.end) == done + ([f] + FindAll(m, s, f.end));
    }
  }

  /** Matches that lie in `s` after `from`, in ascending order, without overlapping. */
  predicate Ordered(m: Matcher, s: string, from: nat, fs: seq<Found>) {
    (forall k :: 0 <= k < |fs| ==> from <= fs[k].start < fs[k].end <= |s| && IsHit(m, s, fs[k]))
    && (forall k :: 0 <= k < |fs| - 1 ==> fs[k].end <= fs[k + 1].start)
  }

  /** `f` is the match the pattern makes at `f.start`. */
  predicate IsHit(m: Matcher, s: string, f: Found) {
    HitAt(m, s, f.start) && f.end == m(s, f.start).value.end && f.text == m(s, f.start).value.text
  }

  /** The matches `FindAll` returns lie after `from`, in ascending order, and do not overlap. */
  lemma {:induction false} FindAllOrdered(m: Matcher, s: string, from: nat)
    requires from <= |s|
    ensures Ordered(m, s, from, FindAll(m, s, from))
    decreases |s| - from
  {
    match Exec(m, s, from)
    case None =>
    case Some(f) =>
      FindAllOrdered(m, s, f.end);
      var rest := FindAll(m, s, f.end);
      var fs := FindAll(m, s, from);
      assert fs == [f] + rest;
      forall k | 0 <= k < |fs|
        ensures from <= fs[k].start < fs[k].end <= |s| && IsHit(m, s, fs[k])
      {
        if k > 0 { assert fs[k] == rest[k - 1]; }
      }
      forall k | 0 <= k < |fs| - 1
        ensures fs[k].end <= fs[k + 1].start
      {
        assert fs[k + 1] == rest[k];
        if k > 0 { assert fs[k] == rest[k - 1]; }
      }
  }

  /** `s.replace(re, f)` for a global `re`: a left-to-right scan that replaces
      each match and resumes after it. */
  function ReplaceFrom(m: Matcher, s: string, i: nat): string
    requires i <= |s|
    decreases |s| - i
  {
    if i == |s| then []
    else if HitAt(m, s, i) then m(s, i).value.text + ReplaceFrom(m, s, m(s, i).value.end)
    else [s[i]] + ReplaceFrom(m, s, i + 1)
  }

  function ReplaceAll(m: Matcher, s: string): string {
    ReplaceFrom(m, s, 0)
  }

  /** `s.replace(re, f)` for a non-global `re`: only the leftmost match is replaced. */
  function ReplaceFirst(m: Matcher, s: string): (r: string)
    ensures (forall j :: 0 <= j <= |s| ==> !HitAt(m, s, j)) ==> r == s
  {
    match Exec(m, s, 0)
    case None => s
    case Some(f) => s[..f.start] + f.text + s[f.end..]
  }

  /** The scan is the same as the `exec` loop: text up to the leftmost match
      is copied, the match is replaced, and the scan resumes after it. */
  lemma ReplaceFromIsExecLoop(m: Matcher, s: string, i: nat)
    requires i <= |s|
    ensures ReplaceFrom(m, s, i) ==
      match Exec(m, s, i)
      case None => s[i..]
      case Some(f) => s[i..f.start] + f.text + ReplaceFrom(m, s, f.end)
  {
    match Exec(m, s, i)
    case None =>
      ReplaceWithoutHit(m, s, i);
    case Some(f) =>
      ReplaceSkip(m, s, i, f.start);
      ReplaceFromHit(m, s, f.start);
      assert s[i..f.start] + (f.text + ReplaceFrom(m, s, f.end))
        == s[i..f.start] + f.text + ReplaceFrom(m, s, f.end);
  }

  /** A stretch without matches is copied as it stands, and the scan goes on after it. */
  lemma {:induction false} ReplaceSkip(m: Matcher, s: string, i: nat, j: nat)
    requires i <= j <= |s|
    requires forall k :: i <= k < j ==> !HitAt(m, s, k)
    ensures ReplaceFrom(m, s, i) == s[i..j] + ReplaceFrom(m, s, j)
    decreases j - i
  {
    if i < j {
      ReplaceSkip(m, s, i + 1, j);
      ReplaceFromMiss(m, s, i);
      var rest := ReplaceFrom(m, s, j);
      assert [s[i]] + s[i + 1..j] == s[i..j];
      assert [s[i]] + (s[i + 1..j] + rest) == ([s[i]] + s[i + 1..j]) + rest;
    } else {
      assert s[i..j] == [];
    }
  }

  /** Where the pattern matches, its replacement is emitted and the scan resumes after the match. */
  lemma ReplaceFromHit(m: Matcher, s: string, i: nat)
    requires i < |s| && HitAt(m, s, i)
    ensures ReplaceFrom(m, s, i) == m(s, i).value.text + ReplaceFrom(m, s, m(s, i).value.end)
  {
  }

  /** Where the pattern does not match, the character is copied. */
  lemma ReplaceFromMiss(m: Matcher, s: string, i: nat)
    requires i < |s| && !HitAt(m, s, i)
    ensures ReplaceFrom(m, s, i) == [s[i]] + ReplaceFrom(m, s, i + 1)
  {
  }

  /** Where the pattern matches nowhere, the scan copies the text. */
  lemma {:induction false} ReplaceWithoutHit(m: Matcher, s: string, i: nat)
    requires i <= |s|
    requires forall j :: i <= j < |s| ==> !HitAt(m, s, j)
    ensures ReplaceFrom(m, s, i) == s[i..]
    decreases |s| - i
  {
    if i < |s| {
      ReplaceWithoutHit(m, s, i + 1);
      ReplaceFromMiss(m, s, i);
      assert [s[i]] + s[i + 1..] == s[i..];
    }
  }

  /** The replacement `h` of the match at `j` has the length of the match and
      differs from it only where `edit` allows. */
  predicate EditedInPlace(h: Hit, s: string, j: nat, edit: (char, char) -> bool) {
    j <= h.end <= |s| && |h.text| == h.end - j
    && forall k :: j <= k < h.end ==> h.text[k - j] == s[k] || edit(s[k], h.text[k - j])
  }

  /** A scan whose every replacement is an in-place edit keeps the length of
      the text and changes characters only as `edit` allows. */
  lemma {:induction false} ReplaceInPlace(m: Matcher, s: string, i: nat, edit: (char, char) -> bool)
    requires i <= |s|
    requires forall j :: i <= j < |s| && HitAt(m, s, j) ==> EditedInPlace(m(s, j).value, s, j, edit)
    ensures |ReplaceFrom(m, s, i)| == |s| - i
    ensures forall k :: i <= k < |s| ==>
      ReplaceFrom(m, s, i)[k - i] == s[k] || edit(s[k], ReplaceFrom(m, s, i)[k - i])
    decreases |s| - i
  {
    if i < |s| {
      var r := ReplaceFrom(m, s, i);
      if HitAt(m, s, i) {
        var h := m(s, i).value;
        assert EditedInPlace(h, s, i, edit);
        ReplaceInPlace(m, s, h.end, edit);
        ReplaceFromHit(m, s, i);
        var rest := ReplaceFrom(m, s, h.end);
        forall k | i <= k < |s|
          ensures r[k - i] == s[k] || edit(s[k], r[k - i])
        {
          if k < h.end {
            assert r[k - i] == h.text[k - i];
          } else {
            assert r[k - i] == rest[k - h.end];
          }
        }
      } else {
        ReplaceInPlace(m, s, i + 1, edit);
        ReplaceFromMiss(m, s, i);
        var rest := ReplaceFrom(m, s, i + 1);
        forall k | i <= k < |s|
          ensures r[k - i] == s[k] || edit(s[k], r[k - i])
        {
          if k > i {
            assert r[k - i] == rest[k - (i + 1)];
          }
        }
      }
    }
  }

  /** A replacement that always yields the matched text itself changes nothing. */
  lemma ReplaceIdentity(m: Matcher, s: string, i: nat)
    requires i <= |s|
    requires forall j :: i <= j < |s| && HitAt(m, s, j) ==> m(s, j).value.text == s[j..m(s, j).value.end]
    ensures ReplaceFrom(m, s, i) == s[i..]
  {
    var edit := (a: char, b: char) => false;
    forall j | i <= j < |s| && HitAt(m, s, j)
      ensures EditedInPlace(m(s, j).value, s, j, edit)
    {
      var h := m(s, j).value;
      assert forall k :: j <= k < h.end ==> h.text[k - j] == s[k];
    }
    ReplaceInPlace(m, s, i, edit);
    var r := ReplaceFrom(m, s, i);
    assert forall k :: 0 <= k < |r| ==> r[k] == s[i + k];
  }

  /** A pattern that matches the literal text `pat` (non-empty) and replaces it by `rep`. */
  function LiteralHit(pat: string, rep: string, s: string, i: nat): (r: Option<Hit>)
    ensures r.Some? <==> |pat| > 0 && OccursAt(s, pat, i)
    ensures r.Some? ==> r.value == Hit(i + |pat|, rep)
  {
    if |pat| > 0 && OccursAt(s, pat, i) then Some(Hit(i + |pat|, rep)) else None
  }

  /** GetSubstitution for a string pattern (no capture groups): `$$`, `$&`,
      `` $` `` and `$'` are expanded; every other `$` stands for itself. */
  function Substitute(rep: string, matched: string, before: string, after: string): string
    decreases |rep|
  {
    if rep == [] then []
    else if rep[0] == '$' && |rep| >= 2 && rep[1] in "$&`'" then
      (match rep[1]
       case '$' => "$"
       case '&' => matched
       case '`' => before
       case _ => after)
      + Substitute(rep[2..], matched, before, after)
    else [rep[0]] + Substitute(rep[1..], matched, before, after)
  }

  /** A replacement without `$` is inserted literally. */
  lemma {:induction false} SubstitutePlain(rep: string, matched: string, before: string, after: string)
    requires '$' !in rep
    ensures Substitute(rep, matched, before, after) == rep
    decreases |rep|
  {
    if rep != [] {
      SubstitutePlain(rep[1..], matched, before, after);
    }
  }

  /** `s.replace(pat, rep)` with a string `pat`: the first occurrence of `pat`
      is replaced by the expansion of `rep`; without an occurrence, `s` is returned. */
  function ReplaceString(s: string, pat: string, rep: string): (r: string)
    ensures IndexOf(s, pat, 0).None? ==> r == s
  {
    match IndexOf(s, pat, 0)
    case None => s
    case Some(k) =>
      s[..k] + Substitute(rep, pat, s[..k], s[k + |pat|..]) + s[k + |pat|..]
  }

  /** With a replacement free of `$`, the first occurrence is replaced by
      the replacement as it is, and none occurs before it. */
  lemma ReplaceStringPlain(s: string, pat: string, rep: string)
    requires '$' !in rep
    ensures match IndexOf(s, pat, 0)
      case None => ReplaceString(s, pat, rep) == s
      case Some(k) =>
        ReplaceString(s, pat, rep) == s[..k] + rep + s[k + |pat|..]
        && forall j :: 0 <= j < k ==> !OccursAt(s, pat, j)
  {
    match IndexOf(s, pat, 0)
    case None =>
    case Some(k) =>
      SubstitutePlain(rep, pat, s[..k], s[k + |pat|..]);
  }
}
