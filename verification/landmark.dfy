/**
 * The landmark the UPS tracking page is read by (KargoService.cs line 44): a
 * span whose tag carries the id ctl00_MainContent_Label2 and whose text is the
 * label "Öngörülen Teslimat Zamanı", a line-break tag with optional white
 * space and optional slash, optional white space, then a span whose tag
 * carries the id ctl00_MainContent_teslimat_zamani; the group captured is the
 * shortest text after that tag up to a closing span. The pattern is matched
 * in single-line mode, so the capture may span lines.
 *
 * The pattern is stated twice: piece by piece as the regular expression reads
 * (the ghost predicates SpanTag ... PatternAt), and as a matcher (MatchAt and
 * the functions it calls). Every piece admits exactly one way to match from a
 * given start (an attribute run cannot pass the tag's first '>', and each
 * white-space run is followed by a character that is not white space), so a
 * match attempt is a function of the start index; MatchAtIff proves the two
 * agree, and the regex engine reports the leftmost start that succeeds.
 */
module Landmark {
  import opened Wrappers
  import opened Text

  const SpanOpen := "<span"
  const SpanClose := "</span>"
  const BreakOpen := "<br"
  const LabelId := "id=\"ctl00_MainContent_Label2\""
  const ValueId := "id=\"ctl00_MainContent_teslimat_zamani\""
  const Label := "Öngörülen Teslimat Zamanı"
  /** What follows the label span's '>': the label, the span's closing tag and the opening of the line break. */
  const LabelThenBreak := Label + SpanClose + BreakOpen

  /** Group 1 of a match: the captured text is `s[start..end]`. */
  datatype Capture = Capture(start: nat, end: nat)

  // ---------------------------------------------------------------------------
  // The pattern, piece by piece

  /**
   * `<span`, attributes holding `id`, then the tag's '>' at `a - 1`. The
   * attribute runs on either side of the id cannot hold '>', and neither
   * id holds one, so no '>' lies between `<span` and `a - 1`.
   */
  ghost predicate SpanTag(s: string, p: nat, id: string, a: nat) {
    && OccursAt(s, p, SpanOpen)
    && p + |SpanOpen| < a <= |s| && s[a - 1] == '>'
    && (forall k :: p + |SpanOpen| <= k < a - 1 ==> s[k] != '>')
    && exists k: nat :: p + |SpanOpen| <= k && k + |id| < a && OccursAt(s, k, id)
  }

  /** A white-space run spans `[x, y)`. */
  ghost predicate SpaceRun(s: string, x: nat, y: nat) {
    x <= y <= |s| && forall k {:trigger IsWhiteSpace(s[k])} :: x <= k < y ==> IsWhiteSpace(s[k])
  }

  /** The rest of the line-break tag, white space, an optional '/' and '>', spans `[x, c)`. */
  ghost predicate BreakClose(s: string, x: nat, c: nat) {
    exists b: nat :: SpaceRun(s, x, b) && ((OccursAt(s, b, ">") && c == b + 1) || (OccursAt(s, b, "/>") && c == b + 2))
  }

  /** The lazy group spans `[e, f)`: `</span>` at `f` and at no index in between. */
  ghost predicate LazyClose(s: string, e: nat, f: nat) {
    e <= f && OccursAt(s, f, SpanClose) && forall k: nat :: e <= k < f ==> !OccursAt(s, k, SpanClose)
  }

  /** From `c`: white space, the value span's opening tag ending at `e`, and the group `[e, f)`. */
  ghost predicate ValueSpan(s: string, c: nat, e: nat, f: nat) {
    exists d: nat :: SpaceRun(s, c, d) && SpanTag(s, d, ValueId, e) && LazyClose(s, e, f)
  }

  /** From `x`, just past the label and `<br`: the rest of the line break, then the value span. */
  ghost predicate AfterLabel(s: string, x: nat, e: nat, f: nat) {
    exists c: nat :: BreakClose(s, x, c) && ValueSpan(s, c, e, f)
  }

  /** The whole pattern matches from `p` with group 1 spanning `[e, f)`. */
  ghost predicate PatternAt(s: string, p: nat, e: nat, f: nat) {
    exists a: nat :: SpanTag(s, p, LabelId, a) && OccursAt(s, a, LabelThenBreak) && AfterLabel(s, a + |LabelThenBreak|, e, f)
  }

  /** The pattern matches at no start before `p`. */
  ghost predicate NoPatternBefore(s: string, p: nat) {
    forall q: nat, e: nat, f: nat :: q < p ==> !PatternAt(s, q, e, f)
  }

  // ---------------------------------------------------------------------------
  // The matcher

  /** The index of the first character at or after `p` that a white-space run does not consume. */
  function SkipSpace(s: string, p: nat): (r: nat)
    requires p <= |s|
    decreases |s| - p
    ensures p <= r <= |s|
    ensures forall k {:trigger IsWhiteSpace(s[k])} :: p <= k < r ==> IsWhiteSpace(s[k])
    ensures r == |s| || !IsWhiteSpace(s[r])
  {
    if p < |s| && IsWhiteSpace(s[p]) then SkipSpace(s, p + 1) else p
  }

  /** A white-space run followed by a character that is not white space is the one SkipSpace finds. */
  lemma SpaceRunEnd(s: string, x: nat, y: nat)
    requires SpaceRun(s, x, y) && y < |s| && !IsWhiteSpace(s[y])
    ensures y == SkipSpace(s, x)
  {
  }

  /**
   * A span tag opening at `p` whose attributes hold the text `id`: the index
   * just past the tag's first '>'. OpenTagEndIff states what it finds.
   */
  function OpenTagEnd(s: string, p: nat, id: string): (r: Option<nat>)
  {
    if !OccursAt(s, p, SpanOpen) then None
    else
      match IndexOfFrom(s, ">", p + |SpanOpen|)
      case None => None
      case Some(q) =>
        match IndexOfFrom(s, id, p + |SpanOpen|)
        case None => None
        case Some(k) => if k + |id| <= q then Some(q + 1) else None
  }

  /** The rest of the line-break tag from `x`: the index just past its '>'. */
  function BreakEnd(s: string, x: nat): (r: Option<nat>)
    requires x <= |s|
    ensures r.Some? ==> x < r.value <= |s| && s[r.value - 1] == '>'
  {
    var b := SkipSpace(s, x);
    var c := if b < |s| && s[b] == '/' then b + 1 else b;
    if c < |s| && s[c] == '>' then Some(c + 1) else None
  }

  /** The value span from `c`, and the group it captures. */
  function ValueAt(s: string, c: nat): (r: Option<Capture>)
    requires c <= |s|
    ensures r.Some? ==> LazyClose(s, r.value.start, r.value.end)
  {
    match OpenTagEnd(s, SkipSpace(s, c), ValueId)
    case None => None
    case Some(e) =>
      match IndexOfFrom(s, SpanClose, e)
      case None => None
      case Some(f) => Some(Capture(e, f))
  }

  /** The rest of the pattern from `x`, just past the label and `<br`. */
  function AfterLabelAt(s: string, x: nat): (r: Option<Capture>)
    requires x <= |s|
    ensures r.Some? ==> LazyClose(s, r.value.start, r.value.end)
  {
    match BreakEnd(s, x)
    case None => None
    case Some(c) => ValueAt(s, c)
  }

  /** One attempt of the whole pattern at start index `p`. */
  function MatchAt(s: string, p: nat): (r: Option<Capture>)
    ensures r.Some? ==> LazyClose(s, r.value.start, r.value.end)
  {
    match OpenTagEnd(s, p, LabelId)
    case None => None
    case Some(a) =>
      if !OccursAt(s, a, LabelThenBreak) then None
      else AfterLabelAt(s, a + |LabelThenBreak|)
  }

  // ---------------------------------------------------------------------------
  // The matcher agrees with the pattern, piece by piece

  /** What OpenTagEnd finds is the end of a span tag holding `id`. */
  lemma OpenTagEndSound(s: string, p: nat, id: string)
    requires OpenTagEnd(s, p, id).Some?
    ensures SpanTag(s, p, id, OpenTagEnd(s, p, id).value)
  {
    var q := IndexOfFrom(s, ">", p + |SpanOpen|).value;
    var k := IndexOfFrom(s, id, p + |SpanOpen|).value;
    OccursAtChar(s, q, '>');
    forall j | p + |SpanOpen| <= j < q ensures s[j] != '>' {
      OccursAtChar(s, j, '>');
    }
    assert OccursAt(s, k, id);
  }

  /** The first '>' at or after `from`. */
  lemma FirstCloser(s: string, from: nat, q: nat)
    requires from <= q < |s| && s[q] == '>'
    requires forall j :: from <= j < q ==> s[j] != '>'
    ensures IndexOfFrom(s, ">", from) == Some(q)
  {
    OccursAtChar(s, q, '>');
    forall j: nat | from <= j < q ensures !OccursAt(s, j, ">") {
      OccursAtChar(s, j, '>');
    }
    IndexOfFromIff(s, ">", from, q);
  }

  /** The end of a span tag holding `id` is what OpenTagEnd finds. */
  lemma OpenTagEndComplete(s: string, p: nat, id: string, a: nat)
    requires SpanTag(s, p, id, a)
    ensures OpenTagEnd(s, p, id) == Some(a)
  {
    FirstCloser(s, p + |SpanOpen|, a - 1);
    var k: nat :| p + |SpanOpen| <= k && k + |id| < a && OccursAt(s, k, id);
    assert IndexOfFrom(s, id, p + |SpanOpen|).Some?;
  }

  /** OpenTagEnd finds exactly the end of the span tag at `p`, and None when there is none. */
  lemma OpenTagEndIff(s: string, p: nat, id: string, a: nat)
    ensures OpenTagEnd(s, p, id) == Some(a) <==> SpanTag(s, p, id, a)
  {
    if OpenTagEnd(s, p, id) == Some(a) {
      OpenTagEndSound(s, p, id);
    }
    if SpanTag(s, p, id, a) {
      OpenTagEndComplete(s, p, id, a);
    }
  }

  /** What BreakEnd finds closes the line-break tag. */
  lemma BreakEndSound(s: string, x: nat)
    requires x <= |s| && BreakEnd(s, x).Some?
    ensures BreakClose(s, x, BreakEnd(s, x).value)
  {
    var b := SkipSpace(s, x);
    assert SpaceRun(s, x, b);
    if s[b] == '/' {
      assert s[b..b + 2] == "/>";
    } else {
      OccursAtChar(s, b, '>');
    }
  }

  /** A break close with its white-space run ending at `b` is the one BreakEnd finds. */
  lemma BreakEndComplete(s: string, x: nat, b: nat, c: nat)
    requires SpaceRun(s, x, b)
    requires (OccursAt(s, b, ">") && c == b + 1) || (OccursAt(s, b, "/>") && c == b + 2)
    ensures BreakEnd(s, x) == Some(c)
  {
    assert s[b] == s[b..c][0];
    SpaceRunEnd(s, x, b);
    if c == b + 2 {
      assert s[b + 1] == s[b..c][1];
    }
  }

  /** What ValueAt finds is a value span and its group. */
  lemma ValueAtSound(s: string, c: nat)
    requires c <= |s| && ValueAt(s, c).Some?
    ensures ValueSpan(s, c, ValueAt(s, c).value.start, ValueAt(s, c).value.end)
  {
    var d := SkipSpace(s, c);
    OpenTagEndSound(s, d, ValueId);
    assert SpaceRun(s, c, d);
  }

  /** A value span with its white-space run ending at `d` is the one ValueAt finds. */
  lemma ValueAtComplete(s: string, c: nat, d: nat, e: nat, f: nat)
    requires SpaceRun(s, c, d) && SpanTag(s, d, ValueId, e) && LazyClose(s, e, f)
    ensures ValueAt(s, c) == Some(Capture(e, f))
  {
    assert s[d] == s[d..d + |SpanOpen|][0];
    SpaceRunEnd(s, c, d);
    OpenTagEndComplete(s, d, ValueId, e);
    IndexOfFromIff(s, SpanClose, e, f);
  }

  /** What AfterLabelAt finds is the rest of the pattern. */
  lemma AfterLabelSound(s: string, x: nat)
    requires x <= |s| && AfterLabelAt(s, x).Some?
    ensures AfterLabel(s, x, AfterLabelAt(s, x).value.start, AfterLabelAt(s, x).value.end)
  {
    var c := BreakEnd(s, x).value;
    BreakEndSound(s, x);
    ValueAtSound(s, c);
  }

  /** The rest of the pattern is what AfterLabelAt finds. */
  lemma AfterLabelComplete(s: string, x: nat, e: nat, f: nat)
    requires AfterLabel(s, x, e, f)
    ensures AfterLabelAt(s, x) == Some(Capture(e, f))
  {
    var c: nat :| BreakClose(s, x, c) && ValueSpan(s, c, e, f);
    var b: nat :| SpaceRun(s, x, b) && ((OccursAt(s, b, ">") && c == b + 1) || (OccursAt(s, b, "/>") && c == b + 2));
    BreakEndComplete(s, x, b, c);
    var d: nat :| SpaceRun(s, c, d) && SpanTag(s, d, ValueId, e) && LazyClose(s, e, f);
    ValueAtComplete(s, c, d, e, f);
  }

  /** A successful attempt is a label tag, the label, and the rest of the pattern after it. */
  lemma MatchAtParts(s: string, p: nat)
    requires MatchAt(s, p).Some?
    ensures OpenTagEnd(s, p, LabelId).Some?
    ensures OccursAt(s, OpenTagEnd(s, p, LabelId).value, LabelThenBreak)
    ensures MatchAt(s, p) == AfterLabelAt(s, OpenTagEnd(s, p, LabelId).value + |LabelThenBreak|)
  {
  }

  /** A successful attempt starts with `<span`, so inside the page. */
  lemma MatchAtBound(s: string, p: nat)
    requires MatchAt(s, p).Some?
    ensures p + |SpanOpen| <= |s|
  {
  }

  /** A label tag followed by the label reduces the attempt to the rest of the pattern. */
  lemma MatchAtOf(s: string, p: nat, a: nat)
    requires OpenTagEnd(s, p, LabelId) == Some(a) && OccursAt(s, a, LabelThenBreak)
    ensures MatchAt(s, p) == AfterLabelAt(s, a + |LabelThenBreak|)
  {
  }

  /** A successful attempt is a match of the pattern, with the same group. */
  lemma MatchAtPattern(s: string, p: nat)
    requires MatchAt(s, p).Some?
    ensures PatternAt(s, p, MatchAt(s, p).value.start, MatchAt(s, p).value.end)
  {
    MatchAtParts(s, p);
    var a := OpenTagEnd(s, p, LabelId).value;
    var x := a + |LabelThenBreak|;
    var m := MatchAt(s, p).value;
    assert AfterLabelAt(s, x) == Some(m);
    OpenTagEndSound(s, p, LabelId);
    AfterLabelSound(s, x);
    assert SpanTag(s, p, LabelId, a);
    assert OccursAt(s, a, LabelThenBreak);
    assert AfterLabel(s, x, m.start, m.end);
  }

  /** A match of the pattern is a successful attempt, with the same group. */
  lemma PatternMatchAt(s: string, p: nat, e: nat, f: nat)
    requires PatternAt(s, p, e, f)
    ensures MatchAt(s, p) == Some(Capture(e, f))
  {
    var a: nat :| SpanTag(s, p, LabelId, a) && OccursAt(s, a, LabelThenBreak) && AfterLabel(s, a + |LabelThenBreak|, e, f);
    var x := a + |LabelThenBreak|;
    OpenTagEndComplete(s, p, LabelId, a);
    AfterLabelComplete(s, x, e, f);
    MatchAtOf(s, p, a);
    assert MatchAt(s, p) == AfterLabelAt(s, x);
  }

  /** The matcher and the pattern agree: MatchAt succeeds with group `[e, f)` exactly when the pattern matches so. */
  lemma MatchAtIff(s: string, p: nat, e: nat, f: nat)
    ensures MatchAt(s, p) == Some(Capture(e, f)) <==> PatternAt(s, p, e, f)
  {
    if MatchAt(s, p) == Some(Capture(e, f)) {
      MatchAtPattern(s, p);
    }
    if PatternAt(s, p, e, f) {
      PatternMatchAt(s, p, e, f);
    }
  }

  // ---------------------------------------------------------------------------
  // The leftmost match

  /** The leftmost start at or after `p` where the pattern matches. */
  function FirstMatchFrom(s: string, p: nat): (r: Option<nat>)
    decreases |s| + 1 - p
    ensures r.Some? ==> p <= r.value <= |s| && MatchAt(s, r.value).Some?
    ensures r.Some? ==> forall q: nat :: p <= q < r.value ==> MatchAt(s, q).None?
    ensures r.None? ==> forall q: nat :: p <= q <= |s| ==> MatchAt(s, q).None?
  {
    if |s| < p then None
    else
      var m := MatchAt(s, p);
      if m.Some? then Some(p)
      else
        var r := FirstMatchFrom(s, p + 1);
        assert r.Some? ==> forall q: nat :: p <= q < r.value ==> MatchAt(s, q).None? by {
          if r.Some? {
            forall q: nat | p <= q < r.value ensures MatchAt(s, q).None? {
              if q == p { assert MatchAt(s, q) == m; }
            }
          }
        }
        r
  }

  /** `v` appears in `s` at `e`, directly followed by `</span>`. */
  ghost predicate CapturedAt(s: string, e: nat, v: string) {
    e + |v| <= |s| && s[e..e + |v|] == v && OccursAt(s, e + |v|, SpanClose)
  }

  /** The captured group of the leftmost match, or None when the pattern matches nowhere. */
  function FindLandmark(s: string): (r: Option<string>)
    ensures r.None? <==> forall q: nat :: q <= |s| ==> MatchAt(s, q).None?
    ensures r.Some? ==> !Contains(r.value, SpanClose)
    ensures r.Some? ==> exists e: nat :: CapturedAt(s, e, r.value)
    ensures r.Some? ==>
      var c := MatchAt(s, FirstMatchFrom(s, 0).value).value;
      r.value == s[c.start..c.end]
  {
    var first := FirstMatchFrom(s, 0);
    if first.None? then None
    else
      var c := MatchAt(s, first.value).value;
      var v := s[c.start..c.end];
      CaptureHasNoClose(s, c.start, c.end);
      assert CapturedAt(s, c.start, v);
      Some(v)
  }

  /** The lazy capture stops at the first `</span>`, so it holds none. */
  lemma CaptureHasNoClose(s: string, e: nat, f: nat)
    requires e <= f <= |s|
    requires forall k: nat :: e <= k < f ==> !OccursAt(s, k, SpanClose)
    ensures !Contains(s[e..f], SpanClose)
  {
    var v := s[e..f];
    forall k: nat ensures !OccursAt(v, k, SpanClose) {
      if k + |SpanClose| <= |v| {
        assert v[k..k + |SpanClose|] == s[e + k..e + k + |SpanClose|] by {
          assert forall m :: k <= m < k + |SpanClose| ==> v[m] == s[e + m];
        }
        assert !OccursAt(s, e + k, SpanClose);
      }
    }
  }

  /** No pattern match before `p` means no successful attempt before `p`. */
  lemma NoMatchBefore(s: string, p: nat)
    requires NoPatternBefore(s, p)
    ensures forall q: nat :: q < p ==> MatchAt(s, q).None?
  {
    forall q: nat | q < p ensures MatchAt(s, q).None? {
      if MatchAt(s, q).Some? {
        MatchAtPattern(s, q);
      }
    }
  }

  /** No successful attempt before `p` means no pattern match before `p`. */
  lemma NoPatternBeforeOf(s: string, p: nat)
    requires forall q: nat :: q < p ==> MatchAt(s, q).None?
    ensures NoPatternBefore(s, p)
  {
    forall q: nat, e: nat, f: nat | q < p ensures !PatternAt(s, q, e, f) {
      assert MatchAt(s, q).None?;
      if PatternAt(s, q, e, f) {
        PatternMatchAt(s, q, e, f);
      }
    }
  }

  /** A start where the attempt succeeds bounds the leftmost match. */
  lemma FirstMatchAtMost(s: string, p: nat)
    requires MatchAt(s, p).Some?
    ensures FirstMatchFrom(s, 0).Some? && FirstMatchFrom(s, 0).value <= p
  {
    MatchAtBound(s, p);
    var r := FirstMatchFrom(s, 0);
    assert r.None? ==> MatchAt(s, p).None?;
    assert r.Some? && p < r.value ==> MatchAt(s, p).None?;
  }

  /** An attempt at `p` that succeeds, after none before it, is the leftmost match. */
  lemma LeftmostMatch(s: string, p: nat)
    requires MatchAt(s, p).Some?
    requires forall q: nat :: q < p ==> MatchAt(s, q).None?
    ensures FirstMatchFrom(s, 0) == Some(p)
  {
    FirstMatchAtMost(s, p);
    var r := FirstMatchFrom(s, 0).value;
    assert MatchAt(s, r).Some?;
  }

  /** The landmark is found exactly when the pattern matches somewhere. */
  lemma FoundIffPattern(s: string)
    ensures FindLandmark(s).Some? <==> exists p: nat, e: nat, f: nat :: PatternAt(s, p, e, f)
  {
    if FindLandmark(s).Some? {
      MatchAtPattern(s, FirstMatchFrom(s, 0).value);
    } else {
      forall p: nat, e: nat, f: nat ensures !PatternAt(s, p, e, f) {
        if PatternAt(s, p, e, f) {
          PatternMatchAt(s, p, e, f);
          MatchAtParts(s, p);
        }
      }
    }
  }

  /** The group of the leftmost pattern match is what is found. */
  lemma LeftmostPatternFound(s: string, p: nat, e: nat, f: nat)
    requires PatternAt(s, p, e, f) && NoPatternBefore(s, p)
    ensures FindLandmark(s) == Some(s[e..f])
  {
    PatternMatchAt(s, p, e, f);
    NoMatchBefore(s, p);
    LeftmostMatch(s, p);
  }

  /** What is found is the group of the leftmost pattern match. */
  lemma FoundIsLeftmost(s: string)
    requires FindLandmark(s).Some?
    ensures exists p: nat, e: nat, f: nat ::
      PatternAt(s, p, e, f) && NoPatternBefore(s, p) && FindLandmark(s).value == s[e..f]
  {
    var p := FirstMatchFrom(s, 0).value;
    var c := MatchAt(s, p).value;
    MatchAtPattern(s, p);
    NoPatternBeforeOf(s, p);
    assert PatternAt(s, p, c.start, c.end) && NoPatternBefore(s, p) && FindLandmark(s).value == s[c.start..c.end];
  }

}
