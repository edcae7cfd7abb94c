/**
 * The string primitives the shipment-status check relies on, over `seq<char>`:
 * ordinal substring search (String.Contains / IndexOf), the OrdinalIgnoreCase
 * comparison, String.Trim, and the removal of every lazy, single-line
 * `<.*?>` match by a regex replace.
 */
module Text {
  import opened Wrappers

  /** char.IsWhiteSpace, which is also the set the regex class `\s` matches. */
  predicate IsWhiteSpace(c: char) {
    || ('\t' <= c <= '\r')
    || c == ' ' || c == '\U{85}' || c == '\U{A0}' || c == '\U{1680}'
    || ('\U{2000}' <= c <= '\U{200A}')
    || c == '\U{2028}' || c == '\U{2029}' || c == '\U{202F}' || c == '\U{205F}' || c == '\U{3000}'
  }

  // ---------------------------------------------------------------------------
  // Ordinal substring search

  /** `lit` occurs in `s` starting at index `k`. */
  predicate OccursAt(s: string, k: nat, lit: string) {
    k + |lit| <= |s| && s[k..k + |lit|] == lit
  }

  /** `OccursAt` of a one-character literal is a test of that character. */
  lemma OccursAtChar(s: string, k: nat, c: char)
    ensures OccursAt(s, k, [c]) <==> k < |s| && s[k] == c
  {
    if k < |s| {
      assert s[k..k + 1] == [s[k]];
    }
  }

  /** The first index at or after `from` where `lit` occurs in `s`. */
  function IndexOfFrom(s: string, lit: string, from: nat): (r: Option<nat>)
    decreases |s| - from
    ensures r.Some? ==> from <= r.value && OccursAt(s, r.value, lit)
    ensures r.Some? ==> forall k: nat :: from <= k < r.value ==> !OccursAt(s, k, lit)
    ensures r.None? ==> forall k: nat :: from <= k ==> !OccursAt(s, k, lit)
  {
    if |s| < from + |lit| then None
    else if s[from..from + |lit|] == lit then Some(from)
    else IndexOfFrom(s, lit, from + 1)
  }

  /** IndexOfFrom finds exactly the first occurrence at or after `from`. */
  lemma IndexOfFromIff(s: string, lit: string, from: nat, f: nat)
    ensures IndexOfFrom(s, lit, from) == Some(f) <==>
      from <= f && OccursAt(s, f, lit) && forall k: nat :: from <= k < f ==> !OccursAt(s, k, lit)
  {
  }

  /** String.Contains with ordinal comparison. */
  function Contains(s: string, lit: string): (b: bool)
    ensures b <==> exists k: nat :: OccursAt(s, k, lit)
  {
    IndexOfFrom(s, lit, 0).Some?
  }

  // ---------------------------------------------------------------------------
  // OrdinalIgnoreCase

  /**
   * The upper-case mapping OrdinalIgnoreCase compares by, for the letters
   * this model covers: ASCII, the Latin-1 small letters U+00E0 to U+00FE
   * (except the division sign) and the Turkish g-breve and s-cedilla.
   */
  function FoldChar(c: char): char {
    if 'a' <= c <= 'z' || ('\U{E0}' <= c <= '\U{FE}' && c != '\U{F7}') then (c as int - 32) as char
    else if c == '\U{11F}' || c == '\U{15F}' then (c as int - 1) as char
    else c
  }

  function Fold(s: string): (r: string)
    ensures |r| == |s| && forall i :: 0 <= i < |s| ==> r[i] == FoldChar(s[i])
  {
    seq(|s|, i requires 0 <= i < |s| => FoldChar(s[i]))
  }

  /** `lit` occurs in `s` at `k` when each character is compared by its folded form. */
  ghost predicate OccursIgnoreCaseAt(s: string, k: nat, lit: string) {
    k + |lit| <= |s| && forall m :: 0 <= m < |lit| ==> FoldChar(s[k + m]) == FoldChar(lit[m])
  }

  lemma FoldOccursAt(s: string, k: nat, lit: string)
    ensures OccursAt(Fold(s), k, Fold(lit)) <==> OccursIgnoreCaseAt(s, k, lit)
  {
    if k + |lit| <= |s| {
      var window := Fold(s)[k..k + |lit|];
      assert forall m :: 0 <= m < |lit| ==> window[m] == FoldChar(s[k + m]);
      if OccursIgnoreCaseAt(s, k, lit) {
        assert window == Fold(lit);
      }
    }
  }

  /** String.Contains(lit, StringComparison.OrdinalIgnoreCase). */
  function ContainsIgnoreCase(s: string, lit: string): (b: bool)
    ensures b <==> exists k: nat :: OccursIgnoreCaseAt(s, k, lit)
  {
    var b := Contains(Fold(s), Fold(lit));
    assert forall k: nat :: OccursAt(Fold(s), k, Fold(lit)) <==> OccursIgnoreCaseAt(s, k, lit) by {
      forall k: nat ensures OccursAt(Fold(s), k, Fold(lit)) <==> OccursIgnoreCaseAt(s, k, lit) {
        FoldOccursAt(s, k, lit);
      }
    }
    b
  }

  // ---------------------------------------------------------------------------
  // String.Trim

  /** Neither end of `s` is white space. */
  predicate IsTrimmed(s: string) {
    s == [] || (!IsWhiteSpace(s[0]) && !IsWhiteSpace(s[|s| - 1]))
  }

  /** `r` is `s[i..i + |r|]` and everything of `s` around it is white space. */
  ghost predicate StripsTo(s: string, i: nat, r: string) {
    && i + |r| <= |s|
    && r == s[i..i + |r|]
    && (forall k {:trigger IsWhiteSpace(s[k])} :: 0 <= k < i ==> IsWhiteSpace(s[k]))
    && (forall k {:trigger IsWhiteSpace(s[k])} :: i + |r| <= k < |s| ==> IsWhiteSpace(s[k]))
  }

  function TrimStart(s: string): (r: string)
    ensures |r| <= |s| && r == s[|s| - |r|..]
    ensures forall k {:trigger IsWhiteSpace(s[k])} :: 0 <= k < |s| - |r| ==> IsWhiteSpace(s[k])
    ensures r == [] || !IsWhiteSpace(r[0])
  {
    if s != [] && IsWhiteSpace(s[0]) then TrimStart(s[1..]) else s
  }

  function TrimEnd(s: string): (r: string)
    ensures |r| <= |s| && r == s[..|r|]
    ensures forall k {:trigger IsWhiteSpace(s[k])} :: |r| <= k < |s| ==> IsWhiteSpace(s[k])
    ensures r == [] || !IsWhiteSpace(r[|r| - 1])
  {
    if s != [] && IsWhiteSpace(s[|s| - 1]) then TrimEnd(s[..|s| - 1]) else s
  }

  /** String.Trim(): drop the white space at both ends. */
  function Trim(s: string): (r: string)
    ensures IsTrimmed(r)
    ensures exists i: nat :: StripsTo(s, i, r)
  {
    var t := TrimStart(s);
    var r := TrimEnd(t);
    assert StripsTo(s, |s| - |t|, r);
    r
  }

  lemma {:induction false} TrimStartAt(s: string, i: nat)
    requires i <= |s| && (forall k {:trigger IsWhiteSpace(s[k])} :: 0 <= k < i ==> IsWhiteSpace(s[k]))
    requires i == |s| || !IsWhiteSpace(s[i])
    ensures TrimStart(s) == s[i..]
  {
    if i > 0 {
      TrimStartAt(s[1..], i - 1);
    }
  }

  lemma {:induction false} TrimEndAt(s: string, n: nat)
    requires n <= |s| && (forall k {:trigger IsWhiteSpace(s[k])} :: n <= k < |s| ==> IsWhiteSpace(s[k]))
    requires n == 0 || !IsWhiteSpace(s[n - 1])
    ensures TrimEnd(s) == s[..n]
    decreases |s| - n
  {
    if n < |s| {
      TrimEndAt(s[..|s| - 1], n);
      assert s[..|s| - 1][..n] == s[..n];
    }
  }

  /** With the leading white space gone, TrimEnd leaves exactly the trimmed infix. */
  lemma TrimEndOfRest(s: string, i: nat, r: string)
    requires StripsTo(s, i, r) && r != [] && !IsWhiteSpace(r[|r| - 1])
    ensures TrimEnd(s[i..]) == r
  {
    var t := s[i..];
    assert t[..|r|] == r;
    forall k | |r| <= k < |t| ensures IsWhiteSpace(t[k]) {
      assert t[k] == s[i + k];
    }
    TrimEndAt(t, |r|);
  }

  /** Trim is determined by its two properties: a trimmed infix with only white space around it. */
  lemma TrimUnique(s: string, i: nat, r: string)
    requires StripsTo(s, i, r) && IsTrimmed(r)
    ensures Trim(s) == r
  {
    if r == [] {
      TrimStartAt(s, |s|);
    } else {
      assert s[i] == r[0];
      TrimStartAt(s, i);
      TrimEndOfRest(s, i, r);
    }
  }

  lemma TrimIdempotent(s: string)
    ensures Trim(Trim(s)) == Trim(s)
  {
    var t := Trim(s);
    assert StripsTo(t, 0, t);
    TrimUnique(t, 0, t);
  }

  // ---------------------------------------------------------------------------
  // Replacing every `<.*?>` match by nothing: without the single-line option,
  // `.` is any character but '\n', and the lazy `.*?` stops at the first '>'.

  /** `s[i..j + 1]` is a run `<.*?>` can match: '<', characters other than '\n', '>'. */
  ghost predicate TagAt(s: string, i: int, j: int) {
    && 0 <= i < j < |s|
    && s[i] == '<' && s[j] == '>'
    && forall k :: i < k < j ==> s[k] != '\n'
  }

  /** No `<…>` run on one line is left in `s`. */
  ghost predicate NoTag(s: string) {
    forall i, j :: !TagAt(s, i, j)
  }

  /** Every '>' of `s` comes after a line break of `s`. */
  ghost predicate NoCloserOnFirstLine(s: string) {
    forall j :: 0 <= j < |s| && s[j] == '>' ==> exists m :: 0 <= m < j && s[m] == '\n'
  }

  /**
   * Where the lazy `.*?>` that follows a '<' at `k - 1` ends: the first '>'
   * at or after `k`, provided no line break comes before it.
   */
  function TagEnd(s: string, k: nat): (r: Option<nat>)
    requires k <= |s|
    decreases |s| - k
    ensures r.Some? ==> k <= r.value < |s| && s[r.value] == '>'
    ensures r.Some? ==> forall m :: k <= m < r.value ==> s[m] != '\n' && s[m] != '>'
    ensures r.None? ==> NoCloserOnFirstLine(s[k..])
  {
    if k == |s| then None
    else if s[k] == '>' then Some(k)
    else if s[k] == '\n' then
      NoCloserAfterNewline(s[k..]);
      None
    else
      var r := TagEnd(s, k + 1);
      if r.None? then
        assert s[k..] == [s[k]] + s[k + 1..];
        NoCloserCons(s[k], s[k + 1..]);
        r
      else r
  }

  /** The text left once every `<.*?>` match, scanned left to right, is removed. */
  function StripTags(s: string): (r: string)
    decreases |s|
    ensures |r| <= |s|
  {
    if s == [] then []
    else if s[0] == '<' && TagEnd(s, 1).Some? then StripTags(s[TagEnd(s, 1).value + 1..])
    else [s[0]] + StripTags(s[1..])
  }

  lemma NoCloserAfterNewline(s: string)
    requires s != [] && s[0] == '\n'
    ensures NoCloserOnFirstLine(s)
  {
    forall j | 0 <= j < |s| && s[j] == '>' ensures exists m :: 0 <= m < j && s[m] == '\n' {
      assert 0 < j && s[0] == '\n';
    }
  }

  lemma NoCloserCons(c: char, s: string)
    requires c != '>' && NoCloserOnFirstLine(s)
    ensures NoCloserOnFirstLine([c] + s)
  {
    var t := [c] + s;
    forall j | 0 <= j < |t| && t[j] == '>' ensures exists m :: 0 <= m < j && t[m] == '\n' {
      assert 0 < j && s[j - 1] == '>';
      var m :| 0 <= m < j - 1 && s[m] == '\n';
      assert t[m + 1] == '\n';
    }
  }

  lemma NoCloserTail(s: string)
    requires s != [] && s[0] != '\n' && NoCloserOnFirstLine(s)
    ensures NoCloserOnFirstLine(s[1..])
  {
    var t := s[1..];
    forall j | 0 <= j < |t| && t[j] == '>' ensures exists m :: 0 <= m < j && t[m] == '\n' {
      assert s[j + 1] == '>';
      var m :| 0 <= m < j + 1 && s[m] == '\n';
      assert t[m - 1] == '\n';
    }
  }

  /** Removing tags never pulls a '>' up onto the first line. */
  lemma {:induction false} StripKeepsNoCloser(s: string)
    requires NoCloserOnFirstLine(s)
    ensures NoCloserOnFirstLine(StripTags(s))
    decreases |s|
  {
    if s != [] {
      if s[0] == '\n' {
        NoCloserAfterNewline(StripTags(s));
      } else {
        assert s[0] != '>';
        assert s[0] == '<' ==> TagEnd(s, 1).None?;
        NoCloserTail(s);
        StripKeepsNoCloser(s[1..]);
        NoCloserCons(s[0], StripTags(s[1..]));
      }
    }
  }

  lemma NoTagSlice(s: string, a: nat, b: nat)
    requires a <= b <= |s| && NoTag(s)
    ensures NoTag(s[a..b])
  {
    var t := s[a..b];
    forall i, j ensures !TagAt(t, i, j) {
      if 0 <= i < j < |t| {
        assert TagAt(t, i, j) ==> TagAt(s, a + i, a + j);
      }
    }
  }

  lemma NoTagCons(c: char, s: string)
    requires NoTag(s) && (c == '<' ==> NoCloserOnFirstLine(s))
    ensures NoTag([c] + s)
  {
    var t := [c] + s;
    forall i, j ensures !TagAt(t, i, j) {
      if 0 < i < j < |t| {
        assert forall k :: i - 1 < k < j - 1 ==> s[k] == t[k + 1];
        assert TagAt(t, i, j) ==> TagAt(s, i - 1, j - 1);
      } else if i == 0 && 0 < j < |t| && c == '<' && t[j] == '>' {
        assert s[j - 1] == '>';
        var m :| 0 <= m < j - 1 && s[m] == '\n';
        assert t[m + 1] == '\n';
      }
    }
  }

  /** Stripping leaves no `<…>` run on one line. */
  lemma {:induction false} StripNoTag(s: string)
    ensures NoTag(StripTags(s))
    decreases |s|
  {
    if s != [] {
      if s[0] == '<' && TagEnd(s, 1).Some? {
        StripNoTag(s[TagEnd(s, 1).value + 1..]);
      } else {
        StripNoTag(s[1..]);
        if s[0] == '<' {
          StripKeepsNoCloser(s[1..]);
        }
        NoTagCons(s[0], StripTags(s[1..]));
      }
    }
  }

  /** On text with no `<…>` run on one line, stripping changes nothing. */
  lemma {:induction false} StripIdentity(s: string)
    requires NoTag(s)
    ensures StripTags(s) == s
    decreases |s|
  {
    if s != [] {
      assert s[0] == '<' && TagEnd(s, 1).Some? ==> TagAt(s, 0, TagEnd(s, 1).value);
      NoTagSlice(s, 1, |s|);
      assert s[1..|s|] == s[1..];
      StripIdentity(s[1..]);
      assert s == [s[0]] + s[1..];
    }
  }

  /** One run `<.*?>` matches: '<', characters other than a line break or '>', then '>'. */
  ghost predicate IsTagRun(t: string) {
    && 2 <= |t| && t[0] == '<' && t[|t| - 1] == '>'
    && forall k :: 0 < k < |t| - 1 ==> t[k] != '\n' && t[k] != '>'
  }

  /** A character other than '<' is kept, in place. */
  lemma StripKeepsChar(c: char, b: string)
    requires c != '<'
    ensures StripTags([c] + b) == [c] + StripTags(b)
  {
    assert ([c] + b)[1..] == b;
  }

  /**
   * A text opening with '<' either has no '>' before its first line break or
   * opens with a tag run, so StripKeepsChar, StripKeepsUnclosedOpen and
   * StripRemovesTag between them cover every input.
   */
  lemma StripCasesCover(s: string)
    requires s != [] && s[0] == '<'
    ensures NoCloserOnFirstLine(s[1..]) || exists n :: 2 <= n <= |s| && IsTagRun(s[..n])
  {
    match TagEnd(s, 1)
    case None =>
    case Some(j) =>
      var t := s[..j + 1];
      assert forall k :: 0 < k < |t| - 1 ==> t[k] == s[k];
      assert IsTagRun(t);
  }

  /** A '<' with no '>' after it on its line is kept, in place. */
  lemma StripKeepsUnclosedOpen(b: string)
    requires NoCloserOnFirstLine(b)
    ensures StripTags(['<'] + b) == ['<'] + StripTags(b)
  {
    var s := ['<'] + b;
    assert s[1..] == b;
  }

  /** A tag run at the very start is deleted. */
  lemma StripLeadingTag(t: string, b: string)
    requires IsTagRun(t)
    ensures StripTags(t + b) == StripTags(b)
  {
    var s := t + b;
    var j := |t| - 1;
    assert s[j] == '>' && s[1..][j - 1] == '>';
    assert forall m :: 1 <= m < j ==> s[m] != '\n' && s[m] != '>';
    assert TagEnd(s, 1) == Some(j);
    assert s[j + 1..] == b;
  }

  /**
   * The first tag run after text holding no '<' is deleted and nothing else
   * before it changes: together with StripKeepsChar and StripKeepsUnclosedOpen this determines
   * StripTags on every input.
   */
  lemma {:induction false} StripRemovesTag(a: string, t: string, b: string)
    requires '<' !in a && IsTagRun(t)
    ensures StripTags(a + t + b) == a + StripTags(b)
    decreases |a|
  {
    if a == [] {
      assert a + t + b == t + b;
      StripLeadingTag(t, b);
    } else {
      var s := a + t + b;
      assert s[0] == a[0] && s[0] != '<';
      assert s[1..] == a[1..] + t + b;
      StripRemovesTag(a[1..], t, b);
      assert StripTags(s) == [a[0]] + StripTags(s[1..]);
      assert a == [a[0]] + a[1..];
    }
  }

  /** Removing the `<.*?>` matches a second time changes nothing. */
  lemma StripIdempotent(s: string)
    ensures StripTags(StripTags(s)) == StripTags(s)
  {
    StripNoTag(s);
    StripIdentity(StripTags(s));
  }

  /** Trimming keeps text free of tags. */
  lemma NoTagTrim(s: string)
    requires NoTag(s)
    ensures NoTag(Trim(s))
  {
    var t := TrimStart(s);
    NoTagSlice(s, |s| - |t|, |s|);
    assert s[|s| - |t|..|s|] == t;
    NoTagSlice(t, 0, |TrimEnd(t)|);
    assert t[0..|TrimEnd(t)|] == TrimEnd(t);
  }
}
