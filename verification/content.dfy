/** `clean_content` (relemmatize_spacy.py:28-31): cut the page text at the
    social-buttons marker and drop the publication preamble. */
module ContentClean {
  import opened Wrappers
  import opened Text

  /** Where the page's share buttons begin. */
  const Marker: string := "Social Like"

  /** The label of the publication stamp. */
  const Label: string := "Опубликовано:"

  predicate IsDigit(c: char) {
    '0' <= c <= '9'
  }

  /** `\d{2}\.\d{2}\.\d{4}` matches `s` at `p`. */
  predicate DateAt(s: string, p: nat) {
    && p + 10 <= |s|
    && IsDigit(s[p]) && IsDigit(s[p + 1]) && s[p + 2] == '.'
    && IsDigit(s[p + 3]) && IsDigit(s[p + 4]) && s[p + 5] == '.'
    && IsDigit(s[p + 6]) && IsDigit(s[p + 7]) && IsDigit(s[p + 8]) && IsDigit(s[p + 9])
  }

  /** `s[j..k]` is a publication stamp, `Опубликовано:\s*\d{2}\.\d{2}\.\d{4}`:
      the label, whitespace, and a date ending at `k`. */
  predicate StampWith(s: string, j: int, k: int) {
    && 0 <= j
    && j + |Label| + 10 <= k <= |s|
    && OccursAt(Label, s, j)
    && (forall x :: j + |Label| <= x < k - 10 ==> IsSpace(s[x]))
    && DateAt(s, k - 10)
  }

  // ---------------------------------------------------------------------
  // `re.split(r'Social Like', content)[0]` (relemmatize_spacy.py:29)

  /** The text before the first marker, or all of it. */
  function CutAtMarker(s: string): (r: string)
    ensures !IsSubstring(Marker, r)
    ensures OccursAt(r, s, 0)
    ensures IsSubstring(Marker, s) ==> OccursAt(Marker, s, |r|)
    ensures !IsSubstring(Marker, s) ==> r == s
  {
    match Find(Marker, s)
    case None => s
    case Some(i) =>
      var r := s[..i];
      assert !IsSubstring(Marker, r) by {
        forall j | 0 <= j <= |r|
          ensures !OccursAt(Marker, r, j)
        {
          OccursInPrefix(Marker, s, i, j);
        }
      }
      r
  }

  /** An occurrence in a prefix is an occurrence in the whole text. */
  lemma OccursInPrefix(m: string, s: string, i: nat, j: nat)
    requires i <= |s|
    ensures OccursAt(m, s[..i], j) ==> OccursAt(m, s, j)
  {
    if OccursAt(m, s[..i], j) {
      assert s[j..j + |m|] == s[..i][j..j + |m|];
    }
  }

  // ---------------------------------------------------------------------
  // `re.sub(r'.*Опубликовано:\s*\d{2}\.\d{2}\.\d{4}', '', content,
  // flags=re.DOTALL)` (relemmatize_spacy.py:30)

  /** The end of the stamp the engine matches at `j`: the label, the
      longest whitespace run (`\s*` is greedy and a digit is no
      whitespace), then the date. */
  function StampEndAt(s: string, j: nat): (r: Option<nat>)
    requires j <= |s|
    ensures r.Some? ==> StampWith(s, j, r.value)
    ensures r.None? ==> forall k :: !StampWith(s, j, k)
  {
    if OccursAt(Label, s, j) then
      var q := j + |Label|;
      var n := Run(s, q);
      if DateAt(s, q + n) then
        Some(q + n + 10)
      else
        StampNotAt(s, j);
        None
    else
      None
  }

  /** With the label at `j` but no date after the longest whitespace run,
      no stamp starts at `j`. */
  lemma StampNotAt(s: string, j: nat)
    requires j <= |s| && OccursAt(Label, s, j)
    requires !DateAt(s, j + |Label| + Run(s, j + |Label|))
    ensures forall k :: !StampWith(s, j, k)
  {
    var q := j + |Label|;
    var n := Run(s, q);
    forall k | StampWith(s, j, k)
      ensures false
    {
      var w := k - 10 - q;
      RunBound(s, q, w);
    }
  }

  /** The largest `j < n` satisfying `p`. */
  function LastBelow(p: nat -> bool, n: nat): (r: Option<nat>)
    ensures r.Some? ==> r.value < n && p(r.value)
  {
    if n == 0 then None
    else if p(n - 1) then Some(n - 1)
    else LastBelow(p, n - 1)
  }

  /** Nothing above the one found satisfies `p`, and nothing at all when
      none is found. */
  lemma {:induction false} LastBelowIsLast(p: nat -> bool, n: nat)
    ensures LastBelow(p, n).Some? ==> forall j: nat :: LastBelow(p, n).value < j < n ==> !p(j)
    ensures LastBelow(p, n).None? ==> forall j: nat :: j < n ==> !p(j)
  {
    if n > 0 && !p(n - 1) {
      LastBelowIsLast(p, n - 1);
    }
  }

  /** A stamp starts at `j`. */
  predicate StampStartsAt(s: string, j: nat) {
    j <= |s| && StampEndAt(s, j).Some?
  }

  function StampStarts(s: string): nat -> bool {
    (j: nat) => StampStartsAt(s, j)
  }

  /** The largest `j < n` where a stamp starts: the greedy `.*` gives back
      as little as it can. */
  function LastStampStart(s: string, n: nat): (r: Option<nat>)
    ensures r.Some? ==> r.value < n && StampStartsAt(s, r.value)
  {
    LastBelow(StampStarts(s), n)
  }

  /** No stamp starts after the one found, and none at all when none is
      found. */
  lemma LastStampStartIsLast(s: string, n: nat)
    ensures LastStampStart(s, n).Some? ==>
      forall j: nat :: LastStampStart(s, n).value < j < n ==> !StampStartsAt(s, j)
    ensures LastStampStart(s, n).None? ==> forall j: nat :: j < n ==> !StampStartsAt(s, j)
  {
    var p := StampStarts(s);
    LastBelowIsLast(p, n);
    var r := LastBelow(p, n);
    forall j: nat | (r.Some? ==> r.value < j) && j < n
      ensures !StampStartsAt(s, j)
    {
      assert !p(j);
    }
  }

  /** The regular-expression substitution: everything up to the end of the
      last stamp goes; a text without a stamp is left alone. */
  function DropPreamble(s: string): (r: string)
    ensures |r| <= |s| && OccursAt(r, s, |s| - |r|)
    ensures (forall j, k :: !StampWith(s, j, k)) ==> r == s
  {
    match LastStampStart(s, |s| + 1)
    case None => s
    case Some(j) => s[StampEndAt(s, j).value..]
  }

  /** What the substitution removes: with a stamp present, everything up
      to the end of the stamp that starts last. */
  lemma DropPreambleSpec(s: string)
    ensures (exists j, k :: StampWith(s, j, k)) ==>
      exists j, k :: StampWith(s, j, k) && DropPreamble(s) == s[k..] &&
        forall j', k' :: StampWith(s, j', k') ==> j' <= j
  {
    LastStampStartIsLast(s, |s| + 1);
    match LastStampStart(s, |s| + 1)
    case None =>
      forall j, k | StampWith(s, j, k)
        ensures false
      {
        StampStartsWhereItIs(s, j, k);
      }
    case Some(j) =>
      var k := StampEndAt(s, j).value;
      assert StampWith(s, j, k);
      forall j', k' | StampWith(s, j', k')
        ensures j' <= j
      {
        StampStartsWhereItIs(s, j', k');
      }
  }

  /** What the substitution keeps holds no stamp. */
  lemma DropPreambleNoStamp(s: string)
    ensures forall a, b :: !StampWith(DropPreamble(s), a, b)
  {
    var r := DropPreamble(s);
    LastStampStartIsLast(s, |s| + 1);
    match LastStampStart(s, |s| + 1)
    case None =>
      forall a, b | StampWith(r, a, b)
        ensures false
      {
        StampStartsWhereItIs(s, a, b);
      }
    case Some(j) =>
      var k := StampEndAt(s, j).value;
      assert j < k <= |s|;
      forall a, b | StampWith(r, a, b)
        ensures false
      {
        StampInSuffix(s, k, a, b);
      }
  }

  /** A stamp of a suffix starts a stamp of the whole text. */
  lemma StampInSuffix(s: string, k: nat, a: int, b: int)
    requires k <= |s| && StampWith(s[k..], a, b)
    ensures k + a <= |s| && StampStartsAt(s, k + a)
  {
    StampInSubstring(s[k..], s, k, a, b);
    StampStartsWhereItIs(s, k + a, k + b);
  }

  /** The search finds every stamp start. */
  lemma StampStartsWhereItIs(s: string, a: int, b: int)
    requires StampWith(s, a, b)
    ensures a <= |s| && StampStartsAt(s, a)
  {
  }

  /** A stamp inside a substring is a stamp of the whole string. */
  lemma StampInSubstring(r: string, s: string, off: nat, a: int, b: int)
    requires OccursAt(r, s, off) && StampWith(r, a, b)
    ensures StampWith(s, off + a, off + b)
  {
    assert forall x :: 0 <= x < |r| ==> s[off + x] == r[x] by {
      forall x | 0 <= x < |r|
        ensures s[off + x] == r[x]
      {
        assert s[off..off + |r|][x] == r[x];
      }
    }
    assert s[off + a..off + a + |Label|] == r[a..a + |Label|];
  }

  // ---------------------------------------------------------------------
  // The whole function (relemmatize_spacy.py:28-31)

  /** `clean_content(content)` */
  function CleanContent(s: string): (r: string)
    ensures Trimmed(r)
  {
    Strip(DropPreamble(Strip(CutAtMarker(s))))
  }

  /** Where the cleaned text sits in the text before the marker: every
      step keeps a piece of its input. */
  lemma CleanContentOffset(s: string) returns (off: nat)
    ensures OccursAt(CleanContent(s), CutAtMarker(s), off)
  {
    off := TrimOffset(CutAtMarker(s));
  }

  lemma TrimOffset(cut: string) returns (off: nat)
    ensures OccursAt(Strip(DropPreamble(Strip(cut))), cut, off)
  {
    off := SuffixOfStripped(cut, DropPreamble(Strip(cut)));
  }

  /** Stripping a suffix of the stripped text keeps a piece of the text. */
  lemma SuffixOfStripped(x: string, d: string) returns (off: nat)
    requires |d| <= |Strip(x)| && OccursAt(d, Strip(x), |Strip(x)| - |d|)
    ensures OccursAt(Strip(d), x, off)
  {
    StripOccurs(x);
    StripOccurs(d);
    off := SuffixPiece(Strip(d), d, Strip(x), x, LeadingSpaces(d), LeadingSpaces(x));
  }

  /** A piece of a suffix of a piece of `x` is a piece of `x`. */
  lemma SuffixPiece(sd: string, d: string, c: string, x: string, ld: nat, lx: nat) returns (off: nat)
    requires |d| <= |c| && OccursAt(sd, d, ld) && OccursAt(d, c, |c| - |d|) && OccursAt(c, x, lx)
    ensures OccursAt(sd, x, off)
  {
    off := lx + (|c| - |d|) + ld;
    OccursAtChain(sd, d, c, x, ld, |c| - |d|, lx);
  }

  /** The cleaned text is literally part of the page text. */
  lemma CleanContentIsPart(s: string)
    ensures IsSubstring(CleanContent(s), s)
  {
    var off := CleanContentOffset(s);
    PartOfPrefix(CleanContent(s), CutAtMarker(s), s, off);
  }

  /** The cleaned text holds no marker. */
  lemma CleanContentNoMarker(s: string)
    ensures !IsSubstring(Marker, CleanContent(s))
  {
    var off := CleanContentOffset(s);
    AbsentFromPart(Marker, CleanContent(s), CutAtMarker(s), off);
  }

  /** The cleaned text holds no publication stamp. */
  lemma CleanContentNoStamp(s: string)
    ensures forall a, b :: !StampWith(CleanContent(s), a, b)
  {
    var c := Strip(CutAtMarker(s));
    var d := DropPreamble(c);
    var r := CleanContent(s);
    DropPreambleNoStamp(c);
    StripOccurs(d);
    forall a, b | StampWith(r, a, b)
      ensures false
    {
      StampInSubstring(r, d, LeadingSpaces(d), a, b);
    }
  }

  /** Cleaning a cleaned text changes nothing. */
  lemma CleanContentIdempotent(s: string)
    ensures CleanContent(CleanContent(s)) == CleanContent(s)
  {
    var r := CleanContent(s);
    CleanContentNoMarker(s);
    CleanContentNoStamp(s);
    StripTrimmed(r);
    assert CutAtMarker(r) == r;
    assert DropPreamble(r) == r;
  }

  /** The whole cleaning, by cases: `c` is the stripped text before the
      marker; without a stamp in it the result is `c`, otherwise the
      stripped rest of `c` after the stamp that starts last. */
  lemma CleanContentSpec(s: string)
    ensures var c := Strip(CutAtMarker(s));
      (forall j, k :: !StampWith(c, j, k)) ==> CleanContent(s) == c
    ensures var c := Strip(CutAtMarker(s));
      (exists j, k :: StampWith(c, j, k)) ==>
        exists j, k :: StampWith(c, j, k) && CleanContent(s) == Strip(c[k..]) &&
          forall j', k' :: StampWith(c, j', k') ==> j' <= j
  {
    var c := Strip(CutAtMarker(s));
    DropPreambleSpec(c);
    if exists j, k :: StampWith(c, j, k) {
      var j, k :| StampWith(c, j, k) && DropPreamble(c) == c[k..] &&
        forall j', k' :: StampWith(c, j', k') ==> j' <= j;
      assert CleanContent(s) == Strip(c[k..]);
    } else {
      StripIdempotent(CutAtMarker(s));
    }
  }
}
