/** The string primitives the source relies on: `str.strip()`, `str.lower()`,
    `str.upper()`, the `in` substring test, `str.find`, `str.split(sep)`, and
    the whitespace runs matched by `\s`. */
module Text {
  import opened Wrappers

  /** Python's `str.isspace()`; the same set is used by `strip()` with no
      argument and by the regular-expression class `\s`. */
  predicate IsSpace(c: char) {
    || c == ' '
    || ('\t' <= c <= '\r')
    || ('\U{001C}' <= c <= '\U{001F}')
    || c == '\U{0085}' || c == '\U{00A0}' || c == '\U{1680}'
    || ('\U{2000}' <= c <= '\U{200A}')
    || c == '\U{2028}' || c == '\U{2029}' || c == '\U{202F}'
    || c == '\U{205F}' || c == '\U{3000}'
  }

  predicate AllSpace(s: string) {
    forall i :: 0 <= i < |s| ==> IsSpace(s[i])
  }

  /** Neither end of `s` is whitespace. */
  predicate Trimmed(s: string) {
    s == [] || (!IsSpace(s[0]) && !IsSpace(s[|s| - 1]))
  }

  /** `s` is `r` with only whitespace before offset `a` and after `r`. */
  predicate Padded(s: string, a: nat, r: string) {
    && a + |r| <= |s|
    && s[a..a + |r|] == r
    && AllSpace(s[..a])
    && AllSpace(s[a + |r|..])
  }

  function LeadingSpaces(s: string): (n: nat)
    ensures n <= |s|
    ensures AllSpace(s[..n])
    ensures n == |s| || !IsSpace(s[n])
  {
    if s == [] || !IsSpace(s[0]) then 0
    else
      var m := LeadingSpaces(s[1..]);
      assert s[..m + 1] == [s[0]] + s[1..][..m];
      m + 1
  }

  function TrailingSpaces(s: string): (n: nat)
    ensures n <= |s|
    ensures AllSpace(s[|s| - n..])
    ensures n == |s| || !IsSpace(s[|s| - n - 1])
  {
    if s == [] || !IsSpace(s[|s| - 1]) then 0
    else
      var t := s[..|s| - 1];
      var m := TrailingSpaces(t);
      assert s[|s| - (m + 1)..] == t[|t| - m..] + [s[|s| - 1]];
      m + 1
  }

  /** Python's `s.strip()`: the result has no whitespace at either end. */
  function Strip(s: string): (r: string)
    ensures Trimmed(r)
  {
    var a := LeadingSpaces(s);
    var t := s[a..];
    var b := TrailingSpaces(t);
    var r := t[..|t| - b];
    assert r != [] ==> r[0] == s[a] && r[|r| - 1] == t[|t| - b - 1];
    r
  }

  /** ... and is what is left of `s` once the surrounding whitespace is
      removed. */
  lemma StripPadded(s: string)
    ensures Padded(s, LeadingSpaces(s), Strip(s))
  {
    var a := LeadingSpaces(s);
    var t := s[a..];
    var b := TrailingSpaces(t);
    var r := Strip(s);
    assert r == t[..|t| - b];
    assert s[a..a + |r|] == r;
    assert s[a + |r|..] == t[|t| - b..];
  }

  /** The two properties above pin the stripped string down uniquely. */
  lemma StripUnique(s: string, a: nat, r: string, a': nat, r': string)
    requires Trimmed(r) && Padded(s, a, r)
    requires Trimmed(r') && Padded(s, a', r')
    ensures r == r'
  {
  }

  /** Stripping a string without surrounding whitespace changes nothing. */
  lemma StripTrimmed(s: string)
    requires Trimmed(s)
    ensures Strip(s) == s
  {
    assert Padded(s, 0, s);
    StripPadded(s);
    StripUnique(s, 0, s, LeadingSpaces(s), Strip(s));
  }

  lemma StripIdempotent(s: string)
    ensures Strip(Strip(s)) == Strip(s)
  {
    StripTrimmed(Strip(s));
  }

  /** `strip()` yields the empty string exactly for all-whitespace input. */
  lemma StripEmpty(s: string)
    ensures Strip(s) == [] <==> AllSpace(s)
  {
    var a := LeadingSpaces(s);
    var r := Strip(s);
    StripPadded(s);
    if r != [] {
      assert s[a..a + |r|][0] == r[0];
    } else {
      assert s[..a] == s;
    }
  }

  // ---------------------------------------------------------------------
  // Substrings: Python's `sub in s`.

  predicate OccursAt(sub: string, s: string, i: nat) {
    i + |sub| <= |s| && s[i..i + |sub|] == sub
  }

  predicate IsSubstring(sub: string, s: string) {
    exists i :: 0 <= i <= |s| && OccursAt(sub, s, i)
  }

  lemma SubstringTransitive(a: string, b: string, c: string)
    requires IsSubstring(a, b) && IsSubstring(b, c)
    ensures IsSubstring(a, c)
  {
    var i :| 0 <= i <= |b| && OccursAt(a, b, i);
    var j :| 0 <= j <= |c| && OccursAt(b, c, j);
    OccursAtCompose(a, b, c, i, j);
  }

  /** An occurrence inside an occurrence. */
  lemma OccursAtCompose(a: string, b: string, c: string, i: nat, j: nat)
    requires OccursAt(a, b, i) && OccursAt(b, c, j)
    ensures OccursAt(a, c, j + i)
  {
    forall k | 0 <= k < |a|
      ensures c[j + i + k] == a[k]
    {
      assert b[i + k] == a[k];
      assert c[j + (i + k)] == b[i + k];
    }
  }

  /** A text missing from `c` is missing from every piece of `c`. */
  lemma AbsentFromPart(m: string, r: string, c: string, off: nat)
    requires OccursAt(r, c, off) && !IsSubstring(m, c)
    ensures !IsSubstring(m, r)
  {
    if IsSubstring(m, r) {
      var i :| 0 <= i <= |r| && OccursAt(m, r, i);
      OccursAtCompose(m, r, c, i, off);
    }
  }

  /** A piece of a prefix of `s` is a substring of `s`. */
  lemma PartOfPrefix(r: string, c: string, s: string, off: nat)
    requires OccursAt(r, c, off) && OccursAt(c, s, 0)
    ensures IsSubstring(r, s)
  {
    OccursAtCompose(r, c, s, off, 0);
  }

  lemma OccursAtChain(a: string, b: string, c: string, d: string, i: nat, j: nat, k: nat)
    requires OccursAt(a, b, i) && OccursAt(b, c, j) && OccursAt(c, d, k)
    ensures OccursAt(a, d, k + j + i)
  {
    OccursAtCompose(a, b, c, i, j);
    OccursAtCompose(a, c, d, j + i, k);
  }

  /** What `strip()` returns is a substring of its argument. */
  lemma StripIsSubstring(s: string)
    ensures IsSubstring(Strip(s), s)
  {
    StripOccurs(s);
  }

  /** ... found right after the leading whitespace. */
  lemma StripOccurs(s: string)
    ensures OccursAt(Strip(s), s, LeadingSpaces(s))
  {
    StripPadded(s);
  }

  lemma CharOfSubstring(sub: string, s: string, c: char)
    requires IsSubstring(sub, s) && c in sub
    ensures c in s
  {
    var i :| 0 <= i <= |s| && OccursAt(sub, s, i);
    var k :| 0 <= k < |sub| && sub[k] == c;
    assert s[i + k] == sub[k];
  }

  // ---------------------------------------------------------------------
  // Scanning helpers shared by the regular-expression models.

  /** `s[b..b+w]` is whitespace (`\s`). */
  predicate SpacesAt(s: string, b: nat, w: nat) {
    b + w <= |s| && forall k :: b <= k < b + w ==> IsSpace(s[k])
  }

  /** The longest whitespace run starting at `b`: what a greedy
      `\s+` or `\s*` takes first. */
  function Run(s: string, b: nat): (n: nat)
    requires b <= |s|
    decreases |s| - b
    ensures SpacesAt(s, b, n)
    ensures b + n < |s| ==> !IsSpace(s[b + n])
  {
    if b < |s| && IsSpace(s[b]) then 1 + Run(s, b + 1) else 0
  }

  /** Any whitespace run from `b` is at most the longest one. */
  lemma RunBound(s: string, b: nat, w: nat)
    requires b <= |s| && SpacesAt(s, b, w)
    ensures w <= Run(s, b)
  {
  }

  /** `s.find(sub)`: the first offset where `sub` occurs. */
  function Find(sub: string, s: string): (r: Option<nat>)
    ensures r.Some? ==> OccursAt(sub, s, r.value)
    ensures r.Some? ==> forall j :: 0 <= j < r.value ==> !OccursAt(sub, s, j)
    ensures r.None? <==> !IsSubstring(sub, s)
  {
    FindFrom(sub, s, 0)
  }

  function FindFrom(sub: string, s: string, i: nat): (r: Option<nat>)
    decreases |s| + 1 - i
    ensures r.Some? ==> i <= r.value && OccursAt(sub, s, r.value)
    ensures r.Some? ==> forall j :: i <= j < r.value ==> !OccursAt(sub, s, j)
    ensures r.None? ==> forall j :: i <= j ==> !OccursAt(sub, s, j)
  {
    if i + |sub| > |s| then None
    else if OccursAt(sub, s, i) then Some(i)
    else FindFrom(sub, s, i + 1)
  }

  // ---------------------------------------------------------------------
  // Case mapping.  Python maps every cased Unicode letter; this model maps
  // the Basic Latin and the basic Cyrillic block (U+0400..U+045F) only.
  // Any other letter is left as it is where Python would change it: Ґ
  // (U+0490) stays Ґ, so the entity text "Ґалич" does not contain the
  // query "ґалич" here, while it does after Python's `lower()`.

  function LowerChar(c: char): char {
    if 'A' <= c <= 'Z' then (c as int + 32) as char
    else if '\U{0410}' <= c <= '\U{042F}' then (c as int + 32) as char
    else if '\U{0400}' <= c <= '\U{040F}' then (c as int + 80) as char
    else c
  }

  function UpperChar(c: char): char {
    if 'a' <= c <= 'z' then (c as int - 32) as char
    else if '\U{0430}' <= c <= '\U{044F}' then (c as int - 32) as char
    else if '\U{0450}' <= c <= '\U{045F}' then (c as int - 80) as char
    else c
  }

  /** `s.lower()`: a character-by-character map, so length is preserved. */
  function Lower(s: string): (r: string)
    ensures |r| == |s|
  {
    seq(|s|, i requires 0 <= i < |s| => LowerChar(s[i]))
  }

  /** `s.upper()` */
  function Upper(s: string): (r: string)
    ensures |r| == |s|
  {
    seq(|s|, i requires 0 <= i < |s| => UpperChar(s[i]))
  }

  /** Lowering twice is lowering once. */
  lemma LowerIdempotent(s: string)
    ensures Lower(Lower(s)) == Lower(s)
  {
    forall i | 0 <= i < |s|
      ensures Lower(Lower(s))[i] == Lower(s)[i]
    {
      assert Lower(Lower(s))[i] == LowerChar(LowerChar(s[i]));
    }
  }

  /** An ASCII capital is the upper case of exactly two characters: itself
      and its small letter.  So `Upper(t) == "PER"` accepts any casing of
      "per" and nothing else. */
  lemma UpperCharAscii(c: char, x: char)
    requires 'A' <= x <= 'Z'
    ensures UpperChar(c) == x <==> c == x || c as int == x as int + 32
  {
  }

  // ---------------------------------------------------------------------
  // Python's `s.split(d)` for a one-character separator.

  function Split(s: string, d: char): (r: seq<string>)
    ensures |r| >= 1
    ensures forall p :: p in r ==> d !in p
  {
    if s == [] then [""]
    else
      var rest := Split(s[1..], d);
      if s[0] == d then [""] + rest
      else [[s[0]] + rest[0]] + rest[1..]
  }

  function Join(ps: seq<string>, d: char): string
    requires |ps| >= 1
  {
    if |ps| == 1 then ps[0] else ps[0] + [d] + Join(ps[1..], d)
  }

  /** `d.join(s.split(d)) == s`: splitting loses nothing. */
  lemma {:induction false} SplitJoin(s: string, d: char)
    ensures Join(Split(s, d), d) == s
  {
    if s != [] {
      var rest := Split(s[1..], d);
      SplitJoin(s[1..], d);
      if s[0] != d {
        if |rest| > 1 {
          assert Split(s, d)[1..] == rest[1..];
        }
      }
    }
  }
}
