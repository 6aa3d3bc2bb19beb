/** `parse_title` (relemmatize_spacy.py:9-26): the display title, the
    collector and the translator read off a tale's raw title line. */
module TitleParse {
  import opened Wrappers
  import opened Text
  import opened Corpus

  /** The title used when the line has no non-blank dot-separated piece. */
  const DefaultTitle: string := "Без названия"

  /** `Сказочник`, the collector's prefix. */
  const CollectorPrefixes: seq<string> := ["Сказочник"]

  /** `Перевел[а]?`: the optional `а` is greedy, so the longer spelling is
      tried first at each position. */
  const TranslatorPrefixes: seq<string> := ["Перевела", "Перевел"]

  // ---------------------------------------------------------------------
  // The title (relemmatize_spacy.py:10, 14-16)

  /** Position of the first piece that is not blank. */
  function FirstNonBlank(pieces: seq<string>): (r: Option<nat>)
    ensures r.Some? ==> r.value < |pieces| && !AllSpace(pieces[r.value])
    ensures r.Some? ==> forall j :: 0 <= j < r.value ==> AllSpace(pieces[j])
    ensures r.None? ==> forall j :: 0 <= j < |pieces| ==> AllSpace(pieces[j])
  {
    if pieces == [] then None
    else if !AllSpace(pieces[0]) then Some(0)
    else
      match FirstNonBlank(pieces[1..])
      case Some(i) => Some(i + 1)
      case None => None
  }

  /** `parse_title`'s title: the first non-blank piece of `s.split('.')`,
      stripped, or the default title. Either way it is a non-empty trimmed
      text without a dot. */
  function Title(s: string): (t: string)
    ensures t != [] && '.' !in t && Trimmed(t)
  {
    var ps := Split(s, '.');
    match FirstNonBlank(ps)
    case None =>
      assert DefaultTitle[0] == 'Б' && DefaultTitle[|DefaultTitle| - 1] == 'я';
      DefaultTitle
    case Some(i) =>
      StrippedPiece(ps[i], '.');
      Strip(ps[i])
  }

  /** Which piece the title is: the first one holding more than whitespace,
      stripped; the default title when every piece is blank. */
  lemma TitleSpec(s: string)
    ensures var ps := Split(s, '.');
      forall i :: 0 <= i < |ps| && !AllSpace(ps[i]) && (forall j :: 0 <= j < i ==> AllSpace(ps[j])) ==>
        Title(s) == Strip(ps[i])
    ensures (forall p :: p in Split(s, '.') ==> AllSpace(p)) ==> Title(s) == DefaultTitle
  {
    var ps := Split(s, '.');
    match FirstNonBlank(ps)
    case None =>
    case Some(k) =>
      assert ps[k] in ps;
      forall i | 0 <= i < |ps| && !AllSpace(ps[i]) && (forall j :: 0 <= j < i ==> AllSpace(ps[j]))
        ensures Title(s) == Strip(ps[i])
      {
        assert i == k;
      }
  }

  /** A piece holding more than whitespace and no separator strips to a
      non-empty text without the separator. */
  lemma StrippedPiece(p: string, d: char)
    requires d !in p && !AllSpace(p)
    ensures Strip(p) != [] && d !in Strip(p)
  {
    StripEmpty(p);
    StripIsSubstring(p);
    if d in Strip(p) {
      CharOfSubstring(Strip(p), p, d);
    }
  }

  /** The title is literally part of the line, unless it is the default. */
  lemma TitleIsPartOfLine(s: string)
    ensures Title(s) == DefaultTitle || IsSubstring(Title(s), s)
  {
    var ps := Split(s, '.');
    match FirstNonBlank(ps)
    case None =>
    case Some(i) =>
      SplitPiecesOccur(s, '.');
      StripIsSubstring(ps[i]);
      SubstringTransitive(Strip(ps[i]), ps[i], s);
  }

  /** The first piece of a split is a prefix of the string. */
  lemma {:induction false} SplitFirstIsPrefix(s: string, d: char)
    ensures OccursAt(Split(s, d)[0], s, 0)
  {
    if s != [] {
      SplitFirstIsPrefix(s[1..], d);
    }
  }

  /** Every piece of a split occurs in the string. */
  lemma {:induction false} SplitPiecesOccur(s: string, d: char)
    ensures forall p :: p in Split(s, d) ==> IsSubstring(p, s)
  {
    if s == [] {
      assert OccursAt("", s, 0);
    } else {
      var rest := Split(s[1..], d);
      SplitPiecesOccur(s[1..], d);
      forall p | p in rest
        ensures IsSubstring(p, s)
      {
        assert OccursAt(s[1..], s, 1);
        SubstringTransitive(p, s[1..], s);
      }
      if s[0] == d {
        assert OccursAt("", s, 0);
      } else {
        SplitFirstIsPrefix(s[1..], d);
        assert OccursAt([s[0]] + rest[0], s, 0);
        forall p | p in rest[1..]
          ensures p in rest
        {
        }
      }
    }
  }

  // ---------------------------------------------------------------------
  // The two extractions: `re.search(r'<prefix>\s+(.+?)(?:\.$|\. )', s)`
  // (relemmatize_spacy.py:18-24)

  /** `$` without MULTILINE: the end of the string or just before a final
      newline. */
  predicate AtEnd(s: string, k: nat) {
    k == |s| || (k + 1 == |s| && s[k] == '\n')
  }

  /** `(?:\.$|\. )` matches at `k`. */
  predicate Terminator(s: string, k: nat) {
    k < |s| && s[k] == '.' && (AtEnd(s, k + 1) || (k + 1 < |s| && s[k + 1] == ' '))
  }

  /** The group `(.+?)` may be `s[g..k]`: non-empty, no newline (`.`
      without DOTALL), and the terminator follows it. */
  predicate EndOk(s: string, g: nat, k: nat) {
    && Terminator(s, k)
    && g < k
    && forall j :: g <= j < k ==> s[j] != '\n'
  }

  /** One way the pattern can match: where, with which spelling of the
      prefix, how much whitespace `\s+` takes and where the group ends. */
  datatype Match = Match(start: nat, alt: nat, width: nat, end: nat)

  predicate IsMatch(s: string, ps: seq<string>, m: Match) {
    && m.alt < |ps|
    && OccursAt(ps[m.alt], s, m.start)
    && m.width >= 1
    && SpacesAt(s, m.start + |ps[m.alt]|, m.width)
    && EndOk(s, m.start + |ps[m.alt]| + m.width, m.end)
  }

  /** The order in which a backtracking engine tries the matches: leftmost
      start, then the earlier prefix spelling, then the longer (greedy)
      whitespace run, then the shorter (lazy) group. */
  predicate Precedes(a: Match, b: Match) {
    || a.start < b.start
    || (a.start == b.start && a.alt < b.alt)
    || (a.start == b.start && a.alt == b.alt && a.width > b.width)
    || (a.start == b.start && a.alt == b.alt && a.width == b.width && a.end < b.end)
  }

  /** The lazy group: try ends `e`, `e + 1`, ... until the terminator
      follows or a newline enters the group. */
  function ScanEnd(s: string, g: nat, e: nat): (r: Option<nat>)
    requires g < e <= |s| + 1
    requires forall j :: g <= j < e - 1 ==> s[j] != '\n'
    decreases |s| + 1 - e
    ensures r.Some? ==> e <= r.value && EndOk(s, g, r.value)
    ensures r.Some? ==> forall k :: e <= k < r.value ==> !EndOk(s, g, k)
    ensures r.None? ==> forall k :: e <= k ==> !EndOk(s, g, k)
  {
    if e >= |s| then None
    else if s[e - 1] == '\n' then None
    else if Terminator(s, e) then Some(e)
    else ScanEnd(s, g, e + 1)
  }

  /** Greedy `\s+` backing off: whitespace widths `w`, `w - 1`, ..., 1,
      each with the lazy group; the result is (width, group end). */
  function TryWidths(s: string, b: nat, w: nat): (r: Option<(nat, nat)>)
    requires b + w <= |s|
    ensures r.Some? ==> 1 <= r.value.0 <= w && EndOk(s, b + r.value.0, r.value.1)
    ensures r.Some? ==> forall g: nat, k: nat :: g == b + r.value.0 && k < r.value.1 ==> !EndOk(s, g, k)
    ensures r.Some? ==> forall g, k :: b + r.value.0 < g <= b + w ==> !EndOk(s, g, k)
    ensures r.None? ==> forall g, k :: b + 1 <= g <= b + w ==> !EndOk(s, g, k)
  {
    if w == 0 then None
    else
      match ScanEnd(s, b + w, b + w + 1)
      case Some(e) => Some((w, e))
      case None => TryWidths(s, b, w - 1)
  }

  /** All matches at `i` with a prefix spelling from `a` on, in engine
      order. */
  function TryAlts(s: string, i: nat, ps: seq<string>, a: nat): (r: Option<Match>)
    requires a <= |ps|
    decreases |ps| - a
    ensures r.Some? ==> IsMatch(s, ps, r.value) && r.value.start == i && a <= r.value.alt
    ensures r.Some? ==> forall m :: IsMatch(s, ps, m) && m.start == i && a <= m.alt ==> !Precedes(m, r.value)
    ensures r.None? ==> forall m :: IsMatch(s, ps, m) && m.start == i ==> m.alt < a
  {
    if a == |ps| then None
    else if OccursAt(ps[a], s, i) then
      var b := i + |ps[a]|;
      match TryWidths(s, b, Run(s, b))
      case Some(we) =>
        WidthsFound(s, i, ps, a, we.0, we.1);
        Some(Match(i, a, we.0, we.1))
      case None =>
        WidthsNone(s, i, ps, a);
        TryAlts(s, i, ps, a + 1)
    else TryAlts(s, i, ps, a + 1)
  }

  /** The width and end found for spelling `a` at `i` make the first match
      with that spelling there. */
  lemma WidthsFound(s: string, i: nat, ps: seq<string>, a: nat, w: nat, e: nat)
    requires a < |ps| && OccursAt(ps[a], s, i)
    requires TryWidths(s, i + |ps[a]|, Run(s, i + |ps[a]|)) == Some((w, e))
    ensures IsMatch(s, ps, Match(i, a, w, e))
    ensures forall m :: IsMatch(s, ps, m) && m.start == i && m.alt == a ==> !Precedes(m, Match(i, a, w, e))
  {
    var b := i + |ps[a]|;
    forall m | IsMatch(s, ps, m) && m.start == i && m.alt == a
      ensures !Precedes(m, Match(i, a, w, e))
    {
      RunBound(s, b, m.width);
    }
  }

  /** No width works for spelling `a` at `i`: no match with it there. */
  lemma WidthsNone(s: string, i: nat, ps: seq<string>, a: nat)
    requires a < |ps| && OccursAt(ps[a], s, i)
    requires TryWidths(s, i + |ps[a]|, Run(s, i + |ps[a]|)).None?
    ensures forall m :: IsMatch(s, ps, m) && m.start == i ==> m.alt != a
  {
  }

  /** `re.search`: the first start position with a match, from `i` on. */
  function SearchFrom(s: string, ps: seq<string>, i: nat): (r: Option<Match>)
    decreases |s| + 1 - i
    ensures r.Some? ==> IsMatch(s, ps, r.value) && i <= r.value.start
    ensures r.Some? ==> forall m :: IsMatch(s, ps, m) && i <= m.start ==> !Precedes(m, r.value)
    ensures r.None? ==> forall m :: IsMatch(s, ps, m) ==> m.start < i
  {
    if i > |s| then None
    else
      match TryAlts(s, i, ps, 0)
      case Some(m) => Some(m)
      case None => SearchFrom(s, ps, i + 1)
  }

  /** The match `re.search` reports: a match, and no match the engine
      would try earlier; none exactly when the pattern cannot match. */
  function FirstMatch(s: string, ps: seq<string>): (r: Option<Match>)
    ensures r.Some? ==> IsMatch(s, ps, r.value)
    ensures r.Some? ==> forall m :: IsMatch(s, ps, m) ==> !Precedes(m, r.value)
    ensures r.None? <==> forall m :: !IsMatch(s, ps, m)
  {
    SearchFrom(s, ps, 0)
  }

  /** The match the engine reports: no other match precedes it. */
  ghost predicate Preferred(s: string, ps: seq<string>, m: Match) {
    IsMatch(s, ps, m) && forall m' :: IsMatch(s, ps, m') ==> !Precedes(m', m)
  }

  /** `group(1)` of a match. */
  function Group(s: string, ps: seq<string>, m: Match): (g: string)
    requires IsMatch(s, ps, m)
    ensures |g| >= 1 && '\n' !in g
  {
    s[m.start + |ps[m.alt]| + m.width..m.end]
  }

  /** `m.group(1).strip()`: part of the line, trimmed, and without a
      newline as the group has none. */
  function StrippedGroup(s: string, ps: seq<string>, m: Match): (r: string)
    requires IsMatch(s, ps, m)
    ensures '\n' !in r && Trimmed(r) && IsSubstring(r, s)
  {
    var g := Group(s, ps, m);
    StripIsSubstring(g);
    StrippedPieceIsPart(g, s, m.start + |ps[m.alt]| + m.width);
    assert '\n' in Strip(g) ==> '\n' in g by {
      if '\n' in Strip(g) {
        CharOfSubstring(Strip(g), g, '\n');
      }
    }
    Strip(g)
  }

  /** `m.group(1).strip()` if the pattern matches, else `None`. */
  function Extract(s: string, ps: seq<string>): (r: Option<string>)
    ensures r.Some? <==> exists m :: IsMatch(s, ps, m)
    ensures r.Some? ==> '\n' !in r.value && Trimmed(r.value)
    ensures r.Some? ==> IsSubstring(r.value, s)
    ensures r.Some? ==> FirstMatch(s, ps).Some? && r.value == Strip(Group(s, ps, FirstMatch(s, ps).value))
    ensures r.Some? ==> exists m :: Preferred(s, ps, m) && r.value == Strip(Group(s, ps, m))
  {
    match FirstMatch(s, ps)
    case None => None
    case Some(m) =>
      assert Preferred(s, ps, m);
      Some(StrippedGroup(s, ps, m))
  }

  /** A stripped piece of the line is part of the line. */
  lemma StrippedPieceIsPart(g: string, s: string, off: nat)
    requires OccursAt(g, s, off)
    ensures IsSubstring(Strip(g), s)
  {
    StripOccurs(g);
    OccursAtCompose(Strip(g), g, s, LeadingSpaces(g), off);
  }

  /** `parse_title(title_str)`: the title is always there; the collector
      and the translator are there exactly when their patterns match. */
  function ParseTitle(s: string): (md: Metadata)
    ensures md.title != [] && '.' !in md.title && Trimmed(md.title)
    ensures md.collector.Some? <==> exists m :: IsMatch(s, CollectorPrefixes, m)
    ensures md.translator.Some? <==> exists m :: IsMatch(s, TranslatorPrefixes, m)
    ensures md.collector.Some? ==> '\n' !in md.collector.value && Trimmed(md.collector.value)
    ensures md.translator.Some? ==> '\n' !in md.translator.value && Trimmed(md.translator.value)
    ensures md.collector.Some? ==>
      exists m :: Preferred(s, CollectorPrefixes, m) && md.collector.value == Strip(Group(s, CollectorPrefixes, m))
    ensures md.translator.Some? ==>
      exists m :: Preferred(s, TranslatorPrefixes, m) && md.translator.value == Strip(Group(s, TranslatorPrefixes, m))
  {
    Metadata(Title(s), Extract(s, CollectorPrefixes), Extract(s, TranslatorPrefixes))
  }
}
