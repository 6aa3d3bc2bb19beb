/** The `/search` handler's core (app.py:70-128): exact-lemma search and
    entity search over the in-memory corpus, each returning one hit per
    distinct sentence text. */
module Search {
  import opened Wrappers
  import opened Text
  import opened Corpus

  /** One result row. A lemma hit carries the tale's stored id; an entity
      hit carries the stripped url it was found under. */
  datatype Hit =
    | LemmaHit(taleId: string, title: string, context: string, query: string)
    | EntityHit(taleId: string, title: string, context: string, entityType: string, entityText: string)

  // ---------------------------------------------------------------------
  // The seen-contexts pass shared by both modes (app.py:75, 92-93, 119-120)

  predicate DistinctContexts(hs: seq<Hit>) {
    forall i, j :: 0 <= i < j < |hs| ==> hs[i].context != hs[j].context
  }

  /** No earlier candidate has the context of candidate `j`. */
  predicate FirstOfContext(cands: seq<Hit>, j: int)
    requires 0 <= j < |cands|
  {
    forall k :: 0 <= k < j ==> cands[k].context != cands[j].context
  }

  /** Some hit of `hs` has sentence text `text`. */
  predicate Emitted(hs: seq<Hit>, text: string) {
    exists i :: 0 <= i < |hs| && hs[i].context == text
  }

  /** Walks the candidate hits in order with the set `seen` of sentence
      texts already reported, keeping a candidate only when its text is new
      and adding its text to the set. */
  function Emit(cands: seq<Hit>, seen: set<string>): seq<Hit> {
    if cands == [] then []
    else
      var c := cands[0];
      if c.context in seen then Emit(cands[1..], seen)
      else [c] + Emit(cands[1..], seen + {c.context})
  }

  /** The result is made of unseen candidates, has pairwise distinct texts,
      and contains the first candidate of every unseen text. */
  lemma {:induction false} EmitSpec(cands: seq<Hit>, seen: set<string>)
    ensures forall h :: h in Emit(cands, seen) ==> h in cands && h.context !in seen
    ensures DistinctContexts(Emit(cands, seen))
    ensures forall j :: 0 <= j < |cands| && cands[j].context !in seen && FirstOfContext(cands, j) ==>
      cands[j] in Emit(cands, seen)
  {
    if cands != [] {
      var c := cands[0];
      if c.context in seen {
        EmitSpec(cands[1..], seen);
        assert forall j :: 1 <= j < |cands| && FirstOfContext(cands, j) ==> FirstOfContext(cands[1..], j - 1);
      } else {
        EmitSpec(cands[1..], seen + {c.context});
        assert forall j :: 1 <= j < |cands| && FirstOfContext(cands, j) ==>
          FirstOfContext(cands[1..], j - 1) && cands[j].context != c.context;
      }
    }
  }

  /** Every unseen sentence text among the candidates is reported: a
      candidate is dropped only because its text was emitted before. */
  lemma {:induction false} EmitCovers(cands: seq<Hit>, seen: set<string>, j: int)
    requires 0 <= j < |cands| && cands[j].context !in seen
    ensures Emitted(Emit(cands, seen), cands[j].context)
  {
    var r := Emit(cands, seen);
    var c := cands[0];
    if c.context in seen {
      EmitCovers(cands[1..], seen, j - 1);
      var i :| 0 <= i < |Emit(cands[1..], seen)| && Emit(cands[1..], seen)[i].context == cands[j].context;
      assert r[i].context == cands[j].context;
    } else if c.context == cands[j].context {
      assert r[0].context == cands[j].context;
    } else {
      var rest := Emit(cands[1..], seen + {c.context});
      EmitCovers(cands[1..], seen + {c.context}, j - 1);
      var i :| 0 <= i < |rest| && rest[i].context == cands[j].context;
      assert r[i + 1].context == cands[j].context;
    }
  }

  /** The reference definition of what the seen-set pass keeps, by
      position: among the first `n` candidates, in increasing position,
      those whose text is unseen and carried by no earlier candidate. */
  function FirstsUpTo(cands: seq<Hit>, seen: set<string>, n: nat): seq<Hit>
    requires n <= |cands|
  {
    if n == 0 then []
    else
      FirstsUpTo(cands, seen, n - 1) +
        (if cands[n - 1].context !in seen && FirstOfContext(cands, n - 1) then [cands[n - 1]] else [])
  }

  /** The pass keeps exactly the reference selection, in candidate order. */
  lemma EmitIsFirsts(cands: seq<Hit>, seen: set<string>)
    ensures Emit(cands, seen) == FirstsUpTo(cands, seen, |cands|)
  {
    EmitPrefixIsFirsts(cands, seen, |cands|);
    assert cands[..|cands|] == cands;
  }

  lemma {:induction false} EmitPrefixIsFirsts(cands: seq<Hit>, seen: set<string>, n: nat)
    requires n <= |cands|
    ensures Emit(cands[..n], seen) == FirstsUpTo(cands, seen, n)
  {
    if n > 0 {
      var c := cands[n - 1];
      EmitPrefixIsFirsts(cands, seen, n - 1);
      assert cands[..n] == cands[..n - 1] + [c];
      EmitSnoc(cands[..n - 1], c, seen);
      FirstOfContextSet(cands, n - 1);
    }
  }

  /** Candidate `j` is the first of its text exactly when no candidate
      before it carries that text. */
  lemma FirstOfContextSet(cands: seq<Hit>, j: int)
    requires 0 <= j < |cands|
    ensures FirstOfContext(cands, j) <==> cands[j].context !in ContextSet(cands[..j])
  {
    if cands[j].context in ContextSet(cands[..j]) {
      var h :| h in cands[..j] && h.context == cands[j].context;
      var k :| 0 <= k < j && cands[..j][k] == h;
      assert cands[k].context == cands[j].context;
    }
    if !FirstOfContext(cands, j) {
      var k :| 0 <= k < j && cands[k].context == cands[j].context;
      assert cands[..j][k] == cands[k];
      assert cands[k] in cands[..j];
    }
  }

  /** `a` can be obtained from `b` by deleting elements. */
  predicate IsSubsequence<T(==)>(a: seq<T>, b: seq<T>)
    decreases |b|
  {
    if a == [] then true
    else if b == [] then false
    else (a[0] == b[0] && IsSubsequence(a[1..], b[1..])) || IsSubsequence(a, b[1..])
  }

  /** The reported hits keep the order of the candidates. */
  lemma {:induction false} EmitIsSubsequence(cands: seq<Hit>, seen: set<string>)
    ensures IsSubsequence(Emit(cands, seen), cands)
  {
    if cands != [] {
      var c := cands[0];
      if c.context in seen {
        EmitIsSubsequence(cands[1..], seen);
      } else {
        EmitIsSubsequence(cands[1..], seen + {c.context});
        var r := Emit(cands, seen);
        assert r[0] == c && r[1..] == Emit(cands[1..], seen + {c.context});
      }
    }
  }

  /** The sentence texts of a list of hits. */
  function ContextSet(hs: seq<Hit>): set<string> {
    set h | h in hs :: h.context
  }

  /** The texts reported are those of the candidates, minus the seen ones. */
  lemma {:induction false} EmitContexts(cands: seq<Hit>, seen: set<string>)
    ensures ContextSet(Emit(cands, seen)) == ContextSet(cands) - seen
  {
    if cands != [] {
      var c := cands[0];
      assert ContextSet(cands) == {c.context} + ContextSet(cands[1..]);
      if c.context in seen {
        EmitContexts(cands[1..], seen);
      } else {
        EmitContexts(cands[1..], seen + {c.context});
        assert ContextSet([c] + Emit(cands[1..], seen + {c.context})) ==
          {c.context} + ContextSet(Emit(cands[1..], seen + {c.context}));
      }
    }
  }

  /** One more candidate is reported exactly when its text is neither seen
      nor carried by an earlier candidate: the step the source's loop takes. */
  lemma {:induction false} EmitSnoc(cands: seq<Hit>, c: Hit, seen: set<string>)
    ensures Emit(cands + [c], seen) ==
      Emit(cands, seen) + (if c.context in seen || c.context in ContextSet(cands) then [] else [c])
  {
    if cands == [] {
      assert cands + [c] == [c];
    } else {
      var d := cands[0];
      assert (cands + [c])[0] == d && (cands + [c])[1..] == cands[1..] + [c];
      assert ContextSet(cands) == {d.context} + ContextSet(cands[1..]);
      if d.context in seen {
        EmitSnoc(cands[1..], c, seen);
      } else {
        EmitSnoc(cands[1..], c, seen + {d.context});
      }
    }
  }

  /** Walking two candidate lists one after the other: the second is walked
      with the texts of the first added to the seen set. */
  lemma {:induction false} EmitAppend(a: seq<Hit>, b: seq<Hit>, seen: set<string>)
    ensures Emit(a + b, seen) == Emit(a, seen) + Emit(b, seen + ContextSet(a))
  {
    if a == [] {
      assert a + b == b;
      assert seen + ContextSet(a) == seen;
    } else {
      var c := a[0];
      assert (a + b)[0] == c && (a + b)[1..] == a[1..] + b;
      ContextSetCons(a);
      var seen' := if c.context in seen then seen else seen + {c.context};
      EmitAppend(a[1..], b, seen');
      assert seen' + ContextSet(a[1..]) == seen + ContextSet(a);
    }
  }

  lemma ContextSetCons(a: seq<Hit>)
    requires a != []
    ensures ContextSet(a) == {a[0].context} + ContextSet(a[1..])
  {
    forall x | x in ContextSet(a)
      ensures x == a[0].context || x in ContextSet(a[1..])
    {
      var h :| h in a && h.context == x;
      if h != a[0] {
        assert h in a[1..];
      }
    }
    assert a[0] in a;
    forall x | x in ContextSet(a[1..])
      ensures x in ContextSet(a)
    {
      var h :| h in a[1..] && h.context == x;
      assert h in a;
    }
  }

  // ---------------------------------------------------------------------
  // Lemma mode (app.py:86-100)

  /** Some token of the sentence has exactly the lemma `q`. */
  predicate HasLemma(s: Sentence, q: string) {
    exists t :: t in s.tokens && t.lemmaForm == q
  }

  /** The candidate hits of one tale: one per sentence with a matching
      token, in sentence order. */
  function LemmaHitsIn(t: Tale, sents: seq<Sentence>, q: string, query: string): seq<Hit> {
    if sents == [] then []
    else
      var s := sents[0];
      var here := if HasLemma(s, q) then [LemmaHit(t.id, t.metadata.title, s.text, query)] else [];
      here + LemmaHitsIn(t, sents[1..], q, query)
  }

  /** A tale's candidates are exactly its sentences holding the lemma. */
  lemma {:induction false} LemmaHitsInSpec(t: Tale, sents: seq<Sentence>, q: string, query: string)
    ensures forall h :: h in LemmaHitsIn(t, sents, q, query) ==>
      h == LemmaHit(t.id, t.metadata.title, h.context, query) &&
      exists s :: s in sents && s.text == h.context && HasLemma(s, q)
    ensures forall s :: s in sents && HasLemma(s, q) ==>
      LemmaHit(t.id, t.metadata.title, s.text, query) in LemmaHitsIn(t, sents, q, query)
  {
    if sents != [] {
      LemmaHitsInSpec(t, sents[1..], q, query);
      assert forall s :: s in sents ==> s == sents[0] || s in sents[1..];
    }
  }

  /** One sentence more gives at most one candidate more: the sentence's
      own hit, appended after those of the earlier sentences. */
  lemma LemmaHitsInSnoc(t: Tale, sents: seq<Sentence>, s: Sentence, q: string, query: string)
    ensures LemmaHitsIn(t, sents + [s], q, query) ==
      LemmaHitsIn(t, sents, q, query) + (if HasLemma(s, q) then [LemmaHit(t.id, t.metadata.title, s.text, query)] else [])
  {
    LemmaHitsInAppend(t, sents, [s], q, query);
    assert [s][1..] == [];
  }

  /** `h` reports a sentence of tale `t` containing a token with lemma `q`. */
  ghost predicate LemmaMatchIn(t: Tale, q: string, h: Hit) {
    && h.taleId == t.id
    && h.title == t.metadata.title
    && exists s :: s in t.sentences && s.text == h.context && HasLemma(s, q)
  }

  /** What every lemma-mode hit promises. */
  ghost predicate LemmaSound(idx: TaleIndex, q: string, query: string, h: Hit) {
    && h.LemmaHit?
    && h.query == query
    && exists k :: k in idx.at && LemmaMatchIn(idx.at[k], q, h)
  }

  /** The candidate hits of the tales under `keys`, tale after tale. */
  function LemmaCandidates(idx: TaleIndex, keys: seq<string>, q: string, query: string): seq<Hit>
    requires forall k :: k in keys ==> k in idx.at
  {
    if keys == [] then []
    else
      var t := idx.at[keys[0]];
      LemmaHitsIn(t, t.sentences, q, query) + LemmaCandidates(idx, keys[1..], q, query)
  }

  /** Every candidate is sound, and every matching sentence of a listed tale
      yields a candidate. */
  lemma {:induction false} LemmaCandidatesSpec(idx: TaleIndex, keys: seq<string>, q: string, query: string)
    requires forall k :: k in keys ==> k in idx.at
    ensures forall h :: h in LemmaCandidates(idx, keys, q, query) ==> LemmaSound(idx, q, query, h)
    ensures forall k, s :: k in keys && s in idx.at[k].sentences && HasLemma(s, q) ==>
      LemmaHit(idx.at[k].id, idx.at[k].metadata.title, s.text, query) in LemmaCandidates(idx, keys, q, query)
  {
    if keys != [] {
      var t := idx.at[keys[0]];
      var here := LemmaHitsIn(t, t.sentences, q, query);
      LemmaHitsInSpec(t, t.sentences, q, query);
      LemmaCandidatesSpec(idx, keys[1..], q, query);
      assert forall h :: h in here ==> LemmaMatchIn(idx.at[keys[0]], q, h);
      assert forall k :: k in keys ==> k == keys[0] || k in keys[1..];
    }
  }

  /** The lemma branch, for an already stripped, non-empty query: hits in
      index order then sentence order, one per new sentence text. */
  function LemmaSearch(idx: TaleIndex, query: string): seq<Hit>
    requires idx.Valid()
  {
    Emit(LemmaCandidates(idx, idx.keys, Lower(query), query), {})
  }

  /** Every lemma-mode hit is sound, no sentence text is reported twice, and
      every sentence of every tale holding the lemma has its text reported. */
  lemma LemmaSearchSpec(idx: TaleIndex, query: string)
    requires idx.Valid()
    ensures forall h :: h in LemmaSearch(idx, query) ==> LemmaSound(idx, Lower(query), query, h)
    ensures DistinctContexts(LemmaSearch(idx, query))
    ensures forall k, s :: k in idx.at && s in idx.at[k].sentences && HasLemma(s, Lower(query)) ==>
      Emitted(LemmaSearch(idx, query), s.text)
  {
    var q := Lower(query);
    var cands := LemmaCandidates(idx, idx.keys, q, query);
    var r := Emit(cands, {});
    LemmaCandidatesSpec(idx, idx.keys, q, query);
    EmitSpec(cands, {});
    assert forall k, s :: k in idx.at && s in idx.at[k].sentences && HasLemma(s, q) ==>
      LemmaHit(idx.at[k].id, idx.at[k].metadata.title, s.text, query) in cands;
    CoversAll(cands, r);
  }

  /** Stored lemmas are lower-cased when the corpus is built
      (relemmatize_spacy.py:62), so a stored lemma used as the query finds
      every sentence that carries it. */
  lemma StoredLemmaFindsItself(idx: TaleIndex, k: string, s: Sentence, tok: Token, w: string)
    requires idx.Valid() && k in idx.at && s in idx.at[k].sentences
    requires tok in s.tokens && tok.lemmaForm == Lower(w)
    ensures Emitted(LemmaSearch(idx, tok.lemmaForm), s.text)
  {
    LowerIdempotent(w);
    assert HasLemma(s, Lower(tok.lemmaForm));
    LemmaSearchSpec(idx, tok.lemmaForm);
  }

  /** Helper: `Emit(cands, {})` reports every candidate's text. */
  lemma CoversAll(cands: seq<Hit>, r: seq<Hit>)
    requires r == Emit(cands, {})
    ensures forall h :: h in cands ==> Emitted(r, h.context)
  {
    forall h | h in cands
      ensures Emitted(r, h.context)
    {
      var j :| 0 <= j < |cands| && cands[j] == h;
      EmitCovers(cands, {}, j);
    }
  }

  /** Candidates follow sentence order inside a tale ... */
  lemma {:induction false} LemmaHitsInAppend(t: Tale, a: seq<Sentence>, b: seq<Sentence>, q: string, query: string)
    ensures LemmaHitsIn(t, a + b, q, query) == LemmaHitsIn(t, a, q, query) + LemmaHitsIn(t, b, q, query)
  {
    if a == [] {
      assert a + b == b;
    } else {
      assert (a + b)[0] == a[0] && (a + b)[1..] == a[1..] + b;
      LemmaHitsInAppend(t, a[1..], b, q, query);
    }
  }

  /** ... and index order across tales. */
  lemma {:induction false} LemmaCandidatesAppend(idx: TaleIndex, a: seq<string>, b: seq<string>, q: string, query: string)
    requires forall k :: k in a + b ==> k in idx.at
    ensures LemmaCandidates(idx, a + b, q, query) == LemmaCandidates(idx, a, q, query) + LemmaCandidates(idx, b, q, query)
  {
    if a == [] {
      assert a + b == b;
    } else {
      assert (a + b)[0] == a[0] && (a + b)[1..] == a[1..] + b;
      LemmaCandidatesAppend(idx, a[1..], b, q, query);
    }
  }

  /** The lemma-mode result is the candidate stream with repeated sentence
      texts removed, in the same order, the first candidate of each text
      being the one kept. */
  lemma LemmaSearchOrder(idx: TaleIndex, query: string)
    requires idx.Valid()
    ensures var cands := LemmaCandidates(idx, idx.keys, Lower(query), query);
      var r := LemmaSearch(idx, query);
      && IsSubsequence(r, cands)
      && (forall j :: 0 <= j < |cands| && FirstOfContext(cands, j) ==> cands[j] in r)
      && r == FirstsUpTo(cands, {}, |cands|)
  {
    EmitIsSubsequence(LemmaCandidates(idx, idx.keys, Lower(query), query), {});
    EmitSpec(LemmaCandidates(idx, idx.keys, Lower(query), query), {});
    EmitIsFirsts(LemmaCandidates(idx, idx.keys, Lower(query), query), {});
  }

  // ---------------------------------------------------------------------
  // Entity mode (app.py:102-128)

  /** The entity passes the query and type filter of app.py:110-113. */
  predicate EntityMatches(e: Entity, q: string, filter: string) {
    IsSubstring(q, Lower(e.text)) && (filter == "" || TypeName(e.kind) == filter)
  }

  /** `matched_entities`: the entities of one group passing the tests, in
      their list order. */
  function MatchedEntities(es: seq<Entity>, q: string, filter: string): seq<Entity> {
    if es == [] then []
    else (if EntityMatches(es[0], q, filter) then [es[0]] else []) + MatchedEntities(es[1..], q, filter)
  }

  /** The matched entities are exactly the group's entities passing both
      tests. */
  lemma {:induction false} MatchedEntitiesSpec(es: seq<Entity>, q: string, filter: string)
    ensures forall e :: e in MatchedEntities(es, q, filter) <==> e in es && EntityMatches(e, q, filter)
  {
    if es != [] {
      MatchedEntitiesSpec(es[1..], q, filter);
      assert forall e :: e in es <==> e == es[0] || e in es[1..];
    }
  }

  /** The passing entities keep their list order. */
  lemma {:induction false} MatchedEntitiesAppend(a: seq<Entity>, b: seq<Entity>, q: string, filter: string)
    ensures MatchedEntities(a + b, q, filter) == MatchedEntities(a, q, filter) + MatchedEntities(b, q, filter)
  {
    if a == [] {
      assert a + b == b;
    } else {
      assert (a + b)[0] == a[0] && (a + b)[1..] == a[1..] + b;
      MatchedEntitiesAppend(a[1..], b, q, filter);
    }
  }

  /** The entity that wins a sentence: the first of `m`, in list order,
      whose exact text occurs in the sentence text. */
  function FirstOccurring(m: seq<Entity>, text: string): (r: Option<nat>)
    ensures r.Some? ==> r.value < |m| && IsSubstring(m[r.value].text, text)
    ensures r.Some? ==> forall i :: 0 <= i < r.value ==> !IsSubstring(m[i].text, text)
    ensures r.None? ==> forall i :: 0 <= i < |m| ==> !IsSubstring(m[i].text, text)
  {
    if m == [] then None
    else if IsSubstring(m[0].text, text) then Some(0)
    else
      match FirstOccurring(m[1..], text)
      case Some(i) => Some(i + 1)
      case None => None
  }

  /** The entity of `m` that wins sentence text `text`, if any. */
  function Winner(m: seq<Entity>, text: string): (r: Option<Entity>)
    ensures r.Some? ==> r.value in m && IsSubstring(r.value.text, text)
    ensures r.Some? ==>
      exists i :: 0 <= i < |m| && m[i] == r.value && forall j :: 0 <= j < i ==> !IsSubstring(m[j].text, text)
    ensures r.None? <==> forall e :: e in m ==> !IsSubstring(e.text, text)
  {
    match FirstOccurring(m, text)
    case Some(i) => Some(m[i])
    case None => None
  }

  /** The hit for entity `e` found in sentence text `text` of tale `t`
      reached through the stripped url `url`. */
  function EntityHitFor(url: string, t: Tale, text: string, e: Entity): Hit {
    EntityHit(url, t.metadata.title, text, TypeName(e.kind), e.text)
  }

  /** `h` reports a sentence of `t` and an entity of `m` occurring in it,
      namely the one that wins the sentence. */
  ghost predicate EntityMatchIn(url: string, t: Tale, m: seq<Entity>, h: Hit) {
    && h.EntityHit?
    && Winner(m, h.context).Some?
    && h == EntityHitFor(url, t, h.context, Winner(m, h.context).value)
    && h.taleId == url
    && h.title == t.metadata.title
    && (exists s :: s in t.sentences && s.text == h.context)
    && (exists e :: e in m && h.entityText == e.text && h.entityType == TypeName(e.kind))
    && IsSubstring(h.entityText, h.context)
  }

  /** The candidate hits of one tale: per sentence, the first entity of `m`
      that occurs in it. */
  function EntityHitsIn(url: string, t: Tale, m: seq<Entity>, sents: seq<Sentence>): seq<Hit>
    requires forall s :: s in sents ==> s in t.sentences
  {
    if sents == [] then []
    else
      var s := sents[0];
      var here :=
        match Winner(m, s.text)
        case Some(e) => [EntityHitFor(url, t, s.text, e)]
        case None => [];
      here + EntityHitsIn(url, t, m, sents[1..])
  }

  /** A tale's candidates report the winner of each of its sentences, and
      nothing else. */
  lemma {:induction false} EntityHitsInSpec(url: string, t: Tale, m: seq<Entity>, sents: seq<Sentence>)
    requires forall s :: s in sents ==> s in t.sentences
    ensures forall h :: h in EntityHitsIn(url, t, m, sents) ==>
      (exists s :: s in sents && s.text == h.context) && EntityMatchIn(url, t, m, h)
    ensures forall s :: s in sents && Winner(m, s.text).Some? ==>
      EntityHitFor(url, t, s.text, Winner(m, s.text).value) in EntityHitsIn(url, t, m, sents)
  {
    if sents != [] {
      var s0 := sents[0];
      EntityHitsInSpec(url, t, m, sents[1..]);
      var w := Winner(m, s0.text);
      if w.Some? {
        assert EntityMatchIn(url, t, m, EntityHitFor(url, t, s0.text, w.value));
      }
      assert forall s :: s in sents ==> s == s0 || s in sents[1..];
    }
  }

  /** One sentence more gives at most one candidate more: the hit of its
      winning entity, appended after those of the earlier sentences. */
  lemma EntityHitsInSnoc(url: string, t: Tale, m: seq<Entity>, sents: seq<Sentence>, s: Sentence)
    requires forall x :: x in sents + [s] ==> x in t.sentences
    ensures EntityHitsIn(url, t, m, sents + [s]) ==
      EntityHitsIn(url, t, m, sents) +
        (if Winner(m, s.text).Some? then [EntityHitFor(url, t, s.text, Winner(m, s.text).value)] else [])
  {
    EntityHitsInAppend(url, t, m, sents, [s]);
    assert [s][1..] == [];
  }

  /** What one entity group contributes (app.py:105-128): nothing when its
      url has no tale or none of its entities passes the tests. */
  function GroupHits(idx: TaleIndex, url: string, es: seq<Entity>, q: string, filter: string): seq<Hit> {
    match idx.Get(url)
    case None => []
    case Some(t) =>
      var m := MatchedEntities(es, q, filter);
      if m == [] then [] else EntityHitsIn(url, t, m, t.sentences)
  }

  /** A group reports only its own tale and matched entities, and reports
      every sentence of that tale some matched entity occurs in. */
  lemma GroupHitsSpec(idx: TaleIndex, url: string, es: seq<Entity>, q: string, filter: string)
    ensures forall h :: h in GroupHits(idx, url, es, q, filter) ==>
      url in idx.at && EntityMatchIn(url, idx.at[url], MatchedEntities(es, q, filter), h)
    ensures url !in idx.at || MatchedEntities(es, q, filter) == [] ==> GroupHits(idx, url, es, q, filter) == []
    ensures url in idx.at ==> forall s :: s in idx.at[url].sentences && Winner(MatchedEntities(es, q, filter), s.text).Some? ==>
      EntityHitFor(url, idx.at[url], s.text, Winner(MatchedEntities(es, q, filter), s.text).value) in GroupHits(idx, url, es, q, filter)
  {
    if url in idx.at {
      var t := idx.at[url];
      EntityHitsInSpec(url, t, MatchedEntities(es, q, filter), t.sentences);
    }
  }

  /** What every entity-mode hit promises. */
  ghost predicate EntitySound(idx: TaleIndex, ents: EntityIndex, q: string, filter: string, h: Hit) {
    && h.taleId in ents.at
    && h.taleId in idx.at
    && EntityMatchIn(h.taleId, idx.at[h.taleId], MatchedEntities(ents.at[h.taleId], q, filter), h)
  }

  /** The candidate hits of the groups under `urls`, group after group. */
  function EntityCandidates(idx: TaleIndex, ents: EntityIndex, urls: seq<string>, q: string, filter: string): seq<Hit>
    requires forall u :: u in urls ==> u in ents.at
  {
    if urls == [] then []
    else GroupHits(idx, urls[0], ents.at[urls[0]], q, filter) + EntityCandidates(idx, ents, urls[1..], q, filter)
  }

  /** Every candidate is sound, and every sentence of a listed group's tale
      holding a matched entity yields a candidate. */
  lemma {:induction false} EntityCandidatesSpec(idx: TaleIndex, ents: EntityIndex, urls: seq<string>, q: string, filter: string)
    requires forall u :: u in urls ==> u in ents.at
    ensures forall h :: h in EntityCandidates(idx, ents, urls, q, filter) ==> EntitySound(idx, ents, q, filter, h)
    ensures forall u, s ::
      (u in urls && u in idx.at && s in idx.at[u].sentences &&
       Winner(MatchedEntities(ents.at[u], q, filter), s.text).Some?) ==>
      EntityHitFor(u, idx.at[u], s.text, Winner(MatchedEntities(ents.at[u], q, filter), s.text).value)
        in EntityCandidates(idx, ents, urls, q, filter)
  {
    if urls != [] {
      GroupHitsSpec(idx, urls[0], ents.at[urls[0]], q, filter);
      EntityCandidatesSpec(idx, ents, urls[1..], q, filter);
      assert forall u :: u in urls ==> u == urls[0] || u in urls[1..];
    }
  }

  /** The entity branch, for an already stripped, non-empty query and the
      lower-cased filter. */
  function EntitySearch(idx: TaleIndex, ents: EntityIndex, query: string, filter: string): seq<Hit>
    requires ents.Valid()
  {
    Emit(EntityCandidates(idx, ents, ents.keys, Lower(query), filter), {})
  }

  /** Every entity-mode hit is sound, no sentence text is reported twice,
      and every sentence of an indexed tale holding a matched entity of its
      group has its text reported. */
  lemma EntitySearchSpec(idx: TaleIndex, ents: EntityIndex, query: string, filter: string)
    requires ents.Valid()
    ensures forall h :: h in EntitySearch(idx, ents, query, filter) ==> EntitySound(idx, ents, Lower(query), filter, h)
    ensures forall h :: h in EntitySearch(idx, ents, query, filter) ==> EntityFacts(idx, ents, Lower(query), filter, h)
    ensures DistinctContexts(EntitySearch(idx, ents, query, filter))
    ensures forall u, s ::
      (u in ents.at && u in idx.at && s in idx.at[u].sentences &&
       Winner(MatchedEntities(ents.at[u], Lower(query), filter), s.text).Some?) ==>
      Emitted(EntitySearch(idx, ents, query, filter), s.text)
  {
    var q := Lower(query);
    var cands := EntityCandidates(idx, ents, ents.keys, q, filter);
    var r := Emit(cands, {});
    EntityCandidatesSpec(idx, ents, ents.keys, q, filter);
    EmitSpec(cands, {});
    CoversAll(cands, r);
    EntitySoundFacts(idx, ents, q, filter, r);
  }

  /** The entity a hit reports is the first matched entity of its group,
      in list order, whose text occurs in the sentence. */
  lemma EntityHitIsFirstMatch(idx: TaleIndex, ents: EntityIndex, query: string, filter: string)
    requires ents.Valid()
    ensures forall h :: h in EntitySearch(idx, ents, query, filter) ==>
      h.EntityHit? && h.taleId in ents.at &&
      FirstOccurringIs(MatchedEntities(ents.at[h.taleId], Lower(query), filter), h)
  {
    EntitySearchSpec(idx, ents, query, filter);
    forall h | h in EntitySearch(idx, ents, query, filter)
      ensures h.EntityHit? && h.taleId in ents.at &&
        FirstOccurringIs(MatchedEntities(ents.at[h.taleId], Lower(query), filter), h)
    {
      assert EntitySound(idx, ents, Lower(query), filter, h);
      WinnerIsFirstOccurring(MatchedEntities(ents.at[h.taleId], Lower(query), filter), h.taleId, idx.at[h.taleId], h);
    }
  }

  /** Some entity of `m` reported by `h` occurs in `h`'s sentence and no
      entity before it in `m` does. */
  ghost predicate FirstOccurringIs(m: seq<Entity>, h: Hit)
    requires h.EntityHit?
  {
    exists i :: 0 <= i < |m| && m[i].text == h.entityText && TypeName(m[i].kind) == h.entityType &&
      IsSubstring(m[i].text, h.context) &&
      forall j :: 0 <= j < i ==> !IsSubstring(m[j].text, h.context)
  }

  lemma WinnerIsFirstOccurring(m: seq<Entity>, url: string, t: Tale, h: Hit)
    requires EntityMatchIn(url, t, m, h)
    ensures FirstOccurringIs(m, h)
  {
    var w := Winner(m, h.context).value;
    var i :| 0 <= i < |m| && m[i] == w && forall j :: 0 <= j < i ==> !IsSubstring(m[j].text, h.context);
    assert m[i].text == h.entityText && TypeName(m[i].kind) == h.entityType;
  }

  /** The plain guarantees of an entity hit: it names an indexed tale and an
      entity group, its type is "per" or "loc" and equals a non-empty filter,
      the query occurs case-insensitively in the entity text, and the entity
      text occurs case-sensitively in the reported sentence. */
  ghost predicate EntityFacts(idx: TaleIndex, ents: EntityIndex, q: string, filter: string, h: Hit) {
    && h.EntityHit?
    && h.taleId in idx.at
    && h.taleId in ents.at
    && (h.entityType == "per" || h.entityType == "loc")
    && (filter != "" ==> h.entityType == filter)
    && IsSubstring(q, Lower(h.entityText))
    && IsSubstring(h.entityText, h.context)
  }

  lemma EntitySoundFacts(idx: TaleIndex, ents: EntityIndex, q: string, filter: string, r: seq<Hit>)
    requires forall h :: h in r ==> EntitySound(idx, ents, q, filter, h)
    ensures forall h :: h in r ==> EntityFacts(idx, ents, q, filter, h)
  {
    forall h | h in r
      ensures EntityFacts(idx, ents, q, filter, h)
    {
      var m := MatchedEntities(ents.at[h.taleId], q, filter);
      var e :| e in m && h.entityText == e.text && h.entityType == TypeName(e.kind);
      MatchedEntitiesSpec(ents.at[h.taleId], q, filter);
      assert EntityMatches(e, q, filter);
    }
  }

  /** A filter other than "", "per" and "loc" (say "location" or "person")
      matches nothing, since normalised types are only "per" and "loc". */
  lemma UnknownFilterFindsNothing(idx: TaleIndex, ents: EntityIndex, query: string, filter: string)
    requires ents.Valid()
    requires filter != "" && filter != "per" && filter != "loc"
    ensures EntitySearch(idx, ents, query, filter) == []
  {
    NoCandidateOfType(idx, ents, ents.keys, Lower(query), filter);
  }

  lemma {:induction false} NoCandidateOfType(idx: TaleIndex, ents: EntityIndex, urls: seq<string>, q: string, filter: string)
    requires forall u :: u in urls ==> u in ents.at
    requires filter != "" && filter != "per" && filter != "loc"
    ensures EntityCandidates(idx, ents, urls, q, filter) == []
  {
    if urls != [] {
      NoEntityOfType(ents.at[urls[0]], q, filter);
      NoCandidateOfType(idx, ents, urls[1..], q, filter);
    }
  }

  lemma {:induction false} NoEntityOfType(es: seq<Entity>, q: string, filter: string)
    requires filter != "" && filter != "per" && filter != "loc"
    ensures MatchedEntities(es, q, filter) == []
  {
    if es != [] {
      NoEntityOfType(es[1..], q, filter);
    }
  }

  /** Candidates follow sentence order inside a tale ... */
  lemma {:induction false} EntityHitsInAppend(url: string, t: Tale, m: seq<Entity>, a: seq<Sentence>, b: seq<Sentence>)
    requires forall s :: s in a + b ==> s in t.sentences
    ensures EntityHitsIn(url, t, m, a + b) == EntityHitsIn(url, t, m, a) + EntityHitsIn(url, t, m, b)
  {
    if a == [] {
      assert a + b == b;
    } else {
      assert (a + b)[0] == a[0] && (a + b)[1..] == a[1..] + b;
      EntityHitsInAppend(url, t, m, a[1..], b);
    }
  }

  /** ... and entity-file order across groups. */
  lemma {:induction false} EntityCandidatesAppend(idx: TaleIndex, ents: EntityIndex, a: seq<string>, b: seq<string>, q: string, filter: string)
    requires forall u :: u in a + b ==> u in ents.at
    ensures EntityCandidates(idx, ents, a + b, q, filter) ==
      EntityCandidates(idx, ents, a, q, filter) + EntityCandidates(idx, ents, b, q, filter)
  {
    if a == [] {
      assert a + b == b;
    } else {
      assert (a + b)[0] == a[0] && (a + b)[1..] == a[1..] + b;
      EntityCandidatesAppend(idx, ents, a[1..], b, q, filter);
    }
  }

  /** The entity-mode result is the candidate stream with repeated
      sentence texts removed, in the same order, the first candidate of
      each text being the one kept. */
  lemma EntitySearchOrder(idx: TaleIndex, ents: EntityIndex, query: string, filter: string)
    requires ents.Valid()
    ensures var cands := EntityCandidates(idx, ents, ents.keys, Lower(query), filter);
      var r := EntitySearch(idx, ents, query, filter);
      && IsSubsequence(r, cands)
      && (forall j :: 0 <= j < |cands| && FirstOfContext(cands, j) ==> cands[j] in r)
      && r == FirstsUpTo(cands, {}, |cands|)
  {
    EmitIsSubsequence(EntityCandidates(idx, ents, ents.keys, Lower(query), filter), {});
    EmitSpec(EntityCandidates(idx, ents, ents.keys, Lower(query), filter), {});
    EmitIsFirsts(EntityCandidates(idx, ents, ents.keys, Lower(query), filter), {});
  }

  // ---------------------------------------------------------------------
  // The request (app.py:70-86, 102)

  /** The search request: `rawQuery` is stripped, `rawFilter` lower-cased
      (not stripped), and `mode` compared exactly. */
  function SearchRequest(idx: TaleIndex, ents: EntityIndex, rawQuery: string, mode: string, rawFilter: string): (r: seq<Hit>)
    requires idx.Valid() && ents.Valid()
    ensures Strip(rawQuery) == "" ==> r == []
    ensures mode != "lemma" && mode != "entity" ==> r == []
    ensures DistinctContexts(r)
    ensures mode == "lemma" ==> forall h :: h in r ==>
      LemmaSound(idx, Lower(Strip(rawQuery)), Strip(rawQuery), h)
    ensures mode == "entity" ==> forall h :: h in r ==>
      EntitySound(idx, ents, Lower(Strip(rawQuery)), Lower(rawFilter), h)
  {
    var query := Strip(rawQuery);
    var filter := Lower(rawFilter);
    if query == "" then []
    else if mode == "lemma" then
      LemmaSearchSpec(idx, query);
      LemmaSearch(idx, query)
    else if mode == "entity" then
      EntitySearchSpec(idx, ents, query, filter);
      EntitySearch(idx, ents, query, filter)
    else []
  }
}
