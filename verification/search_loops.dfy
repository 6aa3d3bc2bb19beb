/** The `/search` handler written as the source writes it: nested loops over
    tales, sentences and tokens or entities, a growing result list and the
    set `seen` of sentence texts already reported (app.py:70-128). Each
    method is proved to compute exactly the functional definition in module
    Search, so the loops' early `break`s and the shared `seen` set change
    nothing. */
module SearchLoops {
  import opened Wrappers
  import opened Text
  import opened Corpus
  import opened Search

  lemma ContextSetAppend(a: seq<Hit>, b: seq<Hit>)
    ensures ContextSet(a + b) == ContextSet(a) + ContextSet(b)
  {
  }

  /** Emitting `a + b` after `base`, with `base`'s texts as the seen set,
      is emitting `a` and then `b` with the texts reported so far. */
  lemma EmitStep(base: seq<Hit>, a: seq<Hit>, b: seq<Hit>)
    ensures var mid := base + Emit(a, ContextSet(base));
      base + Emit(a + b, ContextSet(base)) == mid + Emit(b, ContextSet(mid))
  {
    var seen := ContextSet(base);
    var ea := Emit(a, seen);
    var mid := base + ea;
    EmitAppend(a, b, seen);
    EmitContexts(a, seen);
    ContextSetAppend(base, ea);
    var x := seen + ContextSet(a);
    assert ContextSet(mid) == x;
    assert Emit(a + b, seen) == ea + Emit(b, x);
    assert base + (ea + Emit(b, x)) == mid + Emit(b, x);
  }

  /** The same step from an empty result list. */
  lemma EmitStepFromEmpty(a: seq<Hit>, b: seq<Hit>)
    ensures Emit(a + b, {}) == Emit(a, {}) + Emit(b, ContextSet(Emit(a, {})))
  {
    EmitAppend(a, b, {});
    EmitContexts(a, {});
    assert ContextSet(Emit(a, {})) == {} + ContextSet(a);
  }

  /** The token loop with its `break` (app.py:89-94): is there a token with
      lemma `q`? */
  method HasLemmaLoop(sent: Sentence, q: string) returns (found: bool)
    ensures found <==> HasLemma(sent, q)
  {
    found := false;
    var k := 0;
    while k < |sent.tokens|
      invariant 0 <= k <= |sent.tokens|
      invariant forall j :: 0 <= j < k ==> sent.tokens[j].lemmaForm != q
    {
      if sent.tokens[k].lemmaForm == q {
        found := true;
        break;
      }
      k := k + 1;
    }
  }

  /** The sentence loop of one tale (app.py:88-100). */
  method LemmaTaleLoop(tale: Tale, q: string, query: string, results0: seq<Hit>, seen0: set<string>)
    returns (results: seq<Hit>, seen: set<string>)
    requires seen0 == ContextSet(results0)
    ensures results == results0 + Emit(LemmaHitsIn(tale, tale.sentences, q, query), seen0)
    ensures seen == ContextSet(results)
  {
    results, seen := results0, seen0;
    var si := 0;
    while si < |tale.sentences|
      invariant 0 <= si <= |tale.sentences|
      invariant results == results0 + Emit(LemmaHitsIn(tale, tale.sentences[..si], q, query), seen0)
      invariant seen == ContextSet(results)
    {
      var sent := tale.sentences[si];
      assert tale.sentences[..si + 1] == tale.sentences[..si] + [sent];
      LemmaHitsInAppend(tale, tale.sentences[..si], [sent], q, query);
      EmitStep(results0, LemmaHitsIn(tale, tale.sentences[..si], q, query), LemmaHitsIn(tale, [sent], q, query));
      var found := HasLemmaLoop(sent, q);
      if found && sent.text !in seen {
        seen := seen + {sent.text};
        results := results + [LemmaHit(tale.id, tale.metadata.title, sent.text, query)];
      }
      si := si + 1;
    }
    assert tale.sentences[..si] == tale.sentences;
  }

  /** One more tale of the lemma walk. */
  lemma LemmaSearchStep(idx: TaleIndex, ti: nat, q: string, query: string)
    requires idx.Valid() && ti < |idx.keys|
    ensures idx.keys[ti] in idx.at
    ensures var done := Emit(LemmaCandidates(idx, idx.keys[..ti], q, query), {});
      var t := idx.at[idx.keys[ti]];
      Emit(LemmaCandidates(idx, idx.keys[..ti + 1], q, query), {}) ==
        done + Emit(LemmaHitsIn(t, t.sentences, q, query), ContextSet(done))
  {
    var keys, key := idx.keys[..ti], idx.keys[ti];
    assert idx.keys[..ti + 1] == keys + [key];
    var t := idx.at[key];
    LemmaCandidatesAppend(idx, keys, [key], q, query);
    var here := LemmaHitsIn(t, t.sentences, q, query);
    assert [key][1..] == [];
    assert LemmaCandidates(idx, [key], q, query) == here + LemmaCandidates(idx, [], q, query);
    assert here + [] == here;
    EmitStepFromEmpty(LemmaCandidates(idx, keys, q, query), LemmaCandidates(idx, [key], q, query));
  }

  /** The lemma branch (app.py:86-100): every tale in index order. */
  method LemmaSearchLoop(idx: TaleIndex, query: string) returns (results: seq<Hit>)
    requires idx.Valid()
    ensures results == LemmaSearch(idx, query)
  {
    var q := Lower(query);
    results := [];
    var seen: set<string> := {};
    var ti := 0;
    while ti < |idx.keys|
      invariant 0 <= ti <= |idx.keys|
      invariant results == Emit(LemmaCandidates(idx, idx.keys[..ti], q, query), {})
      invariant seen == ContextSet(results)
    {
      var key := idx.keys[ti];
      LemmaSearchStep(idx, ti, q, query);
      results, seen := LemmaTaleLoop(idx.at[key], q, query, results, seen);
      ti := ti + 1;
    }
    assert idx.keys[..ti] == idx.keys;
  }

  /** The entity filter loop (app.py:107-114), with its `continue`. */
  method MatchEntitiesLoop(es: seq<Entity>, q: string, filter: string) returns (m: seq<Entity>)
    ensures m == MatchedEntities(es, q, filter)
  {
    m := [];
    var ei := 0;
    while ei < |es|
      invariant 0 <= ei <= |es|
      invariant m == MatchedEntities(es[..ei], q, filter)
    {
      var ent := es[ei];
      assert es[..ei + 1] == es[..ei] + [ent];
      MatchedEntitiesAppend(es[..ei], [ent], q, filter);
      ei := ei + 1;
      if IsSubstring(q, Lower(ent.text)) {
        if filter != "" && TypeName(ent.kind) != filter {
          continue;
        }
        m := m + [ent];
      }
    }
    assert es[..ei] == es;
  }

  /** The inner entity loop of one sentence (app.py:117-125): the first
      matched entity occurring in the text, unless the text was reported. */
  method PickEntity(m: seq<Entity>, text: string, seen: set<string>) returns (w: Option<Entity>)
    ensures text in seen ==> w == None
    ensures text !in seen ==> w == Winner(m, text)
  {
    w := None;
    var k := 0;
    while k < |m|
      invariant 0 <= k <= |m|
      invariant forall j :: 0 <= j < k ==> !(IsSubstring(m[j].text, text) && text !in seen)
    {
      if IsSubstring(m[k].text, text) && text !in seen {
        w := Some(m[k]);
        break;
      }
      k := k + 1;
    }
  }

  /** One more sentence of an entity group's tale: its hit, if any, is
      reported unless its text already was. */
  lemma EntityTaleStep(url: string, t: Tale, m: seq<Entity>, sents: seq<Sentence>, sent: Sentence, base: seq<Hit>)
    requires forall s :: s in sents + [sent] ==> s in t.sentences
    ensures var mid := base + Emit(EntityHitsIn(url, t, m, sents), ContextSet(base));
      base + Emit(EntityHitsIn(url, t, m, sents + [sent]), ContextSet(base)) ==
        mid + (if sent.text in ContextSet(mid) || Winner(m, sent.text).None? then []
               else [EntityHitFor(url, t, sent.text, Winner(m, sent.text).value)])
  {
    EntityHitsInAppend(url, t, m, sents, [sent]);
    EmitStep(base, EntityHitsIn(url, t, m, sents), EntityHitsIn(url, t, m, [sent]));
    assert [sent][1..] == [];
  }

  /** The sentence loop of one entity group's tale (app.py:116-128). */
  method EntityTaleLoop(url: string, tale: Tale, m: seq<Entity>, results0: seq<Hit>, seen0: set<string>)
    returns (results: seq<Hit>, seen: set<string>)
    requires seen0 == ContextSet(results0)
    ensures results == results0 + Emit(EntityHitsIn(url, tale, m, tale.sentences), seen0)
    ensures seen == ContextSet(results)
  {
    results, seen := results0, seen0;
    var si := 0;
    while si < |tale.sentences|
      invariant 0 <= si <= |tale.sentences|
      invariant results == results0 + Emit(EntityHitsIn(url, tale, m, tale.sentences[..si]), seen0)
      invariant seen == ContextSet(results)
    {
      var sent := tale.sentences[si];
      assert tale.sentences[..si + 1] == tale.sentences[..si] + [sent];
      EntityTaleStep(url, tale, m, tale.sentences[..si], sent, results0);
      var w := PickEntity(m, sent.text, seen);
      if w.Some? {
        var ent := w.value;
        var hit := EntityHit(url, tale.metadata.title, sent.text, TypeName(ent.kind), ent.text);
        ContextSetAppend(results, [hit]);
        seen := seen + {sent.text};
        results := results + [hit];
      }
      si := si + 1;
    }
    assert tale.sentences[..si] == tale.sentences;
  }

  /** One entity group (app.py:105-128): skipped when its url has no tale
      or none of its entities passes. */
  method EntityGroupLoop(idx: TaleIndex, url: string, es: seq<Entity>, q: string, filter: string,
                         results0: seq<Hit>, seen0: set<string>)
    returns (results: seq<Hit>, seen: set<string>)
    requires seen0 == ContextSet(results0)
    ensures results == results0 + Emit(GroupHits(idx, url, es, q, filter), seen0)
    ensures seen == ContextSet(results)
  {
    results, seen := results0, seen0;
    var found := idx.Get(url);
    if found.None? {
      return;
    }
    var tale := found.value;
    var m := MatchEntitiesLoop(es, q, filter);
    if m == [] {
      return;
    }
    results, seen := EntityTaleLoop(url, tale, m, results, seen);
  }

  /** One more group of the entity walk. */
  lemma EntitySearchStep(idx: TaleIndex, ents: EntityIndex, ui: nat, q: string, filter: string)
    requires ents.Valid() && ui < |ents.keys|
    ensures ents.keys[ui] in ents.at
    ensures var url := ents.keys[ui];
      var done := Emit(EntityCandidates(idx, ents, ents.keys[..ui], q, filter), {});
      Emit(EntityCandidates(idx, ents, ents.keys[..ui + 1], q, filter), {}) ==
        done + Emit(GroupHits(idx, url, ents.at[url], q, filter), ContextSet(done))
  {
    var urls, url := ents.keys[..ui], ents.keys[ui];
    assert ents.keys[..ui + 1] == urls + [url];
    var here := GroupHits(idx, url, ents.at[url], q, filter);
    EntityCandidatesAppend(idx, ents, urls, [url], q, filter);
    assert [url][1..] == [];
    assert EntityCandidates(idx, ents, [url], q, filter) == here + EntityCandidates(idx, ents, [], q, filter);
    assert here + [] == here;
    EmitStepFromEmpty(EntityCandidates(idx, ents, urls, q, filter), EntityCandidates(idx, ents, [url], q, filter));
  }

  /** The entity branch (app.py:102-128): every group in entity-file order. */
  method EntitySearchLoop(idx: TaleIndex, ents: EntityIndex, query: string, filter: string) returns (results: seq<Hit>)
    requires ents.Valid()
    ensures results == EntitySearch(idx, ents, query, filter)
  {
    var q := Lower(query);
    results := [];
    var seen: set<string> := {};
    var ui := 0;
    while ui < |ents.keys|
      invariant 0 <= ui <= |ents.keys|
      invariant results == Emit(EntityCandidates(idx, ents, ents.keys[..ui], q, filter), {})
      invariant seen == ContextSet(results)
    {
      var url := ents.keys[ui];
      EntitySearchStep(idx, ents, ui, q, filter);
      results, seen := EntityGroupLoop(idx, url, ents.at[url], q, filter, results, seen);
      ui := ui + 1;
    }
    assert ents.keys[..ui] == ents.keys;
  }

  /** The whole handler body: strip the query, lower-case the filter, and
      dispatch on the exact mode string (app.py:70-86, 102). */
  method HandleSearch(idx: TaleIndex, ents: EntityIndex, rawQuery: string, mode: string, rawFilter: string)
    returns (results: seq<Hit>)
    requires idx.Valid() && ents.Valid()
    ensures results == SearchRequest(idx, ents, rawQuery, mode, rawFilter)
  {
    var query := Strip(rawQuery);
    var filter := Lower(rawFilter);
    if query == "" {
      return [];
    }
    if mode == "lemma" {
      results := LemmaSearchLoop(idx, query);
    } else if mode == "entity" {
      results := EntitySearchLoop(idx, ents, query, filter);
    } else {
      results := [];
    }
  }
}
