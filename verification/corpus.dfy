/** The annotated corpus as the web application holds it in memory: the tale
    index keyed by stripped id, the entity normaliser that turns raw
    `[text, tag]` pairs into person/location entities, the per-url entity
    lists, and lookup of one tale by id (app.py). */
module Corpus {
  import opened Wrappers
  import opened Text
  import opened Dict

  datatype Token = Token(form: string, lemmaForm: string, pos: string)

  datatype Sentence = Sentence(text: string, tokens: seq<Token>)

  datatype Metadata = Metadata(title: string, collector: Option<string>, translator: Option<string>)

  /** One record of the corrected corpus file. `id` is the tale's url as
      stored, not necessarily stripped. */
  datatype Tale = Tale(id: string, metadata: Metadata, sentences: seq<Sentence>)

  /** The two entity classes that survive normalisation. */
  datatype EntityType = Per | Loc

  /** The string stored under "type" and compared with the search filter. */
  function TypeName(t: EntityType): string {
    match t
    case Per => "per"
    case Loc => "loc"
  }

  datatype Entity = Entity(text: string, kind: EntityType)

  /** One element of a group's raw "entities" list: a JSON list, whose first
      element is the entity text and whose second is given as its `str()`,
      or any other JSON value. */
  datatype RawEntity = RawList(items: seq<string>) | NotAList

  /** One value of the raw entity file; `entities` is `None` when the key is
      missing. */
  datatype RawGroup = RawGroup(url: string, entities: Option<seq<RawEntity>>)

  // ---------------------------------------------------------------------
  // Entity normalisation (app.py:24-39)

  /** The tag test of the loading loop: upper-cased "PER" or "LOC" only. */
  function ClassifyTag(tag: string): (r: Option<EntityType>)
    ensures r.Some? ==> TypeName(r.value) == Lower(Upper(tag))
  {
    if Upper(tag) == "PER" then Some(Per)
    else if Upper(tag) == "LOC" then Some(Loc)
    else None
  }

  /** Case-insensitive equality with an all-capital ASCII word. */
  predicate SpellsIgnoringCase(t: string, word: string)
    requires forall i :: 0 <= i < |word| ==> 'A' <= word[i] <= 'Z'
  {
    |t| == |word| && forall i :: 0 <= i < |t| ==> t[i] == word[i] || t[i] as int == word[i] as int + 32
  }

  lemma UpperIsWord(t: string, word: string)
    requires forall i :: 0 <= i < |word| ==> 'A' <= word[i] <= 'Z'
    ensures Upper(t) == word <==> SpellsIgnoringCase(t, word)
  {
    if |t| == |word| {
      forall i | 0 <= i < |t|
        ensures Upper(t)[i] == word[i] <==> t[i] == word[i] || t[i] as int == word[i] as int + 32
      {
        UpperCharAscii(t[i], word[i]);
      }
      if SpellsIgnoringCase(t, word) {
        assert Upper(t) == word;
      }
    }
  }

  /** The tags kept are exactly the ASCII casings of PER and LOC; "PERSON",
      "GPE", "ORG" and everything else are rejected. */
  lemma ClassifyTagCases(tag: string)
    ensures ClassifyTag(tag) == Some(Per) <==> SpellsIgnoringCase(tag, "PER")
    ensures ClassifyTag(tag) == Some(Loc) <==> SpellsIgnoringCase(tag, "LOC")
    ensures ClassifyTag(tag) == None <==>
      !SpellsIgnoringCase(tag, "PER") && !SpellsIgnoringCase(tag, "LOC")
  {
    UpperIsWord(tag, "PER");
    UpperIsWord(tag, "LOC");
  }

  lemma ClassifyTagExamples()
    ensures ClassifyTag("per") == Some(Per)
    ensures ClassifyTag("Loc") == Some(Loc)
    ensures ClassifyTag("PERSON") == None && ClassifyTag("GPE") == None
  {
    ClassifyTagCases("per");
    ClassifyTagCases("Loc");
    assert Upper("GPE") != "PER" && Upper("GPE") != "LOC" by {
      assert Upper("GPE")[0] == 'G';
    }
  }

  /** One raw item: kept only when it is a two-element list with a known tag;
      the text is kept verbatim. */
  function NormalizeEntity(e: RawEntity): (r: Option<Entity>)
    ensures r.Some? <==> e.RawList? && |e.items| == 2 && ClassifyTag(e.items[1]).Some?
    ensures r.Some? ==> r.value == Entity(e.items[0], ClassifyTag(e.items[1]).value)
  {
    match e
    case RawList(items) =>
      if |items| == 2 then
        match ClassifyTag(items[1])
        case Some(k) => Some(Entity(items[0], k))
        case None => None
      else None
    case NotAList => None
  }

  /** What one raw item contributes to its group's list. */
  function Kept(e: RawEntity): seq<Entity> {
    match NormalizeEntity(e)
    case Some(x) => [x]
    case None => []
  }

  /** The inner loop of app.py:28-38: the kept items, normalised, in order. */
  function NormalizeEntities(raw: seq<RawEntity>): (r: seq<Entity>)
    ensures |r| <= |raw|
    ensures forall e :: e in r ==> exists i :: 0 <= i < |raw| && NormalizeEntity(raw[i]) == Some(e)
    ensures forall i :: 0 <= i < |raw| && NormalizeEntity(raw[i]).Some? ==> NormalizeEntity(raw[i]).value in r
  {
    if raw == [] then [] else Kept(raw[0]) + NormalizeEntities(raw[1..])
  }

  /** Normalisation is a filter-map: it distributes over concatenation, so
      the kept entities keep their relative order. */
  lemma {:induction false} NormalizeEntitiesAppend(a: seq<RawEntity>, b: seq<RawEntity>)
    ensures NormalizeEntities(a + b) == NormalizeEntities(a) + NormalizeEntities(b)
  {
    if a != [] {
      var ab := a + b;
      assert ab[0] == a[0] && ab[1..] == a[1..] + b;
      NormalizeEntitiesAppend(a[1..], b);
      assert NormalizeEntities(ab) == Kept(a[0]) + NormalizeEntities(a[1..] + b);
    } else {
      assert a + b == b;
    }
  }

  /** A group whose items are all rejected normalises to the empty list. */
  lemma {:induction false} NormalizeEntitiesEmpty(raw: seq<RawEntity>)
    requires forall i :: 0 <= i < |raw| ==> NormalizeEntity(raw[i]).None?
    ensures NormalizeEntities(raw) == []
  {
    if raw != [] {
      NormalizeEntitiesEmpty(raw[1..]);
    }
  }

  // ---------------------------------------------------------------------
  // The two indexes (app.py:17-18, 24-39)

  type TaleIndex = Dict<Tale>

  type EntityIndex = Dict<seq<Entity>>

  function TalePairs(tales: seq<Tale>): (ps: seq<(string, Tale)>)
    ensures |ps| == |tales|
    ensures forall i :: 0 <= i < |tales| ==> ps[i] == (Strip(tales[i].id), tales[i])
  {
    seq(|tales|, i requires 0 <= i < |tales| => (Strip(tales[i].id), tales[i]))
  }

  /** The stripped ids of the corpus, in corpus order. */
  function StrippedIds(tales: seq<Tale>): (ids: seq<string>)
    ensures |ids| == |tales|
    ensures forall i :: 0 <= i < |tales| ==> ids[i] == Strip(tales[i].id)
  {
    Keys(TalePairs(tales))
  }

  /** No later tale has the same stripped id as tale `i`. */
  ghost predicate LastWithId(tales: seq<Tale>, i: int)
    requires 0 <= i < |tales|
  {
    forall j :: i < j < |tales| ==> Strip(tales[j].id) != Strip(tales[i].id)
  }

  /** `TALES_BY_URL`: the keys are exactly the stripped ids. */
  function BuildTaleIndex(tales: seq<Tale>): (idx: TaleIndex)
    ensures idx.Valid()
    ensures forall k :: k in idx.at <==> k in StrippedIds(tales)
  {
    FromPairs(TalePairs(tales))
  }

  /** A tale is the value of its stripped id when no later tale has the
      same stripped id. */
  lemma TaleIndexLast(tales: seq<Tale>, i: int)
    requires 0 <= i < |tales| && LastWithId(tales, i)
    ensures Strip(tales[i].id) in BuildTaleIndex(tales).at
    ensures BuildTaleIndex(tales).at[Strip(tales[i].id)] == tales[i]
  {
    var ps := TalePairs(tales);
    assert IsLastKey(ps, i) by {
      forall j | i < j < |ps|
        ensures ps[j].0 != ps[i].0
      {
        assert ps[j].0 == Strip(tales[j].id);
      }
    }
    FromPairsAt(ps, i);
  }

  /** Each key is bound to a tale of the corpus whose stripped id is that key. */
  lemma TaleIndexValues(tales: seq<Tale>, k: string)
    requires k in StrippedIds(tales)
    ensures k in BuildTaleIndex(tales).at
    ensures var t := BuildTaleIndex(tales).at[k]; t in tales && Strip(t.id) == k
  {
    var ps := TalePairs(tales);
    FromPairsValue(ps, k);
  }

  /** `TOTAL_TALES`: the number of keys of the index. */
  function TotalTales(idx: TaleIndex): nat {
    |idx.keys|
  }

  /** `TOTAL_TALES` is the number of distinct stripped ids. */
  lemma TotalTalesCountsIds(tales: seq<Tale>)
    ensures TotalTales(BuildTaleIndex(tales)) == |set k | k in StrippedIds(tales)|
  {
    FromPairsSize(TalePairs(tales));
  }

  /** The index lists the stripped ids in the order each first appears. */
  lemma TaleIndexOrder(tales: seq<Tale>)
    ensures FirstOccurrenceOrder(StrippedIds(tales), BuildTaleIndex(tales).keys)
  {
    FromPairsOrder(TalePairs(tales));
  }

  function GroupPairs(groups: seq<RawGroup>): (ps: seq<(string, seq<Entity>)>)
    ensures |ps| == |groups|
    ensures forall i :: 0 <= i < |groups| ==>
      ps[i] == (Strip(groups[i].url), NormalizeEntities(groups[i].entities.GetOr([])))
  {
    seq(|groups|, i requires 0 <= i < |groups| =>
      (Strip(groups[i].url), NormalizeEntities(groups[i].entities.GetOr([]))))
  }

  /** The stripped urls of the entity file, in file order. */
  function StrippedUrls(groups: seq<RawGroup>): (urls: seq<string>)
    ensures |urls| == |groups|
    ensures forall i :: 0 <= i < |groups| ==> urls[i] == Strip(groups[i].url)
  {
    Keys(GroupPairs(groups))
  }

  /** No later group has the same stripped url as group `i`. */
  ghost predicate LastWithUrl(groups: seq<RawGroup>, i: int)
    requires 0 <= i < |groups|
  {
    forall j :: i < j < |groups| ==> Strip(groups[j].url) != Strip(groups[i].url)
  }

  /** `ENTITIES`: the keys are exactly the stripped urls. */
  function BuildEntityIndex(groups: seq<RawGroup>): (ents: EntityIndex)
    ensures ents.Valid()
    ensures forall k :: k in ents.at <==> k in StrippedUrls(groups)
  {
    FromPairs(GroupPairs(groups))
  }

  /** The entity list of a url is the normalised list of the last group
      with that url (a group with no "entities" key counts as an empty
      list). */
  lemma EntityIndexLast(groups: seq<RawGroup>, i: int)
    requires 0 <= i < |groups| && LastWithUrl(groups, i)
    ensures Strip(groups[i].url) in BuildEntityIndex(groups).at
    ensures BuildEntityIndex(groups).at[Strip(groups[i].url)] == NormalizeEntities(groups[i].entities.GetOr([]))
  {
    var ps := GroupPairs(groups);
    assert IsLastKey(ps, i) by {
      forall j | i < j < |ps|
        ensures ps[j].0 != ps[i].0
      {
        assert ps[j].0 == Strip(groups[j].url);
      }
    }
    FromPairsAt(ps, i);
  }

  /** The entity index lists the stripped urls in the order each first
      appears in the entity file. */
  lemma EntityIndexOrder(groups: seq<RawGroup>)
    ensures FirstOccurrenceOrder(StrippedUrls(groups), BuildEntityIndex(groups).keys)
  {
    FromPairsOrder(GroupPairs(groups));
  }

  // ---------------------------------------------------------------------
  // Lookup by id (app.py:63-65)

  /** `TALES_BY_URL.get(tale_id.strip())`; `None` is the 404 page. */
  function Lookup(idx: TaleIndex, id: string): (r: Option<Tale>)
    ensures r.Some? <==> Strip(id) in idx.at
    ensures r.Some? ==> r.value == idx.at[Strip(id)]
  {
    idx.Get(Strip(id))
  }

  /** A request is answered exactly when its stripped form is the stripped
      id of some tale; the answer is a corpus tale with that stripped id, and
      it is tale `i` itself when no later tale shares the id. */
  lemma LookupCorpus(tales: seq<Tale>, id: string)
    ensures Lookup(BuildTaleIndex(tales), id).Some? <==> Strip(id) in StrippedIds(tales)
    ensures var r := Lookup(BuildTaleIndex(tales), id);
      r.Some? ==> r.value in tales && Strip(r.value.id) == Strip(id)
    ensures forall i :: 0 <= i < |tales| && Strip(tales[i].id) == Strip(id) && LastWithId(tales, i) ==>
      Lookup(BuildTaleIndex(tales), id) == Some(tales[i])
  {
    var idx := BuildTaleIndex(tales);
    if Strip(id) in idx.at {
      TaleIndexValues(tales, Strip(id));
    }
    forall i | 0 <= i < |tales| && Strip(tales[i].id) == Strip(id) && LastWithId(tales, i)
      ensures Lookup(idx, id) == Some(tales[i])
    {
      TaleIndexLast(tales, i);
    }
  }

  /** Every index key (a stripped id), requested unchanged, finds the tale
      stored under it. */
  lemma LookupKey(tales: seq<Tale>, k: string)
    requires k in StrippedIds(tales)
    ensures k in BuildTaleIndex(tales).at
    ensures Lookup(BuildTaleIndex(tales), k) == Some(BuildTaleIndex(tales).at[k])
  {
    TaleIndexValues(tales, k);
    StripIdempotent(BuildTaleIndex(tales).at[k].id);
  }

  lemma KeysAreStripped(tales: seq<Tale>)
    ensures forall k :: k in BuildTaleIndex(tales).keys ==> Strip(k) == k
  {
    var idx := BuildTaleIndex(tales);
    forall k | k in idx.keys
      ensures Strip(k) == k
    {
      TaleIndexValues(tales, k);
      StripIdempotent(idx.at[k].id);
    }
  }
}
