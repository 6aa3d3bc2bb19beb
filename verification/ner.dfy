/** The named-entity step of the annotation script (relemmatize_spacy.py:
    71-83): each recognised span's label is mapped to "per" or "loc", and
    spans with any other label are skipped. */
module NerLabels {
  import opened Wrappers
  import opened Text
  import opened Corpus

  /** One span reported by the recogniser: its text and its label `tag`. */
  datatype Span = Span(text: string, tag: string)

  /** The label mapping: PER and PERSON are persons, LOC and GPE are
      locations, compared after upper-casing. */
  function MapLabel(name: string): (r: Option<EntityType>)
    ensures r == Some(Per) <==> Upper(name) == "PER" || Upper(name) == "PERSON"
    ensures r == Some(Loc) <==> Upper(name) == "LOC" || Upper(name) == "GPE"
    ensures r == None <==>
      Upper(name) != "PER" && Upper(name) != "PERSON" && Upper(name) != "LOC" && Upper(name) != "GPE"
  {
    var u := Upper(name);
    if u == "PER" || u == "PERSON" then Some(Per)
    else if u == "LOC" || u == "GPE" then Some(Loc)
    else None
  }

  /** The labels kept are exactly the ASCII casings of the four words. */
  lemma MapLabelCases(name: string)
    ensures MapLabel(name) == Some(Per) <==> SpellsIgnoringCase(name, "PER") || SpellsIgnoringCase(name, "PERSON")
    ensures MapLabel(name) == Some(Loc) <==> SpellsIgnoringCase(name, "LOC") || SpellsIgnoringCase(name, "GPE")
  {
    UpperIsWord(name, "PER");
    UpperIsWord(name, "PERSON");
    UpperIsWord(name, "LOC");
    UpperIsWord(name, "GPE");
  }

  /** What one span contributes. */
  function SpanEntities(s: Span): seq<Entity> {
    match MapLabel(s.tag)
    case Some(k) => [Entity(s.text, k)]
    case None => []
  }

  /** `named_entities`: the kept spans, in recogniser order, text verbatim. */
  function NamedEntities(spans: seq<Span>): (r: seq<Entity>)
    ensures |r| <= |spans|
  {
    if spans == [] then []
    else SpanEntities(spans[0]) + NamedEntities(spans[1..])
  }

  /** Every entity comes from a span with a known label, and every span
      with a known label gives its entity. */
  lemma {:induction false} NamedEntitiesSpec(spans: seq<Span>)
    ensures forall e :: e in NamedEntities(spans) ==>
      exists s :: s in spans && s.text == e.text && MapLabel(s.tag) == Some(e.kind)
    ensures forall s :: s in spans && MapLabel(s.tag).Some? ==>
      Entity(s.text, MapLabel(s.tag).value) in NamedEntities(spans)
  {
    if spans != [] {
      NamedEntitiesSpec(spans[1..]);
      assert forall s :: s in spans <==> s == spans[0] || s in spans[1..];
    }
  }

  /** The output follows the input order: the entities of a concatenation
      are the concatenation of the entities. */
  lemma {:induction false} NamedEntitiesAppend(a: seq<Span>, b: seq<Span>)
    ensures NamedEntities(a + b) == NamedEntities(a) + NamedEntities(b)
  {
    if a == [] {
      assert a + b == b;
    } else {
      assert (a + b)[0] == a[0] && (a + b)[1..] == a[1..] + b;
      NamedEntitiesAppend(a[1..], b);
    }
  }

  /** When every label is known, nothing is dropped and the texts come out
      in order. */
  lemma {:induction false} NamedEntitiesKeepAll(spans: seq<Span>)
    requires forall i :: 0 <= i < |spans| ==> MapLabel(spans[i].tag).Some?
    ensures |NamedEntities(spans)| == |spans|
    ensures forall i :: 0 <= i < |spans| ==>
      NamedEntities(spans)[i] == Entity(spans[i].text, MapLabel(spans[i].tag).value)
  {
    if spans != [] {
      var rest := NamedEntities(spans[1..]);
      NamedEntitiesKeepAll(spans[1..]);
      var head := Entity(spans[0].text, MapLabel(spans[0].tag).value);
      assert NamedEntities(spans) == [head] + rest;
      forall i | 1 <= i < |spans|
        ensures NamedEntities(spans)[i] == Entity(spans[i].text, MapLabel(spans[i].tag).value)
      {
        assert spans[1..][i - 1] == spans[i];
      }
    }
  }

  /** The script's mapping accepts every tag the server's normaliser
      accepts, with the same class; it also accepts PERSON and GPE, which
      the server rejects (app.py:32-37). */
  lemma MapLabelExtendsClassifyTag(tag: string)
    ensures ClassifyTag(tag).Some? ==> MapLabel(tag) == ClassifyTag(tag)
    ensures MapLabel("PERSON") == Some(Per) && ClassifyTag("PERSON") == None
    ensures MapLabel("gpe") == Some(Loc) && ClassifyTag("gpe") == None
  {
    ClassifyTagExamples();
    assert Upper("gpe") == "GPE";
  }
}
