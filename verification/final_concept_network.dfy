/** The final concept network script: the concept table is a fixed dict
    display of the 25 multi-word concepts, the link table keeps the tuples of
    the shared list whose two endpoints are concepts (no isolation patching),
    and the layout is the same ring layout as the enhanced script's. */
module FinalConceptNetwork {
  import opened Common
  import opened ConceptTable
  import opened ConceptLinks
  import opened RingLayout
  import opened Scaling

  /** The concept counts, in the order of the dict display. */
  const ConceptEntries: seq<Entry> := [
    Entry("probability_theory", 379), Entry("statistical_modeling", 343), Entry("data_analysis", 274),
    Entry("parameter_estimation", 272), Entry("multivariate_analysis", 238), Entry("parametric_methods", 194),
    Entry("information_theory", 142), Entry("scaling_laws", 128), Entry("time_series_analysis", 109),
    Entry("network_analysis", 107), Entry("model_validation", 94), Entry("causal_inference", 76),
    Entry("correlation_analysis", 70), Entry("nonparametric_methods", 41), Entry("machine_learning", 85),
    Entry("extreme_value_theory", 65), Entry("bayesian_methods", 55), Entry("optimization_methods", 45),
    Entry("dimensionality_reduction", 35), Entry("clustering_methods", 30), Entry("robust_statistics", 25),
    Entry("spectral_analysis", 20), Entry("neural_networks", 15), Entry("financial_modeling", 12), Entry("univariate", 43)
  ]

  /** The keys of the display, in order, in two halves. */
  const FinalHead: seq<string> := [
    "probability_theory", "statistical_modeling", "data_analysis",
    "parameter_estimation", "multivariate_analysis", "parametric_methods",
    "information_theory", "scaling_laws", "time_series_analysis",
    "network_analysis", "model_validation", "causal_inference"
  ]

  const FinalTail: seq<string> := [
    "correlation_analysis", "nonparametric_methods", "machine_learning",
    "extreme_value_theory", "bayesian_methods", "optimization_methods",
    "dimensionality_reduction", "clustering_methods", "robust_statistics",
    "spectral_analysis", "neural_networks", "financial_modeling", "univariate"
  ]

  const FinalKeys: seq<string> := FinalHead + FinalTail

  lemma FinalNames()
    ensures Names(ConceptEntries) == FinalKeys
  {
  }

  lemma FinalHeadDistinct()
    ensures Distinct(FinalHead)
  {
  }

  lemma FinalTailDistinct()
    ensures Distinct(FinalTail)
  {
  }

  lemma FinalHalvesDisjoint()
    ensures forall i, j :: 0 <= i < |FinalHead| && 0 <= j < |FinalTail| ==> FinalHead[i] != FinalTail[j]
  {
  }

  /** The 25 keys of the display are distinct. */
  lemma FinalKeysDistinct()
    ensures Distinct(FinalKeys)
  {
    FinalHeadDistinct();
    FinalTailDistinct();
    FinalHalvesDisjoint();
    DistinctJoin(FinalHead, FinalTail);
  }

  /** probability_theory comes first with 379; every other count is
      positive and smaller. */
  lemma CountsBounded()
    ensures ConceptEntries[0] == Entry("probability_theory", 379)
    ensures forall i :: 0 < i < |ConceptEntries| ==> 0 < ConceptEntries[i].count < 379
  {
  }

  /** `load_enhanced_concepts`: the dict display. */
  function LoadEnhancedConcepts(): (t: Table)
    ensures Valid(t)
  {
    FromEntries(ConceptEntries)
  }

  /** The loaded table has the 25 keys of the display in order, each with
      its own count. */
  lemma LoadedTableContents()
    ensures LoadEnhancedConcepts().keys == FinalKeys
    ensures |LoadEnhancedConcepts().counts| == 25
    ensures forall i :: 0 <= i < |ConceptEntries| ==>
        var key := ConceptEntries[i].name;
        key in LoadEnhancedConcepts().counts && LoadEnhancedConcepts().counts[key] == ConceptEntries[i].count
  {
    FinalNames();
    FinalKeysDistinct();
    DisplayContents(ConceptEntries);
  }

  /** Every loaded count is positive and at most 379, and only
      probability_theory reaches 379. */
  lemma LoadedCountsBounded(concept: string)
    requires concept in LoadEnhancedConcepts().counts
    ensures 0 < LoadEnhancedConcepts().counts[concept] <= 379
    ensures LoadEnhancedConcepts().counts[concept] == 379 <==> concept == "probability_theory"
  {
    FinalNames();
    FinalKeysDistinct();
    DisplayKeyOrigin(ConceptEntries, concept);
    CountsBounded();
    var t := LoadEnhancedConcepts();
    var i :| 0 <= i < |ConceptEntries| && ConceptEntries[i].name == concept && t.counts[concept] == ConceptEntries[i].count;
    if concept == "probability_theory" {
      assert ConceptEntries[0].name == concept;
    }
  }

  /** `max(concepts.values())` over the loaded table is 379. */
  lemma LoadedMaxCount()
    ensures MaxCount(LoadEnhancedConcepts()) == Some(379)
  {
    var t := LoadEnhancedConcepts();
    LoadedTableContents();
    CountsBounded();
    assert "probability_theory" in t.counts && t.counts["probability_theory"] == 379;
    var m := MaxCount(t);
    var k :| k in t.counts && t.counts[k] == m.value;
    LoadedCountsBounded(k);
  }

  /** With the loaded counts and their maximum 379, every bubble radius lies
      in (0.3, 1.1] and every font size in [8, 10]; only probability_theory
      gets the largest bubble. */
  lemma LoadedBubblesInRange(concept: string)
    requires concept in LoadEnhancedConcepts().counts
    ensures 0.3 < BubbleRadius(LoadEnhancedConcepts().counts[concept], 379) <= 1.1
    ensures 8.0 <= FontSize(LoadEnhancedConcepts().counts[concept], 379) <= 10.0
    ensures BubbleRadius(LoadEnhancedConcepts().counts[concept], 379) == 1.1 <==> concept == "probability_theory"
  {
    LoadedCountsBounded(concept);
  }

  /** `create_concept_connections`: one pass over the tuple list, storing
      each tuple whose two endpoints are concepts; a later tuple for the same
      pair overwrites the earlier strength. */
  method CreateConceptConnections(concepts: map<string, int>) returns (links: Links)
    ensures links == RecordLinks(Connections, concepts.Keys)
    ensures forall f, t :: Strength(links, f, t).Some? ==> f in concepts && t in concepts
  {
    var known := concepts.Keys;
    links := map[];
    for i := 0 to |Connections|
      invariant links == RecordLinks(Connections[..i], known)
    {
      var c := Connections[i];
      RecordStep(Connections, i, known);
      if c.source in concepts && c.target in concepts {
        links := Put(links, c.source, c.target, c.strength);
      }
    }
    assert Connections[..|Connections|] == Connections;
  }

  /** Every arrow drawn for the links of the tuple list is between 1 and 4
      wide and between 0.4 and 0.9 opaque, whatever concepts are known. */
  lemma FinalArrowsInRange(concepts: map<string, int>, m: int, f: string, t: string)
    requires IsMaxStrength(RecordLinks(Connections, concepts.Keys), m)
    requires Strength(RecordLinks(Connections, concepts.Keys), f, t).Some?
    ensures m > 0
    ensures 1.0 < ArrowWidth(Strength(RecordLinks(Connections, concepts.Keys), f, t).value, m) <= 4.0
    ensures 0.4 < ArrowAlpha(Strength(RecordLinks(Connections, concepts.Keys), f, t).value, m) <= 0.9
  {
    ConnectionsPositive();
    RecordedPositive(Connections, concepts.Keys);
    ArrowStylesInRange(RecordLinks(Connections, concepts.Keys), m, f, t);
  }

  /** `calculate_clean_layout`: sort the keys by count, largest first and
      stably, then place them ring by ring; every key gets exactly one
      position, the one its rank dictates. */
  method CalculateCleanLayout(concepts: Table) returns (positions: map<string, Position>)
    requires Valid(concepts)
    ensures positions.Keys == concepts.counts.Keys
    ensures var sorted := SortByCountDesc(concepts.keys, concepts.counts);
      forall k :: 0 <= k < |sorted| ==> sorted[k] in positions && positions[sorted[k]] == Placement(k, |sorted|)
    ensures forall x, y :: x in positions && y in positions && x != y ==> positions[x] != positions[y]
  {
    var sorted := SortByCountDesc(concepts.keys, concepts.counts);
    positions := PlaceRings(sorted);
    SortedRanksCoverNames(sorted, concepts.keys);
  }
}
