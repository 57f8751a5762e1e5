/** The enhanced concept network script: the concept table is built by
    renaming the single-word concepts to multi-word keys and merging in extra
    concepts; the link table is filtered from the shared tuple list and then
    patched so that every concept left unconnected is tied to a hub concept
    chosen by a substring rule; the layout puts the concepts on rings by rank. */
module EnhancedConceptNetwork {
  import opened Common
  import opened ConceptTable
  import opened ConceptLinks
  import opened RingLayout
  import opened Scaling

  /** The single-word concept counts, in the order of their dict display. */
  const SingleConcepts: seq<Entry> := [
    Entry("probability", 379), Entry("modeling", 343), Entry("data", 274), Entry("estimation", 272),
    Entry("multivariate", 238), Entry("parametric", 194), Entry("entropy", 142), Entry("scaling", 128),
    Entry("time_series", 109), Entry("network", 107), Entry("validation", 94), Entry("causation", 76),
    Entry("dependence", 70), Entry("univariate", 43), Entry("nonparametric", 41)
  ]

  /** The concepts merged in after the renaming. */
  const AdditionalConcepts: seq<Entry> := [
    Entry("machine_learning", 85), Entry("extreme_value_theory", 65), Entry("bayesian_methods", 55),
    Entry("optimization_methods", 45), Entry("dimensionality_reduction", 35), Entry("clustering_methods", 30),
    Entry("robust_statistics", 25), Entry("spectral_analysis", 20), Entry("neural_networks", 15),
    Entry("financial_modeling", 12)
  ]

  /** The single words the if/elif chain renames. */
  const RenamedWords: seq<string> := [
    "probability", "modeling", "data", "estimation", "multivariate", "parametric", "entropy",
    "scaling", "time_series", "network", "validation", "causation", "dependence", "nonparametric"
  ]

  /** The if/elif chain choosing the key a single-word concept is stored under. */
  function Rename(concept: string): string {
    if concept == "probability" then "probability_theory"
    else if concept == "modeling" then "statistical_modeling"
    else if concept == "data" then "data_analysis"
    else if concept == "estimation" then "parameter_estimation"
    else if concept == "multivariate" then "multivariate_analysis"
    else if concept == "parametric" then "parametric_methods"
    else if concept == "entropy" then "information_theory"
    else if concept == "scaling" then "scaling_laws"
    else if concept == "time_series" then "time_series_analysis"
    else if concept == "network" then "network_analysis"
    else if concept == "validation" then "model_validation"
    else if concept == "causation" then "causal_inference"
    else if concept == "dependence" then "correlation_analysis"
    else if concept == "nonparametric" then "nonparametric_methods"
    else concept
  }

  /** A name the chain does not list is kept as it is. */
  lemma RenameKeepsUnlisted(concept: string)
    requires concept !in RenamedWords
    ensures Rename(concept) == concept
  {
    assert RenamedWords[0] != concept && RenamedWords[1] != concept && RenamedWords[2] != concept;
    assert RenamedWords[3] != concept && RenamedWords[4] != concept && RenamedWords[5] != concept;
    assert RenamedWords[6] != concept && RenamedWords[7] != concept && RenamedWords[8] != concept;
    assert RenamedWords[9] != concept && RenamedWords[10] != concept && RenamedWords[11] != concept;
    assert RenamedWords[12] != concept && RenamedWords[13] != concept;
  }

  /** The chain either keeps a name or sends a word it lists to one of the
      enhanced keys. */
  lemma RenameLands(concept: string)
    ensures Rename(concept) == concept || (concept in RenamedWords && Rename(concept) in RenamedKeys)
  {
  }

  /** Each entry under its renamed key, with its count unchanged. */
  function RenameEntries(entries: seq<Entry>): (renamed: seq<Entry>)
    ensures |renamed| == |entries|
    ensures forall i :: 0 <= i < |entries| ==> renamed[i] == Entry(Rename(entries[i].name), entries[i].count)
  {
    seq(|entries|, i requires 0 <= i < |entries| => Entry(Rename(entries[i].name), entries[i].count))
  }

  /** The keys the chain gives the single-word concepts, in order. */
  const RenamedKeys: seq<string> := [
    "probability_theory", "statistical_modeling", "data_analysis", "parameter_estimation",
    "multivariate_analysis", "parametric_methods", "information_theory", "scaling_laws",
    "time_series_analysis", "network_analysis", "model_validation", "causal_inference",
    "correlation_analysis", "univariate", "nonparametric_methods"
  ]

  /** The names of the additional concepts, in order. */
  const AdditionalKeys: seq<string> := [
    "machine_learning", "extreme_value_theory", "bayesian_methods", "optimization_methods",
    "dimensionality_reduction", "clustering_methods", "robust_statistics", "spectral_analysis",
    "neural_networks", "financial_modeling"
  ]

  /** The keys of the enhanced table, in insertion order. */
  const EnhancedKeys: seq<string> := RenamedKeys + AdditionalKeys

  lemma RenamedKeysDistinct()
    ensures Distinct(RenamedKeys)
  {
  }

  lemma AdditionalKeysDistinct()
    ensures Distinct(AdditionalKeys)
  {
  }

  lemma KeysDisjoint()
    ensures forall i, j :: 0 <= i < |RenamedKeys| && 0 <= j < |AdditionalKeys| ==> RenamedKeys[i] != AdditionalKeys[j]
  {
  }

  /** The 25 enhanced keys are distinct. */
  lemma EnhancedKeysDistinct()
    ensures Distinct(EnhancedKeys)
  {
    RenamedKeysDistinct();
    AdditionalKeysDistinct();
    KeysDisjoint();
    DistinctJoin(RenamedKeys, AdditionalKeys);
  }

  /** The chain sends the single-word concepts to their keys, three at a
      time. */
  lemma RenameGroup1()
    ensures forall i :: 0 <= i < 3 ==> Rename(SingleConcepts[i].name) == RenamedKeys[i]
  {
    assert SingleConcepts[0].name == "probability" && RenamedKeys[0] == "probability_theory";
    assert Rename("probability") == "probability_theory";
    assert SingleConcepts[1].name == "modeling" && RenamedKeys[1] == "statistical_modeling";
    assert Rename("modeling") == "statistical_modeling";
    assert SingleConcepts[2].name == "data" && RenamedKeys[2] == "data_analysis";
    assert Rename("data") == "data_analysis";
  }

  lemma RenameGroup2()
    ensures forall i :: 3 <= i < 6 ==> Rename(SingleConcepts[i].name) == RenamedKeys[i]
  {
    assert SingleConcepts[3].name == "estimation" && RenamedKeys[3] == "parameter_estimation";
    assert Rename("estimation") == "parameter_estimation";
    assert SingleConcepts[4].name == "multivariate" && RenamedKeys[4] == "multivariate_analysis";
    assert Rename("multivariate") == "multivariate_analysis";
    assert SingleConcepts[5].name == "parametric" && RenamedKeys[5] == "parametric_methods";
    assert Rename("parametric") == "parametric_methods";
  }

  lemma RenameGroup3()
    ensures forall i :: 6 <= i < 9 ==> Rename(SingleConcepts[i].name) == RenamedKeys[i]
  {
    assert SingleConcepts[6].name == "entropy" && RenamedKeys[6] == "information_theory";
    assert Rename("entropy") == "information_theory";
    assert SingleConcepts[7].name == "scaling" && RenamedKeys[7] == "scaling_laws";
    assert Rename("scaling") == "scaling_laws";
    assert SingleConcepts[8].name == "time_series" && RenamedKeys[8] == "time_series_analysis";
    assert Rename("time_series") == "time_series_analysis";
  }

  lemma RenameGroup4()
    ensures forall i :: 9 <= i < 12 ==> Rename(SingleConcepts[i].name) == RenamedKeys[i]
  {
    assert SingleConcepts[9].name == "network" && RenamedKeys[9] == "network_analysis";
    assert Rename("network") == "network_analysis";
    assert SingleConcepts[10].name == "validation" && RenamedKeys[10] == "model_validation";
    assert Rename("validation") == "model_validation";
    assert SingleConcepts[11].name == "causation" && RenamedKeys[11] == "causal_inference";
    assert Rename("causation") == "causal_inference";
  }

  lemma RenameGroup5()
    ensures forall i :: 12 <= i < 15 ==> Rename(SingleConcepts[i].name) == RenamedKeys[i]
  {
    assert SingleConcepts[12].name == "dependence" && RenamedKeys[12] == "correlation_analysis";
    assert Rename("dependence") == "correlation_analysis";
    assert SingleConcepts[13].name == "univariate" && RenamedKeys[13] == "univariate";
    assert Rename("univariate") == "univariate";
    assert SingleConcepts[14].name == "nonparametric" && RenamedKeys[14] == "nonparametric_methods";
    assert Rename("nonparametric") == "nonparametric_methods";
  }

  lemma AdditionalNames()
    ensures Names(AdditionalConcepts) == AdditionalKeys
  {
  }

  /** Renaming the single-word concepts gives the first 15 enhanced keys,
      and the additional concepts supply the remaining 10. */
  lemma EnhancedKeysFromEntries()
    ensures Names(RenameEntries(SingleConcepts)) + Names(AdditionalConcepts) == EnhancedKeys
  {
    RenameGroup1();
    RenameGroup2();
    RenameGroup3();
    RenameGroup4();
    RenameGroup5();
    assert Names(RenameEntries(SingleConcepts)) == RenamedKeys;
    AdditionalNames();
  }

  /** The table `extract_enhanced_concepts` returns, as a value. */
  function EnhancedTable(): (t: Table)
    ensures Valid(t)
    ensures t.keys == EnhancedKeys
  {
    EnhancedNamesDistinct();
    DisplayThenUpdate(RenameEntries(SingleConcepts), AdditionalConcepts);
    EnhancedKeysFromEntries();
    Update(Update(Empty, RenameEntries(SingleConcepts)), AdditionalConcepts)
  }

  /** Renaming a list of entries into a fresh table and then updating it
      with more entries, all names distinct: each renamed entry's count sits
      under its renamed key. */
  lemma RenameThenUpdate(singles: seq<Entry>, additional: seq<Entry>)
    requires Distinct(Names(RenameEntries(singles)) + Names(additional))
    ensures var t := Update(Update(Empty, RenameEntries(singles)), additional);
      forall i :: 0 <= i < |singles| ==>
        Rename(singles[i].name) in t.counts && t.counts[Rename(singles[i].name)] == singles[i].count
  {
    DisplayThenUpdate(RenameEntries(singles), additional);
    RenamedCounts(singles, Update(Update(Empty, RenameEntries(singles)), additional));
  }

  /** The enhanced table holds the 25 keys in insertion order, every renamed
      single-word concept with its own count and every additional concept
      with its count. */
  lemma EnhancedTableContents()
    ensures Valid(EnhancedTable())
    ensures EnhancedTable().keys == EnhancedKeys
    ensures |EnhancedTable().counts| == 25
    ensures forall i :: 0 <= i < |SingleConcepts| ==>
        Rename(SingleConcepts[i].name) in EnhancedTable().counts
        && EnhancedTable().counts[Rename(SingleConcepts[i].name)] == SingleConcepts[i].count
    ensures forall i :: 0 <= i < |AdditionalConcepts| ==>
        AdditionalConcepts[i].name in EnhancedTable().counts
        && EnhancedTable().counts[AdditionalConcepts[i].name] == AdditionalConcepts[i].count
  {
    EnhancedNamesDistinct();
    DisplayThenUpdate(RenameEntries(SingleConcepts), AdditionalConcepts);
    RenameThenUpdate(SingleConcepts, AdditionalConcepts);
    EnhancedKeysFromEntries();
  }

  /** The names the two updates store are distinct. */
  lemma EnhancedNamesDistinct()
    ensures Distinct(Names(RenameEntries(SingleConcepts)) + Names(AdditionalConcepts))
  {
    EnhancedKeysFromEntries();
    EnhancedKeysDistinct();
  }

  /** A table holding every renamed entry with its count holds each
      original entry's count under the entry's renamed key. */
  lemma RenamedCounts(entries: seq<Entry>, t: Table)
    requires forall i :: 0 <= i < |entries| ==>
        RenameEntries(entries)[i].name in t.counts && t.counts[RenameEntries(entries)[i].name] == RenameEntries(entries)[i].count
    ensures forall i :: 0 <= i < |entries| ==>
        Rename(entries[i].name) in t.counts && t.counts[Rename(entries[i].name)] == entries[i].count
  {
    forall i | 0 <= i < |entries|
      ensures Rename(entries[i].name) in t.counts && t.counts[Rename(entries[i].name)] == entries[i].count
    {
      assert RenameEntries(entries)[i] == Entry(Rename(entries[i].name), entries[i].count);
    }
  }

  /** Renaming one more entry of a list appends one assignment. */
  lemma RenamePrefixStep(entries: seq<Entry>, i: nat)
    requires i < |entries|
    ensures Update(Empty, RenameEntries(entries[..i + 1]))
         == Assign(Update(Empty, RenameEntries(entries[..i])), Rename(entries[i].name), entries[i].count)
  {
    assert RenameEntries(entries[..i + 1])[..i] == RenameEntries(entries[..i]);
  }

  /** `extract_enhanced_concepts`: for each single-word concept in order,
      store its count under the renamed key, then `update` with the
      additional concepts. */
  method ExtractEnhancedConcepts() returns (enhanced: Table)
    ensures enhanced == EnhancedTable()
    ensures Valid(enhanced) && enhanced.keys == EnhancedKeys
  {
    enhanced := Empty;
    for i := 0 to |SingleConcepts|
      invariant enhanced == Update(Empty, RenameEntries(SingleConcepts[..i]))
    {
      var concept, count := SingleConcepts[i].name, SingleConcepts[i].count;
      RenamePrefixStep(SingleConcepts, i);
      enhanced := Assign(enhanced, Rename(concept), count);
    }
    assert SingleConcepts[..|SingleConcepts|] == SingleConcepts;
    enhanced := Update(enhanced, AdditionalConcepts);
    EnhancedTableContents();
  }

  /** `sub` occurs in `s` starting at index `i`. */
  predicate OccursAt(s: string, sub: string, i: nat) {
    i + |sub| <= |s| && s[i..i + |sub|] == sub
  }

  /** Python's `sub in s` on strings. */
  predicate Contains(s: string, sub: string)
    ensures Contains(s, sub) ==> |sub| <= |s|
    ensures sub == [] ==> Contains(s, sub)
  {
    assert sub == [] ==> OccursAt(s, sub, 0);
    exists i: nat | i <= |s| :: OccursAt(s, sub, i)
  }

  /** A string none of whose characters is the first of `sub` does not contain it. */
  lemma NotContains(s: string, sub: string)
    requires |sub| > 0
    requires forall i :: 0 <= i < |s| ==> s[i] != sub[0]
    ensures !Contains(s, sub)
  {
    forall i: nat ensures !OccursAt(s, sub, i) {
      if i + |sub| <= |s| {
        assert s[i..i + |sub|][0] == s[i];
      }
    }
  }

  /** A string in which the first two characters of `sub` never appear side
      by side does not contain it. */
  lemma NotContainsPair(s: string, sub: string)
    requires |sub| > 1
    requires forall i :: 0 <= i < |s| - 1 ==> s[i] != sub[0] || s[i + 1] != sub[1]
    ensures !Contains(s, sub)
  {
    forall i: nat ensures !OccursAt(s, sub, i) {
      if i + |sub| <= |s| {
        assert s[i..i + |sub|][0] == s[i];
        assert s[i..i + |sub|][1] == s[i + 1];
      }
    }
  }

  /** The first-match rule choosing the hub an isolated concept is tied to. */
  function Hub(name: string): (hub: string)
    ensures hub in {"probability_theory", "statistical_modeling", "data_analysis", "machine_learning"}
  {
    if Contains(name, "theory") || Contains(name, "probability") then "probability_theory"
    else if Contains(name, "model") || Contains(name, "stat") then "statistical_modeling"
    else if Contains(name, "data") || Contains(name, "analysis") then "data_analysis"
    else "machine_learning"
  }

  /** Each of the four hubs is its own hub. */
  lemma ProbabilityHubFixed()
    ensures Hub("probability_theory") == "probability_theory"
  {
    assert OccursAt("probability_theory", "theory", 12);
  }

  lemma ModelingHubFixed()
    ensures Hub("statistical_modeling") == "statistical_modeling"
  {
    var h := "statistical_modeling";
    NotContains(h, "probability");
    NotContainsPair(h, "theory");
    assert OccursAt(h, "stat", 0);
  }

  lemma DataHubFixed()
    ensures Hub("data_analysis") == "data_analysis"
  {
    var h := "data_analysis";
    NotContains(h, "probability");
    NotContainsPair(h, "theory");
    NotContains(h, "model");
    NotContainsPair(h, "stat");
    assert OccursAt(h, "data", 0);
  }

  lemma LearningHubFixed()
    ensures Hub("machine_learning") == "machine_learning"
  {
    var h := "machine_learning";
    NotContains(h, "theory");
    NotContains(h, "probability");
    NotContains(h, "stat");
    NotContains(h, "data");
    NotContainsPair(h, "model");
    NotContainsPair(h, "analysis");
  }

  /** Every hub is its own hub, so tying an isolated concept to its hub never
      asks the hub to be tied elsewhere. */
  lemma HubIdempotent(name: string)
    ensures Hub(Hub(name)) == Hub(name)
  {
    ProbabilityHubFixed();
    ModelingHubFixed();
    DataHubFixed();
    LearningHubFixed();
  }

  /** The strength of (f, t) once the isolated concepts in `done` are patched:
      hub to isolated concept is 3, isolated concept to hub is 5 (the later
      assignment wins when a concept is its own hub), and only when the hub
      is a concept; every other pair keeps its recorded strength. */
  function PatchStrength(base: Links, done: set<string>, known: set<string>, f: string, t: string): (r: Option<int>)
    ensures f !in done && t !in done ==> r == Strength(base, f, t)
    ensures r != Strength(base, f, t) ==> (r == Some(3) && t in done) || (r == Some(5) && f in done)
    ensures t in done && f == Hub(t) && f in known ==> r == Some(3)
  {
    if t in done && f == Hub(t) && f in known then Some(3)
    else if f in done && t == Hub(f) && t in known then Some(5)
    else Strength(base, f, t)
  }

  /** `links` is `base` with every concept of `done` patched. */
  ghost predicate Patched(links: Links, base: Links, done: set<string>, known: set<string>) {
    && NoEmptyRows(links)
    && forall f, t :: Strength(links, f, t) == PatchStrength(base, done, known, f, t)
  }

  /** The concepts no accepted tuple names. */
  function Isolated(conns: seq<Connection>, known: set<string>): (isolated: set<string>)
    ensures isolated <= known
  {
    known - Endpoints(conns, known)
  }

  /** Patching one more isolated concept keeps the pointwise description:
      the two new links are set and nothing else moves. */
  lemma PatchOne(links: Links, base: Links, done: set<string>, known: set<string>, iso: string)
    requires Patched(links, base, done, known)
    requires iso !in done
    ensures var hub := Hub(iso);
      Patched(if hub in known then Put(Put(links, iso, hub, 5), hub, iso, 3) else links,
              base, done + {iso}, known)
  {
    var hub := Hub(iso);
    HubIdempotent(iso);
    var next := if hub in known then Put(Put(links, iso, hub, 5), hub, iso, 3) else links;
    forall f, t ensures Strength(next, f, t) == PatchStrength(base, done + {iso}, known, f, t) {
      if hub in known && f == hub && t == iso {
      } else if hub in known && f == iso && t == hub {
        assert Hub(hub) == hub;
      } else {
        PatchOtherPair(base, done, known, iso, f, t);
      }
    }
  }

  /** Patching `iso` leaves the expected strength of every pair other than
      the two links between `iso` and its hub as it was. */
  lemma PatchOtherPair(base: Links, done: set<string>, known: set<string>, iso: string, f: string, t: string)
    requires !(Hub(iso) in known && f == Hub(iso) && t == iso)
    requires !(Hub(iso) in known && f == iso && t == Hub(iso))
    ensures PatchStrength(base, done + {iso}, known, f, t) == PatchStrength(base, done, known, f, t)
  {
  }

  /** After patching every isolated concept, the links already recorded are
      unchanged. */
  lemma PatchKeepsRecorded(links: Links, conns: seq<Connection>, known: set<string>, f: string, t: string)
    requires Patched(links, RecordLinks(conns, known), Isolated(conns, known), known)
    requires Strength(RecordLinks(conns, known), f, t).Some?
    ensures Strength(links, f, t) == Strength(RecordLinks(conns, known), f, t)
  {
    var base := RecordLinks(conns, known);
    ConnectedIffEndpoint(conns, known, f);
    ConnectedIffEndpoint(conns, known, t);
    assert IsEndpoint(base, f) && IsEndpoint(base, t);
  }

  /** After patching, a concept is an endpoint of some link exactly when an
      accepted tuple names it or its hub is a concept. */
  lemma PatchConnects(links: Links, conns: seq<Connection>, known: set<string>, c: string)
    requires Patched(links, RecordLinks(conns, known), Isolated(conns, known), known)
    requires c in known
    ensures IsEndpoint(links, c) <==> c in Endpoints(conns, known) || Hub(c) in known
  {
    var base := RecordLinks(conns, known);
    var isolated := Isolated(conns, known);
    ConnectedIffEndpoint(conns, known, c);
    HubIdempotent(c);
    if c in Endpoints(conns, known) {
      var t :| Strength(base, c, t).Some? || Strength(base, t, c).Some?;
      if Strength(base, c, t).Some? {
        PatchKeepsRecorded(links, conns, known, c, t);
        assert Strength(links, c, t).Some?;
      } else {
        PatchKeepsRecorded(links, conns, known, t, c);
        assert Strength(links, t, c).Some?;
      }
    } else if Hub(c) in known {
      assert Strength(links, c, Hub(c)).Some?;
    }
    if IsEndpoint(links, c) && c !in Endpoints(conns, known) {
      var t :| Strength(links, c, t).Some? || Strength(links, t, c).Some?;
      if Strength(links, c, t).Some? {
        if t in isolated && c == Hub(t) && c in known {
          HubIdempotent(t);
        } else if !(c in isolated && t == Hub(c) && t in known) {
          assert false;
        }
      } else {
        if c in isolated && t == Hub(c) && t in known {
        } else if t in isolated && c == Hub(t) && c in known {
          HubIdempotent(t);
        } else {
          assert false;
        }
      }
    }
  }

  /** After patching, every link joins two concepts, every recorded link
      is kept, and a concept is an endpoint exactly when a tuple names it
      or its hub is a concept. */
  lemma PatchedSummary(links: Links, conns: seq<Connection>, known: set<string>)
    requires Patched(links, RecordLinks(conns, known), Isolated(conns, known), known)
    ensures forall f, t :: Strength(links, f, t).Some? ==> f in known && t in known
    ensures forall f, t :: Strength(RecordLinks(conns, known), f, t).Some? ==>
        Strength(links, f, t) == Strength(RecordLinks(conns, known), f, t)
    ensures forall c :: c in known ==>
        (IsEndpoint(links, c) <==> c in Endpoints(conns, known) || Hub(c) in known)
  {
    forall f, t | Strength(RecordLinks(conns, known), f, t).Some?
      ensures Strength(links, f, t) == Strength(RecordLinks(conns, known), f, t)
    {
      PatchKeepsRecorded(links, conns, known, f, t);
    }
    forall c | c in known
      ensures IsEndpoint(links, c) <==> c in Endpoints(conns, known) || Hub(c) in known
    {
      PatchConnects(links, conns, known, c);
    }
  }

  /** Patching adds only strengths 5 and 3, so positive tuples still give
      positive links. */
  lemma PatchedPositive(links: Links, conns: seq<Connection>, known: set<string>)
    requires Patched(links, RecordLinks(conns, known), Isolated(conns, known), known)
    requires AllPositive(conns)
    ensures forall f, t :: Strength(links, f, t).Some? ==> Strength(links, f, t).value > 0
  {
    RecordedPositive(conns, known);
    forall f, t | Strength(links, f, t).Some? ensures Strength(links, f, t).value > 0 {
      assert Strength(links, f, t) == PatchStrength(RecordLinks(conns, known), Isolated(conns, known), known, f, t);
    }
  }

  /** Every arrow drawn for the patched links is between 1 and 4 wide and
      between 0.4 and 0.9 opaque, the strongest link at the extremes. */
  lemma EnhancedArrowsInRange(links: Links, concepts: map<string, int>, m: int, f: string, t: string)
    requires Patched(links, RecordLinks(Connections, concepts.Keys), Isolated(Connections, concepts.Keys), concepts.Keys)
    requires IsMaxStrength(links, m)
    requires Strength(links, f, t).Some?
    ensures m > 0
    ensures 1.0 < ArrowWidth(Strength(links, f, t).value, m) <= 4.0
    ensures 0.4 < ArrowAlpha(Strength(links, f, t).value, m) <= 0.9
    ensures Strength(links, f, t).value == m ==> ArrowWidth(m, m) == 4.0 && ArrowAlpha(m, m) == 0.9
  {
    ConnectionsPositive();
    PatchedPositive(links, Connections, concepts.Keys);
    ArrowStylesInRange(links, m, f, t);
  }

  /** `create_enhanced_concept_links`: record the accepted tuples and collect
      their endpoints, then tie every concept no tuple names to its hub, in
      whatever order the set of isolated concepts is walked. */
  method CreateEnhancedConceptLinks(enhancedConcepts: map<string, int>) returns (links: Links)
    ensures Patched(links, RecordLinks(Connections, enhancedConcepts.Keys),
                    Isolated(Connections, enhancedConcepts.Keys), enhancedConcepts.Keys)
    ensures forall f, t :: Strength(links, f, t).Some? ==> f in enhancedConcepts && t in enhancedConcepts
    ensures forall f, t :: Strength(RecordLinks(Connections, enhancedConcepts.Keys), f, t).Some? ==>
        Strength(links, f, t) == Strength(RecordLinks(Connections, enhancedConcepts.Keys), f, t)
    ensures forall c :: c in enhancedConcepts ==>
        (IsEndpoint(links, c) <==> c in Endpoints(Connections, enhancedConcepts.Keys) || Hub(c) in enhancedConcepts)
  {
    var known := enhancedConcepts.Keys;
    links := map[];
    var connected: set<string> := {};
    for i := 0 to |Connections|
      invariant links == RecordLinks(Connections[..i], known)
      invariant connected == Endpoints(Connections[..i], known)
    {
      var c := Connections[i];
      RecordStep(Connections, i, known);
      if c.source in enhancedConcepts && c.target in enhancedConcepts {
        links := Put(links, c.source, c.target, c.strength);
        connected := connected + {c.source};
        connected := connected + {c.target};
      }
    }
    assert Connections[..|Connections|] == Connections;
    var base := links;
    var isolated := known - connected;
    var remaining := isolated;
    while remaining != {}
      invariant remaining <= isolated
      invariant Patched(links, base, isolated - remaining, known)
      decreases remaining
    {
      var iso :| iso in remaining;
      var hub := Hub(iso);
      PatchOne(links, base, isolated - remaining, known, iso);
      if hub in enhancedConcepts {
        links := Put(links, iso, hub, 5);
        links := Put(links, hub, iso, 3);
      }
      assert isolated - (remaining - {iso}) == (isolated - remaining) + {iso};
      remaining := remaining - {iso};
    }
    PatchedSummary(links, Connections, known);
  }

  /** `calculate_layout_positions`: sort the concepts by count, largest
      first and stably, then place them ring by ring. */
  method CalculateLayoutPositions(concepts: seq<string>, conceptTotals: map<string, int>)
      returns (positions: map<string, Position>)
    requires Distinct(concepts)
    requires AllIn(concepts, conceptTotals)
    ensures positions.Keys == set c | c in concepts
    ensures var sorted := SortByCountDesc(concepts, conceptTotals);
      forall k :: 0 <= k < |sorted| ==> sorted[k] in positions && positions[sorted[k]] == Placement(k, |sorted|)
    ensures forall x, y :: x in positions && y in positions && x != y ==> positions[x] != positions[y]
  {
    var sorted := SortByCountDesc(concepts, conceptTotals);
    positions := PlaceRings(sorted);
    SortedRanksCoverNames(sorted, concepts);
  }
}
