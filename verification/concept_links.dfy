/** The link table of both concept-network scripts: a fixed list of
    (from, to, strength) tuples turned into a nested dict
    `concept_links[from][to] = strength`, keeping only the tuples whose two
    endpoints are known concepts. The nested `defaultdict` is a map from source
    to a map from target to strength; an inner map is created by the first
    assignment into it, so it is never empty. */
module ConceptLinks {
  import opened Common

  datatype Connection = Connection(source: string, target: string, strength: int)

  /** Core probability ecosystem. */
  const CoreProbability: seq<Connection> := [
    Connection("data_analysis", "probability_theory", 35), Connection("statistical_modeling", "probability_theory", 38),
    Connection("probability_theory", "parameter_estimation", 35), Connection("multivariate_analysis", "probability_theory", 30),
    Connection("parametric_methods", "probability_theory", 24), Connection("nonparametric_methods", "probability_theory", 18)
  ]

  /** Machine learning cluster. */
  const MachineLearningCluster: seq<Connection> := [
    Connection("data_analysis", "machine_learning", 28), Connection("machine_learning", "statistical_modeling", 22),
    Connection("machine_learning", "parameter_estimation", 20), Connection("machine_learning", "model_validation", 18),
    Connection("machine_learning", "optimization_methods", 16), Connection("machine_learning", "neural_networks", 15),
    Connection("machine_learning", "clustering_methods", 12)
  ]

  /** Statistical modeling connections. */
  const StatisticalModeling: seq<Connection> := [
    Connection("statistical_modeling", "parameter_estimation", 25), Connection("statistical_modeling", "model_validation", 22),
    Connection("statistical_modeling", "parametric_methods", 20), Connection("statistical_modeling", "nonparametric_methods", 15),
    Connection("statistical_modeling", "bayesian_methods", 18)
  ]

  /** Data analysis ecosystem. */
  const DataAnalysisEcosystem: seq<Connection> := [
    Connection("data_analysis", "multivariate_analysis", 26), Connection("data_analysis", "correlation_analysis", 20),
    Connection("data_analysis", "time_series_analysis", 18), Connection("data_analysis", "dimensionality_reduction", 15),
    Connection("data_analysis", "robust_statistics", 12)
  ]

  /** Multivariate analysis cluster. */
  const MultivariateCluster: seq<Connection> := [
    Connection("multivariate_analysis", "correlation_analysis", 22), Connection("multivariate_analysis", "dimensionality_reduction", 18),
    Connection("multivariate_analysis", "clustering_methods", 16), Connection("multivariate_analysis", "parametric_methods", 15)
  ]

  /** Information theory and networks. */
  const InformationNetworks: seq<Connection> := [
    Connection("information_theory", "network_analysis", 18), Connection("information_theory", "probability_theory", 20),
    Connection("information_theory", "causal_inference", 15), Connection("network_analysis", "causal_inference", 12),
    Connection("network_analysis", "spectral_analysis", 10), Connection("network_analysis", "clustering_methods", 8)
  ]

  /** Time series and causality. */
  const TimeSeriesCausality: seq<Connection> := [
    Connection("time_series_analysis", "causal_inference", 15), Connection("time_series_analysis", "probability_theory", 18),
    Connection("time_series_analysis", "scaling_laws", 12), Connection("time_series_analysis", "financial_modeling", 8)
  ]

  /** Parameter estimation ecosystem. */
  const EstimationEcosystem: seq<Connection> := [
    Connection("parameter_estimation", "bayesian_methods", 18), Connection("parameter_estimation", "optimization_methods", 16),
    Connection("parameter_estimation", "model_validation", 20), Connection("parameter_estimation", "robust_statistics", 10)
  ]

  /** Advanced methods. */
  const AdvancedMethods: seq<Connection> := [
    Connection("extreme_value_theory", "probability_theory", 14), Connection("extreme_value_theory", "scaling_laws", 10),
    Connection("extreme_value_theory", "robust_statistics", 8), Connection("bayesian_methods", "parametric_methods", 12),
    Connection("bayesian_methods", "model_validation", 10), Connection("optimization_methods", "neural_networks", 12),
    Connection("optimization_methods", "clustering_methods", 8), Connection("dimensionality_reduction", "spectral_analysis", 8),
    Connection("dimensionality_reduction", "neural_networks", 6), Connection("robust_statistics", "nonparametric_methods", 8),
    Connection("robust_statistics", "model_validation", 6), Connection("spectral_analysis", "neural_networks", 5),
    Connection("financial_modeling", "extreme_value_theory", 6), Connection("financial_modeling", "multivariate_analysis", 5)
  ]

  /** Scaling and cross-connections. */
  const CrossConnections: seq<Connection> := [
    Connection("scaling_laws", "probability_theory", 14), Connection("scaling_laws", "network_analysis", 8),
    Connection("correlation_analysis", "causal_inference", 8), Connection("model_validation", "information_theory", 6),
    Connection("clustering_methods", "information_theory", 5), Connection("neural_networks", "information_theory", 4),
    Connection("spectral_analysis", "probability_theory", 6), Connection("financial_modeling", "statistical_modeling", 4),
    Connection("univariate", "probability_theory", 8), Connection("univariate", "parametric_methods", 6),
    Connection("univariate", "nonparametric_methods", 5)
  ]
  /** The tuple list, identical in both concept-network scripts, group by group. */
  const Connections: seq<Connection> :=
    CoreProbability + MachineLearningCluster + StatisticalModeling + DataAnalysisEcosystem
    + MultivariateCluster + InformationNetworks + TimeSeriesCausality + EstimationEcosystem
    + AdvancedMethods + CrossConnections

  type Links = map<string, map<string, int>>

  /** The strength stored for the link from `f` to `t`, if there is one. */
  function Strength(links: Links, f: string, t: string): Option<int> {
    if f in links && t in links[f] then Some(links[f][t]) else None
  }

  /** Every source present in the outer map holds at least one link. */
  ghost predicate NoEmptyRows(links: Links) {
    forall f :: f in links ==> links[f] != map[]
  }

  /** `c` is the source or the target of some stored link. */
  ghost predicate IsEndpoint(links: Links, c: string) {
    exists t :: Strength(links, c, t).Some? || Strength(links, t, c).Some?
  }

  /** `concept_links[f][t] = s` on a defaultdict of defaultdicts: that one
      entry is set, every other entry is left as it was. */
  function Put(links: Links, f: string, t: string, s: int): (r: Links)
    ensures Strength(r, f, t) == Some(s)
    ensures forall f', t' :: (f', t') != (f, t) ==> Strength(r, f', t') == Strength(links, f', t')
    ensures NoEmptyRows(links) ==> NoEmptyRows(r)
  {
    links[f := (if f in links then links[f] else map[])[t := s]]
  }

  predicate Accepted(c: Connection, known: set<string>) {
    c.source in known && c.target in known
  }

  predicate Matches(c: Connection, f: string, t: string) {
    c.source == f && c.target == t
  }

  /** The loop `for f, t, s in connections: if f in concepts and t in
      concepts: concept_links[f][t] = s`, as a function of the tuples seen. */
  function RecordLinks(conns: seq<Connection>, known: set<string>): (r: Links)
    ensures NoEmptyRows(r)
    ensures forall f, t :: Strength(r, f, t).Some? ==> f in known && t in known
    decreases |conns|
  {
    if conns == [] then map[]
    else
      var prev := RecordLinks(conns[..|conns| - 1], known);
      var c := conns[|conns| - 1];
      if Accepted(c, known) then Put(prev, c.source, c.target, c.strength) else prev
  }

  /** The set `connected_concepts`: both endpoints of every accepted tuple. */
  function Endpoints(conns: seq<Connection>, known: set<string>): (r: set<string>)
    ensures r <= known
    decreases |conns|
  {
    if conns == [] then {}
    else
      var prev := Endpoints(conns[..|conns| - 1], known);
      var c := conns[|conns| - 1];
      if Accepted(c, known) then prev + {c.source, c.target} else prev
  }

  /** Tuple `i` is accepted for the pair (f, t) and no later accepted tuple
      names the same pair. */
  ghost predicate LastFor(conns: seq<Connection>, known: set<string>, f: string, t: string, i: int) {
    && 0 <= i < |conns|
    && Accepted(conns[i], known)
    && Matches(conns[i], f, t)
    && forall j :: i < j < |conns| && Accepted(conns[j], known) ==> !Matches(conns[j], f, t)
  }

  /** The last tuple scanned decides the pair it names, if it is accepted;
      every other pair keeps the strength the earlier tuples gave it. */
  lemma StrengthStep(conns: seq<Connection>, known: set<string>, f: string, t: string)
    requires conns != []
    ensures var c := conns[|conns| - 1];
      Strength(RecordLinks(conns, known), f, t)
        == if Accepted(c, known) && Matches(c, f, t) then Some(c.strength)
           else Strength(RecordLinks(conns[..|conns| - 1], known), f, t)
  {
  }

  /** No link is stored for a pair exactly when no accepted tuple names it. */
  lemma {:induction false} RecordedNone(conns: seq<Connection>, known: set<string>, f: string, t: string)
    ensures Strength(RecordLinks(conns, known), f, t).None?
        <==> forall i :: 0 <= i < |conns| && Accepted(conns[i], known) ==> !Matches(conns[i], f, t)
    decreases |conns|
  {
    if conns != [] {
      var n := |conns| - 1;
      var init := conns[..n];
      RecordedNone(init, known, f, t);
      StrengthStep(conns, known, f, t);
      assert forall i :: 0 <= i < n ==> init[i] == conns[i];
    }
  }

  /** A stored link holds the strength of the last accepted tuple naming
      its pair, and there is such a tuple. */
  lemma {:induction false} RecordedLast(conns: seq<Connection>, known: set<string>, f: string, t: string)
    ensures forall i :: LastFor(conns, known, f, t, i) ==>
        Strength(RecordLinks(conns, known), f, t) == Some(conns[i].strength)
    ensures Strength(RecordLinks(conns, known), f, t).Some? ==>
        exists i :: LastFor(conns, known, f, t, i)
    decreases |conns|
  {
    if conns != [] {
      var n := |conns| - 1;
      var init := conns[..n];
      var c := conns[n];
      RecordedLast(init, known, f, t);
      StrengthStep(conns, known, f, t);
      if Accepted(c, known) && Matches(c, f, t) {
        assert LastFor(conns, known, f, t, n);
        forall i | 0 <= i < n ensures !LastFor(conns, known, f, t, i) {
          assert Accepted(conns[n], known) && Matches(conns[n], f, t);
        }
      } else {
        forall i | 0 <= i < n ensures LastFor(conns, known, f, t, i) <==> LastFor(init, known, f, t, i) {
          assert forall j :: 0 <= j < n ==> init[j] == conns[j];
        }
        assert !LastFor(conns, known, f, t, n);
      }
    }
  }

  /** A link is stored exactly for the pairs of accepted tuples, and its
      strength is that of the last accepted tuple naming the pair. */
  lemma RecordedStrength(conns: seq<Connection>, known: set<string>, f: string, t: string)
    ensures Strength(RecordLinks(conns, known), f, t).None?
        <==> forall i :: 0 <= i < |conns| && Accepted(conns[i], known) ==> !Matches(conns[i], f, t)
    ensures forall i :: LastFor(conns, known, f, t, i) ==>
        Strength(RecordLinks(conns, known), f, t) == Some(conns[i].strength)
    ensures Strength(RecordLinks(conns, known), f, t).Some? ==>
        exists i :: LastFor(conns, known, f, t, i)
  {
    RecordedNone(conns, known, f, t);
    RecordedLast(conns, known, f, t);
  }

  /** Scanning one more tuple: an accepted one is stored and its two
      endpoints become connected, any other changes nothing. */
  lemma RecordStep(conns: seq<Connection>, i: nat, known: set<string>)
    requires i < |conns|
    ensures var c := conns[i];
      && RecordLinks(conns[..i + 1], known)
         == (if Accepted(c, known) then Put(RecordLinks(conns[..i], known), c.source, c.target, c.strength)
             else RecordLinks(conns[..i], known))
      && Endpoints(conns[..i + 1], known)
         == (if Accepted(c, known) then Endpoints(conns[..i], known) + {c.source, c.target}
             else Endpoints(conns[..i], known))
  {
    assert conns[..i + 1][..i] == conns[..i];
  }

  /** A concept is in `connected_concepts` exactly when some accepted tuple
      names it. */
  lemma {:induction false} EndpointsSpec(conns: seq<Connection>, known: set<string>, x: string)
    ensures x in Endpoints(conns, known) <==>
        exists i :: 0 <= i < |conns| && Accepted(conns[i], known) && (conns[i].source == x || conns[i].target == x)
    decreases |conns|
  {
    if conns != [] {
      var n := |conns| - 1;
      EndpointsSpec(conns[..n], known, x);
      assert forall i :: 0 <= i < n ==> conns[..n][i] == conns[i];
    }
  }

  /** The connected concepts are exactly the endpoints of the stored links. */
  lemma ConnectedIffEndpoint(conns: seq<Connection>, known: set<string>, x: string)
    ensures x in Endpoints(conns, known) <==> IsEndpoint(RecordLinks(conns, known), x)
  {
    var links := RecordLinks(conns, known);
    EndpointsSpec(conns, known, x);
    if x in Endpoints(conns, known) {
      var i :| 0 <= i < |conns| && Accepted(conns[i], known) && (conns[i].source == x || conns[i].target == x);
      RecordedStrength(conns, known, conns[i].source, conns[i].target);
      assert Strength(links, conns[i].source, conns[i].target).Some?;
    }
    if IsEndpoint(links, x) {
      var t :| Strength(links, x, t).Some? || Strength(links, t, x).Some?;
      if Strength(links, x, t).Some? {
        RecordedStrength(conns, known, x, t);
        var i :| LastFor(conns, known, x, t, i);
      } else {
        RecordedStrength(conns, known, t, x);
        var i :| LastFor(conns, known, t, x, i);
      }
    }
  }

  /** Every stored strength is the strength of some tuple of the list. */
  lemma RecordedStrengthFromList(conns: seq<Connection>, known: set<string>, f: string, t: string)
    requires Strength(RecordLinks(conns, known), f, t).Some?
    ensures exists i :: 0 <= i < |conns| && conns[i] == Connection(f, t, Strength(RecordLinks(conns, known), f, t).value)
  {
    RecordedStrength(conns, known, f, t);
    var i :| LastFor(conns, known, f, t, i);
    assert conns[i] == Connection(f, t, Strength(RecordLinks(conns, known), f, t).value);
  }

  /** Every tuple of `conns` carries a positive strength. */
  predicate AllPositive(conns: seq<Connection>) {
    forall i :: 0 <= i < |conns| ==> conns[i].strength > 0
  }

  lemma PositiveConcat(a: seq<Connection>, b: seq<Connection>)
    requires AllPositive(a) && AllPositive(b)
    ensures AllPositive(a + b)
  {
    forall i | 0 <= i < |a + b| ensures (a + b)[i].strength > 0 {
      if i < |a| {
        assert (a + b)[i] == a[i];
      } else {
        assert (a + b)[i] == b[i - |a|];
      }
    }
  }

  /** The first four groups carry positive strengths. */
  lemma HeadGroupsPositive()
    ensures AllPositive(CoreProbability + MachineLearningCluster + StatisticalModeling + DataAnalysisEcosystem)
  {
    assert AllPositive(CoreProbability) && AllPositive(MachineLearningCluster);
    assert AllPositive(StatisticalModeling) && AllPositive(DataAnalysisEcosystem);
    PositiveConcat(CoreProbability, MachineLearningCluster);
    PositiveConcat(CoreProbability + MachineLearningCluster, StatisticalModeling);
    PositiveConcat(CoreProbability + MachineLearningCluster + StatisticalModeling, DataAnalysisEcosystem);
  }

  /** Every tuple of the list carries a positive strength. */
  lemma ConnectionsPositive()
    ensures AllPositive(Connections)
  {
    var head := CoreProbability + MachineLearningCluster + StatisticalModeling + DataAnalysisEcosystem;
    HeadGroupsPositive();
    assert AllPositive(MultivariateCluster) && AllPositive(InformationNetworks);
    assert AllPositive(TimeSeriesCausality) && AllPositive(EstimationEcosystem);
    assert AllPositive(AdvancedMethods) && AllPositive(CrossConnections);
    PositiveConcat(head, MultivariateCluster);
    PositiveConcat(head + MultivariateCluster, InformationNetworks);
    PositiveConcat(head + MultivariateCluster + InformationNetworks, TimeSeriesCausality);
    PositiveConcat(head + MultivariateCluster + InformationNetworks + TimeSeriesCausality, EstimationEcosystem);
    var middle := head + MultivariateCluster + InformationNetworks + TimeSeriesCausality + EstimationEcosystem;
    PositiveConcat(middle, AdvancedMethods);
    PositiveConcat(middle + AdvancedMethods, CrossConnections);
  }

  /** Recording only copies strengths from the list, so positive tuples give
      positive links. */
  lemma RecordedPositive(conns: seq<Connection>, known: set<string>)
    requires AllPositive(conns)
    ensures forall f, t :: Strength(RecordLinks(conns, known), f, t).Some? ==>
        Strength(RecordLinks(conns, known), f, t).value > 0
  {
    forall f, t | Strength(RecordLinks(conns, known), f, t).Some?
      ensures Strength(RecordLinks(conns, known), f, t).value > 0
    {
      RecordedStrengthFromList(conns, known, f, t);
    }
  }

  /** Two link tables without empty rows that agree on every pair are equal:
      the pointwise strengths determine the nested map. */
  lemma SameStrengthsSameLinks(a: Links, b: Links)
    requires NoEmptyRows(a) && NoEmptyRows(b)
    requires forall f, t :: Strength(a, f, t) == Strength(b, f, t)
    ensures a == b
  {
    forall f | f in a ensures f in b && a[f] == b[f] {
      var t :| t in a[f];
      assert Strength(a, f, t).Some?;
      assert forall t' :: t' in a[f] <==> t' in b[f] by {
        forall t' ensures t' in a[f] <==> t' in b[f] {
          assert Strength(a, f, t') == Strength(b, f, t');
        }
      }
      assert forall t' :: t' in a[f] ==> a[f][t'] == b[f][t'] by {
        forall t' | t' in a[f] ensures a[f][t'] == b[f][t'] {
          assert Strength(a, f, t') == Strength(b, f, t');
        }
      }
    }
    forall f | f in b ensures f in a {
      var t :| t in b[f];
      assert Strength(b, f, t).Some?;
    }
  }
}
