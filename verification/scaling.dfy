/** The drawing sizes of both concept-network scripts, in exact real
    arithmetic: bubble radius and font size from a concept's mention count,
    arrow width and opacity from a link's strength, each relative to the
    largest value (`max_connections`, `max_link_strength`). Python divides
    with `/`, so `count / max` is a true quotient here as there. */
module Scaling {
  import opened Common
  import opened ConceptTable
  import opened ConceptLinks

  /** `0.3 + 0.8 * (count / max_connections)`. */
  function BubbleRadius(count: int, maxCount: int): (r: real)
    requires maxCount != 0
    ensures 0 < count <= maxCount ==> 0.3 < r <= 1.1
    ensures 0 < maxCount ==> (r == 1.1 <==> count == maxCount)
  {
    0.3 + 0.8 * (count as real / maxCount as real)
  }

  /** `1.0 + 3.0 * (strength / max_link_strength)`. */
  function ArrowWidth(strength: int, maxStrength: int): (w: real)
    requires maxStrength != 0
    ensures 0 < strength <= maxStrength ==> 1.0 < w <= 4.0
    ensures 0 < maxStrength ==> (w == 4.0 <==> strength == maxStrength)
  {
    1.0 + 3.0 * (strength as real / maxStrength as real)
  }

  /** `0.4 + 0.5 * (strength / max_link_strength)`. */
  function ArrowAlpha(strength: int, maxStrength: int): (a: real)
    requires maxStrength != 0
    ensures 0 < strength <= maxStrength ==> 0.4 < a <= 0.9
    ensures 0 < maxStrength ==> (a == 0.9 <==> strength == maxStrength)
  {
    0.4 + 0.5 * (strength as real / maxStrength as real)
  }

  /** `max(8, min(12, 7 + 3 * (count / max_connections)))`: clamped to
      [8, 12]; for counts up to the maximum it never exceeds 10, and it sits
      at the floor of 8 exactly for counts up to a third of the maximum. */
  function FontSize(count: int, maxCount: int): (f: real)
    requires maxCount != 0
    ensures 8.0 <= f <= 12.0
    ensures 0 < count <= maxCount ==> f <= 10.0
    ensures 0 < maxCount ==> (f == 8.0 <==> 3 * count <= maxCount)
  {
    var ratio := count as real / maxCount as real;
    assert 0 < maxCount ==> (3 * count <= maxCount <==> ratio <= 1.0 / 3.0) by {
      if 0 < maxCount {
        assert ratio * maxCount as real == count as real;
      }
    }
    assert 0 < count <= maxCount ==> ratio <= 1.0 by {
      if 0 < count <= maxCount && ratio > 1.0 {
        assert false;
      }
    }
    MaxReal(8.0, MinReal(12.0, 7.0 + 3.0 * ratio))
  }

  /** A larger count never gives a smaller bubble or font. */
  lemma CountScalingMonotone(c1: int, c2: int, maxCount: int)
    requires 0 < maxCount && c1 <= c2
    ensures BubbleRadius(c1, maxCount) <= BubbleRadius(c2, maxCount)
    ensures FontSize(c1, maxCount) <= FontSize(c2, maxCount)
  {
    DivMonotone(c1 as real, c2 as real, maxCount as real);
  }

  /** A stronger link never gets a thinner or fainter arrow. */
  lemma StrengthScalingMonotone(s1: int, s2: int, maxStrength: int)
    requires 0 < maxStrength && s1 <= s2
    ensures ArrowWidth(s1, maxStrength) <= ArrowWidth(s2, maxStrength)
    ensures ArrowAlpha(s1, maxStrength) <= ArrowAlpha(s2, maxStrength)
  {
    DivMonotone(s1 as real, s2 as real, maxStrength as real);
  }

  /** Dividing by a positive number keeps the order. */
  lemma DivMonotone(a: real, b: real, m: real)
    requires 0.0 < m && a <= b
    ensures a / m <= b / m
  {
    var inv := 1.0 / m;
    assert a / m == a * inv && b / m == b * inv;
    assert b * inv - a * inv == (b - a) * inv;
  }

  /** The counts of a table in key order: `concepts.values()`. */
  function Values(t: Table): (vs: seq<int>)
    requires Valid(t)
    ensures |vs| == |t.keys|
    ensures forall i :: 0 <= i < |vs| ==> vs[i] == t.counts[t.keys[i]]
  {
    seq(|t.keys|, i requires 0 <= i < |t.keys| => t.counts[t.keys[i]])
  }

  /** `max(concepts.values())`; `None` where Python raises on an empty table. */
  function MaxCount(t: Table): (m: Option<int>)
    requires Valid(t)
    ensures m.None? <==> t.counts == map[]
    ensures m.Some? ==> m.value in t.counts.Values
    ensures m.Some? ==> forall k :: k in t.counts ==> t.counts[k] <= m.value
  {
    if t.keys == [] then
      assert forall k :: k !in t.counts;
      None
    else
      var vs := Values(t);
      var m := SeqMax(vs);
      assert t.keys[0] in t.counts;
      forall k | k in t.counts ensures t.counts[k] <= m {
        var i :| 0 <= i < |t.keys| && t.keys[i] == k;
        assert vs[i] == t.counts[k];
      }
      var i :| 0 <= i < |vs| && vs[i] == m;
      assert t.counts[t.keys[i]] == m;
      Some(m)
  }

  /** `m` is `max_link_strength`: the largest strength of any stored link.
      Empty inner dicts are skipped by the source and hold no strength here. */
  ghost predicate IsMaxStrength(links: Links, m: int)
    ensures IsMaxStrength(links, m) ==> links != map[]
  {
    && (exists f, t :: Strength(links, f, t) == Some(m))
    && (forall f, t :: Strength(links, f, t).Some? ==> Strength(links, f, t).value <= m)
  }

  /** With positive strengths, every arrow drawn is between 1 and 4 wide and
      between 0.4 and 0.9 opaque, and the strongest link gets the extremes. */
  lemma ArrowStylesInRange(links: Links, m: int, f: string, t: string)
    requires IsMaxStrength(links, m)
    requires forall f', t' :: Strength(links, f', t').Some? ==> Strength(links, f', t').value > 0
    requires Strength(links, f, t).Some?
    ensures m > 0
    ensures 1.0 < ArrowWidth(Strength(links, f, t).value, m) <= 4.0
    ensures 0.4 < ArrowAlpha(Strength(links, f, t).value, m) <= 0.9
    ensures Strength(links, f, t).value == m ==> ArrowWidth(m, m) == 4.0 && ArrowAlpha(m, m) == 0.9
  {
    var f', t' :| Strength(links, f', t') == Some(m);
    assert Strength(links, f', t').value > 0;
  }

  /** There is only one maximum strength. */
  lemma MaxStrengthUnique(links: Links, m1: int, m2: int)
    requires IsMaxStrength(links, m1) && IsMaxStrength(links, m2)
    ensures m1 == m2
  {
    var f1, t1 :| Strength(links, f1, t1) == Some(m1);
    var f2, t2 :| Strength(links, f2, t2) == Some(m2);
    assert m1 <= m2 && m2 <= m1;
  }
}
