/** The hierarchical ring layout shared by both concept-network scripts.
    Concepts are ordered by mention count, highest first, keeping the key
    order among equal counts (`sorted(..., key=count, reverse=True)` is
    stable); rank 0 sits at the centre, ranks 1-6 on the inner ring, ranks
    7-14 on the middle ring and the rest on the outer ring. A position is
    kept in polar form: the ring's radius and the angle as a fraction of a
    full turn, so `turn` stands for `angle / (2 * pi)`. */
module RingLayout {
  import opened Common

  // ---------------------------------------------------------------------
  // The stable descending sort

  ghost predicate AllIn(s: seq<string>, counts: map<string, int>) {
    forall x :: x in s ==> x in counts
  }

  /** Counts never increase along `s`. */
  ghost predicate SortedDesc(s: seq<string>, counts: map<string, int>)
    requires AllIn(s, counts)
  {
    forall i, j :: 0 <= i < j < |s| ==> counts[s[i]] >= counts[s[j]]
  }

  /** The members of `s` whose count is `c`, in their order in `s`. */
  function WithCount(s: seq<string>, counts: map<string, int>, c: int): seq<string>
    requires AllIn(s, counts)
  {
    if s == [] then []
    else (if counts[s[0]] == c then [s[0]] else []) + WithCount(s[1..], counts, c)
  }

  /** Puts `x` in front of the first member whose count does not exceed its own. */
  function Insert(x: string, s: seq<string>, counts: map<string, int>): (r: seq<string>)
    requires x in counts && AllIn(s, counts)
    ensures multiset(r) == multiset(s) + multiset{x}
    ensures AllIn(r, counts)
  {
    if s == [] then [x]
    else if counts[s[0]] <= counts[x] then [x] + s
    else
      var rest := Insert(x, s[1..], counts);
      assert s == [s[0]] + s[1..];
      assert forall y :: y in [s[0]] + rest ==> y in multiset(rest) || y == s[0];
      [s[0]] + rest
  }

  lemma {:induction false} InsertKeepsSorted(x: string, s: seq<string>, counts: map<string, int>)
    requires x in counts && AllIn(s, counts)
    requires SortedDesc(s, counts)
    ensures SortedDesc(Insert(x, s, counts), counts)
  {
    if s != [] && counts[s[0]] > counts[x] {
      InsertKeepsSorted(x, s[1..], counts);
      InsertBelowHead(x, s, counts);
      assert Insert(x, s, counts) == [s[0]] + Insert(x, s[1..], counts);
      SortedCons(s[0], Insert(x, s[1..], counts), counts);
    }
  }

  /** When the head of a sorted list outranks `x`, it outranks everything
      in the insertion of `x` into the rest of the list. */
  lemma InsertBelowHead(x: string, s: seq<string>, counts: map<string, int>)
    requires x in counts && AllIn(s, counts) && SortedDesc(s, counts)
    requires s != [] && counts[s[0]] > counts[x]
    ensures forall j :: 0 <= j < |Insert(x, s[1..], counts)| ==> counts[s[0]] >= counts[Insert(x, s[1..], counts)[j]]
  {
    var rest := Insert(x, s[1..], counts);
    forall j | 0 <= j < |rest| ensures counts[s[0]] >= counts[rest[j]] {
      var y := rest[j];
      assert y in multiset(rest);
      if y != x {
        assert y in multiset(s[1..]);
        var k :| 0 <= k < |s[1..]| && s[1..][k] == y;
        assert s[k + 1] == y;
      }
    }
  }

  /** A list stays sorted when an element no smaller than all of it goes in front. */
  lemma SortedCons(y: string, r: seq<string>, counts: map<string, int>)
    requires y in counts && AllIn(r, counts) && SortedDesc(r, counts)
    requires forall j :: 0 <= j < |r| ==> counts[y] >= counts[r[j]]
    ensures AllIn([y] + r, counts) && SortedDesc([y] + r, counts)
  {
    var s := [y] + r;
    forall i, j | 0 <= i < j < |s| ensures counts[s[i]] >= counts[s[j]] {
      if i == 0 {
        assert s[j] == r[j - 1];
      } else {
        assert s[i] == r[i - 1] && s[j] == r[j - 1];
      }
    }
  }

  /** No element repeats exactly when every multiplicity is at most one. */
  lemma {:induction false} MultisetDistinct(s: seq<string>)
    ensures Distinct(s) <==> forall y :: multiset(s)[y] <= 1
  {
    if s != [] {
      var t := s[1..];
      assert s == [s[0]] + t;
      MultisetDistinct(t);
      if Distinct(s) {
        assert s[0] !in t by {
          forall j | 0 <= j < |t| ensures t[j] != s[0] { assert t[j] == s[j + 1]; }
        }
        assert Distinct(t) by {
          forall i, j | 0 <= i < j < |t| ensures t[i] != t[j] { assert t[i] == s[i + 1] && t[j] == s[j + 1]; }
        }
      }
      if forall y :: multiset(s)[y] <= 1 {
        assert multiset(t)[s[0]] == 0;
        assert forall y :: multiset(t)[y] <= multiset(s)[y];
        forall i, j | 0 <= i < j < |s| ensures s[i] != s[j] {
          if i == 0 { assert s[j] == t[j - 1]; assert s[j] in multiset(t); }
          else { assert s[i] == t[i - 1] && s[j] == t[j - 1]; }
        }
      }
    }
  }

  /** `sorted(names, key=lambda x: counts[x], reverse=True)`. */
  function SortByCountDesc(names: seq<string>, counts: map<string, int>): (sorted: seq<string>)
    requires AllIn(names, counts)
    ensures multiset(sorted) == multiset(names)
    ensures |sorted| == |names|
    ensures AllIn(sorted, counts)
    ensures SortedDesc(sorted, counts)
    ensures Distinct(names) ==> Distinct(sorted)
  {
    if names == [] then []
    else
      var rest := SortByCountDesc(names[1..], counts);
      assert names == [names[0]] + names[1..];
      InsertKeepsSorted(names[0], rest, counts);
      MultisetDistinct(names);
      MultisetDistinct(Insert(names[0], rest, counts));
      assert |multiset(rest)| == |multiset(names[1..])|;
      Insert(names[0], rest, counts)
  }

  lemma WithCountCons(y: string, s: seq<string>, counts: map<string, int>, c: int)
    requires y in counts && AllIn(s, counts)
    ensures WithCount([y] + s, counts, c) == (if counts[y] == c then [y] else []) + WithCount(s, counts, c)
  {
    assert ([y] + s)[1..] == s;
  }

  lemma {:induction false} InsertKeepsEqualCountOrder(x: string, s: seq<string>, counts: map<string, int>, c: int)
    requires x in counts && AllIn(s, counts)
    ensures WithCount(Insert(x, s, counts), counts, c)
        == (if counts[x] == c then [x] else []) + WithCount(s, counts, c)
  {
    if s == [] {
      assert Insert(x, s, counts) == [x] + s;
      WithCountCons(x, s, counts, c);
    } else if counts[s[0]] <= counts[x] {
      assert Insert(x, s, counts) == [x] + s;
      WithCountCons(x, s, counts, c);
    } else {
      var tail := s[1..];
      var rest := Insert(x, tail, counts);
      InsertKeepsEqualCountOrder(x, tail, counts, c);
      assert Insert(x, s, counts) == [s[0]] + rest;
      assert s == [s[0]] + tail;
      PrefixBeforeInsert(s[0], x, tail, rest, counts, c);
    }
  }

  /** A member with a larger count than `x`, put in front of both sides,
      leaves the equal-count order of an insertion of `x` unchanged. */
  lemma PrefixBeforeInsert(y: string, x: string, tail: seq<string>, rest: seq<string>, counts: map<string, int>, c: int)
    requires x in counts && y in counts && AllIn(tail, counts) && AllIn(rest, counts)
    requires counts[y] > counts[x]
    requires WithCount(rest, counts, c) == (if counts[x] == c then [x] else []) + WithCount(tail, counts, c)
    ensures WithCount([y] + rest, counts, c) == (if counts[x] == c then [x] else []) + WithCount([y] + tail, counts, c)
  {
    WithCountCons(y, rest, counts, c);
    WithCountCons(y, tail, counts, c);
    var head := if counts[y] == c then [y] else [];
    var mine := if counts[x] == c then [x] else [];
    assert head == [] || mine == [];
    assert head + (mine + WithCount(tail, counts, c)) == mine + (head + WithCount(tail, counts, c));
  }

  /** Stability: among concepts with the same count, the sorted order is the
      original key order. */
  lemma {:induction false} SortIsStable(names: seq<string>, counts: map<string, int>, c: int)
    requires AllIn(names, counts)
    ensures WithCount(SortByCountDesc(names, counts), counts, c) == WithCount(names, counts, c)
  {
    if names != [] {
      SortIsStable(names[1..], counts, c);
      InsertKeepsEqualCountOrder(names[0], SortByCountDesc(names[1..], counts), counts, c);
    }
  }

  /** Sorting neither adds nor drops a name: a reordering of `names` has
      exactly the names of `names` at its ranks. */
  lemma SortedRanksCoverNames(sorted: seq<string>, names: seq<string>)
    requires multiset(sorted) == multiset(names)
    ensures (set k | 0 <= k < |sorted| :: sorted[k]) == set c | c in names
  {
    var ranked := set k | 0 <= k < |sorted| :: sorted[k];
    forall c | c in ranked ensures c in names {
      var k :| 0 <= k < |sorted| && sorted[k] == c;
      assert c in multiset(sorted);
    }
    forall c | c in names ensures c in ranked {
      assert c in multiset(names);
      var k :| 0 <= k < |sorted| && sorted[k] == c;
    }
  }

  // ---------------------------------------------------------------------
  // Rings, slices and slots

  datatype Ring = Center | Inner | Middle | Outer

  /** The order of `layout_plan`, which is the order the layers are placed in. */
  const LayoutPlan: seq<Ring> := [Center, Inner, Middle, Outer]

  /** The slice `sorted[start:stop]` of each ring, with Python's clamping of
      slice bounds to the length `n`. */
  function SliceStart(ring: Ring, n: nat): (lo: nat)
    ensures lo <= n
  {
    match ring
    case Center => 0
    case Inner => if 1 <= n then 1 else n
    case Middle => if 7 <= n then 7 else n
    case Outer => if 15 <= n then 15 else n
  }

  function SliceStop(ring: Ring, n: nat): (hi: nat)
    ensures SliceStart(ring, n) <= hi <= n
  {
    match ring
    case Center => if 1 <= n then 1 else n
    case Inner => if 7 <= n then 7 else n
    case Middle => if 15 <= n then 15 else n
    case Outer => n
  }

  /** The number of concepts on a ring, as the four slices give it. */
  function RingSize(ring: Ring, n: nat): (size: nat)
    ensures ring == Center ==> size == Min(1, n)
    ensures ring == Inner ==> size == Min(6, Max(0, n - 1))
    ensures ring == Middle ==> size == Min(8, Max(0, n - 7))
    ensures ring == Outer ==> size == Max(0, n - 15)
  {
    SliceStop(ring, n) - SliceStart(ring, n)
  }

  /** The ring that rank `k` belongs to. */
  function RingOfRank(k: nat): (r: Ring)
    ensures RingBase(r) <= k
    ensures r != Outer ==> k - RingBase(r) < RingSize(r, 15)
    ensures r == Center <==> k == 0
    ensures r == Outer <==> 15 <= k
  {
    if k == 0 then Center else if k < 7 then Inner else if k < 15 then Middle else Outer
  }

  /** The ring's first rank; `k - RingBase(r)` is the slot inside the ring. */
  function RingBase(ring: Ring): nat {
    match ring
    case Center => 0
    case Inner => 1
    case Middle => 7
    case Outer => 15
  }

  function Radius(ring: Ring): real {
    match ring
    case Center => 0.0
    case Inner => 3.5
    case Middle => 6.5
    case Outer => 9.5
  }

  datatype Position = Polar(radius: real, turn: real)

  /** Slot `i` of a ring holding `size` concepts: evenly spaced, and the
      middle ring shifted by half a spacing. */
  function SlotPosition(ring: Ring, i: nat, size: nat): (p: Position)
    requires i < size
    ensures p.radius == Radius(ring)
    ensures 0.0 <= p.turn < 1.0
  {
    match ring
    case Center => Polar(0.0, 0.0)
    case Middle =>
      FractionBelowOne(2 * i + 1, 2 * size);
      Polar(Radius(ring), (2 * i + 1) as real / (2 * size) as real)
    case _ =>
      FractionBelowOne(i, size);
      Polar(Radius(ring), i as real / size as real)
  }

  /** Where the concept of rank `k` among `n` goes. */
  function Placement(k: nat, n: nat): (p: Position)
    requires k < n
    ensures p.radius == Radius(RingOfRank(k))
    ensures 0.0 <= p.turn < 1.0
  {
    var ring := RingOfRank(k);
    SlotPosition(ring, k - RingBase(ring), RingSize(ring, n))
  }

  /** The placement of rank `k` among `n`, tier by tier. */
  lemma PlacementByTier(k: nat, n: nat)
    requires k < n
    ensures k == 0 ==> Placement(k, n) == Polar(0.0, 0.0)
    ensures 1 <= k <= 6 ==> Placement(k, n) == Polar(3.5, (k - 1) as real / Min(6, n - 1) as real)
    ensures 7 <= k <= 14 ==> Placement(k, n) == Polar(6.5, (2 * (k - 7) + 1) as real / (2 * Min(8, n - 7)) as real)
    ensures 15 <= k ==> Placement(k, n) == Polar(9.5, (k - 15) as real / (n - 15) as real)
  {
  }

  /** A rank lies in the slice of exactly one ring, and that ring is the
      one `RingOfRank` names. */
  lemma RankInSlice(k: nat, n: nat, ring: Ring)
    requires k < n
    ensures SliceStart(ring, n) <= k < SliceStop(ring, n) <==> ring == RingOfRank(k)
    ensures ring == RingOfRank(k) ==> SliceStart(ring, n) == RingBase(ring)
  {
  }

  /** The four slices cover the ranks without overlap: each concept gets
      exactly one slot. */
  lemma RingSizesAddUp(n: nat)
    ensures RingSize(Center, n) + RingSize(Inner, n) + RingSize(Middle, n) + RingSize(Outer, n) == n
    ensures SliceStart(Center, n) == 0
    ensures SliceStart(Inner, n) == SliceStop(Center, n)
    ensures SliceStart(Middle, n) == SliceStop(Inner, n)
    ensures SliceStart(Outer, n) == SliceStop(Middle, n)
    ensures SliceStop(Outer, n) == n
  {
  }

  /** Neighbouring slots of a ring are one `size`-th of a turn apart. */
  lemma SlotSpacingUniform(ring: Ring, i: nat, size: nat)
    requires ring != Center
    requires i + 1 < size
    ensures SlotPosition(ring, i + 1, size).turn - SlotPosition(ring, i, size).turn == 1.0 / size as real
  {
    if ring == Middle {
      var d := (2 * size) as real;
      assert (2 * (i + 1) + 1) as real / d - (2 * i + 1) as real / d == 2.0 / d;
    }
  }

  /** Different slots of one ring have different angles. */
  lemma SlotsDistinct(ring: Ring, i: nat, j: nat, size: nat)
    requires ring != Center
    requires i < size && j < size && i != j
    ensures SlotPosition(ring, i, size) != SlotPosition(ring, j, size)
  {
    if ring == Middle {
      FractionsDiffer(2 * i + 1, 2 * j + 1, 2 * size);
    } else {
      FractionsDiffer(i, j, size);
    }
  }

  lemma FractionBelowOne(a: nat, b: nat)
    requires a < b
    ensures 0.0 <= a as real / b as real < 1.0
  {
    var q := a as real / b as real;
    assert q * b as real == a as real;
  }

  lemma FractionsDiffer(a: nat, c: nat, b: nat)
    requires b > 0 && a != c
    ensures a as real / b as real != c as real / b as real
  {
    assert (a as real / b as real) * b as real == a as real;
    assert (c as real / b as real) * b as real == c as real;
  }

  /** No two ranks share a position. */
  lemma PlacementInjective(k1: nat, k2: nat, n: nat)
    requires k1 < n && k2 < n && k1 != k2
    ensures Placement(k1, n) != Placement(k2, n)
  {
    var r1, r2 := RingOfRank(k1), RingOfRank(k2);
    if r1 == r2 {
      RankInSlice(k1, n, r1);
      RankInSlice(k2, n, r2);
      SlotsDistinct(r1, k1 - RingBase(r1), k2 - RingBase(r1), RingSize(r1, n));
    }
  }

  /** The number of ranks placed before ring `r` of the plan is processed. */
  function Placed(r: nat, n: nat): (m: nat)
    requires r <= |LayoutPlan|
    ensures m <= n
  {
    if r == 0 then 0 else SliceStop(LayoutPlan[r - 1], n)
  }

  /** The middle ring's half-spacing offset `pi / n` plus `2 pi i / n` is
      the fraction (2i + 1) / 2n of a turn. */
  lemma HalfSlotOffset(i: nat, size: nat)
    requires 0 < size
    ensures 1.0 / (2 * size) as real + i as real / size as real == (2 * i + 1) as real / (2 * size) as real
  {
    var d := (2 * size) as real;
    assert i as real / size as real == (2 * i) as real / d;
  }

  /** The first `m` concepts of `sorted`, and no others, have the positions
      their ranks dictate. */
  ghost predicate PlacedUpTo(positions: map<string, Position>, sorted: seq<string>, m: nat)
    requires m <= |sorted|
  {
    && positions.Keys == (set k | 0 <= k < m :: sorted[k])
    && forall k :: 0 <= k < m ==> positions[sorted[k]] == Placement(k, |sorted|)
  }

  lemma PlaceNext(positions: map<string, Position>, sorted: seq<string>, m: nat)
    requires Distinct(sorted) && m < |sorted|
    requires PlacedUpTo(positions, sorted, m)
    ensures PlacedUpTo(positions[sorted[m] := Placement(m, |sorted|)], sorted, m + 1)
  {
    assert (set k | 0 <= k < m + 1 :: sorted[k]) == (set k | 0 <= k < m :: sorted[k]) + {sorted[m]};
  }

  /** The first concept goes to the origin. */
  lemma PlaceCentre(positions: map<string, Position>, sorted: seq<string>)
    requires Distinct(sorted) && 0 < |sorted|
    requires PlacedUpTo(positions, sorted, 0)
    ensures PlacedUpTo(positions[sorted[0] := Polar(0.0, 0.0)], sorted, 1)
  {
    PlaceNext(positions, sorted, 0);
    assert Placement(0, |sorted|) == Polar(0.0, 0.0);
  }

  /** Once every concept is placed, no two share a position. */
  lemma PlacedInjective(positions: map<string, Position>, sorted: seq<string>)
    requires PlacedUpTo(positions, sorted, |sorted|)
    ensures forall x, y :: x in positions && y in positions && x != y ==> positions[x] != positions[y]
  {
    forall x, y | x in positions && y in positions && x != y ensures positions[x] != positions[y] {
      var k1 :| 0 <= k1 < |sorted| && sorted[k1] == x;
      var k2 :| 0 <= k2 < |sorted| && sorted[k2] == y;
      PlacementInjective(k1, k2, |sorted|);
    }
  }

  /** Slot `i` of a non-empty ring, computed as the layer loop does, is the
      placement of rank `SliceStart + i`. */
  lemma SlotPlacement(ring: Ring, i: nat, n: nat)
    requires ring != Center
    requires SliceStart(ring, n) + i < SliceStop(ring, n)
    ensures var size := RingSize(ring, n);
      var offset := if ring == Middle then 1.0 / (2 * size) as real else 0.0;
      Placement(SliceStart(ring, n) + i, n) == Polar(Radius(ring), offset + i as real / size as real)
  {
    var k := SliceStart(ring, n) + i;
    RankInSlice(k, n, ring);
    if ring == Middle {
      HalfSlotOffset(i, RingSize(ring, n));
    }
  }

  /** The loop over one non-empty ring other than the centre: member `i`
      goes to the ring's radius at `offset + i / size` of a turn, where the
      offset is half a spacing on the middle ring and nothing elsewhere. */
  method PlaceRing(sorted: seq<string>, ring: Ring, positions: map<string, Position>)
      returns (placed: map<string, Position>)
    requires Distinct(sorted) && ring != Center
    requires SliceStart(ring, |sorted|) < SliceStop(ring, |sorted|)
    requires PlacedUpTo(positions, sorted, SliceStart(ring, |sorted|))
    ensures PlacedUpTo(placed, sorted, SliceStop(ring, |sorted|))
  {
    var n := |sorted|;
    var lo, hi := SliceStart(ring, n), SliceStop(ring, n);
    var members := sorted[lo..hi];
    var size := |members|;
    var radius := Radius(ring);
    var offset := if ring == Middle then 1.0 / (2 * size) as real else 0.0;
    placed := positions;
    for i := 0 to size
      invariant PlacedUpTo(placed, sorted, lo + i)
    {
      var slot := Polar(radius, offset + i as real / size as real);
      assert PlacedUpTo(placed[members[i] := slot], sorted, lo + i + 1) by {
        assert members[i] == sorted[lo + i] && size == RingSize(ring, n);
        PlaceSlot(placed, sorted, ring, i);
      }
      placed := placed[members[i] := slot];
    }
  }

  /** Placing member `i` of a ring as the ring loop does extends the placed
      prefix by one rank. */
  lemma PlaceSlot(positions: map<string, Position>, sorted: seq<string>, ring: Ring, i: nat)
    requires Distinct(sorted) && ring != Center
    requires SliceStart(ring, |sorted|) + i < SliceStop(ring, |sorted|)
    requires PlacedUpTo(positions, sorted, SliceStart(ring, |sorted|) + i)
    ensures var size := RingSize(ring, |sorted|);
      var offset := if ring == Middle then 1.0 / (2 * size) as real else 0.0;
      var k := SliceStart(ring, |sorted|) + i;
      PlacedUpTo(positions[sorted[k] := Polar(Radius(ring), offset + i as real / size as real)], sorted, k + 1)
  {
    var n := |sorted|;
    var size := RingSize(ring, n);
    var offset := if ring == Middle then 1.0 / (2 * size) as real else 0.0;
    var k := SliceStart(ring, n) + i;
    SlotPlacement(ring, i, n);
    PlaceNext(positions, sorted, k);
    assert Placement(k, n) == Polar(Radius(ring), offset + i as real / size as real);
  }

  /** The slice of ring `r` of the plan starts where the earlier rings
      stop. */
  lemma PlanSlice(r: nat, n: nat)
    requires r < |LayoutPlan|
    ensures SliceStart(LayoutPlan[r], n) == Placed(r, n)
    ensures SliceStop(LayoutPlan[r], n) == Placed(r + 1, n)
  {
    RingSizesAddUp(n);
  }

  /** One pass of the layer loop: skip an empty ring, put the single centre
      concept at the origin, and spread the members of any other ring
      evenly over it. */
  method PlaceLayer(sorted: seq<string>, r: nat, positions: map<string, Position>)
      returns (placed: map<string, Position>)
    requires Distinct(sorted) && r < |LayoutPlan|
    requires PlacedUpTo(positions, sorted, Placed(r, |sorted|))
    ensures PlacedUpTo(placed, sorted, Placed(r + 1, |sorted|))
  {
    var n := |sorted|;
    var ring := LayoutPlan[r];
    var lo, hi := SliceStart(ring, n), SliceStop(ring, n);
    PlanSlice(r, n);
    var members := sorted[lo..hi];
    placed := positions;
    if members == [] {
      return;
    }
    if ring == Center {
      PlaceCentre(positions, sorted);
      assert members[0] == sorted[0] && hi == 1;
      placed := positions[members[0] := Polar(0.0, 0.0)];
    } else {
      placed := PlaceRing(sorted, ring, positions);
    }
  }

  /** Once every rank is placed, the positions are keyed by exactly the
      concepts, each at its rank's placement, and no two coincide. */
  lemma PlacedAll(positions: map<string, Position>, sorted: seq<string>)
    requires PlacedUpTo(positions, sorted, |sorted|)
    ensures positions.Keys == set k | 0 <= k < |sorted| :: sorted[k]
    ensures forall k :: 0 <= k < |sorted| ==> positions[sorted[k]] == Placement(k, |sorted|)
    ensures forall x, y :: x in positions && y in positions && x != y ==> positions[x] != positions[y]
  {
    PlacedInjective(positions, sorted);
  }

  /** The layer loop shared by both layouts: walk the plan ring by ring.
      Every concept ends with the position its rank dictates, and no two
      concepts share a position. */
  method PlaceRings(sorted: seq<string>) returns (positions: map<string, Position>)
    requires Distinct(sorted)
    ensures positions.Keys == set k | 0 <= k < |sorted| :: sorted[k]
    ensures forall k :: 0 <= k < |sorted| ==> positions[sorted[k]] == Placement(k, |sorted|)
    ensures forall x, y :: x in positions && y in positions && x != y ==> positions[x] != positions[y]
  {
    var n := |sorted|;
    positions := map[];
    for r := 0 to |LayoutPlan|
      invariant PlacedUpTo(positions, sorted, Placed(r, n))
    {
      positions := PlaceLayer(sorted, r, positions);
    }
    PlanSlice(|LayoutPlan| - 1, n);
    PlacedAll(positions, sorted);
  }
}
