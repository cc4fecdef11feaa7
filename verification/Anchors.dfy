/**
 Anchored decompositions `integer_anchors` and `moment_bypass`: each group of
 weights is split into one integer anchor and a residual. The residual always
 stays a signed byte, the decomposition is exact for every input, and the anchor
 minimises the group's L1 residual among all admissible integers.
 */
module Anchors {
  import opened Wrappers
  import opened Modular
  import opened Sequences
  import opened SignedBytes
  import RingWidths

  // ----- Order statistics

  function Insert(s: seq<int>, x: int): (r: seq<int>)
    ensures |r| == |s| + 1
  {
    if s == [] || x <= s[0] then [x] + s else [s[0]] + Insert(s[1..], x)
  }

  function Sorted(g: seq<int>): (s: seq<int>)
    ensures |s| == |g|
  {
    if g == [] then [] else Insert(Sorted(g[1..]), g[0])
  }

  predicate Ascending(s: seq<int>) {
    forall i, j | 0 <= i < j < |s| :: s[i] <= s[j]
  }

  function CountBelow(g: seq<int>, a: int): nat {
    if g == [] then 0 else (if g[0] < a then 1 else 0) + CountBelow(g[1..], a)
  }

  function CountAbove(g: seq<int>, a: int): nat {
    if g == [] then 0 else (if g[0] > a then 1 else 0) + CountAbove(g[1..], a)
  }

  lemma {:induction false} InsertCounts(s: seq<int>, x: int, a: int)
    ensures CountBelow(Insert(s, x), a) == CountBelow(s, a) + (if x < a then 1 else 0)
    ensures CountAbove(Insert(s, x), a) == CountAbove(s, a) + (if x > a then 1 else 0)
  {
    if s == [] || x <= s[0] {
      assert ([x] + s)[1..] == s;
    } else {
      InsertCounts(s[1..], x, a);
      assert Insert(s, x)[1..] == Insert(s[1..], x);
    }
  }

  lemma {:induction false} SortedCounts(g: seq<int>, a: int)
    ensures CountBelow(Sorted(g), a) == CountBelow(g, a)
    ensures CountAbove(Sorted(g), a) == CountAbove(g, a)
  {
    if g != [] {
      SortedCounts(g[1..], a);
      InsertCounts(Sorted(g[1..]), g[0], a);
    }
  }

  lemma {:induction false} InsertAscending(s: seq<int>, x: int)
    requires Ascending(s)
    ensures Ascending(Insert(s, x))
    ensures forall i | 0 <= i <= |s| :: Insert(s, x)[i] == x || Insert(s, x)[i] in s
  {
    if s != [] && x > s[0] {
      InsertAscending(s[1..], x);
    }
  }

  lemma {:induction false} SortedAscending(g: seq<int>)
    ensures Ascending(Sorted(g))
  {
    if g != [] {
      SortedAscending(g[1..]);
      InsertAscending(Sorted(g[1..]), g[0]);
    }
  }

  /** In an ascending sequence, at most k entries lie below anything up to entry k. */
  lemma {:induction false} BelowRank(s: seq<int>, k: nat, a: int)
    requires Ascending(s) && k < |s| && a <= s[k]
    ensures CountBelow(s, a) <= k
  {
    if k == 0 {
      NoneBelow(s, a);
    } else {
      BelowRank(s[1..], k - 1, a);
    }
  }

  lemma {:induction false} NoneBelow(s: seq<int>, a: int)
    requires forall i | 0 <= i < |s| :: a <= s[i]
    ensures CountBelow(s, a) == 0
  {
    if s != [] {
      NoneBelow(s[1..], a);
    }
  }

  lemma {:induction false} AboveRank(s: seq<int>, k: nat, a: int)
    requires Ascending(s) && k < |s| && a >= s[k]
    ensures CountAbove(s, a) <= |s| - 1 - k
  {
    if k > 0 {
      AboveRank(s[1..], k - 1, a);
    } else {
      AboveBound(s[1..], a);
    }
  }

  lemma {:induction false} AboveBound(s: seq<int>, a: int)
    ensures CountAbove(s, a) <= |s|
  {
    if s != [] {
      AboveBound(s[1..], a);
    }
  }

  // ----- The L1 norm of the residual

  function L1(g: seq<int>, a: int): nat {
    if g == [] then 0 else Abs(g[0] - a) + L1(g[1..], a)
  }

  /** At most half the entries lie on either side. */
  ghost predicate IsMedian(g: seq<int>, m: int) {
    2 * CountBelow(g, m) <= |g| && 2 * CountAbove(g, m) <= |g|
  }

  /** Moving the anchor one step changes the norm by the balance of the two sides. */
  lemma {:induction false} L1Step(g: seq<int>, a: int)
    ensures L1(g, a + 1) == L1(g, a) + |g| - 2 * CountAbove(g, a)
    ensures L1(g, a - 1) == L1(g, a) + |g| - 2 * CountBelow(g, a)
  {
    if g != [] {
      L1Step(g[1..], a);
    }
  }

  lemma {:induction false} CountsMonotone(g: seq<int>, a: int, b: int)
    requires a <= b
    ensures CountAbove(g, b) <= CountAbove(g, a) && CountBelow(g, a) <= CountBelow(g, b)
  {
    if g != [] {
      CountsMonotone(g[1..], a, b);
    }
  }

  /** The norm does not fall when moving away from a median. */
  lemma {:induction false} L1AwayFromMedian(g: seq<int>, m: int, near: int, far: int)
    requires IsMedian(g, m) && (m <= near <= far || far <= near <= m)
    ensures L1(g, near) <= L1(g, far)
    decreases Abs(far - near)
  {
    if near < far {
      L1AwayFromMedian(g, m, near, far - 1);
      L1Step(g, far - 1);
      CountsMonotone(g, m, far - 1);
    } else if far < near {
      L1AwayFromMedian(g, m, near, far + 1);
      L1Step(g, far + 1);
      CountsMonotone(g, far + 1, m);
    }
  }

  function Clip(m: int, low: int, high: int): (c: int)
    ensures low <= high ==> low <= c <= high
  {
    var raised := if m < low then low else m;
    if raised > high then high else raised
  }

  /** A clipped median minimises the norm over the interval. */
  lemma ClippedMedianOptimal(g: seq<int>, m: int, low: int, high: int, a: int)
    requires IsMedian(g, m) && low <= a <= high
    ensures L1(g, Clip(m, low, high)) <= L1(g, a)
  {
    var c := Clip(m, low, high);
    if m < low {
      L1AwayFromMedian(g, m, low, a);
    } else if m > high {
      L1AwayFromMedian(g, m, high, a);
    } else {
      L1AwayFromMedian(g, m, m, a);
    }
  }

  // ----- The two medians

  /** `np.partition(group, (block - 1) // 2)[(block - 1) // 2]`. */
  function LowerMedian(g: seq<int>): int
    requires g != []
  {
    Sorted(g)[(|g| - 1) / 2]
  }

  /** `floor(np.median(group))`: the middle entry, or the floored mean of the middle two. */
  function FlooredMedian(g: seq<int>): int
    requires g != []
  {
    var s, h := Sorted(g), |g| / 2;
    if |g| % 2 == 1 then s[h] else (s[h - 1] + s[h]) / 2
  }

  lemma BetweenRanksIsMedian(g: seq<int>, j: nat, k: nat, m: int)
    requires j < |g| && k < |g| && Sorted(g)[j] <= m <= Sorted(g)[k]
    requires 2 * k <= |g| && 2 * (|g| - 1 - j) <= |g|
    ensures IsMedian(g, m)
  {
    SortedAscending(g);
    SortedCounts(g, m);
    BelowRank(Sorted(g), k, m);
    AboveRank(Sorted(g), j, m);
  }

  lemma MediansAreMedians(g: seq<int>)
    requires g != []
    ensures IsMedian(g, LowerMedian(g)) && IsMedian(g, FlooredMedian(g))
  {
    var s, h, k := Sorted(g), |g| / 2, (|g| - 1) / 2;
    BetweenRanksIsMedian(g, k, k, s[k]);
    if |g| % 2 == 1 {
      BetweenRanksIsMedian(g, h, h, s[h]);
    } else {
      SortedAscending(g);
      assert s[h - 1] <= s[h];
      BetweenRanksIsMedian(g, h - 1, h, (s[h - 1] + s[h]) / 2);
    }
  }

  /** Entry `k` of the sorted group: at most `k` entries are below it, and at most the rest above. */
  ghost predicate HasRank(g: seq<int>, k: nat, m: int) {
    CountBelow(g, m) <= k && CountAbove(g, m) <= |g| - 1 - k
  }

  lemma SortedRank(g: seq<int>, k: nat)
    requires k < |g|
    ensures HasRank(g, k, Sorted(g)[k])
  {
    SortedAscending(g);
    SortedCounts(g, Sorted(g)[k]);
    BelowRank(Sorted(g), k, Sorted(g)[k]);
    AboveRank(Sorted(g), k, Sorted(g)[k]);
  }

  lemma {:induction false} CountsCover(g: seq<int>, a: int, b: int)
    requires a < b
    ensures CountAbove(g, a) + CountBelow(g, b) >= |g|
  {
    if g != [] {
      CountsCover(g[1..], a, b);
    }
  }

  /** Only one integer has a given rank. */
  lemma RankUnique(g: seq<int>, k: nat, a: int, b: int)
    requires k < |g| && HasRank(g, k, a) && HasRank(g, k, b)
    ensures a == b
  {
    if a < b {
      CountsCover(g, a, b);
    } else if b < a {
      CountsCover(g, b, a);
    }
  }

  /** The medians by rank: the lower middle entry, and the floored mean of the two middle entries. */
  lemma MedianRanks(g: seq<int>, low: int, high: int)
    requires g != [] && HasRank(g, (|g| - 1) / 2, low) && HasRank(g, |g| / 2, high)
    ensures LowerMedian(g) == low
    ensures 2 * FlooredMedian(g) <= low + high < 2 * FlooredMedian(g) + 2
  {
    EntryOfRank(g, (|g| - 1) / 2, low);
    EntryOfRank(g, |g| / 2, high);
    FlooredIsMean(g);
  }

  lemma EntryOfRank(g: seq<int>, k: nat, m: int)
    requires k < |g| && HasRank(g, k, m)
    ensures Sorted(g)[k] == m
  {
    SortedRank(g, k);
    RankUnique(g, k, m, Sorted(g)[k]);
  }

  lemma FlooredIsMean(g: seq<int>)
    requires g != []
    ensures FlooredMedian(g) == (Sorted(g)[(|g| - 1) / 2] + Sorted(g)[|g| / 2]) / 2
  {
    var h := |g| / 2;
    assert (|g| - 1) / 2 == if |g| % 2 == 1 then h else h - 1;
  }

  // ----- One group

  function Max(g: seq<int>): (m: int)
    requires g != []
    ensures m in g && forall i | 0 <= i < |g| :: g[i] <= m
  {
    if |g| == 1 then g[0] else var m := Max(g[1..]); if g[0] > m then g[0] else m
  }

  function Min(g: seq<int>): (m: int)
    requires g != []
    ensures m in g && forall i | 0 <= i < |g| :: m <= g[i]
  {
    if |g| == 1 then g[0] else var m := Min(g[1..]); if g[0] < m then g[0] else m
  }

  function Residual(g: seq<int>, a: int): (r: seq<int>)
    ensures |r| == |g| && forall i | 0 <= i < |g| :: r[i] == g[i] - a
  {
    seq(|g|, i requires 0 <= i < |g| => g[i] - a)
  }

  /** The two decompositions: integer anchors, and moment centres that must be signed bytes too. */
  datatype Variant = Integer | Moment

  /** The clipped median of the group. */
  function Anchor(v: Variant, g: seq<int>): int
    requires g != []
  {
    var low, high := Max(g) - 127, Min(g) + 128;
    match v
    case Integer => Clip(LowerMedian(g), low, high)
    case Moment => Clip(FlooredMedian(g), if low < -128 then -128 else low, if high > 127 then 127 else high)
  }

  /** Anchors that keep what the variant retains in signed bytes. */
  ghost predicate Admissible(v: Variant, g: seq<int>, a: int) {
    AllSignedBytes(Residual(g, a)) && (v.Moment? ==> SignedByte(a))
  }

  /** `a` is admissible and no admissible integer leaves a smaller L1 residual. */
  ghost predicate Minimises(v: Variant, g: seq<int>, a: int) {
    Admissible(v, g, a) && forall c | Admissible(v, g, c) :: L1(g, a) <= L1(g, c)
  }

  /** The residual is a signed byte exactly when the anchor lies between the two bounds. */
  lemma AdmissibleIffBounded(g: seq<int>, a: int)
    requires g != []
    ensures AllSignedBytes(Residual(g, a)) <==> Max(g) - 127 <= a <= Min(g) + 128
  {
    var r := Residual(g, a);
    var i :| 0 <= i < |g| && g[i] == Max(g);
    var j :| 0 <= j < |g| && g[j] == Min(g);
    assert AllSignedBytes(r) ==> SignedByte(r[i]) && SignedByte(r[j]);
  }

  lemma BoundsOrdered(g: seq<int>)
    requires g != [] && AllSignedBytes(g)
    ensures Max(g) - 127 <= Min(g) + 128 && Max(g) - 127 <= 0 <= Min(g) + 128
    ensures -255 <= Max(g) - 127 && Min(g) + 128 <= 255
  {
  }

  /** The bounds between which the median is clipped are the admissible anchors. */
  lemma AdmissibleInterval(v: Variant, g: seq<int>, a: int)
    requires g != [] && AllSignedBytes(g)
    ensures var low, high := Max(g) - 127, Min(g) + 128;
            Admissible(v, g, a) <==>
            if v.Integer? then low <= a <= high
            else (if low < -128 then -128 else low) <= a <= (if high > 127 then 127 else high)
  {
    AdmissibleIffBounded(g, a);
  }

  /** The anchor is the median, or the admissible bound that the median exceeds. */
  lemma AnchorIsClippedMedian(v: Variant, g: seq<int>)
    requires g != [] && AllSignedBytes(g)
    ensures var m := if v.Integer? then LowerMedian(g) else FlooredMedian(g);
            && (Admissible(v, g, m) ==> Anchor(v, g) == m)
            && (forall c | Admissible(v, g, c) ::
                  (m < c ==> m <= Anchor(v, g) <= c) && (m > c ==> c <= Anchor(v, g) <= m))
  {
    var m := if v.Integer? then LowerMedian(g) else FlooredMedian(g);
    AdmissibleInterval(v, g, m);
    forall c | Admissible(v, g, c)
      ensures (m < c ==> m <= Anchor(v, g) <= c) && (m > c ==> c <= Anchor(v, g) <= m)
    {
      AdmissibleInterval(v, g, c);
    }
  }

  lemma AnchorAdmissible(v: Variant, g: seq<int>)
    requires g != [] && AllSignedBytes(g)
    ensures Admissible(v, g, Anchor(v, g))
  {
    BoundsOrdered(g);
    AdmissibleInterval(v, g, Anchor(v, g));
  }

  lemma AnchorLeast(v: Variant, g: seq<int>, c: int)
    requires g != [] && AllSignedBytes(g) && Admissible(v, g, c)
    ensures L1(g, Anchor(v, g)) <= L1(g, c)
  {
    var low, high := Max(g) - 127, Min(g) + 128;
    AdmissibleInterval(v, g, c);
    MediansAreMedians(g);
    if v.Integer? {
      ClippedMedianOptimal(g, LowerMedian(g), low, high, c);
    } else {
      ClippedMedianOptimal(g, FlooredMedian(g), if low < -128 then -128 else low, if high > 127 then 127 else high, c);
    }
  }

  /** The residual check never fires, and no admissible integer does better, in either variant. */
  lemma AnchorMinimises(v: Variant, g: seq<int>)
    requires g != [] && AllSignedBytes(g)
    ensures Minimises(v, g, Anchor(v, g))
  {
    AnchorAdmissible(v, g);
    forall c | Admissible(v, g, c) ensures L1(g, Anchor(v, g)) <= L1(g, c) {
      AnchorLeast(v, g, c);
    }
  }

  // ----- Whole rows

  lemma {:induction false} GroupExact(g: seq<int>, a: int, x: seq<int>)
    requires |g| == |x|
    ensures Dot(g, x) == Dot(Residual(g, a), x) + a * Sum(x)
  {
    if g != [] {
      GroupExact(g[1..], a, x[1..]);
      assert Residual(g, a)[1..] == Residual(g[1..], a);
      assert (g[0] - a) * x[0] == g[0] * x[0] - a * x[0];
      assert a * (x[0] + Sum(x[1..])) == a * x[0] + a * Sum(x[1..]);
    } else {
      assert a * 0 == 0;
    }
  }

  lemma GroupSplit(n: nat, block: nat)
    requires block > 0 && n > 0 && n % block == 0
    ensures block <= n && (n - block) % block == 0
  {
    ModShift(n - block, block);
    if n < block {
      QuotientUnique(n, block, 0, n);
    }
  }

  /** The anchors of a row, group by group. */
  function RowAnchors(v: Variant, row: seq<int>, block: nat): (r: seq<int>)
    requires block > 0 && |row| % block == 0
  {
    if row == [] then []
    else
      GroupSplit(|row|, block);
      [Anchor(v, row[..block])] + RowAnchors(v, row[block..], block)
  }

  function RowResidual(v: Variant, row: seq<int>, block: nat): (r: seq<int>)
    requires block > 0 && |row| % block == 0
    ensures |r| == |row|
  {
    if row == [] then []
    else
      GroupSplit(|row|, block);
      Residual(row[..block], Anchor(v, row[..block])) + RowResidual(v, row[block..], block)
  }

  /** One output of `anchor_output`: anchors against the sums of the input groups. */
  function AnchorOutput(anchors: seq<int>, x: seq<int>, block: nat): int
    requires block > 0 && |x| == |anchors| * block
    decreases |anchors|
  {
    if anchors == [] then 0
    else
      OneMoreGroup(|anchors| - 1, block);
      anchors[0] * Sum(x[..block]) + AnchorOutput(anchors[1..], x[block..], block)
  }

  lemma OneMoreGroup(m: nat, block: nat)
    ensures (m + 1) * block == block + m * block && 0 <= m * block
  {
  }

  /** One more group than `m` groups of the length without the first group. */
  lemma GroupsTotal(groups: nat, m: nat, block: nat, total: nat)
    requires groups == m + 1 && block <= total && m * block == total - block
    ensures groups * block == total
  {
    OneMoreGroup(m, block);
  }

  lemma {:induction false} DotConcat(a: seq<int>, b: seq<int>, x: seq<int>, y: seq<int>)
    requires |a| == |x| && |b| == |y|
    ensures Dot(a + b, x + y) == Dot(a, x) + Dot(b, y)
  {
    if a == [] {
      assert a + b == b && x + y == y;
    } else {
      assert (a + b)[1..] == a[1..] + b && (x + y)[1..] == x[1..] + y;
      DotConcat(a[1..], b, x[1..], y);
    }
  }

  lemma {:induction false} RowAnchorsLength(v: Variant, row: seq<int>, block: nat)
    requires block > 0 && |row| % block == 0
    ensures |RowAnchors(v, row, block)| * block == |row|
    decreases |row|
  {
    if row != [] {
      GroupSplit(|row|, block);
      RowAnchorsLength(v, row[block..], block);
      var anchors, later := RowAnchors(v, row, block), RowAnchors(v, row[block..], block);
      assert |anchors| == |later| + 1;
      GroupsTotal(|anchors|, |later|, block, |row|);
    }
  }

  lemma AnchorOutputCons(a: int, anchors: seq<int>, s: seq<int>, t: seq<int>, block: nat)
    requires block > 0 && |s| == block && |t| == |anchors| * block
    ensures |s + t| == |[a] + anchors| * block
    ensures AnchorOutput([a] + anchors, s + t, block) == a * Sum(s) + AnchorOutput(anchors, t, block)
  {
    OneMoreGroup(|anchors|, block);
    assert ([a] + anchors)[1..] == anchors && (s + t)[..block] == s && (s + t)[block..] == t;
  }

  /** The row times `x` is the residual times `x` plus the anchors times the group sums of `x`. */
  ghost predicate Exact(row: seq<int>, residual: seq<int>, anchors: seq<int>, x: seq<int>, block: nat) {
    && block > 0 && |row| == |residual| == |x| == |anchors| * block
    && Dot(row, x) == Dot(residual, x) + AnchorOutput(anchors, x, block)
  }

  /** A group with its residual `first` and its anchor in front of an exact row. */
  lemma ExactStep(row: seq<int>, residual: seq<int>, anchors: seq<int>, x: seq<int>, block: nat,
                  first: seq<int>, rest: seq<int>)
    requires 0 < block <= |row| == |x| && |first| == block && residual == first + rest && anchors != []
    requires Dot(row[..block], x[..block]) == Dot(first, x[..block]) + anchors[0] * Sum(x[..block])
    requires Exact(row[block..], rest, anchors[1..], x[block..], block)
    ensures Exact(row, residual, anchors, x, block)
  {
    var g, s, t := row[..block], x[..block], x[block..];
    assert row == g + row[block..] && x == s + t && anchors == [anchors[0]] + anchors[1..];
    DotConcat(g, row[block..], s, t);
    DotConcat(first, rest, s, t);
    AnchorOutputCons(anchors[0], anchors[1..], s, t, block);
  }

  lemma RowSplit(v: Variant, row: seq<int>, block: nat)
    requires row != [] && 0 < block <= |row| && |row| % block == 0 && (|row| - block) % block == 0
    ensures RowAnchors(v, row, block) == [Anchor(v, row[..block])] + RowAnchors(v, row[block..], block)
    ensures RowResidual(v, row, block)
            == Residual(row[..block], Anchor(v, row[..block])) + RowResidual(v, row[block..], block)
  {
  }

  /** Exactness for every input: W x = R x + A (block sums of x). */
  lemma {:induction false} RowExact(v: Variant, row: seq<int>, block: nat, x: seq<int>)
    requires block > 0 && |row| % block == 0 && |x| == |row|
    ensures Exact(row, RowResidual(v, row, block), RowAnchors(v, row, block), x, block)
    decreases |row|
  {
    if row == [] {
      assert RowAnchors(v, row, block) == [] && |x| == 0 * block;
    } else {
      GroupSplit(|row|, block);
      RowExact(v, row[block..], block, x[block..]);
      RowExactStep(v, row, block, x);
    }
  }

  lemma RowExactStep(v: Variant, row: seq<int>, block: nat, x: seq<int>)
    requires row != [] && 0 < block <= |row| == |x| && |row| % block == 0 && (|row| - block) % block == 0
    requires Exact(row[block..], RowResidual(v, row[block..], block), RowAnchors(v, row[block..], block),
                   x[block..], block)
    ensures Exact(row, RowResidual(v, row, block), RowAnchors(v, row, block), x, block)
  {
    var g := row[..block];
    GroupExact(g, Anchor(v, g), x[..block]);
    RowSplit(v, row, block);
    ExactStep(row, RowResidual(v, row, block), RowAnchors(v, row, block), x, block, Residual(g, Anchor(v, g)),
              RowResidual(v, row[block..], block));
  }

  /** Every residual entry of a row of signed bytes is a signed byte. */
  lemma {:induction false} RowResidualBytes(v: Variant, row: seq<int>, block: nat)
    requires block > 0 && |row| % block == 0 && AllSignedBytes(row)
    ensures AllSignedBytes(RowResidual(v, row, block))
    decreases |row|
  {
    if row != [] {
      GroupSplit(|row|, block);
      RowResidualBytes(v, row[block..], block);
      AnchorAdmissible(v, row[..block]);
    }
  }

  // ----- Groups by index

  /** The k-th group of a row. */
  ghost function GroupAt(row: seq<int>, block: nat, k: nat): seq<int>
    requires k * block + block <= |row|
  {
    row[k * block..k * block + block]
  }

  lemma GroupFits(k: nat, m: nat, block: nat)
    requires k < m
    ensures k * block + block <= m * block
  {
    MulMonotone(block, k + 1, m);
    OneMoreGroup(k, block);
  }

  /** One group: its clipped median, which minimises the residual, and that residual. */
  ghost predicate GroupSplitOff(v: Variant, row: seq<int>, residual: seq<int>, block: nat, k: nat, a: int)
    requires k * block + block <= |row| == |residual| && block > 0
  {
    var g := GroupAt(row, block, k);
    a == Anchor(v, g) && Minimises(v, g, a) && GroupAt(residual, block, k) == Residual(g, a)
  }

  /** Every anchor minimises the residual of its group, and is the clipped median. */
  ghost predicate AllMinimise(v: Variant, row: seq<int>, residual: seq<int>, block: nat, anchors: seq<int>) {
    && block > 0 && |anchors| * block == |row| == |residual|
    && forall k | 0 <= k < |anchors| ::
         GroupFits(k, |anchors|, block); GroupSplitOff(v, row, residual, block, k, anchors[k])
  }

  lemma FirstGroup(row: seq<int>, block: nat)
    requires 0 * block + block <= |row|
    ensures GroupAt(row, block, 0) == row[..block]
  {
  }

  lemma LaterGroup(row: seq<int>, block: nat, k: nat)
    requires k > 0 && k * block + block <= |row|
    ensures block <= |row| && (k - 1) * block + block <= |row| - block
    ensures GroupAt(row, block, k) == GroupAt(row[block..], block, k - 1)
  {
    OneMoreGroup(k - 1, block);
  }

  lemma {:induction false} RowAnchorAt(v: Variant, row: seq<int>, block: nat, k: nat)
    requires block > 0 && |row| % block == 0
    requires k < |RowAnchors(v, row, block)| && k * block + block <= |row|
    ensures RowAnchors(v, row, block)[k] == Anchor(v, GroupAt(row, block, k))
    decreases |row|
  {
    OneMoreGroup(k, block);
    assert 0 < block <= |row|;
    GroupSplit(|row|, block);
    var later := RowAnchors(v, row[block..], block);
    assert RowAnchors(v, row, block) == [Anchor(v, row[..block])] + later;
    if k == 0 {
      FirstGroup(row, block);
    } else {
      LaterGroup(row, block, k);
      RowAnchorAt(v, row[block..], block, k - 1);
    }
  }

  /** Group `k` of the residual is the residual of group `k`. */
  ghost predicate ResidualAt(v: Variant, row: seq<int>, residual: seq<int>, block: nat, k: nat) {
    && block > 0 && k * block + block <= |row| == |residual|
    && GroupAt(residual, block, k) == Residual(GroupAt(row, block, k), Anchor(v, GroupAt(row, block, k)))
  }

  lemma {:induction false} RowResidualAt(v: Variant, row: seq<int>, block: nat, k: nat)
    requires block > 0 && |row| % block == 0 && k * block + block <= |row|
    ensures ResidualAt(v, row, RowResidual(v, row, block), block, k)
    decreases |row|
  {
    OneMoreGroup(k, block);
    assert 0 < block <= |row|;
    GroupSplit(|row|, block);
    RowSplit(v, row, block);
    var rest := RowResidual(v, row[block..], block);
    if k == 0 {
      FirstResidual(v, row, RowResidual(v, row, block), rest, block);
    } else {
      LaterGroup(row, block, k);
      RowResidualAt(v, row[block..], block, k - 1);
      LaterResidual(v, row, RowResidual(v, row, block), rest, block, k);
    }
  }

  lemma FirstResidual(v: Variant, row: seq<int>, residual: seq<int>, rest: seq<int>, block: nat)
    requires 0 < block <= |row| == |residual| && residual == Residual(row[..block], Anchor(v, row[..block])) + rest
    ensures ResidualAt(v, row, residual, block, 0)
  {
    FirstGroup(row, block);
    FirstGroup(residual, block);
  }

  lemma LaterResidual(v: Variant, row: seq<int>, residual: seq<int>, rest: seq<int>, block: nat, k: nat)
    requires 0 < block <= |row| == |residual| && residual == Residual(row[..block], Anchor(v, row[..block])) + rest
    requires k > 0 && k * block + block <= |row| && ResidualAt(v, row[block..], rest, block, k - 1)
    ensures ResidualAt(v, row, residual, block, k)
  {
    LaterGroup(row, block, k);
    LaterGroup(residual, block, k);
    assert residual[block..] == rest;
  }

  lemma RowMinimises(v: Variant, row: seq<int>, block: nat)
    requires block > 0 && |row| % block == 0 && AllSignedBytes(row)
    ensures AllMinimise(v, row, RowResidual(v, row, block), block, RowAnchors(v, row, block))
  {
    var residual, anchors := RowResidual(v, row, block), RowAnchors(v, row, block);
    RowAnchorsLength(v, row, block);
    forall k: nat | k < |anchors|
      ensures k * block + block <= |row| && GroupSplitOff(v, row, residual, block, k, anchors[k])
    {
      GroupFits(k, |anchors|, block);
      RowAnchorAt(v, row, block, k);
      RowResidualAt(v, row, block, k);
      AnchorMinimises(v, GroupAt(row, block, k));
    }
  }

  // ----- Whole matrices

  /**
   Residual and anchors reproduce the weights on every input, the residual is signed-i8,
   and every anchor of every row is the clipped median of its group and minimises its residual.
   */
  ghost predicate OptimalSplit(v: Variant, w: Matrix, n: nat, block: nat, residual: Matrix, anchors: Matrix) {
    && block > 0 && |residual| == |anchors| == |w| && ByteMatrix(w, n) && ByteMatrix(residual, n)
    && (forall j | 0 <= j < |w| :: |anchors[j]| * block == n && AllMinimise(v, w[j], residual[j], block, anchors[j]))
    && forall j, x: seq<int> | 0 <= j < |w| && |x| == n ::
         Dot(w[j], x) == Dot(residual[j], x) + AnchorOutput(anchors[j], x, block)
  }

  function Split(v: Variant, w: Matrix, n: nat, block: nat): (r: (Matrix, Matrix))
    requires block > 0 && n % block == 0 && ByteMatrix(w, n)
    ensures OptimalSplit(v, w, n, block, r.0, r.1)
  {
    var residual := seq(|w|, j requires 0 <= j < |w| => RowResidual(v, w[j], block));
    var anchors := seq(|w|, j requires 0 <= j < |w| => RowAnchors(v, w[j], block));
    SplitOptimal(v, w, n, block, residual, anchors);
    (residual, anchors)
  }

  lemma SplitOptimal(v: Variant, w: Matrix, n: nat, block: nat, residual: Matrix, anchors: Matrix)
    requires block > 0 && n % block == 0 && ByteMatrix(w, n) && |residual| == |anchors| == |w|
    requires forall j | 0 <= j < |w| :: residual[j] == RowResidual(v, w[j], block)
    requires forall j | 0 <= j < |w| :: anchors[j] == RowAnchors(v, w[j], block)
    ensures OptimalSplit(v, w, n, block, residual, anchors)
  {
    forall j | 0 <= j < |w|
      ensures |anchors[j]| * block == n && AllMinimise(v, w[j], residual[j], block, anchors[j])
      ensures AllSignedBytes(residual[j]) && |residual[j]| == n
    {
      RowMinimises(v, w[j], block);
      RowResidualBytes(v, w[j], block);
    }
    forall j, x: seq<int> | 0 <= j < |w| && |x| == n
      ensures Dot(w[j], x) == Dot(residual[j], x) + AnchorOutput(anchors[j], x, block)
    {
      RowExact(v, w[j], block, x);
    }
  }

  /** `integer_anchors`; None is the ValueError for a block that does not divide the width. */
  function IntegerAnchors(w: Matrix, n: nat, block: int): (r: Option<(Matrix, Matrix)>)
    requires w != [] && n > 0 && ByteMatrix(w, n)
    ensures r.Some? <==> block >= 1 && n % block == 0
    ensures r.Some? ==> OptimalSplit(Integer, w, n, block, r.value.0, r.value.1)
  {
    if block < 1 || n % block != 0 then None else Some(Split(Integer, w, n, block))
  }

  /** `moment_bypass`: `groups` anchors per row; None is one of its ValueErrors. */
  function MomentBypass(w: Matrix, n: nat, groups: int): (r: Option<(Matrix, Matrix)>)
    requires w != [] && n > 0 && ByteMatrix(w, n)
    ensures r.Some? <==> RingWidths.RowWidths(w).Some? && 1 <= groups <= 64 && n % groups == 0
    ensures r.Some? ==> n / groups > 0 && OptimalSplit(Moment, w, n, n / groups, r.value.0, r.value.1)
  {
    if RingWidths.RowWidths(w).None? || !(1 <= groups <= 64) || n % groups != 0 then None
    else
      GroupsDivide(n, groups);
      Some(Split(Moment, w, n, n / groups))
  }

  lemma GroupsDivide(n: nat, groups: nat)
    requires n > 0 && groups > 0 && n % groups == 0
    ensures n / groups > 0 && n % (n / groups) == 0
  {
    var block := n / groups;
    assert n == groups * block;
    assert block > 0;
    MultipleMod(block, groups);
    assert block * groups == n;
  }
}
