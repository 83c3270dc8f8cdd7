/** The heatmap renderer of src-tauri/src/lib.rs (`generate_heatmap`): a pure
    function of the history window. The picture is modelled as the sequence of
    drawing primitives the renderer adds to its document, in order, with their
    coordinates as integers and their prices, sizes and opacities as reals. */
module Heatmap {
  import opened Wrappers
  import opened OrderBook

  const HEATMAP_WIDTH: int := 1920
  const HEATMAP_HEIGHT: int := 1080
  /** Width kept free on the right for the price axis. */
  const RIGHT_MARGIN: int := 300
  /** Width of the plotting area. */
  const ACTUAL_HEATMAP_WIDTH: int := HEATMAP_WIDTH - RIGHT_MARGIN
  /** Number of divisions of the price axis. */
  const PRICE_STEPS: int := 10

  /** Colour of a rectangle: red for a sell level, green for a buy level, the
      translucent white of the mid line. */
  datatype Fill = Ask | Bid | MidLine

  /** One mark of the price axis: a label at (`labelX`, `labelY`) showing
      `price`, and a horizontal tick from `lineX1` to `lineX2` at `lineY`. */
  datatype Tick = Tick(labelX: int, labelY: int, price: real, lineX1: int, lineX2: int, lineY: int)

  /** A primitive of the document. `Rect` also records the price whose row it
      is drawn at; `y` is `None` when the price range is zero, where the
      source divides by zero. */
  datatype Prim =
    | Background(width: int)
    | Rect(fill: Fill, x: int, y: Option<int>, width: int, height: int, alpha: real, price: real)
    | PriceAxis(ticks: seq<Tick>)

  /** What every column of one frame shares. */
  datatype Frame = Frame(latest: int, barWidth: int, maxSize: real, minPrice: real, priceRange: real)

  // ---------------------------------------------------------------------------
  // Ordered traversal of a side

  /** Some element of a non-empty set. `Pick`, `Inhabited` and
      `NoMembersEmpty` model nothing of the renderer: they only supply the
      verifier with the step from a non-empty set to one of its elements,
      which `Least` and `Greatest` need. */
  ghost function Pick(s: set<real>): (r: real)
    requires s != {}
    ensures r in s
  {
    Inhabited(s);
    var x :| x in s; x
  }

  lemma Inhabited(s: set<real>)
    requires s != {}
    ensures exists x :: x in s
  {
    NoMembersEmpty(s);
  }

  lemma NoMembersEmpty(s: set<real>)
    ensures (forall x :: x !in s) ==> s == {}
  {
    if forall x :: x !in s {
      assert forall x :: x in s <==> x in {};
    }
  }

  /** The least element of a non-empty finite set of prices. */
  ghost function Least(s: set<real>): (k: real)
    requires s != {}
    ensures k in s && forall x :: x in s ==> k <= x
    decreases |s|
  {
    var x := Pick(s);
    if s == {x} then x
    else
      var m := Least(s - {x});
      assert forall y :: y in s ==> y == x || y in s - {x};
      if x <= m then x else m
  }

  /** The elements of a finite set of prices in ascending order. */
  ghost function Ascending(s: set<real>): (ks: seq<real>)
    ensures |ks| == |s|
    ensures forall i, j :: 0 <= i < j < |ks| ==> ks[i] < ks[j]
    ensures forall p :: p in ks <==> p in s
    decreases |s|
  {
    if s == {} then []
    else
      var k := Least(s);
      var rest := Ascending(s - {k});
      AscendingCons(s, k, rest);
      [k] + rest
  }

  /** Putting the least element in front of the ascending rest gives the
      ascending whole. */
  lemma AscendingCons(s: set<real>, k: real, rest: seq<real>)
    requires k in s && forall x :: x in s ==> k <= x
    requires |rest| == |s - {k}|
    requires forall i, j :: 0 <= i < j < |rest| ==> rest[i] < rest[j]
    requires forall p :: p in rest <==> p in s - {k}
    ensures |[k] + rest| == |s|
    ensures forall i, j :: 0 <= i < j < |[k] + rest| ==> ([k] + rest)[i] < ([k] + rest)[j]
    ensures forall p :: p in [k] + rest <==> p in s
  {
    var ks := [k] + rest;
    forall i, j | 0 <= i < j < |ks| ensures ks[i] < ks[j] {
      if i == 0 {
        assert ks[j] == rest[j - 1];
        assert rest[j - 1] in rest;
      }
    }
  }

  /** The prices of a side in ascending order, as the ordered map iterates
      them. */
  ghost function SortedKeys(m: Side): (ks: seq<real>)
    ensures |ks| == |m|
    ensures forall i, j :: 0 <= i < j < |ks| ==> ks[i] < ks[j]
    ensures forall p :: p in ks <==> p in m
  {
    Ascending(m.Keys)
  }

  function Reverse(s: seq<real>): (r: seq<real>)
    ensures |r| == |s|
    ensures forall i :: 0 <= i < |s| ==> r[i] == s[|s| - 1 - i]
  {
    seq(|s|, i requires 0 <= i < |s| => s[|s| - 1 - i])
  }

  /** The sizes of a side, in price order. */
  ghost function Sizes(m: Side): seq<real> {
    var ks := SortedKeys(m);
    seq(|ks|, i requires 0 <= i < |ks| => m[ks[i]])
  }

  /** Every size of every snapshot, buy side before sell side. */
  ghost function AllSizes(h: seq<Snapshot>): seq<real>
    decreases |h|
  {
    if h == [] then [] else Sizes(h[0].buy) + Sizes(h[0].sell) + AllSizes(h[1..])
  }

  /** Every price of every snapshot, buy side before sell side. */
  ghost function AllPrices(h: seq<Snapshot>): seq<real>
    decreases |h|
  {
    if h == [] then [] else SortedKeys(h[0].buy) + SortedKeys(h[0].sell) + AllPrices(h[1..])
  }

  function FoldMax(acc: real, xs: seq<real>): real
    decreases |xs|
  {
    if xs == [] then acc else FoldMax(if xs[0] > acc then xs[0] else acc, xs[1..])
  }

  function FoldMin(acc: real, xs: seq<real>): real
    decreases |xs|
  {
    if xs == [] then acc else FoldMin(if xs[0] < acc then xs[0] else acc, xs[1..])
  }

  /** The largest size in the window, starting from zero. */
  ghost function MaxSize(h: seq<Snapshot>): real {
    FoldMax(0.0, AllSizes(h))
  }

  /** Some snapshot has a level of size `v` on either side. */
  ghost predicate SizeAt(h: seq<Snapshot>, v: real) {
    exists k, p :: 0 <= k < |h| &&
      ((p in h[k].buy && h[k].buy[p] == v) || (p in h[k].sell && h[k].sell[p] == v))
  }

  /** Some snapshot has a level at price `p` on either side. */
  ghost predicate PriceAt(h: seq<Snapshot>, p: real) {
    exists k :: 0 <= k < |h| && (p in h[k].buy || p in h[k].sell)
  }

  // ---------------------------------------------------------------------------
  // Coordinates and colours

  /** A cast of a real to an integer, truncating toward zero. */
  function Trunc(v: real): int {
    if v >= 0.0 then v.Floor else -((-v).Floor)
  }

  /** Left edge of a snapshot's column: its offset into the window ending at
      `latest`, scaled to the plotting width. */
  function TimeX(ts: int, latest: int): int {
    Trunc((ts - (latest - WINDOW_MS)) as real / 300_000.0 * ACTUAL_HEATMAP_WIDTH as real)
  }

  /** Width of every column when the window holds `n` snapshots. */
  function BarWidth(n: int): int
    requires n > 0
  {
    (ACTUAL_HEATMAP_WIDTH + n - 1) / n + 1
  }

  /** Row of a price: the bottom edge for the lowest price, the top for the
      highest. */
  function Row(p: real, minPrice: real, priceRange: real): Option<int> {
    if priceRange > 0.0 then
      Some(HEATMAP_HEIGHT - Trunc((p - minPrice) / priceRange * HEATMAP_HEIGHT as real))
    else None
  }

  /** Opacity of a level: its share of the largest size, at most one. */
  function Alpha(size: real, maxSize: real): real
    requires maxSize > 0.0
  {
    var a := size / maxSize;
    if a < 1.0 then a else 1.0
  }

  /** The greatest element of a non-empty finite set of prices. */
  ghost function Greatest(s: set<real>): (k: real)
    requires s != {}
    ensures k in s && forall x :: x in s ==> x <= k
    decreases |s|
  {
    var x := Pick(s);
    if s == {x} then x
    else
      var m := Greatest(s - {x});
      assert forall y :: y in s ==> y == x || y in s - {x};
      if x >= m then x else m
  }

  /** The best bid, the last buy price in key order (the highest), or zero
      for an empty side. */
  ghost function BestBid(buy: Side): (p: real)
    ensures buy == map[] ==> p == 0.0
    ensures buy != map[] ==> p in buy && forall q :: q in buy ==> q <= p
  {
    if buy.Keys == {} then 0.0 else Greatest(buy.Keys)
  }

  /** The best ask, the first sell price in key order (the lowest), or zero
      for an empty side. */
  ghost function BestAsk(sell: Side): (p: real)
    ensures sell == map[] ==> p == 0.0
    ensures sell != map[] ==> p in sell && forall q :: q in sell ==> p <= q
  {
    if sell.Keys == {} then 0.0 else Least(sell.Keys)
  }

  ghost function MidPrice(e: Snapshot): real {
    (BestBid(e.buy) + BestAsk(e.sell)) / 2.0
  }

  // ---------------------------------------------------------------------------
  // The scene

  /** One two-pixel-tall rectangle per price of `prices`, at column `x`. */
  ghost function LevelRects(fill: Fill, side: Side, prices: seq<real>, x: int, f: Frame): seq<Prim>
    requires forall i :: 0 <= i < |prices| ==> prices[i] in side
    requires f.maxSize > 0.0
  {
    seq(|prices|, i requires 0 <= i < |prices| =>
      Rect(fill, x, Row(prices[i], f.minPrice, f.priceRange), f.barWidth, 2,
           Alpha(side[prices[i]], f.maxSize), prices[i]))
  }

  /** The prices of a side from the highest down, each a key of the side. */
  ghost function Descending(m: Side): (ks: seq<real>)
    ensures |ks| == |m|
    ensures forall i :: 0 <= i < |ks| ==> ks[i] in m
    ensures forall i, j :: 0 <= i < j < |ks| ==> ks[i] > ks[j]
    ensures forall p :: p in m ==> exists i :: 0 <= i < |ks| && ks[i] == p
  {
    var up := SortedKeys(m);
    ReversedKeys(m, up);
    Reverse(up)
  }

  /** Reversing the ascending keys of a side gives its keys from the highest
      down. */
  lemma ReversedKeys(m: Side, up: seq<real>)
    requires |up| == |m|
    requires forall i, j :: 0 <= i < j < |up| ==> up[i] < up[j]
    requires forall p :: p in up <==> p in m
    ensures |Reverse(up)| == |m|
    ensures forall i :: 0 <= i < |Reverse(up)| ==> Reverse(up)[i] in m
    ensures forall i, j :: 0 <= i < j < |Reverse(up)| ==> Reverse(up)[i] > Reverse(up)[j]
    ensures forall p :: p in m ==> exists i :: 0 <= i < |Reverse(up)| && Reverse(up)[i] == p
  {
    var ks := Reverse(up);
    forall i | 0 <= i < |ks| ensures ks[i] in m {
      assert up[|up| - 1 - i] in up;
    }
    forall p | p in m ensures exists i :: 0 <= i < |ks| && ks[i] == p {
      var j :| 0 <= j < |up| && up[j] == p;
      assert ks[|up| - 1 - j] == p;
    }
  }

  /** The red rectangles of a snapshot's sell levels, from the highest price
      down. */
  ghost function AskRects(e: Snapshot, f: Frame): seq<Prim>
    requires f.maxSize > 0.0
  {
    LevelRects(Ask, e.sell, Descending(e.sell), TimeX(e.ts, f.latest), f)
  }

  /** The green rectangles of a snapshot's buy levels, from the lowest price
      up. */
  ghost function BidRects(e: Snapshot, f: Frame): seq<Prim>
    requires f.maxSize > 0.0
  {
    var bids := SortedKeys(e.buy);
    assert forall i :: 0 <= i < |bids| ==> bids[i] in e.buy by {
      forall i | 0 <= i < |bids| ensures bids[i] in e.buy {
        assert bids[i] in bids;
      }
    }
    LevelRects(Bid, e.buy, bids, TimeX(e.ts, f.latest), f)
  }

  /** The one-pixel mid line of a snapshot. */
  ghost function MidRect(e: Snapshot, f: Frame): Prim {
    var mid := MidPrice(e);
    Rect(MidLine, TimeX(e.ts, f.latest), Row(mid, f.minPrice, f.priceRange), f.barWidth, 1, 0.8, mid)
  }

  /** The column of one snapshot: its sell levels from the highest price down,
      its buy levels from the lowest price up, then its mid line. */
  ghost function Column(e: Snapshot, f: Frame): seq<Prim>
    requires f.maxSize > 0.0
  {
    AskRects(e, f) + BidRects(e, f) + [MidRect(e, f)]
  }

  /** The columns of the snapshots, in history order. */
  ghost function Columns(h: seq<Snapshot>, f: Frame): seq<Prim>
    requires f.maxSize > 0.0
    decreases |h|
  {
    if h == [] then [] else Column(h[0], f) + Columns(h[1..], f)
  }

  /** Row of tick `i` of the price axis, counted from the bottom. */
  function TickY(i: int): int {
    Trunc(HEATMAP_HEIGHT as real * (1.0 - i as real / PRICE_STEPS as real))
  }

  /** The price axis: `PRICE_STEPS + 1` evenly spaced labelled ticks from the
      lowest price to the highest. */
  function AxisTicks(minPrice: real, priceRange: real): seq<Tick> {
    seq(PRICE_STEPS + 1, i =>
      var y := TickY(i);
      Tick(ACTUAL_HEATMAP_WIDTH + 20, y + 5, minPrice + priceRange * i as real / PRICE_STEPS as real,
           ACTUAL_HEATMAP_WIDTH, ACTUAL_HEATMAP_WIDTH + 10, y))
  }

  /** The lowest and the highest price in a window that has a positive size. */
  ghost function PriceBounds(h: seq<Snapshot>): (real, real)
    requires MaxSize(h) > 0.0
  {
    PositiveMaxSizeHasPrices(h);
    var prices := AllPrices(h);
    (FoldMin(prices[0], prices[1..]), FoldMax(prices[0], prices[1..]))
  }

  /** The quantities shared by every column of a window with a positive size:
      the latest timestamp is that of the last entry. */
  ghost function FrameOf(h: seq<Snapshot>): Frame
    requires MaxSize(h) > 0.0 && h != []
  {
    var (minPrice, maxPrice) := PriceBounds(h);
    Frame(h[|h| - 1].ts, BarWidth(|h|), MaxSize(h), minPrice, maxPrice - minPrice)
  }

  /** The scene for a history window: nothing at all when no level has a
      positive size; otherwise the background, the columns, and the axis. */
  ghost function Render(h: seq<Snapshot>): seq<Prim> {
    if MaxSize(h) <= 0.0 then []
    else
      var (minPrice, maxPrice) := PriceBounds(h);
      var columns := if h == [] then [] else Columns(h, FrameOf(h));
      [Background(ACTUAL_HEATMAP_WIDTH)] + columns + [PriceAxis(AxisTicks(minPrice, maxPrice - minPrice))]
  }

  // ---------------------------------------------------------------------------
  // The folds

  /** A fold of `max` is the largest of the start value and the elements. */
  lemma {:induction false} FoldMaxIsMax(acc: real, xs: seq<real>)
    ensures FoldMax(acc, xs) >= acc
    ensures forall i :: 0 <= i < |xs| ==> xs[i] <= FoldMax(acc, xs)
    ensures FoldMax(acc, xs) == acc || FoldMax(acc, xs) in xs
    decreases |xs|
  {
    if xs != [] {
      FoldMaxIsMax(if xs[0] > acc then xs[0] else acc, xs[1..]);
      assert xs == [xs[0]] + xs[1..];
    }
  }

  /** A fold of `min` is the smallest of the start value and the elements. */
  lemma {:induction false} FoldMinIsMin(acc: real, xs: seq<real>)
    ensures FoldMin(acc, xs) <= acc
    ensures forall i :: 0 <= i < |xs| ==> FoldMin(acc, xs) <= xs[i]
    ensures FoldMin(acc, xs) == acc || FoldMin(acc, xs) in xs
    decreases |xs|
  {
    if xs != [] {
      FoldMinIsMin(if xs[0] < acc then xs[0] else acc, xs[1..]);
      assert xs == [xs[0]] + xs[1..];
    }
  }

  lemma SizesMembers(m: Side, v: real)
    ensures v in Sizes(m) <==> exists p :: p in m && m[p] == v
  {
    if exists p :: p in m && m[p] == v {
      var p :| p in m && m[p] == v;
      SizeOfKeyListed(m, p);
    }
    if v in Sizes(m) {
      var i :| 0 <= i < |Sizes(m)| && Sizes(m)[i] == v;
      SizeListedOfKey(m, i);
    }
  }

  lemma SizeOfKeyListed(m: Side, p: real)
    requires p in m
    ensures m[p] in Sizes(m)
  {
    var ks := SortedKeys(m);
    assert p in ks;
    var i :| 0 <= i < |ks| && ks[i] == p;
    assert Sizes(m)[i] == m[p];
  }

  lemma SizeListedOfKey(m: Side, i: int)
    requires 0 <= i < |Sizes(m)|
    ensures SortedKeys(m)[i] in m && Sizes(m)[i] == m[SortedKeys(m)[i]]
  {
    var ks := SortedKeys(m);
    assert ks[i] in ks;
  }

  /** The sizes the renderer folds over are exactly the sizes in the window. */
  lemma {:induction false} AllSizesMembers(h: seq<Snapshot>, v: real)
    ensures v in AllSizes(h) <==> SizeAt(h, v)
    decreases |h|
  {
    if h != [] {
      AllSizesMembers(h[1..], v);
      SizesMembers(h[0].buy, v);
      SizesMembers(h[0].sell, v);
      SizeAtCons(h, v);
      assert AllSizes(h) == Sizes(h[0].buy) + Sizes(h[0].sell) + AllSizes(h[1..]);
    }
  }

  /** A size occurs in a window exactly when it occurs in its first snapshot
      or in the rest. */
  lemma SizeAtCons(h: seq<Snapshot>, v: real)
    requires h != []
    ensures SizeAt(h, v) <==>
      (exists p :: p in h[0].buy && h[0].buy[p] == v) || (exists p :: p in h[0].sell && h[0].sell[p] == v)
      || SizeAt(h[1..], v)
  {
    if SizeAt(h, v) {
      var k, p :| 0 <= k < |h| &&
        ((p in h[k].buy && h[k].buy[p] == v) || (p in h[k].sell && h[k].sell[p] == v));
      if k > 0 {
        assert h[1..][k - 1] == h[k];
      }
    }
    if SizeAt(h[1..], v) {
      var k, p :| 0 <= k < |h[1..]| &&
        ((p in h[1..][k].buy && h[1..][k].buy[p] == v) || (p in h[1..][k].sell && h[1..][k].sell[p] == v));
      assert h[k + 1] == h[1..][k];
    }
  }

  /** The prices the renderer folds over are exactly the prices in the window. */
  lemma {:induction false} AllPricesMembers(h: seq<Snapshot>, p: real)
    ensures p in AllPrices(h) <==> PriceAt(h, p)
    decreases |h|
  {
    if h != [] {
      AllPricesMembers(h[1..], p);
      if PriceAt(h, p) {
        var k :| 0 <= k < |h| && (p in h[k].buy || p in h[k].sell);
        if k > 0 {
          assert h[1..][k - 1] == h[k];
        }
      }
      if PriceAt(h[1..], p) {
        var k :| 0 <= k < |h[1..]| && (p in h[1..][k].buy || p in h[1..][k].sell);
        assert h[k + 1] == h[1..][k];
      }
    }
  }

  /** `MaxSize` is the largest of zero and every size in the window, on both
      sides of every snapshot. */
  lemma MaxSizeIsLargest(h: seq<Snapshot>)
    ensures MaxSize(h) >= 0.0
    ensures forall v :: SizeAt(h, v) ==> v <= MaxSize(h)
    ensures MaxSize(h) == 0.0 || SizeAt(h, MaxSize(h))
  {
    var sizes := AllSizes(h);
    FoldMaxIsMax(0.0, sizes);
    forall v | SizeAt(h, v) ensures v <= MaxSize(h) {
      AllSizesMembers(h, v);
      var i :| 0 <= i < |sizes| && sizes[i] == v;
    }
    AllSizesMembers(h, MaxSize(h));
  }

  /** A window with a positive size has at least one price. */
  lemma PositiveMaxSizeHasPrices(h: seq<Snapshot>)
    ensures MaxSize(h) > 0.0 ==> |AllPrices(h)| > 0
  {
    if MaxSize(h) > 0.0 {
      MaxSizeIsLargest(h);
      SizeAtHasPrice(h, MaxSize(h));
    }
  }

  /** A level of any size in the window is a price in the window. */
  lemma SizeAtHasPrice(h: seq<Snapshot>, v: real)
    requires SizeAt(h, v)
    ensures |AllPrices(h)| > 0
  {
    var k, p :| 0 <= k < |h| &&
      ((p in h[k].buy && h[k].buy[p] == v) || (p in h[k].sell && h[k].sell[p] == v));
    assert PriceAt(h, p);
    AllPricesMembers(h, p);
  }

  /** The price bounds are prices of the window, and every price of the
      window lies between them. */
  lemma PriceBoundsAreExtremes(h: seq<Snapshot>)
    requires MaxSize(h) > 0.0
    ensures PriceBounds(h).0 <= PriceBounds(h).1
    ensures PriceAt(h, PriceBounds(h).0) && PriceAt(h, PriceBounds(h).1)
    ensures forall p :: PriceAt(h, p) ==> PriceBounds(h).0 <= p <= PriceBounds(h).1
  {
    PositiveMaxSizeHasPrices(h);
    var prices := AllPrices(h);
    var (lo, hi) := PriceBounds(h);
    SeededFoldBounds(prices);
    AllPricesMembers(h, lo);
    AllPricesMembers(h, hi);
    forall p | PriceAt(h, p) ensures lo <= p <= hi {
      AllPricesMembers(h, p);
    }
  }

  /** Folds seeded with the first element give the least and the greatest
      element of a non-empty sequence. */
  lemma SeededFoldBounds(xs: seq<real>)
    requires xs != []
    ensures FoldMin(xs[0], xs[1..]) in xs && FoldMax(xs[0], xs[1..]) in xs
    ensures forall x :: x in xs ==> FoldMin(xs[0], xs[1..]) <= x <= FoldMax(xs[0], xs[1..])
  {
    FoldMinIsMin(xs[0], xs[1..]);
    FoldMaxIsMax(xs[0], xs[1..]);
    assert xs == [xs[0]] + xs[1..];
    forall x | x in xs ensures FoldMin(xs[0], xs[1..]) <= x <= FoldMax(xs[0], xs[1..]) {
      var i :| 0 <= i < |xs| && xs[i] == x;
      if i > 0 {
        assert xs[1..][i - 1] == x;
      }
    }
  }

  // ---------------------------------------------------------------------------
  // Properties of the scene

  /** Nothing is drawn, not even the background, exactly when no level in the
      window has a positive size; an empty window is one such case. */
  lemma RenderEmptyIffNoLiquidity(h: seq<Snapshot>)
    ensures Render(h) == [] <==> forall v :: SizeAt(h, v) ==> v <= 0.0
    ensures Render(h) == [] <==> MaxSize(h) <= 0.0
    ensures h == [] ==> Render(h) == []
  {
    MaxSizeIsLargest(h);
  }

  /** The number of primitives the columns of `h` hold: one per level and one
      mid line per snapshot. */
  ghost function ColumnPrims(h: seq<Snapshot>): nat
    decreases |h|
  {
    if h == [] then 0 else |h[0].sell| + |h[0].buy| + 1 + ColumnPrims(h[1..])
  }

  /** `r` is the rectangle of a level of `e`: a sell level in red or a buy level
      in green, with the opacity of its size. */
  ghost predicate DrawsLevel(r: Prim, e: Snapshot, maxSize: real) {
    && maxSize > 0.0
    && r.Rect?
    && ((r.fill == Ask && r.price in e.sell && r.alpha == Alpha(e.sell[r.price], maxSize))
        || (r.fill == Bid && r.price in e.buy && r.alpha == Alpha(e.buy[r.price], maxSize)))
  }

  lemma AskRectAt(e: Snapshot, f: Frame, i: int)
    requires f.maxSize > 0.0 && 0 <= i < |AskRects(e, f)|
    ensures var ks := Descending(e.sell);
      && ks[i] in e.sell
      && AskRects(e, f)[i] == Rect(Ask, TimeX(e.ts, f.latest), Row(ks[i], f.minPrice, f.priceRange),
                                   f.barWidth, 2, Alpha(e.sell[ks[i]], f.maxSize), ks[i])
  {
  }

  lemma BidRectAt(e: Snapshot, f: Frame, i: int)
    requires f.maxSize > 0.0 && 0 <= i < |BidRects(e, f)|
    ensures var ks := SortedKeys(e.buy);
      && ks[i] in e.buy
      && BidRects(e, f)[i] == Rect(Bid, TimeX(e.ts, f.latest), Row(ks[i], f.minPrice, f.priceRange),
                                   f.barWidth, 2, Alpha(e.buy[ks[i]], f.maxSize), ks[i])
  {
    var ks := SortedKeys(e.buy);
    assert ks[i] in ks;
  }

  /** The sell rectangles of a column: one per sell level, by strictly
      descending price, at the snapshot's column with the frame's bar width,
      two pixels tall, at the row of their price, with the opacity of their
      size. */
  lemma AskRectsLayout(e: Snapshot, f: Frame)
    requires f.maxSize > 0.0
    ensures |AskRects(e, f)| == |e.sell|
    ensures var a := AskRects(e, f);
      forall i :: 0 <= i < |a| ==>
        && a[i].Rect? && a[i].fill == Ask
        && a[i].x == TimeX(e.ts, f.latest) && a[i].width == f.barWidth && a[i].height == 2
        && a[i].y == Row(a[i].price, f.minPrice, f.priceRange)
        && DrawsLevel(a[i], e, f.maxSize)
    ensures var a := AskRects(e, f);
      forall i, j :: 0 <= i < j < |a| ==> a[i].price > a[j].price
    ensures var a := AskRects(e, f);
      forall p :: p in e.sell ==> exists i :: 0 <= i < |a| && a[i].price == p
  {
    var ks := Descending(e.sell);
    var a := AskRects(e, f);
    forall i | 0 <= i < |a|
      ensures && a[i].Rect? && a[i].fill == Ask
        && a[i].x == TimeX(e.ts, f.latest) && a[i].width == f.barWidth && a[i].height == 2
        && a[i].y == Row(a[i].price, f.minPrice, f.priceRange)
        && DrawsLevel(a[i], e, f.maxSize)
    {
      AskRectAt(e, f, i);
    }
    forall i, j | 0 <= i < j < |a| ensures a[i].price > a[j].price {
      AskRectAt(e, f, i);
      AskRectAt(e, f, j);
    }
    forall p | p in e.sell ensures exists i :: 0 <= i < |a| && a[i].price == p {
      var i :| 0 <= i < |ks| && ks[i] == p;
      AskRectAt(e, f, i);
    }
  }

  /** The buy rectangles of a column: one per buy level, by strictly
      ascending price, otherwise as the sell rectangles. */
  lemma BidRectsLayout(e: Snapshot, f: Frame)
    requires f.maxSize > 0.0
    ensures |BidRects(e, f)| == |e.buy|
    ensures var b := BidRects(e, f);
      forall i :: 0 <= i < |b| ==>
        && b[i].Rect? && b[i].fill == Bid
        && b[i].x == TimeX(e.ts, f.latest) && b[i].width == f.barWidth && b[i].height == 2
        && b[i].y == Row(b[i].price, f.minPrice, f.priceRange)
        && DrawsLevel(b[i], e, f.maxSize)
    ensures var b := BidRects(e, f);
      forall i, j :: 0 <= i < j < |b| ==> b[i].price < b[j].price
    ensures var b := BidRects(e, f);
      forall p :: p in e.buy ==> exists i :: 0 <= i < |b| && b[i].price == p
  {
    var ks := SortedKeys(e.buy);
    var b := BidRects(e, f);
    forall i | 0 <= i < |b|
      ensures && b[i].Rect? && b[i].fill == Bid
        && b[i].x == TimeX(e.ts, f.latest) && b[i].width == f.barWidth && b[i].height == 2
        && b[i].y == Row(b[i].price, f.minPrice, f.priceRange)
        && DrawsLevel(b[i], e, f.maxSize)
    {
      BidRectAt(e, f, i);
    }
    forall i, j | 0 <= i < j < |b| ensures b[i].price < b[j].price {
      BidRectAt(e, f, i);
      BidRectAt(e, f, j);
    }
    forall p | p in e.buy ensures exists i :: 0 <= i < |b| && b[i].price == p {
      assert p in ks;
      var i :| 0 <= i < |ks| && ks[i] == p;
      BidRectAt(e, f, i);
    }
  }

  lemma AskRectsDrawLevels(e: Snapshot, f: Frame)
    requires f.maxSize > 0.0
    ensures forall r :: r in AskRects(e, f) ==>
      r.Rect? && r.y == Row(r.price, f.minPrice, f.priceRange) && DrawsLevel(r, e, f.maxSize)
  {
    var asks := AskRects(e, f);
    forall r | r in asks
      ensures r.Rect? && r.y == Row(r.price, f.minPrice, f.priceRange) && DrawsLevel(r, e, f.maxSize)
    {
      var i :| 0 <= i < |asks| && asks[i] == r;
      AskRectAt(e, f, i);
    }
  }

  lemma BidRectsDrawLevels(e: Snapshot, f: Frame)
    requires f.maxSize > 0.0
    ensures forall r :: r in BidRects(e, f) ==>
      r.Rect? && r.y == Row(r.price, f.minPrice, f.priceRange) && DrawsLevel(r, e, f.maxSize)
  {
    var bids := BidRects(e, f);
    forall r | r in bids
      ensures r.Rect? && r.y == Row(r.price, f.minPrice, f.priceRange) && DrawsLevel(r, e, f.maxSize)
    {
      var i :| 0 <= i < |bids| && bids[i] == r;
      BidRectAt(e, f, i);
    }
  }

  /** Every primitive of a column is a rectangle at the row of its price, and
      every red or green one draws a level of the snapshot. */
  lemma ColumnRects(e: Snapshot, f: Frame)
    requires f.maxSize > 0.0
    ensures forall r :: r in Column(e, f) ==> r.Rect? && r.y == Row(r.price, f.minPrice, f.priceRange)
    ensures forall r :: r in Column(e, f) && r.Rect? && r.fill != MidLine ==> DrawsLevel(r, e, f.maxSize)
  {
    AskRectsDrawLevels(e, f);
    BidRectsDrawLevels(e, f);
    var asks, bids, mid := AskRects(e, f), BidRects(e, f), MidRect(e, f);
    assert Column(e, f) == asks + bids + [mid];
    forall r | r in asks + bids + [mid]
      ensures r.Rect? && r.y == Row(r.price, f.minPrice, f.priceRange)
      ensures r.Rect? && r.fill != MidLine ==> DrawsLevel(r, e, f.maxSize)
    {
      if r !in asks && r !in bids {
        assert r == mid;
      }
    }
  }

  /** Columns of a concatenation are the concatenated columns. */
  lemma {:induction false} ColumnsConcat(a: seq<Snapshot>, b: seq<Snapshot>, f: Frame)
    requires f.maxSize > 0.0
    ensures Columns(a + b, f) == Columns(a, f) + Columns(b, f)
    decreases |a|
  {
    if a == [] {
      assert a + b == b;
    } else {
      assert (a + b)[0] == a[0];
      assert (a + b)[1..] == a[1..] + b;
      ColumnsConcat(a[1..], b, f);
    }
  }

  /** The columns follow the history: the column of entry `k` comes after
      those of the entries before it and before those of the entries after. */
  lemma ColumnsSplit(h: seq<Snapshot>, k: int, f: Frame)
    requires 0 <= k < |h| && f.maxSize > 0.0
    ensures Columns(h, f) == Columns(h[..k], f) + Column(h[k], f) + Columns(h[k + 1..], f)
  {
    var rest := h[k + 1..];
    assert h == h[..k] + ([h[k]] + rest);
    ColumnsConcat(h[..k], [h[k]] + rest, f);
    assert ([h[k]] + rest)[1..] == rest;
  }

  lemma {:induction false} ColumnsLength(h: seq<Snapshot>, f: Frame)
    requires f.maxSize > 0.0
    ensures |Columns(h, f)| == ColumnPrims(h)
    decreases |h|
  {
    if h != [] {
      AskRectsLayout(h[0], f);
      BidRectsLayout(h[0], f);
      ColumnsLength(h[1..], f);
    }
  }

  /** Every primitive of the columns is a rectangle at the row of its price,
      and every red or green one draws a level of some snapshot of the window. */
  lemma {:induction false} ColumnsDrawLevels(h: seq<Snapshot>, f: Frame)
    requires f.maxSize > 0.0
    ensures forall r :: r in Columns(h, f) ==> r.Rect? && r.y == Row(r.price, f.minPrice, f.priceRange)
    ensures forall r :: r in Columns(h, f) && r.Rect? && r.fill != MidLine ==>
      exists k :: 0 <= k < |h| && DrawsLevel(r, h[k], f.maxSize)
    decreases |h|
  {
    if h != [] {
      ColumnsDrawLevels(h[1..], f);
      ColumnRects(h[0], f);
      forall r | r in Columns(h[1..], f) && r.Rect? && r.fill != MidLine
        ensures exists k :: 0 <= k < |h| && DrawsLevel(r, h[k], f.maxSize)
      {
        var k :| 0 <= k < |h[1..]| && DrawsLevel(r, h[1..][k], f.maxSize);
        assert h[k + 1] == h[1..][k];
      }
    }
  }

  /** With a positive size in the window the scene is the background, then the
      columns of the snapshots in history order, then the price axis. */
  lemma RenderLayout(h: seq<Snapshot>)
    requires MaxSize(h) > 0.0
    ensures h != []
    ensures var scene := Render(h);
      && |scene| == ColumnPrims(h) + 2
      && scene[0] == Background(ACTUAL_HEATMAP_WIDTH)
      && scene[1..|scene| - 1] == Columns(h, FrameOf(h))
      && scene[|scene| - 1] == PriceAxis(AxisTicks(PriceBounds(h).0, PriceBounds(h).1 - PriceBounds(h).0))
  {
    ColumnsLength(h, FrameOf(h));
    var scene := Render(h);
    assert scene[1..|scene| - 1] == Columns(h, FrameOf(h));
  }

  /** The rectangles of the scene are exactly those of the columns. */
  lemma RenderRects(h: seq<Snapshot>)
    requires MaxSize(h) > 0.0
    ensures h != []
    ensures forall r :: r in Render(h) && r.Rect? ==> r in Columns(h, FrameOf(h))
    ensures forall r :: r in Columns(h, FrameOf(h)) ==> r in Render(h)
  {
  }

  /** The opacity formula: at most one, at least zero for a size that is not
      negative, and exactly one for a size at or above the largest. */
  lemma AlphaClamp(size: real, maxSize: real)
    requires maxSize > 0.0
    ensures Alpha(size, maxSize) <= 1.0
    ensures size >= 0.0 ==> Alpha(size, maxSize) >= 0.0
    ensures Alpha(size, maxSize) == 1.0 <==> size >= maxSize
  {
    var a := size / maxSize;
    assert size == a * maxSize;
    if a < 1.0 {
      assert size < maxSize;
    }
  }

  /** Every red or green rectangle of the scene draws a level of the window. */
  lemma RenderedRectsDrawLevels(h: seq<Snapshot>)
    ensures forall r :: r in Render(h) && r.Rect? && r.fill != MidLine ==>
      exists k :: 0 <= k < |h| && DrawsLevel(r, h[k], MaxSize(h))
  {
    if MaxSize(h) > 0.0 {
      RenderRects(h);
      ColumnsDrawLevels(h, FrameOf(h));
    }
  }

  /** When no size is negative, every red or green rectangle of the scene has
      an opacity between zero and one. */
  lemma RenderedAlphaInUnitRange(h: seq<Snapshot>)
    requires forall v :: SizeAt(h, v) ==> v >= 0.0
    ensures forall r :: r in Render(h) && r.Rect? && r.fill != MidLine ==> 0.0 <= r.alpha <= 1.0
  {
    RenderedRectsDrawLevels(h);
    forall r | r in Render(h) && r.Rect? && r.fill != MidLine ensures 0.0 <= r.alpha <= 1.0 {
      var k :| 0 <= k < |h| && DrawsLevel(r, h[k], MaxSize(h));
      if r.fill == Ask {
        assert SizeAt(h, h[k].sell[r.price]);
        AlphaClamp(h[k].sell[r.price], MaxSize(h));
      } else {
        assert SizeAt(h, h[k].buy[r.price]);
        AlphaClamp(h[k].buy[r.price], MaxSize(h));
      }
    }
  }

  /** A level of the window is drawn at full opacity exactly when its size is
      the largest in the window. */
  lemma FullAlphaIffLargest(h: seq<Snapshot>, k: int, r: Prim)
    requires 0 <= k < |h| && DrawsLevel(r, h[k], MaxSize(h))
    ensures r.alpha == 1.0 <==>
      ((r.fill == Ask && h[k].sell[r.price] == MaxSize(h)) || (r.fill == Bid && h[k].buy[r.price] == MaxSize(h)))
  {
    MaxSizeIsLargest(h);
    if r.fill == Ask {
      assert SizeAt(h, h[k].sell[r.price]);
      AlphaClamp(h[k].sell[r.price], MaxSize(h));
    } else {
      assert SizeAt(h, h[k].buy[r.price]);
      AlphaClamp(h[k].buy[r.price], MaxSize(h));
    }
  }

  /** Whenever anything is drawn, a level with the largest size is drawn at
      full opacity. */
  lemma FullAlphaAtMaximum(h: seq<Snapshot>)
    requires MaxSize(h) > 0.0
    ensures exists r :: r in Render(h) && r.Rect? && r.fill != MidLine && r.alpha == 1.0
  {
    var f := FrameOf(h);
    MaxSizeIsLargest(h);
    var k, p :| 0 <= k < |h| &&
      ((p in h[k].buy && h[k].buy[p] == MaxSize(h)) || (p in h[k].sell && h[k].sell[p] == MaxSize(h)));
    ColumnHasFullAlpha(h[k], f, p);
    var r :| r in Column(h[k], f) && r.Rect? && r.fill != MidLine && r.alpha == 1.0;
    ColumnInColumns(h, k, f);
    RenderRects(h);
    assert r in Render(h);
  }

  /** A level whose size is the frame's largest is drawn at full opacity in its
      column. */
  lemma ColumnHasFullAlpha(e: Snapshot, f: Frame, p: real)
    requires f.maxSize > 0.0
    requires (p in e.sell && e.sell[p] == f.maxSize) || (p in e.buy && e.buy[p] == f.maxSize)
    ensures exists r :: r in Column(e, f) && r.Rect? && r.fill != MidLine && r.alpha == 1.0
  {
    var asks, bids, mid := AskRects(e, f), BidRects(e, f), MidRect(e, f);
    var r: Prim;
    if p in e.sell && e.sell[p] == f.maxSize {
      var ks := Descending(e.sell);
      var i :| 0 <= i < |ks| && ks[i] == p;
      AskRectAt(e, f, i);
      r := asks[i];
      AlphaClamp(f.maxSize, f.maxSize);
      assert r.alpha == 1.0;
      assert r in asks;
    } else {
      var ks := SortedKeys(e.buy);
      assert p in ks;
      var i :| 0 <= i < |ks| && ks[i] == p;
      BidRectAt(e, f, i);
      r := bids[i];
      AlphaClamp(f.maxSize, f.maxSize);
      assert r.alpha == 1.0;
      assert r in bids;
    }
    assert Column(e, f) == asks + bids + [mid];
    assert r in asks + bids + [mid];
  }

  /** Every primitive of the column of an entry is in the columns of the
      window. */
  lemma ColumnInColumns(h: seq<Snapshot>, k: int, f: Frame)
    requires 0 <= k < |h| && f.maxSize > 0.0
    ensures forall r :: r in Column(h[k], f) ==> r in Columns(h, f)
  {
    ColumnsSplit(h, k, f);
  }

  /** The bar width rounds the plotting width per snapshot up and adds one
      pixel: the columns together cover the plotting width, with less than
      one pixel per column to spare beyond the added one. */
  lemma BarWidthCovers(n: int)
    requires n > 0
    ensures (BarWidth(n) - 1) * n >= ACTUAL_HEATMAP_WIDTH
    ensures (BarWidth(n) - 2) * n < ACTUAL_HEATMAP_WIDTH
    ensures BarWidth(n) >= 2
  {
    var q := (ACTUAL_HEATMAP_WIDTH + n - 1) / n;
    var r := (ACTUAL_HEATMAP_WIDTH + n - 1) % n;
    assert q * n + r == ACTUAL_HEATMAP_WIDTH + n - 1;
    assert 0 <= r < n;
    assert (BarWidth(n) - 1) * n == q * n;
    assert (BarWidth(n) - 2) * n == q * n - n;
  }

  /** With a positive price range, a price between the bounds maps to a row on
      the canvas: the lowest price to the bottom edge and the highest to the
      top. */
  lemma RowOnCanvas(p: real, minPrice: real, priceRange: real)
    requires priceRange > 0.0 && minPrice <= p <= minPrice + priceRange
    ensures Row(p, minPrice, priceRange).Some?
    ensures 0 <= Row(p, minPrice, priceRange).value <= HEATMAP_HEIGHT
    ensures p == minPrice ==> Row(p, minPrice, priceRange).value == HEATMAP_HEIGHT
    ensures p == minPrice + priceRange ==> Row(p, minPrice, priceRange).value == 0
  {
    var a := (p - minPrice) / priceRange;
    assert a * priceRange == p - minPrice;
    assert 0.0 <= a <= 1.0;
    var v := a * 1080.0;
    assert 0.0 <= v <= 1080.0;
    if p == minPrice + priceRange {
      assert a == 1.0;
    }
  }

  /** A higher price is never drawn lower, also outside the price range (the
      mid line of a snapshot with an empty side lies below the lowest price). */
  lemma RowMonotone(p: real, q: real, minPrice: real, priceRange: real)
    requires priceRange > 0.0 && p <= q
    ensures Row(q, minPrice, priceRange).value <= Row(p, minPrice, priceRange).value
  {
    var vp := (p - minPrice) / priceRange;
    var vq := (q - minPrice) / priceRange;
    assert vp <= vq;
    assert vp * 1080.0 <= vq * 1080.0;
  }

  /** With a positive price range, every level rectangle of the scene lies on
      the canvas. */
  lemma RenderedLevelsOnCanvas(h: seq<Snapshot>)
    requires MaxSize(h) > 0.0
    requires PriceBounds(h).1 > PriceBounds(h).0
    ensures forall r :: r in Render(h) && r.Rect? && r.fill != MidLine ==>
      r.y.Some? && 0 <= r.y.value <= HEATMAP_HEIGHT
  {
    var f := FrameOf(h);
    RenderRects(h);
    ColumnsDrawLevels(h, f);
    PriceBoundsAreExtremes(h);
    forall r | r in Render(h) && r.Rect? && r.fill != MidLine
      ensures r.y.Some? && 0 <= r.y.value <= HEATMAP_HEIGHT
    {
      var k :| 0 <= k < |h| && DrawsLevel(r, h[k], f.maxSize);
      assert PriceAt(h, r.price);
      RowOnCanvas(r.price, f.minPrice, f.priceRange);
    }
  }

  /** A snapshot inside the window that is not later than the latest one
      starts inside the plotting area. */
  lemma TimeXInPlot(ts: int, latest: int)
    requires latest - WINDOW_MS < ts <= latest
    ensures 0 <= TimeX(ts, latest) <= ACTUAL_HEATMAP_WIDTH
  {
    var d := (ts - (latest - WINDOW_MS)) as real;
    assert 0.0 < d <= 300_000.0;
    assert d / 300_000.0 <= 1.0;
    assert d / 300_000.0 * 1620.0 <= 1620.0;
  }

  /** Every rectangle of a level run sits at the run's column. */
  lemma LevelRectsAtColumn(fill: Fill, side: Side, prices: seq<real>, x: int, f: Frame)
    requires forall i :: 0 <= i < |prices| ==> prices[i] in side
    requires f.maxSize > 0.0
    ensures forall r :: r in LevelRects(fill, side, prices, x, f) ==> r.Rect? && r.x == x
  {
    var rs := LevelRects(fill, side, prices, x, f);
    forall r | r in rs ensures r.Rect? && r.x == x {
      var i :| 0 <= i < |rs| && rs[i] == r;
    }
  }

  lemma AskRectsAtColumn(e: Snapshot, f: Frame)
    requires f.maxSize > 0.0
    ensures forall r :: r in AskRects(e, f) ==> r.Rect? && r.x == TimeX(e.ts, f.latest)
  {
    LevelRectsAtColumn(Ask, e.sell, Descending(e.sell), TimeX(e.ts, f.latest), f);
  }

  lemma BidRectsAtColumn(e: Snapshot, f: Frame)
    requires f.maxSize > 0.0
    ensures forall r :: r in BidRects(e, f) ==> r.Rect? && r.x == TimeX(e.ts, f.latest)
  {
    var bids := SortedKeys(e.buy);
    assert forall i :: 0 <= i < |bids| ==> bids[i] in e.buy by {
      forall i | 0 <= i < |bids| ensures bids[i] in e.buy {
        assert bids[i] in bids;
      }
    }
    LevelRectsAtColumn(Bid, e.buy, bids, TimeX(e.ts, f.latest), f);
  }

  /** Every primitive of a snapshot's column starts at that snapshot's column. */
  lemma ColumnAtEntry(e: Snapshot, f: Frame)
    requires f.maxSize > 0.0
    ensures forall r :: r in Column(e, f) ==> r.Rect? && r.x == TimeX(e.ts, f.latest)
  {
    AskRectsAtColumn(e, f);
    BidRectsAtColumn(e, f);
    var asks, bids, mid := AskRects(e, f), BidRects(e, f), MidRect(e, f);
    assert Column(e, f) == asks + bids + [mid];
    forall r | r in asks + bids + [mid] ensures r.Rect? && r.x == TimeX(e.ts, f.latest) {
      if r !in asks && r !in bids {
        assert r == mid;
      }
    }
  }

  /** Every primitive of the columns starts at the column of some entry. */
  lemma {:induction false} ColumnsAtEntries(h: seq<Snapshot>, f: Frame)
    requires f.maxSize > 0.0
    ensures forall r :: r in Columns(h, f) ==>
      r.Rect? && exists k :: 0 <= k < |h| && r.x == TimeX(h[k].ts, f.latest)
    decreases |h|
  {
    if h != [] {
      ColumnsAtEntries(h[1..], f);
      ColumnAtEntry(h[0], f);
      forall r | r in Columns(h[1..], f)
        ensures exists k :: 0 <= k < |h| && r.x == TimeX(h[k].ts, f.latest)
      {
        var k :| 0 <= k < |h[1..]| && r.x == TimeX(h[1..][k].ts, f.latest);
        assert h[k + 1] == h[1..][k];
      }
    }
  }

  /** In a chronological history that lies within its five-minute window,
      every rectangle of the scene starts inside the plotting area. */
  lemma RenderedColumnsInPlot(h: seq<Snapshot>)
    requires MaxSize(h) > 0.0
    requires InWindow(h) && Chronological(h)
    ensures forall r :: r in Render(h) && r.Rect? ==> 0 <= r.x <= ACTUAL_HEATMAP_WIDTH
  {
    RenderRects(h);
    var f := FrameOf(h);
    ColumnsAtEntries(h, f);
    forall r | r in Render(h) && r.Rect? ensures 0 <= r.x <= ACTUAL_HEATMAP_WIDTH {
      var k :| 0 <= k < |h| && r.x == TimeX(h[k].ts, f.latest);
      TimeXInPlot(h[k].ts, h[|h| - 1].ts);
    }
  }

  /** The column position is taken from the last entry's timestamp, not the
      largest one: an entry stamped 186 ms or more after the last one (an
      out-of-order update) starts past the plotting area, in the axis margin. */
  lemma LaterEntryStartsInMargin(ts: int, latest: int)
    requires ts >= latest + 186
    ensures TimeX(ts, latest) > ACTUAL_HEATMAP_WIDTH
  {
    var d := (ts - (latest - WINDOW_MS)) as real;
    assert d >= 300_186.0;
    assert d / 300_000.0 * 1620.0 >= 300_186.0 / 300_000.0 * 1620.0;
    assert 300_186.0 / 300_000.0 * 1620.0 > 1621.0;
  }

  /** The price axis: eleven ticks from the bottom edge to the top, 108 pixels
      apart, labelled from the lowest price to the highest in tenths of the
      range, with the labels right of the tick lines in the margin. */
  lemma AxisLayout(minPrice: real, priceRange: real)
    ensures var t := AxisTicks(minPrice, priceRange);
      && |t| == 11
      && (forall i :: 0 <= i < 11 ==>
            && t[i].lineY == HEATMAP_HEIGHT - 108 * i
            && t[i].labelY == t[i].lineY + 5
            && t[i].price == minPrice + priceRange * i as real / 10.0
            && t[i].labelX == ACTUAL_HEATMAP_WIDTH + 20
            && t[i].lineX1 == ACTUAL_HEATMAP_WIDTH && t[i].lineX2 == ACTUAL_HEATMAP_WIDTH + 10)
      && t[0].price == minPrice
      && t[10].price == minPrice + priceRange
  {
    var t := AxisTicks(minPrice, priceRange);
    forall i | 0 <= i < 11 ensures t[i].lineY == HEATMAP_HEIGHT - 108 * i {
      assert 1080.0 * (1.0 - i as real / 10.0) == (1080 - 108 * i) as real;
    }
  }

  /** The mid line sits halfway between the best bid and the best ask; with
      one side empty that side counts as price zero. */
  lemma MidPriceDefaults(e: Snapshot)
    ensures e.sell == map[] ==> MidPrice(e) == BestBid(e.buy) / 2.0
    ensures e.buy == map[] ==> MidPrice(e) == BestAsk(e.sell) / 2.0
    ensures e.buy != map[] && e.sell != map[] && BestBid(e.buy) <= BestAsk(e.sell) ==>
      BestBid(e.buy) <= MidPrice(e) <= BestAsk(e.sell)
  {
  }
}
