/** The purchase resolver: which chunks of a requested rectangle must be
    bought from which earlier owners, at what price, or why the request is
    refused. The ownership history is append-only and a later plot lies on
    top of the earlier ones. */
module ComputePurchase {
  import opened Models
  import opened PlotMath

  /** The largest request, in cells. */
  const MaxPurchasePixels := 1000

  const TooLargeMessage := "Plots cannot be greater than 1000 pixels"
  const NotForSaleMessage := "One of the plots is not for sale"
  const InvalidStateMessage := "Invalid state detected"

  /** The fee is plotPrice * FeeMultiplier / FeeDivisor, that is 1%. */
  const FeeMultiplier := 1000
  const FeeDivisor := 1000 * 100

  /** A successful result: the chunks to buy, the plot each chunk is bought
      from (parallel to the chunks), and the three amounts in wei. */
  datatype PurchaseData = PurchaseData(
    chunksToPurchase: seq<Rect>,
    chunksToPurchaseAreaIndices: seq<int>,
    purchasePrice: nat,
    plotPrice: nat,
    feePrice: nat)

  datatype Option<T> = None | Some(value: T)

  datatype PurchaseInfo = Invalid(errorMessage: string) | Valid(purchaseData: PurchaseData)

  // ---------------------------------------------------------------------
  // Ownership of cells

  /** Plot k is the topmost plot holding cell (px, py). */
  ghost predicate IsTopOwner(plots: seq<PlotInfo>, px: int, py: int, k: int) {
    0 <= k < |plots| && plots[k].rect.Contains(px, py) &&
    forall m :: k < m < |plots| ==> !plots[m].rect.Contains(px, py)
  }

  /** No plot holds cell (px, py). */
  ghost predicate Unowned(plots: seq<PlotInfo>, px: int, py: int) {
    forall k :: 0 <= k < |plots| ==> !plots[k].rect.Contains(px, py)
  }

  /** Some cell of `req` has a topmost owner who does not sell. */
  ghost predicate HasUnsellableCell(req: Rect, plots: seq<PlotInfo>) {
    exists px, py, k :: req.Contains(px, py) && IsTopOwner(plots, px, py, k) &&
                        plots[k].buyoutPricePerPixelInWei == 0
  }

  /** Some cell of `req` belongs to no plot. */
  ghost predicate HasUnownedCell(req: Rect, plots: seq<PlotInfo>) {
    exists px, py :: req.Contains(px, py) && Unowned(plots, px, py)
  }

  /** Chunk `c` can be bought from plot `idx`: it lies in that plot, the plot
      sells, and no later plot overlaps the chunk. */
  ghost predicate TopmostSource(plots: seq<PlotInfo>, c: Rect, idx: int) {
    0 <= idx < |plots| && Inside(c, plots[idx].rect) && plots[idx].buyoutPricePerPixelInWei > 0 &&
    forall m :: idx < m < |plots| ==> !DoRectanglesOverlap(plots[m].rect, c)
  }

  /** Every chunk is paired with a plot it can be bought from. */
  ghost predicate Sourced(plots: seq<PlotInfo>, chunks: seq<Rect>, indices: seq<int>) {
    |chunks| == |indices| &&
    forall k :: 0 <= k < |chunks| ==> TopmostSource(plots, chunks[k], indices[k])
  }

  /** The rectangles are valid, pairwise disjoint, and their cells are
      exactly the cells of `req`. */
  ghost predicate Tiles(req: Rect, rs: seq<Rect>) {
    ValidRects(rs) && PairwiseDisjoint(rs) &&
    forall px, py :: req.Contains(px, py) <==> InAny(rs, px, py)
  }

  /** The price of the chunks: for each chunk, its plot's price per pixel
      times the chunk's area. */
  function ChunksPrice(plots: seq<PlotInfo>, chunks: seq<Rect>, indices: seq<int>): nat
    requires |chunks| == |indices| && ValidRects(chunks)
    requires forall k :: 0 <= k < |indices| ==> 0 <= indices[k] < |plots|
    decreases |chunks|
  {
    if |chunks| == 0 then 0
    else
      var n := |chunks| - 1;
      ChunksPrice(plots, chunks[..n], indices[..n]) +
      Buyout(plots[indices[n]].buyoutPricePerPixelInWei, chunks[n])
  }

  /** What a chunk costs: the price per pixel times its area. It is zero
      exactly when the price is. */
  function Buyout(pricePerPixel: nat, chunk: Rect): (cost: nat)
    requires chunk.Valid()
    ensures cost == 0 <==> pricePerPixel == 0
  {
    pricePerPixel * (chunk.w * chunk.h)
  }

  /** A successful result for `req`: the chunks tile the request, each is
      bought from its topmost owner, and the prices add up. */
  ghost predicate IsPlan(req: Rect, plots: seq<PlotInfo>, d: PurchaseData) {
    Tiles(req, d.chunksToPurchase) &&
    Sourced(plots, d.chunksToPurchase, d.chunksToPurchaseAreaIndices) &&
    d.plotPrice == ChunksPrice(plots, d.chunksToPurchase, d.chunksToPurchaseAreaIndices) &&
    d.feePrice == FeePrice(d.plotPrice) &&
    d.purchasePrice == d.plotPrice + d.feePrice
  }

  // ---------------------------------------------------------------------
  // Fee

  /** num / den rounded to the nearest integer, halves rounded up. */
  function RoundHalfUp(num: nat, den: nat): (r: nat)
    requires den > 0
    ensures den * (2 * r - 1) <= 2 * num < den * (2 * r + 1)
  {
    (2 * num + den) / (2 * den)
  }

  /** The fee: the exact decimal plotPrice * 1000 / 100000 rendered without
      decimals, which rounds half up. It is 1% of the plot price, to within
      half a wei. */
  function FeePrice(plotPrice: nat): (fee: nat)
    ensures 100 * (2 * fee - 1) <= 2 * plotPrice < 100 * (2 * fee + 1)
  {
    var fee := RoundHalfUp(plotPrice * FeeMultiplier, FeeDivisor);
    assert 1000 * (100 * (2 * fee - 1)) <= 1000 * (2 * plotPrice) < 1000 * (100 * (2 * fee + 1));
    fee
  }

  /** The total: the exact decimal plotPrice + plotPrice * 1000 / 100000
      rendered without decimals. Because the plot price is whole, this is the
      plot price plus the rounded fee. */
  function TotalPrice(plotPrice: nat): (total: nat)
    ensures total == plotPrice + FeePrice(plotPrice)
  {
    var total := RoundHalfUp(plotPrice * FeeDivisor + plotPrice * FeeMultiplier, FeeDivisor);
    assert 2 * (plotPrice * FeeDivisor + plotPrice * FeeMultiplier) + FeeDivisor ==
           2 * FeeDivisor * plotPrice + (2 * (plotPrice * FeeMultiplier) + FeeDivisor);
    DivShift(plotPrice, 2 * (plotPrice * FeeMultiplier) + FeeDivisor);
    total
  }

  lemma DivShift(q: nat, a: nat)
    ensures (2 * FeeDivisor * q + a) / (2 * FeeDivisor) == q + a / (2 * FeeDivisor)
  {
    var r := a / (2 * FeeDivisor);
    assert a == 2 * FeeDivisor * r + a % (2 * FeeDivisor);
  }

  /** The fee against a truncating division: it is the plot price divided
      by 100, plus one exactly when the remainder is 50 or more. */
  lemma FeeAgainstTruncation(plotPrice: nat)
    ensures FeePrice(plotPrice) == plotPrice / 100 + (if plotPrice % 100 >= 50 then 1 else 0)
  {
    var fee := FeePrice(plotPrice);
    var q, r := plotPrice / 100, plotPrice % 100;
    assert plotPrice == 100 * q + r;
    assert 100 * (2 * fee - 1) <= 200 * q + 2 * r < 100 * (2 * fee + 1);
  }

  /** With a plot price that is a whole number of hundreds, the fee is
      exactly a hundredth. */
  lemma FeeOfWholeHundreds(plotPrice: nat)
    requires plotPrice % 100 == 0
    ensures FeePrice(plotPrice) * 100 == plotPrice
  {
    var fee := FeePrice(plotPrice);
    var c := plotPrice / 100;
    assert plotPrice == 100 * c;
    assert 100 * (2 * fee - 1) <= 200 * c < 100 * (2 * fee + 1);
  }

  // ---------------------------------------------------------------------
  // The resolver

  /** The plan or refusal for buying `rectToPurchase` over the ownership
      history `plots`. The outcome is fixed by the request and the history:
      too large; else not for sale if some cell's topmost owner does not sell;
      else invalid if some cell has no owner; else a plan. */
  method ComputePurchaseInfo(rectToPurchase: Rect, plots: seq<PlotInfo>) returns (info: PurchaseInfo)
    requires rectToPurchase.Valid() && ValidPlots(plots)
    ensures rectToPurchase.Area() > MaxPurchasePixels ==> info == Invalid(TooLargeMessage)
    ensures rectToPurchase.Area() <= MaxPurchasePixels && HasUnsellableCell(rectToPurchase, plots) ==>
            info == Invalid(NotForSaleMessage)
    ensures rectToPurchase.Area() <= MaxPurchasePixels && !HasUnsellableCell(rectToPurchase, plots) &&
            HasUnownedCell(rectToPurchase, plots) ==>
            info == Invalid(InvalidStateMessage)
    ensures rectToPurchase.Area() <= MaxPurchasePixels && !HasUnsellableCell(rectToPurchase, plots) &&
            !HasUnownedCell(rectToPurchase, plots) ==>
            info.Valid? && IsPlan(rectToPurchase, plots, info.purchaseData)
    ensures forall k :: rectToPurchase.Area() <= MaxPurchasePixels && TopmostSource(plots, rectToPurchase, k) ==>
            info == Valid(SoleChunkPlan(rectToPurchase, plots, k))
  {
    var purchasedChunks: seq<Rect> := [];
    var purchasedChunkAreaIndices: seq<int> := [];
    var purchasePrice: nat := 0;

    if rectToPurchase.Area() > MaxPurchasePixels {
      return Invalid(TooLargeMessage);
    }

    // Walk the history from the top, buying each remaining chunk's overlap
    // with the current plot and keeping what is left of it for older plots.
    var remainingChunksToPurchase := [rectToPurchase];
    var i := |plots| - 1;
    InitialTiling(rectToPurchase);
    while |remainingChunksToPurchase| > 0 && i >= 0
      invariant -1 <= i < |plots|
      invariant Walking(rectToPurchase, plots, purchasedChunks, purchasedChunkAreaIndices, remainingChunksToPurchase,
                        purchasePrice, i + 1)
      decreases i + 1
    {
      var refusal;
      refusal, purchasedChunks, purchasedChunkAreaIndices, remainingChunksToPurchase, purchasePrice :=
        BuyFromPlot(rectToPurchase, plots, i, purchasedChunks, purchasedChunkAreaIndices, remainingChunksToPurchase, purchasePrice);
      if refusal.Some? {
        SoleSourceSells(rectToPurchase, plots);
        return Invalid(refusal.value);
      }
      i := i - 1;
    }

    CellsAccounted(rectToPurchase, plots, purchasedChunks, purchasedChunkAreaIndices, remainingChunksToPurchase);
    if |remainingChunksToPurchase| > 0 {
      SoleSourceSells(rectToPurchase, plots);
      return Invalid(InvalidStateMessage);
    }

    var feePrice := FeePrice(purchasePrice);
    var totalPrice := TotalPrice(purchasePrice);
    info := Valid(PurchaseData(purchasedChunks, purchasedChunkAreaIndices, totalPrice, purchasePrice, feePrice));
    PlanTiles(rectToPurchase, purchasedChunks);
    forall k | TopmostSource(plots, rectToPurchase, k)
      ensures info == Valid(SoleChunkPlan(rectToPurchase, plots, k))
    {
      SoleChunk(rectToPurchase, plots, k, purchasedChunks, purchasedChunkAreaIndices);
    }
  }

  /** The inner loop of the resolver for plot i: buys from plot i its overlap
      with each remaining chunk, replacing that chunk by what is left of it.
      It refuses as soon as an overlap is not for sale; otherwise afterwards
      no remaining chunk overlaps plot i or anything above it. */
  method BuyFromPlot(ghost req: Rect, plots: seq<PlotInfo>, i: int,
                     chunks0: seq<Rect>, indices0: seq<int>, work0: seq<Rect>, price0: nat)
    returns (refusal: Option<string>, purchasedChunks: seq<Rect>, purchasedChunkAreaIndices: seq<int>,
             remainingChunksToPurchase: seq<Rect>, purchasePrice: nat)
    requires ValidPlots(plots) && 0 <= i < |plots|
    requires Walking(req, plots, chunks0, indices0, work0, price0, i + 1)
    ensures refusal.Some? ==> refusal == Some(NotForSaleMessage) && HasUnsellableCell(req, plots)
    ensures refusal.None? ==>
              Walking(req, plots, purchasedChunks, purchasedChunkAreaIndices, remainingChunksToPurchase, purchasePrice, i)
  {
    purchasedChunks, purchasedChunkAreaIndices, remainingChunksToPurchase, purchasePrice := chunks0, indices0, work0, price0;
    var currentPlot := plots[i];
    var j := 0;
    while j < |remainingChunksToPurchase|
      invariant Scanning(req, plots, i, purchasedChunks, purchasedChunkAreaIndices, remainingChunksToPurchase,
                         purchasePrice, j)
      decreases CountOverlapping(currentPlot.rect, remainingChunksToPurchase), |remainingChunksToPurchase| - j
    {
      var chunkToPurchase := remainingChunksToPurchase[j];
      if DoRectanglesOverlap(currentPlot.rect, chunkToPurchase) {
        // The overlap is bought from this plot: no plot above it covers
        // any of the remaining chunks.
        var chunkOverlap := ComputeRectOverlap(currentPlot.rect, chunkToPurchase);
        var newHole := chunkOverlap;
        ghost var chunksBefore, indicesBefore := purchasedChunks, purchasedChunkAreaIndices;
        purchasedChunks := purchasedChunks + [newHole];
        purchasedChunkAreaIndices := purchasedChunkAreaIndices + [i];

        var plotBuyout := Buyout(currentPlot.buyoutPricePerPixelInWei, chunkOverlap);
        if plotBuyout == 0 {
          NotForSaleWitness(req, plots, i, chunksBefore, indicesBefore, remainingChunksToPurchase, purchasePrice, j);
          return Some(NotForSaleMessage), purchasedChunks, purchasedChunkAreaIndices, remainingChunksToPurchase, purchasePrice;
        }

        // Replace the chunk by what is left of it once the overlap is cut out.
        ProcessChunk(req, plots, i, chunksBefore, indicesBefore, remainingChunksToPurchase, purchasePrice, j);
        remainingChunksToPurchase := remainingChunksToPurchase[..j] + remainingChunksToPurchase[j + 1..];
        var newChunksToPurchase := SubtractRectangles(chunkToPurchase, newHole);
        remainingChunksToPurchase := remainingChunksToPurchase + newChunksToPurchase;
        purchasePrice := purchasePrice + plotBuyout;
        j := j - 1;

        if DoAnyOverlap(remainingChunksToPurchase) {
          return Some(InvalidStateMessage), purchasedChunks, purchasedChunkAreaIndices, remainingChunksToPurchase, purchasePrice;
        }
      }
      j := j + 1;
    }
    ScanDone(req, plots, i, purchasedChunks, purchasedChunkAreaIndices, remainingChunksToPurchase, purchasePrice, j);
    refusal := None;
  }

  /** The result for a request that lies in one plot with nothing above it:
      the request itself, bought from that plot. */
  function SoleChunkPlan(req: Rect, plots: seq<PlotInfo>, k: int): PurchaseData
    requires req.Valid() && 0 <= k < |plots|
  {
    var plotPrice := Buyout(plots[k].buyoutPricePerPixelInWei, req);
    PurchaseData([req], [k], TotalPrice(plotPrice), plotPrice, FeePrice(plotPrice))
  }

  // ---------------------------------------------------------------------
  // Loop invariants and the lemmas that keep them

  /** The emitted chunks and the remaining chunks are valid, pairwise
      disjoint, and together cover exactly the request. */
  ghost predicate Tiling(req: Rect, chunks: seq<Rect>, work: seq<Rect>) {
    ValidRects(chunks) && ValidRects(work) &&
    PairwiseDisjoint(chunks) && PairwiseDisjoint(work) && CrossDisjoint(chunks, work) &&
    forall px, py :: req.Contains(px, py) <==> InAny(chunks, px, py) || InAny(work, px, py)
  }

  /** The outer loop's invariant: the tiling, the sources and the price
      hold, and no plot at index `from` or above overlaps a remaining chunk. */
  ghost predicate Walking(req: Rect, plots: seq<PlotInfo>, chunks: seq<Rect>, indices: seq<int>, work: seq<Rect>,
                          price: nat, from: int) {
    Tiling(req, chunks, work) && Sourced(plots, chunks, indices) && Unclaimed(plots, work, from) &&
    price == ChunksPrice(plots, chunks, indices) &&
    FirstPurchase(req, plots, chunks, indices, work)
  }

  /** The inner loop's invariant for plot i at position j: the outer
      invariant above plot i, and none of the first j remaining chunks
      overlaps plot i. */
  ghost predicate Scanning(req: Rect, plots: seq<PlotInfo>, i: int, chunks: seq<Rect>, indices: seq<int>,
                           work: seq<Rect>, price: nat, j: int) {
    ValidPlots(plots) && 0 <= i < |plots| && 0 <= j <= |work| &&
    Walking(req, plots, chunks, indices, work, price, i + 1) &&
    forall k :: 0 <= k < j ==> !DoRectanglesOverlap(plots[i].rect, work[k])
  }

  lemma ScanDone(req: Rect, plots: seq<PlotInfo>, i: int, chunks: seq<Rect>, indices: seq<int>,
                 work: seq<Rect>, price: nat, j: int)
    requires Scanning(req, plots, i, chunks, indices, work, price, j) && j >= |work|
    ensures Walking(req, plots, chunks, indices, work, price, i)
  {
  }

  /** No plot at index `from` or above overlaps a remaining chunk. */
  ghost predicate Unclaimed(plots: seq<PlotInfo>, work: seq<Rect>, from: int) {
    forall k, m :: 0 <= k < |work| && 0 <= m < |plots| && from <= m ==> !DoRectanglesOverlap(plots[m].rect, work[k])
  }

  /** Until something is bought the request is the one remaining chunk; the
      first chunk bought is the request's overlap with its plot. */
  ghost predicate FirstPurchase(req: Rect, plots: seq<PlotInfo>, chunks: seq<Rect>, indices: seq<int>, work: seq<Rect>) {
    (chunks == [] ==> work == [req]) &&
    (chunks != [] ==> |indices| > 0 && 0 <= indices[0] < |plots| &&
                      plots[indices[0]].rect.Valid() && req.Valid() &&
                      DoRectanglesOverlap(plots[indices[0]].rect, req) &&
                      chunks[0] == ComputeRectOverlap(plots[indices[0]].rect, req))
  }

  /** The number of rectangles of `rs` that overlap `r`. */
  function CountOverlapping(r: Rect, rs: seq<Rect>): nat {
    if |rs| == 0 then 0
    else (if DoRectanglesOverlap(r, rs[0]) then 1 else 0) + CountOverlapping(r, rs[1..])
  }

  lemma {:induction false} CountConcat(r: Rect, a: seq<Rect>, b: seq<Rect>)
    ensures CountOverlapping(r, a + b) == CountOverlapping(r, a) + CountOverlapping(r, b)
  {
    if |a| == 0 {
      assert a + b == b;
    } else {
      assert (a + b)[1..] == a[1..] + b;
      CountConcat(r, a[1..], b);
    }
  }

  lemma {:induction false} CountNone(r: Rect, a: seq<Rect>)
    requires forall k :: 0 <= k < |a| ==> !DoRectanglesOverlap(r, a[k])
    ensures CountOverlapping(r, a) == 0
  {
    if |a| > 0 {
      CountNone(r, a[1..]);
    }
  }

  lemma InitialTiling(req: Rect)
    requires req.Valid()
    ensures Tiling(req, [], [req])
  {
    forall px, py ensures req.Contains(px, py) <==> InAny([req], px, py) {
      if req.Contains(px, py) {
        assert [req][0] == req;
      }
    }
  }

  /** Removing position j: what is left is the other positions, in order. */
  lemma RemoveAt(work: seq<Rect>, j: int)
    requires 0 <= j < |work|
    ensures var rest := work[..j] + work[j + 1..];
            |rest| == |work| - 1 &&
            forall k :: 0 <= k < |rest| ==> rest[k] == work[if k < j then k else k + 1]
  {
  }

  lemma InAnyRemove(work: seq<Rect>, j: int, px: int, py: int)
    requires 0 <= j < |work|
    ensures InAny(work, px, py) <==> InAny(work[..j] + work[j + 1..], px, py) || work[j].Contains(px, py)
  {
    var rest := work[..j] + work[j + 1..];
    RemoveAt(work, j);
    if InAny(work, px, py) && !work[j].Contains(px, py) {
      var k :| 0 <= k < |work| && work[k].Contains(px, py);
      var k' := if k < j then k else k - 1;
      assert rest[k'] == work[k];
    }
    if InAny(rest, px, py) {
      var k :| 0 <= k < |rest| && rest[k].Contains(px, py);
      assert work[if k < j then k else k + 1] == rest[k];
    }
  }

  /** The pieces left over from work[j] miss the plot it was cut by. */
  lemma PiecesMissPlot(plot: Rect, c: Rect)
    requires plot.Valid() && c.Valid() && DoRectanglesOverlap(plot, c)
    ensures var pieces := SubtractRectangles(c, ComputeRectOverlap(plot, c));
            forall k :: 0 <= k < |pieces| ==> !DoRectanglesOverlap(plot, pieces[k])
  {
  }

  /** One overlap step of the inner loop keeps the tiling. */
  lemma StepTiling(req: Rect, plot: Rect, chunks: seq<Rect>, work: seq<Rect>, j: int)
    requires plot.Valid() && Tiling(req, chunks, work)
    requires 0 <= j < |work| && DoRectanglesOverlap(plot, work[j])
    ensures var hole := ComputeRectOverlap(plot, work[j]);
            Tiling(req, chunks + [hole], work[..j] + work[j + 1..] + SubtractRectangles(work[j], hole))
  {
    var c := work[j];
    var hole := ComputeRectOverlap(plot, c);
    var pieces := SubtractRectangles(c, hole);
    var rest := work[..j] + work[j + 1..];
    var chunks', work' := chunks + [hole], rest + pieces;
    RemoveAt(work, j);

    // validity
    assert ValidRects(rest);
    assert ValidRects(chunks') && ValidRects(work');

    // disjointness
    assert PairwiseDisjoint(rest);
    assert CrossDisjoint(rest, pieces);
    PairwiseConcat(rest, pieces);
    assert CrossDisjoint(chunks, [hole]);
    PairwiseConcat(chunks, [hole]);
    StepCross(chunks, work, j, hole, pieces);

    // coverage
    forall px, py
      ensures req.Contains(px, py) <==> InAny(chunks', px, py) || InAny(work', px, py)
    {
      InAnyConcat(chunks, [hole], px, py);
      InAnyConcat(rest, pieces, px, py);
      InAnyRemove(work, j, px, py);
      assert InAny([hole], px, py) <==> hole.Contains(px, py) by {
        if hole.Contains(px, py) { assert [hole][0] == hole; }
      }
    }
  }

  lemma StepCross(chunks: seq<Rect>, work: seq<Rect>, j: int, hole: Rect, pieces: seq<Rect>)
    requires 0 <= j < |work| && ValidRects(work) && PairwiseDisjoint(work) && CrossDisjoint(chunks, work)
    requires Inside(hole, work[j]) && forall k :: 0 <= k < |pieces| ==> Inside(pieces[k], work[j])
    requires forall k :: 0 <= k < |pieces| ==> !DoRectanglesOverlap(pieces[k], hole)
    ensures CrossDisjoint(chunks + [hole], work[..j] + work[j + 1..] + pieces)
  {
    var rest := work[..j] + work[j + 1..];
    var a, b := chunks + [hole], rest + pieces;
    RemoveAt(work, j);
    forall x, y | 0 <= x < |a| && 0 <= y < |b|
      ensures !DoRectanglesOverlap(a[x], b[y])
    {
      var inner := if x < |chunks| then a[x] else work[j];
      if y < |rest| {
        var m := if y < j then y else y + 1;
        assert b[y] == work[m];
        if x < |chunks| {
          assert a[x] == chunks[x];
        } else {
          assert a[x] == hole;
          assert !DoRectanglesOverlap(work[j], work[m]) && !DoRectanglesOverlap(work[m], work[j]);
        }
      } else {
        assert b[y] == pieces[y - |rest|];
        if x < |chunks| {
          assert a[x] == chunks[x];
          assert !DoRectanglesOverlap(chunks[x], work[j]);
        } else {
          assert a[x] == hole;
        }
      }
    }
  }

  /** One overlap step keeps the sources, the unclaimed chunks, the checked
      prefix, and lowers the number of chunks overlapping the current plot. */
  lemma ProcessChunk(req: Rect, plots: seq<PlotInfo>, i: int, chunks: seq<Rect>, indices: seq<int>, work: seq<Rect>,
                     price: nat, j: int)
    requires Scanning(req, plots, i, chunks, indices, work, price, j) && plots[i].buyoutPricePerPixelInWei > 0
    requires j < |work| && DoRectanglesOverlap(plots[i].rect, work[j])
    ensures var hole := ComputeRectOverlap(plots[i].rect, work[j]);
            var work' := work[..j] + work[j + 1..] + SubtractRectangles(work[j], hole);
            Scanning(req, plots, i, chunks + [hole], indices + [i], work',
                     price + Buyout(plots[i].buyoutPricePerPixelInWei, hole), j) &&
            CountOverlapping(plots[i].rect, work') < CountOverlapping(plots[i].rect, work)
  {
    var plot := plots[i].rect;
    var c := work[j];
    var hole := ComputeRectOverlap(plot, c);
    var pieces := SubtractRectangles(c, hole);
    var rest := work[..j] + work[j + 1..];
    var work' := rest + pieces;
    StepTiling(req, plot, chunks, work, j);
    RemoveAt(work, j);

    // the new chunk's source
    assert TopmostSource(plots, hole, i);
    var chunks', indices' := chunks + [hole], indices + [i];
    forall k | 0 <= k < |chunks'| ensures TopmostSource(plots, chunks'[k], indices'[k]) {
      if k < |chunks| {
        assert chunks'[k] == chunks[k] && indices'[k] == indices[k];
      }
    }

    // nothing above plot i overlaps what remains
    forall k, m | 0 <= k < |work'| && i + 1 <= m < |plots|
      ensures !DoRectanglesOverlap(plots[m].rect, work'[k])
    {
      if k < |rest| {
        assert work'[k] == work[if k < j then k else k + 1];
      } else {
        assert work'[k] == pieces[k - |rest|];
        assert !DoRectanglesOverlap(plots[m].rect, c);
      }
    }

    // the price
    assert chunks'[..|chunks|] == chunks && indices'[..|chunks|] == indices;
    assert ChunksPrice(plots, chunks', indices') == price + Buyout(plots[i].buyoutPricePerPixelInWei, hole);

    StepMeasure(plot, work, j);
  }

  /** Cutting the current plot out of work[j] lowers the number of remaining
      chunks that overlap the plot: the pieces left over all miss it. */
  lemma StepMeasure(plot: Rect, work: seq<Rect>, j: int)
    requires plot.Valid() && ValidRects(work) && 0 <= j < |work| && DoRectanglesOverlap(plot, work[j])
    ensures var work' := work[..j] + work[j + 1..] + SubtractRectangles(work[j], ComputeRectOverlap(plot, work[j]));
            CountOverlapping(plot, work') < CountOverlapping(plot, work)
  {
    var c := work[j];
    var pieces := SubtractRectangles(c, ComputeRectOverlap(plot, c));
    var rest := work[..j] + work[j + 1..];
    PiecesMissPlot(plot, c);
    assert work == work[..j] + [c] + work[j + 1..];
    CountConcat(plot, work[..j] + [c], work[j + 1..]);
    CountConcat(plot, work[..j], [c]);
    CountConcat(plot, rest, pieces);
    CountConcat(plot, work[..j], work[j + 1..]);
    CountNone(plot, pieces);
    assert CountOverlapping(plot, [c]) == 1;
  }

  /** A zero price met on a remaining chunk exhibits a cell whose topmost
      owner does not sell. */
  lemma NotForSaleWitness(req: Rect, plots: seq<PlotInfo>, i: int, chunks: seq<Rect>, indices: seq<int>,
                          work: seq<Rect>, price: nat, j: int)
    requires Scanning(req, plots, i, chunks, indices, work, price, j) && plots[i].buyoutPricePerPixelInWei == 0
    requires j < |work| && DoRectanglesOverlap(plots[i].rect, work[j])
    ensures HasUnsellableCell(req, plots)
  {
    var hole := ComputeRectOverlap(plots[i].rect, work[j]);
    var px, py := hole.x, hole.y;
    assert hole.Contains(px, py);
    assert InAny(work, px, py);
    forall m | i < m < |plots| ensures !plots[m].rect.Contains(px, py) {
      assert !DoRectanglesOverlap(plots[m].rect, work[j]);
    }
    assert IsTopOwner(plots, px, py, i);
  }

  /** When the walk ends with every plot seen or nothing left, every cell
      is accounted for: no topmost owner of a cell refuses to sell, and a
      cell has no owner exactly when chunks remain. */
  lemma CellsAccounted(req: Rect, plots: seq<PlotInfo>, chunks: seq<Rect>, indices: seq<int>, work: seq<Rect>)
    requires Tiling(req, chunks, work) && Sourced(plots, chunks, indices) && Unclaimed(plots, work, 0)
    ensures !HasUnsellableCell(req, plots)
    ensures HasUnownedCell(req, plots) <==> |work| > 0
  {
    forall px, py, k | req.Contains(px, py) && IsTopOwner(plots, px, py, k)
      ensures plots[k].buyoutPricePerPixelInWei > 0
    {
      if InAny(chunks, px, py) {
        var n :| 0 <= n < |chunks| && chunks[n].Contains(px, py);
        var idx := indices[n];
        assert TopmostSource(plots, chunks[n], idx);
        // Both plot idx and plot k hold the cell, so neither lies above the other.
        assert plots[idx].rect.Contains(px, py);
        assert DoRectanglesOverlap(plots[k].rect, chunks[n]);
      } else {
        var n :| 0 <= n < |work| && work[n].Contains(px, py);
        assert DoRectanglesOverlap(plots[k].rect, work[n]);
      }
    }
    if |work| > 0 {
      var px, py := work[0].x, work[0].y;
      assert work[0].Contains(px, py);
      assert InAny(work, px, py);
      forall k | 0 <= k < |plots| ensures !plots[k].rect.Contains(px, py) {
        assert !DoRectanglesOverlap(plots[k].rect, work[0]);
      }
      assert req.Contains(px, py) && Unowned(plots, px, py);
    } else {
      forall px, py | req.Contains(px, py) ensures !Unowned(plots, px, py) {
        var n :| 0 <= n < |chunks| && chunks[n].Contains(px, py);
        assert plots[indices[n]].rect.Contains(px, py);
      }
    }
  }

  /** A request inside one selling plot with nothing above it is sold by
      that plot alone. */
  lemma SoleSourceSells(req: Rect, plots: seq<PlotInfo>)
    requires req.Valid()
    ensures forall k :: TopmostSource(plots, req, k) ==>
              !HasUnsellableCell(req, plots) && !HasUnownedCell(req, plots)
  {
    forall k | TopmostSource(plots, req, k)
      ensures !HasUnsellableCell(req, plots) && !HasUnownedCell(req, plots)
    {
      forall px, py, k' | req.Contains(px, py) && IsTopOwner(plots, px, py, k')
        ensures plots[k'].buyoutPricePerPixelInWei > 0
      {
        assert plots[k].rect.Contains(px, py);
        assert DoRectanglesOverlap(plots[k'].rect, req);
      }
      forall px, py | req.Contains(px, py) ensures !Unowned(plots, px, py) {
        assert plots[k].rect.Contains(px, py);
      }
    }
  }

  /** When the request lies in one selling plot with nothing above it, the
      plan is the request itself, bought from that plot. */
  lemma SoleChunk(req: Rect, plots: seq<PlotInfo>, k: int, chunks: seq<Rect>, indices: seq<int>)
    requires req.Valid() && ValidPlots(plots) && TopmostSource(plots, req, k)
    requires Tiles(req, chunks) && Sourced(plots, chunks, indices)
    requires FirstPurchase(req, plots, chunks, indices, [])
    ensures chunks == [req] && indices == [k]
  {
    var idx := indices[0];
    assert TopmostSource(plots, chunks[0], idx);
    assert DoRectanglesOverlap(plots[k].rect, chunks[0]);
    assert idx == k;
    assert chunks[0] == req;
    // The last chunk lies in the request, which is the first chunk, so the
    // two are one and the same.
    var c := chunks[|chunks| - 1];
    assert c.Contains(c.x, c.y);
    assert InAny(chunks, c.x, c.y);
    assert DoRectanglesOverlap(chunks[0], c);
  }

  lemma PlanTiles(req: Rect, chunks: seq<Rect>)
    requires Tiling(req, chunks, [])
    ensures Tiles(req, chunks)
  {
  }

  // ---------------------------------------------------------------------
  // A worked example

  /** One seed plot covering a 250 x 250 canvas, offered at 100 wei per
      pixel, and a 12 x 4 request inside it: the request is bought whole
      from plot 0 for 4800 wei plus a 48 wei fee. */
  method SinglePlotPurchase() returns (info: PurchaseInfo)
    ensures info == Valid(PurchaseData([MakeRect(25, 40, 12, 4)], [0], 4848, 4800, 48))
  {
    var seed := PlotInfo(MakeRect(0, 0, 250, 250), "seed owner", 100);
    var req := MakeRect(25, 40, 12, 4);
    assert TopmostSource([seed], req, 0);
    FeeOfWholeHundreds(4800);
    info := ComputePurchaseInfo(req, [seed]);
  }
}
