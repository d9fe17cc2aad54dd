// The EPM regions: actions numbered one region after the other, and a heap slot for each.
// Everything is proved for an arbitrary region table; the driver's own table comes last.
module EpmRegion {
  import opened Arith

  datatype Region = Region(nActions: nat, budget: nat, wcChId: nat)

  type Regions = seq<Region>

  function HeapSize(g: Region): nat { g.nActions * g.budget }

  // Actions, and heap bytes, of the regions before the n-th.
  function ActionsBefore(t: Regions, n: nat): nat
    requires n <= |t|
  {
    if n == 0 then 0 else ActionsBefore(t, n - 1) + t[n - 1].nActions
  }

  function HeapBefore(t: Regions, n: nat): nat
    requires n <= |t|
  {
    if n == 0 then 0 else HeapBefore(t, n - 1) + HeapSize(t[n - 1])
  }

  lemma {:induction false} BeforeGrows(t: Regions, a: nat, b: nat)
    requires a <= b <= |t|
    ensures ActionsBefore(t, a) <= ActionsBefore(t, b) && HeapBefore(t, a) <= HeapBefore(t, b)
    decreases b
  {
    if a < b {
      BeforeGrows(t, a, b - 1);
    }
  }

  // ----- the source's loops -----

  method GetBaseActionIdx(t: Regions, regionId: nat) returns (baseIdx: nat)
    requires regionId < |t|
    ensures baseIdx == ActionsBefore(t, regionId)
  {
    baseIdx := 0;
    for i := 0 to regionId
      invariant baseIdx == ActionsBefore(t, i)
    {
      baseIdx := baseIdx + t[i].nActions;
    }
  }

  method GetTotalActions(t: Regions) returns (totalActions: nat)
    ensures totalActions == ActionsBefore(t, |t|)
  {
    totalActions := 0;
    for i := 0 to |t|
      invariant totalActions == ActionsBefore(t, i)
    {
      totalActions := totalActions + t[i].nActions;
    }
  }

  method GetMaxActionsPerRegion(t: Regions) returns (maxActions: nat)
    ensures forall i :: 0 <= i < |t| ==> t[i].nActions <= maxActions
    ensures maxActions == 0 || exists i :: 0 <= i < |t| && t[i].nActions == maxActions
  {
    maxActions := 0;
    for i := 0 to |t|
      invariant forall j :: 0 <= j < i ==> t[j].nActions <= maxActions
      invariant maxActions == 0 || exists j :: 0 <= j < i && t[j].nActions == maxActions
    {
      if maxActions < t[i].nActions {
        maxActions := t[i].nActions;
      }
    }
  }

  method GetBaseHeapOffs(t: Regions, regionId: nat) returns (baseHeapOffs: nat)
    requires regionId < |t|
    ensures baseHeapOffs == HeapBefore(t, regionId)
  {
    baseHeapOffs := 0;
    for i := 0 to regionId
      invariant baseHeapOffs == HeapBefore(t, i)
    {
      baseHeapOffs := baseHeapOffs + HeapSize(t[i]);
    }
  }

  // The region that holds an offset.
  predicate RegionHolds(t: Regions, r: nat, offs: nat) {
    r < |t| && HeapBefore(t, r) <= offs < HeapBefore(t, r) + HeapSize(t[r])
  }

  // geWcChByOffs: -1 stands for on_error. The answer is the channel of the one region that
  // holds the offset, and there is one exactly for the offsets of the heap.
  method GeWcChByOffs(t: Regions, heapOffs: nat) returns (ch: int)
    ensures ch == -1 <==> heapOffs >= HeapBefore(t, |t|)
    ensures ch != -1 ==> exists r: nat :: RegionHolds(t, r, heapOffs)
    ensures forall r: nat :: RegionHolds(t, r, heapOffs) ==> ch == t[r].wcChId
  {
    for i := 0 to |t|
      invariant heapOffs >= HeapBefore(t, i)
    {
      var base := GetBaseHeapOffs(t, i);
      if heapOffs >= base && heapOffs < base + HeapSize(t[i]) {
        OneHolder(t, i, heapOffs);
        assert RegionHolds(t, i, heapOffs);
        return t[i].wcChId;
      }
    }
    NoHolder(t, heapOffs);
    return -1;
  }

  lemma OneHolder(t: Regions, i: nat, offs: nat)
    requires RegionHolds(t, i, offs)
    ensures offs < HeapBefore(t, |t|) && forall r: nat :: RegionHolds(t, r, offs) ==> r == i
  {
    BeforeGrows(t, i + 1, |t|);
    forall r: nat | RegionHolds(t, r, offs) ensures r == i {
      HolderIsUnique(t, r, i, offs);
    }
  }

  lemma NoHolder(t: Regions, offs: nat)
    requires offs >= HeapBefore(t, |t|)
    ensures forall r: nat :: !RegionHolds(t, r, offs)
  {
    forall r: nat | r < |t| ensures !RegionHolds(t, r, offs) {
      BeforeGrows(t, r + 1, |t|);
    }
  }

  lemma HolderIsUnique(t: Regions, a: nat, b: nat, offs: nat)
    requires RegionHolds(t, a, offs) && RegionHolds(t, b, offs)
    ensures a == b
  {
    if a < b {
      BeforeGrows(t, a + 1, b);
    } else if b < a {
      BeforeGrows(t, b + 1, a);
    }
  }

  // ----- global and local indices -----

  predicate IsLocal(t: Regions, r: nat, l: nat) { r < |t| && l < t[r].nActions }

  function GlobalIdx(t: Regions, r: nat, l: nat): nat
    requires r < |t|
  {
    ActionsBefore(t, r) + l
  }

  function RegionOf(t: Regions, g: nat, n: nat): (r: nat)
    requires n <= |t| && g < ActionsBefore(t, n)
    ensures r < n && ActionsBefore(t, r) <= g < ActionsBefore(t, r + 1)
  {
    if g < ActionsBefore(t, n - 1) then RegionOf(t, g, n - 1) else n - 1
  }

  function LocalOf(t: Regions, g: nat): (l: nat)
    requires g < ActionsBefore(t, |t|)
    ensures IsLocal(t, RegionOf(t, g, |t|), l)
  {
    g - ActionsBefore(t, RegionOf(t, g, |t|))
  }

  // Region and local index map one to one onto the numbers below the total.
  lemma IndexRoundTrip(t: Regions, r: nat, l: nat, g: nat)
    ensures IsLocal(t, r, l) ==>
      var k := GlobalIdx(t, r, l);
      k < ActionsBefore(t, |t|) && RegionOf(t, k, |t|) == r && LocalOf(t, k) == l
    ensures g < ActionsBefore(t, |t|) ==> GlobalIdx(t, RegionOf(t, g, |t|), LocalOf(t, g)) == g
  {
    if IsLocal(t, r, l) {
      var k := GlobalIdx(t, r, l);
      BeforeGrows(t, r + 1, |t|);
      var s := RegionOf(t, k, |t|);
      if s < r {
        BeforeGrows(t, s + 1, r);
      } else if r < s {
        BeforeGrows(t, r + 1, s);
      }
    }
  }

  // sanityCheckActionId passes when this holds.
  predicate PassesSanityCheck(t: Regions, r: nat, l: nat)
    requires r < |t|
  {
    l < ActionsBefore(t, r) + t[r].nActions
  }

  // An index that passes the check belongs to its region if and only if it is local: the
  // check alone lets through one index too many for every action of the earlier regions.
  lemma SanityCheckIsWeak(t: Regions, r: nat, l: nat)
    requires r < |t|
    ensures PassesSanityCheck(t, r, l) && !IsLocal(t, r, l) <==>
      t[r].nActions <= l < t[r].nActions + ActionsBefore(t, r)
    ensures IsLocal(t, r, l) ==> PassesSanityCheck(t, r, l)
    ensures IsLocal(t, r, l) <==>
      GlobalIdx(t, r, l) < ActionsBefore(t, |t|) && RegionOf(t, GlobalIdx(t, r, l), |t|) == r
  {
    IndexRoundTrip(t, r, l, 0);
  }

  // ----- heap slots -----

  function SlotOffs(t: Regions, r: nat, l: nat): nat
    requires r < |t|
  {
    HeapBefore(t, r) + l * t[r].budget
  }

  lemma SlotInRegion(t: Regions, r: nat, l: nat)
    requires r < |t|
    ensures HeapBefore(t, r) <= SlotOffs(t, r, l) && HeapBefore(t, r + 1) == HeapBefore(t, r) + HeapSize(t[r])
    ensures IsLocal(t, r, l) ==> SlotOffs(t, r, l) + t[r].budget <= HeapBefore(t, r + 1)
    ensures l >= t[r].nActions ==> SlotOffs(t, r, l) >= HeapBefore(t, r + 1)
  {
    SlotBounds(l, t[r].nActions, t[r].budget);
  }

  lemma SlotBounds(l: nat, n: nat, budget: nat)
    ensures 0 <= l * budget
    ensures l < n ==> l * budget + budget <= n * budget
    ensures l >= n ==> l * budget >= n * budget
  {
    if l < n {
      NextSlot(l, n, budget);
    } else {
      MulMonotone(n, budget, l, budget);
    }
  }

  // Numbers and slots follow each other without a gap, region by region.
  lemma SlotsInOrder(t: Regions, r: nat, l: nat)
    requires r < |t|
    ensures GlobalIdx(t, r, l + 1) == GlobalIdx(t, r, l) + 1
    ensures SlotOffs(t, r, l + 1) == SlotOffs(t, r, l) + t[r].budget
    ensures GlobalIdx(t, 0, 0) == 0 && SlotOffs(t, 0, 0) == 0
    ensures r + 1 < |t| ==>
      GlobalIdx(t, r + 1, 0) == GlobalIdx(t, r, t[r].nActions) && SlotOffs(t, r + 1, 0) == SlotOffs(t, r, t[r].nActions)
  {
    assert (l + 1) * t[r].budget == l * t[r].budget + t[r].budget;
  }

  // Every byte of a slot is in the heap and goes through the region's own channel; a slot
  // of an index that is not local never starts in the region.
  lemma SlotHasRegionChannel(t: Regions, r: nat, l: nat, b: nat)
    requires r < |t| && b < t[r].budget
    ensures IsLocal(t, r, l) ==>
      RegionHolds(t, r, SlotOffs(t, r, l) + b) && SlotOffs(t, r, l) + b < HeapBefore(t, |t|)
    ensures IsLocal(t, r, l) <==> RegionHolds(t, r, SlotOffs(t, r, l))
  {
    SlotInRegion(t, r, l);
    BeforeGrows(t, r + 1, |t|);
  }

  // The slots of two actions never share a byte.
  lemma SlotsAreDisjoint(t: Regions, r: nat, l: nat, r2: nat, l2: nat)
    requires IsLocal(t, r, l) && IsLocal(t, r2, l2) && (r, l) != (r2, l2)
    ensures SlotOffs(t, r, l) + t[r].budget <= SlotOffs(t, r2, l2)
         || SlotOffs(t, r2, l2) + t[r2].budget <= SlotOffs(t, r, l)
  {
    if r < r2 {
      EarlierRegion(t, r, l, r2, l2);
    } else if r2 < r {
      EarlierRegion(t, r2, l2, r, l);
    } else if l < l2 {
      NextSlot(l, l2, t[r].budget);
    } else {
      NextSlot(l2, l, t[r].budget);
    }
  }

  lemma EarlierRegion(t: Regions, r: nat, l: nat, r2: nat, l2: nat)
    requires IsLocal(t, r, l) && r < r2 < |t|
    ensures SlotOffs(t, r, l) + t[r].budget <= SlotOffs(t, r2, l2)
  {
    SlotInRegion(t, r, l);
    SlotInRegion(t, r2, l2);
    BeforeGrows(t, r + 1, r2);
  }

  lemma NextSlot(l: nat, l2: nat, budget: nat)
    requires l < l2
    ensures l * budget + budget <= l2 * budget
  {
    MulMonotone(l + 1, budget, l2, budget);
    assert (l + 1) * budget == l * budget + budget;
  }

  // ----- copies are rounded up to 64 bytes -----

  function RoundUp64(n: nat): (r: nat)
    ensures n <= r < n + 64 && r % 64 == 0
  {
    (n + 63) / 64 * 64
  }

  // Every copy of a packet that fits the slot stays in the slot if and only if the budget
  // is a multiple of 64.
  lemma CopiesStayInSlot(budget: nat)
    ensures (forall n: nat :: n <= budget ==> RoundUp64(n) <= budget) <==> budget % 64 == 0
  {
    if budget % 64 == 0 {
      forall n: nat | n <= budget ensures RoundUp64(n) <= budget {
      }
    } else {
      assert RoundUp64(budget) > budget;
    }
  }

  // ----- the driver's table -----

  const REGULAR := 1536
  const SMALL := 64
  const EFC := Region(2048, REGULAR, 0)
  const NEWS := Region(256, REGULAR, 0)
  const TCP_FULL_PKT := Region(256, REGULAR, 0)
  const TCP_EMPTY_ACK := Region(256, SMALL, 0)
  const EFC_MC := Region(256, SMALL, 0)

  const EFC_REGION := 0
  const TCP_TX_FULL_PKT := 5
  const TCP_TX_EMPTY_ACK := 6
  const IGMP_REGION := 8
  const TOTAL := 32

  const HEAP_BYTES := 8 * 1024 * 1024
  const TX_BUF_0 := HEAP_BYTES - 2048
  const TX_BUF_1 := HEAP_BYTES - 4096
  const MAX_WC_CH := 16

  // The k-th region for joins of market data groups; channels 1 to 15 are handed out in turn.
  function IgmpRegion(k: nat): Region { Region(128, SMALL, k % 15 + 1) }

  function DriverRegions(): (t: Regions)
    ensures |t| == TOTAL
  {
    [EFC, NEWS, NEWS, NEWS, NEWS, TCP_FULL_PKT, TCP_EMPTY_ACK, EFC_MC] + seq(24, k requires 0 <= k => IgmpRegion(k))
  }

  lemma {:induction false} IgmpPart(t: Regions, n: nat)
    requires t == DriverRegions() && 8 <= n <= TOTAL
    ensures ActionsBefore(t, n) == ActionsBefore(t, 8) + 128 * (n - 8)
    ensures HeapBefore(t, n) == HeapBefore(t, 8) + 128 * SMALL * (n - 8)
    decreases n
  {
    if n > 8 {
      IgmpPart(t, n - 1);
    }
  }

  lemma NextRegion(t: Regions, n: nat)
    requires n < |t|
    ensures ActionsBefore(t, n + 1) == ActionsBefore(t, n) + t[n].nActions
    ensures HeapBefore(t, n + 1) == HeapBefore(t, n) + HeapSize(t[n])
  {
  }

  lemma FirstRegions(t: Regions)
    requires t == DriverRegions()
    ensures ActionsBefore(t, 5) == 3072 && HeapBefore(t, 5) == 3072 * REGULAR
    ensures ActionsBefore(t, 8) == 3840 && HeapBefore(t, 8) == 3328 * REGULAR + 512 * SMALL
  {
    NextRegion(t, 0);
    NextRegion(t, 1);
    NextRegion(t, 2);
    NextRegion(t, 3);
    NextRegion(t, 4);
    NextRegion(t, 5);
    NextRegion(t, 6);
    NextRegion(t, 7);
  }

  // The driver's table in figures: its budgets are multiples of 64, its channels exist.
  lemma DriverTotals()
    ensures ActionsBefore(DriverRegions(), TOTAL) == 6912 && HeapBefore(DriverRegions(), TOTAL) == 5341184
  {
    FirstRegions(DriverRegions());
    IgmpPart(DriverRegions(), TOTAL);
  }

  lemma DriverRow(r: nat)
    requires r < TOTAL
    ensures var g := DriverRegions()[r]; g.budget % 64 == 0 && 0 < g.budget <= REGULAR && g.wcChId < MAX_WC_CH
    ensures DriverRegions()[r]
            == Region(if r == 0 then 2048 else if r < 8 then 256 else 128, if r < 6 then 1536 else 64,
                      if r < 8 then 0 else if r < 23 then r - 7 else r - 22)
  {
    if r >= 8 {
      assert DriverRegions()[r] == IgmpRegion(r - 8);
    }
  }

  // No copy into the slot of a local index meets a transmit buffer, and a copy into one
  // transmit buffer meets neither the other one nor the end of the heap.
  lemma TxBuffersAreApart(r: nat, l: nat, n: nat)
    requires IsLocal(DriverRegions(), r, l) && n <= REGULAR
    ensures var t := DriverRegions();
            && (n <= t[r].budget ==> SlotOffs(t, r, l) + RoundUp64(n) <= TX_BUF_1)
            && TX_BUF_1 + RoundUp64(n) <= TX_BUF_0 && TX_BUF_0 + RoundUp64(n) <= HEAP_BYTES
            && TX_BUF_1 == 0x7F_F000 && TX_BUF_0 == 0x7F_F800 && HEAP_BYTES == 0x80_0000
  {
    var t := DriverRegions();
    DriverTotals();
    DriverRow(r);
    SlotInRegion(t, r, l);
    BeforeGrows(t, r + 1, TOTAL);
    CopiesStayInSlot(t[r].budget);
  }

  // An index that passes the check without being local can have its slot reach into a
  // transmit buffer.
  lemma SanityCheckReachesTxBuffer()
    ensures var t := DriverRegions();
            && PassesSanityCheck(t, TCP_TX_FULL_PKT, 2386) && !IsLocal(t, TCP_TX_FULL_PKT, 2386)
            && SlotOffs(t, TCP_TX_FULL_PKT, 2386) <= TX_BUF_1 < SlotOffs(t, TCP_TX_FULL_PKT, 2386) + REGULAR
  {
    FirstRegions(DriverRegions());
  }
}
