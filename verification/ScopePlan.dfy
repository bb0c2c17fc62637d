/** Seeding a scope's pool plan and turning it into allocator input (scope.go). */
module ScopePlan {
  import opened ClassNames
  import D = DeviceClasses
  import L = PoolLayout

  datatype EntryKind = EntryFixed | EntryElastic | EntryReserve

  /** A plan entry: `isExplicit` is Sizing == "explicit"; names and icons are not modelled. */
  datatype PoolPlanEntry = PoolPlanEntry(kind: EntryKind, cls: string, isExplicit: bool, count: int, range: L.RangeText,
                                         weight: int)

  const STATIC_RESERVE_SIZE := 18

  function Max(a: int, b: int): int { if a > b then a else b }

  function ToSpec(e: PoolPlanEntry): L.PoolSpec {
    match e.kind
    case EntryElastic => L.PoolSpec(e.cls, L.PoolElastic, 0, Max(e.weight, 1), e.range)
    case EntryReserve => L.PoolSpec("", L.PoolReserve, e.count, 0, e.range)
    case EntryFixed =>
      var size := if !e.isExplicit then L.SizeForClass(e.cls, e.count)
                  else if L.IsCatchAll(e.cls) then Max(e.count, L.FloorForClass(e.cls))
                  else e.count;
      L.PoolSpec(e.cls, L.PoolFixed, size, 0, e.range)
  }

  function SpecsOf(plan: seq<PoolPlanEntry>): seq<L.PoolSpec> {
    seq(|plan|, i requires 0 <= i < |plan| => ToSpec(plan[i]))
  }

  method ToSpecs(plan: seq<PoolPlanEntry>) returns (specs: seq<L.PoolSpec>)
    ensures specs == SpecsOf(plan)
  {
    specs := [];
    var i := 0;
    while i < |plan|
      invariant 0 <= i <= |plan| && specs == SpecsOf(plan)[..i]
    {
      var e := plan[i];
      if e.kind.EntryElastic? {
        specs := specs + [L.PoolSpec(e.cls, L.PoolElastic, 0, Max(e.weight, 1), e.range)];
      } else if e.kind.EntryReserve? {
        specs := specs + [L.PoolSpec("", L.PoolReserve, e.count, 0, e.range)];
      } else {
        var size := e.count;
        if !e.isExplicit {
          size := L.SizeForClass(e.cls, e.count);
        } else if L.IsCatchAll(e.cls) {
          size := Max(e.count, L.FloorForClass(e.cls));
        }
        specs := specs + [L.PoolSpec(e.cls, L.PoolFixed, size, 0, e.range)];
      }
      i := i + 1;
    }
  }

  /** Fixed and catch-all pools never come out below their class floor, unless an explicit
      size of an ordinary class says so. */
  lemma SpecMeetsFloor(e: PoolPlanEntry)
    requires e.kind.EntryFixed? && (!e.isExplicit || L.IsCatchAll(e.cls))
    ensures ToSpec(e).size >= L.FloorForClass(e.cls) && ToSpec(e).size >= e.count
  {
  }

  // ---- SeedPlan ----

  /** The operator-facing order of the device classes, independent of the match table. */
  const SEED_ORDER: seq<string> := [
    "GGO-BPX", "GGO-MCX-D", "GGO-MCD-MCR", "GGO-WP-X", "GGO-WAA", "GGO-STRIDE",
    "GGO-RDX-SI-BEACON", "GGO-INTERFACE-Q4WR", "GGO-BRIDGE-DANTEX", "GGO-SWITCH"
  ]

  type Counts = map<string, int>

  function CountFrom(counts: Counts, cls: string, k: nat): int
    requires k <= |D.TABLE|
    decreases |D.TABLE| - k
  {
    if k == |D.TABLE| then 0
    else if D.TABLE[k].name == cls then (if D.TABLE[k].countKey in counts then counts[D.TABLE[k].countKey] else 0)
    else CountFrom(counts, cls, k + 1)
  }

  function CountFor(counts: Counts, cls: string): int { CountFrom(counts, cls, 0) }

  function Reserve(): PoolPlanEntry { PoolPlanEntry(EntryReserve, "", false, STATIC_RESERVE_SIZE, L.NoRange, 0) }
  function FixedAuto(cls: string, count: int): PoolPlanEntry {
    PoolPlanEntry(EntryFixed, cls, false, count, L.NoRange, 0)
  }
  function ElasticWeighted(cls: string, weight: int): PoolPlanEntry {
    PoolPlanEntry(EntryElastic, cls, false, 0, L.NoRange, weight)
  }

  /** The fixed pools of the first n classes that have a forecast count. */
  function SeedFixed(counts: Counts, n: nat): seq<PoolPlanEntry>
    requires n <= |SEED_ORDER|
  {
    if n == 0 then [] else
      SeedFixed(counts, n - 1)
      + (if CountFor(counts, SEED_ORDER[n - 1]) > 0
         then [FixedAuto(SEED_ORDER[n - 1], CountFor(counts, SEED_ORDER[n - 1]))] else [])
  }

  function Seeded(greengo: bool, counts: Counts): seq<PoolPlanEntry> {
    if !greengo then [Reserve(), ElasticWeighted("", 1)]
    else [Reserve()] + SeedFixed(counts, |SEED_ORDER|) + [ElasticWeighted(GGO_OTHERS, 2), ElasticWeighted(OTHERS, 1)]
  }

  method SeedPlan(greengo: bool, counts: Counts) returns (plan: seq<PoolPlanEntry>)
    ensures plan == Seeded(greengo, counts)
  {
    plan := [Reserve()];
    if !greengo {
      plan := plan + [ElasticWeighted("", 1)];
      return;
    }
    var n := 0;
    while n < |SEED_ORDER|
      invariant 0 <= n <= |SEED_ORDER| && plan == [Reserve()] + SeedFixed(counts, n)
    {
      var count := CountFor(counts, SEED_ORDER[n]);
      if count > 0 {
        plan := plan + [FixedAuto(SEED_ORDER[n], count)];
      }
      n := n + 1;
    }
    plan := plan + [ElasticWeighted(GGO_OTHERS, 2)];
    plan := plan + [ElasticWeighted(OTHERS, 1)];
  }
}
