/** The year loop of run_simulation as a function of the registry and the results so far:
    each year runs every module in order, then stores that year's snapshot. */
module Runs {
  import opened Values
  import opened Entities
  import opened Loading
  import opened Snapshots
  import opened SimModules

  /** The results of all years simulated so far, keyed by year. */
  type Results = map<int, Snapshot>

  /** The final registry and results, and the year in which a module raised, if one did. */
  datatype RunResult = RunResult(registry: Registry, results: Results, failedAt: Option<int>)

  /** `previous_results`: `results.get(year - 1, {})`. */
  function Previous(results: Results, year: int): Snapshot
  {
    if year - 1 in results then results[year - 1] else []
  }

  /** The years `year..end` of the loop, starting from the given registry and results. */
  function RunFrom(mods: seq<SimModule>, reg: Registry, year: int, end: int, results: Results): RunResult
    decreases end + 1 - year
  {
    if year > end then RunResult(reg, results, None)
    else
      var (r1, ok) := StepModules(mods, reg, year, Previous(results, year));
      if !ok then RunResult(r1, results, Some(year))
      else RunFrom(mods, r1, year + 1, end, results[year := SnapshotOf(r1)])
  }

  /** Whether a run stored (or would store) a snapshot for year y: it is in the range and, if
      the run stopped, before the year it stopped in. */
  predicate Stored(r: RunResult, year: int, end: int, y: int)
  {
    year <= y <= end && (r.failedAt.None? || y < r.failedAt.value)
  }

  /** A run that stops does so in a year of its range. */
  lemma {:induction false} FailureInRange(mods: seq<SimModule>, reg: Registry, year: int, end: int, results: Results)
    ensures var r := RunFrom(mods, reg, year, end, results);
            r.failedAt.Some? ==> year <= r.failedAt.value <= end
    decreases end + 1 - year
  {
    if year <= end {
      var (r1, ok) := StepModules(mods, reg, year, Previous(results, year));
      if ok {
        FailureInRange(mods, r1, year + 1, end, results[year := SnapshotOf(r1)]);
      }
    }
  }

  /** A run that completes stores a snapshot for every year of the range; one that stops at
      year f stores the years before f only. No other year is added (an empty range, start
      after end, adds nothing). */
  lemma {:induction false} RunCoversYears(mods: seq<SimModule>, reg: Registry, year: int, end: int, results: Results)
    ensures var r := RunFrom(mods, reg, year, end, results);
            forall y :: y in r.results <==> y in results || Stored(r, year, end, y)
    decreases end + 1 - year
  {
    if year <= end {
      var (r1, ok) := StepModules(mods, reg, year, Previous(results, year));
      if ok {
        RunCoversYears(mods, r1, year + 1, end, results[year := SnapshotOf(r1)]);
        FailureInRange(mods, r1, year + 1, end, results[year := SnapshotOf(r1)]);
      }
    }
  }

  /** Results of years outside the range are left as they were. */
  lemma {:induction false} RunKeepsOtherYears(mods: seq<SimModule>, reg: Registry, year: int, end: int, results: Results)
    ensures var r := RunFrom(mods, reg, year, end, results);
            forall y :: y in results && !(year <= y <= end) ==> y in r.results && r.results[y] == results[y]
    decreases end + 1 - year
  {
    if year <= end {
      var (r1, ok) := StepModules(mods, reg, year, Previous(results, year));
      if ok {
        RunKeepsOtherYears(mods, r1, year + 1, end, results[year := SnapshotOf(r1)]);
      }
    }
  }

  /** Without modules nothing ever changes, so every stored snapshot is the snapshot of the
      loaded registry. */
  lemma {:induction false} NoModulesNoChange(reg: Registry, year: int, end: int, results: Results)
    ensures var r := RunFrom([], reg, year, end, results);
            r.failedAt.None? && r.registry == reg &&
            forall y :: year <= y <= end ==> y in r.results && r.results[y] == SnapshotOf(reg)
    decreases end + 1 - year
  {
    if year <= end {
      NoModulesNoChange(reg, year + 1, end, results[year := SnapshotOf(reg)]);
      RunKeepsOtherYears([], reg, year + 1, end, results[year := SnapshotOf(reg)]);
    }
  }

  /** A run only ever changes attributes: categories, entity counts, kinds and identities stay
      as loaded. */
  lemma {:induction false} RunKeepsShape(mods: seq<SimModule>, reg: Registry, year: int, end: int, results: Results)
    ensures SameEntities(RunFrom(mods, reg, year, end, results).registry, reg)
    decreases end + 1 - year
  {
    if year <= end {
      var (r1, ok) := StepModules(mods, reg, year, Previous(results, year));
      StepModulesKeepsEntities(mods, reg, year, Previous(results, year));
      if ok {
        RunKeepsShape(mods, r1, year + 1, end, results[year := SnapshotOf(r1)]);
        SameEntitiesTrans(RunFrom(mods, reg, year, end, results).registry, r1, reg);
      }
    }
  }
}
