/**
 * The PSR-3 level names and the logger's fixed table from name to rank: 1 is the most severe
 * (emergency), 8 the least (debug).
 */
module Levels {
  import opened Results

  const EMERGENCY: string := "emergency"
  const ALERT: string := "alert"
  const CRITICAL: string := "critical"
  const ERROR: string := "error"
  const WARNING: string := "warning"
  const NOTICE: string := "notice"
  const INFO: string := "info"
  const DEBUG: string := "debug"

  /** The logger's `$log_levels` table. Lookups are by exact, case-sensitive key. */
  const LogLevels: map<string, int> := map[
    EMERGENCY := 1,
    ALERT := 2,
    CRITICAL := 3,
    ERROR := 4,
    WARNING := 5,
    NOTICE := 6,
    INFO := 7,
    DEBUG := 8
  ]

  /** A rank a threshold or a message can have. */
  predicate IsRank(r: int)
  {
    1 <= r <= 8
  }

  /** `isset($this->log_levels[$name]) ? $this->log_levels[$name] : <none>`. */
  function LookupLevel(name: string): (r: Option<int>)
    ensures r.Some? <==> name in {EMERGENCY, ALERT, CRITICAL, ERROR, WARNING, NOTICE, INFO, DEBUG}
    ensures r.Some? ==> IsRank(r.value)
  {
    if name in LogLevels then Some(LogLevels[name]) else None
  }

  /**
   * The rank a message at `level` is gated with: its own rank when `level` is a key of the table,
   * otherwise the rank of emergency.
   */
  function GateRank(level: string): (r: int)
    ensures IsRank(r)
    ensures LookupLevel(level).Some? ==> r == LookupLevel(level).value
    ensures LookupLevel(level).None? ==> r == 1
  {
    var logLevel := if level in LogLevels then level else EMERGENCY;
    LogLevels[logLevel]
  }

  /** No two names share a rank, and every rank 1..8 belongs to some name. */
  lemma RankTableIsBijection()
    ensures forall a, b :: a in LogLevels && b in LogLevels && a != b ==> LogLevels[a] != LogLevels[b]
    ensures forall r :: IsRank(r) ==> exists name :: name in LogLevels && LogLevels[name] == r
  {
    forall r | IsRank(r) ensures exists name :: name in LogLevels && LogLevels[name] == r {
      var names := [EMERGENCY, ALERT, CRITICAL, ERROR, WARNING, NOTICE, INFO, DEBUG];
      assert LogLevels[names[r - 1]] == r;
    }
  }

  /** Ranks follow the PSR-3 order, from the most to the least severe. */
  lemma RanksOrdered()
    ensures GateRank(EMERGENCY) < GateRank(ALERT) < GateRank(CRITICAL) < GateRank(ERROR)
    ensures GateRank(ERROR) < GateRank(WARNING) < GateRank(NOTICE) < GateRank(INFO) < GateRank(DEBUG)
  {
  }
}
