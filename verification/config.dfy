/** The consensus and reputation constants of config.py. */
module Config {

  /** Fraction of the total full-node weight a transaction needs in yes-votes. */
  const CONSENSUS_THRESHOLD: real := 0.66

  /** Reputation every node starts with (and gets back on re-registration). */
  const REPUTATION_INIT: int := 10

  /** Reputation gained by a voter that voted yes on a confirmed transaction. */
  const REPUTATION_INCREMENT: int := 1

  /** Reputation lost by a voter that voted no on a confirmed transaction. */
  const REPUTATION_PENALTY: int := 1
}
