/**
 * The game-rules engine (HeimlichAndCo, HeimlichAndCoBoard and the action classes) is not
 * part of this model. Its values are opaque types here; what the core asks of them is
 * passed in as the oracle functions of the records in the modules that use them.
 */
module Game {

  /** A card instance (HeimlichAndCoCard); only equality is used, as List.remove does. */
  type Card(==)

  /** An action (HeimlichAndCoAction); used as a map key, so it has equality. */
  type Action(==)

  /** A full game state (HeimlichAndCo), cloned by value. */
  type GameState

  /** The agent's shadow board (HeimlichAndCoBoard). */
  type Board

  /** The seven figurines; an Agent is its ordinal in 0 .. NumAgents - 1. */
  const NumAgents: nat := 7
}
