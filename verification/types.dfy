/** Shared value types: the optional wrapper, coordinate pairs and the
    response shape the backend produces and the frontend consumes. */
module Types {

  /** The conventional Some/None datatype, used where the source has
      `null`/`undefined`. */
  datatype Option<+T> = None | Some(value: T)

  /** An (x, y) coordinate pair; also a backend state (a, b). */
  type Pair = (int, int)

  /** The `/cycles` response: the modulus, one sequence per cycle and the
      cycle's states (possibly centred). */
  datatype CyclesResponse = CyclesResponse(
    base: int,
    sequences: seq<seq<int>>,
    cyclesPairs: seq<seq<Pair>>
  )
}
