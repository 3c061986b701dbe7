/** Repetition types of schema nodes and the levels they add. */
module FieldRepetition {

  /** How often a node of a schema may occur below its parent. */
  datatype Repetition = Required | Optional | Repeated

  const MAX_LEVEL := 255

  /** Levels are single bytes. */
  function ByteAdd(level: nat, inc: nat): nat {
    (level + inc) % (MAX_LEVEL + 1)
  }

  function ApplyFieldRepetitionType(t: Repetition, repetitionLevel: nat, definitionLevel: nat): (nat, nat) {
    match t
    case Required => (repetitionLevel, definitionLevel)
    case Optional => (repetitionLevel, ByteAdd(definitionLevel, 1))
    case Repeated => (ByteAdd(repetitionLevel, 1), ByteAdd(definitionLevel, 1))
  }
}
