/** Identifiers, clock readings and the plain records of pkg/types/common.go. */
module Types {

  /** `uuid.UUID`: sixteen bytes, read here as one 128-bit number. */
  newtype Uuid = x: int | 0 <= x < 0x1_0000_0000_0000_0000_0000_0000_0000_0000

  /** `uuid.Nil`, the all-zero UUID. */
  const NilUuid: Uuid := 0

  /** A point in time on an abstract clock; 0 stands for Go's zero `time.Time`. */
  type Instant = nat

  /** A reading of `time.Now()`, which is never the zero time. */
  type Clock = t: Instant | t > 0 witness 1

  /** `types.PaginationInfo`: the page metadata of a list response. */
  datatype PaginationInfo = PaginationInfo(page: int, limit: int, total: nat, totalPages: nat)

  /** `types.MetaInfo`; an empty `sort` or `filter` is omitted from the JSON (`omitempty`). */
  datatype MetaInfo = MetaInfo(pagination: PaginationInfo, sort: string, filter: string)
}
