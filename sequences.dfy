/** Facts about sequences shared by the record filters and
    `process_records`. */
module Sequences {
  lemma AppendAssociates<T>(x: seq<T>, y: seq<T>, z: seq<T>)
    ensures (x + y) + z == x + (y + z)
  {
  }
}
