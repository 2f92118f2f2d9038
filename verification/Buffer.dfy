/** Buffers that receive a text piece by piece and cut it off where they end. */
module Buffer {

  /** What a buffer holds once `text` is written over `before`, of which the first `size` characters are in use. */
  ghost predicate Shows(now: seq<char>, size: int, text: string, before: seq<char>) {
    |now| == |before| &&
    forall i :: 0 <= i < |now| ==> now[i] == if i < |text| && i < size then text[i] else before[i]
  }
}
