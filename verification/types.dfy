/**
 * The value types shared by the encoder: the optional/result wrappers used
 * for absent keys and error paths, the four segment modes, the four error
 * correction levels, the kinds of reserved module and a segment of input text.
 */
module Types {

  datatype Option<T> = None | Some(value: T)

  /** Why an encoding request produced no symbol. */
  datatype Failure =
    | EmptyInput          // the constructor rejects an empty string
    | CapacityExceeded    // no version 1..40 holds the input: version 0

  datatype Result<T> = Success(value: T) | Failure(error: Failure)

  /** The segment modes of the symbol. */
  datatype Mode = Numeric | AlphaNumeric | Byte | Kanji

  /** The error correction levels, in the order of the constant tables. */
  datatype EcLevel = L | M | Q | H

  /** What a reserved (function-pattern) module belongs to. */
  datatype ReservedKind =
    | FinderPattern
    | AlignmentPattern
    | TimingPattern
    | FormatInfo
    | VersionInfo
    | DarkModule
    | Separator

  /** A reserved module: its kind and whether it is drawn dark. */
  datatype Reserved = Reserved(kind: ReservedKind, dark: bool)

  /** A run of input text together with the mode that encodes it. */
  datatype Segment = Segment(value: string, mode: Mode)

  /** The characters of all segments, in order. */
  function Concat(segs: seq<Segment>): string
  {
    if |segs| == 0 then [] else Concat(segs[..|segs| - 1]) + segs[|segs| - 1].value
  }

  lemma ConcatAppend(a: seq<Segment>, b: seq<Segment>)
    ensures Concat(a + b) == Concat(a) + Concat(b)
    decreases |b|
  {
    if |b| == 0 {
      assert a + b == a;
    } else {
      assert (a + b)[..|a + b| - 1] == a + b[..|b| - 1];
      ConcatAppend(a, b[..|b| - 1]);
    }
  }

  lemma ConcatSingle(s: Segment)
    ensures Concat([s]) == s.value
  {
    assert [s][..0] == [];
  }
}
