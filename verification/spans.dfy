/** The span value shared by the comparison engine and the standoff tools:
    an annotated, end-inclusive interval `[start, end]` of a document's
    text. `id` stands for the identity of the Python span object, so two
    distinct objects are always distinct values even when all their
    attributes agree.
 */
module SpanModel {
  import opened PyStrings

  datatype Span = Span(
    id: nat,
    start: int,
    end: int,
    text: string,
    typ: string,
    serials: seq<string>,
    source: string)

  /** Types are compared case-insensitively. */
  predicate TypeMatches(a: Span, b: Span) {
    Lower(a.typ) == Lower(b.typ)
  }

  /** `Span.matches`: identical boundaries and matching type. */
  predicate Matches(a: Span, b: Span) {
    a.start == b.start && a.end == b.end && TypeMatches(a, b)
  }

  /** The closed intervals `[start, end]` intersect. */
  predicate Overlaps(a: Span, b: Span) {
    !(a.end + 1 <= b.start || b.end + 1 <= a.start)
  }

  /** `Span.overlap_matches`: intersecting intervals and matching type. */
  predicate OverlapMatches(a: Span, b: Span) {
    Overlaps(a, b) && TypeMatches(a, b)
  }

  predicate WellFormed(s: Span) {
    s.start <= s.end
  }

  predicate AllWellFormed(spans: seq<Span>) {
    forall i :: 0 <= i < |spans| ==> WellFormed(spans[i])
  }
}
