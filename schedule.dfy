/**
 * Appointments and availability blocks as spans of minutes on the requested
 * day's clock, and the filtering and ordering the recommender applies to them.
 */
module Schedule {
  import Sorting

  /** A stretch of time, from `start` to `end`, in minutes after midnight of the requested date. */
  datatype Span = Span(start: int, end: int)

  /** An availability block of a physician; `kind` is "available", "break", "vacation", ... */
  datatype Block = Block(span: Span, kind: string)

  const Available := "available"

  /** The spans of the blocks whose kind is exactly "available", in input order. */
  function AvailableSpans(blocks: seq<Block>): (r: seq<Span>)
    ensures |r| <= |blocks|
    ensures forall s :: s in r <==> exists b :: b in blocks && b.kind == Available && b.span == s
  {
    if blocks == [] then []
    else
      var rest := AvailableSpans(blocks[1..]);
      assert forall b :: b in blocks <==> b == blocks[0] || b in blocks[1..];
      if blocks[0].kind == Available then [blocks[0].span] + rest else rest
  }

  predicate StartsNoLater(a: Span, b: Span) {
    a.start <= b.start
  }

  /** The spans stably sorted by start time (the comparator `a.start - b.start`). */
  function SortByStart(spans: seq<Span>): (r: seq<Span>)
    ensures multiset(r) == multiset(spans)
    ensures forall i, j :: 0 <= i < j < |r| ==> r[i].start <= r[j].start
  {
    Sorting.SortBySorted(spans, StartsNoLater);
    Sorting.SortBy(spans, StartsNoLater)
  }
}
