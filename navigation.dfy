/**
 * The page context of the thesis page: the index and text shown, and the
 * targets of the first/previous/next/last links, where 0 means "no link".
 * An index outside the collection gives the not-found page.
 */
module Navigation {

  /** The index shown on the not-found page. */
  const NotFoundIndex: int := 404

  /** The text shown on the not-found page. */
  const NotFoundText: string := "not found"

  /** The values the page template receives. */
  datatype Context = Context(n: int, thesis: string, first: int, prev: int, next: int, last: int)

  /** `n` numbers a thesis of `th` (numbering starts at 1). */
  predicate Found(n: int, th: seq<string>)
  {
    1 <= n <= |th|
  }

  /**
   * The context for thesis `n` of `th`: the links start at 0 and are set
   * where they apply.
   */
  function Nav(n: int, th: seq<string>): (c: Context)
    ensures Found(n, th) ==> c.n == n && c.thesis == th[n - 1]
    ensures Found(n, th) ==> (c.first != 0 <==> n > 1) && (c.prev != 0 <==> n > 1)
    ensures Found(n, th) ==> (c.next != 0 <==> n < |th|) && (c.last != 0 <==> n < |th|)
    ensures Found(n, th) ==> (c.first == 0 || c.first == 1) && (c.prev == 0 || c.prev == n - 1)
    ensures Found(n, th) ==> (c.next == 0 || c.next == n + 1) && (c.last == 0 || c.last == |th|)
    ensures !Found(n, th) ==> c.n == NotFoundIndex && c.thesis == NotFoundText
    ensures !Found(n, th) ==> c.first == 1 && c.last == |th| && c.prev == 0 && c.next == 0
  {
    if 1 <= n <= |th| then
      var c := Context(n, th[n - 1], 0, 0, 0, 0);
      var c := if n > 1 then c.(first := 1, prev := n - 1) else c;
      if n < |th| then c.(next := n + 1, last := |th|) else c
    else
      Context(NotFoundIndex, NotFoundText, 1, 0, 0, |th|)
  }

  /** Every link a page of a non-empty collection shows leads to a thesis. */
  lemma LinksInRange(n: int, th: seq<string>)
    requires |th| > 0
    ensures var c := Nav(n, th);
      (c.first == 0 || Found(c.first, th)) && (c.prev == 0 || Found(c.prev, th)) &&
      (c.next == 0 || Found(c.next, th)) && (c.last == 0 || Found(c.last, th))
  {
  }

  /** The not-found page of an empty collection still links to thesis 1, which is not found either. */
  lemma EmptyCollectionFirstLink(n: int, th: seq<string>)
    requires |th| == 0
    ensures Nav(n, th).first == 1 && !Found(Nav(n, th).first, th)
  {
  }

  /** Previous and next are inverse: going forward and back returns to the same thesis. */
  lemma PrevNextInverse(n: int, th: seq<string>)
    requires Found(n, th)
    ensures Nav(n, th).next != 0 ==> Nav(Nav(n, th).next, th).prev == n
    ensures Nav(n, th).prev != 0 ==> Nav(Nav(n, th).prev, th).next == n
  {
  }

  /** The first and last links lead to pages that have no link further out. */
  lemma EndsHaveNoOuterLinks(n: int, th: seq<string>)
    requires Found(n, th)
    ensures Nav(n, th).first != 0 ==> Nav(Nav(n, th).first, th).first == 0 && Nav(Nav(n, th).first, th).prev == 0
    ensures Nav(n, th).last != 0 ==> Nav(Nav(n, th).last, th).last == 0 && Nav(Nav(n, th).last, th).next == 0
  {
  }

  /** The first of five theses links only forward, to thesis 2 and thesis 5. */
  lemma ExampleFirstOfFive(th: seq<string>)
    requires |th| == 5
    ensures Nav(1, th) == Context(1, th[0], 0, 0, 2, 5)
  {
  }
}
