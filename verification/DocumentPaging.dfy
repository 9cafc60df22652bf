/** Iterating over the documents of a dataset page by page, against a server that may or may not
    honour the page number.
 */
module DocumentPaging {
  import opened Basics

  /** A document, known to the client by its canonical JSON text. */
  type Document = string
  type Page = seq<Document>

  /** What a server answers to each page number, starting at 1. */
  type Server = nat -> Page

  const MAX_PAGE_SIZE := 100

  datatype Outcome = Finished | Stalled | BadPageSize

  /** The documents of pages 1 to `count`. */
  ghost function Pages(server: Server, count: nat): seq<Document> {
    if count == 0 then [] else Pages(server, count - 1) + server(count)
  }

  /** The first `count` pages were yielded: all distinct, none empty, and all but perhaps the last of full size. */
  ghost predicate Yielded(server: Server, size: nat, count: nat) {
    && (forall i, j :: 1 <= i < j <= count ==> server(i) != server(j))
    && (forall i :: 1 <= i <= count ==> server(i) != [])
    && (forall i :: 1 <= i < count ==> |server(i)| >= size)
  }

  /** How the iteration ended after yielding `count` pages: on a short page, an empty one, or a repeated one. */
  ghost predicate EndsAt(server: Server, size: nat, count: nat, outcome: Outcome, requests: nat) {
    && Yielded(server, size, count)
    && match outcome
       case Finished =>
         || (count > 0 && |server(count)| < size && requests == count)
         || ((count > 0 ==> |server(count)| >= size) && server(count + 1) == [] && requests == count + 1)
       case Stalled =>
         && (count > 0 ==> |server(count)| >= size) && server(count + 1) != [] && requests == count + 1
         && exists i :: 1 <= i <= count && server(i) == server(count + 1)
       case BadPageSize => false
  }

  ghost function Seen(server: Server, count: nat): set<Page> {
    if count == 0 then {} else Seen(server, count - 1) + {server(count)}
  }

  lemma {:induction false} SeenMembers(server: Server, count: nat, page: Page)
    ensures page in Seen(server, count) <==> exists i :: 1 <= i <= count && server(i) == page
  {
    if count > 0 { SeenMembers(server, count - 1, page); }
  }

  /** One more full or last page. */
  lemma YieldOneMore(server: Server, size: nat, count: nat)
    requires Yielded(server, size, count) && (count > 0 ==> |server(count)| >= size)
    requires server(count + 1) != [] && server(count + 1) !in Seen(server, count)
    ensures Yielded(server, size, count + 1)
  {
    SeenMembers(server, count, server(count + 1));
  }

  /** `iter_documents`. It ends against any server that draws its pages from a finite set. */
  method IterDocuments(server: Server, pageSize: int, ghost drawnFrom: set<Page>)
      returns (yielded: seq<Document>, outcome: Outcome, requests: nat, ghost count: nat)
    requires forall page :: server(page) in drawnFrom
    ensures pageSize < 1 ==> outcome == BadPageSize && yielded == [] && requests == 0
    ensures pageSize >= 1 ==>
              var size := Min(pageSize, 100);
              EndsAt(server, size, count, outcome, requests) && yielded == Pages(server, count)
  {
    yielded, requests, count := [], 0, 0;
    if pageSize < 1 { return yielded, BadPageSize, requests, count; }
    var size := Min(pageSize, MAX_PAGE_SIZE);
    var seen: set<Page> := {};
    var page := 1;
    while true
      invariant page == count + 1 && requests == count && yielded == Pages(server, count)
      invariant seen == Seen(server, count) && seen <= drawnFrom
      invariant Yielded(server, size, count) && (count > 0 ==> |server(count)| >= size)
      decreases drawnFrom - seen
    {
      hide Yielded;
      var documents := server(page);
      requests := requests + 1;
      if documents == [] { return yielded, Finished, requests, count; }
      SeenMembers(server, count, documents);
      if documents in seen { return yielded, Stalled, requests, count; }
      YieldOneMore(server, size, count);
      yielded := yielded + documents;
      count := count + 1;
      if |documents| < size { return yielded, Finished, requests, count; }
      assert documents in drawnFrom - seen;
      seen := seen + {documents};
      page := page + 1;
    }
  }

  // ---------------------------------------------------------------- a server that slices a fixed list

  /** How many of `n` documents lie on the pages up to `page`. */
  function UpTo(page: nat, size: nat, n: nat): (count: nat)
    ensures count <= n
  {
    Min(page * size, n)
  }

  function Slices(documents: seq<Document>, size: nat): Server {
    (page: nat) =>
      if page == 0 then []
      else documents[UpTo(page - 1, size, |documents|)..UpTo(page, size, |documents|)]
  }

  /** No two full pages of the list are equal. */
  ghost predicate FullPagesDistinct(documents: seq<Document>, size: nat)
    requires size > 0
  {
    forall i, j :: 1 <= i < j <= |documents| / size ==> Slices(documents, size)(i) != Slices(documents, size)(j)
  }

  lemma Multiply(page: nat, size: nat, n: nat)
    requires size > 0
    ensures page <= n / size <==> page * size <= n
    ensures (page + 1) * size == page * size + size
  {
    var q := n / size;
    assert q * size <= n < q * size + size;
    if page <= q {
      assert page * size <= q * size;
    } else {
      assert page * size >= (q + 1) * size;
    }
  }

  /** What the client sees of each page: full up to n/size, then the rest, then nothing. */
  lemma SliceLengths(documents: seq<Document>, size: nat, page: nat)
    requires size > 0 && page > 0
    ensures var n, s := |documents|, Slices(documents, size)(page);
            && (|s| >= size <==> page <= n / size)
            && |s| <= size
            && (s == [] <==> (page - 1) * size >= n)
  {
    Multiply(page, size, |documents|);
    Multiply(page - 1, size, |documents|);
  }

  lemma Joined(documents: seq<Document>, a: nat, b: nat)
    requires a <= b <= |documents|
    ensures documents[..a] + documents[a..b] == documents[..b]
  {
  }

  lemma NextSlice(documents: seq<Document>, size: nat, count: nat)
    requires size > 0 && count > 0
    ensures var a, b := UpTo(count - 1, size, |documents|), UpTo(count, size, |documents|);
            a <= b && Slices(documents, size)(count) == documents[a..b]
  {
    Multiply(count - 1, size, |documents|);
  }

  lemma {:induction false} SlicesJoin(documents: seq<Document>, size: nat, count: nat)
    requires size > 0
    ensures Pages(Slices(documents, size), count) == documents[..UpTo(count, size, |documents|)]
  {
    if count > 0 {
      hide Slices, UpTo;
      SlicesJoin(documents, size, count - 1);
      NextSlice(documents, size, count);
      Joined(documents, UpTo(count - 1, size, |documents|), UpTo(count, size, |documents|));
    }
  }

  /** Against such a server the iteration yields exactly the list, in n/size + 1 requests, exactly when
      no two full pages are equal; otherwise it stops at the first repeated page. */
  lemma SlicedListIsYielded(documents: seq<Document>, size: nat, count: nat, outcome: Outcome, requests: nat)
    requires size > 0 && EndsAt(Slices(documents, size), size, count, outcome, requests)
    ensures outcome.Finished? <==> FullPagesDistinct(documents, size)
    ensures outcome.Finished? ==>
              Pages(Slices(documents, size), count) == documents && requests == |documents| / size + 1
    ensures outcome.Stalled? ==>
              && 1 <= count < |documents| / size && requests == count + 1
              && Pages(Slices(documents, size), count) == documents[..UpTo(count, size, |documents|)]
  {
    hide Slices;
    var server, n := Slices(documents, size), |documents|;
    SlicesJoin(documents, size, count);
    SliceLengths(documents, size, count + 1);
    Multiply(count, size, n);
    if count > 0 {
      SliceLengths(documents, size, count);
      Multiply(count - 1, size, n);
    }
    if outcome.Finished? {
      assert n / size <= count;
    } else {
      var i :| 1 <= i <= count && server(i) == server(count + 1);
      SliceLengths(documents, size, i);
      assert |server(i)| >= size;
    }
  }

  lemma FirstOfSlice(documents: seq<Document>, size: nat, page: nat)
    requires size > 0 && 1 <= page <= |documents| / size
    ensures (page - 1) * size < page * size <= |documents|
    ensures Slices(documents, size)(page) != [] && Slices(documents, size)(page)[0] == documents[(page - 1) * size]
  {
    Multiply(page, size, |documents|);
    Multiply(page - 1, size, |documents|);
  }

  /** Pairwise distinct documents make distinct full pages. */
  lemma DistinctDocumentsNeverStall(documents: seq<Document>, size: nat)
    requires size > 0 && Distinct(documents)
    ensures FullPagesDistinct(documents, size)
  {
    hide Slices;
    forall i, j | 1 <= i < j <= |documents| / size ensures Slices(documents, size)(i) != Slices(documents, size)(j) {
      FirstOfSlice(documents, size, i);
      FirstOfSlice(documents, size, j);
      TimesMonotone(i, j - 1, size);
    }
  }

  lemma TimesMonotone(a: nat, b: nat, size: nat)
    requires a <= b
    ensures a * size <= b * size
  {
  }

  /** The pages such a server can answer. */
  lemma DrawnFromSlices(documents: seq<Document>, size: nat) returns (drawnFrom: set<Page>)
    requires size > 0
    ensures forall page: nat :: Slices(documents, size)(page) in drawnFrom
  {
    drawnFrom := set a, b | 0 <= a <= b <= |documents| :: documents[a..b];
    forall page: nat ensures Slices(documents, size)(page) in drawnFrom {
      if page == 0 {
        assert [] == documents[0..0];
      } else {
        NextSlice(documents, size, page);
      }
    }
  }

  /** `iter_documents` against a server that slices a fixed list. */
  method IterSlices(documents: seq<Document>, pageSize: int)
      returns (yielded: seq<Document>, outcome: Outcome, requests: nat)
    requires pageSize >= 1
    ensures var size := Min(pageSize, 100);
            && (outcome.Finished? <==> FullPagesDistinct(documents, size))
            && (outcome.Finished? ==> yielded == documents && requests == |documents| / size + 1)
            && (!outcome.Finished? ==>
                  && outcome.Stalled? && 2 <= requests <= |documents| / size
                  && yielded == documents[..UpTo(requests - 1, size, |documents|)])
    ensures Distinct(documents) ==> outcome.Finished?
  {
    var size := Min(pageSize, MAX_PAGE_SIZE);
    ghost var drawnFrom := DrawnFromSlices(documents, size);
    ghost var count;
    hide Slices, EndsAt, FullPagesDistinct;
    yielded, outcome, requests, count := IterDocuments(Slices(documents, size), pageSize, drawnFrom);
    SlicedListIsYielded(documents, size, count, outcome, requests);
    if Distinct(documents) { DistinctDocumentsNeverStall(documents, size); }
  }

  /** Two full pages of the same document: the second is taken for a repetition, and only the first is yielded. */
  method EqualPagesStall(document: Document) returns (yielded: seq<Document>, outcome: Outcome)
    ensures outcome.Stalled? && yielded == [document]
  {
    var documents := [document, document];
    assert !FullPagesDistinct(documents, 1) by { TwoPagesEqual(document); }
    var requests;
    hide FullPagesDistinct;
    yielded, outcome, requests := IterSlices(documents, 1);
    assert documents[..UpTo(1, 1, 2)] == [document];
  }

  lemma TwoPagesEqual(document: Document)
    ensures !FullPagesDistinct([document, document], 1)
  {
    hide Slices;
    var documents := [document, document];
    NextSlice(documents, 1, 1);
    NextSlice(documents, 1, 2);
    assert documents[0..1] == documents[1..2];
    assert 1 <= 1 < 2 <= |documents| / 1;
  }
}
