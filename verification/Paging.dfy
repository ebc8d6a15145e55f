/** Paged collections: the outbox, followers and following, twenty items a page, tied together by their links. */
module Paging {
  import opened Numbers
  import opened Text
  import opened Wrappers
  import Search

  const PAGE_SIZE := 20
  const QUERY := "?page="

  // ----- the page a request asks for -----

  datatype Asked = Whole | Page(n: int) | Invalid

  /** `parsePage` on the raw `page` parameter. */
  function ParsePage(raw: string): Asked {
    var s := TrimSpace(raw);
    if s == "" then Whole
    else if s == "true" then Page(1)
    else match Atoi(s)
      case None => Invalid
      case Some(n) => if n < 1 then Invalid else Page(n)
  }

  lemma ParsePageOfItoa(n: nat)
    requires 1 <= n <= MAX_INT64
    ensures ParsePage(Itoa(n)) == Page(n)
  {
    var s := Itoa(n);
    hide TrimSpace, Atoi;
    ItoaIsDigits(n);
    assert s[0] in s && s[|s| - 1] in s;
    TrimSpaceFixes(s);
    AtoiOfItoa(n);
  }

  // ----- the documents -----

  datatype Collection = Collection(id: string, total: nat, first: string, last: string)

  datatype PageDoc<T> = PageDoc(id: string, partOf: string, next: string, prev: string, items: seq<T>)

  datatype Response<T> = BadRequest | Summary(collection: Collection) | Document(page: PageDoc<T>)

  function Link(id: string, n: nat): string {
    id + QUERY + Itoa(n)
  }

  function Pages(total: nat): nat {
    if total > 0 then (total + PAGE_SIZE - 1) / PAGE_SIZE else 0
  }

  function CollectionOf(id: string, total: nat): Collection {
    if total > 0
    then Collection(id, total, Link(id, 1), if Pages(total) > 1 then Link(id, Pages(total)) else Link(id, 1))
    else Collection(id, total, "", "")
  }

  function Offset(page: int): int {
    Wrap64((page - 1) * PAGE_SIZE)
  }

  function PageOf<T>(id: string, listing: seq<T>, page: int): PageDoc<T>
    requires page >= 1
  {
    PageDoc(Link(id, page), id,
            if page < Pages(|listing|) then Link(id, page + 1) else "",
            if page > 1 then Link(id, page - 1) else "",
            Search.Slice(listing, Offset(page), PAGE_SIZE))
  }

  /** The answer of a collection endpoint over a fixed listing. */
  function Served<T>(id: string, listing: seq<T>, raw: string): Response<T> {
    match ParsePage(raw)
    case Invalid => BadRequest
    case Whole => Summary(CollectionOf(id, |listing|))
    case Page(n) => Document(PageOf(id, listing, if n < 1 then 1 else n))
  }

  /** Every row shown through `create`, as the outbox shows each file as a Create activity. */
  function Shown<R, T>(rows: seq<R>, create: R -> T): (items: seq<T>)
    ensures |items| == |rows| && forall i :: 0 <= i < |rows| ==> items[i] == create(rows[i])
  {
    if rows == [] then [] else Shown(rows[..|rows| - 1], create) + [create(rows[|rows| - 1])]
  }

  /** `Outbox` and `iriCollection`: the rows of one page are read and shown one by one. */
  method Serve<R, T>(id: string, listing: seq<R>, raw: string, create: R -> T) returns (r: Response<T>)
    ensures r == Served(id, Shown(listing, create), raw)
  {
    hide TrimSpace, Atoi;
    var asked := ParsePage(raw);
    if asked.Invalid? {
      return BadRequest;
    }
    if asked.Whole? {
      return Summary(CollectionOf(id, |listing|));
    }
    var page := asked.n;
    assert page >= 1;
    var rows, total := Search.Slice(listing, Offset(page), PAGE_SIZE), |listing|;
    var items: seq<T> := [];
    for i := 0 to |rows|
      invariant |items| == i && forall k :: 0 <= k < i ==> items[k] == create(rows[k])
    {
      items := items + [create(rows[i])];
    }
    assert items == Search.Slice(Shown(listing, create), Offset(page), PAGE_SIZE);
    var pages := 0;
    if total > 0 {
      pages := (total + PAGE_SIZE - 1) / PAGE_SIZE;
    }
    var next, prev := "", "";
    if page < pages {
      next := Link(id, page + 1);
    }
    if page > 1 {
      prev := Link(id, page - 1);
    }
    return Document(PageDoc(Link(id, page), id, next, prev, items));
  }

  // ----- following links -----

  /** The `page` parameter of a link to a collection, if the link has one. */
  function PageParam(id: string, link: string): Option<string> {
    if id + QUERY <= link then Some(link[|id| + |QUERY|..]) else None
  }

  /** What a client gets by following a link. */
  function Fetched<T>(id: string, listing: seq<T>, link: string): Option<PageDoc<T>> {
    match PageParam(id, link)
    case None => None
    case Some(raw) =>
      var r := Served(id, listing, raw);
      if r.Document? then Some(r.page) else None
  }

  lemma FetchedLink<T>(id: string, listing: seq<T>, n: nat)
    requires 1 <= n <= MAX_INT64
    ensures Fetched(id, listing, Link(id, n)) == Some(PageOf(id, listing, n))
  {
    hide ParsePage, PageOf, Itoa;
    assert Link(id, n)[|id| + |QUERY|..] == Itoa(n);
    ParsePageOfItoa(n);
  }

  /** A client that follows `next` from `first` until there is none sees these pages. */
  ghost predicate IsWalk<T>(id: string, listing: seq<T>, walk: seq<PageDoc<T>>) {
    && walk != []
    && Fetched(id, listing, CollectionOf(id, |listing|).first) == Some(walk[0])
    && (forall i :: 0 <= i < |walk| - 1 ==>
          walk[i].next != "" && Fetched(id, listing, walk[i].next) == Some(walk[i + 1]))
    && walk[|walk| - 1].next == ""
  }

  /** All pages in order. */
  function AllPages<T>(id: string, listing: seq<T>): seq<PageDoc<T>> {
    seq(Pages(|listing|), i requires 0 <= i < Pages(|listing|) => PageOf(id, listing, i + 1))
  }

  lemma NextOfPage<T>(id: string, listing: seq<T>, n: nat)
    requires 1 <= n <= Pages(|listing|) <= MAX_INT64
    ensures PageOf(id, listing, n).next == "" <==> n == Pages(|listing|)
    ensures n < Pages(|listing|) ==>
              Fetched(id, listing, PageOf(id, listing, n).next) == Some(PageOf(id, listing, n + 1))
    ensures n > 1 ==> Fetched(id, listing, PageOf(id, listing, n).prev) == Some(PageOf(id, listing, n - 1))
  {
    hide Fetched, Itoa, Search.Slice, Offset;
    if n < Pages(|listing|) {
      FetchedLink(id, listing, n + 1);
    }
    if n > 1 {
      FetchedLink(id, listing, n - 1);
    }
  }

  lemma {:induction false} WalkFollowsPages<T>(id: string, listing: seq<T>, walk: seq<PageDoc<T>>, i: nat)
    requires Pages(|listing|) <= MAX_INT64 && listing != [] && IsWalk(id, listing, walk) && i < |walk|
    ensures i < Pages(|listing|) && walk[i] == PageOf(id, listing, i + 1)
  {
    hide Fetched, PageOf;
    if i == 0 {
      FetchedLink(id, listing, 1);
    } else {
      WalkFollowsPages(id, listing, walk, i - 1);
      NextOfPage(id, listing, i);
      assert walk[i - 1].next != "";
      assert Fetched(id, listing, walk[i - 1].next) == Some(walk[i]);
    }
  }

  lemma NoWalkOfNothing<T>(id: string, walk: seq<PageDoc<T>>)
    ensures !IsWalk(id, [], walk)
  {
    hide Served;
    assert CollectionOf(id, 0).first == "";
    assert PageParam(id, "").None?;
  }

  lemma FirstLink<T>(id: string, listing: seq<T>)
    requires listing != []
    ensures Fetched(id, listing, CollectionOf(id, |listing|).first) == Some(PageOf(id, listing, 1))
  {
    hide Fetched, PageOf, Link;
    FetchedLink(id, listing, 1);
  }

  lemma LastLink<T>(id: string, listing: seq<T>)
    requires listing != [] && Pages(|listing|) <= MAX_INT64
    ensures Fetched(id, listing, CollectionOf(id, |listing|).last) == Some(PageOf(id, listing, Pages(|listing|)))
  {
    hide Fetched, PageOf, Link;
    FetchedLink(id, listing, Pages(|listing|));
  }

  lemma WalkIsAllPages<T>(id: string, listing: seq<T>, walk: seq<PageDoc<T>>)
    requires Pages(|listing|) <= MAX_INT64 && listing != [] && IsWalk(id, listing, walk)
    ensures walk == AllPages(id, listing)
  {
    hide Fetched, PageOf, CollectionOf;
    forall i | 0 <= i < |walk| ensures i < Pages(|listing|) && walk[i] == PageOf(id, listing, i + 1) {
      WalkFollowsPages(id, listing, walk, i);
    }
    assert walk[|walk| - 1].next == "";
    NextOfPage(id, listing, |walk|);
  }

  lemma AllPagesIsWalk<T>(id: string, listing: seq<T>)
    requires Pages(|listing|) <= MAX_INT64 && listing != []
    ensures IsWalk(id, listing, AllPages(id, listing))
  {
    hide Fetched, PageOf, CollectionOf;
    var walk := AllPages(id, listing);
    FirstLink(id, listing);
    forall i | 0 <= i < |walk| - 1
      ensures walk[i].next != "" && Fetched(id, listing, walk[i].next) == Some(walk[i + 1])
    {
      NextOfPage(id, listing, i + 1);
    }
    NextOfPage(id, listing, |walk|);
  }

  /** There is exactly one walk: page 1, page 2, and so on to the last. An empty collection has none. */
  lemma OneWalk<T>(id: string, listing: seq<T>, walk: seq<PageDoc<T>>)
    requires |listing| + PAGE_SIZE <= MAX_INT64
    ensures IsWalk(id, listing, walk) <==> listing != [] && walk == AllPages(id, listing)
  {
    hide IsWalk, AllPages;
    if listing == [] {
      NoWalkOfNothing(id, walk);
    } else {
      AllPagesIsWalk(id, listing);
      if IsWalk(id, listing, walk) {
        WalkIsAllPages(id, listing, walk);
      }
    }
  }

  /** The items of the first `k` pages, in order. */
  function Items<T>(walk: seq<PageDoc<T>>): seq<T> {
    if walk == [] then [] else Items(walk[..|walk| - 1]) + walk[|walk| - 1].items
  }

  /** A page whose offset fits holds its stretch of the listing. */
  lemma PageItems<T>(id: string, listing: seq<T>, n: nat)
    requires 1 <= n <= Pages(|listing|) && |listing| + PAGE_SIZE <= MAX_INT64
    ensures (n - 1) * PAGE_SIZE < |listing|
    ensures PageOf(id, listing, n).items == listing[(n - 1) * PAGE_SIZE..Search.Min(n * PAGE_SIZE, |listing|)]
  {
    hide Link;
    assert Offset(n) == (n - 1) * PAGE_SIZE;
  }

  lemma {:induction false} ItemsOfFirst<T>(id: string, listing: seq<T>, k: nat)
    requires |listing| + PAGE_SIZE <= MAX_INT64 && k <= Pages(|listing|)
    ensures Items(AllPages(id, listing)[..k]) == listing[..Search.Min(k * PAGE_SIZE, |listing|)]
  {
    hide PageOf, Pages;
    var pages := AllPages(id, listing);
    if k == 0 {
      assert pages[..0] == [];
    } else {
      ItemsOfFirst(id, listing, k - 1);
      PageItems(id, listing, k);
      assert pages[..k][..k - 1] == pages[..k - 1];
      assert pages[..k][k - 1] == PageOf(id, listing, k);
      var from, to := (k - 1) * PAGE_SIZE, Search.Min(k * PAGE_SIZE, |listing|);
      assert listing[..from] + listing[from..to] == listing[..to];
    }
  }

  lemma PageCount(total: nat)
    ensures Pages(total) == 0 <==> total == 0
    ensures total > 0 ==> (Pages(total) - 1) * 20 < total <= Pages(total) * 20
  {
  }

  /** Following `next` from `first` visits every item exactly once and in order, in ceil(total / 20) pages of which only
      the last may be short, ends at the page the collection names `last`, and `prev` takes each step back. */
  lemma WalkVisitsAll<T>(id: string, listing: seq<T>, walk: seq<PageDoc<T>>)
    requires |listing| + PAGE_SIZE <= MAX_INT64 && IsWalk(id, listing, walk)
    ensures Items(walk) == listing
    ensures (|walk| - 1) * 20 < |listing| <= |walk| * 20
    ensures Fetched(id, listing, CollectionOf(id, |listing|).last) == Some(walk[|walk| - 1])
    ensures forall i :: 0 < i < |walk| ==> Fetched(id, listing, walk[i].prev) == Some(walk[i - 1])
  {
    hide Fetched, PageOf, CollectionOf, IsWalk, Pages;
    PageCount(|listing|);
    OneWalk(id, listing, walk);
    var k := Pages(|listing|);
    ItemsOfFirst(id, listing, k);
    assert walk[..k] == walk && listing[..|listing|] == listing;
    LastLink(id, listing);
    forall i | 0 < i < |walk| ensures Fetched(id, listing, walk[i].prev) == Some(walk[i - 1]) {
      NextOfPage(id, listing, i + 1);
    }
  }

  /** Each page of the walk is found under the id it gives, names its collection, and is full unless it is the last; and
      the collection counts the items. */
  lemma WalkPages<T>(id: string, listing: seq<T>, walk: seq<PageDoc<T>>, i: nat)
    requires |listing| + PAGE_SIZE <= MAX_INT64 && IsWalk(id, listing, walk) && i < |walk|
    ensures walk[i].partOf == id && Fetched(id, listing, walk[i].id) == Some(walk[i])
    ensures i < |walk| - 1 ==> |walk[i].items| == 20
    ensures CollectionOf(id, |listing|).total == |listing|
  {
    assert CollectionOf(id, |listing|).total == |listing|;
    hide Fetched, PageOf, CollectionOf, IsWalk, Pages;
    PageCount(|listing|);
    OneWalk(id, listing, walk);
    PageFacts(id, listing, i + 1);
  }

  /** A page names its collection and the link it is found under. */
  lemma PageIsItself<T>(id: string, listing: seq<T>, n: nat)
    requires 1 <= n <= MAX_INT64
    ensures PageOf(id, listing, n).partOf == id
    ensures Fetched(id, listing, PageOf(id, listing, n).id) == Some(PageOf(id, listing, n))
  {
    hide Fetched, Itoa, Search.Slice, Offset;
    FetchedLink(id, listing, n);
  }

  /** Which requests are refused: those whose page is neither blank nor "true" nor a number from 1 on. Blank asks for
      the collection itself, "true" for the first page. */
  lemma AskedExactly<T>(id: string, listing: seq<T>, raw: string)
    ensures var s := TrimSpace(raw);
      && (Served(id, listing, raw) == BadRequest <==> s != "" && s != "true" && !(Atoi(s).Some? && Atoi(s).value >= 1))
      && (s == "" ==> Served(id, listing, raw) == Summary(CollectionOf(id, |listing|)))
      && (s == "true" ==> Served(id, listing, raw) == Document(PageOf(id, listing, 1)))
      && (s != "true" && Atoi(s).Some? && Atoi(s).value >= 1 ==>
            Served(id, listing, raw) == Document(PageOf(id, listing, Atoi(s).value)))
  {
    hide TrimSpace, PageOf, CollectionOf;
    assert Atoi("").None?;
    hide Atoi;
  }

  lemma PageFacts<T>(id: string, listing: seq<T>, n: nat)
    requires 1 <= n <= Pages(|listing|) && |listing| + PAGE_SIZE <= MAX_INT64
    ensures PageOf(id, listing, n).partOf == id
    ensures Fetched(id, listing, PageOf(id, listing, n).id) == Some(PageOf(id, listing, n))
    ensures n < Pages(|listing|) ==> |PageOf(id, listing, n).items| == 20
  {
    hide Fetched, PageOf, Pages;
    PageCount(|listing|);
    PageIsItself(id, listing, n);
    PageItems(id, listing, n);
    assert n < Pages(|listing|) ==> n * 20 < |listing|;
  }

  /** Past the end a page has no `next`, and it is empty exactly when its offset, as an int64, is not before the end.
      For an offset that fits this always holds; one that wraps around may land anywhere. */
  lemma PastTheEndExactly<T>(id: string, listing: seq<T>, n: nat)
    requires Pages(|listing|) < n
    ensures PageOf(id, listing, n).next == ""
    ensures PageOf(id, listing, n).items == [] <==> listing == [] || Offset(n) >= |listing|
    ensures (n - 1) * PAGE_SIZE <= MAX_INT64 ==> Offset(n) >= |listing|
  {
    hide Link;
  }

  /** A page repeats the first page's items whenever its offset is not positive, and, where the first item is listed
      once, only then. */
  lemma RepeatsTheFirstExactly<T>(id: string, listing: seq<T>, n: nat)
    requires n >= 1 && listing != []
    ensures Offset(n) <= 0 ==> PageOf(id, listing, n).items == PageOf(id, listing, 1).items
    ensures listing[0] !in listing[1..] ==>
              (PageOf(id, listing, n).items == PageOf(id, listing, 1).items <==> Offset(n) <= 0)
  {
    hide Link;
    assert PageOf(id, listing, 1).items[0] == listing[0];
    if 0 < Offset(n) < |listing| {
      assert PageOf(id, listing, n).items[0] == listing[Offset(n)] == listing[1..][Offset(n) - 1];
    }
  }

  const FAR_PAGE := 0x4000_0000_0000_0001
  const FAR_EMPTY_PAGE := 922_337_203_685_478_582

  /** Two page numbers a client may ask for whose offsets do not fit: the first repeats the first page, the second is
      empty for any listing of up to 20000 items. */
  lemma FarPages<T>(id: string, listing: seq<T>)
    ensures ParsePage(Itoa(FAR_PAGE)) == Page(FAR_PAGE) && (FAR_PAGE - 1) * PAGE_SIZE > MAX_INT64
    ensures PageOf(id, listing, FAR_PAGE).items == PageOf(id, listing, 1).items
    ensures ParsePage(Itoa(FAR_EMPTY_PAGE)) == Page(FAR_EMPTY_PAGE) && (FAR_EMPTY_PAGE - 1) * PAGE_SIZE > MAX_INT64
    ensures |listing| <= 20_000 ==> PageOf(id, listing, FAR_EMPTY_PAGE).items == []
  {
    hide Itoa, Link;
    ParsePageOfItoa(FAR_PAGE);
    ParsePageOfItoa(FAR_EMPTY_PAGE);
    assert Offset(FAR_PAGE) == 0 == Offset(1) && Offset(FAR_EMPTY_PAGE) == 20_004;
  }
}
