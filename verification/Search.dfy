/** The search over public files (internal/files/store.go): the LIKE pattern built from what the user typed, against
    SQLite's LIKE with ESCAPE '\', and the page of matching rows. */
module Search {
  import opened Text
  import opened Letters
  import opened FileStore

  const ESCAPE := '\\'

  // ----- the matcher -----

  predicate Folds(a: char, b: char) {
    LowerChar(a) == LowerChar(b)
  }

  /** SQLite's LIKE with a backslash as the escape character: `%` stands for any text, `_` for any character, an escaped
      character for itself, letters compare without ASCII case, and a trailing escape matches nothing. */
  predicate Like(p: string, s: string)
    decreases |p| + |s|
  {
    if p == "" then s == ""
    else if p[0] == '%' then Like(p[1..], s) || (s != "" && Like(p, s[1..]))
    else if s == "" then false
    else if p[0] == '_' then Like(p[1..], s[1..])
    else if p[0] == ESCAPE then |p| > 1 && Folds(p[1], s[0]) && Like(p[2..], s[1..])
    else Folds(p[0], s[0]) && Like(p[1..], s[1..])
  }

  // ----- the pattern -----

  /** `likeContains`: three passes of `ReplaceAll`, the backslashes first. */
  function LikeContains(q: string): string {
    ['%'] + ThreePasses(q) + ['%']
  }

  function ThreePasses(q: string): string {
    var q1 := ReplaceAll(q, ESCAPE, [ESCAPE, ESCAPE]);
    var q2 := ReplaceAll(q1, '%', [ESCAPE, '%']);
    ReplaceAll(q2, '_', [ESCAPE, '_'])
  }

  predicate Special(c: char) {
    c == ESCAPE || c == '%' || c == '_'
  }

  /** Every character that means something to LIKE, escaped once. */
  function Escaped(q: string): string {
    if q == "" then "" else (if Special(q[0]) then [ESCAPE, q[0]] else [q[0]]) + Escaped(q[1..])
  }

  lemma {:induction false} ReplaceAllConcat(a: string, b: string, c: char, with: string)
    ensures ReplaceAll(a + b, c, with) == ReplaceAll(a, c, with) + ReplaceAll(b, c, with)
  {
    if a == "" {
      assert a + b == b;
    } else {
      assert (a + b)[1..] == a[1..] + b;
      ReplaceAllConcat(a[1..], b, c, with);
    }
  }

  lemma ReplaceOne(x: char, c: char, with: string)
    ensures ReplaceAll([x], c, with) == if x == c then with else [x]
  {
    assert [x][1..] == "";
    assert ReplaceAll("", c, with) == "";
  }

  lemma ReplaceTwo(x: char, y: char, c: char, with: string)
    ensures ReplaceAll([x, y], c, with) == (if x == c then with else [x]) + (if y == c then with else [y])
  {
    assert [x, y] == [x] + [y];
    ReplaceAllConcat([x], [y], c, with);
    ReplaceOne(x, c, with);
    ReplaceOne(y, c, with);
  }

  lemma ThreePassesOne(x: char)
    ensures ThreePasses([x]) == if Special(x) then [ESCAPE, x] else [x]
  {
    ReplaceOne(x, ESCAPE, [ESCAPE, ESCAPE]);
    ReplaceTwo(ESCAPE, ESCAPE, '%', [ESCAPE, '%']);
    ReplaceTwo(ESCAPE, ESCAPE, '_', [ESCAPE, '_']);
    ReplaceOne(x, '%', [ESCAPE, '%']);
    ReplaceTwo(ESCAPE, '%', '_', [ESCAPE, '_']);
    ReplaceOne(x, '_', [ESCAPE, '_']);
  }

  lemma ThreePassesConcat(a: string, b: string)
    ensures ThreePasses(a + b) == ThreePasses(a) + ThreePasses(b)
  {
    ReplaceAllConcat(a, b, ESCAPE, [ESCAPE, ESCAPE]);
    var a1, b1 := ReplaceAll(a, ESCAPE, [ESCAPE, ESCAPE]), ReplaceAll(b, ESCAPE, [ESCAPE, ESCAPE]);
    ReplaceAllConcat(a1, b1, '%', [ESCAPE, '%']);
    ReplaceAllConcat(ReplaceAll(a1, '%', [ESCAPE, '%']), ReplaceAll(b1, '%', [ESCAPE, '%']), '_', [ESCAPE, '_']);
  }

  /** The three passes in their order escape each special character exactly once: no pass re-escapes what an earlier
      one wrote. */
  lemma {:induction false} ThreePassesEscapeOnce(q: string)
    ensures ThreePasses(q) == Escaped(q)
  {
    if q != "" {
      assert q == [q[0]] + q[1..];
      ThreePassesConcat([q[0]], q[1..]);
      ThreePassesOne(q[0]);
      ThreePassesEscapeOnce(q[1..]);
    }
  }

  // ----- the pattern against the matcher -----

  /** `q` occurs in `s` at position `i`, letters compared without ASCII case. */
  predicate OccursAt(s: string, q: string, i: int) {
    0 <= i && i + |q| <= |s| && forall k :: 0 <= k < |q| ==> SameLetter(s[i + k], q[k])
  }

  ghost predicate ContainsFold(s: string, q: string) {
    exists i :: OccursAt(s, q, i)
  }

  lemma {:induction false} PercentMatchesAll(s: string)
    ensures Like(['%'], s)
  {
    var p := ['%'];
    assert p[1..] == "";
    if s != "" {
      PercentMatchesAll(s[1..]);
    }
  }

  /** Escaped text and then `%` matches exactly the strings that begin with the text. */
  lemma {:induction false} EscapedMatchesPrefix(q: string, s: string)
    ensures Like(Escaped(q) + ['%'], s) <==> OccursAt(s, q, 0)
  {
    var p := Escaped(q) + ['%'];
    if q == "" {
      assert p == ['%'];
      PercentMatchesAll(s);
    } else {
      var rest := Escaped(q[1..]) + ['%'];
      if Special(q[0]) {
        assert p == [ESCAPE, q[0]] + rest;
        assert p[2..] == rest;
      } else {
        assert p == [q[0]] + rest;
        assert p[1..] == rest;
      }
      if s != "" {
        EscapedMatchesPrefix(q[1..], s[1..]);
        PrefixStep(q, s);
      }
    }
  }

  lemma PrefixStep(q: string, s: string)
    requires q != "" && s != ""
    ensures OccursAt(s, q, 0) <==> SameLetter(q[0], s[0]) && OccursAt(s[1..], q[1..], 0)
  {
    if SameLetter(q[0], s[0]) && OccursAt(s[1..], q[1..], 0) {
      forall k | 0 <= k < |q| ensures SameLetter(s[0 + k], q[k]) {
        if k > 0 {
          assert SameLetter(s[1..][0 + (k - 1)], q[1..][k - 1]);
        }
      }
    }
    if OccursAt(s, q, 0) {
      assert SameLetter(s[0 + 0], q[0]);
      forall k | 0 <= k < |q| - 1 ensures SameLetter(s[1..][0 + k], q[1..][k]) {
        assert SameLetter(s[0 + (k + 1)], q[k + 1]);
      }
    }
  }

  /** A leading `%` lets the rest match at any later position. */
  lemma {:induction false} LeadingPercent(q: string, s: string)
    ensures Like(['%'] + (Escaped(q) + ['%']), s) <==> ContainsFold(s, q)
  {
    var p := ['%'] + (Escaped(q) + ['%']);
    assert p[1..] == Escaped(q) + ['%'];
    EscapedMatchesPrefix(q, s);
    if s != "" {
      LeadingPercent(q, s[1..]);
      if i :| OccursAt(s[1..], q, i) {
        Shifted(q, s, i + 1);
        assert OccursAt(s, q, i + 1);
      }
      if i :| OccursAt(s, q, i) {
        if i > 0 {
          Shifted(q, s, i);
          assert OccursAt(s[1..], q, i - 1);
        }
      }
    } else {
      if i :| OccursAt(s, q, i) {
        assert OccursAt(s, q, 0);
      }
    }
  }

  lemma Shifted(q: string, s: string, i: int)
    requires s != "" && i >= 1
    ensures OccursAt(s, q, i) <==> OccursAt(s[1..], q, i - 1)
  {
    if i + |q| <= |s| {
      forall k | 0 <= k < |q| ensures SameLetter(s[i + k], q[k]) <==> SameLetter(s[1..][i - 1 + k], q[k]) {
      }
    }
  }

  /** The pattern built from a query matches exactly the strings that contain the query, whatever characters it has. */
  lemma PatternMeansContains(q: string, s: string)
    ensures Like(LikeContains(q), s) <==> ContainsFold(s, q)
  {
    ThreePassesEscapeOnce(q);
    assert LikeContains(q) == ['%'] + (Escaped(q) + ['%']);
    LeadingPercent(q, s);
  }

  // ----- the query over rows -----

  const MAX_QUERY := 200

  /** The query as searched for: blanks trimmed, at most 200 characters. */
  function Query(raw: string): string {
    var q := TrimSpace(raw);
    if |q| > MAX_QUERY then q[..MAX_QUERY] else q
  }

  predicate Public(rec: Record) {
    rec.available && (rec.visibility == PUBLIC || rec.visibility == "")
  }

  /** The WHERE clause. */
  predicate Selected(rec: Record, q: string) {
    Public(rec) && (q != "" ==> Like(LikeContains(q), rec.filename) || Like(LikeContains(q), rec.path))
  }

  function Filter(listing: seq<Record>, q: string): seq<Record> {
    if listing == [] then []
    else (if Selected(listing[0], q) then [listing[0]] else []) + Filter(listing[1..], q)
  }

  function Limit(limit: int): int {
    if limit <= 0 || limit > 80 then 25 else limit
  }

  function Min(a: int, b: int): int {
    if a <= b then a else b
  }

  /** LIMIT and OFFSET. */
  function Slice<T>(rows: seq<T>, offset: int, limit: nat): seq<T> {
    var from := Min(if offset < 0 then 0 else offset, |rows|);
    rows[from..Min(from + limit, |rows|)]
  }

  /** `SearchPublic` over the table listed in its ORDER BY order: one page and the total. */
  function SearchPublic(listing: seq<Record>, raw: string, offset: int, limit: int): (seq<Record>, nat) {
    var found := Filter(listing, Query(raw));
    (Slice(found, offset, Limit(limit)), |found|)
  }

  lemma {:induction false} FilterKeeps(listing: seq<Record>, q: string, rec: Record)
    ensures multiset(Filter(listing, q))[rec] == if Selected(rec, q) then multiset(listing)[rec] else 0
  {
    if listing != [] {
      assert listing == [listing[0]] + listing[1..];
      FilterKeeps(listing[1..], q, rec);
    }
  }

  /** What is searched for is the trimmed text, or its first 200 characters. */
  lemma QueryExactly(raw: string)
    ensures Query(raw) <= TrimSpace(raw)
    ensures |Query(raw)| == if |TrimSpace(raw)| > 200 then 200 else |TrimSpace(raw)|
  {
    hide TrimSpace;
  }

  /** What `SearchPublic` pages through is exactly the public files whose name or path contains the query, each as often
      as it is listed; an empty query selects every public file. */
  lemma SearchFindsExactly(listing: seq<Record>, raw: string, rec: Record)
    ensures multiset(Filter(listing, Query(raw)))[rec] ==
            if rec.available && (rec.visibility == "public" || rec.visibility == "")
               && (Query(raw) == "" || ContainsFold(rec.filename, Query(raw))
                   || ContainsFold(rec.path, Query(raw)))
            then multiset(listing)[rec] else 0
  {
    var q := Query(raw);
    FilterKeeps(listing, q, rec);
    PatternMeansContains(q, rec.filename);
    PatternMeansContains(q, rec.path);
  }

  lemma Times(k: nat, size: nat)
    requires k > 0
    ensures k * size == (k - 1) * size + size && (k - 1) * size >= 0
  {
  }

  lemma NextSlice<T>(rows: seq<T>, at: nat, size: nat)
    ensures rows[..Min(at, |rows|)] + Slice(rows, at, size) == rows[..Min(at + size, |rows|)]
  {
  }

  /** The first `k` pages of `size` rows, one after the other. */
  function Paged<T>(rows: seq<T>, size: nat, k: nat): seq<T> {
    if k == 0 then [] else Paged(rows, size, k - 1) + Slice(rows, (k - 1) * size, size)
  }

  lemma {:induction false} PagedIs<T>(rows: seq<T>, size: nat, k: nat)
    ensures k * size >= 0 && Paged(rows, size, k) == rows[..Min(k * size, |rows|)]
  {
    hide Slice;
    if k > 0 {
      PagedIs(rows, size, k - 1);
      Times(k, size);
      NextSlice(rows, (k - 1) * size, size);
    }
  }

  /** The first `k` pages of a search, one after the other. */
  function FirstPages(listing: seq<Record>, raw: string, limit: int, k: nat): seq<Record> {
    if k == 0 then []
    else FirstPages(listing, raw, limit, k - 1) + SearchPublic(listing, raw, (k - 1) * Limit(limit), limit).0
  }

  lemma {:induction false} FirstPagesArePaged(listing: seq<Record>, raw: string, limit: int, k: nat)
    ensures FirstPages(listing, raw, limit, k) == Paged(Filter(listing, Query(raw)), Limit(limit), k)
  {
    hide Filter, Query, Limit, Slice;
    if k > 0 {
      FirstPagesArePaged(listing, raw, limit, k - 1);
    }
  }

  /** Paging through a search with any limit, each page starting where the one before ended, visits everything selected
      once and in order; the total every page reports is how many there are, and no page holds more than 80. */
  lemma SearchPagesCover(listing: seq<Record>, raw: string, limit: int, k: nat)
    ensures var (page, total) := SearchPublic(listing, raw, (k - 1) * Limit(limit), limit);
      && total == |Filter(listing, Query(raw))| && |page| <= Limit(limit)
      && Limit(limit) == (if 1 <= limit <= 80 then limit else 25)
      && (k * Limit(limit) >= total ==> FirstPages(listing, raw, limit, k) == Filter(listing, Query(raw)))
  {
    assert Limit(limit) == if 1 <= limit <= 80 then limit else 25;
    hide Filter, Query, FirstPages, Paged;
    var found := Filter(listing, Query(raw));
    FirstPagesArePaged(listing, raw, limit, k);
    PagedIs(found, Limit(limit), k);
    assert found[..|found|] == found;
  }
}
