/** The list view: the collection filtered by the search box, cut into pages
    of ten, with one page button per page. */
module Search {
  import opened Rewards
  import opened Text
  import opened Seqs

  /** Rows per page. */
  const PageSize: nat := 10

  function Min(a: int, b: int): int
  {
    if a <= b then a else b
  }

  /** The search rule: the lower-cased term occurs in the lower-cased name or
      in the lower-cased description. */
  function Matches(r: Reward, term: string): (b: bool)
    ensures b <==> Contains(Lower(r.name), Lower(term)) || Contains(Lower(r.description), Lower(term))
  {
    Includes(Lower(r.name), Lower(term)) || Includes(Lower(r.description), Lower(term))
  }

  /** The search ignores the case of the term: a term and its lower-cased form
      select the same rewards. */
  lemma MatchesIgnoresTermCase(r: Reward, term: string)
    ensures Matches(r, term) == Matches(r, Lower(term))
  {
    LowerIdempotent(term);
  }

  /** The rewards the search box keeps, in collection order: a subsequence of
      the collection holding each matching reward as often as the collection
      does, and no reward that does not match. */
  function FilterRewards(rs: seq<Reward>, term: string): (r: seq<Reward>)
    ensures IsSubseq(r, rs)
    ensures forall x :: x in r ==> x in rs && Matches(x, term)
    ensures forall x: Reward :: multiset(r)[x] == (if Matches(x, term) then multiset(rs)[x] else 0)
  {
    Filter((x: Reward) => Matches(x, term), rs)
  }

  /** An empty search box shows the whole collection. */
  lemma EmptyTermKeepsAll(rs: seq<Reward>)
    ensures FilterRewards(rs, "") == rs
  {
    forall x | x in rs ensures Matches(x, "") {
      IncludesEmpty(Lower(x.name));
    }
    FilterKeepsAll((x: Reward) => Matches(x, ""), rs);
  }

  /** The number of page buttons for `n` rows: the least count of ten-row
      pages that holds them all, so zero rows give zero buttons. */
  function PageCount(n: nat): (c: nat)
    ensures c * PageSize >= n
    ensures c > 0 ==> (c - 1) * PageSize < n
    ensures c == 0 <==> n == 0
  {
    (n + PageSize - 1) / PageSize
  }

  /** The rows shown on page `p` (1-based): the slice from `(p - 1) * 10` up to
      `p * 10`, with the browser's slice rules. Real pages are never empty and
      a page past the last button is always empty. */
  function Page<T>(s: seq<T>, p: int): (r: seq<T>)
    ensures |r| <= PageSize
    ensures forall x :: x in r ==> x in s
    ensures p >= 1 ==> r == s[Min((p - 1) * PageSize, |s|)..Min(p * PageSize, |s|)]
    ensures 1 <= p <= PageCount(|s|) ==> r != []
    ensures p > PageCount(|s|) ==> r == []
  {
    var last := p * PageSize;
    var first := last - PageSize;
    Slice(s, first, last)
  }

  /** Pages 1 to `k`, one after another. */
  function Pages<T>(s: seq<T>, k: nat): seq<T>
  {
    if k == 0 then [] else Pages(s, k - 1) + Page(s, k)
  }

  /** The first `k` pages are the first `k * 10` rows. */
  lemma {:induction false} PagesPrefix<T>(s: seq<T>, k: nat)
    ensures Pages(s, k) == s[..Min(k * PageSize, |s|)]
  {
    if k > 0 {
      PagesPrefix(s, k - 1);
      var a := Min((k - 1) * PageSize, |s|);
      var b := Min(k * PageSize, |s|);
      assert s[..a] + s[a..b] == s[..b];
    }
  }

  /** Reading every page button in turn shows each filtered row exactly once,
      in order. */
  lemma PagesCoverAll<T>(s: seq<T>)
    ensures Pages(s, PageCount(|s|)) == s
  {
    PagesPrefix(s, PageCount(|s|));
  }

  /** Twenty-five rows make three buttons; the first page shows rows 1 to 10
      and the third shows rows 21 to 25. */
  lemma TwentyFiveRows<T>(s: seq<T>)
    requires |s| == 25
    ensures PageCount(|s|) == 3
    ensures Page(s, 1) == s[..10]
    ensures Page(s, 3) == s[20..] && |Page(s, 3)| == 5
  {
  }
}
