/**
 * The repository listing (`get_lyall_repos`, without the HTTP client): pages
 * are read in order until the first empty one, repositories whose name marks
 * them as a fix, patch or tweak are kept, and each is normalised into a
 * listing entry with its derived title and default fields.
 */
module Catalog {
  import opened Wrappers
  import opened Text
  import opened GameName

  /** A JSON member as `dict.get` sees it: absent, `null`, or a string. */
  datatype Field = Absent | Null | Str(text: string)

  /** One repository object of a catalog page. */
  datatype RawRepo = RawRepo(name: string, description: Field, updatedAt: Field)

  /** One page request: its JSON list, or a failed request / unreadable body. */
  datatype PageResponse = Page(repos: seq<RawRepo>) | HttpError

  /** One entry of the listing; `None` stands for a JSON `null` that was passed through. */
  datatype Listing = Listing(repo: string, gameTitle: string, description: Option<string>, updatedAt: Option<string>)

  const DefaultUpdatedAt: string := "1970-01-01"

  /** `repo.get(key, default)`. */
  function GetOr(f: Field, default: string): Option<string>
  {
    match f
    case Absent => Some(default)
    case Null => None
    case Str(t) => Some(t)
  }

  /** The repository is a fix: its name contains "Fix", "Patch" or "Tweak", case-sensitively. */
  predicate IsFixRepo(r: RawRepo) {
    Contains(r.name, "Fix") || Contains(r.name, "Patch") || Contains(r.name, "Tweak")
  }

  /** The listing entry built for one repository. */
  function Normalize(r: RawRepo): (l: Listing)
    ensures l.repo == r.name
    ensures l.gameTitle == GameTitle(r.name, GetOr(r.description, ""))
    ensures r.updatedAt.Absent? ==> l.updatedAt == Some(DefaultUpdatedAt)
    ensures r.description.Absent? ==> l.description == Some("")
  {
    var description := GetOr(r.description, "");
    Listing(r.name, GameTitle(r.name, description), description, GetOr(r.updatedAt, DefaultUpdatedAt))
  }

  /** The images under `f` of the elements of `xs` that satisfy `keep`, in order. */
  function KeepMap<A, B>(xs: seq<A>, keep: A -> bool, f: A -> B): seq<B>
    decreases |xs|
  {
    if xs == [] then [] else (if keep(xs[0]) then [f(xs[0])] else []) + KeepMap(xs[1..], keep, f)
  }

  lemma {:induction false} KeepMapAppend<A, B>(a: seq<A>, b: seq<A>, keep: A -> bool, f: A -> B)
    ensures KeepMap(a + b, keep, f) == KeepMap(a, keep, f) + KeepMap(b, keep, f)
    decreases |a|
  {
    if a == [] {
      assert a + b == b;
    } else {
      var head := if keep(a[0]) then [f(a[0])] else [];
      assert (a + b)[0] == a[0];
      assert (a + b)[1..] == a[1..] + b;
      KeepMapAppend(a[1..], b, keep, f);
      calc {
        KeepMap(a + b, keep, f);
        head + KeepMap(a[1..] + b, keep, f);
        head + (KeepMap(a[1..], keep, f) + KeepMap(b, keep, f));
        (head + KeepMap(a[1..], keep, f)) + KeepMap(b, keep, f);
      }
    }
  }

  lemma KeepMapSnoc<A, B>(xs: seq<A>, x: A, keep: A -> bool, f: A -> B)
    ensures KeepMap(xs + [x], keep, f) == KeepMap(xs, keep, f) + (if keep(x) then [f(x)] else [])
  {
    KeepMapAppend(xs, [x], keep, f);
    assert KeepMap([x], keep, f) == (if keep(x) then [f(x)] else []) + KeepMap([], keep, f);
  }

  lemma {:induction false} KeepMapMembers<A, B>(xs: seq<A>, keep: A -> bool, f: A -> B, y: B)
    ensures y in KeepMap(xs, keep, f) <==> exists i :: 0 <= i < |xs| && keep(xs[i]) && y == f(xs[i])
    decreases |xs|
  {
    if xs != [] {
      var tail := xs[1..];
      KeepMapMembers(tail, keep, f, y);
      if y in KeepMap(tail, keep, f) {
        var i :| 0 <= i < |tail| && keep(tail[i]) && y == f(tail[i]);
        assert xs[i + 1] == tail[i];
      }
      if exists i :: 0 <= i < |xs| && keep(xs[i]) && y == f(xs[i]) {
        var i :| 0 <= i < |xs| && keep(xs[i]) && y == f(xs[i]);
        if i > 0 {
          assert tail[i - 1] == xs[i];
        }
      }
    }
  }

  lemma {:induction false} KeepMapLength<A, B>(xs: seq<A>, keep: A -> bool, f: A -> B)
    ensures |KeepMap(xs, keep, f)| <= |xs|
    decreases |xs|
  {
    if xs != [] {
      KeepMapLength(xs[1..], keep, f);
    }
  }

  lemma {:induction false} KeepMapAll<A, B>(xs: seq<A>, keep: A -> bool, f: A -> B)
    requires forall i :: 0 <= i < |xs| ==> keep(xs[i])
    ensures |KeepMap(xs, keep, f)| == |xs|
    ensures forall i :: 0 <= i < |xs| ==> KeepMap(xs, keep, f)[i] == f(xs[i])
    decreases |xs|
  {
    if xs != [] {
      var tail := xs[1..];
      forall i | 0 <= i < |tail| ensures keep(tail[i]) {
        assert tail[i] == xs[i + 1];
      }
      KeepMapAll(tail, keep, f);
      assert keep(xs[0]);
      forall i | 0 <= i < |xs| ensures KeepMap(xs, keep, f)[i] == f(xs[i]) {
        if i > 0 {
          assert xs[i] == tail[i - 1];
        }
      }
    }
  }

  lemma {:induction false} KeepMapNone<A, B>(xs: seq<A>, keep: A -> bool, f: A -> B)
    requires forall i :: 0 <= i < |xs| ==> !keep(xs[i])
    ensures KeepMap(xs, keep, f) == []
    decreases |xs|
  {
    if xs != [] {
      var tail := xs[1..];
      forall i | 0 <= i < |tail| ensures !keep(tail[i]) {
        assert tail[i] == xs[i + 1];
      }
      KeepMapNone(tail, keep, f);
      assert !keep(xs[0]);
    }
  }

  /** The entries for the fix repositories among `rs`, in their order. */
  function FixListings(rs: seq<RawRepo>): seq<Listing>
  {
    KeepMap(rs, IsFixRepo, Normalize)
  }

  /** The repositories of all pages read: everything before the first empty
      page, or `None` when a request fails first. Past the last response the
      catalog answers with an empty page. */
  function Consumed(pages: seq<PageResponse>): Option<seq<RawRepo>>
  {
    if pages == [] then Some([])
    else match pages[0]
      case HttpError => None
      case Page(rs) =>
        if rs == [] then Some([])
        else match Consumed(pages[1..])
          case None => None
          case Some(rest) => Some(rs + rest)
  }

  /** What the listing returns: a failure anywhere discards everything. */
  function RepoListing(pages: seq<PageResponse>): seq<Listing>
  {
    match Consumed(pages)
    case None => []
    case Some(rs) => FixListings(rs)
  }

  /** The final listing, given the entries collected so far and what the remaining pages yield. */
  function Resume(acc: seq<Listing>, rest: Option<seq<RawRepo>>): seq<Listing>
  {
    match rest
    case None => []
    case Some(rs) => acc + FixListings(rs)
  }

  /** The body of the page loop: `for repo in data`, keeping the fix repositories. */
  method CollectPage(data: seq<RawRepo>) returns (entries: seq<Listing>)
    ensures entries == FixListings(data)
  {
    entries := [];
    var k := 0;
    while k < |data|
      invariant 0 <= k <= |data|
      invariant entries == FixListings(data[..k])
    {
      var repo := data[k];
      assert data[..k + 1] == data[..k] + [repo];
      KeepMapSnoc(data[..k], repo, IsFixRepo, Normalize);
      if IsFixRepo(repo) {
        var description := GetOr(repo.description, "");
        var gameTitle := ParseGameName(repo.name, description);
        entries := entries + [Listing(repo.name, gameTitle, description, GetOr(repo.updatedAt, DefaultUpdatedAt))];
      }
      k := k + 1;
    }
    assert data[..k] == data;
  }

  /** One turn of the page loop: a failed request discards everything, an empty
      page ends the listing, any other page adds its fix entries and moves on. */
  lemma ResumeStep(acc: seq<Listing>, p: PageResponse, rest: seq<PageResponse>)
    ensures p.HttpError? ==> Resume(acc, Consumed([p] + rest)) == []
    ensures p == Page([]) ==> Resume(acc, Consumed([p] + rest)) == acc
    ensures p.Page? && p.repos != [] ==>
              Resume(acc, Consumed([p] + rest)) == Resume(acc + FixListings(p.repos), Consumed(rest))
  {
    assert ([p] + rest)[0] == p && ([p] + rest)[1..] == rest;
    if p.Page? && p.repos != [] && Consumed(rest).Some? {
      KeepMapAppend(p.repos, Consumed(rest).value, IsFixRepo, Normalize);
    }
  }

  /** `get_lyall_repos`: request pages in order until an empty one, collecting
      the fix repositories of each; a failed request yields the empty list. */
  method GetLyallRepos(pages: seq<PageResponse>) returns (results: seq<Listing>)
    ensures results == RepoListing(pages)
  {
    results := [];
    var page := 0;
    while page < |pages|
      invariant 0 <= page <= |pages|
      invariant RepoListing(pages) == Resume(results, Consumed(pages[page..]))
    {
      assert pages[page..] == [pages[page]] + pages[page + 1..];
      ResumeStep(results, pages[page], pages[page + 1..]);
      if pages[page].HttpError? {
        return [];
      }
      var data := pages[page].repos;
      if data == [] {
        return;
      }
      var entries := CollectPage(data);
      results := results + entries;
      page := page + 1;
    }
  }

  /** Exactly the fix repositories of the pages read end up in the listing. */
  lemma FixListingsMembers(rs: seq<RawRepo>, l: Listing)
    ensures l in FixListings(rs) <==> exists i :: 0 <= i < |rs| && IsFixRepo(rs[i]) && l == Normalize(rs[i])
  {
    KeepMapMembers(rs, IsFixRepo, Normalize, l);
  }

  /** The listing is never longer than the repositories read. */
  lemma FixListingsLength(rs: seq<RawRepo>)
    ensures |FixListings(rs)| <= |rs|
  {
    KeepMapLength(rs, IsFixRepo, Normalize);
  }

  /** When every repository is a fix, the listing corresponds to them one to one,
      position by position. */
  lemma FixListingsAllFix(rs: seq<RawRepo>)
    requires forall i :: 0 <= i < |rs| ==> IsFixRepo(rs[i])
    ensures |FixListings(rs)| == |rs|
    ensures forall i :: 0 <= i < |rs| ==> FixListings(rs)[i] == Normalize(rs[i])
  {
    KeepMapAll(rs, IsFixRepo, Normalize);
  }

  /** When no repository is a fix, the listing is empty. */
  lemma FixListingsNoFix(rs: seq<RawRepo>)
    requires forall i :: 0 <= i < |rs| ==> !IsFixRepo(rs[i])
    ensures FixListings(rs) == []
  {
    KeepMapNone(rs, IsFixRepo, Normalize);
  }

  /** Pages before the first empty one are read in order and concatenated; the
      listing is the entries of the first page, then those of the next, and so on. */
  lemma {:induction false} ConsumedPages(p: PageResponse, rest: seq<PageResponse>)
    requires p.Page? && p.repos != []
    ensures Consumed([p] + rest) == (match Consumed(rest) case None => None case Some(rs) => Some(p.repos + rs))
    ensures Consumed(rest).Some? ==> RepoListing([p] + rest) == FixListings(p.repos) + RepoListing(rest)
  {
    assert ([p] + rest)[1..] == rest;
    if Consumed(rest).Some? {
      KeepMapAppend(p.repos, Consumed(rest).value, IsFixRepo, Normalize);
    }
  }

  /** No page after the first empty one is consumed: whatever follows it is irrelevant. */
  lemma {:induction false} StopsAtEmptyPage(before: seq<PageResponse>, after1: seq<PageResponse>, after2: seq<PageResponse>)
    ensures Consumed(before + [Page([])] + after1) == Consumed(before + [Page([])] + after2)
    ensures RepoListing(before + [Page([])] + after1) == RepoListing(before + [Page([])] + after2)
    decreases |before|
  {
    if before == [] {
      assert (before + [Page([])] + after1)[0] == Page([]);
      assert (before + [Page([])] + after2)[0] == Page([]);
    } else {
      assert (before + [Page([])] + after1)[1..] == before[1..] + [Page([])] + after1;
      assert (before + [Page([])] + after2)[1..] == before[1..] + [Page([])] + after2;
      StopsAtEmptyPage(before[1..], after1, after2);
    }
  }

  /** A failed request before the first empty page empties the whole listing. */
  lemma {:induction false} ErrorDiscardsAll(before: seq<PageResponse>, after: seq<PageResponse>)
    requires forall i :: 0 <= i < |before| ==> before[i].Page? && before[i].repos != []
    ensures Consumed(before + [HttpError] + after).None?
    ensures RepoListing(before + [HttpError] + after) == []
    decreases |before|
  {
    if before == [] {
      assert (before + [HttpError] + after)[0] == HttpError;
    } else {
      assert (before + [HttpError] + after)[1..] == before[1..] + [HttpError] + after;
      ErrorDiscardsAll(before[1..], after);
      assert before[0] == (before + [HttpError] + after)[0];
    }
  }
}
