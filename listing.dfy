/** The read-only views: the poll list with its sort, search and page-link
    parameters (`polls_list`), the owner's list (`list_by_user`) and the
    detail page (`poll_detail`). */
module Listing {
  import opened Wrappers
  import opened Text
  import opened Query
  import opened Schema

  /** Page sizes of the two lists; paging itself is done by Django's Paginator. */
  const POLLS_PER_PAGE := 6
  const MY_POLLS_PER_PAGE := 7

  /** The one `order_by` applied to the list, if any. */
  datatype Ordering = StoreOrder | ByText | ByPubDate | ByVoteCount

  /** `name` wins over `date`, which wins over `vote`; with none of them the
      store's default order stands. */
  function OrderingOf(q: QueryDict): (o: Ordering)
    ensures o == ByText <==> HasKey(q, "name")
    ensures o == ByPubDate <==> !HasKey(q, "name") && HasKey(q, "date")
    ensures o == ByVoteCount <==> !HasKey(q, "name") && !HasKey(q, "date") && HasKey(q, "vote")
    ensures o == StoreOrder <==> !HasKey(q, "name") && !HasKey(q, "date") && !HasKey(q, "vote")
  {
    if HasKey(q, "name") then ByText
    else if HasKey(q, "date") then ByPubDate
    else if HasKey(q, "vote") then ByVoteCount
    else StoreOrder
  }

  lemma HasKeyAppend(q: QueryDict, extra: QueryDict, k: string)
    ensures HasKey(q + extra, k) <==> HasKey(q, k) || HasKey(extra, k)
  {
    if HasKey(q, k) {
      var i :| 0 <= i < |q| && q[i].key == k;
      assert (q + extra)[i].key == k;
    }
    if HasKey(extra, k) {
      var i :| 0 <= i < |extra| && extra[i].key == k;
      assert (q + extra)[|q| + i].key == k;
    }
  }

  /** Parameters added to a request never displace a higher-ranked sort key:
      once `name` is given the list is ordered by text, and once `date` is
      given it is ordered by date unless `name` is added. */
  lemma OrderingPrecedence(q: QueryDict, extra: QueryDict)
    ensures HasKey(q, "name") ==> OrderingOf(q + extra) == ByText
    ensures HasKey(q, "date") && !HasKey(extra, "name") && !HasKey(q, "name") ==>
      OrderingOf(q + extra) == ByPubDate
  {
    HasKeyAppend(q, extra, "name");
    HasKeyAppend(q, extra, "date");
  }

  /** `request.GET['search']` when present, and '' otherwise. */
  function SearchTerm(q: QueryDict): (r: string)
    ensures !HasKey(q, "search") ==> r == ""
    ensures WellFormed(q) ==> forall i :: 0 <= i < |q| && q[i].key == "search" ==>
      r == q[i].values[|q[i].values| - 1]
  {
    match LastValue(q, "search")
    case Some(t) => t
    case None => ""
  }

  lemma EmptyTermMatchesAll(polls: map<PollId, Poll>)
    ensures forall id :: id in polls ==> ContainsIgnoreCase(polls[id].text, "")
  {
    forall id | id in polls
      ensures ContainsIgnoreCase(polls[id].text, "")
    {
      EmptyTermMatches(polls[id].text);
    }
  }

  /** What `polls_list` hands to its template: the ordering, the search
      term, the polls on the list and the page-link parameters. */
  datatype ListView = ListView(ordering: Ordering, searchTerm: string, polls: set<PollId>, params: string)

  function PollsList(polls: map<PollId, Poll>, q: QueryDict): (v: ListView)
    ensures v.ordering == OrderingOf(q)
    ensures v.searchTerm == SearchTerm(q)
    ensures forall id :: id in v.polls <==> id in polls && ContainsIgnoreCase(polls[id].text, v.searchTerm)
    ensures !HasKey(q, "search") ==> v.searchTerm == "" && v.polls == polls.Keys
    ensures v.params == Encode(Remove(q, "page"))
  {
    var term := SearchTerm(q);
    var found :=
      if HasKey(q, "search") then set id | id in polls && ContainsIgnoreCase(polls[id].text, term)
      else polls.Keys;
    EmptyTermMatchesAll(polls);
    ListView(OrderingOf(q), term, found, Encode(Remove(q, "page")))
  }

  /** The list depends on the query only through the sort keys, the search
      term and the parameters other than `page`. */
  lemma PollsListSameQuery(polls: map<PollId, Poll>, q1: QueryDict, q2: QueryDict)
    requires OrderingOf(q1) == OrderingOf(q2)
    requires HasKey(q1, "search") == HasKey(q2, "search")
    requires SearchTerm(q1) == SearchTerm(q2)
    requires Remove(q1, "page") == Remove(q2, "page")
    ensures PollsList(polls, q1) == PollsList(polls, q2)
  {
  }

  /** Following a page link keeps the list: the parameters it carries give
      the same ordering, search term, polls and page-link parameters as the
      request that produced it. */
  lemma PageLinkKeepsList(polls: map<PollId, Poll>, q: QueryDict)
    requires WellFormed(q) && AsciiQuery(q)
    ensures PollsList(polls, Decode(PollsList(polls, q).params)) == PollsList(polls, q)
  {
    var r := Remove(q, "page");
    var v := PollsList(polls, q);
    assert v.params == Encode(r);
    RemoveWellFormed(q, "page");
    RemoveAscii(q, "page");
    assert Decode(v.params) == r;
    SameKeysAfterRemove(q);
    PollsListSameQuery(polls, r, q);
  }

  /** Whatever `page` value a request adds to the page-link parameters,
      and wherever it adds it, the list stays the one the link came from. */
  lemma PagedLinkKeepsList(polls: map<PollId, Poll>, q: QueryDict, link: QueryDict)
    requires WellFormed(q) && AsciiQuery(q)
    requires Remove(link, "page") == Decode(PollsList(polls, q).params)
    ensures PollsList(polls, link) == PollsList(polls, q)
  {
    RemoveWellFormed(q, "page");
    RemoveAscii(q, "page");
    assert Remove(link, "page") == Remove(q, "page");
    SameKeysAfterRemove(link);
    SameKeysAfterRemove(q);
    PollsListSameQuery(polls, link, q);
  }

  lemma KeyKept(q: QueryDict, k: string)
    requires k != "page"
    ensures Lookup(Remove(q, "page"), k) == Lookup(q, k)
  {
  }

  lemma SameKeysAfterRemove(q: QueryDict)
    ensures OrderingOf(Remove(q, "page")) == OrderingOf(q)
    ensures HasKey(Remove(q, "page"), "search") == HasKey(q, "search")
    ensures SearchTerm(Remove(q, "page")) == SearchTerm(q)
    ensures Remove(Remove(q, "page"), "page") == Remove(q, "page")
  {
    KeyKept(q, "name");
    KeyKept(q, "date");
    KeyKept(q, "vote");
    KeyKept(q, "search");
  }

  /** `list_by_user`: the polls the user owns. */
  function PollsOwnedBy(polls: map<PollId, Poll>, user: UserId): (r: set<PollId>)
    ensures forall id :: id in r <==> id in polls && polls[id].owner == user
  {
    set id | id in polls && polls[id].owner == user
  }

  /** What an owner-gated store keeps for everyone but the acting user:
      every poll the actor does not own, and every choice of such a poll,
      stays as it was, and no poll owned by someone else appears. */
  ghost predicate OthersUntouched(before: Db, after: Db, actor: UserId)
  {
    var owned := PollsOwnedBy(before.polls, actor);
    && (forall p :: p in before.polls && p !in owned ==> p in after.polls && after.polls[p] == before.polls[p])
    && (forall p :: p in after.polls && after.polls[p].owner != actor ==>
          p in before.polls && before.polls[p] == after.polls[p])
    && (forall c :: c in before.choices && before.choices[c].poll !in owned ==>
          c in after.choices && after.choices[c] == before.choices[c])
  }

  /** Another user's `list_by_user` page is unchanged by anything the
      actor does that leaves the others' rows alone. */
  lemma OthersListKept(before: Db, after: Db, actor: UserId, user: UserId)
    requires OthersUntouched(before, after, actor) && user != actor
    ensures PollsOwnedBy(after.polls, user) == PollsOwnedBy(before.polls, user)
  {
    var owned := PollsOwnedBy(before.polls, actor);
    forall id | id in PollsOwnedBy(before.polls, user)
      ensures id in PollsOwnedBy(after.polls, user)
    {
      assert id !in owned;
    }
  }

  /** `poll_detail`: an ended poll only ever shows its results; an active
      one shows the voting form. */
  function PollDetail(polls: map<PollId, Poll>, pid: PollId): (r: Response)
    ensures pid !in polls <==> r == NotFound
    ensures pid in polls && !polls[pid].active <==> r == ShowResults
    ensures pid in polls && polls[pid].active <==> r == ShowVoting
  {
    if pid !in polls then NotFound
    else if !polls[pid].active then ShowResults
    else ShowVoting
  }
}
