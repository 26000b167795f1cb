# Pollster polls views in Dafny

A model of the business rules of the `polls` app of a Django polling site
(`polls/views.py`). Users create polls with two choices, the owner of a poll
edits it, adds, edits and deletes its choices, deletes it, and ends it. Every
logged-in user may vote once on a poll. The list of polls can be sorted,
searched and paged.

The model has six modules:

- `Schema` (schema.dfy): the three tables (`Poll`, `Choice`, `Vote`) as maps
  from primary key to row. It also holds the request method, the cleaned form
  data, the view outcomes (`Response`) and the store's invariants:
  - referential integrity (`Consistent`);
  - at most one vote per user and poll (`OneVoteEach`);
  - an ended poll is never reopened (`NoReactivation`);
  - the effect of a cascading delete (`PollRemoved`, `ChoiceRemoved`).
- `Views` (views.dfy): the class `PollStore`, whose fields are the three
  tables and their auto-increment counters. Each mutating view is one method
  with a `modifies` clause: `PollsAdd`, `PollsEdit`, `PollsDelete`,
  `AddChoice`, `ChoiceEdit`, `ChoiceDelete`, `PollVote`, `EndPoll`. Each method
  takes the acting user and the request method as parameters.
  `DoubleVoteScenario` is a client of the class: a user votes twice on one poll
  and only one vote is recorded.
- `Listing` (listing.dfy): the read-only views as functions:
  - `polls_list`: the one ordering applied, the case-insensitive search, and
    the page-link parameters;
  - `list_by_user`;
  - `poll_detail`.
- `Query` (query.dfy): Django's QueryDict as an ordered list of keys with
  their values. It models deleting `page` from a copy and `urlencode`
  (`quote_plus` with UTF-8 escapes, pairs joined by `&`). It also models the
  parse a following request performs, so that the round trip can be proved.
- `Text` (text.dfy): the `icontains` match (an ASCII case fold and a
  substring test).
- `Wrappers` (wrappers.dfy): `Option`.

Three pieces of the source have no visible body, so the model takes the
values they returned as boolean parameters:

- `request.user.has_perm('polls.add_poll')` becomes `canAdd`;
- `form.is_valid()` becomes `formValid`;
- `poll.user_can_vote(user)` becomes `canVote`.

`OneVoteEach` is proved to be kept when `canVote` has its intended meaning,
"the user has no vote on this poll" (`!HasVoted`).

`poll_vote` fetches the choice by its key alone (polls/views.py:215). So the
model records a vote whose choice may belong to another poll, as the code
does. A key that names no choice makes the view fail with
`Choice.DoesNotExist`. The model returns `ServerError` for it and changes
nothing.

Five behaviours of the code are worth noting; the model keeps each of them:

- **Sort keys.** The sort keys are tested with `elif` (polls/views.py:18-23),
  so `name` wins over `date` and `date` wins over `vote`.
- **Voting on a choice of another poll.** The choice is fetched by its key
  alone (polls/views.py:215), so a vote may name a choice of another poll and
  is recorded.
- **`end_poll` on GET.** A GET by the owner shows the results page and changes
  nothing (polls/views.py:233-239).
- **Unknown choice key.** A choice key that names no choice fails the request
  with an unhandled lookup error (polls/views.py:215).
- **Voting on an ended poll.** `poll_vote` never reads `active`
  (polls/views.py:201-218), so a POST records a vote on an ended poll whenever
  `user_can_vote` allows it, although the detail page of an ended poll shows
  only the results.

## Model

| member | source | states |
|---|---|---|
| `Text.Contains` | polls/views.py:27 | the substring test holds exactly when the term occurs at some index of the text |
| `Text.ContainsIgnoreCase` | polls/views.py:27 | `text__icontains`: holds exactly when the case-folded term occurs in the case-folded text |
| `Text.EmptyTermMatches` | polls/views.py:25-27 | an empty search term keeps every poll |
| `Text.CaseBlind` | polls/views.py:27 | folding the case of the text or of the term first does not change the match |
| `Text.FavoriteColorFound` | polls/views.py:25-27 | a poll titled "Favorite Color" is found by the term "color" |
| `Text.FavoriteColorNotFound` | polls/views.py:25-27 | a poll titled "Favorite Color" is not found by the term "xyz" |
| `Query.Lookup` | polls/views.py:18-25 | `k in request.GET` holds exactly when some entry has key `k`; the values returned are those of the first entry with key `k`; a well-formed QueryDict holds at least one value per key |
| `Query.HasKey` | polls/views.py:18-25 | `k in request.GET` holds exactly when some entry has key `k` |
| `Query.LastValue` | polls/views.py:26 | `request.GET['search']` gives a value exactly when the key is present, and that value is the last value of the key's entry |
| `Query.Remove` | polls/views.py:34-36 | after `del copy['page']` the key `page` is gone, every other key keeps its values, no entry is new, and a copy without `page` is unchanged |
| `Query.RemoveWellFormed` | polls/views.py:34-36 | deleting a key keeps each remaining key once and with its values |
| `Query.RemoveIdempotent` | polls/views.py:35-36 | deleting `page` from parameters that no longer have it changes nothing |
| `Query.Quote` | polls/views.py:37 | quoted text holds only unreserved characters, `+` and `%`, so never a separator |
| `Query.UnquoteQuote` | polls/views.py:37 | unquoting undoes `quote_plus` on ASCII text |
| `Query.SplitJoin` | polls/views.py:37 | splitting on `&` undoes the `&`-join of the encoded pairs |
| `Query.GroupPairs` | polls/views.py:34-37 | collecting the key-value pairs of a well-formed QueryDict rebuilds it, including key order and value order |
| `Query.DecodeEncode` | polls/views.py:34-37 | parsing the `&`-joined, quoted pairs of a QueryDict gives back the same QueryDict (ASCII keys and values) |
| `Query.Encode` | polls/views.py:37 | `urlencode`: what it writes parses back into the same QueryDict (ASCII keys and values) |
| `Listing.OrderingOf` | polls/views.py:18-23 | at most one ordering: by text exactly when `name` is given; by date exactly when `date` is given and `name` is not; by vote count exactly when only `vote` is given; otherwise none |
| `Listing.OrderingPrecedence` | polls/views.py:18-23 | adding parameters to a request with `name` keeps the text ordering; adding parameters without `name` to a request with `date` keeps the date ordering |
| `Listing.SearchTerm` | polls/views.py:15-26 | the search term is '' without `search`, and otherwise the last value given for `search` |
| `Listing.PollsList` | polls/views.py:13-44 | the list holds exactly the polls whose text contains the search term (ignoring case); the term is `request.GET['search']`, and without `search` it is empty and the list holds every poll; the ordering is the one `OrderingOf` picks; the page-link parameters are the request's parameters without `page`, url-encoded |
| `Listing.PollsListSameQuery` | polls/views.py:18-37 | the list depends on the request only through the sort keys, the search term and the parameters other than `page` |
| `Listing.PageLinkKeepsList` | polls/views.py:33-37 | for ASCII keys and values, following a page link yields the same ordering, search term, polls and page-link parameters as the request that produced it |
| `Listing.PagedLinkKeepsList` | polls/views.py:30-37 | for ASCII keys and values, a request carrying the page-link parameters plus any `page` value, anywhere among them, gets the same list as the request that produced the link |
| `Listing.PollsOwnedBy` | polls/views.py:48-50 | `list_by_user` lists exactly the polls the user owns |
| `Listing.OthersListKept` | polls/views.py:48-50 | when an actor leaves the other users' polls and choices alone, every other user's `list_by_user` list is unchanged |
| `Listing.PollDetail` | polls/views.py:186-197 | a missing poll is not found; an ended poll always shows the results page; an active poll shows the voting form |
| `Schema.OneVoteCount` | polls/views.py:209-217 | while at most one vote per user and poll is kept, a user's votes on a poll number 1 if the user has voted and 0 otherwise |
| `Schema.PollRemovedKeepsInvariants` | polls/views.py:117-118 | deleting a poll with its cascade leaves no dangling key, adds no vote and reopens no poll |
| `Schema.ChoiceRemovedKeepsInvariants` | polls/views.py:179-180 | deleting a choice with its cascade leaves no dangling key, adds no vote and reopens no poll |
| `Schema.AddVoteKeepsOneEach` | polls/views.py:209-217 | recording a vote for a user with no vote on the poll keeps one vote per user and poll, and afterwards the user has voted |
| `Views.PollStore.InsertPoll` | polls/views.py:70 | `poll.save()` of a new poll adds it under the next free key and changes no other table |
| `Views.PollStore.InsertChoice` | polls/views.py:71-74 | `Choice(...).save()` adds the choice under the next free key and changes no other table |
| `Views.PollStore.InsertVote` | polls/views.py:216-217 | `vote.save()` adds the vote under the next free key and changes no other table |
| `Views.PollStore.DeletePollRow` | polls/views.py:118 | `poll.delete()` removes the poll, its choices, and the votes on it or on its choices; nothing else changes |
| `Views.PollStore.DeleteChoiceRow` | polls/views.py:180 | `choice.delete()` removes the choice and the votes naming it; nothing else changes |
| `Views.PollStore.PollsAdd` | polls/views.py:62-87 | without the permission: the denial text and no change; GET or an invalid form: the form and no change; a valid POST adds exactly one poll (active, owned by the actor) and exactly two choices of that poll with the texts `choice1` and `choice2`, and no vote |
| `Views.PollStore.PollsEdit` | polls/views.py:91-107 | a missing poll is not found; a non-owner is redirected home and nothing changes; only a valid POST by the owner rewrites the poll's text and date, keeping its owner and state; every other request shows the form and changes nothing |
| `Views.PollStore.PollsDelete` | polls/views.py:111-121 | a missing poll is not found; a non-owner changes nothing; a POST by the owner deletes the poll with its cascade and nothing else; any other method by the owner changes nothing |
| `Views.PollStore.AddChoice` | polls/views.py:125-142 | a missing poll is not found; a non-owner changes nothing; a valid POST by the owner adds exactly one choice to that poll and redirects to its edit page; every other request changes nothing |
| `Views.PollStore.ChoiceEdit` | polls/views.py:146-168 | a missing choice is not found; the owner is that of the choice's poll; a non-owner changes nothing; only a valid POST by the owner rewrites the choice's text, keeping its poll |
| `Views.PollStore.ChoiceDelete` | polls/views.py:172-183 | a missing choice is not found; the owner is that of the choice's poll; a non-owner changes nothing; a POST by the owner deletes the choice and the votes naming it; any other method changes nothing |
| `Views.PollStore.PollVote` | polls/views.py:201-222 | non-POST is a bad request; a missing poll is not found; a user who may not vote is sent to the list; no choice sends the user back to the poll; an unknown choice key is a server error; in all of these nothing changes. Otherwise exactly one vote (actor, poll, looked-up choice) is added and polls and choices are unchanged. One vote per user and poll is kept when `canVote` means "has not voted" |
| `Views.PollStore.EndPoll` | polls/views.py:227-239 | a missing poll is not found; a non-owner changes nothing; the owner always gets the results page; a POST by the owner leaves the poll ended, after which its detail page shows the results; on an ended poll nothing changes; choices and votes never change |

Every view method of `Views.PollStore` (all but the row operations) also
ensures `NoReactivation`, so no view sets `active` back to true, and
`Listing.OthersUntouched`, so no view changes or removes a poll the actor
does not own or a choice of such a poll. Every view method except `PollVote`
keeps `OneVoteEach`. Every method keeps the class invariant `Valid()`.

## Left out

- `login_required`, `messages`, templates and redirect targets are framework
  plumbing. A view's outcome is a `Response` value, and the acting user is
  always a logged-in user id.
- Paging by Django's `Paginator` (`get_page` and its clamping) is left out.
  The page sizes 6 and 7 are the constants `POLLS_PER_PAGE` and
  `MY_POLLS_PER_PAGE`.
- `Listing.PollsList` records which `order_by` applies. It does not sort the
  polls, because the database's collation, the vote-count aggregation and its
  tie-breaking are foreign code.
- `Text.ContainsIgnoreCase` folds only the ASCII letters. Full Unicode case
  folding in the database's `icontains` is not modelled.
- `Listing.PageLinkKeepsList` holds only for ASCII keys and values, because
  it rests on the round trip of `Query.Encode`, which is proved only for those.
- `Listing.PagedLinkKeepsList` holds only for ASCII keys and values, for the
  same reason.
- `Query.Encode` promises the round trip only for ASCII keys and values,
  for the same reason as `Query.DecodeEncode` below.
- `Query.DecodeEncode` is proved only for ASCII keys and values. The model's
  parser undoes only ASCII escapes and does not reassemble UTF-8 sequences.
  `Encode` does write UTF-8 escapes for every character.
- `user_can_vote`, `has_perm` and `form.is_valid()` have no visible body. They
  are boolean parameters; nothing is assumed about how they are computed.
- models.py and forms.py are not part of this model. The model assumes:
  - every foreign key cascades on delete;
  - a new poll starts active;
  - the creation form supplies the text, the date and two choice texts;
  - the edit form supplies the text and the date;
  - the choice form supplies the choice text.
- The choice key posted to `poll_vote` is `Option<ChoiceId>`. `None` stands
  for a missing or empty field. A non-numeric key also ends in a lookup
  failure; the model does not represent it separately.
- The check-then-insert race between concurrent votes is a concurrency
  concern outside this sequential model.
- accounts/views.py, accounts/urls.py and core/urls.py are not part of this
  model. They are registration and login through Django's own forms, and URL
  routing.
