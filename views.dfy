/** The state-changing views of the polls app, as methods on an in-memory
    store of the three tables. Each takes the acting user and the request
    method explicitly; `has_perm`, `form.is_valid()` and `user_can_vote`
    arrive as the booleans they returned, and a form's cleaned data as a
    value. */
module Views {
  import opened Wrappers
  import opened Schema
  import Listing

  class PollStore {
    var polls: map<PollId, Poll>
    var choices: map<ChoiceId, Choice>
    var votes: map<VoteId, Vote>
    // the next auto-increment primary key of each table
    var nextPollId: nat
    var nextChoiceId: nat
    var nextVoteId: nat

    function State(): Db
      reads this
    {
      Db(polls, choices, votes)
    }

    /** Referential integrity, and every key below its table's counter. */
    ghost predicate Valid()
      reads this
    {
      && Consistent(State())
      && (forall id :: id in polls ==> id < nextPollId)
      && (forall id :: id in choices ==> id < nextChoiceId)
      && (forall id :: id in votes ==> id < nextVoteId)
    }

    constructor ()
      ensures Valid()
      ensures polls == map[] && choices == map[] && votes == map[]
      ensures nextPollId == 1 && nextChoiceId == 1 && nextVoteId == 1
    {
      polls, choices, votes := map[], map[], map[];
      nextPollId, nextChoiceId, nextVoteId := 1, 1, 1;
    }

    // -------------------------------------------------------------------
    // Row operations: what `save()` and `delete()` do to the tables

    /** Saving a new poll gives it a fresh key. */
    method InsertPoll(p: Poll) returns (id: PollId)
      requires Valid()
      modifies this
      ensures Valid()
      ensures id == old(nextPollId) && id !in old(polls)
      ensures polls == old(polls)[id := p]
      ensures choices == old(choices) && votes == old(votes)
      ensures nextChoiceId == old(nextChoiceId)
    {
      id := nextPollId;
      polls := polls[id := p];
      nextPollId := nextPollId + 1;
    }

    /** Saving a new choice of an existing poll gives it a fresh key. */
    method InsertChoice(c: Choice) returns (id: ChoiceId)
      requires Valid() && c.poll in polls
      modifies this
      ensures Valid()
      ensures id == old(nextChoiceId) && id !in old(choices)
      ensures choices == old(choices)[id := c]
      ensures polls == old(polls) && votes == old(votes)
      ensures nextChoiceId == old(nextChoiceId) + 1
    {
      id := nextChoiceId;
      choices := choices[id := c];
      nextChoiceId := nextChoiceId + 1;
    }

    /** Saving a new vote on existing rows gives it a fresh key. */
    method InsertVote(v: Vote) returns (id: VoteId)
      requires Valid() && v.poll in polls && v.choice in choices
      modifies this
      ensures Valid()
      ensures id == old(nextVoteId) && id !in old(votes)
      ensures votes == old(votes)[id := v]
      ensures polls == old(polls) && choices == old(choices)
    {
      id := nextVoteId;
      votes := votes[id := v];
      nextVoteId := nextVoteId + 1;
    }

    /** Deleting a poll deletes the votes on it and on its choices, then its
        choices, then the poll. */
    method DeletePollRow(pid: PollId)
      requires Valid()
      modifies this
      ensures Valid()
      ensures PollRemoved(old(State()), State(), pid)
    {
      var doomed := set c | c in choices && choices[c].poll == pid;
      votes := map v | v in votes && votes[v].poll != pid && votes[v].choice !in doomed :: votes[v];
      choices := map c | c in choices && c !in doomed :: choices[c];
      polls := polls - {pid};
    }

    /** Deleting a choice deletes the votes naming it, then the choice. */
    method DeleteChoiceRow(cid: ChoiceId)
      requires Valid()
      modifies this
      ensures Valid()
      ensures ChoiceRemoved(old(State()), State(), cid)
    {
      votes := map v | v in votes && votes[v].choice != cid :: votes[v];
      choices := choices - {cid};
    }

    // -------------------------------------------------------------------
    // The views

    /** `polls_add`: with the add-poll permission and a valid POST, one
        poll owned by the actor and its two choices are created. */
    method PollsAdd(actor: UserId, canAdd: bool, verb: HttpMethod, formValid: bool, form: PollForm)
      returns (resp: Response)
      requires Valid()
      modifies this
      ensures Valid()
      ensures !canAdd ==> resp == NoPermission && State() == old(State())
      ensures canAdd && (verb != Post || !formValid) ==> resp == ShowForm && State() == old(State())
      ensures canAdd && verb == Post && formValid ==>
        var pid, c1 := old(nextPollId), old(nextChoiceId);
        && resp == RedirectList
        && pid !in old(polls) && c1 !in old(choices) && c1 + 1 !in old(choices)
        && polls == old(polls)[pid := Poll(form.text, form.pubDate, true, actor)]
        && choices == old(choices)[c1 := Choice(pid, form.choice1)][c1 + 1 := Choice(pid, form.choice2)]
        && votes == old(votes)
      ensures NoReactivation(old(State()), State())
      ensures Listing.OthersUntouched(old(State()), State(), actor)
      ensures OneVoteEach(old(State())) ==> OneVoteEach(State())
    {
      if !canAdd {
        return NoPermission;
      }
      if verb != Post || !formValid {
        return ShowForm;
      }
      var pid := InsertPoll(Poll(form.text, form.pubDate, true, actor));
      var c1 := InsertChoice(Choice(pid, form.choice1));
      var c2 := InsertChoice(Choice(pid, form.choice2));
      resp := RedirectList;
    }

    /** `polls_edit`: only the owner, and only a valid POST, changes the
        poll's text and date; its owner and state stay. */
    method PollsEdit(actor: UserId, verb: HttpMethod, pid: PollId, formValid: bool, edit: PollEdit)
      returns (resp: Response)
      requires Valid()
      modifies this
      ensures Valid()
      ensures pid !in old(polls) ==> resp == NotFound && State() == old(State())
      ensures pid in old(polls) && actor != old(polls)[pid].owner ==>
        resp == RedirectHome && State() == old(State())
      ensures pid in old(polls) && actor == old(polls)[pid].owner ==>
        if verb == Post && formValid then
          && resp == RedirectList
          && polls == old(polls)[pid := old(polls)[pid].(text := edit.text, pubDate := edit.pubDate)]
          && choices == old(choices) && votes == old(votes)
        else
          resp == ShowForm && State() == old(State())
      ensures NoReactivation(old(State()), State())
      ensures Listing.OthersUntouched(old(State()), State(), actor)
      ensures OneVoteEach(old(State())) ==> OneVoteEach(State())
    {
      if pid !in polls {
        return NotFound;
      }
      var poll := polls[pid];
      if actor != poll.owner {
        return RedirectHome;
      }
      if verb == Post && formValid {
        polls := polls[pid := poll.(text := edit.text, pubDate := edit.pubDate)];
        return RedirectList;
      }
      resp := ShowForm;
    }

    /** `polls_delete`: only the owner, and only by POST, deletes the poll
        (with its choices and votes). */
    method PollsDelete(actor: UserId, verb: HttpMethod, pid: PollId) returns (resp: Response)
      requires Valid()
      modifies this
      ensures Valid()
      ensures pid !in old(polls) ==> resp == NotFound && State() == old(State())
      ensures pid in old(polls) && actor != old(polls)[pid].owner ==>
        resp == RedirectHome && State() == old(State())
      ensures pid in old(polls) && actor == old(polls)[pid].owner ==>
        && resp == RedirectList
        && (verb == Post ==> PollRemoved(old(State()), State(), pid))
        && (verb != Post ==> State() == old(State()))
      ensures NoReactivation(old(State()), State())
      ensures Listing.OthersUntouched(old(State()), State(), actor)
      ensures OneVoteEach(old(State())) ==> OneVoteEach(State())
    {
      if pid !in polls {
        return NotFound;
      }
      if actor != polls[pid].owner {
        return RedirectHome;
      }
      if verb == Post {
        ghost var before := State();
        DeletePollRow(pid);
        PollRemovedKeepsInvariants(before, State(), pid);
      }
      resp := RedirectList;
    }

    /** `add_choice`: only the owner, and only a valid POST, adds one choice
        to the poll. */
    method AddChoice(actor: UserId, verb: HttpMethod, pid: PollId, formValid: bool, text: string)
      returns (resp: Response)
      requires Valid()
      modifies this
      ensures Valid()
      ensures pid !in old(polls) ==> resp == NotFound && State() == old(State())
      ensures pid in old(polls) && actor != old(polls)[pid].owner ==>
        resp == RedirectHome && State() == old(State())
      ensures pid in old(polls) && actor == old(polls)[pid].owner ==>
        if verb == Post && formValid then
          && resp == RedirectEdit(pid)
          && old(nextChoiceId) !in old(choices)
          && choices == old(choices)[old(nextChoiceId) := Choice(pid, text)]
          && polls == old(polls) && votes == old(votes)
        else
          resp == ShowForm && State() == old(State())
      ensures NoReactivation(old(State()), State())
      ensures Listing.OthersUntouched(old(State()), State(), actor)
      ensures OneVoteEach(old(State())) ==> OneVoteEach(State())
    {
      if pid !in polls {
        return NotFound;
      }
      if actor != polls[pid].owner {
        return RedirectHome;
      }
      if verb == Post && formValid {
        var cid := InsertChoice(Choice(pid, text));
        return RedirectEdit(pid);
      }
      resp := ShowForm;
    }

    /** `choice_edit`: the owner is that of the choice's poll; only the
        owner, and only a valid POST, changes the choice's text. */
    method ChoiceEdit(actor: UserId, verb: HttpMethod, cid: ChoiceId, formValid: bool, text: string)
      returns (resp: Response)
      requires Valid()
      modifies this
      ensures Valid()
      ensures cid !in old(choices) ==> resp == NotFound && State() == old(State())
      ensures cid in old(choices) && actor != old(polls)[old(choices)[cid].poll].owner ==>
        resp == RedirectHome && State() == old(State())
      ensures cid in old(choices) && actor == old(polls)[old(choices)[cid].poll].owner ==>
        if verb == Post && formValid then
          && resp == RedirectEdit(old(choices)[cid].poll)
          && choices == old(choices)[cid := old(choices)[cid].(text := text)]
          && polls == old(polls) && votes == old(votes)
        else
          resp == ShowForm && State() == old(State())
      ensures NoReactivation(old(State()), State())
      ensures Listing.OthersUntouched(old(State()), State(), actor)
      ensures OneVoteEach(old(State())) ==> OneVoteEach(State())
    {
      if cid !in choices {
        return NotFound;
      }
      var choice := choices[cid];
      var pid := choice.poll;
      if actor != polls[pid].owner {
        return RedirectHome;
      }
      if verb == Post && formValid {
        choices := choices[cid := choice.(text := text)];
        return RedirectEdit(pid);
      }
      resp := ShowForm;
    }

    /** `choice_delete`: the owner is that of the choice's poll; only the
        owner, and only by POST, deletes the choice (with its votes). */
    method ChoiceDelete(actor: UserId, verb: HttpMethod, cid: ChoiceId) returns (resp: Response)
      requires Valid()
      modifies this
      ensures Valid()
      ensures cid !in old(choices) ==> resp == NotFound && State() == old(State())
      ensures cid in old(choices) && actor != old(polls)[old(choices)[cid].poll].owner ==>
        resp == RedirectHome && State() == old(State())
      ensures cid in old(choices) && actor == old(polls)[old(choices)[cid].poll].owner ==>
        && resp == RedirectEdit(old(choices)[cid].poll)
        && (verb == Post ==> ChoiceRemoved(old(State()), State(), cid))
        && (verb != Post ==> State() == old(State()))
      ensures NoReactivation(old(State()), State())
      ensures Listing.OthersUntouched(old(State()), State(), actor)
      ensures OneVoteEach(old(State())) ==> OneVoteEach(State())
    {
      if cid !in choices {
        return NotFound;
      }
      var pid := choices[cid].poll;
      if actor != polls[pid].owner {
        return RedirectHome;
      }
      if verb == Post {
        ghost var before := State();
        DeleteChoiceRow(cid);
        ChoiceRemovedKeepsInvariants(before, State(), cid);
      }
      resp := RedirectEdit(pid);
    }

    /** `poll_vote`: a POST by a user who may vote, naming an existing
        choice, records exactly one vote; every other request records none.
        The choice is looked up by its key alone, so it need not belong to
        the poll voted on. */
    method PollVote(actor: UserId, verb: HttpMethod, pid: PollId, canVote: bool, choiceId: Option<ChoiceId>)
      returns (resp: Response)
      requires Valid()
      modifies this
      ensures Valid()
      ensures verb != Post ==> resp == BadRequest && State() == old(State())
      ensures verb == Post && pid !in old(polls) ==> resp == NotFound && State() == old(State())
      ensures verb == Post && pid in old(polls) && !canVote ==>
        resp == RedirectList && State() == old(State())
      ensures verb == Post && pid in old(polls) && canVote && choiceId.None? ==>
        resp == RedirectDetail(pid) && State() == old(State())
      ensures verb == Post && pid in old(polls) && canVote && choiceId.Some? && choiceId.value !in old(choices) ==>
        resp == ServerError && State() == old(State())
      ensures verb == Post && pid in old(polls) && canVote && choiceId.Some? && choiceId.value in old(choices) ==>
        && resp == ShowResults
        && old(nextVoteId) !in old(votes)
        && votes == old(votes)[old(nextVoteId) := Vote(actor, pid, choiceId.value)]
        && polls == old(polls) && choices == old(choices)
      ensures resp == ShowResults <==> |votes| == |old(votes)| + 1
      ensures resp != ShowResults ==> State() == old(State())
      ensures NoReactivation(old(State()), State())
      ensures Listing.OthersUntouched(old(State()), State(), actor)
      ensures OneVoteEach(old(State())) && canVote == !HasVoted(old(State()), actor, pid) ==>
        OneVoteEach(State())
    {
      if verb != Post {
        return BadRequest;
      }
      if pid !in polls {
        return NotFound;
      }
      if !canVote {
        return RedirectList;
      }
      match choiceId {
        case None =>
          resp := RedirectDetail(pid);
        case Some(cid) =>
          if cid !in choices {
            return ServerError;
          }
          ghost var before := State();
          var vid := InsertVote(Vote(actor, pid, cid));
          if OneVoteEach(before) && canVote == !HasVoted(before, actor, pid) {
            AddVoteKeepsOneEach(before, vid, Vote(actor, pid, cid));
          }
          resp := ShowResults;
      }
    }

    /** `end_poll`: a POST by the owner ends an active poll and does nothing
        to an ended one; the results page follows in both cases. */
    method EndPoll(actor: UserId, verb: HttpMethod, pid: PollId) returns (resp: Response)
      requires Valid()
      modifies this
      ensures Valid()
      ensures pid !in old(polls) ==> resp == NotFound && State() == old(State())
      ensures pid in old(polls) && actor != old(polls)[pid].owner ==>
        resp == RedirectHome && State() == old(State())
      ensures pid in old(polls) && actor == old(polls)[pid].owner ==>
        && resp == ShowResults
        && (verb == Post ==> polls == old(polls)[pid := old(polls)[pid].(active := false)])
        && (verb == Post ==> Listing.PollDetail(polls, pid) == ShowResults)
        && (verb != Post ==> polls == old(polls))
        && choices == old(choices) && votes == old(votes)
      ensures pid in old(polls) && !old(polls)[pid].active ==> State() == old(State())
      ensures NoReactivation(old(State()), State())
      ensures Listing.OthersUntouched(old(State()), State(), actor)
      ensures OneVoteEach(old(State())) ==> OneVoteEach(State())
    {
      if pid !in polls {
        return NotFound;
      }
      var poll := polls[pid];
      if actor != poll.owner {
        return RedirectHome;
      }
      if verb == Post && poll.active {
        polls := polls[pid := poll.(active := false)];
      }
      resp := ShowResults;
    }
  }

  /** Two votes by the same user on the same poll: the first is recorded,
      the second is turned away, and the first choice keeps one vote. */
  method DoubleVoteScenario()
  {
    var store := new PollStore();
    var alice, bob := 1, 2;
    var r := store.PollsAdd(alice, true, Post, true, PollForm("Best Language?", 0, "Go", "Rust"));
    assert r == RedirectList;
    var pid, go := 1, 1;
    assert store.choices[go] == Choice(pid, "Go");
    var first := store.PollVote(bob, Post, pid, !HasVoted(store.State(), bob, pid), Some(go));
    assert first == ShowResults;
    var second := store.PollVote(bob, Post, pid, !HasVoted(store.State(), bob, pid), Some(go));
    assert second == RedirectList;
    assert |store.votes| == 1;
    OneVoteCount(store.State(), bob, pid);
    assert VoteCount(store.votes, bob, pid) == 1;
  }
}
