/** The tables the poll views read and write (Poll, Choice, Vote, keyed by
    their primary keys), the request and response shapes the views use, and
    the invariants of the store. */
module Schema {

  type UserId = nat
  type PollId = nat
  type ChoiceId = nat
  type VoteId = nat

  /** A question; `active` is cleared when its owner ends it. */
  datatype Poll = Poll(text: string, pubDate: int, active: bool, owner: UserId)

  /** One option of one poll. */
  datatype Choice = Choice(poll: PollId, text: string)

  /** One user's vote on a poll, naming the choice by its key. */
  datatype Vote = Vote(user: UserId, poll: PollId, choice: ChoiceId)

  /** The three tables at one moment. */
  datatype Db = Db(polls: map<PollId, Poll>, choices: map<ChoiceId, Choice>, votes: map<VoteId, Vote>)

  /** `request.method`; every view only tells POST from the rest. */
  datatype HttpMethod = Get | Post | Put | Patch | Delete | Head | Options

  /** Cleaned data of the poll creation form. */
  datatype PollForm = PollForm(text: string, pubDate: int, choice1: string, choice2: string)

  /** Cleaned data of the poll edit form. */
  datatype PollEdit = PollEdit(text: string, pubDate: int)

  /** What a view answers, without the rendering. */
  datatype Response =
    | NotFound              // get_object_or_404 found no row
    | RedirectHome          // the actor is not the poll's owner
    | NoPermission          // "you don't have permission" text response
    | BadRequest            // poll_vote reached by anything but POST
    | ServerError           // Choice.DoesNotExist escapes poll_vote
    | ShowForm              // the form page (GET, or POST with invalid data)
    | RedirectList          // redirect to polls:list
    | RedirectDetail(poll: PollId) // redirect to polls:detail
    | RedirectEdit(poll: PollId)   // redirect to polls:edit
    | ShowResults           // polls/poll_result.html
    | ShowVoting            // polls/poll_detail.html, the voting form

  /** Referential integrity: every foreign key names an existing row. */
  ghost predicate Consistent(db: Db)
  {
    && (forall c :: c in db.choices ==> db.choices[c].poll in db.polls)
    && (forall v :: v in db.votes ==> db.votes[v].poll in db.polls && db.votes[v].choice in db.choices)
  }

  /** The user has a vote on the poll. */
  predicate HasVoted(db: Db, user: UserId, poll: PollId)
  {
    exists v :: v in db.votes && db.votes[v].user == user && db.votes[v].poll == poll
  }

  /** At most one vote per user and poll. */
  ghost predicate OneVoteEach(db: Db)
  {
    forall v, w :: v in db.votes && w in db.votes && v != w ==>
      db.votes[v].user != db.votes[w].user || db.votes[v].poll != db.votes[w].poll
  }

  /** The number of votes a user has on a poll. */
  function VoteCount(votes: map<VoteId, Vote>, user: UserId, poll: PollId): nat
  {
    |set v | v in votes && votes[v].user == user && votes[v].poll == poll|
  }

  /** Under OneVoteEach, a user's votes on a poll number at most one, and
      exactly one once the user has voted. */
  lemma OneVoteCount(db: Db, user: UserId, poll: PollId)
    requires OneVoteEach(db)
    ensures VoteCount(db.votes, user, poll) == if HasVoted(db, user, poll) then 1 else 0
  {
    var s := set v | v in db.votes && db.votes[v].user == user && db.votes[v].poll == poll;
    if HasVoted(db, user, poll) {
      var v :| v in db.votes && db.votes[v].user == user && db.votes[v].poll == poll;
      assert s == {v};
    } else {
      assert s == {};
    }
  }

  /** An ended poll stays ended in the later state. */
  ghost predicate NoReactivation(before: Db, after: Db)
  {
    forall p :: p in before.polls && p in after.polls && !before.polls[p].active ==> !after.polls[p].active
  }

  /** `poll.delete()` with its cascade: the poll goes, its choices go, and
      every vote on the poll or on one of those choices goes; nothing else
      changes. */
  ghost predicate PollRemoved(before: Db, after: Db, pid: PollId)
  {
    && after.polls == before.polls - {pid}
    && (forall c :: c in after.choices <==> c in before.choices && before.choices[c].poll != pid)
    && (forall c :: c in after.choices ==> after.choices[c] == before.choices[c])
    && (forall v :: v in after.votes <==>
          v in before.votes && before.votes[v].poll != pid && before.votes[v].choice in after.choices)
    && (forall v :: v in after.votes ==> after.votes[v] == before.votes[v])
  }

  /** `choice.delete()` with its cascade: the choice and the votes naming it
      go; nothing else changes. */
  ghost predicate ChoiceRemoved(before: Db, after: Db, cid: ChoiceId)
  {
    && after.polls == before.polls
    && after.choices == before.choices - {cid}
    && (forall v :: v in after.votes <==> v in before.votes && before.votes[v].choice != cid)
    && (forall v :: v in after.votes ==> after.votes[v] == before.votes[v])
  }

  /** A deletion with cascade leaves no dangling key and no new vote. */
  lemma PollRemovedKeepsInvariants(before: Db, after: Db, pid: PollId)
    requires Consistent(before) && PollRemoved(before, after, pid)
    ensures Consistent(after)
    ensures OneVoteEach(before) ==> OneVoteEach(after)
    ensures NoReactivation(before, after)
  {
  }

  lemma ChoiceRemovedKeepsInvariants(before: Db, after: Db, cid: ChoiceId)
    requires Consistent(before) && ChoiceRemoved(before, after, cid)
    ensures Consistent(after)
    ensures OneVoteEach(before) ==> OneVoteEach(after)
    ensures NoReactivation(before, after)
  {
  }

  /** Recording a vote for a user who has none on the poll keeps one vote
      per user and poll, and afterwards the user has voted. */
  lemma AddVoteKeepsOneEach(db: Db, id: VoteId, vote: Vote)
    requires OneVoteEach(db) && id !in db.votes && !HasVoted(db, vote.user, vote.poll)
    ensures OneVoteEach(db.(votes := db.votes[id := vote]))
    ensures HasVoted(db.(votes := db.votes[id := vote]), vote.user, vote.poll)
  {
    var after := db.(votes := db.votes[id := vote]);
    assert after.votes[id] == vote;
  }
}
