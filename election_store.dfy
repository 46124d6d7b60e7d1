/** The election handlers of the server (server/actions/elections.go and the
    `CastVote` handler of server/actions/votes.go) over an abstract store
    that stands for the database tables of server/db/schema.go.  Record ids
    (UUIDs) are naturals drawn from a counter that stands for `uuid.NewV4`;
    the current time is a parameter. */
module ElectionStore {
  import opened Common
  import opened JsonTime
  import opened TimeInterval
  import opened BallotRows
  import opened PreferenceFacts

  /** `database.Election` without its preloaded lists */
  datatype Election = Election(
    name: string,
    description: string,
    published: bool,
    finalized: bool,
    mandates: int,
    extraMandates: int,
    openTime: SqlNullTime,
    closeTime: SqlNullTime)

  /** `database.Candidate` */
  datatype Candidate = Candidate(name: string, presentation: string, electionId: nat, symbolic: bool)

  /** `database.Vote` without its rankings, which the store keeps apart */
  datatype Vote = Vote(voteTime: int, electionId: nat, userHash: string)

  /** `database.CastedVote`: who has voted in which election */
  datatype CastedVote = CastedVote(email: string, electionId: nat)

  /** The status and text of a handler's reply. */
  datatype Reply = Ok | BadRequest(message: string) | MethodNotAllowed(message: string)

  const InvalidElection: string := "Invalid election specified"
  const InvalidCandidate: string := "Invalid candidate specified"

  function Or<T>(o: Option<T>, default: T): T
  {
    if o.Some? then o.value else default
  }

  /** The election `CreateElection` stores (the table defaults give one
      mandate and no extra mandates). */
  function NewElection(name: string): Election
  {
    Election(name, "", false, false, 1, 0, SqlNullTime(0, false), SqlNullTime(0, false))
  }

  /** The fields `EditElection` assigns: those present in the body. */
  function EditedElection(e: Election, name: Option<string>, description: Option<string>,
                          openTime: Option<NullTime>, closeTime: Option<NullTime>): Election
  {
    e.(name := Or(name, e.name),
       description := Or(description, e.description),
       openTime := if openTime.Some? then ConvertNullTime(openTime.value) else e.openTime,
       closeTime := if closeTime.Some? then ConvertNullTime(closeTime.value) else e.closeTime)
  }

  /** A present field takes the body's value, an absent one keeps the old
      value, and nothing outside the four editable fields changes. */
  lemma EditChangesOnlyPresentFields(e: Election, name: Option<string>, description: Option<string>,
                                     openTime: Option<NullTime>, closeTime: Option<NullTime>)
    ensures var r := EditedElection(e, name, description, openTime, closeTime);
      && (r.name == if name.Some? then name.value else e.name)
      && (r.description == if description.Some? then description.value else e.description)
      && (openTime.Some? ==> r.openTime.valid == openTime.value.valid && r.openTime.time == openTime.value.time)
      && (openTime.None? ==> r.openTime == e.openTime)
      && (closeTime.Some? ==> r.closeTime.valid == closeTime.value.valid && r.closeTime.time == closeTime.value.time)
      && (closeTime.None? ==> r.closeTime == e.closeTime)
      && r.published == e.published && r.finalized == e.finalized
      && r.mandates == e.mandates && r.extraMandates == e.extraMandates
  {
  }

  /** The fields `EditCandidate` assigns. */
  function EditedCandidate(c: Candidate, name: Option<string>, presentation: Option<string>): Candidate
  {
    c.(name := Or(name, c.name), presentation := Or(presentation, c.presentation))
  }

  /** The ids of the candidates of election `e`. */
  function CandidatesOf(candidates: map<nat, Candidate>, e: nat): set<nat>
  {
    set c | c in candidates && candidates[c].electionId == e
  }

  /** Whether election `e` has a vote. */
  predicate HasVotes(votes: map<nat, Vote>, e: nat)
  {
    exists v :: v in votes && votes[v].electionId == e
  }

  /** Every election finalized in `before` is still there and finalized in
      `after`. */
  predicate FinalizedKept(before: map<nat, Election>, after: map<nat, Election>)
  {
    forall e :: e in before && before[e].finalized ==> e in after && after[e].finalized
  }

  /** The rows of vote `v` are exactly one per entry of `ranking`, holding
      that entry at its rank. */
  predicate StoresBallot(rankings: map<(nat, nat), nat>, v: nat, ranking: seq<nat>)
  {
    (forall k :: k in rankings && k.0 == v ==> k.1 < |ranking| && rankings[k] == ranking[k.1])
    && forall r :: 0 <= r < |ranking| ==> (v, r) in rankings
  }

  /** The rows of every vote other than `v` are the same in both tables. */
  predicate OtherBallotsKept(before: map<(nat, nat), nat>, after: map<(nat, nat), nat>, v: nat)
  {
    (forall k :: k in before && k.0 != v ==> k in after && after[k] == before[k])
    && forall k :: k in after && k.0 != v ==> k in before
  }

  /** `util.SameSet(electionCandidates, body.Ranking)` read as set equality,
      the acceptance test `CastVote` applies to a ranking. */
  predicate SameSetAccepts(candidates: set<nat>, ranking: seq<nat>)
  {
    Elements(ranking) == candidates
  }

  /** The acceptance test with the length check the ballot counts rely on:
      the ranking names every candidate of the election and nothing else,
      and has one entry per candidate. */
  predicate AcceptsBallot(candidates: set<nat>, ranking: seq<nat>)
  {
    Elements(ranking) == candidates && |ranking| == |candidates|
  }

  /** With `util.SameSet` read as set equality, a ranking that names one
      candidate twice passes the test although it has more entries than the
      election has candidates; the Schulze count then slices
      `vote.Rankings[i+1 : N]` with i + 1 = 3 > N = 2. */
  lemma RepeatedCandidatePassesSameSet()
    ensures SameSetAccepts({1, 2}, [1, 1, 2])
    ensures !Distinct([1, 1, 2]) && |[1, 1, 2]| > |{1, 2}|
    ensures !AcceptsBallot({1, 2}, [1, 1, 2])
  {
    assert Elements([1, 1, 2]) == {1, 2};
    assert [1, 1, 2][0] == [1, 1, 2][1];
  }

  /** A ranking `AcceptsBallot` lets through lists each candidate of the
      election exactly once: the complete ballots the preference matrix is
      proved to count. */
  lemma AcceptedBallotIsComplete(candidates: seq<nat>, ranking: seq<nat>)
    requires Distinct(candidates)
    requires AcceptsBallot(Elements(candidates), ranking)
    ensures IsCompleteBallot(candidates, ranking)
    ensures SameSetAccepts(Elements(candidates), ranking)
  {
    DistinctIffCardinality(candidates);
    DistinctIffCardinality(ranking);
  }

  /** The corrected test refuses, of the rankings the set test lets
      through, exactly those that name a candidate twice. */
  lemma CorrectedTestRefusesOnlyRepeats(candidates: set<nat>, ranking: seq<nat>)
    ensures AcceptsBallot(candidates, ranking) ==> SameSetAccepts(candidates, ranking)
    ensures SameSetAccepts(candidates, ranking) ==> (AcceptsBallot(candidates, ranking) <==> Distinct(ranking))
  {
    DistinctIffCardinality(ranking);
  }

  /** The rows of vote `v` in the rankings table. */
  function RowsOf(rankings: map<(nat, nat), nat>, v: nat): set<Row>
  {
    set k | k in rankings && k.0 == v :: Row(v, k.1, rankings[k])
  }

  /** Round trip through the store: however the store lists the rows of a
      vote that holds `ranking`, rebuilding them gives back `ranking`. */
  lemma StoredBallotRebuilds(rankings: map<(nat, nat), nat>, v: nat, ranking: seq<nat>, stored: seq<Row>)
    requires StoresBallot(rankings, v, ranking)
    requires Distinct(stored) && Elements(stored) == RowsOf(rankings, v)
    ensures forall x :: 0 <= x < |stored| ==> stored[x].rank < |stored|
    ensures Rebuilt(stored, |stored|) == ranking
  {
    var written := seq(|ranking|, r requires 0 <= r < |ranking| => Row(v, r, ranking[r]));
    assert Elements(written) == RowsOf(rankings, v) by {
      forall row | row in RowsOf(rankings, v) ensures row in Elements(written) {
        var k :| k in rankings && k.0 == v && row == Row(v, k.1, rankings[k]);
        assert written[k.1] == row;
      }
      forall row | row in Elements(written) ensures row in RowsOf(rankings, v) {
        var r :| 0 <= r < |ranking| && written[r] == row;
        assert (v, r) in rankings;
      }
    }
    assert Distinct(written);
    DistinctIffCardinality(written);
    DistinctIffCardinality(stored);
    RoundTrip(v, ranking, written, stored);
  }

  class Store {
    var elections: map<nat, Election>
    var candidates: map<nat, Candidate>
    var votes: map<nat, Vote>
    /** `database.Ranking`, keyed by its primary key (vote id, rank) and
        holding the candidate id. */
    var rankings: map<(nat, nat), nat>
    var castedVotes: set<CastedVote>
    /** Every id below it may be taken; `uuid.NewV4` hands out the next. */
    var nextId: nat

    /** Ids are fresh below `nextId`, every record points at a record that
        exists, and no two votes share a user hash. */
    ghost predicate Valid()
      reads this
    {
      (forall e :: e in elections ==> e < nextId)
      && (forall c :: c in candidates ==> c < nextId && candidates[c].electionId in elections)
      && (forall v :: v in votes ==> v < nextId && votes[v].electionId in elections)
      && (forall k :: k in rankings ==> k.0 in votes)
      && forall v, w :: v in votes && w in votes && votes[v].userHash == votes[w].userHash ==> v == w
    }

    constructor()
      ensures Valid()
      ensures elections == map[] && candidates == map[] && votes == map[]
      ensures rankings == map[] && castedVotes == {}
    {
      elections, candidates, votes, rankings, castedVotes := map[], map[], map[], map[], {};
      nextId := 0;
    }

    /** `CreateElection`: a new unpublished, unfinalized election with an
        empty description and no open or close time, together with its two
        symbolic candidates, Vacant and Blank. */
    method CreateElection(name: string) returns (id: nat)
      requires Valid()
      modifies this
      ensures Valid()
      ensures id !in old(elections)
      ensures elections == old(elections)[id := NewElection(name)]
      ensures var e := elections[id];
        e.name == name && e.description == "" && !e.published && !e.finalized
        && !e.openTime.valid && !e.closeTime.valid
      ensures old(CandidatesOf(candidates, id)) == {}
      ensures CandidatesOf(candidates, id) == {id + 1, id + 2}
      ensures candidates == old(candidates)[id + 1 := Candidate(Vacant, "", id, true)][id + 2 := Candidate(Blank, "", id, true)]
      ensures id + 1 !in old(candidates) && id + 2 !in old(candidates)
      ensures votes == old(votes) && rankings == old(rankings) && castedVotes == old(castedVotes)
      ensures FinalizedKept(old(elections), elections)
    {
      id := nextId;
      var vacant, blank := nextId + 1, nextId + 2;
      assert CandidatesOf(candidates, id) == {} by {
        forall c | c in candidates ensures candidates[c].electionId != id {
          assert candidates[c].electionId in elections;
        }
      }
      nextId := nextId + 3;
      elections := elections[id := NewElection(name)];
      candidates := candidates[vacant := Candidate(Vacant, "", id, true)];
      candidates := candidates[blank := Candidate(Blank, "", id, true)];
    }

    /** `EditElection`: refused for an unknown or a finalized election,
        otherwise the fields present in the body are assigned. */
    method EditElection(id: nat, name: Option<string>, description: Option<string>,
                        openTime: Option<NullTime>, closeTime: Option<NullTime>) returns (reply: Reply)
      requires Valid()
      modifies this
      ensures Valid()
      ensures id !in old(elections) ==> reply == BadRequest(InvalidElection)
      ensures id in old(elections) && old(elections[id].finalized) ==>
        reply == BadRequest("Can't edit finalized election")
      ensures reply.Ok? <==> id in old(elections) && !old(elections[id].finalized)
      ensures reply.Ok? ==>
        elections == old(elections)[id := EditedElection(old(elections[id]), name, description, openTime, closeTime)]
      ensures !reply.Ok? ==> elections == old(elections)
      ensures candidates == old(candidates) && votes == old(votes) && rankings == old(rankings)
      ensures castedVotes == old(castedVotes) && nextId == old(nextId)
      ensures FinalizedKept(old(elections), elections)
    {
      if id !in elections {
        return BadRequest(InvalidElection);
      }
      var election := elections[id];
      if election.finalized {
        return BadRequest("Can't edit finalized election");
      }
      if name.Some? {
        election := election.(name := name.value);
      }
      if description.Some? {
        election := election.(description := description.value);
      }
      if openTime.Some? {
        election := election.(openTime := ConvertNullTime(openTime.value));
      }
      if closeTime.Some? {
        election := election.(closeTime := ConvertNullTime(closeTime.value));
      }
      elections := elections[id := election];
      reply := Ok;
    }

    /** `setElectionPublishedStatus` (behind `PublishElection` and
        `UnpublishElection`): sets `published` and nothing else. */
    method SetPublished(id: nat, status: bool) returns (reply: Reply)
      requires Valid()
      modifies this
      ensures Valid()
      ensures id !in old(elections) ==> reply == BadRequest(InvalidElection) && elections == old(elections)
      ensures id in old(elections) ==>
        reply == Ok && elections == old(elections)[id := old(elections[id]).(published := status)]
      ensures candidates == old(candidates) && votes == old(votes) && rankings == old(rankings)
      ensures castedVotes == old(castedVotes) && nextId == old(nextId)
      ensures FinalizedKept(old(elections), elections)
    {
      if id !in elections {
        return BadRequest(InvalidElection);
      }
      var election := elections[id];
      election := election.(published := status);
      elections := elections[id := election];
      reply := Ok;
    }

    /** `FinalizeElection`: sets `finalized`; no handler clears it. */
    method Finalize(id: nat) returns (reply: Reply)
      requires Valid()
      modifies this
      ensures Valid()
      ensures id !in old(elections) ==> reply == BadRequest(InvalidElection) && elections == old(elections)
      ensures id in old(elections) ==>
        reply == Ok && elections == old(elections)[id := old(elections[id]).(finalized := true)]
      ensures candidates == old(candidates) && votes == old(votes) && rankings == old(rankings)
      ensures castedVotes == old(castedVotes) && nextId == old(nextId)
      ensures FinalizedKept(old(elections), elections)
    {
      if id !in elections {
        return BadRequest(InvalidElection);
      }
      var election := elections[id];
      election := election.(finalized := true);
      elections := elections[id := election];
      reply := Ok;
    }

    /** `AddCandidate`: the reserved names are refused first, then an
        unknown election, then a published one; a new candidate is never
        symbolic. */
    method AddCandidate(electionId: nat, name: string, presentation: string) returns (reply: Reply, id: nat)
      requires Valid()
      modifies this
      ensures Valid()
      ensures name == Blank || name == Vacant ==>
        reply == BadRequest("'" + name + "' is a reserved candidate name")
      ensures name != Blank && name != Vacant && electionId !in old(elections) ==>
        reply == BadRequest(InvalidElection)
      ensures name != Blank && name != Vacant && electionId in old(elections) && old(elections[electionId].published) ==>
        reply == MethodNotAllowed("Can't add candidate to published Election")
      ensures reply.Ok? <==>
        name != Blank && name != Vacant && electionId in old(elections) && !old(elections[electionId].published)
      ensures reply.Ok? ==>
        id !in old(candidates) && candidates == old(candidates)[id := Candidate(name, presentation, electionId, false)]
      ensures !reply.Ok? ==> candidates == old(candidates)
      ensures elections == old(elections) && votes == old(votes) && rankings == old(rankings)
      ensures castedVotes == old(castedVotes)
      ensures FinalizedKept(old(elections), elections)
    {
      id := 0;
      if name == Blank || name == Vacant {
        return BadRequest("'" + name + "' is a reserved candidate name"), id;
      }
      if electionId !in elections {
        return BadRequest(InvalidElection), id;
      }
      if elections[electionId].published {
        return MethodNotAllowed("Can't add candidate to published Election"), id;
      }
      id := nextId;
      nextId := nextId + 1;
      candidates := candidates[id := Candidate(name, presentation, electionId, false)];
      reply := Ok;
    }

    /** `EditCandidate`: the fields present in the body are assigned. */
    method EditCandidate(id: nat, name: Option<string>, presentation: Option<string>) returns (reply: Reply)
      requires Valid()
      modifies this
      ensures Valid()
      ensures id !in old(candidates) ==> reply == BadRequest(InvalidCandidate) && candidates == old(candidates)
      ensures id in old(candidates) ==>
        reply == Ok && candidates == old(candidates)[id := EditedCandidate(old(candidates[id]), name, presentation)]
      ensures elections == old(elections) && votes == old(votes) && rankings == old(rankings)
      ensures castedVotes == old(castedVotes) && nextId == old(nextId)
      ensures FinalizedKept(old(elections), elections)
    {
      if id !in candidates {
        return BadRequest(InvalidCandidate);
      }
      var candidate := candidates[id];
      if name.Some? {
        candidate := candidate.(name := name.value);
      }
      if presentation.Some? {
        candidate := candidate.(presentation := presentation.value);
      }
      candidates := candidates[id := candidate];
      reply := Ok;
    }

    /** `RemoveCandidate` at time `now`: refused once the election has
        opened, then when it is finalized, then when it has votes. */
    method RemoveCandidate(id: nat, now: int) returns (reply: Reply)
      requires Valid()
      modifies this
      ensures Valid()
      ensures id !in old(candidates) ==> reply == BadRequest(InvalidCandidate)
      ensures id in old(candidates) ==>
        var e := old(elections[candidates[id].electionId]);
        && (e.openTime.valid && now > e.openTime.time ==>
              reply == BadRequest("Can't remove candidate from opened election"))
        && (!(e.openTime.valid && now > e.openTime.time) && e.finalized ==>
              reply == BadRequest("Can't remove candidate from finalized election"))
        && (!(e.openTime.valid && now > e.openTime.time) && !e.finalized
              && HasVotes(old(votes), old(candidates[id].electionId)) ==>
              reply == BadRequest("Can't remove candidate from election with votes"))
        && (reply.Ok? <==>
              !(e.openTime.valid && now > e.openTime.time) && !e.finalized
              && !HasVotes(old(votes), old(candidates[id].electionId)))
      ensures reply.Ok? ==> candidates == old(candidates) - {id}
      ensures !reply.Ok? ==> candidates == old(candidates)
      ensures elections == old(elections) && votes == old(votes) && rankings == old(rankings)
      ensures castedVotes == old(castedVotes) && nextId == old(nextId)
      ensures FinalizedKept(old(elections), elections)
    {
      if id !in candidates {
        return BadRequest(InvalidCandidate);
      }
      var electionId := candidates[id].electionId;
      var election := elections[electionId];
      if election.openTime.valid && now > election.openTime.time {
        return BadRequest("Can't remove candidate from opened election");
      }
      if election.finalized {
        return BadRequest("Can't remove candidate from finalized election");
      }
      if exists v :: v in votes && votes[v].electionId == electionId {
        return BadRequest("Can't remove candidate from election with votes");
      }
      candidates := candidates - {id};
      reply := Ok;
    }

    /** `CastVote` at time `now` for the voter `email`, whose vote hash is
        `userHash`.  Refused for an unknown election, for one that is
        finalized or not open at `now`, and for a ranking that is not a
        complete ballot of the election's candidates.  A voter who already
        has a vote keeps that vote (its id and time) and has its rankings
        replaced; anybody else gets a new vote and is recorded as having
        voted.  `vid` is the vote that holds the ballot. */
    method CastVote(electionId: nat, email: string, userHash: string, ranking: seq<nat>, now: int)
      returns (reply: Reply, ghost vid: nat)
      requires Valid()
      modifies this
      ensures Valid()
      ensures electionId !in old(elections) ==> reply == BadRequest(InvalidElection)
      ensures electionId in old(elections) ==>
        var e := old(elections[electionId]);
        && (e.finalized || !TimeIsInValidInterval(now, e.openTime, e.closeTime) ==>
              reply == BadRequest("Voting is not open for the specified election"))
        && (!e.finalized && TimeIsInValidInterval(now, e.openTime, e.closeTime)
              && !AcceptsBallot(old(CandidatesOf(candidates, electionId)), ranking) ==>
              reply == BadRequest("Missing or invalid candidates in vote"))
      ensures reply.Ok? <==>
        electionId in old(elections) && !old(elections[electionId].finalized)
        && TimeIsInValidInterval(now, old(elections[electionId].openTime), old(elections[electionId].closeTime))
        && AcceptsBallot(old(CandidatesOf(candidates, electionId)), ranking)
      ensures !reply.Ok? ==>
        votes == old(votes) && rankings == old(rankings) && castedVotes == old(castedVotes) && nextId == old(nextId)
      ensures reply.Ok? ==>
        && vid in votes && votes[vid].userHash == userHash
        && StoresBallot(rankings, vid, ranking)
        && OtherBallotsKept(old(rankings), rankings, vid)
        && (vid in old(votes) <==> exists v :: v in old(votes) && old(votes)[v].userHash == userHash)
      ensures reply.Ok? && vid in old(votes) ==>
        votes == old(votes) && castedVotes == old(castedVotes) && nextId == old(nextId)
      ensures reply.Ok? && vid !in old(votes) ==>
        && votes == old(votes)[vid := Vote(now, electionId, userHash)]
        && castedVotes == old(castedVotes) + {CastedVote(email, electionId)}
      ensures elections == old(elections) && candidates == old(candidates)
      ensures FinalizedKept(old(elections), elections)
    {
      vid := 0;
      if electionId !in elections {
        return BadRequest(InvalidElection), vid;
      }
      var election := elections[electionId];
      if election.finalized || !TimeIsInValidInterval(now, election.openTime, election.closeTime) {
        return BadRequest("Voting is not open for the specified election"), vid;
      }
      if !AcceptsBallot(CandidatesOf(candidates, electionId), ranking) {
        return BadRequest("Missing or invalid candidates in vote"), vid;
      }
      var id := FindOrCreateVote(electionId, email, userHash, now);
      vid := id;
      WriteRankings(id, ranking);
      reply := Ok;
    }

    /** The first half of `CastVote`'s transaction: the vote with the user's
        hash, its rankings deleted, or else a new vote and a record that the
        user has voted. */
    method FindOrCreateVote(electionId: nat, email: string, userHash: string, now: int) returns (id: nat)
      requires Valid() && electionId in elections
      modifies this
      ensures Valid()
      ensures id in votes && votes[id].userHash == userHash
      ensures forall k :: k in rankings ==> k.0 != id
      ensures OtherBallotsKept(old(rankings), rankings, id)
      ensures id in old(votes) <==> exists v :: v in old(votes) && old(votes)[v].userHash == userHash
      ensures id in old(votes) ==>
        votes == old(votes) && castedVotes == old(castedVotes) && nextId == old(nextId)
      ensures id !in old(votes) ==>
        && votes == old(votes)[id := Vote(now, electionId, userHash)]
        && castedVotes == old(castedVotes) + {CastedVote(email, electionId)}
      ensures elections == old(elections) && candidates == old(candidates)
    {
      if exists v :: v in votes && votes[v].userHash == userHash {
        id :| id in votes && votes[id].userHash == userHash;
        ClearRankings(id);
      } else {
        id := AddVote(electionId, email, userHash, now);
      }
    }

    /** `tx.Delete(&database.Ranking{}, "vote_id", vote.ID)` */
    method ClearRankings(id: nat)
      requires Valid()
      modifies this
      ensures Valid()
      ensures forall k :: k in rankings ==> k.0 != id
      ensures OtherBallotsKept(old(rankings), rankings, id)
      ensures elections == old(elections) && candidates == old(candidates) && votes == old(votes)
      ensures castedVotes == old(castedVotes) && nextId == old(nextId)
    {
      rankings := map k | k in rankings && k.0 != id :: rankings[k];
    }

    /** `tx.Create(&vote)` and the `CastedVote` record, for a user hash no
        vote has yet. */
    method AddVote(electionId: nat, email: string, userHash: string, now: int) returns (id: nat)
      requires Valid() && electionId in elections
      requires forall v :: v in votes ==> votes[v].userHash != userHash
      modifies this
      ensures Valid()
      ensures id !in old(votes) && votes == old(votes)[id := Vote(now, electionId, userHash)]
      ensures castedVotes == old(castedVotes) + {CastedVote(email, electionId)}
      ensures forall k :: k in rankings ==> k.0 != id
      ensures elections == old(elections) && candidates == old(candidates) && rankings == old(rankings)
    {
      id := nextId;
      nextId := nextId + 1;
      votes := votes[id := Vote(now, electionId, userHash)];
      castedVotes := castedVotes + {CastedVote(email, electionId)};
    }

    /** The loop of `CastVote` that stores one (rank, candidate) row per
        entry of the ranking. */
    method WriteRankings(id: nat, ranking: seq<nat>)
      requires Valid() && id in votes
      requires forall k :: k in rankings ==> k.0 != id
      modifies this
      ensures Valid()
      ensures StoresBallot(rankings, id, ranking)
      ensures OtherBallotsKept(old(rankings), rankings, id)
      ensures elections == old(elections) && candidates == old(candidates) && votes == old(votes)
      ensures castedVotes == old(castedVotes) && nextId == old(nextId)
    {
      var rank := 0;
      while rank < |ranking|
        invariant 0 <= rank <= |ranking|
        invariant Valid()
        invariant forall k :: k in rankings ==> k in old(rankings) || (k.0 == id && k.1 < rank)
        invariant forall k :: k in old(rankings) ==> k in rankings && rankings[k] == old(rankings[k])
        invariant forall r :: 0 <= r < rank ==> (id, r) in rankings && rankings[(id, r)] == ranking[r]
        invariant elections == old(elections) && candidates == old(candidates) && votes == old(votes)
        invariant castedVotes == old(castedVotes) && nextId == old(nextId)
      {
        rankings := rankings[(id, rank) := ranking[rank]];
        rank := rank + 1;
      }
    }

    /** The guards `CountVotes` and `CountVotesSchultze` apply before
        counting: the election must exist, be finalized and have votes. */
    method CountGuard(id: nat) returns (reply: Reply)
      requires Valid()
      ensures id !in elections ==> reply == BadRequest(InvalidElection)
      ensures id in elections && !elections[id].finalized ==>
        reply == BadRequest("Can't count votes of unfinalized election")
      ensures id in elections && elections[id].finalized && !HasVotes(votes, id) ==>
        reply == BadRequest("Election has no votes")
      ensures reply.Ok? <==> id in elections && elections[id].finalized && HasVotes(votes, id)
    {
      if id !in elections {
        return BadRequest(InvalidElection);
      }
      if !elections[id].finalized {
        return BadRequest("Can't count votes of unfinalized election");
      }
      if !exists v :: v in votes && votes[v].electionId == id {
        return BadRequest("Election has no votes");
      }
      reply := Ok;
    }
  }
}
