/** The request handlers of the poll service and the bridge from each
    successful mutation to one broadcast event. The committed store is held
    as fields (the poll map, the id counters and the clock that stamps new
    polls); `outbox` lists, in order, the events handed to the hub. */
module Api {
  import opened Schemas
  import opened Text
  import opened Store
  import opened Hub

  /** An `HTTPException`: status code and detail text. */
  datatype HttpError = HttpError(status: nat, detail: string)

  datatype Result<T> = Ok(value: T) | Err(error: HttpError)

  const PollNotFound := HttpError(404, "Poll not found")
  const TooFewOptions := HttpError(400, "A poll requires at least two options.")
  const ForeignOption := HttpError(400, "Option does not belong to this poll.")

  class PollService {
    var polls: Polls
    /** The id the store gives the next poll, and the next option. */
    var nextPollId: nat
    var nextOptionId: nat
    /** The clock that stamps `createdAt`; it moves on at every insert. */
    var clock: nat
    var outbox: seq<Event>
    const manager: ConnectionManager<Event>

    ghost predicate Valid()
      reads this
    {
      WellFormed(polls, nextPollId, nextOptionId, clock)
    }

    /** An empty store and a registry with no connections. */
    constructor ()
      ensures Valid()
      ensures polls == map[] && outbox == []
      ensures fresh(manager) && fresh(manager.wire)
      ensures manager.connections == {} && manager.wire.log == []
    {
      polls := map[];
      nextPollId := 1;
      nextOptionId := 1;
      clock := 0;
      outbox := [];
      var wire := new Wire<Event>();
      manager := new ConnectionManager(wire);
      new;
      EmptyWellFormed();
    }

    /** The poll stored under `pollId`, options loaded, or 404. */
    function GetPollWithOptions(pollId: int): (r: Result<Poll>)
      reads this
      requires Valid()
      ensures r.Ok? <==> pollId in polls
      ensures r.Ok? ==> r.value == polls[pollId] && r.value.id == pollId
      ensures r.Err? ==> r.error == PollNotFound
    {
      if pollId in polls then Ok(polls[pollId]) else Err(PollNotFound)
    }

    /** `GET /polls`: every stored poll once, newest first. */
    function ListPolls(): (r: seq<PollRead>)
      reads this
      requires Valid()
      ensures forall i, j :: 0 <= i < j < |r| ==> r[i].createdAt > r[j].createdAt
      ensures forall id :: id in polls ==> Serialize(polls[id]) in r
      ensures forall k :: 0 <= k < |r| ==> r[k].id in polls && r[k] == Serialize(polls[r[k].id])
    {
      ReadListingNewestFirst(polls, nextPollId, nextOptionId, clock);
      SerializeAll(Listing(polls, nextPollId))
    }

    /** `POST /polls`. The options are stripped and blank ones dropped;
        fewer than two left is a 400 and changes nothing. Otherwise a new
        poll is stored under the next id, with no likes and no votes, and the
        reloaded poll is both the answer and the one `poll_created` event,
        broadcast to every registered connection. */
    method CreatePoll(payload: PollCreate, failing: set<ConnId>) returns (r: Result<PollRead>)
      requires Valid()
      modifies this, manager, manager.wire
      ensures Valid()
      ensures |CleanOptions(payload.options)| < MinOptions ==>
        r == Err(TooFewOptions) && unchanged(this, manager, manager.wire)
      ensures |CleanOptions(payload.options)| >= MinOptions ==>
        var id := old(nextPollId);
        && polls == old(polls)[id := NewPoll(id, payload, old(nextOptionId), old(clock))]
        && nextPollId == id + 1
        && nextOptionId == old(nextOptionId) + |CleanOptions(payload.options)|
        && clock == old(clock) + 1
        && r == Ok(Serialize(polls[id]))
        && outbox == old(outbox) + [PollCreated(r.value)]
        && BroadcastStep(old(manager.connections), old(manager.wire.log),
                         manager.connections, manager.wire.log, PollCreated(r.value), failing)
    {
      var options := CleanOptions(payload.options);
      if |options| < MinOptions {
        return Err(TooFewOptions);
      }
      var id := nextPollId;
      var created := NewPoll(id, payload, nextOptionId, clock);
      NewPollWellFormed(id, payload, nextOptionId, clock);
      Insert(created, |options|);
      var poll := GetPollWithOptions(id).value;
      assert poll == created;
      var serialized := Serialize(poll);
      Publish(PollCreated(serialized), failing);
      r := Ok(serialized);
    }

    /** The commit of a create request: `p`, stamped now and with its
        options numbered from the option counter on, is stored under the
        next poll id, and the option counter and the clock move past it. */
    method Insert(p: Poll, optionCount: nat)
      requires Valid()
      requires PollWellFormed(p, nextPollId, nextOptionId + optionCount, clock + 1) && p.createdAt == clock
      requires forall k :: 0 <= k < |p.options| ==> p.options[k].id == nextOptionId + k
      modifies this
      ensures Valid()
      ensures polls == old(polls)[old(nextPollId) := p]
      ensures nextPollId == old(nextPollId) + 1 && nextOptionId == old(nextOptionId) + optionCount
      ensures clock == old(clock) + 1 && outbox == old(outbox)
    {
      InsertPreservesWellFormed(polls, nextPollId, nextOptionId, clock, p, optionCount);
      polls := polls[nextPollId := p];
      nextPollId := nextPollId + 1;
      nextOptionId := nextOptionId + optionCount;
      clock := clock + 1;
    }

    /** Hands one event to the hub: it is appended to the outbox and
        broadcast to every registered connection; the store is untouched. */
    method Publish(e: Event, failing: set<ConnId>)
      modifies this, manager, manager.wire
      ensures outbox == old(outbox) + [e]
      ensures polls == old(polls) && nextPollId == old(nextPollId)
      ensures nextOptionId == old(nextOptionId) && clock == old(clock)
      ensures BroadcastStep(old(manager.connections), old(manager.wire.log),
                            manager.connections, manager.wire.log, e, failing)
    {
      outbox := outbox + [e];
      manager.Broadcast(e, failing);
    }

    /** `POST /polls/{pollId}/vote`. An unknown poll is a 404; an option that
        is not one of that poll's is a 400; both change nothing. Otherwise the
        option's count goes up by one, and the reloaded poll is both the
        answer and the one `poll_updated` event. */
    method VoteOnPoll(pollId: int, optionId: int, failing: set<ConnId>) returns (r: Result<PollRead>)
      requires Valid()
      modifies this, manager, manager.wire
      ensures Valid()
      ensures pollId !in old(polls) ==>
        r == Err(PollNotFound) && unchanged(this, manager, manager.wire)
      ensures pollId in old(polls) && FindOption(old(polls)[pollId].options, optionId).None? ==>
        r == Err(ForeignOption) && unchanged(this, manager, manager.wire)
      ensures pollId in old(polls) && FindOption(old(polls)[pollId].options, optionId).Some? ==>
        && polls == old(polls)[pollId := AddVote(old(polls)[pollId], FindOption(old(polls)[pollId].options, optionId).value)]
        && nextPollId == old(nextPollId) && nextOptionId == old(nextOptionId) && clock == old(clock)
        && r == Ok(Serialize(polls[pollId]))
        && outbox == old(outbox) + [PollUpdated(r.value)]
        && BroadcastStep(old(manager.connections), old(manager.wire.log),
                         manager.connections, manager.wire.log, PollUpdated(r.value), failing)
    {
      var found := GetPollWithOptions(pollId);
      if found.Err? {
        return Err(found.error);
      }
      var poll := found.value;
      var index := FindOption(poll.options, optionId);
      if index.None? {
        return Err(ForeignOption);
      }
      VotePreservesWellFormed(polls, nextPollId, nextOptionId, clock, pollId, index.value);
      polls := polls[pollId := AddVote(poll, index.value)];
      var reloaded := GetPollWithOptions(pollId).value;
      var serialized := Serialize(reloaded);
      Publish(PollUpdated(serialized), failing);
      r := Ok(serialized);
    }

    /** `POST /polls/{pollId}/like`. An unknown poll is a 404 and changes
        nothing. Otherwise the like count goes up by one, and the reloaded
        poll is both the answer and the one `poll_updated` event. */
    method LikePoll(pollId: int, failing: set<ConnId>) returns (r: Result<PollRead>)
      requires Valid()
      modifies this, manager, manager.wire
      ensures Valid()
      ensures pollId !in old(polls) ==>
        r == Err(PollNotFound) && unchanged(this, manager, manager.wire)
      ensures pollId in old(polls) ==>
        && polls == old(polls)[pollId := AddLike(old(polls)[pollId])]
        && nextPollId == old(nextPollId) && nextOptionId == old(nextOptionId) && clock == old(clock)
        && r == Ok(Serialize(polls[pollId]))
        && outbox == old(outbox) + [PollUpdated(r.value)]
        && BroadcastStep(old(manager.connections), old(manager.wire.log),
                         manager.connections, manager.wire.log, PollUpdated(r.value), failing)
    {
      var found := GetPollWithOptions(pollId);
      if found.Err? {
        return Err(found.error);
      }
      LikePreservesWellFormed(polls, nextPollId, nextOptionId, clock, pollId);
      polls := polls[pollId := AddLike(found.value)];
      var reloaded := GetPollWithOptions(pollId).value;
      var serialized := Serialize(reloaded);
      Publish(PollUpdated(serialized), failing);
      r := Ok(serialized);
    }

    /** A socket opens on `/ws`: it is registered, then it alone is sent a
        `poll_snapshot` of the current listing. If that send raises, the
        connection is unregistered again. The store and the outbox are not
        touched. */
    method WebsocketConnect(c: ConnId, sendFails: bool)
      requires Valid()
      modifies manager, manager.wire
      ensures manager.wire.log == old(manager.wire.log) + [Delivery(c, PollSnapshot(ListPolls()), !sendFails)]
      ensures manager.connections ==
        if sendFails then old(manager.connections) - {c} else old(manager.connections) + {c}
    {
      manager.Connect(c);
      var snapshot := PollSnapshot(ListPolls());
      var ok := manager.wire.Send(c, snapshot, sendFails);
      if !ok {
        manager.Disconnect(c);
      }
    }

    /** The socket's receive loop ends (the client went away or a read
        raised): the connection is unregistered. */
    method WebsocketClosed(c: ConnId)
      modifies manager
      ensures manager.connections == old(manager.connections) - {c}
    {
      manager.Disconnect(c);
    }
  }
}
