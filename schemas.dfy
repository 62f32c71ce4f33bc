/** The records of the poll service: the two tables (Poll, PollOption), their
    read projections (PollRead, PollOptionRead), the create payload and the
    three kinds of real-time event. Counters declared `ge=0` are `nat`s. */
module Schemas {

  datatype Option<T> = None | Some(value: T)

  /** One row of the option table; `pollId` is the foreign key to its poll. */
  datatype PollOption = PollOption(id: nat, text: string, votes: nat, pollId: nat)

  /** A poll with its options loaded, in the order the store keeps them.
      `createdAt` is a tick of the store's clock. */
  datatype Poll = Poll(
    id: nat,
    question: string,
    description: Option<string>,
    createdAt: nat,
    likes: nat,
    options: seq<PollOption>)

  datatype PollOptionRead = PollOptionRead(id: nat, text: string, votes: nat)

  datatype PollRead = PollRead(
    id: nat,
    question: string,
    description: Option<string>,
    likes: nat,
    createdAt: nat,
    options: seq<PollOptionRead>)

  /** Body of a create request. */
  datatype PollCreate = PollCreate(question: string, description: Option<string>, options: seq<string>)

  /** A message pushed over the socket; each carries whole polls, never deltas. */
  datatype Event =
    | PollCreated(poll: PollRead)
    | PollUpdated(poll: PollRead)
    | PollSnapshot(polls: seq<PollRead>)

  /** The value of the message's "type" key. */
  function Tag(e: Event): (r: string)
    ensures r == "poll_created" <==> e.PollCreated?
    ensures r == "poll_updated" <==> e.PollUpdated?
    ensures r == "poll_snapshot" <==> e.PollSnapshot?
  {
    match e
    case PollCreated(_) => "poll_created"
    case PollUpdated(_) => "poll_updated"
    case PollSnapshot(_) => "poll_snapshot"
  }

  function SerializeOption(o: PollOption): PollOptionRead {
    PollOptionRead(o.id, o.text, o.votes)
  }

  /** The read projection: every field is carried over, the options lose
      only their back-reference to the poll. */
  function Serialize(p: Poll): (r: PollRead)
    ensures r.id == p.id && r.question == p.question && r.description == p.description
    ensures r.likes == p.likes && r.createdAt == p.createdAt
    ensures |r.options| == |p.options|
    ensures forall i :: 0 <= i < |p.options| ==>
      r.options[i] == PollOptionRead(p.options[i].id, p.options[i].text, p.options[i].votes)
  {
    PollRead(p.id, p.question, p.description, p.likes, p.createdAt,
             seq(|p.options|, i requires 0 <= i < |p.options| => SerializeOption(p.options[i])))
  }
}
