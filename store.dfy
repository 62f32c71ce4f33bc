/** The committed poll store seen as values: the map from poll id to poll that
    the handlers read and write, the pure steps each handler applies to it,
    and the integrity invariant every step preserves. */
module Store {
  import opened Schemas
  import opened Text

  /** Fewest non-blank options a new poll may have. */
  const MinOptions: nat := 2

  type Polls = map<nat, Poll>

  // ---------------------------------------------------------------------
  // Create

  /** `t` is the stripped text of one of `options`. */
  ghost predicate StrippedFrom(t: string, options: seq<string>) {
    exists j :: 0 <= j < |options| && t == Strip(options[j])
  }

  /** The cleaned list of a non-empty request is the cleaned first entry
      followed by the cleaned rest, so what holds of the rest and of the
      first entry holds of the whole. */
  lemma CleanCons(options: seq<string>, rest: seq<string>)
    requires options != []
    requires |rest| <= |options| - 1
    requires forall k :: 0 <= k < |rest| ==> rest[k] != [] && IsTrimmed(rest[k])
    requires forall j {:trigger Strip(options[1..][j])} ::
      0 <= j < |options| - 1 && !IsBlank(options[1..][j]) ==> Strip(options[1..][j]) in rest
    requires forall k {:trigger StrippedFrom(rest[k], options[1..])} ::
      0 <= k < |rest| ==> StrippedFrom(rest[k], options[1..])
    ensures var r := Kept(options[0]) + rest;
      && |r| <= |options|
      && (forall k :: 0 <= k < |r| ==> r[k] != [] && IsTrimmed(r[k]))
      && (forall j {:trigger Strip(options[j])} ::
            0 <= j < |options| && !IsBlank(options[j]) ==> Strip(options[j]) in r)
      && (forall k {:trigger StrippedFrom(r[k], options)} ::
            0 <= k < |r| ==> StrippedFrom(r[k], options))
  {
    ConsForward(options, rest);
    ConsBackward(options, rest);
  }

  /** The strip of every non-blank entry stays in the cleaned list. */
  lemma ConsForward(options: seq<string>, rest: seq<string>)
    requires options != []
    requires forall j {:trigger Strip(options[1..][j])} ::
      0 <= j < |options| - 1 && !IsBlank(options[1..][j]) ==> Strip(options[1..][j]) in rest
    ensures forall j {:trigger Strip(options[j])} ::
      0 <= j < |options| && !IsBlank(options[j]) ==> Strip(options[j]) in Kept(options[0]) + rest
  {
    var r := Kept(options[0]) + rest;
    forall j | 0 <= j < |options| && !IsBlank(options[j]) ensures Strip(options[j]) in r {
      if j > 0 {
        assert options[j] == options[1..][j - 1];
        assert Strip(options[1..][j - 1]) in rest;
        var i :| 0 <= i < |rest| && rest[i] == Strip(options[j]);
        assert r[|Kept(options[0])| + i] == rest[i];
      }
    }
  }

  /** Every cleaned entry is the strip of some entry of the request. */
  lemma ConsBackward(options: seq<string>, rest: seq<string>)
    requires options != []
    requires forall k {:trigger StrippedFrom(rest[k], options[1..])} ::
      0 <= k < |rest| ==> StrippedFrom(rest[k], options[1..])
    ensures var r := Kept(options[0]) + rest;
      forall k {:trigger StrippedFrom(r[k], options)} :: 0 <= k < |r| ==> StrippedFrom(r[k], options)
  {
    var head := Kept(options[0]);
    var r := head + rest;
    forall k | 0 <= k < |r| ensures StrippedFrom(r[k], options) {
      if k < |head| {
        assert r[k] == Strip(options[0]);
      } else {
        assert r[k] == rest[k - |head|];
        assert StrippedFrom(rest[k - |head|], options[1..]);
        var j :| 0 <= j < |options[1..]| && rest[k - |head|] == Strip(options[1..][j]);
        assert options[1..][j] == options[j + 1];
      }
    }
  }

  /** The option list of a create request: each entry stripped, blank ones
      dropped, order kept. */
  function CleanOptions(options: seq<string>): (r: seq<string>)
    ensures |r| <= |options|
    ensures forall k :: 0 <= k < |r| ==> r[k] != [] && IsTrimmed(r[k])
    ensures forall j {:trigger Strip(options[j])} :: 0 <= j < |options| && !IsBlank(options[j]) ==> Strip(options[j]) in r
    ensures forall k {:trigger StrippedFrom(r[k], options)} :: 0 <= k < |r| ==> StrippedFrom(r[k], options)
  {
    if options == [] then []
    else
      var rest := CleanOptions(options[1..]);
      CleanCons(options, rest);
      Kept(options[0]) + rest
  }

  /** One option cleaned: its strip, or nothing when that is empty. */
  function Kept(t: string): (r: seq<string>)
    ensures r == [] <==> IsBlank(t)
    ensures r != [] ==> r == [Strip(t)]
  {
    if Strip(t) != [] then [Strip(t)] else []
  }

  /** Cleaning distributes over concatenation: each entry is kept or dropped
      on its own, in place. */
  lemma {:induction false} CleanOptionsAppend(a: seq<string>, b: seq<string>)
    ensures CleanOptions(a + b) == CleanOptions(a) + CleanOptions(b)
  {
    if a != [] {
      assert (a + b)[0] == a[0] && (a + b)[1..] == a[1..] + b;
      CleanOptionsAppend(a[1..], b);
      calc {
        CleanOptions(a + b);
        Kept(a[0]) + CleanOptions(a[1..] + b);
        Kept(a[0]) + (CleanOptions(a[1..]) + CleanOptions(b));
        (Kept(a[0]) + CleanOptions(a[1..])) + CleanOptions(b);
        CleanOptions(a) + CleanOptions(b);
      }
    } else {
      assert a + b == b;
    }
  }

  /** A cleaned list is clean: cleaning it again changes nothing. */
  lemma {:induction false} CleanOptionsIdempotent(options: seq<string>)
    ensures CleanOptions(CleanOptions(options)) == CleanOptions(options)
  {
    if options != [] {
      var head := Strip(options[0]);
      var kept := Kept(options[0]);
      CleanOptionsAppend(kept, CleanOptions(options[1..]));
      if head != [] {
        StripIdempotent(options[0]);
        assert kept[1..] == [];
      }
      CleanOptionsIdempotent(options[1..]);
    }
  }

  function NewOptions(texts: seq<string>, firstId: nat, pollId: nat): seq<PollOption> {
    seq(|texts|, k requires 0 <= k < |texts| => PollOption(firstId + k, texts[k], 0, pollId))
  }

  /** The poll a create request inserts under `id`, with option ids from
      `firstOptionId` on and the clock reading `now`. It starts with no likes
      and no votes; it offers exactly the cleaned options, in order, each one
      non-blank and stripped, numbered consecutively and pointing back to
      the poll; the question is stripped and the description kept as given. */
  function NewPoll(id: nat, payload: PollCreate, firstOptionId: nat, now: nat): (p: Poll)
    ensures p.id == id && p.createdAt == now && p.likes == 0
    ensures p.question == Strip(payload.question) && IsTrimmed(p.question)
    ensures p.description == payload.description
    ensures |p.options| == |CleanOptions(payload.options)|
    ensures forall k :: 0 <= k < |p.options| ==>
      && p.options[k].votes == 0
      && p.options[k].text == CleanOptions(payload.options)[k]
      && p.options[k].text != [] && IsTrimmed(p.options[k].text)
      && p.options[k].id == firstOptionId + k
      && p.options[k].pollId == id
  {
    Poll(id, Strip(payload.question), payload.description, now, 0,
         NewOptions(CleanOptions(payload.options), firstOptionId, id))
  }

  // ---------------------------------------------------------------------
  // Vote and like

  /** Index of the option with id `optionId`, if the poll has one. */
  function FindOption(options: seq<PollOption>, optionId: int): (r: Option<nat>)
    ensures r.Some? ==> r.value < |options| && options[r.value].id == optionId
    ensures r.None? <==> forall j :: 0 <= j < |options| ==> options[j].id != optionId
  {
    if options == [] then None
    else if options[0].id == optionId then Some(0)
    else match FindOption(options[1..], optionId)
      case Some(i) => Some(i + 1)
      case None => None
  }

  /** One more vote for option `i`; nothing else about the poll changes. */
  function AddVote(p: Poll, i: nat): (q: Poll)
    requires i < |p.options|
    ensures |q.options| == |p.options|
    ensures q.options[i].votes == p.options[i].votes + 1
    ensures q.options[i].(votes := p.options[i].votes) == p.options[i]
    ensures forall k :: 0 <= k < |p.options| && k != i ==> q.options[k] == p.options[k]
    ensures q.(options := p.options) == p
  {
    p.(options := p.options[i := p.options[i].(votes := p.options[i].votes + 1)])
  }

  /** One more like; the options and every other field stay as they are. */
  function AddLike(p: Poll): (q: Poll)
    ensures q.likes == p.likes + 1
    ensures q.(likes := p.likes) == p
  {
    p.(likes := p.likes + 1)
  }

  /** What the vote handler checks of `session.get(PollOption, optionId)`:
      some stored option has that id and its foreign key names `pollId`. */
  ghost predicate OptionBelongsTo(polls: Polls, optionId: int, pollId: int) {
    exists q, j :: q in polls && 0 <= j < |polls[q].options| &&
      polls[q].options[j].id == optionId && polls[q].options[j].pollId == pollId
  }

  // ---------------------------------------------------------------------
  // Listing

  /** The poll ids among 1..n that are in the store, largest first. */
  function IdsDescending(polls: Polls, n: nat): (r: seq<nat>)
    ensures forall i, j :: 0 <= i < j < |r| ==> r[i] > r[j]
    ensures forall id :: id in r <==> id in polls && 0 < id <= n
  {
    if n == 0 then []
    else
      var rest := IdsDescending(polls, n - 1);
      assert forall k :: 0 <= k < |rest| ==> rest[k] in rest;
      (if n in polls then [n] else []) + rest
  }

  /** The stored polls in descending id order: every poll stored under an
      id below `nextPollId`, and nothing that is not stored. */
  function Listing(polls: Polls, nextPollId: nat): (l: seq<Poll>)
    ensures forall id :: id in polls && 0 < id < nextPollId ==> polls[id] in l
    ensures forall k :: 0 <= k < |l| ==> l[k] in polls.Values
  {
    var ids := IdsDescending(polls, if nextPollId == 0 then 0 else nextPollId - 1);
    var l := seq(|ids|, k requires 0 <= k < |ids| => polls[ids[k]]);
    assert forall id :: id in polls && 0 < id < nextPollId ==> polls[id] in l by {
      forall id | id in polls && 0 < id < nextPollId ensures polls[id] in l {
        assert id in ids;
        var k :| 0 <= k < |ids| && ids[k] == id;
        assert l[k] == polls[id];
      }
    }
    l
  }

  /** The read projection of each poll of a list, in the same order. */
  function SerializeAll(l: seq<Poll>): (r: seq<PollRead>)
    ensures |r| == |l|
    ensures forall k :: 0 <= k < |l| ==> r[k] == Serialize(l[k])
  {
    seq(|l|, k requires 0 <= k < |l| => Serialize(l[k]))
  }

  // ---------------------------------------------------------------------
  // Integrity of the store

  /** One stored poll: its key is its id, its stamp is in the past, its
      question and option texts are cleaned, it has at least two options and
      each option was numbered before `nextOptionId` and points back to it. */
  ghost predicate PollWellFormed(p: Poll, id: nat, nextOptionId: nat, clock: nat) {
    && p.id == id
    && p.createdAt < clock
    && IsTrimmed(p.question)
    && |p.options| >= MinOptions
    && forall k :: 0 <= k < |p.options| ==>
         && 1 <= p.options[k].id < nextOptionId
         && p.options[k].pollId == id
         && p.options[k].text != [] && IsTrimmed(p.options[k].text)
  }

  /** A poll with a larger id was stamped later. */
  ghost predicate StampsFollowIds(polls: Polls) {
    forall a, b :: a in polls && b in polls && a < b ==> polls[a].createdAt < polls[b].createdAt
  }

  /** No two stored options share an id (the option table's primary key). */
  ghost predicate OptionIdsUnique(polls: Polls) {
    forall a, b, i, j ::
      (a in polls && b in polls && 0 <= i < |polls[a].options| && 0 <= j < |polls[b].options| &&
       polls[a].options[i].id == polls[b].options[j].id) ==> a == b && i == j
  }

  /** The store's invariant: poll ids are exactly 1..nextPollId-1 (ids are
      issued by a counter and nothing is deleted), every poll is well formed,
      later ids carry later stamps, and option ids are unique. */
  ghost predicate WellFormed(polls: Polls, nextPollId: nat, nextOptionId: nat, clock: nat) {
    && 1 <= nextPollId && 1 <= nextOptionId
    && (forall id :: id in polls <==> 1 <= id < nextPollId)
    && (forall id :: id in polls ==> PollWellFormed(polls[id], id, nextOptionId, clock))
    && StampsFollowIds(polls)
    && OptionIdsUnique(polls)
  }

  lemma EmptyWellFormed()
    ensures WellFormed(map[], 1, 1, 0)
  {
  }

  /** Two stores with the same keys whose polls carry the same option ids at
      the same places have unique option ids together. */
  lemma SameOptionIdsUnique(polls: Polls, polls': Polls)
    requires OptionIdsUnique(polls)
    requires polls'.Keys == polls.Keys
    requires forall id :: id in polls ==> |polls'[id].options| == |polls[id].options|
    requires forall id, k :: id in polls && 0 <= k < |polls[id].options| ==>
      polls'[id].options[k].id == polls[id].options[k].id
    ensures OptionIdsUnique(polls')
  {
    forall a, b, i, j |
      a in polls' && b in polls' && 0 <= i < |polls'[a].options| && 0 <= j < |polls'[b].options| &&
      polls'[a].options[i].id == polls'[b].options[j].id
      ensures a == b && i == j
    {
      assert polls[a].options[i].id == polls[b].options[j].id;
    }
  }

  /** Options numbered from `nextOptionId` on clash with no stored option. */
  lemma NewOptionIdsUnique(polls: Polls, nextPollId: nat, nextOptionId: nat, p: Poll)
    requires OptionIdsUnique(polls)
    requires nextPollId !in polls
    requires forall id, k :: id in polls && 0 <= k < |polls[id].options| ==> polls[id].options[k].id < nextOptionId
    requires forall k :: 0 <= k < |p.options| ==> p.options[k].id == nextOptionId + k
    ensures OptionIdsUnique(polls[nextPollId := p])
  {
    var polls' := polls[nextPollId := p];
    forall a, b, i, j |
      a in polls' && b in polls' && 0 <= i < |polls'[a].options| && 0 <= j < |polls'[b].options| &&
      polls'[a].options[i].id == polls'[b].options[j].id
      ensures a == b && i == j
    {
      if a != nextPollId && b != nextPollId {
        assert polls[a].options[i].id == polls[b].options[j].id;
      }
    }
  }

  lemma PollWellFormedLater(p: Poll, id: nat, nextOptionId: nat, clock: nat, nextOptionId': nat, clock': nat)
    requires PollWellFormed(p, id, nextOptionId, clock)
    requires nextOptionId <= nextOptionId' && clock <= clock'
    ensures PollWellFormed(p, id, nextOptionId', clock')
  {
  }

  /** A created poll is well formed once the counters and the clock move past it. */
  lemma NewPollWellFormed(id: nat, payload: PollCreate, firstOptionId: nat, now: nat)
    requires 1 <= firstOptionId
    requires |CleanOptions(payload.options)| >= MinOptions
    ensures PollWellFormed(NewPoll(id, payload, firstOptionId, now), id,
                           firstOptionId + |CleanOptions(payload.options)|, now + 1)
  {
  }

  /** Inserting, under the next id, a well-formed poll stamped now whose
      options are numbered from `nextOptionId` on keeps the store well formed. */
  lemma InsertPreservesWellFormed(polls: Polls, nextPollId: nat, nextOptionId: nat, clock: nat, p: Poll, n: nat)
    requires WellFormed(polls, nextPollId, nextOptionId, clock)
    requires PollWellFormed(p, nextPollId, nextOptionId + n, clock + 1)
    requires p.createdAt == clock
    requires forall k :: 0 <= k < |p.options| ==> p.options[k].id == nextOptionId + k
    ensures WellFormed(polls[nextPollId := p], nextPollId + 1, nextOptionId + n, clock + 1)
  {
    var polls' := polls[nextPollId := p];
    forall id | id in polls'
      ensures PollWellFormed(polls'[id], id, nextOptionId + n, clock + 1)
    {
      if id != nextPollId {
        PollWellFormedLater(polls[id], id, nextOptionId, clock, nextOptionId + n, clock + 1);
      }
    }
    forall id, k | id in polls && 0 <= k < |polls[id].options|
      ensures polls[id].options[k].id < nextOptionId
    {
      assert PollWellFormed(polls[id], id, nextOptionId, clock);
    }
    NewOptionIdsUnique(polls, nextPollId, nextOptionId, p);
    forall a, b | a in polls' && b in polls' && a < b
      ensures polls'[a].createdAt < polls'[b].createdAt
    {
      if b == nextPollId {
        assert PollWellFormed(polls[a], a, nextOptionId, clock);
      }
    }
    assert forall id :: id in polls' <==> 1 <= id < nextPollId + 1;
  }

  /** Inserting a new poll with at least two cleaned options keeps the store
      well formed once the counters and the clock move past it. */
  lemma CreatePreservesWellFormed(polls: Polls, nextPollId: nat, nextOptionId: nat, clock: nat, payload: PollCreate)
    requires WellFormed(polls, nextPollId, nextOptionId, clock)
    requires |CleanOptions(payload.options)| >= MinOptions
    ensures WellFormed(polls[nextPollId := NewPoll(nextPollId, payload, nextOptionId, clock)],
                       nextPollId + 1, nextOptionId + |CleanOptions(payload.options)|, clock + 1)
  {
    NewPollWellFormed(nextPollId, payload, nextOptionId, clock);
    InsertPreservesWellFormed(polls, nextPollId, nextOptionId, clock,
      NewPoll(nextPollId, payload, nextOptionId, clock), |CleanOptions(payload.options)|);
  }

  /** Replacing a stored poll by one that is well formed under the same id,
      has the same stamp and keeps the option ids in place keeps the store
      well formed. */
  lemma ReplacePreservesWellFormed(polls: Polls, nextPollId: nat, nextOptionId: nat, clock: nat, pollId: nat, q: Poll)
    requires WellFormed(polls, nextPollId, nextOptionId, clock)
    requires pollId in polls && PollWellFormed(q, pollId, nextOptionId, clock)
    requires q.createdAt == polls[pollId].createdAt
    requires |q.options| == |polls[pollId].options|
    requires forall k :: 0 <= k < |q.options| ==> q.options[k].id == polls[pollId].options[k].id
    ensures WellFormed(polls[pollId := q], nextPollId, nextOptionId, clock)
  {
    var polls' := polls[pollId := q];
    SameOptionIdsUnique(polls, polls');
    assert StampsFollowIds(polls') by {
      forall a, b | a in polls' && b in polls' && a < b
        ensures polls'[a].createdAt < polls'[b].createdAt
      {
        assert polls'[a].createdAt == polls[a].createdAt && polls'[b].createdAt == polls[b].createdAt;
      }
    }
  }

  /** A vote keeps the store well formed. */
  lemma VotePreservesWellFormed(polls: Polls, nextPollId: nat, nextOptionId: nat, clock: nat, pollId: nat, i: nat)
    requires WellFormed(polls, nextPollId, nextOptionId, clock)
    requires pollId in polls && i < |polls[pollId].options|
    ensures WellFormed(polls[pollId := AddVote(polls[pollId], i)], nextPollId, nextOptionId, clock)
  {
    var p := polls[pollId];
    var q := AddVote(p, i);
    assert forall k :: 0 <= k < |q.options| ==> q.options[k].(votes := p.options[k].votes) == p.options[k];
    assert PollWellFormed(p, pollId, nextOptionId, clock);
    ReplacePreservesWellFormed(polls, nextPollId, nextOptionId, clock, pollId, q);
  }

  /** A like keeps the store well formed. */
  lemma LikePreservesWellFormed(polls: Polls, nextPollId: nat, nextOptionId: nat, clock: nat, pollId: nat)
    requires WellFormed(polls, nextPollId, nextOptionId, clock)
    requires pollId in polls
    ensures WellFormed(polls[pollId := AddLike(polls[pollId])], nextPollId, nextOptionId, clock)
  {
    var p := polls[pollId];
    assert PollWellFormed(p, pollId, nextOptionId, clock);
    ReplacePreservesWellFormed(polls, nextPollId, nextOptionId, clock, pollId, AddLike(p));
  }

  /** Looking the option up inside the poll rejects exactly the votes the
      global lookup rejects: an option id that is unknown, or that belongs
      to another poll. */
  lemma VoteRejectionMatchesLookup(polls: Polls, nextPollId: nat, nextOptionId: nat, clock: nat, pollId: int, optionId: int)
    requires WellFormed(polls, nextPollId, nextOptionId, clock)
    requires pollId in polls
    ensures FindOption(polls[pollId].options, optionId).Some? <==> OptionBelongsTo(polls, optionId, pollId)
  {
    var r := FindOption(polls[pollId].options, optionId);
    if r.Some? {
      assert PollWellFormed(polls[pollId], pollId, nextOptionId, clock);
      assert polls[pollId].options[r.value].pollId == pollId;
    }
    if OptionBelongsTo(polls, optionId, pollId) {
      var q, j :| q in polls && 0 <= j < |polls[q].options| &&
        polls[q].options[j].id == optionId && polls[q].options[j].pollId == pollId;
      assert PollWellFormed(polls[q], q, nextOptionId, clock);
      assert q == pollId;
    }
  }

  /** When stamps follow ids, the listing is in strictly descending
      creation order. */
  lemma ListingSorted(polls: Polls, nextPollId: nat)
    requires StampsFollowIds(polls)
    ensures var l := Listing(polls, nextPollId);
      forall i, j :: 0 <= i < j < |l| ==> l[i].createdAt > l[j].createdAt
  {
    var ids := IdsDescending(polls, if nextPollId == 0 then 0 else nextPollId - 1);
    var l := Listing(polls, nextPollId);
    forall i, j | 0 <= i < j < |l| ensures l[i].createdAt > l[j].createdAt {
      assert ids[i] in ids && ids[j] in ids;
      assert l[i] == polls[ids[i]] && l[j] == polls[ids[j]];
    }
  }

  /** The listing holds every stored poll once, newest first: strictly
      descending creation stamps. */
  lemma ListingNewestFirst(polls: Polls, nextPollId: nat, nextOptionId: nat, clock: nat)
    requires WellFormed(polls, nextPollId, nextOptionId, clock)
    ensures var l := Listing(polls, nextPollId);
      && (forall i, j :: 0 <= i < j < |l| ==> l[i].createdAt > l[j].createdAt)
      && (forall id :: id in polls ==> polls[id] in l)
      && (forall k :: 0 <= k < |l| ==> l[k].id in polls && polls[l[k].id] == l[k])
  {
    ListingSorted(polls, nextPollId);
    var l := Listing(polls, nextPollId);
    forall k | 0 <= k < |l| ensures l[k].id in polls && polls[l[k].id] == l[k] {
      var id :| id in polls && polls[id] == l[k];
      assert PollWellFormed(polls[id], id, nextOptionId, clock);
    }
  }

  /** What the listing promises carries over to its read projection. */
  lemma SerializeAllNewestFirst(polls: Polls, l: seq<Poll>)
    requires forall i, j :: 0 <= i < j < |l| ==> l[i].createdAt > l[j].createdAt
    requires forall id :: id in polls ==> polls[id] in l
    requires forall k :: 0 <= k < |l| ==> l[k].id in polls && polls[l[k].id] == l[k]
    ensures var r := SerializeAll(l);
      && (forall i, j :: 0 <= i < j < |r| ==> r[i].createdAt > r[j].createdAt)
      && (forall id :: id in polls ==> Serialize(polls[id]) in r)
      && (forall k :: 0 <= k < |r| ==> r[k].id in polls && r[k] == Serialize(polls[r[k].id]))
  {
    var r := SerializeAll(l);
    forall id | id in polls ensures Serialize(polls[id]) in r {
      var k :| 0 <= k < |l| && l[k] == polls[id];
      assert r[k] == Serialize(polls[id]);
    }
  }

  /** The read listing of a well-formed store holds the projection of every
      stored poll once, newest first. */
  lemma ReadListingNewestFirst(polls: Polls, nextPollId: nat, nextOptionId: nat, clock: nat)
    requires WellFormed(polls, nextPollId, nextOptionId, clock)
    ensures var r := SerializeAll(Listing(polls, nextPollId));
      && (forall i, j :: 0 <= i < j < |r| ==> r[i].createdAt > r[j].createdAt)
      && (forall id :: id in polls ==> Serialize(polls[id]) in r)
      && (forall k :: 0 <= k < |r| ==> r[k].id in polls && r[k] == Serialize(polls[r[k].id]))
  {
    ListingNewestFirst(polls, nextPollId, nextOptionId, clock);
    SerializeAllNewestFirst(polls, Listing(polls, nextPollId));
  }
}
