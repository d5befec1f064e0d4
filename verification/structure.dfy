/**
 * `structurePolls` and `structureContestants` from utils/helper.ts: the
 * records the voting contract returns, mapped one by one into the shape the
 * pages use (numbers read as numbers, account addresses lower-cased, the
 * rest copied) and then listed newest poll first, or most voted contestant
 * first.
 *
 * The contract's numeric fields are taken as already read into integers.
 */
module Structure {
  import opened Text
  import opened Sorting

  /** A poll as the contract hands it over. */
  datatype RawPoll = RawPoll(
    id: int, image: string, title: string, description: string,
    votes: int, contestants: int, deleted: bool, director: string,
    startsAt: int, endsAt: int, timestamp: int,
    voters: seq<string>, avatars: seq<string>)

  /** `PollStruct`: a poll as the pages use it. */
  datatype Poll = Poll(
    id: int, image: string, title: string, description: string,
    votes: int, contestants: int, deleted: bool, director: string,
    startsAt: int, endsAt: int, timestamp: int,
    voters: seq<string>, avatars: seq<string>)

  /** A contestant as the contract hands it over. */
  datatype RawContestant = RawContestant(
    id: int, image: string, name: string, voter: string, votes: int, voters: seq<string>)

  /** `ContestantStruct`: a contestant as the pages use it. */
  datatype Contestant = Contestant(
    id: int, image: string, name: string, voter: string, votes: int, voters: seq<string>)

  /** Every field of `r` except the addresses is the field of `p` of the same name. */
  predicate PollCopies(p: RawPoll, r: Poll) {
    && r.id == p.id && r.image == p.image && r.title == p.title
    && r.description == p.description && r.votes == p.votes
    && r.contestants == p.contestants && r.deleted == p.deleted
    && r.startsAt == p.startsAt && r.endsAt == p.endsAt
    && r.timestamp == p.timestamp && r.avatars == p.avatars
  }

  /** `a` is `b` lower-cased, entry for entry and in the same order. */
  predicate LowerCasedList(a: seq<string>, b: seq<string>) {
    |a| == |b| && forall i :: 0 <= i < |a| ==> IsLowerCase(a[i]) && EqualIgnoringCase(a[i], b[i])
  }

  /** The mapping step of `structurePolls`, for one record. */
  function StructurePoll(p: RawPoll): (r: Poll)
    ensures PollCopies(p, r)
    ensures IsLowerCase(r.director) && EqualIgnoringCase(r.director, p.director)
    ensures LowerCasedList(r.voters, p.voters)
  {
    Poll(p.id, p.image, p.title, p.description, p.votes, p.contestants, p.deleted,
         Lower(p.director), p.startsAt, p.endsAt, p.timestamp, LowerAll(p.voters), p.avatars)
  }

  /** The strings equal to `s` up to case contain exactly one without upper-case letters. */
  lemma LowerUnique(x: string, s: string)
    requires IsLowerCase(x) && EqualIgnoringCase(x, s)
    ensures x == Lower(s)
  {
    LowerEqualIff(x, s);
    LowerFixedIff(x);
  }

  lemma LowerAllUnique(xs: seq<string>, vs: seq<string>)
    requires LowerCasedList(xs, vs)
    ensures xs == LowerAll(vs)
  {
    forall i | 0 <= i < |xs|
      ensures xs[i] == LowerAll(vs)[i]
    {
      LowerUnique(xs[i], vs[i]);
    }
  }

  /**
   * The contract of `StructurePoll` pins its result down: a poll that copies
   * the record and holds its addresses lower-cased is the structured record.
   */
  lemma StructurePollUnique(p: RawPoll, q: Poll)
    requires PollCopies(p, q)
    requires IsLowerCase(q.director) && EqualIgnoringCase(q.director, p.director)
    requires LowerCasedList(q.voters, p.voters)
    ensures q == StructurePoll(p)
  {
    LowerUnique(q.director, p.director);
    LowerAllUnique(q.voters, p.voters);
  }

  /** Holding a structured poll's fields as a contract record again. */
  function PollAsRaw(q: Poll): (p: RawPoll)
    ensures PollCopies(p, q) && p.director == q.director && p.voters == q.voters
  {
    RawPoll(q.id, q.image, q.title, q.description, q.votes, q.contestants, q.deleted,
            q.director, q.startsAt, q.endsAt, q.timestamp, q.voters, q.avatars)
  }

  /** A poll whose addresses are already lower-case. */
  predicate NormalPoll(q: Poll) {
    IsLowerCase(q.director) && AllLowerCase(q.voters)
  }

  /** Structuring a structured poll again changes nothing, and only normal polls are left alone. */
  lemma StructurePollFixedIff(q: Poll)
    ensures StructurePoll(PollAsRaw(q)) == q <==> NormalPoll(q)
  {
    LowerFixedIff(q.director);
    LowerAllFixedIff(q.voters);
  }

  lemma StructurePollIdempotent(p: RawPoll)
    ensures StructurePoll(PollAsRaw(StructurePoll(p))) == StructurePoll(p)
  {
    var q := StructurePoll(p);
    assert NormalPoll(q);
    StructurePollFixedIff(q);
  }

  /** The sort key of `structurePolls`. */
  function Timestamp(q: Poll): int {
    q.timestamp
  }

  /** `polls.map(...)`, before the sort. */
  function MapPolls(polls: seq<RawPoll>): (r: seq<Poll>)
    ensures |r| == |polls|
    ensures forall i :: 0 <= i < |polls| ==> r[i] == StructurePoll(polls[i])
  {
    seq(|polls|, i requires 0 <= i < |polls| => StructurePoll(polls[i]))
  }

  /**
   * `structurePolls`: every record structured, newest first; polls with the
   * same timestamp keep the order the contract gave them.
   */
  function StructurePolls(polls: seq<RawPoll>): (r: seq<Poll>)
    ensures |r| == |polls|
    ensures multiset(r) == multiset(MapPolls(polls))
    ensures SortedDesc(r, Timestamp)
    ensures forall k :: WithKey(r, Timestamp, k) == WithKey(MapPolls(polls), Timestamp, k)
  {
    SortStableAll(MapPolls(polls), Timestamp);
    SortDesc(MapPolls(polls), Timestamp)
  }

  /** Each poll listed is the structured form of one of the records given. */
  lemma StructurePollsFromInputs(polls: seq<RawPoll>, q: Poll)
    requires q in StructurePolls(polls)
    ensures exists i :: 0 <= i < |polls| && q == StructurePoll(polls[i])
    ensures NormalPoll(q)
  {
    var mapped := MapPolls(polls);
    assert q in multiset(StructurePolls(polls));
    assert q in mapped;
    var i :| 0 <= i < |mapped| && mapped[i] == q;
    assert q == StructurePoll(polls[i]);
  }

  /** Any listing of the structured records newest first, ties in input order, is the one produced. */
  lemma StructurePollsUnique(polls: seq<RawPoll>, r: seq<Poll>)
    requires SortedDesc(r, Timestamp)
    requires forall k :: WithKey(r, Timestamp, k) == WithKey(MapPolls(polls), Timestamp, k)
    ensures r == StructurePolls(polls)
  {
    SortUnique(MapPolls(polls), r, Timestamp);
  }

  function PollsAsRaw(qs: seq<Poll>): (r: seq<RawPoll>)
    ensures |r| == |qs|
    ensures forall i :: 0 <= i < |qs| ==> r[i] == PollAsRaw(qs[i])
  {
    seq(|qs|, i requires 0 <= i < |qs| => PollAsRaw(qs[i]))
  }

  /** Structuring the list `structurePolls` produced once more gives the same list. */
  lemma StructurePollsIdempotent(polls: seq<RawPoll>)
    ensures StructurePolls(PollsAsRaw(StructurePolls(polls))) == StructurePolls(polls)
  {
    var r := StructurePolls(polls);
    var again := MapPolls(PollsAsRaw(r));
    forall i | 0 <= i < |r|
      ensures again[i] == r[i]
    {
      StructurePollsFromInputs(polls, r[i]);
      StructurePollFixedIff(r[i]);
    }
    assert again == r;
    SortSortedIsIdentity(r, Timestamp);
  }

  /** Every field of `r` except the addresses is the field of `c` of the same name. */
  predicate ContestantCopies(c: RawContestant, r: Contestant) {
    r.id == c.id && r.image == c.image && r.name == c.name && r.votes == c.votes
  }

  /** The mapping step of `structureContestants`, for one record. */
  function StructureContestant(c: RawContestant): (r: Contestant)
    ensures ContestantCopies(c, r)
    ensures IsLowerCase(r.voter) && EqualIgnoringCase(r.voter, c.voter)
    ensures LowerCasedList(r.voters, c.voters)
  {
    Contestant(c.id, c.image, c.name, Lower(c.voter), c.votes, LowerAll(c.voters))
  }

  /** A contestant that copies the record and lower-cases its addresses is the structured record. */
  lemma StructureContestantUnique(c: RawContestant, q: Contestant)
    requires ContestantCopies(c, q)
    requires IsLowerCase(q.voter) && EqualIgnoringCase(q.voter, c.voter)
    requires LowerCasedList(q.voters, c.voters)
    ensures q == StructureContestant(c)
  {
    LowerUnique(q.voter, c.voter);
    LowerAllUnique(q.voters, c.voters);
  }

  function ContestantAsRaw(q: Contestant): (c: RawContestant)
    ensures ContestantCopies(c, q) && c.voter == q.voter && c.voters == q.voters
  {
    RawContestant(q.id, q.image, q.name, q.voter, q.votes, q.voters)
  }

  predicate NormalContestant(q: Contestant) {
    IsLowerCase(q.voter) && AllLowerCase(q.voters)
  }

  lemma StructureContestantFixedIff(q: Contestant)
    ensures StructureContestant(ContestantAsRaw(q)) == q <==> NormalContestant(q)
  {
    LowerFixedIff(q.voter);
    LowerAllFixedIff(q.voters);
  }

  /** The sort key of `structureContestants`. */
  function Votes(q: Contestant): int {
    q.votes
  }

  function MapContestants(cs: seq<RawContestant>): (r: seq<Contestant>)
    ensures |r| == |cs|
    ensures forall i :: 0 <= i < |cs| ==> r[i] == StructureContestant(cs[i])
  {
    seq(|cs|, i requires 0 <= i < |cs| => StructureContestant(cs[i]))
  }

  /**
   * `structureContestants`: every record structured, most votes first;
   * contestants with equal votes keep the order the contract gave them.
   */
  function StructureContestants(cs: seq<RawContestant>): (r: seq<Contestant>)
    ensures |r| == |cs|
    ensures multiset(r) == multiset(MapContestants(cs))
    ensures SortedDesc(r, Votes)
    ensures forall k :: WithKey(r, Votes, k) == WithKey(MapContestants(cs), Votes, k)
  {
    SortStableAll(MapContestants(cs), Votes);
    SortDesc(MapContestants(cs), Votes)
  }

  /** Each contestant listed is the structured form of one of the records given. */
  lemma StructureContestantsFromInputs(cs: seq<RawContestant>, q: Contestant)
    requires q in StructureContestants(cs)
    ensures exists i :: 0 <= i < |cs| && q == StructureContestant(cs[i])
    ensures NormalContestant(q)
  {
    var mapped := MapContestants(cs);
    assert q in multiset(StructureContestants(cs));
    assert q in mapped;
    var i :| 0 <= i < |mapped| && mapped[i] == q;
    assert q == StructureContestant(cs[i]);
  }

  lemma StructureContestantsUnique(cs: seq<RawContestant>, r: seq<Contestant>)
    requires SortedDesc(r, Votes)
    requires forall k :: WithKey(r, Votes, k) == WithKey(MapContestants(cs), Votes, k)
    ensures r == StructureContestants(cs)
  {
    SortUnique(MapContestants(cs), r, Votes);
  }

  function ContestantsAsRaw(qs: seq<Contestant>): (r: seq<RawContestant>)
    ensures |r| == |qs|
    ensures forall i :: 0 <= i < |qs| ==> r[i] == ContestantAsRaw(qs[i])
  {
    seq(|qs|, i requires 0 <= i < |qs| => ContestantAsRaw(qs[i]))
  }

  lemma StructureContestantsIdempotent(cs: seq<RawContestant>)
    ensures StructureContestants(ContestantsAsRaw(StructureContestants(cs))) == StructureContestants(cs)
  {
    var r := StructureContestants(cs);
    var again := MapContestants(ContestantsAsRaw(r));
    forall i | 0 <= i < |r|
      ensures again[i] == r[i]
    {
      StructureContestantsFromInputs(cs, r[i]);
      StructureContestantFixedIff(r[i]);
    }
    assert again == r;
    SortSortedIsIdentity(r, Votes);
  }

  /** Two contestants with 3 and 10 votes come out as the one with 10, then the one with 3. */
  lemma MostVotedFirst(a: RawContestant, b: RawContestant)
    requires a.votes == 3 && b.votes == 10
    ensures StructureContestants([a, b]) == [StructureContestant(b), StructureContestant(a)]
  {
    var x, y := StructureContestant(a), StructureContestant(b);
    assert MapContestants([a, b]) == [x, y];
    assert [x, y][1..] == [y];
    assert SortDesc([y], Votes) == [y] by {
      assert [y][1..] == [];
    }
    assert Insert(x, [y], Votes) == [y, x] by {
      assert [y][1..] == [];
    }
  }
}
