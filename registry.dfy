/** The name registry of the application shell: the list of candidate names,
    the admission of a new name and the vote handler. */
module Registry {
  import opened BotNames
  import opened StringOps

  /** Shown when the profanity filter rejects a suggestion. */
  const ProfanityMessage: string := "Xin chỉ đề xuất những tên phù hợp!"
  /** Shown when a suggestion matches an existing name case-insensitively. */
  const DuplicateMessage: string := "Tên này có người đề xuất rồi, bạn hãy vote đi!!!"

  /** The seven names the application starts with. */
  function InitialNames(): seq<Name>
  {
    [ Name("1", "Estella", 12), Name("2", "Senturia", 10), Name("3", "Sen", 8),
      Name("4", "Astra", 6), Name("5", "Mimi", 4), Name("6", "Echo", 2),
      Name("7", "Nexus", 1) ]
  }

  /** Some existing name equals `name` once both are lower-cased. */
  predicate IsDuplicate(names: seq<Name>, name: string)
    ensures (exists i :: 0 <= i < |names| && names[i].text == name) ==> IsDuplicate(names, name)
    ensures names == [] ==> !IsDuplicate(names, name)
  {
    exists i :: 0 <= i < |names| && Lower(names[i].text) == Lower(name)
  }

  /** No two names of the list are equal once lower-cased. */
  predicate CaseDistinct(names: seq<Name>)
  {
    forall i, j :: 0 <= i < j < |names| ==> Lower(names[i].text) != Lower(names[j].text)
  }

  /** Every record of `before` is still in place in `after`, with the same id
      and text and at least as many votes; `after` may be longer. */
  predicate Dominates(before: seq<Name>, after: seq<Name>)
  {
    |before| <= |after| &&
    forall i :: 0 <= i < |before| ==>
      after[i].id == before[i].id && after[i].text == before[i].text &&
      after[i].votes >= before[i].votes
  }

  /** The list and the error message after a handler has run. */
  datatype Outcome = Outcome(names: seq<Name>, error: string)

  /** What `handleNewName` leaves behind: the profanity check first, then the
      duplicate check, and only then the new record with one vote. */
  function AfterNewName(names: seq<Name>, name: string, freshId: string, profane: bool): (r: Outcome)
    ensures r.names == names || r.names == names + [Name(freshId, name, 1)]
    ensures r.error == "" <==> r.names != names
  {
    assert |ProfanityMessage| > 0 && |DuplicateMessage| > 0;
    if profane then Outcome(names, ProfanityMessage)
    else if IsDuplicate(names, name) then Outcome(names, DuplicateMessage)
    else Outcome(names + [Name(freshId, name, 1)], "")
  }

  /** The list `handleVote(id)` produces: every record whose id is `id` gets
      one more vote. */
  function VoteFor(names: seq<Name>, id: string): (r: seq<Name>)
    ensures |r| == |names|
    ensures forall i :: 0 <= i < |names| ==>
      r[i].id == names[i].id && r[i].text == names[i].text &&
      names[i].votes <= r[i].votes <= names[i].votes + 1
  {
    seq(|names|, i requires 0 <= i < |names| =>
      if names[i].id == id then names[i].(votes := names[i].votes + 1) else names[i])
  }

  /** A profane suggestion is rejected with its message whatever the list
      holds; the duplicate check never decides the outcome. */
  lemma ProfaneRejected(names: seq<Name>, name: string, freshId: string)
    ensures AfterNewName(names, name, freshId, true) == Outcome(names, ProfanityMessage)
  {
  }

  /** A suggestion is admitted exactly when it is not profane and no existing
      name matches it case-insensitively; an admitted name is appended as
      typed, with one vote and the fresh id, and clears the error; a rejected
      one leaves the list alone and sets a non-empty error. */
  lemma NewNameOutcome(names: seq<Name>, name: string, freshId: string, profane: bool)
    ensures var o := AfterNewName(names, name, freshId, profane);
      (o.names != names <==> !profane && !IsDuplicate(names, name)) &&
      (o.names != names ==> o.names == names + [Name(freshId, name, 1)] && o.error == "") &&
      (o.names == names ==> o.error != "") &&
      (!profane && IsDuplicate(names, name) ==> o.error == DuplicateMessage)
  {
    var o := AfterNewName(names, name, freshId, profane);
    if !profane && !IsDuplicate(names, name) {
      assert |o.names| == |names| + 1;
    }
    assert |ProfanityMessage| > 0 && |DuplicateMessage| > 0;
  }

  /** Admission keeps the names case-insensitively distinct and, given an
      unused id, the ids distinct. */
  lemma NewNamePreservesDistinct(names: seq<Name>, name: string, freshId: string, profane: bool)
    requires CaseDistinct(names) && IdsDistinct(names)
    requires freshId !in Ids(names)
    ensures CaseDistinct(AfterNewName(names, name, freshId, profane).names)
    ensures IdsDistinct(AfterNewName(names, name, freshId, profane).names)
  {
    var after := AfterNewName(names, name, freshId, profane).names;
    if after != names {
      forall i, j | 0 <= i < j < |after|
        ensures Lower(after[i].text) != Lower(after[j].text) && after[i].id != after[j].id
      {
        if j == |names| {
          assert after[i] == names[i];
          assert names[i].id in Ids(names);
        }
      }
    }
  }

  /** Admission never lowers a tally nor moves a record. */
  lemma NewNameDominates(names: seq<Name>, name: string, freshId: string, profane: bool)
    ensures Dominates(names, AfterNewName(names, name, freshId, profane).names)
  {
  }

  /** A vote keeps length, order, ids and texts, adds one to each record
      carrying `id` and leaves every other record as it was. */
  lemma VoteForEffect(names: seq<Name>, id: string)
    ensures |VoteFor(names, id)| == |names|
    ensures forall i :: 0 <= i < |names| ==>
      VoteFor(names, id)[i].id == names[i].id &&
      VoteFor(names, id)[i].text == names[i].text &&
      VoteFor(names, id)[i].votes == names[i].votes + (if names[i].id == id then 1 else 0)
  {
  }

  /** A vote for an id nobody carries changes nothing. */
  lemma VoteUnknownId(names: seq<Name>, id: string)
    requires id !in Ids(names)
    ensures VoteFor(names, id) == names
  {
    forall i | 0 <= i < |names| ensures VoteFor(names, id)[i] == names[i] {
      assert names[i].id in Ids(names);
    }
  }

  /** Voting keeps both distinctness invariants and never lowers a tally. */
  lemma VotePreserves(names: seq<Name>, id: string)
    ensures CaseDistinct(names) ==> CaseDistinct(VoteFor(names, id))
    ensures IdsDistinct(names) ==> IdsDistinct(VoteFor(names, id))
    ensures Dominates(names, VoteFor(names, id))
  {
  }

  /** With distinct ids, a vote for an id in use raises the total tally by
      exactly one. */
  lemma {:induction false} VoteAddsOne(names: seq<Name>, id: string)
    requires IdsDistinct(names)
    ensures TotalVotes(VoteFor(names, id)) == TotalVotes(names) + (if id in Ids(names) then 1 else 0)
  {
    if names != [] {
      var rest := names[1..];
      assert VoteFor(names, id) == [VoteFor(names, id)[0]] + VoteFor(rest, id);
      assert VoteFor(names, id)[1..] == VoteFor(rest, id);
      VoteAddsOne(rest, id);
      assert Ids(names) == {names[0].id} + Ids(rest) by {
        forall x | x in Ids(names) ensures x in {names[0].id} + Ids(rest) {
          var i :| 0 <= i < |names| && names[i].id == x;
          if i > 0 { assert rest[i - 1].id == x; }
        }
        forall x | x in Ids(rest) ensures x in Ids(names) {
          var i :| 0 <= i < |rest| && rest[i].id == x;
          assert names[i + 1].id == x;
        }
      }
      if names[0].id == id {
        assert id !in Ids(rest) by {
          forall i | 0 <= i < |rest| ensures rest[i].id != id {
            assert rest[i] == names[i + 1];
          }
        }
      }
    }
  }

  /** The application shell's state: the candidate list and the error banner. */
  class App {
    var names: seq<Name>
    var error: string

    ghost predicate Valid()
      reads this
    {
      CaseDistinct(names) && IdsDistinct(names)
    }

    constructor ()
      ensures Valid()
      ensures names == InitialNames() && error == ""
    {
      names := InitialNames();
      error := "";
      new;
      InitialNamesDistinct();
    }

    /** `handleNewName`: `containsProfanity` is the external filter and
        `freshId` the id the clock would produce. */
    method HandleNewName(name: string, freshId: string, containsProfanity: string -> bool)
      requires Valid()
      requires freshId !in Ids(names)
      modifies this
      ensures Valid()
      ensures Outcome(names, error) == AfterNewName(old(names), name, freshId, containsProfanity(name))
      ensures Dominates(old(names), names)
    {
      NewNamePreservesDistinct(names, name, freshId, containsProfanity(name));
      if containsProfanity(name) {
        error := ProfanityMessage;
        return;
      }
      if IsDuplicate(names, name) {
        error := DuplicateMessage;
        return;
      }
      names := names + [Name(freshId, name, 1)];
      error := "";
    }

    /** `handleVote`: an unknown id leaves the list as it was; the error is
        cleared either way. */
    method HandleVote(id: string)
      requires Valid()
      modifies this
      ensures Valid()
      ensures names == VoteFor(old(names), id) && error == ""
      ensures Dominates(old(names), names)
    {
      VotePreserves(names, id);
      names := VoteFor(names, id);
      error := "";
    }
  }

  /** The initial list satisfies both invariants. */
  lemma InitialNamesDistinct()
    ensures CaseDistinct(InitialNames()) && IdsDistinct(InitialNames())
  {
    var ns := InitialNames();
    forall i, j | 0 <= i < j < |ns| ensures Lower(ns[i].text) != Lower(ns[j].text) {
      if |ns[i].text| == |ns[j].text| {
        assert Lower(ns[i].text)[0] == LowerChar(ns[i].text[0]);
        assert Lower(ns[j].text)[0] == LowerChar(ns[j].text[0]);
      }
    }
  }
}
