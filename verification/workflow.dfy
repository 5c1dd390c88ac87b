/** The reward manager as a state machine: the collection, the form and
    preview flags that share one current reward, the error map, the search
    term and the page number, and how each user action changes them. Backend
    answers and the delete confirmation are inputs of a step. */
module Workflow {
  import opened Rewards
  import opened Seqs
  import opened Validation
  import opened Catalog
  import opened Search
  import opened Text

  /** What the backend answered to the call a step made. A delete only looks
      at whether the call resolved; the resolved value is ignored. */
  datatype Outcome = Resolved(value: Reward) | Rejected

  /** The backend call a step made, if any. */
  datatype Call = NoCall | CreateReward(draft: Reward) | UpdateReward(record: Reward) | DeleteReward(id: int)

  /** The manager's state. The form and the preview are independent flags,
      and both show `current`. */
  datatype State = State(
    rewards: seq<Reward>,
    formOpen: bool,
    previewOpen: bool,
    current: Reward,
    errors: map<Field, string>,
    searchTerm: string,
    currentPage: int
  )

  /** Empty collection, nothing open, blank draft, no errors, empty search, page 1. */
  const Initial: State := State([], false, false, InitialReward, map[], "", 1)

  /** The user's actions. */
  datatype Event =
    | AddNew
    | Edit(reward: Reward)
    | Duplicate(reward: Reward)
    | Preview(reward: Reward)
    | Delete(id: int)
    | Cancel
    | ClosePreview
    | Change(edit: FieldEdit)
    | Submit
    | Search(term: string)
    | Paginate(page: int)

  /** A step's result: the next state and the backend call it made. */
  datatype Transition = Transition(next: State, call: Call)

  /** Submitting the form. The rules run first and always replace the error
      map; a broken rule stops the submit before any call. Otherwise a draft
      with id 0 is created and any other record updated; only a resolved call
      changes the collection, closes the form and resets the draft. */
  function SubmitStep(s: State, o: Outcome): (t: Transition)
    ensures t.next.errors == Validate(s.current)
    ensures t.call != NoCall <==> AllRulesHold(s.current)
    ensures t.call != NoCall ==>
      t.call == (if s.current.id == 0 then CreateReward(s.current) else UpdateReward(s.current))
    ensures t.next.rewards != s.rewards ==> o.Resolved? && t.call != NoCall
    ensures t.next == s.(rewards := t.next.rewards, formOpen := t.next.formOpen,
                         current := t.next.current, errors := t.next.errors)
  {
    ValidIff(s.current);
    var errors := Validate(s.current);
    var checked := s.(errors := errors);
    if |errors| != 0 then Transition(checked, NoCall)
    else
      var call := if s.current.id == 0 then CreateReward(s.current) else UpdateReward(s.current);
      match o
      case Rejected => Transition(checked, call)
      case Resolved(saved) =>
        var rewards := if s.current.id == 0 then s.rewards + [saved] else ReplaceById(s.rewards, saved);
        Transition(checked.(rewards := rewards, formOpen := false, current := InitialReward), call)
  }

  /** Deleting a row: nothing happens unless the user confirms; a confirmed
      delete calls the backend and removes the id only when the call resolves. */
  function DeleteStep(s: State, id: int, o: Outcome, confirmed: bool): (t: Transition)
    ensures t.call == (if confirmed then DeleteReward(id) else NoCall)
    ensures t.next.rewards == (if confirmed && o.Resolved? then RemoveById(s.rewards, id) else s.rewards)
    ensures t.next == s.(rewards := t.next.rewards)
  {
    if !confirmed then Transition(s, NoCall)
    else
      match o
      case Rejected => Transition(s, DeleteReward(id))
      case Resolved(_) => Transition(s.(rewards := RemoveById(s.rewards, id)), DeleteReward(id))
  }

  /** The actions that never reach the backend: they only move the flags,
      the current reward, the search term or the page number. "Add new" and
      cancel leave the current reward as it is, and preview writes the same
      current reward the form edits. */
  function LocalStep(s: State, e: Event): (n: State)
    requires !e.Submit? && !e.Delete?
    ensures n.rewards == s.rewards && n.errors == s.errors
    ensures !e.Search? ==> n.searchTerm == s.searchTerm
    ensures !e.Paginate? ==> n.currentPage == s.currentPage
    ensures n.current != s.current ==> e.Edit? || e.Duplicate? || e.Preview? || e.Change?
  {
    match e
    case AddNew => s.(formOpen := true)
    case Edit(r) => s.(current := r, formOpen := true)
    case Duplicate(r) => s.(current := DuplicateDraft(r), formOpen := true)
    case Preview(r) => s.(current := r, previewOpen := true)
    case Cancel => s.(formOpen := false)
    case ClosePreview => s.(previewOpen := false)
    case Change(edit) => s.(current := Apply(s.current, edit))
    case Search(term) => s.(searchTerm := term)
    case Paginate(p) => s.(currentPage := p)
  }

  /** One user action. `o` is the backend's answer if the action calls the
      backend, and `confirmed` the answer to the delete confirmation. */
  function Step(s: State, e: Event, o: Outcome, confirmed: bool): (t: Transition)
    ensures t.call != NoCall <==> (e.Submit? && AllRulesHold(s.current)) || (e.Delete? && confirmed)
    ensures t.next.rewards != s.rewards ==> o.Resolved? && t.call != NoCall
  {
    match e
    case Submit => SubmitStep(s, o)
    case Delete(id) => DeleteStep(s, id, o, confirmed)
    case _ => Transition(LocalStep(s, e), NoCall)
  }

  /** The rewards the search keeps. */
  function Filtered(s: State): seq<Reward>
  {
    FilterRewards(s.rewards, s.searchTerm)
  }

  /** The rows of the table: the current page of the filtered rewards. */
  function Visible(s: State): seq<Reward>
  {
    Page(Filtered(s), s.currentPage)
  }

  /** The number of page buttons under the table. */
  function PageButtons(s: State): nat
  {
    PageCount(|Filtered(s)|)
  }

  /** Submit and delete go to their own handlers; every other action is
      local and calls nothing. */
  lemma StepDispatch(s: State, e: Event, o: Outcome, confirmed: bool)
    ensures e.Submit? ==> Step(s, e, o, confirmed) == SubmitStep(s, o)
    ensures e.Delete? ==> Step(s, e, o, confirmed) == DeleteStep(s, e.id, o, confirmed)
    ensures !e.Submit? && !e.Delete? ==> Step(s, e, o, confirmed) == Transition(LocalStep(s, e), NoCall)
  {
  }

  // ---------------------------------------------------------------------------
  // Submit

  /** A draft that breaks a rule is not sent: no call; the collection, the
      form flag and the draft stay; the error map names the broken rules. */
  lemma SubmitBlockedByValidation(s: State, o: Outcome)
    requires !AllRulesHold(s.current)
    ensures SubmitStep(s, o) == Transition(s.(errors := Validate(s.current)), NoCall)
    ensures Validate(s.current) != map[]
  {
    ValidIff(s.current);
  }

  /** A valid draft is sent, as a create when its id is 0 and as an update
      otherwise; if the backend rejects it, only the error map (now empty)
      changes and the form stays open on the same draft. */
  lemma SubmitRejectedByBackend(s: State)
    requires AllRulesHold(s.current)
    ensures SubmitStep(s, Rejected).call
            == (if s.current.id == 0 then CreateReward(s.current) else UpdateReward(s.current))
    ensures SubmitStep(s, Rejected).next == s.(errors := map[])
  {
    ValidIff(s.current);
    assert Validate(s.current).Keys == {};
  }

  /** A resolved create appends exactly the record the backend returned,
      after the untouched existing rows, then closes and resets the form. */
  lemma SubmitCreates(s: State, saved: Reward)
    requires AllRulesHold(s.current) && s.current.id == 0
    ensures var t := SubmitStep(s, Resolved(saved));
      && t.call == CreateReward(s.current)
      && |t.next.rewards| == |s.rewards| + 1
      && t.next.rewards[..|s.rewards|] == s.rewards
      && t.next.rewards[|s.rewards|] == saved
      && t.next == s.(rewards := s.rewards + [saved], formOpen := false,
                      current := InitialReward, errors := map[])
  {
    ValidIff(s.current);
    assert Validate(s.current).Keys == {};
  }

  /** A resolved update puts the returned record in place of every entry
      with its id; length, order, ids and every other entry are kept. */
  lemma SubmitUpdates(s: State, saved: Reward)
    requires AllRulesHold(s.current) && s.current.id != 0
    ensures var t := SubmitStep(s, Resolved(saved));
      && t.call == UpdateReward(s.current)
      && |t.next.rewards| == |s.rewards|
      && (forall i :: 0 <= i < |s.rewards| && s.rewards[i].id == saved.id ==> t.next.rewards[i] == saved)
      && (forall i :: 0 <= i < |s.rewards| && s.rewards[i].id != saved.id ==> t.next.rewards[i] == s.rewards[i])
      && Ids(t.next.rewards) == Ids(s.rewards)
      && t.next == s.(rewards := ReplaceById(s.rewards, saved), formOpen := false,
                      current := InitialReward, errors := map[])
  {
    ValidIff(s.current);
    assert Validate(s.current).Keys == {};
    ReplaceKeepsIds(s.rewards, saved);
  }

  /** With unique ids and a backend that hands out a fresh id, a created
      record is the only entry with its id. */
  lemma SubmitCreatesOneEntry(s: State, saved: Reward)
    requires AllRulesHold(s.current) && s.current.id == 0
    requires UniqueIds(s.rewards) && saved.id !in Ids(s.rewards)
    ensures CountId(SubmitStep(s, Resolved(saved)).next.rewards, saved.id) == 1
  {
    SubmitCreates(s, saved);
    assert SubmitStep(s, Resolved(saved)).next.rewards == s.rewards + [saved];
    AppendFresh(s.rewards, saved);
  }

  // ---------------------------------------------------------------------------
  // Delete

  /** A delete is sent only after confirmation, and only a resolved delete
      changes the collection: no entry with the id remains and the rest keep
      their order. Nothing but the collection ever changes. */
  lemma DeleteNeedsConfirmation(s: State, id: int, o: Outcome, confirmed: bool)
    ensures !confirmed ==> DeleteStep(s, id, o, confirmed) == Transition(s, NoCall)
    ensures confirmed ==> DeleteStep(s, id, o, confirmed).call == DeleteReward(id)
    ensures confirmed && o.Rejected? ==> DeleteStep(s, id, o, confirmed).next == s
    ensures confirmed && o.Resolved? ==> DeleteStep(s, id, o, confirmed).next.rewards == RemoveById(s.rewards, id)
    ensures var n := DeleteStep(s, id, o, confirmed).next;
      && n == s.(rewards := n.rewards)
      && (forall x :: x in n.rewards ==> x in s.rewards)
      && IsSubseq(n.rewards, s.rewards)
      && (confirmed && o.Resolved? ==> forall x :: x in n.rewards ==> x.id != id)
  {
    if !(confirmed && o.Resolved?) {
      IsSubseqRefl(s.rewards);
    }
  }

  // ---------------------------------------------------------------------------
  // Form and preview

  /** "Add new" opens the form on whatever draft is current; it does not
      reset it. */
  lemma AddNewKeepsDraft(s: State)
    ensures LocalStep(s, AddNew) == s.(formOpen := true)
    ensures LocalStep(Initial, AddNew).current == InitialReward
  {
  }

  /** Cancel closes the form and keeps the draft, so reopening it with "add
      new" shows the cancelled draft again. */
  lemma CancelKeepsDraft(s: State)
    ensures var n := LocalStep(s, Cancel);
      && !n.formOpen
      && n.current == s.current
      && LocalStep(n, AddNew).current == s.current
  {
  }

  /** Edit opens the form on the chosen record, id included, so a submit
      becomes an update of that record. */
  lemma EditLoadsRecord(s: State, r: Reward, o: Outcome)
    ensures LocalStep(s, Edit(r)) == s.(current := r, formOpen := true)
    ensures AllRulesHold(r) && r.id != 0 ==> SubmitStep(LocalStep(s, Edit(r)), o).call == UpdateReward(r)
  {
    if AllRulesHold(r) && r.id != 0 {
      SubmitRejectedByBackend(LocalStep(s, Edit(r)));
      ValidIff(r);
    }
  }

  /** Duplicate opens the form on a copy with id 0 and name "Copy of " plus
      the original name; every other field is copied, so a submit creates a
      new record. */
  lemma DuplicateOpensCopy(s: State, r: Reward, o: Outcome)
    ensures var n := LocalStep(s, Duplicate(r));
      && n.formOpen
      && n.current.id == 0
      && n.current.name == "Copy of " + r.name
      && AgreeExcept(r.(id := 0), n.current, Name)
      && n.rewards == s.rewards
    ensures var d := DuplicateDraft(r);
      AllRulesHold(d) ==> SubmitStep(LocalStep(s, Duplicate(r)), o).call == CreateReward(d)
  {
    var d := DuplicateDraft(r);
    if AllRulesHold(d) {
      SubmitRejectedByBackend(LocalStep(s, Duplicate(r)));
      ValidIff(d);
    }
  }

  /** Preview shows the chosen record through the shared current reward: if
      the form is open it now holds the previewed record, and a submit would
      send that record instead of the draft that was being edited. */
  lemma PreviewReplacesDraft(s: State, r: Reward, o: Outcome)
    ensures var n := LocalStep(s, Preview(r));
      && n.previewOpen
      && n.current == r
      && n.formOpen == s.formOpen
    ensures AllRulesHold(r) && r.id != 0 ==> SubmitStep(LocalStep(s, Preview(r)), o).call == UpdateReward(r)
  {
    if AllRulesHold(r) && r.id != 0 {
      SubmitRejectedByBackend(LocalStep(s, Preview(r)));
      ValidIff(r);
    }
  }

  /** Closing the preview clears its flag and nothing else. */
  lemma ClosePreviewOnlyClearsFlag(s: State)
    ensures LocalStep(s, ClosePreview) == s.(previewOpen := false)
  {
  }

  /** A field edit changes one field of the draft and nothing else in the state. */
  lemma ChangeTouchesOneField(s: State, e: FieldEdit)
    ensures var n := LocalStep(s, Change(e));
      && n == s.(current := n.current)
      && Carries(n.current, e)
      && AgreeExcept(s.current, n.current, Target(e))
  {
  }

  // ---------------------------------------------------------------------------
  // Collection and search invariants

  /** What the manager needs to keep: unique ids, no unsaved draft in the
      collection, and a page number of at least 1. */
  predicate Good(s: State)
  {
    UniqueIds(s.rewards) && NoDrafts(s.rewards) && s.currentPage >= 1
  }

  /** What a step assumes of its environment: a created record comes back
      with a fresh non-zero id, and page buttons only offer pages from 1. */
  predicate Honest(s: State, e: Event, o: Outcome)
  {
    && (e.Submit? && s.current.id == 0 && o.Resolved? ==>
          o.value.id != 0 && o.value.id !in Ids(s.rewards))
    && (e.Paginate? ==> e.page >= 1)
  }

  /** Every step keeps the invariant when the environment is honest. */
  lemma StepKeepsGood(s: State, e: Event, o: Outcome, confirmed: bool)
    requires Good(s) && Honest(s, e, o)
    ensures Good(Step(s, e, o, confirmed).next)
  {
    StepDispatch(s, e, o, confirmed);
    match e
    case Submit => SubmitKeepsGood(s, o);
    case Delete(id) => RemoveKeepsInvariants(s.rewards, id);
    case _ =>
  }

  /** A submit keeps the invariant when a created record comes back with a
      fresh non-zero id. */
  lemma SubmitKeepsGood(s: State, o: Outcome)
    requires Good(s)
    requires s.current.id == 0 && o.Resolved? ==> o.value.id != 0 && o.value.id !in Ids(s.rewards)
    ensures Good(SubmitStep(s, o).next)
  {
    if |Validate(s.current)| == 0 && o.Resolved? {
      if s.current.id == 0 {
        AppendFresh(s.rewards, o.value);
      } else {
        ReplaceKeepsInvariants(s.rewards, o.value);
      }
    }
  }

  /** The initial state satisfies the invariant. */
  lemma InitialIsGood()
    ensures Good(Initial)
  {
  }

  /** The table never shows more than ten rows, and only rows the search keeps. */
  lemma VisibleRowsMatch(s: State)
    ensures |Visible(s)| <= PageSize
    ensures forall x :: x in Visible(s) ==> x in s.rewards && Matches(x, s.searchTerm)
  {
  }

  /** Typing in the search box changes the term and nothing else: the page
      number is not brought back into range. */
  lemma SearchKeepsPage(s: State, term: string)
    ensures LocalStep(s, Search(term)) == s.(searchTerm := term)
  {
  }

  /** Past the last page button the table is empty. */
  lemma PastLastPageIsEmpty(s: State)
    requires s.currentPage > PageButtons(s)
    ensures Visible(s) == []
  {
  }

  /** A row named "a" and a row named "b" are told apart by the term "b". */
  lemma MatchesExample(a: Reward, b: Reward)
    requires a.name == "a" && a.description == "" && b.name == "b" && b.description == ""
    ensures !Matches(a, "b") && Matches(b, "b")
  {
    assert Lower("a") == "a" && Lower("") == "" && Lower("b") == "b";
    assert !Includes("a", "b") && !Includes("", "b");
    assert Includes("b", "b");
  }

  /** Of ten "a" rows and one "b" row, the term "b" keeps only the "b" row. */
  lemma FilterExample(front: seq<Reward>, a: Reward, b: Reward)
    requires a.name == "a" && a.description == "" && b.name == "b" && b.description == ""
    requires forall x :: x in front ==> x == a
    ensures FilterRewards(front + [b], "b") == [b]
  {
    MatchesExample(a, b);
    FilterAppend((x: Reward) => Matches(x, "b"), front, [b]);
    FilterDropsAll((x: Reward) => Matches(x, "b"), front);
    assert FilterRewards([b], "b") == [b];
  }

  /** Ten rows named "a" and one named "b", on page 2 with an empty search,
      show the "b" row; searching for "b" leaves one page button, yet the
      table, still on page 2, is empty. */
  lemma SearchCanLeaveEmptyPage(s: State, front: seq<Reward>, a: Reward, b: Reward)
    requires a.name == "a" && a.description == "" && b.name == "b" && b.description == ""
    requires |front| == 10 && forall x :: x in front ==> x == a
    requires s.rewards == front + [b] && s.searchTerm == "" && s.currentPage == 2
    ensures Visible(s) == [b]
    ensures PageButtons(LocalStep(s, Search("b"))) == 1
    ensures Visible(LocalStep(s, Search("b"))) == []
  {
    assert Visible(s) == [b] by {
      EmptyTermKeepsAll(s.rewards);
      SecondPageOfEleven(s.rewards);
    }
    var n := LocalStep(s, Search("b"));
    SearchKeepsPage(s, "b");
    FilterExample(front, a, b);
    PastLastPageIsEmpty(n);
  }

  /** Eleven rows put the last one alone on page 2. */
  lemma SecondPageOfEleven(rs: seq<Reward>)
    requires |rs| == 11
    ensures Page(rs, 2) == [rs[10]]
  {
  }
}
