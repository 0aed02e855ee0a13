/**
 Completeness of an operational logbook: the summary the browser shows and the
 checks the server makes when the logbook is submitted.
 */
module Logbook {
  import opened Common

  datatype ResultStatus = PENDING | COMPLETED | FAILED | NOT_APPLICABLE
  datatype EvidencePolicy = NONE | OPTIONAL | REQUIRED | REQUIRED_ON_FAILURE

  datatype Evidence = Evidence(id: string, deletedAt: Option<string>)

  datatype Response = Response(
    status: ResultStatus, isNotApplicable: bool, booleanValue: Option<bool>, numericValue: Option<real>,
    textValue: Option<string>, selectedOptionId: Option<string>, comment: Option<string>, evidences: seq<Evidence>)

  datatype Item = Item(
    id: string, title: string, isRequired: bool, evidencePolicy: EvidencePolicy, minEvidences: int,
    requireCommentOnFailure: bool)

  datatype Section = Section(title: string, items: seq<Item>)

  datatype Requirement = Requirement(itemId: string, itemTitle: string, sectionTitle: string)

  type Responses = map<string, Response>

  function Find(responses: Responses, id: string): Option<Response> {
    if id in responses then Some(responses[id]) else None
  }

  /** White space and line terminators of ECMA-262, sections 12.2 and 12.3. */
  predicate IsWhiteSpace(c: char) {
    var u := c as int;
    || 0x09 <= u <= 0x0d || u == 0x20 || u == 0xa0 || u == 0xfeff || u == 0x1680 || 0x2000 <= u <= 0x200a
    || u == 0x2028 || u == 0x2029 || u == 0x202f || u == 0x205f || u == 0x3000
  }

  /** text.trim() === "" */
  predicate Blank(text: string) {
    forall c :: c in text ==> IsWhiteSpace(c)
  }

  /** Not soft-deleted, as JavaScript tests it: absent or empty. */
  predicate Active(e: Evidence) {
    e.deletedAt.None? || e.deletedAt.value == ""
  }

  function ActiveCount(evidences: seq<Evidence>): (n: nat)
    ensures n > 0 <==> exists e :: e in evidences && Active(e)
  {
    if evidences == [] then 0
    else
      var last, rest := evidences[|evidences| - 1], ActiveCount(evidences[..|evidences| - 1]);
      assert evidences == evidences[..|evidences| - 1] + [last];
      rest + if Active(last) then 1 else 0
  }

  predicate IsAnswered(response: Option<Response>) {
    if response.None? || response.value.status == PENDING then false
    else
      var r := response.value;
      if r.isNotApplicable then true
      else if r.booleanValue.Some? then true
      else if r.numericValue.Some? then true
      else if r.textValue.Some? && !Blank(r.textValue.value) then true
      else if r.selectedOptionId.Some? && r.selectedOptionId.value != "" then true
      else r.status == COMPLETED && exists e :: e in r.evidences && Active(e)
  }

  function Minimum(item: Item): int {
    if item.minEvidences > 1 then item.minEvidences else 1
  }

  // ---------------------------------------------------------------------
  // The declarative summary.
  // ---------------------------------------------------------------------

  datatype Check = ResponseGiven | CommentGiven | EvidenceGiven | FailureEvidenceGiven

  /** Item `item`, with response r, still misses the given requirement. */
  predicate Misses(check: Check, item: Item, r: Option<Response>) {
    match check
    case ResponseGiven => item.isRequired && !IsAnswered(r)
    case CommentGiven =>
      r.Some? && r.value.status == FAILED && item.requireCommentOnFailure
      && (r.value.comment.None? || Blank(r.value.comment.value))
    case EvidenceGiven =>
      r.Some? && item.evidencePolicy == REQUIRED && ActiveCount(r.value.evidences) < Minimum(item)
    case FailureEvidenceGiven =>
      r.Some? && item.evidencePolicy == REQUIRED_ON_FAILURE && r.value.status == FAILED
      && ActiveCount(r.value.evidences) < Minimum(item)
  }

  datatype Entry = Entry(sectionTitle: string, item: Item)

  function SectionEntries(title: string, items: seq<Item>): seq<Entry> {
    if items == [] then []
    else SectionEntries(title, items[..|items| - 1]) + [Entry(title, items[|items| - 1])]
  }

  /** All items in document order. */
  function Entries(sections: seq<Section>): seq<Entry> {
    if sections == [] then []
    else
      var last := sections[|sections| - 1];
      Entries(sections[..|sections| - 1]) + SectionEntries(last.title, last.items)
  }

  function RequirementOf(e: Entry): Requirement {
    Requirement(e.item.id, e.item.title, e.sectionTitle)
  }

  /** What one entry adds to a pending list. */
  function Missed(check: Check, e: Entry, r: Option<Response>): seq<Requirement> {
    if Misses(check, e.item, r) then [RequirementOf(e)] else []
  }

  /** The entries that miss a requirement, in document order. */
  function Pending(check: Check, entries: seq<Entry>, responses: Responses): seq<Requirement> {
    if entries == [] then []
    else
      var last := entries[|entries| - 1];
      Pending(check, entries[..|entries| - 1], responses) + Missed(check, last, Find(responses, last.item.id))
  }

  datatype Tally = Tally(answered: int, optionalUnanswered: int, failed: int, evidences: int)

  /** What one entry adds to the counters. */
  function Counted(e: Entry, r: Option<Response>): Tally {
    Tally(if IsAnswered(r) then 1 else 0,
          if !IsAnswered(r) && !e.item.isRequired then 1 else 0,
          if r.Some? && r.value.status == FAILED then 1 else 0,
          if r.Some? then ActiveCount(r.value.evidences) else 0)
  }

  function Plus(a: Tally, b: Tally): Tally {
    Tally(a.answered + b.answered, a.optionalUnanswered + b.optionalUnanswered, a.failed + b.failed, a.evidences + b.evidences)
  }

  function Count(entries: seq<Entry>, responses: Responses): Tally {
    if entries == [] then Tally(0, 0, 0, 0)
    else
      var last := entries[|entries| - 1];
      Plus(Count(entries[..|entries| - 1], responses), Counted(last, Find(responses, last.item.id)))
  }

  datatype Summary = Summary(
    totalItems: int, answeredItems: int, unansweredItems: int, optionalUnansweredItems: int,
    pendingRequiredResponses: seq<Requirement>, pendingComments: seq<Requirement>,
    pendingEvidences: seq<Requirement>, pendingFailureEvidences: seq<Requirement>,
    failedItems: int, evidenceCount: int, complete: bool)

  /** No item misses any requirement. */
  predicate IsComplete(sections: seq<Section>, responses: Responses) {
    forall e :: e in Entries(sections) ==> forall check: Check :: !Misses(check, e.item, Find(responses, e.item.id))
  }

  method ValidateLogbook(sections: seq<Section>, responses: Responses) returns (s: Summary)
    ensures s.pendingRequiredResponses == Pending(ResponseGiven, Entries(sections), responses)
    ensures s.pendingComments == Pending(CommentGiven, Entries(sections), responses)
    ensures s.pendingEvidences == Pending(EvidenceGiven, Entries(sections), responses)
    ensures s.pendingFailureEvidences == Pending(FailureEvidenceGiven, Entries(sections), responses)
    ensures s.totalItems == |Entries(sections)|
    ensures Count(Entries(sections), responses)
         == Tally(s.answeredItems, s.optionalUnansweredItems, s.failedItems, s.evidenceCount)
    ensures s.answeredItems + |s.pendingRequiredResponses| + s.optionalUnansweredItems == s.totalItems
    ensures s.unansweredItems == |s.pendingRequiredResponses| + s.optionalUnansweredItems
    ensures s.complete <==> IsComplete(sections, responses)
  {
    var required, comments, evidences, failureEvidences: seq<Requirement> := [], [], [], [];
    var total, tally := 0, Tally(0, 0, 0, 0);
    ghost var seen: seq<Entry> := [];
    hide Pending, Count, Missed, Counted, IsComplete;
    NothingSeen(responses);
    for i := 0 to |sections|
      invariant seen == Entries(sections[..i])
      invariant Accumulated(seen, responses, required, comments, evidences, failureEvidences)
      invariant total == |seen| && Count(seen, responses) == tally
    {
      var section := sections[i];
      ghost var start := seen;
      for j := 0 to |section.items|
        invariant seen == start + SectionEntries(section.title, section.items[..j])
        invariant Accumulated(seen, responses, required, comments, evidences, failureEvidences)
        invariant total == |seen| && Count(seen, responses) == tally
      {
        assert section.items[..j + 1][..j] == section.items[..j];
        var entry := Entry(section.title, section.items[j]);
        var pending, counted := CheckItem(entry, Find(responses, entry.item.id));
        EntrySeen(seen, entry, responses);
        total := total + 1;
        required, comments := required + pending.responses, comments + pending.comments;
        evidences, failureEvidences := evidences + pending.evidences, failureEvidences + pending.failureEvidences;
        tally := Plus(tally, counted);
        seen := seen + [entry];
      }
      assert section.items[..|section.items|] == section.items;
      assert sections[..i + 1][..i] == sections[..i];
    }
    assert sections[..|sections|] == sections;
    ItemsPartition(seen, responses);
    EmptyLists(sections, responses);
    s := Summary(total, tally.answered, total - tally.answered, tally.optionalUnanswered, required, comments, evidences,
                 failureEvidences, tally.failed, tally.evidences,
                 |required| == 0 && |comments| == 0 && |evidences| == 0 && |failureEvidences| == 0);
  }

  /** What one item adds to each pending list. */
  datatype ItemPending = ItemPending(
    responses: seq<Requirement>, comments: seq<Requirement>, evidences: seq<Requirement>, failureEvidences: seq<Requirement>)

  /** An answer, field by field: a status other than pending and a mark, a value, or a kept evidence when completed. */
  predicate HasAnswer(response: Option<Response>) {
    && response.Some?
    && var r := response.value;
       && r.status != PENDING
       && (|| r.isNotApplicable
           || r.booleanValue != None
           || r.numericValue != None
           || (exists i :: r.textValue.Some? && 0 <= i < |r.textValue.value| && !IsWhiteSpace(r.textValue.value[i]))
           || (r.selectedOptionId.Some? && |r.selectedOptionId.value| > 0)
           || (r.status == COMPLETED
               && exists i :: 0 <= i < |r.evidences| && (r.evidences[i].deletedAt.None? || r.evidences[i].deletedAt.value == "")))
  }

  lemma AnsweredMeans(response: Option<Response>)
    ensures IsAnswered(response) <==> HasAnswer(response)
  {
    if response.Some? {
      var r := response.value;
      if e :| e in r.evidences && Active(e) {
        var i :| 0 <= i < |r.evidences| && r.evidences[i] == e;
      }
      if i :| 0 <= i < |r.evidences| && (r.evidences[i].deletedAt.None? || r.evidences[i].deletedAt.value == "") {
        assert r.evidences[i] in r.evidences && Active(r.evidences[i]);
      }
      if r.textValue.Some? {
        var text := r.textValue.value;
        if c :| c in text && !IsWhiteSpace(c) {
          var i :| 0 <= i < |text| && text[i] == c;
        }
      }
    }
  }

  /** The 25 characters that trim() removes. */
  lemma WhiteSpaceCharacters(c: char)
    ensures IsWhiteSpace(c) <==>
            c as int in {0x09, 0x0a, 0x0b, 0x0c, 0x0d, 0x20, 0xa0, 0x1680, 0x2000, 0x2001, 0x2002, 0x2003, 0x2004, 0x2005, 0x2006,
                         0x2007, 0x2008, 0x2009, 0x200a, 0x2028, 0x2029, 0x202f, 0x205f, 0x3000, 0xfeff}
  {
  }

  /** The positions of the evidences that are not deleted. */
  function Kept(evidences: seq<Evidence>): set<nat> {
    set i | 0 <= i < |evidences| && (evidences[i].deletedAt.None? || evidences[i].deletedAt.value == "")
  }

  lemma {:induction false} ActiveCountIsCardinality(evidences: seq<Evidence>)
    ensures ActiveCount(evidences) == |Kept(evidences)|
  {
    if evidences != [] {
      var n := |evidences| - 1;
      var rest := evidences[..n];
      ActiveCountIsCardinality(rest);
      assert Kept(evidences) == Kept(rest) + if Active(evidences[n]) then {n} else {};
    }
  }

  /** The body of the inner loop. */
  method CheckItem(entry: Entry, response: Option<Response>) returns (pending: ItemPending, counted: Tally)
    ensures pending.responses == Missed(ResponseGiven, entry, response)
    ensures pending.comments == Missed(CommentGiven, entry, response)
    ensures pending.evidences == Missed(EvidenceGiven, entry, response)
    ensures pending.failureEvidences == Missed(FailureEvidenceGiven, entry, response)
    ensures counted == Counted(entry, response)
    ensures counted.answered == if HasAnswer(response) then 1 else 0
    ensures pending.responses != [] <==> entry.item.isRequired && !HasAnswer(response)
  {
    AnsweredMeans(response);
    hide HasAnswer, IsAnswered, ActiveCount, Blank;
    var item, requirement := entry.item, Requirement(entry.item.id, entry.item.title, entry.sectionTitle);
    pending, counted := ItemPending([], [], [], []), Tally(0, 0, 0, 0);
    if IsAnswered(response) {
      counted := counted.(answered := 1);
    } else if item.isRequired {
      pending := pending.(responses := [requirement]);
    } else {
      counted := counted.(optionalUnanswered := 1);
    }
    if response.None? {
      return;
    }
    var r := response.value;
    if r.status == FAILED {
      counted := counted.(failed := 1);
    }
    var active := ActiveCount(r.evidences);
    counted := counted.(evidences := active);
    if r.status == FAILED && item.requireCommentOnFailure && (r.comment.None? || Blank(r.comment.value)) {
      pending := pending.(comments := [requirement]);
    }
    var minimum := if 1 > item.minEvidences then 1 else item.minEvidences;
    if item.evidencePolicy == REQUIRED && active < minimum {
      pending := pending.(evidences := [requirement]);
    }
    if item.evidencePolicy == REQUIRED_ON_FAILURE && r.status == FAILED && active < minimum {
      pending := pending.(failureEvidences := [requirement]);
    }
  }

  lemma NothingSeen(responses: Responses)
    ensures forall check: Check :: Pending(check, [], responses) == []
    ensures Count([], responses) == Tally(0, 0, 0, 0)
  {
  }

  lemma EntrySeen(seen: seq<Entry>, e: Entry, responses: Responses)
    ensures forall check: Check :: Pending(check, seen + [e], responses)
              == Pending(check, seen, responses) + Missed(check, e, Find(responses, e.item.id))
    ensures Count(seen + [e], responses) == Plus(Count(seen, responses), Counted(e, Find(responses, e.item.id)))
  {
    assert (seen + [e])[..|seen|] == seen;
  }

  ghost predicate Accumulated(seen: seq<Entry>, responses: Responses, required: seq<Requirement>, comments: seq<Requirement>,
                              evidences: seq<Requirement>, failureEvidences: seq<Requirement>)
  {
    && required == Pending(ResponseGiven, seen, responses)
    && comments == Pending(CommentGiven, seen, responses)
    && evidences == Pending(EvidenceGiven, seen, responses)
    && failureEvidences == Pending(FailureEvidenceGiven, seen, responses)
  }

  /** All four lists are empty exactly when no item misses anything. */
  lemma EmptyLists(sections: seq<Section>, responses: Responses)
    ensures IsComplete(sections, responses) <==>
              && Pending(ResponseGiven, Entries(sections), responses) == []
              && Pending(CommentGiven, Entries(sections), responses) == []
              && Pending(EvidenceGiven, Entries(sections), responses) == []
              && Pending(FailureEvidenceGiven, Entries(sections), responses) == []
  {
    var entries := Entries(sections);
    hide Misses, Entries, Pending;
    EmptyPending(ResponseGiven, entries, responses);
    EmptyPending(CommentGiven, entries, responses);
    EmptyPending(EvidenceGiven, entries, responses);
    EmptyPending(FailureEvidenceGiven, entries, responses);
    forall e, check: Check | e in entries && (Pending(ResponseGiven, entries, responses) == [] && Pending(CommentGiven, entries, responses) == []
                                              && Pending(EvidenceGiven, entries, responses) == [] && Pending(FailureEvidenceGiven, entries, responses) == [])
      ensures !Misses(check, e.item, Find(responses, e.item.id))
    {
      match check case ResponseGiven => case CommentGiven => case EvidenceGiven => case FailureEvidenceGiven =>
    }
  }

  /** Every item is answered, pending or optional: the three counts add up. */
  lemma {:induction false} ItemsPartition(entries: seq<Entry>, responses: Responses)
    ensures var t := Count(entries, responses);
            t.answered + |Pending(ResponseGiven, entries, responses)| + t.optionalUnanswered == |entries|
  {
    if entries != [] { ItemsPartition(entries[..|entries| - 1], responses); }
  }

  predicate Passes(check: Check, e: Entry, responses: Responses) {
    !Misses(check, e.item, Find(responses, e.item.id))
  }

  lemma EmptyPending(check: Check, entries: seq<Entry>, responses: Responses)
    ensures Pending(check, entries, responses) == [] <==>
            forall e :: e in entries ==> !Misses(check, e.item, Find(responses, e.item.id))
  {
    EmptyMeansPassing(check, entries, responses);
    hide Pending, Misses, Find;
    forall i | 0 <= i < |entries| ensures entries[i] in entries {}
  }

  lemma {:induction false} EmptyMeansPassing(check: Check, entries: seq<Entry>, responses: Responses)
    ensures Pending(check, entries, responses) == [] <==> forall i :: 0 <= i < |entries| ==> Passes(check, entries[i], responses)
  {
    if entries != [] {
      var n := |entries| - 1;
      LastPending(check, entries, responses);
      EmptyMeansPassing(check, entries[..n], responses);
      hide Pending, Passes;
      var rest := entries[..n];
      if forall i :: 0 <= i < n ==> Passes(check, rest[i], responses) {
        forall i | 0 <= i < n ensures Passes(check, entries[i], responses) { assert rest[i] == entries[i]; }
      } else {
        var i :| 0 <= i < n && !Passes(check, rest[i], responses);
        assert entries[i] == rest[i];
      }
    }
  }

  lemma LastPending(check: Check, entries: seq<Entry>, responses: Responses)
    requires entries != []
    ensures var rest, last := entries[..|entries| - 1], entries[|entries| - 1];
            Pending(check, entries, responses) == [] <==>
            Pending(check, rest, responses) == [] && Passes(check, last, responses)
  {
    hide Misses, Find;
  }

  // ---------------------------------------------------------------------
  // Evidence is monotone.
  // ---------------------------------------------------------------------

  /** One more entry, which the second table misses only if the first does. */
  lemma PendingStep(check: Check, entries: seq<Entry>, before: Responses, after: Responses)
    requires entries != []
    requires var last := entries[|entries| - 1]; Passes(check, last, before) ==> Passes(check, last, after)
    requires var rest := entries[..|entries| - 1]; multiset(Pending(check, rest, after)) <= multiset(Pending(check, rest, before))
    ensures multiset(Pending(check, entries, after)) <= multiset(Pending(check, entries, before))
  {
    hide Misses, Find;
  }

  lemma {:induction false} FewerMissesFewerPending(check: Check, entries: seq<Entry>, before: Responses, after: Responses)
    requires forall i :: 0 <= i < |entries| ==> (Passes(check, entries[i], before) ==> Passes(check, entries[i], after))
    ensures multiset(Pending(check, entries, after)) <= multiset(Pending(check, entries, before))
  {
    if entries != [] {
      hide Pending, Passes;
      var n := |entries| - 1;
      assert forall i :: 0 <= i < n ==> entries[..n][i] == entries[i];
      FewerMissesFewerPending(check, entries[..n], before, after);
      PendingStep(check, entries, before, after);
    }
  }

  lemma ActiveCountAppend(evidences: seq<Evidence>, e: Evidence)
    ensures ActiveCount(evidences + [e]) == ActiveCount(evidences) + if Active(e) then 1 else 0
  {
  }

  /** Evidences differ only in that some that were active are no longer so. */
  lemma {:induction false} ActiveCountDelete(evidences: seq<Evidence>, i: nat, at: string)
    requires i < |evidences| && at != ""
    ensures var after := evidences[i := evidences[i].(deletedAt := Some(at))];
            ActiveCount(after) == ActiveCount(evidences) - if Active(evidences[i]) then 1 else 0
  {
    var n := |evidences| - 1;
    var after := evidences[i := evidences[i].(deletedAt := Some(at))];
    if i == n {
      assert after[..n] == evidences[..n];
    } else {
      ActiveCountDelete(evidences[..n], i, at);
      assert after[..n] == evidences[..n][i := evidences[i].(deletedAt := Some(at))];
    }
  }

  /** Adding an active evidence to a response lengthens no pending list and keeps completeness. */
  lemma AddingEvidenceHelps(sections: seq<Section>, responses: Responses, id: string, e: Evidence, check: Check)
    requires id in responses && Active(e)
    ensures var after := responses[id := responses[id].(evidences := responses[id].evidences + [e])];
            && multiset(Pending(check, Entries(sections), after)) <= multiset(Pending(check, Entries(sections), responses))
            && (IsComplete(sections, responses) ==> IsComplete(sections, after))
  {
    var after := responses[id := responses[id].(evidences := responses[id].evidences + [e])];
    ActiveCountAppend(responses[id].evidences, e);
    EvidenceOrder(sections, after, responses, id, after[id].evidences);
    forall i | 0 <= i < |Entries(sections)| ensures Entries(sections)[i] in Entries(sections) {}
    FewerMissesFewerPending(check, Entries(sections), responses, after);
  }

  /** Soft-deleting an evidence shortens no pending list and never makes a logbook complete. */
  lemma DeletingEvidenceHurts(sections: seq<Section>, responses: Responses, id: string, i: nat, at: string, check: Check)
    requires id in responses && i < |responses[id].evidences| && at != ""
    ensures var was := responses[id].evidences;
            var after := responses[id := responses[id].(evidences := was[i := was[i].(deletedAt := Some(at))])];
            && multiset(Pending(check, Entries(sections), responses)) <= multiset(Pending(check, Entries(sections), after))
            && (IsComplete(sections, after) ==> IsComplete(sections, responses))
  {
    var evidences := responses[id].evidences;
    var after := responses[id := responses[id].(evidences := evidences[i := evidences[i].(deletedAt := Some(at))])];
    ActiveCountDelete(evidences, i, at);
    EvidenceOrder(sections, responses, after, id, evidences);
    forall i | 0 <= i < |Entries(sections)| ensures Entries(sections)[i] in Entries(sections) {}
    FewerMissesFewerPending(check, Entries(sections), after, responses);
  }

  /** `more` and `fewer` differ in one response, which has more active evidences in `more`. */
  lemma EvidenceOrder(sections: seq<Section>, more: Responses, fewer: Responses, id: string, evidences: seq<Evidence>)
    requires id in fewer && more == fewer[id := fewer[id].(evidences := evidences)]
    requires ActiveCount(evidences) >= ActiveCount(fewer[id].evidences)
    ensures forall check: Check, e :: e in Entries(sections) && Misses(check, e.item, Find(more, e.item.id)) ==> Misses(check, e.item, Find(fewer, e.item.id))
    ensures IsComplete(sections, fewer) ==> IsComplete(sections, more)
  {
  }

  // ---------------------------------------------------------------------
  // The server's checks.
  // ---------------------------------------------------------------------

  datatype Refusal = RequiredItemMissing(title: string) | FailureCommentRequired(title: string) | EvidenceRequired(title: string)

  /** Evidences whose deleted_at is NULL. */
  function StoredCount(evidences: seq<Evidence>): nat {
    if evidences == [] then 0
    else StoredCount(evidences[..|evidences| - 1]) + if evidences[|evidences| - 1].deletedAt.None? then 1 else 0
  }

  function ServerCheck(item: Item, response: Option<Response>): Option<Refusal> {
    if item.isRequired && (response.None? || response.value.status == PENDING) then Some(RequiredItemMissing(item.title))
    else if response.None? then None
    else
      var r := response.value;
      if r.status == FAILED && item.requireCommentOnFailure && (r.comment.None? || r.comment.value == "") then
        Some(FailureCommentRequired(item.title))
      else if (item.evidencePolicy == REQUIRED || (item.evidencePolicy == REQUIRED_ON_FAILURE && r.status == FAILED))
           && StoredCount(r.evidences) < Minimum(item) then
        Some(EvidenceRequired(item.title))
      else None
  }

  /** The loop of submit(): the first refusal, in the order the items are read. */
  method CheckSubmission(items: seq<Item>, responses: Responses) returns (refusal: Option<Refusal>)
    ensures refusal == None <==> forall item :: item in items ==> ServerCheck(item, Find(responses, item.id)) == None
    ensures refusal.Some? ==>
              exists k :: 0 <= k < |items| && ServerCheck(items[k], Find(responses, items[k].id)) == refusal
                          && forall j :: 0 <= j < k ==> ServerCheck(items[j], Find(responses, items[j].id)) == None
  {
    for i := 0 to |items|
      invariant forall j :: 0 <= j < i ==> ServerCheck(items[j], Find(responses, items[j].id)) == None
    {
      var item, r := items[i], Find(responses, items[i].id);
      if item.isRequired && (r.None? || r.value.status == PENDING) {
        return Some(RequiredItemMissing(item.title));
      }
      if r.Some? && r.value.status == FAILED && item.requireCommentOnFailure && (r.value.comment.None? || r.value.comment.value == "") {
        return Some(FailureCommentRequired(item.title));
      }
      var evidenceCount := if r.Some? then StoredCount(r.value.evidences) else 0;
      if r.Some? && (item.evidencePolicy == REQUIRED || (item.evidencePolicy == REQUIRED_ON_FAILURE && r.value.status == FAILED))
         && evidenceCount < Minimum(item)
      {
        return Some(EvidenceRequired(item.title));
      }
    }
    return None;
  }

  /** The server accepts the response, but the browser still asks for something: an answer that
      carries no value, or a failure comment of blanks only. */
  predicate OnlyTheBrowserObjects(item: Item, response: Option<Response>) {
    && response.Some?
    && var r := response.value;
       || (item.isRequired && r.status != PENDING && !IsAnswered(response))
       || (r.status == FAILED && item.requireCommentOnFailure && r.comment.Some? && r.comment.value != "" && Blank(r.comment.value))
  }

  /** Deletion timestamps are never empty text. */
  predicate Timestamped(responses: Responses) {
    forall id :: id in responses ==> forall e :: e in responses[id].evidences ==> e.deletedAt != Some("")
  }

  lemma {:induction false} CountsAgree(evidences: seq<Evidence>)
    requires forall e :: e in evidences ==> e.deletedAt != Some("")
    ensures StoredCount(evidences) == ActiveCount(evidences)
  {
    if evidences != [] {
      assert evidences[|evidences| - 1] in evidences;
      CountsAgree(evidences[..|evidences| - 1]);
    }
  }

  lemma ItemChecksAgree(item: Item, response: Option<Response>)
    requires response.Some? ==> forall e :: e in response.value.evidences ==> e.deletedAt != Some("")
    ensures (forall check: Check :: !Misses(check, item, response)) <==>
            ServerCheck(item, response) == None && !OnlyTheBrowserObjects(item, response)
  {
    if response.Some? { CountsAgree(response.value.evidences); }
    assert (forall check: Check :: !Misses(check, item, response)) <==>
           !Misses(ResponseGiven, item, response) && !Misses(CommentGiven, item, response)
           && !Misses(EvidenceGiven, item, response) && !Misses(FailureEvidenceGiven, item, response);
  }

  /** A logbook is complete for the browser exactly when the server would accept it and no item
      is one only the browser objects to; so the server never refuses a complete logbook. */
  lemma CompleteMeansAccepted(sections: seq<Section>, responses: Responses)
    requires Timestamped(responses)
    ensures IsComplete(sections, responses) <==>
            forall e :: e in Entries(sections) ==>
              ServerCheck(e.item, Find(responses, e.item.id)) == None && !OnlyTheBrowserObjects(e.item, Find(responses, e.item.id))
  {
    forall e | e in Entries(sections)
      ensures (forall check: Check :: !Misses(check, e.item, Find(responses, e.item.id))) <==>
              ServerCheck(e.item, Find(responses, e.item.id)) == None && !OnlyTheBrowserObjects(e.item, Find(responses, e.item.id))
    {
      ItemChecksAgree(e.item, Find(responses, e.item.id));
    }
  }

  /** A required item marked as completed without any value: the server accepts it, the browser does not. */
  lemma AnAnswerWithoutValue(item: Item, title: string)
    requires item.isRequired && item.evidencePolicy == NONE
    ensures var responses := map[item.id := Response(COMPLETED, false, None, None, None, None, None, [])];
            && Timestamped(responses)
            && ServerCheck(item, Find(responses, item.id)) == None
            && !IsComplete([Section(title, [item])], responses)
  {
    var responses := map[item.id := Response(COMPLETED, false, None, None, None, None, None, [])];
    var sections := [Section(title, [item])];
    assert sections[..0] == [] && [item][..0] == [];
    assert SectionEntries(title, [item]) == [Entry(title, item)];
    assert Entries(sections) == [Entry(title, item)];
    assert Entry(title, item) in Entries(sections);
    assert Misses(ResponseGiven, item, Find(responses, item.id));
  }

  // ---------------------------------------------------------------------
  // What the counters count.
  // ---------------------------------------------------------------------

  function Positions(entries: seq<Entry>, p: Entry -> bool): set<nat> {
    set i | 0 <= i < |entries| && p(entries[i])
  }

  lemma PositionsStep(entries: seq<Entry>, p: Entry -> bool)
    requires entries != []
    ensures var n := |entries| - 1;
            |Positions(entries, p)| == |Positions(entries[..n], p)| + if p(entries[n]) then 1 else 0
  {
    var n := |entries| - 1;
    assert Positions(entries, p) == Positions(entries[..n], p) + if p(entries[n]) then {n} else {};
  }

  /** The numbers of items answered, optional without answer, and failed. */
  lemma {:induction false} CountIsCardinality(entries: seq<Entry>, responses: Responses)
    ensures var t := Count(entries, responses);
            && t.answered == |Positions(entries, (e: Entry) => HasAnswer(Find(responses, e.item.id)))|
            && t.optionalUnanswered == |Positions(entries, (e: Entry) => !HasAnswer(Find(responses, e.item.id)) && !e.item.isRequired)|
            && t.failed == |Positions(entries, (e: Entry) => e.item.id in responses && responses[e.item.id].status == FAILED)|
  {
    var answered := (e: Entry) => HasAnswer(Find(responses, e.item.id));
    var optional := (e: Entry) => !HasAnswer(Find(responses, e.item.id)) && !e.item.isRequired;
    var failed := (e: Entry) => e.item.id in responses && responses[e.item.id].status == FAILED;
    if entries != [] {
      var last := entries[|entries| - 1];
      CountIsCardinality(entries[..|entries| - 1], responses);
      AnsweredMeans(Find(responses, last.item.id));
      hide HasAnswer, IsAnswered;
      PositionsStep(entries, answered);
      PositionsStep(entries, optional);
      PositionsStep(entries, failed);
    }
  }

  function Sum(ns: seq<nat>): nat {
    if ns == [] then 0 else ns[0] + Sum(ns[1..])
  }

  lemma {:induction false} SumAppend(ns: seq<nat>, n: nat)
    ensures Sum(ns + [n]) == Sum(ns) + n
  {
    if ns == [] {
      assert ns + [n] == [n] && [n][1..] == [];
    } else {
      assert (ns + [n])[1..] == ns[1..] + [n];
      SumAppend(ns[1..], n);
    }
  }

  /** The kept evidences of each entry's response. */
  function KeptCounts(entries: seq<Entry>, responses: Responses): (ns: seq<nat>)
    ensures |ns| == |entries|
  {
    seq(|entries|, i requires 0 <= i < |entries| => KeptCount(Find(responses, entries[i].item.id)))
  }

  function KeptCount(response: Option<Response>): nat {
    if response.Some? then |Kept(response.value.evidences)| else 0
  }

  lemma KeptCountsStep(entries: seq<Entry>, responses: Responses)
    requires entries != []
    ensures var n := |entries| - 1;
            KeptCounts(entries, responses) == KeptCounts(entries[..n], responses) + [KeptCount(Find(responses, entries[n].item.id))]
  {
    hide KeptCount, Find;
  }

  lemma EvidencesStep(entries: seq<Entry>, responses: Responses)
    requires entries != []
    ensures var n := |entries| - 1;
            Count(entries, responses).evidences == Count(entries[..n], responses).evidences + KeptCount(Find(responses, entries[n].item.id))
  {
    var r := Find(responses, entries[|entries| - 1].item.id);
    if r.Some? { ActiveCountIsCardinality(r.value.evidences); }
    hide IsAnswered, ActiveCount, Kept, Find;
  }

  lemma {:induction false} EvidenceCountIsSum(entries: seq<Entry>, responses: Responses)
    ensures Count(entries, responses).evidences == Sum(KeptCounts(entries, responses))
  {
    if entries != [] {
      hide Count, KeptCounts, KeptCount;
      var n := |entries| - 1;
      EvidenceCountIsSum(entries[..n], responses);
      EvidencesStep(entries, responses);
      KeptCountsStep(entries, responses);
      SumAppend(KeptCounts(entries[..n], responses), KeptCount(Find(responses, entries[n].item.id)));
    }
  }
}
