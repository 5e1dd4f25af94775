/** The two response resolvers of a campaign contact: `questionResponseValues`, which decorates
    each (response, interaction step) row with its question, and `questionResponses`, which folds
    the flat (response x child step) join rows into one record per response. */
module Responses {
  import opened Wrappers
  import opened Contacts

  // ---------------------------------------------------------------------------
  // questionResponseValues

  /** A row of `question_response` joined with the interaction step it answers. */
  datatype QuestionRow = QuestionRow(value: string, interactionStepId: int, istepQuestion: string, istepId: int)

  datatype Question = Question(id: int, question: string)

  /** A row with the `question` object attached to it. */
  datatype QuestionResponseValue =
    QuestionResponseValue(value: string, interactionStepId: int, istepQuestion: string, istepId: int, question: Question)

  function WithQuestion(row: QuestionRow): QuestionResponseValue {
    QuestionResponseValue(row.value, row.interactionStepId, row.istepQuestion, row.istepId,
                          Question(row.istepId, row.istepQuestion))
  }

  /** The row's own columns, without the attached question. */
  function RowOf(v: QuestionResponseValue): QuestionRow {
    QuestionRow(v.value, v.interactionStepId, v.istepQuestion, v.istepId)
  }

  /** `questionResponseValues`: `rows` is what the response query returns for the contact.
      A contact still waiting for its first message gets no responses and no query is issued;
      any other contact gets every row back, in order, with `question = {id: istep_id,
      question: istep_question}` added and the row's columns left as they were. */
  function QuestionResponseValues(contact: Contact, rows: seq<QuestionRow>): (r: Traced<seq<QuestionResponseValue>>)
    ensures contact.messageStatus == NeedsMessage ==> r.value == [] && r.lookups == []
    ensures contact.messageStatus != NeedsMessage ==>
      && r.lookups == [QuestionResponseQuery(contact.id)]
      && |r.value| == |rows|
      && forall i :: 0 <= i < |rows| ==>
           && RowOf(r.value[i]) == rows[i]
           && r.value[i].question == Question(rows[i].istepId, rows[i].istepQuestion)
  {
    if contact.messageStatus == NeedsMessage then Traced([], [])
    else Traced(seq(|rows|, i requires 0 <= i < |rows| => WithQuestion(rows[i])),
                [QuestionResponseQuery(contact.id)])
  }

  // ---------------------------------------------------------------------------
  // questionResponses: the join-row aggregator

  /** One row of the response x child-step join, with the columns the fold reads. */
  datatype JoinRow = JoinRow(
    responseId: int,
    responseValue: string,
    childAnswerOption: string,
    childId: int,
    childCreatedAt: Timestamp,
    campaignId: int,
    question: string,
    scriptOptions: seq<string>)

  datatype AnswerOption = AnswerOption(value: string, interactionStepId: int)

  /** The `parent_interaction_step` object of an aggregated response. */
  datatype ParentStep = ParentStep(
    answerOption: string,
    answerOptions: seq<AnswerOption>,
    campaignId: int,
    createdAt: Timestamp,
    id: int,
    parentInteractionId: Option<int>,
    question: string,
    scriptOptions: seq<string>)

  /** One aggregated response. */
  datatype ResolvedResponse = ResolvedResponse(
    contactResponseValue: string,
    interactionStepId: int,
    parentInteractionStep: ParentStep,
    value: string)

  function OptionOf(row: JoinRow): AnswerOption {
    AnswerOption(row.childAnswerOption, row.childId)
  }

  /** The row's child step carries the answer the contact gave. */
  predicate Matches(row: JoinRow) {
    row.responseValue == row.childAnswerOption
  }

  /** The record a response id gets from the first row that carries it. The parent step's
      `parent_interaction_id` reads a column the join does not select, so it is always absent. */
  function Open(row: JoinRow): ResolvedResponse {
    ResolvedResponse(
      row.responseValue,
      row.childId,
      ParentStep("", [OptionOf(row)], row.campaignId, row.childCreatedAt, row.responseId, None,
                 row.question, row.scriptOptions),
      row.responseValue)
  }

  /** A later row of the same response: its option is appended, and it becomes the matched
      step when it carries the answer. */
  function Extend(rec: ResolvedResponse, row: JoinRow): ResolvedResponse {
    var p := rec.parentInteractionStep;
    rec.(interactionStepId := if Matches(row) then row.childId else rec.interactionStepId,
         parentInteractionStep := p.(answerOptions := p.answerOptions + [OptionOf(row)]))
  }

  /** One iteration of the aggregation loop. */
  function Step(formatted: map<int, ResolvedResponse>, row: JoinRow): (r: map<int, ResolvedResponse>)
    ensures r.Keys == formatted.Keys + {row.responseId}
    ensures forall id :: id in formatted && id != row.responseId ==> r[id] == formatted[id]
  {
    if row.responseId in formatted then formatted[row.responseId := Extend(formatted[row.responseId], row)]
    else formatted[row.responseId := Open(row)]
  }

  /** `questionResponses`: the left-to-right fold of `Step` over the join rows, keyed by
      response id. */
  function Aggregate(rows: seq<JoinRow>): map<int, ResolvedResponse>
  {
    if |rows| == 0 then map[] else Step(Aggregate(rows[..|rows| - 1]), rows[|rows| - 1])
  }

  // Reference description of the aggregate, one response at a time.

  function ResponseIds(rows: seq<JoinRow>): set<int> {
    set row | row in rows :: row.responseId
  }

  /** The rows that carry response `id`, in input order. */
  function RowsFor(rows: seq<JoinRow>, id: int): (rs: seq<JoinRow>)
    ensures forall k :: 0 <= k < |rs| ==> rs[k].responseId == id && rs[k] in rows
  {
    if |rows| == 0 then []
    else
      var last := rows[|rows| - 1];
      RowsFor(rows[..|rows| - 1], id) + (if last.responseId == id then [last] else [])
  }

  function OptionsOf(rs: seq<JoinRow>): (opts: seq<AnswerOption>)
  {
    seq(|rs|, k requires 0 <= k < |rs| => OptionOf(rs[k]))
  }

  /** The child step of the last row that carries the answer, if any does. */
  function LastMatch(rs: seq<JoinRow>): Option<int>
  {
    if |rs| == 0 then None
    else if Matches(rs[|rs| - 1]) then Some(rs[|rs| - 1].childId)
    else LastMatch(rs[..|rs| - 1])
  }

  /** What the record of one response should be, given that response's rows `rs`: its value
      and parent-step fields come from the first row, its answer options are the rows' child
      steps in order, and its matched step is the last child carrying the answer, or the first
      row's child when none does. */
  function Expected(rs: seq<JoinRow>): ResolvedResponse
    requires |rs| > 0
  {
    var first := rs[0];
    ResolvedResponse(
      first.responseValue,
      LastMatch(rs).GetOr(first.childId),
      ParentStep("", OptionsOf(rs), first.campaignId, first.childCreatedAt, first.responseId, None,
                 first.question, first.scriptOptions),
      first.responseValue)
  }

  lemma {:induction false} RowsForEmpty(rows: seq<JoinRow>, id: int)
    ensures |RowsFor(rows, id)| > 0 <==> id in ResponseIds(rows)
  {
    if |rows| > 0 {
      var pre := rows[..|rows| - 1];
      RowsForEmpty(pre, id);
      assert rows == pre + [rows[|rows| - 1]];
      assert ResponseIds(rows) == ResponseIds(pre) + {rows[|rows| - 1].responseId};
    }
  }

  /** Appending a row to a response's rows is what `Extend` does to its record. */
  lemma ExtendExpected(rs: seq<JoinRow>, row: JoinRow)
    requires |rs| > 0
    ensures Extend(Expected(rs), row) == Expected(rs + [row])
  {
    var rs' := rs + [row];
    assert rs'[..|rs'| - 1] == rs;
    assert OptionsOf(rs') == OptionsOf(rs) + [OptionOf(row)];
  }

  lemma OpenExpected(row: JoinRow)
    ensures Open(row) == Expected([row])
  {
    assert [row][..0] == [];
    assert LastMatch([row]).GetOr(row.childId) == row.childId;
    assert OptionsOf([row]) == [OptionOf(row)];
  }

  /** One more row of a response already in the fold extends that response's record. */
  lemma StepExisting(pre: seq<JoinRow>, x: JoinRow)
    requires x.responseId in Aggregate(pre)
    requires |RowsFor(pre, x.responseId)| > 0
    requires Aggregate(pre)[x.responseId] == Expected(RowsFor(pre, x.responseId))
    ensures Aggregate(pre + [x])[x.responseId] == Expected(RowsFor(pre + [x], x.responseId))
  {
    var rows := pre + [x];
    assert rows[..|rows| - 1] == pre;
    assert rows[|rows| - 1] == x;
    assert Aggregate(rows) == Step(Aggregate(pre), x);
    assert RowsFor(rows, x.responseId) == RowsFor(pre, x.responseId) + [x];
    ExtendExpected(RowsFor(pre, x.responseId), x);
  }

  /** The first row of a response opens its record. */
  lemma StepNew(pre: seq<JoinRow>, x: JoinRow)
    requires x.responseId !in Aggregate(pre)
    requires x.responseId !in ResponseIds(pre)
    ensures |RowsFor(pre + [x], x.responseId)| > 0
    ensures Aggregate(pre + [x])[x.responseId] == Expected(RowsFor(pre + [x], x.responseId))
  {
    var rows := pre + [x];
    assert rows[..|rows| - 1] == pre;
    assert rows[|rows| - 1] == x;
    assert Aggregate(rows) == Step(Aggregate(pre), x);
    RowsForEmpty(pre, x.responseId);
    assert RowsFor(rows, x.responseId) == [x];
    OpenExpected(x);
  }

  /** A row of another response leaves a record alone. */
  lemma StepOther(pre: seq<JoinRow>, x: JoinRow, id: int)
    requires id in Aggregate(pre) && id != x.responseId
    requires |RowsFor(pre, id)| > 0 && Aggregate(pre)[id] == Expected(RowsFor(pre, id))
    ensures |RowsFor(pre + [x], id)| > 0 && Aggregate(pre + [x])[id] == Expected(RowsFor(pre + [x], id))
  {
    var rows := pre + [x];
    assert rows[..|rows| - 1] == pre;
    assert rows[|rows| - 1] == x;
    assert Aggregate(rows) == Step(Aggregate(pre), x);
    assert RowsFor(rows, id) == RowsFor(pre, id);
  }

  /** The fold has exactly one record per distinct response id. */
  lemma {:induction false} AggregateKeys(rows: seq<JoinRow>)
    ensures Aggregate(rows).Keys == ResponseIds(rows)
  {
    if |rows| > 0 {
      var pre := rows[..|rows| - 1];
      var x := rows[|rows| - 1];
      AggregateKeys(pre);
      assert rows == pre + [x];
      assert ResponseIds(rows) == ResponseIds(pre) + {x.responseId};
    }
  }

  /** Each record of the fold is the one its own rows describe. */
  lemma {:induction false} AggregateIsPerResponse(rows: seq<JoinRow>, id: int)
    requires id in Aggregate(rows)
    ensures |RowsFor(rows, id)| > 0 && Aggregate(rows)[id] == Expected(RowsFor(rows, id))
  {
    var pre := rows[..|rows| - 1];
    var x := rows[|rows| - 1];
    assert rows == pre + [x];
    if id != x.responseId {
      AggregateIsPerResponse(pre, id);
      StepOther(pre, x, id);
    } else if id in Aggregate(pre) {
      AggregateIsPerResponse(pre, id);
      StepExisting(pre, x);
    } else {
      AggregateKeys(pre);
      StepNew(pre, x);
    }
  }

  // Properties of the aggregate stated over positions in the input.

  /** Row `f` is the first row of response `id`. */
  predicate IsFirstRow(rows: seq<JoinRow>, id: int, f: int) {
    && 0 <= f < |rows|
    && rows[f].responseId == id
    && forall j :: 0 <= j < f ==> rows[j].responseId != id
  }

  /** Row `k` is the last row of response `id` whose child carries the answer. */
  predicate IsLastMatch(rows: seq<JoinRow>, id: int, k: int) {
    && 0 <= k < |rows|
    && rows[k].responseId == id
    && Matches(rows[k])
    && forall j :: k < j < |rows| && rows[j].responseId == id ==> !Matches(rows[j])
  }

  predicate HasMatch(rows: seq<JoinRow>, id: int) {
    exists k :: 0 <= k < |rows| && rows[k].responseId == id && Matches(rows[k])
  }

  lemma NoRowsFor(rows: seq<JoinRow>, id: int)
    requires |RowsFor(rows, id)| == 0
    ensures forall j :: 0 <= j < |rows| ==> rows[j].responseId != id
  {
    RowsForEmpty(rows, id);
    forall j | 0 <= j < |rows|
      ensures rows[j].responseId != id
    {
      assert rows[j] in rows;
    }
  }

  lemma {:induction false} FirstRowIndex(rows: seq<JoinRow>, id: int)
    requires |RowsFor(rows, id)| > 0
    ensures exists f :: IsFirstRow(rows, id, f) && RowsFor(rows, id)[0] == rows[f]
  {
    var pre := rows[..|rows| - 1];
    var x := rows[|rows| - 1];
    if |RowsFor(pre, id)| > 0 {
      FirstRowIndex(pre, id);
      var f :| IsFirstRow(pre, id, f) && RowsFor(pre, id)[0] == pre[f];
      assert IsFirstRow(rows, id, f);
    } else {
      NoRowsFor(pre, id);
      assert IsFirstRow(rows, id, |rows| - 1);
    }
  }

  lemma {:induction false} LastMatchIndex(rows: seq<JoinRow>, id: int)
    ensures LastMatch(RowsFor(rows, id)).Some? ==>
      exists k :: IsLastMatch(rows, id, k) && rows[k].childId == LastMatch(RowsFor(rows, id)).value
    ensures LastMatch(RowsFor(rows, id)).None? ==> !HasMatch(rows, id)
  {
    if |rows| > 0 {
      var pre := rows[..|rows| - 1];
      var x := rows[|rows| - 1];
      LastMatchIndex(pre, id);
      var rs := RowsFor(rows, id);
      if x.responseId == id {
        assert rs == RowsFor(pre, id) + [x];
        assert rs[..|rs| - 1] == RowsFor(pre, id);
        if Matches(x) {
          assert IsLastMatch(rows, id, |rows| - 1);
        } else if LastMatch(rs).Some? {
          var k :| IsLastMatch(pre, id, k) && pre[k].childId == LastMatch(RowsFor(pre, id)).value;
          assert IsLastMatch(rows, id, k);
        }
      } else {
        assert rs == RowsFor(pre, id);
        if LastMatch(rs).Some? {
          var k :| IsLastMatch(pre, id, k) && pre[k].childId == LastMatch(RowsFor(pre, id)).value;
          assert IsLastMatch(rows, id, k);
        } else {
          if HasMatch(rows, id) {
            var k :| 0 <= k < |rows| && rows[k].responseId == id && Matches(rows[k]);
            assert k < |pre|;
            assert HasMatch(pre, id);
          }
        }
      }
    }
  }

  /** A record's answer options are the (answer option, child id) pairs of that response's
      rows, in input order, so there are as many as the response has rows. */
  lemma AnswerOptionsFollowRows(rows: seq<JoinRow>, id: int)
    requires id in ResponseIds(rows)
    ensures id in Aggregate(rows)
    ensures var opts := Aggregate(rows)[id].parentInteractionStep.answerOptions;
      var rs := RowsFor(rows, id);
      && |opts| == |rs|
      && forall k :: 0 <= k < |rs| ==> opts[k] == AnswerOption(rs[k].childAnswerOption, rs[k].childId)
  {
    AggregateKeys(rows);
    AggregateIsPerResponse(rows, id);
  }

  /** A record's matched step is the child of the last row of that response carrying the
      answer; when no row carries it, the child of the response's first row. */
  lemma MatchedStepIsLastMatch(rows: seq<JoinRow>, id: int)
    requires id in ResponseIds(rows)
    ensures id in Aggregate(rows)
    ensures HasMatch(rows, id) ==>
      exists k :: IsLastMatch(rows, id, k) && Aggregate(rows)[id].interactionStepId == rows[k].childId
    ensures !HasMatch(rows, id) ==>
      exists f :: IsFirstRow(rows, id, f) && Aggregate(rows)[id].interactionStepId == rows[f].childId
  {
    AggregateKeys(rows);
    AggregateIsPerResponse(rows, id);
    LastMatchIndex(rows, id);
    FirstRowIndex(rows, id);
  }

  /** When exactly one row of a response carries its answer, that row's child is the matched
      step, wherever the row sits among the others. */
  lemma UniqueMatchDecides(rows: seq<JoinRow>, id: int, k: int)
    requires 0 <= k < |rows| && rows[k].responseId == id && Matches(rows[k])
    requires forall j :: 0 <= j < |rows| && j != k && rows[j].responseId == id ==> !Matches(rows[j])
    ensures id in Aggregate(rows)
    ensures Aggregate(rows)[id].interactionStepId == rows[k].childId
  {
    assert rows[k] in rows;
    MatchedStepIsLastMatch(rows, id);
    assert HasMatch(rows, id);
  }

  /** The response value and the parent-step fields come from the first row of a response;
      the parent step's own answer option is empty, its id is the response id, and its
      `parent_interaction_id` is absent. */
  lemma FirstRowFixesFields(rows: seq<JoinRow>, id: int)
    requires id in ResponseIds(rows)
    ensures id in Aggregate(rows)
    ensures exists f ::
      && IsFirstRow(rows, id, f)
      && Aggregate(rows)[id].value == rows[f].responseValue
      && Aggregate(rows)[id].contactResponseValue == rows[f].responseValue
      && Aggregate(rows)[id].parentInteractionStep ==
           ParentStep("", Aggregate(rows)[id].parentInteractionStep.answerOptions, rows[f].campaignId,
                      rows[f].childCreatedAt, id, None, rows[f].question, rows[f].scriptOptions)
  {
    AggregateKeys(rows);
    AggregateIsPerResponse(rows, id);
    FirstRowIndex(rows, id);
  }

  /** A later row of a response already seen changes only that record's answer options
      (one appended) and its matched step (replaced only when the row carries the answer);
      every other record is left alone. */
  lemma LaterRowChangesOnlyOptionsAndStep(formatted: map<int, ResolvedResponse>, row: JoinRow)
    requires row.responseId in formatted
    ensures var before := formatted[row.responseId];
      var after := Step(formatted, row)[row.responseId];
      && after.value == before.value
      && after.contactResponseValue == before.contactResponseValue
      && after.parentInteractionStep.answerOptions
           == before.parentInteractionStep.answerOptions + [AnswerOption(row.childAnswerOption, row.childId)]
      && after.parentInteractionStep == before.parentInteractionStep.(answerOptions := after.parentInteractionStep.answerOptions)
      && after.interactionStepId == (if row.childAnswerOption == row.responseValue then row.childId else before.interactionStepId)
    ensures forall id :: id in formatted && id != row.responseId ==> Step(formatted, row)[id] == formatted[id]
  {
  }

  /** Two rows of one response whose children carry the same answer: the matched step is
      whichever comes last, so reordering the rows changes it. */
  lemma DuplicateAnswerLastWins()
    ensures var a := JoinRow(7, "yes", "yes", 1, "t", 3, "q", ["s"]);
      var b := JoinRow(7, "yes", "yes", 2, "t", 3, "q", ["s"]);
      && Aggregate([a, b])[7].interactionStepId == 2
      && Aggregate([b, a])[7].interactionStepId == 1
  {
    var a := JoinRow(7, "yes", "yes", 1, "t", 3, "q", ["s"]);
    var b := JoinRow(7, "yes", "yes", 2, "t", 3, "q", ["s"]);
    assert [a, b][..1] == [a];
    assert [b, a][..1] == [b];
    assert [a][..0] == [];
    assert [b][..0] == [];
  }

  /** `questionResponses`: `rows` is what the response x child-step join returns for the
      contact. The join is issued for every contact, whatever its message status, and the
      result holds one record per distinct response id, each the one its own rows describe. */
  function QuestionResponses(contact: Contact, rows: seq<JoinRow>): (r: Traced<map<int, ResolvedResponse>>)
    ensures r.lookups == [QuestionResponseJoin(contact.id)]
    ensures r.value.Keys == ResponseIds(rows)
    ensures forall id :: id in r.value ==>
      |RowsFor(rows, id)| > 0 && r.value[id] == Expected(RowsFor(rows, id))
  {
    AggregateKeys(rows);
    forall id | id in Aggregate(rows)
      ensures |RowsFor(rows, id)| > 0 && Aggregate(rows)[id] == Expected(RowsFor(rows, id))
    {
      AggregateIsPerResponse(rows, id);
    }
    Traced(Aggregate(rows), [QuestionResponseJoin(contact.id)])
  }
}
