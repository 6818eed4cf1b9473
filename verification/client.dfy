/** The pure helpers of the single-page client: the pronoun label, the
    marks table indexed by student, the list of students that can still be
    enrolled, the two field-update reducers, the assessment form's resets,
    and the request body `saveMark` posts. */
module Client {
  import opened Wrappers
  import opened Seqs
  import opened Js
  import opened Store

  /** `pronounLabel`: strict equality, so only the numbers 1 and 2 have
      their own label and every other value reads "they/them". */
  function PronounLabel(p: Option<Value>): (r: string)
    ensures r == "he/him" <==> p == Some(Num(1))
    ensures r == "she/her" <==> p == Some(Num(2))
    ensures r == "they/them" <==> p != Some(Num(1)) && p != Some(Num(2))
  {
    if p == Some(Num(1)) then "he/him"
    else if p == Some(Num(2)) then "she/her"
    else "they/them"
  }

  /** The pronoun picker's options reach the state as the strings "1",
      "2" and "3", which the change handler stores as `Number(value)`; the
      stored number labels back to the option's caption. */
  lemma PronounOptionsMatchLabels()
    ensures ToNumber(Some(Text("1"))).Some? && PronounLabel(Some(Num(ToNumber(Some(Text("1"))).value))) == "he/him"
    ensures ToNumber(Some(Text("2"))).Some? && PronounLabel(Some(Num(ToNumber(Some(Text("2"))).value))) == "she/her"
    ensures ToNumber(Some(Text("3"))).Some? && PronounLabel(Some(Num(ToNumber(Some(Text("3"))).value))) == "they/them"
  {
  }

  /** A student as the `/students` route lists it. */
  datatype StudentRow = StudentRow(id: int, firstName: string, lastName: string, pronouns: Option<Value>)

  /** `enrolled.some(es => es.id === id)`. */
  predicate HasId(students: seq<StudentRow>, id: int)
  {
    exists s :: s in students && s.id == id
  }

  /** The "Add student to class" options: the students of `all` whose id is
      not among the enrolled students, in their original order. */
  function EnrollmentCandidates(all: seq<StudentRow>, enrolled: seq<StudentRow>): (r: seq<StudentRow>)
    ensures |r| <= |all|
    ensures forall s :: s in r <==> s in all && !HasId(enrolled, s.id)
  {
    Filter(all, (s: StudentRow) => !HasId(enrolled, s.id))
  }

  /** The candidates keep the order and the multiplicity of the full list:
      candidates of a concatenation are the concatenated candidates, and a
      student is offered as often as it appears in `all` unless enrolled. */
  lemma CandidatesKeepOrder(a: seq<StudentRow>, b: seq<StudentRow>, enrolled: seq<StudentRow>, s: StudentRow)
    ensures EnrollmentCandidates(a + b, enrolled)
         == EnrollmentCandidates(a, enrolled) + EnrollmentCandidates(b, enrolled)
    ensures multiset(EnrollmentCandidates(a, enrolled))[s]
         == if HasId(enrolled, s.id) then 0 else multiset(a)[s]
  {
    FilterAppend(a, b, (s: StudentRow) => !HasId(enrolled, s.id));
    FilterCount(a, (s: StudentRow) => !HasId(enrolled, s.id), s);
  }

  /** Once every student is enrolled nobody is offered. */
  lemma NoCandidatesWhenAllEnrolled(all: seq<StudentRow>)
    ensures EnrollmentCandidates(all, all) == []
  {
    forall i | 0 <= i < |all|
      ensures HasId(all, all[i].id)
    {
      assert all[i] in all;
    }
    FilterNone(all, (s: StudentRow) => !HasId(all, s.id));
  }

  // The eight component fields of a mark, as the client and the server name them.
  const KnowledgeReceived: string := "knowledge_and_understanding_received"
  const KnowledgeOutOf: string := "knowledge_and_understanding_out_of"
  const ThinkingReceived: string := "thinking_and_inquiry_received"
  const ThinkingOutOf: string := "thinking_and_inquiry_out_of"
  const ApplicationReceived: string := "application_received"
  const ApplicationOutOf: string := "application_out_of"
  const CommunicationReceived: string := "communication_received"
  const CommunicationOutOf: string := "communication_out_of"

  const ComponentFields: seq<string> := [
    KnowledgeReceived, KnowledgeOutOf, ThinkingReceived, ThinkingOutOf,
    ApplicationReceived, ApplicationOutOf, CommunicationReceived, CommunicationOutOf]

  /** The `i`-th component of a mark, in the order of `ComponentFields`. */
  function ComponentAt(c: Components, i: int): (v: int)
    requires 0 <= i < 8
  {
    match i
    case 0 => c.knowledgeReceived
    case 1 => c.knowledgeOutOf
    case 2 => c.thinkingReceived
    case 3 => c.thinkingOutOf
    case 4 => c.applicationReceived
    case 5 => c.applicationOutOf
    case 6 => c.communicationReceived
    case _ => c.communicationOutOf
  }

  /** A mark row as the client receives it in JSON. */
  function EntryOf(m: Mark): (o: Obj)
    ensures Get(o, "student_id") == Some(Num(m.studentId))
  {
    map[
      "assessment_id" := Num(m.assessmentId),
      "student_id" := Num(m.studentId),
      KnowledgeReceived := Num(m.components.knowledgeReceived),
      KnowledgeOutOf := Num(m.components.knowledgeOutOf),
      ThinkingReceived := Num(m.components.thinkingReceived),
      ThinkingOutOf := Num(m.components.thinkingOutOf),
      ApplicationReceived := Num(m.components.applicationReceived),
      ApplicationOutOf := Num(m.components.applicationOutOf),
      CommunicationReceived := Num(m.components.communicationReceived),
      CommunicationOutOf := Num(m.components.communicationOutOf)]
  }

  /** No later element of `xs` has the same key as `xs[i]`. */
  predicate LastWithKey<T>(xs: seq<T>, key: T -> int, i: int)
    requires 0 <= i < |xs|
  {
    forall j :: i < j < |xs| ==> key(xs[j]) != key(xs[i])
  }

  /** `r` is what assigning `r[key(x)] = val(x)` for each `x` of `xs` in
      turn produces: every key that occurs is present, the element last
      assigned under a key is the one kept, and every entry comes from an
      element with its key. */
  ghost predicate IndexedBy<T, V>(r: map<int, V>, xs: seq<T>, key: T -> int, val: T -> V)
  {
    && (forall i :: 0 <= i < |xs| ==> key(xs[i]) in r)
    && (forall i :: 0 <= i < |xs| && LastWithKey(xs, key, i) ==> r[key(xs[i])] == val(xs[i]))
    && (forall k :: k in r ==> exists i :: 0 <= i < |xs| && key(xs[i]) == k && r[k] == val(xs[i]))
  }

  /** One more assignment extends an index of a prefix to an index of the
      prefix and the new element. */
  lemma IndexStep<T, V>(before: map<int, V>, xs: seq<T>, key: T -> int, val: T -> V)
    requires |xs| > 0
    requires IndexedBy(before, xs[..|xs| - 1], key, val)
    ensures IndexedBy(before[key(xs[|xs| - 1]) := val(xs[|xs| - 1])], xs, key, val)
  {
    var init := xs[..|xs| - 1];
    var last := xs[|xs| - 1];
    var r := before[key(last) := val(last)];
    forall i | 0 <= i < |xs|
      ensures key(xs[i]) in r
    {
      if i < |init| {
        assert init[i] == xs[i];
      }
    }
    forall i | 0 <= i < |xs| && LastWithKey(xs, key, i)
      ensures r[key(xs[i])] == val(xs[i])
    {
      if i < |init| {
        assert init[i] == xs[i];
        assert LastWithKey(init, key, i);
      }
    }
    forall k | k in r
      ensures exists i :: 0 <= i < |xs| && key(xs[i]) == k && r[k] == val(xs[i])
    {
      if k == key(last) {
        assert key(xs[|xs| - 1]) == k && r[k] == val(xs[|xs| - 1]);
      } else {
        var i :| 0 <= i < |init| && key(init[i]) == k && before[k] == val(init[i]);
        assert xs[i] == init[i];
      }
    }
  }

  /** `xs.forEach(x => o[key(x)] = val(x))` starting from an empty object. */
  function IndexBy<T, V>(xs: seq<T>, key: T -> int, val: T -> V): (r: map<int, V>)
    ensures IndexedBy(r, xs, key, val)
  {
    if |xs| == 0 then map[]
    else
      var before := IndexBy(xs[..|xs| - 1], key, val);
      IndexStep(before, xs, key, val);
      before[key(xs[|xs| - 1]) := val(xs[|xs| - 1])]
  }

  function StudentOf(m: Mark): (id: int)
  {
    m.studentId
  }

  /** `res.data.forEach(mark => marksMap[mark.student_id] = mark)`: every
      student with a mark is a key, it holds that student's last mark, and
      the entry under a key is a mark of that student. */
  function IndexMarks(marks: seq<Mark>): (r: map<int, Obj>)
    ensures forall i :: 0 <= i < |marks| ==> marks[i].studentId in r
    ensures forall k :: k in r ==> exists i :: 0 <= i < |marks| && marks[i].studentId == k
    ensures forall i :: 0 <= i < |marks| && LastWithKey(marks, StudentOf, i) ==>
      r[marks[i].studentId] == EntryOf(marks[i])
    ensures forall k :: k in r ==> Get(r[k], "student_id") == Some(Num(k))
  {
    IndexBy(marks, StudentOf, EntryOf)
  }

  /** `{ ...prev[studentId] }`: the student's entry, or an empty object when
      there is none (spreading `undefined` copies nothing). */
  function EntryOrEmpty(marks: map<int, Obj>, studentId: int): (o: Obj)
  {
    if studentId in marks then marks[studentId] else map[]
  }

  /** `updateMarkField`: sets one field of one student's entry, creating the
      entry if needed; the entry's other fields and every other student's
      entry are unchanged. */
  function UpdateMarkField(marks: map<int, Obj>, studentId: int, field: string, value: Value)
    : (r: map<int, Obj>)
    ensures r.Keys == marks.Keys + {studentId}
    ensures Get(r[studentId], field) == Some(value)
    ensures r[studentId].Keys == EntryOrEmpty(marks, studentId).Keys + {field}
    ensures forall g :: g != field ==> Get(r[studentId], g) == Get(EntryOrEmpty(marks, studentId), g)
    ensures forall k :: k in marks && k != studentId ==> r[k] == marks[k]
  {
    marks[studentId := Assign(EntryOrEmpty(marks, studentId), field, value)]
  }

  /** Of two writes to the same field, the later one wins. */
  lemma UpdateMarkFieldLastWins(marks: map<int, Obj>, studentId: int, field: string, v1: Value, v2: Value)
    ensures UpdateMarkField(UpdateMarkField(marks, studentId, field, v1), studentId, field, v2)
         == UpdateMarkField(marks, studentId, field, v2)
  {
    var e := EntryOrEmpty(marks, studentId);
    assert EntryOrEmpty(UpdateMarkField(marks, studentId, field, v1), studentId) == e[field := v1];
    assert e[field := v1][field := v2] == e[field := v2];
  }

  /** Writes to different fields, or to different students, commute. */
  lemma UpdateMarkFieldCommutes(marks: map<int, Obj>, s1: int, f1: string, v1: Value, s2: int, f2: string, v2: Value)
    requires s1 != s2 || f1 != f2
    ensures UpdateMarkField(UpdateMarkField(marks, s1, f1, v1), s2, f2, v2)
         == UpdateMarkField(UpdateMarkField(marks, s2, f2, v2), s1, f1, v1)
  {
    var e1 := EntryOrEmpty(marks, s1);
    var e2 := EntryOrEmpty(marks, s2);
    if s1 == s2 {
      assert e1[f1 := v1][f2 := v2] == e1[f2 := v2][f1 := v1];
    } else {
      var m1 := UpdateMarkField(marks, s1, f1, v1);
      var m2 := UpdateMarkField(marks, s2, f2, v2);
      assert EntryOrEmpty(m1, s2) == e2;
      assert EntryOrEmpty(m2, s1) == e1;
      assert marks[s1 := e1[f1 := v1]][s2 := e2[f2 := v2]]
          == marks[s2 := e2[f2 := v2]][s1 := e1[f1 := v1]];
    }
  }

  /** `updateAssessmentForm`: changes only the given field of the form. */
  function UpdateAssessmentForm(form: Obj, field: string, value: Value): (r: Obj)
    ensures Get(r, field) == Some(value)
    ensures forall g :: g != field ==> Get(r, g) == Get(form, g)
  {
    Assign(form, field, value)
  }

  /** The form's reset value `{ name: "", weight: 1 }`. */
  const BlankForm: Obj := map["name" := Text(""), "weight" := Num(1)]

  /** What the assessment form shows and which assessment, if any, it edits. */
  datatype FormState = FormState(form: Obj, editing: Option<Assessment>)

  const InitialForm: FormState := FormState(BlankForm, None)

  /** The events that change the assessment form: typing into a field,
      clicking Edit on an assessment, clicking Cancel, a completed add and a
      completed update. Only the update's completion stops editing; an add
      completes with the form reset and leaves `editing` as it is then. */
  datatype FormEvent =
    | Typed(field: string, value: Value)
    | StartEdit(assessment: Assessment)
    | CancelEdit
    | AddDone
    | UpdateDone

  function FormStep(st: FormState, ev: FormEvent): (r: FormState)
    ensures ev.UpdateDone? || ev.CancelEdit? ==> r == InitialForm
    ensures ev.AddDone? ==> r.form == BlankForm && r.editing == st.editing
    ensures ev.StartEdit? ==>
      && r.editing == Some(ev.assessment)
      && Get(r.form, "name") == Some(Text(ev.assessment.name))
      && Get(r.form, "weight") == Some(Num(ev.assessment.weight))
    ensures ev.Typed? ==>
      && r.editing == st.editing
      && Get(r.form, ev.field) == Some(ev.value)
      && forall g :: g != ev.field ==> Get(r.form, g) == Get(st.form, g)
  {
    match ev
    case Typed(field, value) => st.(form := UpdateAssessmentForm(st.form, field, value))
    case StartEdit(a) => FormState(map["name" := Text(a.name), "weight" := Num(a.weight)], Some(a))
    case CancelEdit => InitialForm
    case AddDone => st.(form := BlankForm)
    case UpdateDone => InitialForm
  }

  /** The form after a sequence of events, earliest first. */
  function RunForm(st: FormState, evs: seq<FormEvent>): (r: FormState)
    decreases |evs|
  {
    if |evs| == 0 then st else RunForm(FormStep(st, evs[0]), evs[1..])
  }

  /** Running the events one more at a time is running them all. */
  lemma {:induction false} RunFormSnoc(st: FormState, evs: seq<FormEvent>, ev: FormEvent)
    ensures RunForm(st, evs + [ev]) == FormStep(RunForm(st, evs), ev)
    decreases |evs|
  {
    if |evs| == 0 {
      assert evs + [ev] == [ev];
    } else {
      assert (evs + [ev])[1..] == evs[1..] + [ev];
      RunFormSnoc(FormStep(st, evs[0]), evs[1..], ev);
    }
  }

  /** Whatever happened before, a completed add or update leaves the form
      blank; an update also stops editing, while an add keeps whatever Edit
      was clicked in the meantime. */
  lemma SavedResetsForm(st: FormState, evs: seq<FormEvent>)
    ensures RunForm(st, evs + [UpdateDone]) == InitialForm
    ensures RunForm(st, evs + [AddDone]).form == BlankForm
    ensures RunForm(st, evs + [AddDone]).editing == RunForm(st, evs).editing
  {
    RunFormSnoc(st, evs, UpdateDone);
    RunFormSnoc(st, evs, AddDone);
  }

  /** The body `saveMark` posts to `/assessments/:assessmentId/marks`. */
  datatype MarkRequest = MarkRequest(assessmentId: int, studentId: int, components: Components)

  /** Each component is `Number(entry[field]) || 0`. */
  function ComponentsOf(entry: Obj): (c: Components)
    ensures forall i :: 0 <= i < 8 ==> ComponentAt(c, i) == NumberOrZero(Get(entry, ComponentFields[i]))
  {
    Components(
      NumberOrZero(Get(entry, KnowledgeReceived)), NumberOrZero(Get(entry, KnowledgeOutOf)),
      NumberOrZero(Get(entry, ThinkingReceived)), NumberOrZero(Get(entry, ThinkingOutOf)),
      NumberOrZero(Get(entry, ApplicationReceived)), NumberOrZero(Get(entry, ApplicationOutOf)),
      NumberOrZero(Get(entry, CommunicationReceived)), NumberOrZero(Get(entry, CommunicationOutOf)))
  }

  /** `saveMark`: nothing is sent without a selected assessment (id `null`
      or the falsy 0) or without an entry for the student; otherwise the
      request carries the assessment, the student and the eight coerced
      components. */
  function SaveMark(selected: Option<int>, marks: map<int, Obj>, studentId: int): (r: Option<MarkRequest>)
    ensures r.None? <==> selected.None? || selected == Some(0) || studentId !in marks
    ensures r.Some? ==>
      && r.value.assessmentId == selected.value
      && r.value.studentId == studentId
      && forall i :: 0 <= i < 8 ==>
           ComponentAt(r.value.components, i) == NumberOrZero(Get(marks[studentId], ComponentFields[i]))
  {
    if selected.None? || selected.value == 0 || studentId !in marks then None
    else Some(MarkRequest(selected.value, studentId, ComponentsOf(marks[studentId])))
  }

  /** Coercing the components of a received mark row gives the mark's components. */
  lemma EntryComponents(m: Mark)
    ensures ComponentsOf(EntryOf(m)) == m.components
  {
    var e := EntryOf(m);
    assert e[KnowledgeReceived] == Num(m.components.knowledgeReceived);
    assert e[KnowledgeOutOf] == Num(m.components.knowledgeOutOf);
    assert e[ThinkingReceived] == Num(m.components.thinkingReceived);
    assert e[ThinkingOutOf] == Num(m.components.thinkingOutOf);
    assert e[ApplicationReceived] == Num(m.components.applicationReceived);
    assert e[ApplicationOutOf] == Num(m.components.applicationOutOf);
    assert e[CommunicationReceived] == Num(m.components.communicationReceived);
    assert e[CommunicationOutOf] == Num(m.components.communicationOutOf);
  }

  /** A fetched mark that is saved without edits is sent back unchanged. */
  lemma SaveUneditedRoundTrip(marks: seq<Mark>, i: int, assessmentId: int)
    requires 0 <= i < |marks| && LastWithKey(marks, StudentOf, i)
    requires assessmentId != 0
    ensures SaveMark(Some(assessmentId), IndexMarks(marks), marks[i].studentId)
         == Some(MarkRequest(assessmentId, marks[i].studentId, marks[i].components))
  {
    EntryComponents(marks[i]);
  }

  /** Typing the decimal spelling of `n` into component `k` sends `n` for
      that component and leaves the other components as they would have been. */
  lemma SaveAfterTyping(selected: int, marks: map<int, Obj>, studentId: int, k: int, n: int)
    requires selected != 0 && 0 <= k < 8
    ensures var typed := UpdateMarkField(marks, studentId, ComponentFields[k], Text(ShowInt(n)));
      && SaveMark(Some(selected), typed, studentId).Some?
      && ComponentAt(SaveMark(Some(selected), typed, studentId).value.components, k) == n
      && forall j :: 0 <= j < 8 && j != k ==>
           ComponentAt(SaveMark(Some(selected), typed, studentId).value.components, j)
           == NumberOrZero(Get(EntryOrEmpty(marks, studentId), ComponentFields[j]))
  {
    CoerceTyped(n);
    var typed := UpdateMarkField(marks, studentId, ComponentFields[k], Text(ShowInt(n)));
    forall j | 0 <= j < 8 && j != k
      ensures ComponentFields[j] != ComponentFields[k]
    {
    }
  }
}
