/**
 The poll component as a state machine over user events: clicking a value,
 submitting, clearing the history, deleting one poll, importing a file.
 Each event changes only the part of the state its handler sets.
 */
module Session {
  import opened Seqs
  import opened Catalog
  import Selection
  import opened History

  /** A user action, with the clock reading and the confirmation answer it carries. */
  datatype Event =
    | Click(value: Value)
    | SubmitPoll(date: string, timestamp: int)
    | ClearHistory(confirmed: bool)
    | DeletePoll(timestamp: int, confirmed: bool)
    | ImportFile(doc: Document, confirmed: bool)

  /** The state after one event. */
  function Step(st: State, e: Event): (r: State)
    ensures e.Click? ==> r.polls == st.polls
    ensures !e.Click? && !e.SubmitPoll? ==> r.selection == st.selection
    ensures e.SubmitPoll? ==> (r == st <==> |st.selection| != Selection.Capacity)
  {
    match e
    case Click(v) => State(Selection.Toggle(st.selection, v), st.polls)
    case SubmitPoll(date, timestamp) => Submit(st, date, timestamp)
    case ClearHistory(confirmed) => State(st.selection, Clear(st.polls, confirmed))
    case DeletePoll(timestamp, confirmed) => State(st.selection, Delete(st.polls, timestamp, confirmed))
    case ImportFile(doc, confirmed) => State(st.selection, Import(st.polls, doc, confirmed).0)
  }

  /** The state after a run of events, in order. */
  function Run(st: State, events: seq<Event>): State
    decreases |events|
  {
    if events == [] then st else Run(Step(st, events[0]), events[1..])
  }

  /**
   What the component keeps true: the selection is valid and made of catalog
   keys, and every stored poll has the poll size, no repeats and catalog keys.
   */
  predicate Invariant(st: State) {
    && Selection.Valid(st.selection)
    && (forall v :: v in st.selection ==> v in Values)
    && (forall p :: p in st.polls ==> WellFormed(p))
  }

  /**
   The events the invariant lemmas cover: clicks on catalog buttons, every
   submit, clear and delete, and imports whose entries are all well formed.
   The import handler does not check entries, so an import of malformed polls
   is a real event that is not covered (see `UncheckedImportBreaksInvariant`).
   */
  predicate Admissible(e: Event) {
    && (e.Click? ==> e.value in Values)
    && (e.ImportFile? && e.doc.PollList? ==> forall p :: p in e.doc.polls ==> WellFormed(p))
  }

  /** One covered event keeps the invariant. */
  lemma StepKeepsInvariant(st: State, e: Event)
    requires Invariant(st)
    requires Admissible(e)
    ensures Invariant(Step(st, e))
  {
    match e
    case Click(v) =>
    case SubmitPoll(date, timestamp) =>
      if |st.selection| == Selection.Capacity {
        assert WellFormed(Poll(date, st.selection, timestamp));
      }
    case ClearHistory(confirmed) =>
    case DeletePoll(timestamp, confirmed) =>
    case ImportFile(doc, confirmed) =>
  }

  /** Starting from a state that satisfies the invariant, any run of covered events keeps it. */
  lemma {:induction false} RunKeepsInvariant(st: State, events: seq<Event>)
    requires Invariant(st)
    requires forall k :: 0 <= k < |events| ==> Admissible(events[k])
    ensures Invariant(Run(st, events))
    decreases |events|
  {
    if events != [] {
      StepKeepsInvariant(st, events[0]);
      RunKeepsInvariant(Step(st, events[0]), events[1..]);
    }
  }

  /** A confirmed import of a list holding a malformed poll breaks the invariant. */
  lemma UncheckedImportBreaksInvariant()
    ensures var bad := Poll("", [], 0);
      && Invariant(State([], []))
      && !Admissible(ImportFile(PollList([bad]), true))
      && !Invariant(Step(State([], []), ImportFile(PollList([bad]), true)))
  {
    var bad := Poll("", [], 0);
    assert bad in Step(State([], []), ImportFile(PollList([bad]), true)).polls;
  }

  /** The state on page load with nothing stored satisfies the invariant. */
  lemma InitialInvariant()
    ensures Invariant(State([], []))
  {
  }

  /** A second submit right after a successful one does nothing: the selection is empty again. */
  lemma SubmitTwiceOnce(st: State, date: string, timestamp: int, date2: string, timestamp2: int)
    ensures Submit(Submit(st, date, timestamp), date2, timestamp2) == Submit(st, date, timestamp)
  {
  }
}
