/**
 Completed polls and the operations on the stored history: appending a poll
 on submit, clearing, deleting by timestamp, and replacing the history from
 an imported document. The clock, the user's yes/no answer to the
 confirmation dialog and the parsed file are inputs.
 */
module History {
  import opened Seqs
  import opened Catalog
  import Selection

  /** A completed poll: display date, the chosen values in pick order, creation instant in milliseconds. */
  datatype Poll = Poll(date: string, values: seq<Value>, timestamp: int)

  /** A poll as the submit step creates it: exactly the poll size, no repeats, all catalog keys. */
  predicate WellFormed(p: Poll) {
    |p.values| == Selection.Capacity && Distinct(p.values) && forall v :: v in p.values ==> v in Values
  }

  /** The in-memory state: the current selection and the stored history, oldest poll first. */
  datatype State = State(selection: seq<Value>, polls: seq<Poll>)

  /**
   Submit: with a full selection, snapshot it as a new poll at the end of the
   history and start over with an empty selection; otherwise do nothing.
   */
  function Submit(st: State, date: string, timestamp: int): (r: State)
    ensures |st.selection| == Selection.Capacity ==>
      && r.selection == []
      && |r.polls| == |st.polls| + 1
      && r.polls[..|st.polls|] == st.polls
      && r.polls[|st.polls|].values == st.selection
      && r.polls[|st.polls|].date == date
      && r.polls[|st.polls|].timestamp == timestamp
    ensures |st.selection| != Selection.Capacity ==> r == st
  {
    if |st.selection| == Selection.Capacity then
      State([], st.polls + [Poll(date, st.selection, timestamp)])
    else
      st
  }

  /** Clear history: the whole list goes when the user confirms, nothing changes otherwise. */
  function Clear(polls: seq<Poll>, confirmed: bool): (r: seq<Poll>)
    ensures confirmed ==> |r| == 0
    ensures !confirmed ==> r == polls
  {
    if confirmed then [] else polls
  }

  /** The delete filter's test: the poll does not carry timestamp `t`. */
  function Survives(t: int): Poll -> bool {
    (p: Poll) => p.timestamp != t
  }

  /** The per-poll delete button: keeps the polls whose timestamp differs from `t`, when confirmed. */
  function Delete(polls: seq<Poll>, t: int, confirmed: bool): (r: seq<Poll>)
    ensures !confirmed ==> r == polls
    ensures confirmed ==> |r| <= |polls|
    ensures confirmed ==> forall p :: p in r <==> p in polls && p.timestamp != t
  {
    if confirmed then Filter(Survives(t), polls) else polls
  }

  /** A confirmed delete removes every copy of each poll stamped `t` and keeps every other copy. */
  lemma DeleteExact(polls: seq<Poll>, t: int, p: Poll)
    ensures multiset(Delete(polls, t, true))[p] == if p.timestamp == t then 0 else multiset(polls)[p]
  {
    FilterMultiset(Survives(t), polls, p);
  }

  /** Deleting keeps the survivors in their original order: it distributes over any split of the history. */
  lemma DeleteKeepsOrder(front: seq<Poll>, back: seq<Poll>, t: int)
    ensures Delete(front + back, t, true) == Delete(front, t, true) + Delete(back, t, true)
  {
    FilterConcat(Survives(t), front, back);
  }

  /** With unique timestamps, deleting the timestamp of the poll at position `i` removes that poll alone. */
  lemma {:induction false} DeleteUnique(polls: seq<Poll>, i: int)
    requires UniqueTimestamps(polls)
    requires 0 <= i < |polls|
    ensures Delete(polls, polls[i].timestamp, true) == polls[..i] + polls[i + 1..]
  {
    var t := polls[i].timestamp;
    var front, back := polls[..i], polls[i + 1..];
    assert polls == front + [polls[i]] + back;
    forall p | p in front ensures Survives(t)(p) {
      var k :| 0 <= k < |front| && front[k] == p;
      assert polls[k] == p;
    }
    forall p | p in back ensures Survives(t)(p) {
      var k :| 0 <= k < |back| && back[k] == p;
      assert polls[i + 1 + k] == p;
    }
    FilterDropsOnly(Survives(t), front, polls[i], back);
  }

  /** No two stored polls share a timestamp. */
  predicate UniqueTimestamps(polls: seq<Poll>) {
    forall i, j :: 0 <= i < j < |polls| ==> polls[i].timestamp != polls[j].timestamp
  }

  /** What reading an import file produced, after parsing. */
  datatype Document =
    | PollList(polls: seq<Poll>)  // the top level is an array
    | NotList                     // well-formed, but the top level is not an array
    | Unreadable                  // the parser rejected the text

  /** What the import reported to the user. */
  datatype ImportOutcome = Replaced | Declined | InvalidFormat | ReadError

  /**
   Import: only a top-level array, confirmed by the user, replaces the
   history (wholesale, without checking its entries); anything else leaves
   it untouched.
   */
  function Import(polls: seq<Poll>, doc: Document, confirmed: bool): (r: (seq<Poll>, ImportOutcome))
    ensures r.1 == Replaced <==> doc.PollList? && confirmed
    ensures r.1 == Replaced ==> r.0 == doc.polls
    ensures r.1 != Replaced ==> r.0 == polls
    ensures r.1 == InvalidFormat <==> doc.NotList?
    ensures r.1 == ReadError <==> doc.Unreadable?
  {
    match doc
    case PollList(imported) => if confirmed then (imported, Replaced) else (polls, Declined)
    case NotList => (polls, InvalidFormat)
    case Unreadable => (polls, ReadError)
  }

  /**
   The export document: a top-level list holding the history itself, every
   field of every poll, in order. Serialising it and parsing it back are
   assumed to be inverse.
   */
  function Export(polls: seq<Poll>): (r: Document)
    ensures r.PollList? && r.polls == polls
  {
    PollList(polls)
  }

  /**
   Exporting a history and importing the document, confirmed, restores that
   history exactly. Given the assumption on serialisation this holds by
   construction: the import accepts the exported list as an array.
   */
  lemma ExportImportRoundTrip(current: seq<Poll>, saved: seq<Poll>)
    ensures Import(current, Export(saved), true) == (saved, Replaced)
  {
  }

  /** Import does not check its entries: a poll of any size can enter the history through it. */
  lemma ImportAcceptsMalformedPolls(current: seq<Poll>)
    ensures var bad := Poll("", [], 0);
      !WellFormed(bad) && bad in Import(current, PollList([bad]), true).0
  {
  }
}
