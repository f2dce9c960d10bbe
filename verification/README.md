# Core values poll — a Dafny model

The application is a browser-based poll. The user picks exactly ten values from a fixed catalog
of 57 value names. While the user picks, the tool lists the pairs among the picks that its rule
tables mark as conflicts or synergies. Completed polls go into a locally stored history. The
history can be cleared, deleted from one poll at a time, summarised as a frequency table,
exported and imported.

This project models the logic of `src/components/CoreValuesPoll.jsx` as pure functions over
immutable data:

- `Catalog`:
  - the 57 catalog keys, in declaration order;
  - the conflict and synergy tables, entry for entry.
- `Selection`: the in-progress selection.
  - It is an ordered list of names.
  - Clicking a selected name removes it.
  - Clicking an unselected name appends it while fewer than ten are picked.
  - Once ten are picked, further clicks on new names are ignored.
- `Interactions`:
  - the pair evaluator, which scans every earlier/later pair of the selection;
  - a pair is reported when either name's table entry lists the other.
- `History`:
  - submitting a full selection as a poll;
  - clearing the history;
  - deleting by timestamp;
  - importing a parsed document;
  - exporting.
  - The user's answer to each confirmation dialog is an input, and so are the clock readings.
- `Frequency`: the frequency table. It works as follows:
  - count, for each catalog key, the polls that include it;
  - stable-sort by count, largest first;
  - drop the keys with count zero;
  - attach each count's share of all polls.
- `Session`: the component as a state machine over user events. It proves that the state
  invariant is kept:
  - the selection is valid and made of catalog keys;
  - every poll is well formed.

  The proof covers clicks on catalog keys, every submit, clear and delete, and imports whose
  polls are all well formed. An import of malformed polls is accepted by the source and
  breaks the invariant.
- `Seqs`: the sequence helpers the above share. These are `Array.filter`, duplicate-freedom
  and `indexOf`.

## Model

| member | source | states |
|---|---|---|
| Catalog.CatalogDistinct | src/components/CoreValuesPoll.jsx:64-122 | the catalog object declares 57 distinct keys |
| Selection.Toggle | src/components/CoreValuesPoll.jsx:163-169 | clicking a selected name removes it, and exactly it; clicking a new name appends it at the end when fewer than 10 are picked and changes nothing at 10; a selection of at most 10 distinct names stays one |
| Selection.ToggleRemovesInPlace | src/components/CoreValuesPoll.jsx:164-165 | deselecting the name at position i yields the selection without that one entry, the others in their original order |
| Selection.ToggleTwiceRestores | src/components/CoreValuesPoll.jsx:163-169 | picking a new name while there is room and clicking it again gives back the original selection |
| Selection.ToggleAllValid | src/components/CoreValuesPoll.jsx:163-169 | no sequence of clicks can produce more than 10 picks or a repeated pick |
| History.Submit | src/components/CoreValuesPoll.jsx:171-181 | with exactly 10 picks a poll holding them, the date and the timestamp is appended after the unchanged history and the selection is emptied; with any other count nothing changes |
| Session.SubmitTwiceOnce | src/components/CoreValuesPoll.jsx:171-181 | a second submit straight after the first adds nothing, because the selection was emptied |
| History.Clear | src/components/CoreValuesPoll.jsx:183-187 | a confirmed clear empties the history; a declined one leaves it as it was |
| History.Delete | src/components/CoreValuesPoll.jsx:434-438 | a declined delete changes nothing; a confirmed one keeps exactly the polls whose timestamp differs |
| History.DeleteExact | src/components/CoreValuesPoll.jsx:436 | a confirmed delete removes every copy of every poll with that timestamp and keeps every other copy, counted with multiplicity |
| History.DeleteKeepsOrder | src/components/CoreValuesPoll.jsx:436 | deleting distributes over any split of the history, so the survivors keep their relative order |
| History.DeleteUnique | src/components/CoreValuesPoll.jsx:434-438 | when timestamps are unique, deleting poll i's timestamp removes exactly poll i |
| History.Import | src/components/CoreValuesPoll.jsx:200-221 | only a top-level array confirmed by the user replaces the history, wholesale; a declined array, a non-array and an unreadable file each leave it untouched, and the last two are told apart |
| History.ExportImportRoundTrip | src/components/CoreValuesPoll.jsx:189-217 | importing, confirmed, the document an export wrote restores the exported history exactly; this holds by construction, given that parsing inverts serialising |
| History.ImportAcceptsMalformedPolls | src/components/CoreValuesPoll.jsx:205-209 | import checks only the top-level shape: a poll that a submit could never create enters the history |
| Interactions.PairsWith | src/components/CoreValuesPoll.jsx:130-141 | the inner pass yields exactly the related pairs of the i-th pick with each later pick, at most one per later pick |
| Interactions.PairsFrom | src/components/CoreValuesPoll.jsx:129-142 | the outer pass from position i yields exactly the related pairs (a, b), with i ≤ a < b, at most one per pair of positions |
| Interactions.RelatedPairs | src/components/CoreValuesPoll.jsx:124-144 | one table's list holds exactly the pairs of picks, earlier pick first, that the table relates in either direction |
| Interactions.Evaluate | src/components/CoreValuesPoll.jsx:124-144 | each list holds exactly the pairs its own table relates, earlier pick first; each has at most n(n-1)/2 entries |
| Interactions.TriangleClosedForm | src/components/CoreValuesPoll.jsx:129-130 | the bound on each list, the number of unordered pairs of n picks, is n(n-1)/2 |
| Interactions.PairsWithOrdered | src/components/CoreValuesPoll.jsx:130-141 | for distinct picks the inner pass lists the partners in pick order |
| Interactions.PairsFromOrdered | src/components/CoreValuesPoll.jsx:129-142 | for distinct picks the outer pass lists pairs ordered by the first pick's position, then the second's |
| Interactions.EvaluateInSelectionOrder | src/components/CoreValuesPoll.jsx:129-142 | for distinct picks both lists are ordered by the first pick's position, then the second's |
| Interactions.TwoValues | src/components/CoreValuesPoll.jsx:131-138 | with two picks a list holds the single pair, in pick order, if the table relates them in either direction, and is empty otherwise |
| Interactions.PickOrderIrrelevant | src/components/CoreValuesPoll.jsx:131-138 | reversing two picks changes only which name is named first, never whether the pair is reported |
| Interactions.AchievementBalanceConflict | src/components/CoreValuesPoll.jsx:41-47 | "Achievement" with "Balance", in either order, gives one conflict and no synergy |
| Interactions.GrowthLearningSynergy | src/components/CoreValuesPoll.jsx:52-56 | "Growth" with "Learning" gives one synergy and no conflict |
| Interactions.ShippedKeysDisjoint | src/components/CoreValuesPoll.jsx:39-61 | no name has an entry in both shipped tables |
| Interactions.ShippedConflictEntries | src/components/CoreValuesPoll.jsx:40-50 | no conflict entry names a synergy key |
| Interactions.ShippedSynergyEntries | src/components/CoreValuesPoll.jsx:51-61 | no synergy entry names a conflict key |
| Interactions.ShippedTablesNeverBoth | src/components/CoreValuesPoll.jsx:39-61 | with the shipped tables no pair is both a conflict and a synergy, so the two independently computed lists never share a pair |
| Frequency.Count | src/components/CoreValuesPoll.jsx:149-151 | a key's count never exceeds the number of polls |
| Frequency.CountPositive | src/components/CoreValuesPoll.jsx:149-151 | a key's count is positive exactly when some poll includes it |
| Frequency.Insert | src/components/CoreValuesPoll.jsx:154 | one step of the stable sort: a permutation, and sorted when the new entry comes earlier in the catalog than the sorted rest |
| Frequency.SortByCount | src/components/CoreValuesPoll.jsx:154 | the sort is a permutation; entries in catalog order come out ordered by count, largest first, equal counts in catalog order |
| Frequency.FilterSorted | src/components/CoreValuesPoll.jsx:155 | dropping the zero counts after sorting keeps the order |
| Frequency.Shown | src/components/CoreValuesPoll.jsx:147-155 | the kept entries are exactly the catalog keys with a positive count, each once, sorted |
| Frequency.FrequencyTable | src/components/CoreValuesPoll.jsx:146-161 | each row is a catalog key with its true count, which is positive and at most the number of polls, and its share; every key some poll includes has a row; no key repeats; rows run by count, largest first, equal counts in catalog order; no polls means no rows |
| Frequency.ValueFrequency | src/components/CoreValuesPoll.jsx:146-161 | over the shipped catalog: exactly the keys some poll includes get a row, each once, with the true count and share, by count, largest first, equal counts in declaration order; no polls means no rows |
| Frequency.TieKeepsCatalogOrder | src/components/CoreValuesPoll.jsx:147-154 | of two keys with equal counts, the one declared earlier gets the earlier row |
| Frequency.EmptyHistoryEmptyTable | src/components/CoreValuesPoll.jsx:146-161 | with no polls the table is empty, so no division by zero takes place |
| Frequency.CountOneOfTwo | src/components/CoreValuesPoll.jsx:149-151 | of two polls, one including a name, that name's count is 1 |
| Frequency.HalfOfTwo | src/components/CoreValuesPoll.jsx:156-160 | of two polls, one including a catalog key, the key's row is count 1 at 50 percent |
| Frequency.HonestyInOneOfTwo | src/components/CoreValuesPoll.jsx:146-161 | of two polls, one including "Honesty", the table shows "Honesty" with count 1 at 50 percent |
| Frequency.CatalogOrderBreaksTies | src/components/CoreValuesPoll.jsx:65-66 | "Authenticity" and "Achievement" with equal counts are listed in declaration order, not alphabetical order |
| Session.Step | src/components/CoreValuesPoll.jsx:163-221 | a click touches only the selection; clear, delete and import touch only the history; a submit is a no-op exactly when the selection is not full |
| Session.StepKeepsInvariant | src/components/CoreValuesPoll.jsx:163-221 | a click on a catalog key, a submit, a clear, a delete, and an import of well-formed polls each keep the invariant: a valid selection of catalog keys and well-formed polls |
| Session.RunKeepsInvariant | src/components/CoreValuesPoll.jsx:163-221 | any run of those covered events from an invariant state keeps the invariant |
| Session.UncheckedImportBreaksInvariant | src/components/CoreValuesPoll.jsx:205-209 | a confirmed import of a list holding a malformed poll is accepted and breaks the invariant, so import is not covered in general |
| Session.InitialInvariant | src/components/CoreValuesPoll.jsx:32-34 | the initial state, with an empty selection and an empty history, satisfies the invariant |

## Left out

- Rendering is not modelled: the JSX markup, hover tooltips, the "Selected: n/10" counter, the
  disabled state of the submit button and the search box that filters the catalog buttons. They
  only display state or decide which handlers can be reached.
- The catalog descriptions are not modelled. They are display text only; the model keeps the
  keys in declaration order.
- Local storage is not modelled: the `useLocalStorage` hook, reading at start-up, writing after
  every change and its error logging. The history is held in memory.
- The browser calls are inputs or left out:
  - `new Date()` becomes the `date` and `timestamp` parameters;
  - `window.confirm` becomes a `confirmed` boolean;
  - `alert` becomes an import outcome.
- File handling is left out: `FileReader`, `JSON.parse`, `JSON.stringify`, `Blob` and the
  download link. Import works on the parsed document: a poll list, a non-array value or an
  unreadable text. Export is the document holding the history. The model assumes that
  stringify followed by parse restores the history.
- Session.StepKeepsInvariant: covers only imports whose polls are all well formed. The import
  handler checks only that the top level is an array, so an unchecked import can break the
  invariant, as `Session.UncheckedImportBreaksInvariant` shows.
- Session.RunKeepsInvariant: covers only runs whose imports hold well-formed polls, for the
  same reason.
- History.Export: `JSON.stringify`, the `Blob` and the download link are not modelled, so the
  export document is the history itself. The only statement about export is
  `History.ExportImportRoundTrip`, which holds by construction.
- History.ExportImportRoundTrip: assumes that `JSON.parse` inverts `JSON.stringify` on a
  history. The lemma then holds by construction; the serialisation itself is not modelled.
- Import does nothing when no file is chosen. This case is not modelled.
- Imported entries are taken as `Poll` records. The source does not inspect them.
  `History.ImportAcceptsMalformedPolls` shows that malformed polls get through. A JavaScript
  value missing its `values` field has no counterpart in the model.
- Frequency.FrequencyTable: the percentage is the exact real `count / total * 100`. The
  source's `toFixed(1)` rounding to a one-decimal string is not modelled, because Dafny has
  no counterpart of JavaScript's number formatting.
- Frequency.SortByCount: the sort is an insertion sort. `Array.prototype.sort` is stable,
  and any stable sort by this key gives the same result, so the model states the resulting
  order rather than the engine's algorithm.
- Timestamps are unbounded integers, not JavaScript numbers.

Notes on the source as written:

- The source has no operation that clears the selection. Only a successful submit empties it.
- Timestamps are not enforced to be unique. A delete removes every poll that shares the
  timestamp, which `History.DeleteExact` states. `History.DeleteUnique` states the
  one-poll case under the uniqueness assumption.
- The conflict table lists "Risk" under "Security", but "Risk" is not a catalog key. That part
  of the rule can never fire.
