# Labeling session controller, modelled in Dafny

The program is a single-annotator labeling tool. It reads a CSV table of
prompt/response pairs with the columns `ID`, `Prompts`, `Responses` and an
optional `Label`. It shows the rows one at a time in a fixed, seeded
pseudo-random order and writes a `Yes` or `No` label back to the file after
each click. A session can be interrupted and resumed: the order is recomputed
from the same seed, and the cursor goes to the first row in that order that
has no label yet.

This project models the controller that sits behind the page:

- `Store` (`store.dfy`) covers the table and its CSV form. It has pandas
  cells, with NaN as `None`; the load-and-validate step `Load` (`load_data`);
  the point update `WithLabel` (`save_label`); and the clearing of all labels,
  `Cleared`.
- `Order` (`order.dfy`) covers the visitation order. `get_shuffled_order` is a
  Fisher-Yates walk over the row positions, done in place on an array. It is
  driven by an abstract seeded generator.
- `Session` (`session.dfy`) covers the rest of the controller. It has the scan
  `FirstUnlabeled` (`get_next_unlabeled_item`), with a loop version
  `NextUnlabeledItem`; the progress counts; the Skip candidate list; and the
  choice of what the page shows. It also has the class `Session`. That class
  holds the table as an array, the order and the cursor, and carries out the
  Yes/No, Skip and Clear All Labels actions.
- `Wrappers` (`wrappers.dfy`) holds `Option` and `Result`.

A label counts as unset when it is NaN or the empty string. Every other token
counts as set. Row IDs are cells too. pandas' `==` is false whenever NaN is
involved, so `save_label` with a NaN ID changes no row. `Session.Session.Label`
therefore promises that the cursor moves off the current row only when that
row's ID is not NaN.

The class has two invariants. `Valid` (`SessionShape`) says that the order is
a permutation of the row positions and that a cursor, if any, is a row
position; every action keeps it. `Consistent` (`SessionInv`) adds:

- a cursor that shows a row shows an unlabeled one;
- no cursor means every row is labeled.

Starting a session, a Yes/No whose save and reload both succeed, and a
successful Clear All Labels establish `Consistent`; Skip and failed writes
keep it. From it, `ScreenFollowsCursor` proves that the "No items available
for labeling" branch (app.py:184-185) cannot be reached. The finished message
appears exactly when there is no cursor. A Yes/No whose save succeeds but
whose reload fails (app.py:135 or app.py:150) breaks `Consistent`: the label is
written, but `get_next_unlabeled_item` raises on the missing table, so the
cursor stays on the row just labeled. `Session.Session.Label` states this
outcome.

The table a session is built from is `RowsOf` of a successful `Load`
(app.py:73-80): each row's ID, prompt, response and label are that record's
`ID`, `Prompts`, `Responses` and `Label` cells.

On these points the model follows what the code does:

- An ID that matches no row is not an error. The write happens anyway and
  success is reported (app.py:47-49).
- The file is rewritten in place. Nothing in the code makes the write atomic.
- The order lists row positions (`df.index`), not IDs.
- "Unset" is NaN or `''`. It is not a third label value.
- A failed rewrite during the schema upgrade makes `load_data` fail, because
  the exception is caught at app.py:39-41.
- Clear All Labels is reachable only while an item is shown. When nothing
  remains, the return at app.py:96-100 comes first, and the button
  (app.py:171-182) sits inside `if current_idx is not None`. So
  `Session.Session.Reset` requires a cursor, and `shuffled_indices[0]` exists.

## Model

| member | source | states |
|---|---|---|
| `Store.Missing` | app.py:25-26 | The missing-column list holds exactly the required columns that are absent from the header, and it is no longer than the required list. |
| `Store.Load` | app.py:15-41 | NotFound comes back exactly when the file is absent, and ParseError exactly when pandas cannot read it. The load succeeds exactly when the file parses, has every required column, and either has Label or the rewrite succeeds. A MissingColumns error comes back exactly when a required column is absent, and it carries `Missing(required, header)`. WriteFailed comes back exactly when Label must be added and the rewrite fails. On success all required columns and Label are present. A frame that already had Label is returned unchanged. Otherwise Label is appended to the header, each record's keys gain Label and nothing else, every record gets `''` in it, and every other cell keeps its value. |
| `Store.LoadedHasSchema` | app.py:24-38 | A successful load of a well-formed file gives a well-formed frame with the three required columns and Label. |
| `Store.ReadBack` | app.py:34-36 | A cell read back after `to_csv` is never `''` (the empty field comes back as NaN), and it is unset exactly when the written cell was. Other cells come back as written, which holds for the `''`, `Yes` and `No` this program writes and for cells `read_csv` produced. |
| `Store.Reread` | app.py:34-36 | Reading a written frame back keeps its header, its record count and each record's columns. |
| `Store.UpgradeIsStable` | app.py:22-38 | Reading back the upgraded file and loading it again succeeds whatever a write would do: it needs no write and returns the reread frame. That frame has the upgraded header, the same record count, every label NaN (unset), and every other cell as `ReadBack` of the first read. Reading it back again changes nothing, so the schema upgrade happens once. |
| `Store.RereadRow` | app.py:22 | A row read back is unset exactly when the written row was, and its label is never `''`. |
| `Store.RowsOfReread` | app.py:135 | A reread frame keeps the schema, and its rows are the old rows read back cell by cell. |
| `Store.UpgradedRowsAreUnset` | app.py:33-34 | When Label had to be added, every loaded row has an unset label and the row count is unchanged. |
| `Store.WithLabelChangesOnlyMatches` | app.py:47 | `save_label` gives the label to exactly the rows whose ID equals the given one (never a NaN ID). It leaves every ID, prompt and response cell, and every other row, unchanged. An ID that matches nothing leaves the table unchanged. |
| `Store.ClearedProperties` | app.py:176 | Clearing gives every row the label `''` (unset), changes no other cell, and is idempotent. |
| `Order.Reduce` | app.py:58 | The drawn swap index for a step with `bound` choices lies in 0 .. bound-1. |
| `Order.ReduceIsRemainder` | app.py:58 | The draw is a whole multiple of `bound` plus the reduced index, so `Reduce` is the remainder modulo `bound`. |
| `Order.FisherYatesPermutes` | app.py:58 | The Fisher-Yates walk keeps the multiset of elements, so its result is a permutation of its input. |
| `Order.PermutationFacts` | app.py:57-58 | A permutation of the row positions has as many entries as the table has rows. Every entry is a row position, every row position occurs, and no entry occurs twice. |
| `Order.ShuffledOrderIsPermutation` | app.py:54-59 | The shuffled order is a permutation of 0 .. n-1 with n entries. |
| `Order.WalkStep` | app.py:58 | One in-place step exchanges position i-1 with the drawn position. It leaves the rest of the walk the same as the old walk from step i. |
| `Order.ShuffleInPlace` | app.py:58 | The in-place shuffle leaves the array equal to the Fisher-Yates walk of its old contents, and a permutation of them. |
| `Order.GetShuffledOrder` | app.py:54-59 | The order is a function of nothing but the row count, the generator and the seed, and it is a permutation of the row positions. |
| `Session.FirstUnlabeled` | app.py:61-66 | The scan returns None exactly when every position in the order is labeled. Otherwise it returns a position from the order whose row is unlabeled, and every earlier position in the order is labeled. |
| `Session.NextUnlabeledItem` | app.py:63-66 | The early-return loop over the order returns what `FirstUnlabeled` specifies. |
| `Session.CountLabeled` | app.py:84 | The labeled count is at most the row count. It equals the row count exactly when every row is labeled, and it is 0 exactly when every row is unset. |
| `Session.ProgressOf` | app.py:83-85 | labeled + remaining == total == row count. remaining == 0 exactly when every row is labeled, and labeled == 0 exactly when every row is unset. |
| `Session.CountLabeledMonotone` | app.py:84 | If no labeled row becomes unset, the labeled count does not drop. It rises when some unset row becomes labeled. |
| `Session.SaveLabelProgress` | app.py:131-138 | Saving Yes or No never lowers the labeled count. It raises the count when the ID names an unset row. |
| `Session.ResetProgress` | app.py:176-177 | After clearing, progress is labeled 0, remaining = total = row count. |
| `Session.SkipCandidates` | app.py:161-163 | A position is a Skip candidate exactly when it is in the order, differs from the current position and has an unset label. The first candidate is the earliest such position in the order: every position before it is the current one or is labeled. |
| `Session.FirstUnlabeledSameUnset` | app.py:61-66 | The scan gives the same result on two tables that agree on which labels are unset. |
| `Session.CountLabeledSameUnset` | app.py:84 | The labeled count is the same on two tables that agree on which labels are unset. |
| `Session.SkipCandidatesSameUnset` | app.py:161-163 | The Skip candidates are the same on two tables that agree on which labels are unset. |
| `Session.RereadIsInvisible` | app.py:135-138 | Over the rows of the reread file, the scan, the progress figures and the Skip candidates equal those over the rows in memory. |
| `Session.ScanExhaustedIffNoneRemaining` | app.py:79-100 | Over a permutation, the scan finds nothing exactly when remaining == 0. The scan's result always satisfies the session invariant. |
| `Session.ScreenFollowsCursor` | app.py:95-108 | Under the session invariant, the page shows "all labeled" exactly when there is no cursor. It never reaches the "no items" branch at line 185. A presented item is an unlabeled row, and its "Item k of n" has 1 <= k <= n. |
| `Session.Session.constructor` | app.py:75-80 | A new session holds the loaded table and the order shuffled with the fixed seed 42. Its cursor is the first unlabeled position in that order, and `Valid` and `Consistent` hold. |
| `Session.Session.SaveLabel` | app.py:43-52 | When the write succeeds, the table becomes `WithLabel(old table, id, label)` and success is reported, even when no row matches. A failed write leaves the table unchanged and reports failure. |
| `Session.Session.Label` | app.py:128-156 | Yes/No save the token for the current row's ID, and `Valid` is kept. A failed save changes nothing. After a successful save and reload, the cursor is the first unlabeled position of the unchanged order, and `Consistent` holds. For a non-NaN ID, that cursor differs from the old one, the current row is now labeled, and the labeled count rose if that row was unset. After a successful save with a failed reload, the label is written, the cursor stays, and for a non-NaN ID `Consistent` no longer holds. |
| `Session.Session.Skip` | app.py:158-169 | The cursor moves to the first Skip candidate and no label is written. With no candidate the cursor stays and `moved` is false. A moved cursor shows an unlabeled row. `Valid` and `Consistent` are kept. |
| `Session.Session.Reset` | app.py:171-182 | A successful reset sets the table to `Cleared(old table)` and the cursor to the first position of the order. A failed reset changes nothing and keeps `Consistent` as it was. `Valid` is kept, and a successful reset establishes `Consistent`. With `ClearedProperties` and `ResetProgress`, a second reset gives the same state as the first, with labeled 0 and remaining = total. |

## Left out

- Rendering is not modelled: page setup, headers, buttons, sidebar widgets, messages, balloons and `st.rerun` (app.py:6-11, app.py:69-199). Only the choice of screen (`ScreenOf`) is kept.
- CSV parsing and printing are not modelled. `os.path.exists`, `read_csv` and `to_csv` become inputs: the file's state (`FileState`) and a write-success flag. A failed write is taken to leave the file as it was; partial writes are not modelled.
- The reload after each Yes/No save (app.py:135, app.py:150) is modelled only as its success flag. The session is the file's only writer, so the array in `Session` is the file's contents. The array keeps `''` where the reread file would give NaN. `Session.RereadIsInvisible` proves that the scan, the counts and Skip see the same thing either way.
- `Session.Session.SaveLabel`, `Session.Session.Reset`: for simplicity, a read failure and a write failure are folded into one flag.
- `Order.GetShuffledOrder`: numpy's Mersenne Twister and its bounded-integer sampling are not modelled. The generator is a parameter that maps a seed to a stream of draws. For the step that places position i, the swap index is the next draw reduced modulo i + 1 by `Reduce`. So the exact order for seed 42 is not reproduced; only the permutation property and functional determinism are.
- The floating-point `progress_percentage` (app.py:89) is display only and is not modelled.
- Columns other than ID, Prompts, Responses and Label are kept by `Load`. The controller's `Row` does not carry them. `save_label` and Reset write only Label, so those columns pass through unchanged.
- Concurrent sessions, and external edits of the file between clicks, are not modelled. Either could make the stored order or cursor stale; the code assumes a single session.
- `Store.ReadBack`: `read_csv` also reads strings such as "NA", "N/A", "null" or "nan" as NaN. The model reads every non-empty string back as written. This matters only for cells of the original file that `read_csv` read as such strings; the program itself writes only `''`, `Yes` and `No`.
- Cell types (integer versus string IDs) are not modelled. All cells are strings or NaN.
