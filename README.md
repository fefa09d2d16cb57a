# Discord moderation log: validation and table updates

A model of the record-validation and table-update rules of the Discord
moderation-log editor, a small Streamlit app. The log is a table of records
with five string cells: Discord Username, Action Taken, Date, Action Taken
By and Reason. The table is kept as one remote object. It is read whole and
written whole. The app has three commit paths:

- **Search and edit by username.** The rows of one user are shown in a grid
  and the edited grid is committed. Rows the user blanked completely are
  dropped. If none remain, all of the user's rows are deleted. Otherwise a
  blank cell is rejected first, and only then a changed username. A passing
  edit removes the user's old rows and appends the grid's rows after
  everyone else's.
- **Insert new.** The entry is rejected if any of the five inputs is empty.
  Otherwise one row is appended.
- **Full-table edit.** The whole grid is committed. Blank rows are dropped,
  an empty result is rejected, then any blank cell is rejected. Otherwise
  the table without the blank rows becomes the stored table.

A cell is *blank* when it is empty or made only of whitespace. Whitespace
is the set of characters Python's `\s` matches in a text pattern; the
editor turns such cells into nulls.

Layout:

- `seqs.dfy` (module `Seqs`): an order-preserving filter over sequences,
  with lemmas about order, partition and idempotence.
- `records.dfy` (module `Records`): the record, blank cells and rows, and
  the three row selections: by username, without a username, and without
  blank rows.
- `editor.dfy` (module `Editor`): each commit path as a function from the
  stored table and the user's input to an `Outcome`, with lemmas for what
  each path promises. An `Outcome` is `Saved(table)`, `Rejected(reason)`,
  `FirstTimeOffender` or `Idle`.
- `store.dfy` (module `Store`): the class `ModerationLog`. Its field `rows`
  is the stored table, and its commit methods replace `rows` only when the
  outcome is `Saved`. Ghost counters record reads and writes, so the model
  can state that a rejected insert neither reads nor writes the store.

The model follows the code in these places, where one might expect
otherwise:

- In search-and-edit, the null check runs before the username check
  (streamlit_app.py:64-66).
- Search-and-edit appends the grid output as returned, all-blank rows
  included (streamlit_app.py:70). So an all-blank row can reach the store
  (`Editor.SaveUserChangesStoresBlankRow`).
- Insert-new accepts whitespace-only inputs (streamlit_app.py:89-93), so
  blank cells can also reach the store (`Editor.AddEntryAcceptsWhitespace`).
- One might expect no stored cell to be blank. The model shows this holds
  for full-table edits (`Editor.SaveAllSavesValidTable`) but not for the
  other two paths.

## Model

| member | source | states |
|---|---|---|
| Records.Search | streamlit_app.py:48 | the result holds exactly the rows whose username equals the key |
| Records.WithoutUser | streamlit_app.py:61 | the result holds exactly the rows whose username differs from the key |
| Records.DropBlankRows | streamlit_app.py:55-56 | a row survives exactly when at least one of its cells is not blank |
| Records.DropBlankRowsOrder | streamlit_app.py:55-56 | dropping blank rows keeps the surviving rows in order (it distributes over concatenation), changes nothing in a table without all-blank rows, and yields nothing exactly when every row is all blank |
| Records.DropBlankRowsIdempotent | streamlit_app.py:55-56 | dropping blank rows a second time changes nothing |
| Records.NoBlankCellsSurvives | streamlit_app.py:55-64 | a table that passes the null check loses no row to blank-row dropping |
| Records.SearchPartition | streamlit_app.py:48-61 | a user's rows and the other users' rows together are the whole table, as a multiset and by count |
| Records.SearchOrder | streamlit_app.py:48 | the rows found for a user keep their table order |
| Records.WithoutUserOrder | streamlit_app.py:61 | removing a user keeps the other rows in order, and leaves a table without that user unchanged |
| Records.SearchAfterRemoval | streamlit_app.py:61 | once a user is removed, searching for the user finds nothing, and removing again changes nothing |
| Editor.Stored | streamlit_app.py:60-72 | an outcome other than a save leaves the stored table as it was |
| Editor.Usernames | streamlit_app.py:58 | the set holds exactly the usernames of the given rows |
| Editor.SaveUserChanges | streamlit_app.py:53-72 | the search commit either saves or is rejected, and only for a null value or a username change |
| Editor.UserTab | streamlit_app.py:44-52 | nothing happens exactly when no username was entered; "first-time offender" is reported exactly when no row has the username |
| Editor.UsernameCheck | streamlit_app.py:58-66 | "more than one distinct username, or one other than the key" holds exactly when some surviving row has a username other than the key |
| Editor.SaveUserChangesDeletes | streamlit_app.py:60-62 | when every grid row is blank, the saved table is the old table without any of the user's rows |
| Editor.SaveUserChangesNullFirst | streamlit_app.py:64-65 | a surviving row with a blank cell is rejected as a null value, whatever the usernames are |
| Editor.SaveUserChangesRename | streamlit_app.py:66-67 | when the surviving rows have no blank cell, a username change is reported exactly when some surviving row names another user |
| Editor.SaveUserChangesAccepts | streamlit_app.py:60-72 | a search commit is saved exactly when every row is blank, or every surviving row has no blank cell and keeps the username |
| Editor.SaveUserChangesReplaces | streamlit_app.py:68-71 | a passing edit saves the other users' rows in order followed by the grid's rows as returned; the username is not blank; afterwards the user's rows are exactly the grid's non-blank rows, and the only rows added under other usernames are all-blank grid rows |
| Editor.SaveUserChangesStoresBlankRow | streamlit_app.py:55-70 | a passing edit can store a row whose cells are all empty |
| Editor.NewEntry | streamlit_app.py:88-94 | the form is rejected exactly when some input has length zero; otherwise the record's cells are the five inputs in column order |
| Editor.AddEntry | streamlit_app.py:88-98 | insert is saved exactly when every input is non-empty, and the only rejection is a missing field; a saved insert grows the table by one, the old rows are unchanged and the last row is the inputs |
| Editor.AddEntryAcceptsWhitespace | streamlit_app.py:89-97 | for any five non-empty, whitespace-only inputs, the entry is saved and the appended row is all blank, so the stored table has blank cells |
| Editor.SaveAll | streamlit_app.py:109-120 | the full-table commit either saves or is rejected, and only as empty or for a null value |
| Editor.SaveAllEmpty | streamlit_app.py:114-115 | the full-table commit is rejected as empty exactly when every row is blank (and, as a corollary of `Editor.Stored`, the stored table is then unchanged) |
| Editor.SaveAllNullOrSave | streamlit_app.py:116-119 | once a row survives, the commit is rejected for a null value exactly when a surviving row has a blank cell; otherwise the grid's table without its blank rows is saved |
| Editor.SaveAllSavesValidTable | streamlit_app.py:111-119 | a saved full table is non-empty and has no blank cell, and committing it again saves the same table |
| Store.ModerationLog.constructor | streamlit_app.py:30-32 | a store without a readable table starts empty |
| Store.ModerationLog.Fetch | streamlit_app.py:26-29 | a read returns the whole stored table |
| Store.ModerationLog.Overwrite | streamlit_app.py:34-37 | a write replaces the whole stored table, keeping row order |
| Store.ModerationLog.SearchUser | streamlit_app.py:46-48 | with a username, returns that user's rows from the store; without one, reads nothing |
| Store.ModerationLog.CommitUserEdit | streamlit_app.py:43-72 | the outcome is the search-tab outcome on the stored table; the store is read once exactly when a username was entered, and written exactly when the outcome is a save |
| Store.ModerationLog.CommitNewEntry | streamlit_app.py:88-99 | the outcome is the insert outcome; a rejected entry neither reads nor writes the store; a saved one reads once, writes once and appends the record |
| Store.ModerationLog.CommitFullEdit | streamlit_app.py:109-120 | the outcome is the full-table outcome, and the store is written exactly when that outcome is a save |

## Left out

- Page setup, tabs, forms, grid widgets and messages (streamlit_app.py:8-15, 39, 78-86, 105-107) are UI with no logic. Each message becomes an `Outcome` or `Rejection` variant.
- The storage service's configuration and credentials (streamlit_app.py:19-24) belong to a foreign library.
- Feather serialisation, the download and the upload (streamlit_app.py:26-37) are not modelled. The store is one `seq<Record>` field that a read returns and a write replaces. The fallback of a failed read is modelled only as the constructor's empty table; a store that becomes unreadable later is not.
- pandas index labels are not modelled. `concat` keeps the old labels and the save discards them. `df.loc[len(df)]` appends because a saved table is re-indexed from 0, so it is modelled as an append.
- pandas NaN cells and non-string values are not modelled. Every cell is a string, and a cleared grid cell is the empty string.
- The grid of the search tab cannot add or delete rows, but the model takes any edited table as the grid's output. This is more general than the source, not less.
- The table the full-table grid was filled from (streamlit_app.py:106) is not part of `CommitFullEdit`. That commit depends only on the grid's output.
- Concurrent sessions are not modelled. Writes do not check what was read, so the later writer wins.
