/** The three commit paths of the moderation-log editor, each turning the
    stored table and the user's input into an outcome: a rejection, which
    writes nothing, or the table to save. */
module Editor {
  import opened Seqs
  import opened Records

  datatype Option<T> = None | Some(value: T)

  /** The error messages the editor shows instead of saving. */
  datatype Rejection =
    | NullValues        // "NULL values not allowed in the Database"
    | UsernameChanged   // "Username Change Not Allowed"
    | MissingField      // "Please fill all the fields and re-submit the form"
    | EmptyDatabase     // "Database cannot be empty"

  datatype Outcome =
    | Saved(table: Table)        // the store is overwritten with `table`
    | Rejected(reason: Rejection)
    | FirstTimeOffender          // the searched user has no rows: nothing to edit
    | Idle                       // no username entered: nothing happens

  /** The table in the store once `o` has been acted on: only a save
      replaces it. */
  function Stored(t: Table, o: Outcome): (s: Table)
    ensures !o.Saved? ==> s == t
  {
    if o.Saved? then o.table else t
  }

  /** The set of usernames among the rows (`set(df["Discord Username"])`). */
  function Usernames(t: Table): (names: set<string>)
    ensures forall r :: r in t ==> r.username in names
    ensures forall u :: u in names ==> exists r :: r in t && r.username == u
  {
    set r | r in t :: r.username
  }

  // ---------------------------------------------------------------------
  // Search-and-edit by username

  /** Commit of the rows found for `key`, as the editing grid returned them
      (`edited`). Blank rows are dropped; if none remain, every row of the
      user is deleted. Otherwise a blank cell is rejected first, then any
      username other than `key`; a passing edit replaces the user's rows by
      the grid's rows, appended after everyone else's. */
  function SaveUserChanges(t: Table, key: string, edited: Table): (o: Outcome)
    ensures o.Saved? || o == Rejected(NullValues) || o == Rejected(UsernameChanged)
  {
    var kept := DropBlankRows(edited);
    var names := Usernames(kept);
    if |kept| == 0 then Saved(WithoutUser(t, key))
    else if exists i :: 0 <= i < |kept| && HasBlank(kept[i]) then Rejected(NullValues)
    else if |names| > 1 || key !in names then Rejected(UsernameChanged)
    else Saved(WithoutUser(t, key) + edited)
  }

  /** The search tab: nothing happens without a username, a user without
      rows is reported as a first-time offender, otherwise the edit of the
      found rows is committed. */
  function UserTab(t: Table, key: string, edited: Table): (o: Outcome)
    ensures o == Idle <==> key == ""
    ensures o == FirstTimeOffender <==> key != "" && forall i :: 0 <= i < |t| ==> t[i].username != key
  {
    FilterEmpty(ByUser(key), t);
    if key == "" then Idle
    else if Search(t, key) == [] then FirstTimeOffender
    else SaveUserChanges(t, key, edited)
  }

  /** The source's username test over the surviving rows (more than one
      distinct username, or one that is not `key`) holds exactly when some
      surviving row carries a username other than `key`. */
  lemma UsernameCheck(kept: Table, key: string)
    requires |kept| > 0
    ensures (|Usernames(kept)| > 1 || key !in Usernames(kept))
        <==> exists i :: 0 <= i < |kept| && kept[i].username != key
  {
    var names := Usernames(kept);
    if forall i :: 0 <= i < |kept| ==> kept[i].username == key {
      assert kept[0] in kept;
      assert names == {key};
    } else {
      var i :| 0 <= i < |kept| && kept[i].username != key;
      var u := kept[i].username;
      assert kept[i] in kept;
      if key in names {
        assert {u, key} <= names;
        assert |{u, key}| == 2;
        SubsetCard({u, key}, names);
      }
    }
  }

  /** A subset is no larger than its superset. */
  lemma {:induction false} SubsetCard(a: set<string>, b: set<string>)
    requires a <= b
    ensures |a| <= |b|
  {
    if a != {} {
      var x :| x in a;
      SubsetCard(a - {x}, b - {x});
    }
  }

  /** Blanking every found row deletes the user: the new table is the old
      one without any of the user's rows, everyone else's rows in order. */
  lemma SaveUserChangesDeletes(t: Table, key: string, edited: Table)
    requires forall i :: 0 <= i < |edited| ==> AllBlank(edited[i])
    ensures SaveUserChanges(t, key, edited) == Saved(WithoutUser(t, key))
    ensures Search(WithoutUser(t, key), key) == []
  {
    DropBlankRowsOrder(edited, []);
    SearchAfterRemoval(t, key);
  }

  /** A surviving row with a blank cell is rejected as a null value, before
      and whatever the usernames are. */
  lemma SaveUserChangesNullFirst(t: Table, key: string, edited: Table)
    requires exists i :: 0 <= i < |edited| && !AllBlank(edited[i]) && HasBlank(edited[i])
    ensures SaveUserChanges(t, key, edited) == Rejected(NullValues)
  {
    var i :| 0 <= i < |edited| && !AllBlank(edited[i]) && HasBlank(edited[i]);
    var kept := DropBlankRows(edited);
    assert edited[i] in kept;
    var j :| 0 <= j < |kept| && kept[j] == edited[i];
  }

  /** Once some row survives without blank cells, the edit is rejected as a
      username change exactly when a surviving row names another user. */
  lemma SaveUserChangesRename(t: Table, key: string, edited: Table)
    requires DropBlankRows(edited) != [] && NoBlankCells(DropBlankRows(edited))
    ensures SaveUserChanges(t, key, edited) == Rejected(UsernameChanged)
        <==> exists i :: 0 <= i < |edited| && !AllBlank(edited[i]) && edited[i].username != key
  {
    var kept := DropBlankRows(edited);
    UsernameCheck(kept, key);
    if exists i :: 0 <= i < |edited| && !AllBlank(edited[i]) && edited[i].username != key {
      var i :| 0 <= i < |edited| && !AllBlank(edited[i]) && edited[i].username != key;
      assert edited[i] in kept;
    }
    if exists j :: 0 <= j < |kept| && kept[j].username != key {
      var j :| 0 <= j < |kept| && kept[j].username != key;
      assert kept[j] in kept;
      var i :| 0 <= i < |edited| && edited[i] == kept[j];
    }
  }

  /** A search edit is saved exactly when every row was blanked, or when
      the surviving rows have no blank cell and all keep the username. */
  lemma SaveUserChangesAccepts(t: Table, key: string, edited: Table)
    ensures SaveUserChanges(t, key, edited).Saved?
        <==> ((forall i :: 0 <= i < |edited| ==> AllBlank(edited[i]))
              || (forall i :: 0 <= i < |edited| ==> AllBlank(edited[i]) || (!HasBlank(edited[i]) && edited[i].username == key)))
  {
    var kept := DropBlankRows(edited);
    DropBlankRowsOrder(edited, []);
    if kept != [] {
      if exists i :: 0 <= i < |edited| && !AllBlank(edited[i]) && HasBlank(edited[i]) {
        SaveUserChangesNullFirst(t, key, edited);
      } else {
        forall j | 0 <= j < |kept| ensures !HasBlank(kept[j]) {
          assert kept[j] in kept;
        }
        SaveUserChangesRename(t, key, edited);
      }
    }
  }

  /** A passing search edit writes the other users' rows in their order,
      followed by the grid's rows as returned (blank rows included). The
      rows under other usernames afterwards are the old ones followed only
      by all-blank rows of the grid. Since a surviving row carries the
      username, the username is not blank, and the user's rows afterwards
      are exactly the grid's non-blank rows. */
  lemma SaveUserChangesReplaces(t: Table, key: string, edited: Table)
    requires DropBlankRows(edited) != []
    requires SaveUserChanges(t, key, edited).Saved?
    ensures SaveUserChanges(t, key, edited).table == WithoutUser(t, key) + edited
    ensures WithoutUser(SaveUserChanges(t, key, edited).table, key) == WithoutUser(t, key) + WithoutUser(edited, key)
    ensures forall r :: r in WithoutUser(edited, key) ==> AllBlank(r)
    ensures !IsBlank(key)
    ensures Search(SaveUserChanges(t, key, edited).table, key) == DropBlankRows(edited)
  {
    var kept := DropBlankRows(edited);
    var saved := WithoutUser(t, key) + edited;
    UsernameCheck(kept, key);
    assert forall j :: 0 <= j < |kept| ==> kept[j].username == key;
    forall i | 0 <= i < |edited| && !AllBlank(edited[i]) ensures edited[i].username == key {
      assert edited[i] in kept;
      var j :| 0 <= j < |kept| && kept[j] == edited[i];
    }
    WithoutUserOrder(WithoutUser(t, key), edited, key);
    SearchAfterRemoval(t, key);
    assert !HasBlank(kept[0]) && kept[0].username == key;
    assert !IsBlank(Cells(kept[0])[0]);
    forall i | 0 <= i < |edited| ensures ByUser(key)(edited[i]) == NotAllBlank()(edited[i]) {
      if AllBlank(edited[i]) {
        assert IsBlank(Cells(edited[i])[0]);
      }
    }
    FilterAgree(ByUser(key), NotAllBlank(), edited);
    SearchOrder(WithoutUser(t, key), edited, key);
  }

  /** The grid's blank rows are saved with the rest: a passing search edit
      can store a row whose every cell is empty. */
  lemma SaveUserChangesStoresBlankRow()
    ensures var row := Record("alice", "ban", "2023-03-01", "mod", "spam");
            var blank := Record("", "", "", "", "");
            var o := SaveUserChanges([row, row], "alice", [row, blank]);
            o == Saved([row, blank]) && !NoBlankCells(o.table)
  {
    var row := Record("alice", "ban", "2023-03-01", "mod", "spam");
    var blank := Record("", "", "", "", "");
    assert AllBlank(blank);
    assert !HasBlank(row) by {
      assert !IsBlank(row.username) by { assert row.username[0] == 'a'; }
      assert !IsBlank(row.action) by { assert row.action[0] == 'b'; }
      assert !IsBlank(row.date) by { assert row.date[0] == '2'; }
      assert !IsBlank(row.actor) by { assert row.actor[0] == 'm'; }
      assert !IsBlank(row.reason) by { assert row.reason[0] == 's'; }
    }
    assert !AllBlank(row) by { assert !IsBlank(Cells(row)[0]); }
    assert DropBlankRows([row, blank]) == [row] by {
      assert [row, blank] == [row] + [blank];
      DropBlankRowsOrder([row], [blank]);
      DropBlankRowsOrder([row], []);
      DropBlankRowsOrder([blank], []);
    }
    assert Usernames([row]) == {"alice"};
    assert WithoutUser([row, row], "alice") == [] by {
      FilterEmpty(NotByUser("alice"), [row, row]);
    }
    assert HasBlank(blank) by { assert IsBlank(Cells(blank)[0]); }
  }

  // ---------------------------------------------------------------------
  // Insert-new

  /** The form's five inputs as a record, or nothing when any input is
      empty; whitespace-only inputs are taken as they are. This check does
      not look at the store. */
  function NewEntry(username: string, action: string, date: string, actor: string, reason: string): (e: Option<Record>)
    ensures e.None? <==> |username| == 0 || |action| == 0 || |date| == 0 || |actor| == 0 || |reason| == 0
    ensures e.Some? ==> Cells(e.value) == [username, action, date, actor, reason]
  {
    if |username| == 0 || |action| == 0 || |date| == 0 || |actor| == 0 || |reason| == 0 then None
    else Some(Record(username, action, date, actor, reason))
  }

  /** The add-entry form: it is rejected exactly when an input is empty;
      otherwise the table grows by one row, the inputs, after the unchanged
      old rows. */
  function AddEntry(t: Table, username: string, action: string, date: string, actor: string, reason: string): (o: Outcome)
    ensures o == Rejected(MissingField) <==> |username| == 0 || |action| == 0 || |date| == 0 || |actor| == 0 || |reason| == 0
    ensures o.Saved? <==> |username| > 0 && |action| > 0 && |date| > 0 && |actor| > 0 && |reason| > 0
    ensures o.Saved? <==> !o.Rejected?
    ensures o.Rejected? ==> o.reason == MissingField
    ensures o.Saved? ==> |o.table| == |t| + 1 && o.table[..|t|] == t
    ensures o.Saved? ==> Cells(o.table[|t|]) == [username, action, date, actor, reason]
  {
    match NewEntry(username, action, date, actor, reason)
    case None => Rejected(MissingField)
    case Some(e) => Saved(t + [e])
  }

  /** Whitespace-only inputs pass the form check, so insert-new stores a
      record whose cells are all blank, after the unchanged old rows. */
  lemma AddEntryAcceptsWhitespace(t: Table, username: string, action: string, date: string, actor: string, reason: string)
    requires |username| > 0 && |action| > 0 && |date| > 0 && |actor| > 0 && |reason| > 0
    requires IsBlank(username) && IsBlank(action) && IsBlank(date) && IsBlank(actor) && IsBlank(reason)
    ensures AddEntry(t, username, action, date, actor, reason) == Saved(t + [Record(username, action, date, actor, reason)])
    ensures AllBlank(AddEntry(t, username, action, date, actor, reason).table[|t|])
    ensures !NoBlankCells(AddEntry(t, username, action, date, actor, reason).table)
  {
    var o := AddEntry(t, username, action, date, actor, reason);
    assert Cells(o.table[|t|]) == [username, action, date, actor, reason];
    assert IsBlank(Cells(o.table[|t|])[0]);
  }

  // ---------------------------------------------------------------------
  // Full-table edit

  /** Commit of the whole table as the editing grid returned it: blank rows
      are dropped, an empty result is rejected, then a blank cell is
      rejected; otherwise the table without the blank rows is saved. */
  function SaveAll(edited: Table): (o: Outcome)
    ensures o.Saved? || o == Rejected(EmptyDatabase) || o == Rejected(NullValues)
  {
    var kept := DropBlankRows(edited);
    if |kept| == 0 then Rejected(EmptyDatabase)
    else if exists i :: 0 <= i < |kept| && HasBlank(kept[i]) then Rejected(NullValues)
    else Saved(kept)
  }

  /** The full-table edit is rejected as empty exactly when every row is
      blank. As a corollary of `Stored`, the store then keeps its table. */
  lemma SaveAllEmpty(t: Table, edited: Table)
    ensures SaveAll(edited) == Rejected(EmptyDatabase) <==> forall i :: 0 <= i < |edited| ==> AllBlank(edited[i])
    ensures SaveAll(edited) == Rejected(EmptyDatabase) ==> Stored(t, SaveAll(edited)) == t
  {
    DropBlankRowsOrder(edited, []);
  }

  /** Once some row survives, the full-table edit is rejected as a null
      value exactly when a surviving row has a blank cell; otherwise the
      saved table is the grid's table without its blank rows, in order. */
  lemma SaveAllNullOrSave(edited: Table)
    requires exists i :: 0 <= i < |edited| && !AllBlank(edited[i])
    ensures SaveAll(edited) == Rejected(NullValues)
        <==> exists i :: 0 <= i < |edited| && !AllBlank(edited[i]) && HasBlank(edited[i])
    ensures SaveAll(edited).Saved? ==> SaveAll(edited).table == DropBlankRows(edited)
  {
    var kept := DropBlankRows(edited);
    var i :| 0 <= i < |edited| && !AllBlank(edited[i]);
    assert edited[i] in kept;
    if exists i :: 0 <= i < |edited| && !AllBlank(edited[i]) && HasBlank(edited[i]) {
      var i :| 0 <= i < |edited| && !AllBlank(edited[i]) && HasBlank(edited[i]);
      assert edited[i] in kept;
      var j :| 0 <= j < |kept| && kept[j] == edited[i];
    }
    if exists j :: 0 <= j < |kept| && HasBlank(kept[j]) {
      var j :| 0 <= j < |kept| && HasBlank(kept[j]);
      assert kept[j] in kept;
      var i :| 0 <= i < |edited| && edited[i] == kept[j];
    }
  }

  /** A saved full-table edit is never empty and has no blank cell, and
      saving it again would store the same table. */
  lemma SaveAllSavesValidTable(edited: Table)
    requires SaveAll(edited).Saved?
    ensures |SaveAll(edited).table| > 0 && NoBlankCells(SaveAll(edited).table)
    ensures SaveAll(SaveAll(edited).table) == SaveAll(edited)
  {
    var kept := DropBlankRows(edited);
    DropBlankRowsIdempotent(edited);
  }
}
