/** The remote copy of the moderation log and the three commit actions that
    read it, validate the user's input and overwrite it. */
module Store {
  import opened Records
  import Editor

  /** The one stored table. Every read returns it whole and every write
      replaces it whole, with no check of what was read before: of two
      sessions editing at once, the later write wins. */
  class ModerationLog {
    var rows: Table
    /** How many times the table has been read and written. */
    ghost var fetches: nat
    ghost var uploads: nat

    /** A store without a readable table: reading falls back to an empty
        table with the five columns. */
    constructor ()
      ensures rows == [] && fetches == 0 && uploads == 0
    {
      rows := [];
      fetches, uploads := 0, 0;
    }

    /** Reads the whole table. */
    method Fetch() returns (t: Table)
      modifies this`fetches
      ensures t == rows && fetches == old(fetches) + 1
    {
      t := rows;
      fetches := fetches + 1;
    }

    /** Replaces the whole table, keeping row order. */
    method Overwrite(t: Table)
      modifies this`rows, this`uploads
      ensures rows == t && uploads == old(uploads) + 1
    {
      rows := t;
      uploads := uploads + 1;
    }

    /** The rows recorded against `key`, in table order; the search tab
        reads the store only when a username was entered. */
    method SearchUser(key: string) returns (found: Table)
      modifies this`fetches
      ensures key == "" ==> found == []
      ensures key != "" ==> forall r :: r in found <==> r in rows && r.username == key
      ensures key != "" ==> found == Search(rows, key)
      ensures rows == old(rows) && fetches == old(fetches) + (if key == "" then 0 else 1)
    {
      if key == "" {
        return [];
      }
      var t := Fetch();
      found := Search(t, key);
    }

    /** Commits the search tab's grid (`edited`) for `key`. The store is
        written exactly when the edit is saved; a first-time offender or a
        rejected edit leaves it as it was. */
    method CommitUserEdit(key: string, edited: Table) returns (o: Editor.Outcome)
      modifies this`rows, this`fetches, this`uploads
      ensures o == Editor.UserTab(old(rows), key, edited)
      ensures rows == Editor.Stored(old(rows), o)
      ensures fetches == old(fetches) + (if key == "" then 0 else 1)
      ensures uploads == old(uploads) + (if o.Saved? then 1 else 0)
    {
      if key == "" {
        return Editor.Idle;
      }
      var t := Fetch();
      if Search(t, key) == [] {
        return Editor.FirstTimeOffender;
      }
      o := Editor.SaveUserChanges(t, key, edited);
      if o.Saved? {
        Overwrite(o.table);
      }
    }

    /** Commits the add-entry form. A missing field is rejected before the
        store is read; otherwise the record is appended and written. */
    method CommitNewEntry(username: string, action: string, date: string, actor: string, reason: string)
      returns (o: Editor.Outcome)
      modifies this`rows, this`fetches, this`uploads
      ensures o == Editor.AddEntry(old(rows), username, action, date, actor, reason)
      ensures rows == Editor.Stored(old(rows), o)
      ensures o.Rejected? ==> fetches == old(fetches) && uploads == old(uploads)
      ensures o.Saved? ==> fetches == old(fetches) + 1 && uploads == old(uploads) + 1
    {
      var entry := Editor.NewEntry(username, action, date, actor, reason);
      if entry.None? {
        return Editor.Rejected(Editor.MissingField);
      }
      var t := Fetch();
      t := t + [entry.value];
      Overwrite(t);
      o := Editor.Saved(t);
    }

    /** Commits the full-table grid (`edited`). The store is written, with
        the grid's table minus its blank rows, exactly when the edit is
        saved. */
    method CommitFullEdit(edited: Table) returns (o: Editor.Outcome)
      modifies this`rows, this`uploads
      ensures o == Editor.SaveAll(edited)
      ensures rows == Editor.Stored(old(rows), o)
      ensures uploads == old(uploads) + (if o.Saved? then 1 else 0)
    {
      o := Editor.SaveAll(edited);
      if o.Saved? {
        Overwrite(o.table);
      }
    }
  }
}
