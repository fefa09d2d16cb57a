/** The moderation-log table: records of five string cells, and the row
    selections the editor applies to it (filter by username, drop the rows
    the editing grid left entirely blank). */
module Records {
  import opened Seqs

  /** One moderation action: the columns "Discord Username", "Action Taken",
      "Date", "Action Taken By" and "Reason", in that order. */
  datatype Record = Record(username: string, action: string, date: string, actor: string, reason: string)

  /** The whole log, in stored row order. */
  type Table = seq<Record>

  /** The characters Python's `\s` matches in a text pattern (those for
      which `str.isspace` holds). */
  predicate IsSpace(c: char) {
    ('\t' <= c <= '\r') || ('\U{1C}' <= c <= ' ') || c == '\U{85}' || c == '\U{A0}'
    || c == '\U{1680}' || ('\U{2000}' <= c <= '\U{200A}') || c == '\U{2028}' || c == '\U{2029}'
    || c == '\U{202F}' || c == '\U{205F}' || c == '\U{3000}'
  }

  /** A cell the pattern `^\s*$` matches: empty or whitespace only. The
      editor turns such a cell into a null. */
  predicate IsBlank(s: string) {
    forall i :: 0 <= i < |s| ==> IsSpace(s[i])
  }

  /** The five cells of a record, in column order. */
  function Cells(r: Record): seq<string> {
    [r.username, r.action, r.date, r.actor, r.reason]
  }

  /** Every cell is blank: `dropna(how='all')` drops such a row. */
  predicate AllBlank(r: Record) {
    forall i :: 0 <= i < 5 ==> IsBlank(Cells(r)[i])
  }

  /** Some cell is blank: `isnull().values.any()` reports such a row. */
  predicate HasBlank(r: Record) {
    exists i :: 0 <= i < 5 && IsBlank(Cells(r)[i])
  }

  /** No cell of any row is blank. */
  predicate NoBlankCells(t: Table) {
    forall i :: 0 <= i < |t| ==> !HasBlank(t[i])
  }

  /** The mask `df["Discord Username"] == key`. */
  function ByUser(key: string): Record -> bool {
    (r: Record) => r.username == key
  }

  /** The mask `df["Discord Username"] != key`. */
  function NotByUser(key: string): Record -> bool {
    (r: Record) => r.username != key
  }

  /** The mask of rows that keep at least one non-blank cell. */
  function NotAllBlank(): Record -> bool {
    (r: Record) => !AllBlank(r)
  }

  /** The rows recorded against `key` (`df[df["Discord Username"] == key]`). */
  function Search(t: Table, key: string): (u: Table)
    ensures forall r :: r in u <==> r in t && r.username == key
  {
    Filter(ByUser(key), t)
  }

  /** The rows of every other user (`df[df["Discord Username"] != key]`). */
  function WithoutUser(t: Table, key: string): (u: Table)
    ensures forall r :: r in u <==> r in t && r.username != key
  {
    Filter(NotByUser(key), t)
  }

  /** The rows that survive blank-to-null replacement followed by
      `dropna(how='all')`. */
  function DropBlankRows(t: Table): (u: Table)
    ensures forall r :: r in u <==> r in t && !AllBlank(r)
  {
    Filter(NotAllBlank(), t)
  }

  /** Searching and removing a user split the table without loss. */
  lemma SearchPartition(t: Table, key: string)
    ensures multiset(Search(t, key)) + multiset(WithoutUser(t, key)) == multiset(t)
    ensures |Search(t, key)| + |WithoutUser(t, key)| == |t|
  {
    FilterPartition(ByUser(key), NotByUser(key), t);
  }

  /** Removing a user's rows keeps everyone else's rows in order: it
      commutes with concatenation and keeps a table of other users whole. */
  lemma WithoutUserOrder(a: Table, b: Table, key: string)
    ensures WithoutUser(a + b, key) == WithoutUser(a, key) + WithoutUser(b, key)
    ensures (forall i :: 0 <= i < |a| ==> a[i].username != key) ==> WithoutUser(a, key) == a
  {
    FilterAppend(NotByUser(key), a, b);
    if forall i :: 0 <= i < |a| ==> a[i].username != key {
      FilterKeepsAll(NotByUser(key), a);
    }
  }

  /** Searching keeps the found rows in table order: it commutes with
      concatenation. */
  lemma SearchOrder(a: Table, b: Table, key: string)
    ensures Search(a + b, key) == Search(a, key) + Search(b, key)
  {
    FilterAppend(ByUser(key), a, b);
  }

  /** A table without the key has no row for the key, and searching for it
      finds nothing. */
  lemma SearchAfterRemoval(t: Table, key: string)
    ensures Search(WithoutUser(t, key), key) == []
    ensures WithoutUser(WithoutUser(t, key), key) == WithoutUser(t, key)
  {
    FilterEmpty(ByUser(key), WithoutUser(t, key));
    FilterIdempotent(NotByUser(key), t);
  }

  /** Dropping blank rows removes exactly the all-blank rows and keeps the
      others in order: it commutes with concatenation, is the identity on a
      table without all-blank rows, and yields nothing exactly when every
      row is all blank. */
  lemma DropBlankRowsOrder(a: Table, b: Table)
    ensures DropBlankRows(a + b) == DropBlankRows(a) + DropBlankRows(b)
    ensures (forall i :: 0 <= i < |a| ==> !AllBlank(a[i])) ==> DropBlankRows(a) == a
    ensures DropBlankRows(a) == [] <==> forall i :: 0 <= i < |a| ==> AllBlank(a[i])
  {
    var p := NotAllBlank();
    FilterAppend(p, a, b);
    FilterEmpty(p, a);
    if forall i :: 0 <= i < |a| ==> !AllBlank(a[i]) {
      FilterKeepsAll(p, a);
    }
  }

  /** Blank-row dropping is idempotent. */
  lemma DropBlankRowsIdempotent(t: Table)
    ensures DropBlankRows(DropBlankRows(t)) == DropBlankRows(t)
  {
    FilterIdempotent(NotAllBlank(), t);
  }

  /** A row without blank cells is not all blank: a table without blank
      cells loses nothing to blank-row dropping. */
  lemma NoBlankCellsSurvives(t: Table)
    requires NoBlankCells(t)
    ensures DropBlankRows(t) == t
  {
    forall i | 0 <= i < |t| ensures !AllBlank(t[i]) {
      assert !HasBlank(t[i]);
      assert !IsBlank(Cells(t[i])[0]);
    }
    FilterKeepsAll(NotAllBlank(), t);
  }
}
