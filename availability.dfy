/**
  Which feed rows are for sale (`filterData`): a row whose notes contain
  "consign", "hold" or "hide", ignoring case, is withdrawn (so "hidden" or
  "Hiding" does not withdraw it); a row without notes is kept.
*/
module Availability {
  import opened Strings
  import opened Seqs
  import opened Csv

  /** A lower-cased note that withdraws a row. */
  predicate Withdrawn(note: string)
    ensures Withdrawn(note) ==> |note| >= 4
  {
    Contains(note, "consign") || Contains(note, "hold") || Contains(note, "hide")
  }

  /** The predicate passed to `data.filter`. */
  predicate Available(row: RawRow)
    ensures |Field(row, "notes")| < 4 ==> Available(row)
  {
    Field(row, "notes") == "" || !Withdrawn(Lower(Field(row, "notes")))
  }

  /** `filterData(data)`: the available rows, in feed order. */
  function FilterData(rows: seq<RawRow>): (r: seq<RawRow>)
    ensures |r| <= |rows|
    ensures forall row :: row in r <==> row in rows && Available(row)
  {
    FilterMembers(rows, Available);
    Filter(rows, Available)
  }

  /** The kept rows appear in the order of the feed. */
  lemma FilterDataOrder(rows: seq<RawRow>)
    ensures IsSubsequence(FilterData(rows), rows)
  {
    FilterIsSubsequence(rows, Available);
  }

  /** Kept and dropped rows together are the feed. */
  lemma FilterDataPartition(rows: seq<RawRow>)
    ensures multiset(FilterData(rows)) + multiset(Filter(rows, (row: RawRow) => !Available(row))) == multiset(rows)
  {
    FilterPartition(rows, Available, (row: RawRow) => !Available(row));
  }

  /** A row with no notes column, or empty notes, is always kept. */
  lemma NoNotesAvailable(row: RawRow)
    requires "notes" !in row || row["notes"] == ""
    ensures Available(row)
  {
  }

  /** A row noted "On Hold" is withdrawn. */
  lemma OnHoldWithdrawn(row: RawRow)
    requires "notes" in row && row["notes"] == "On Hold"
    ensures !Available(row)
  {
    var note := Lower(row["notes"]);
    assert note == "on hold";
    assert OccursAt(note, "hold", 3);
  }

  /** Notes with no 'h' and no 's', in either case, never withdraw a row. */
  lemma NoWithdrawingLetter(row: RawRow)
    requires var notes := Field(row, "notes");
      'h' !in notes && 'H' !in notes && 's' !in notes && 'S' !in notes
    ensures Available(row)
  {
    var notes := Field(row, "notes");
    var note := Lower(notes);
    LowerHasLetter(notes, 'h', 'H');
    LowerHasLetter(notes, 's', 'S');
    NotContainsByChar(note, "consign", 's');
    NotContainsByChar(note, "hold", 'h');
    NotContainsByChar(note, "hide", 'h');
  }

  lemma GreatConditionLetters(notes: string)
    requires notes == "Great condition"
    ensures 'h' !in notes && 'H' !in notes
    ensures 's' !in notes && 'S' !in notes
  {
  }

  /** A row noted "Great condition" is kept. */
  lemma GreatConditionAvailable(row: RawRow)
    requires "notes" in row && row["notes"] == "Great condition"
    ensures Available(row)
  {
    GreatConditionLetters(row["notes"]);
    NoWithdrawingLetter(row);
  }

  /** "hide" is matched as written: a row noted "hidden" is kept. */
  lemma HiddenAvailable(row: RawRow)
    requires "notes" in row && row["notes"] == "hidden"
    ensures Available(row)
  {
    var note := Lower(row["notes"]);
    assert note == "hidden";
    forall j: nat | OccursAt(note, "hide", j)
      ensures false
    {
      OccursAtChar(note, "hide", j, 0);
      OccursAtChar(note, "hide", j, 3);
    }
    forall j: nat | OccursAt(note, "hold", j)
      ensures false
    {
      OccursAtChar(note, "hold", j, 0);
      OccursAtChar(note, "hold", j, 1);
    }
    forall j: nat | OccursAt(note, "consign", j)
      ensures false
    {
    }
  }

  /** Withdrawal ignores letter case: "HOLD" withdraws a row as "hold" does. */
  lemma WithdrawnIgnoresCase(row: RawRow, other: RawRow)
    requires Field(row, "notes") != "" && Field(other, "notes") != ""
    requires Lower(Field(row, "notes")) == Lower(Field(other, "notes"))
    ensures Available(row) <==> Available(other)
  {
  }
}
