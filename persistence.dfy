/** Saving the inventory to, and loading it from, the CSV file. The file is
    seen as the sequence of its records, each a pair of fields; the first
    record is the header. Blood-type codes and integers contain no comma or
    quote, so no field is ever quoted. */
module Persistence {
  import opened Wrappers
  import opened Text
  import opened Integers
  import opened BloodTypes
  import opened Inventory

  /** One CSV record: the `blood_type` field and the `units` field. */
  datatype Row = Row(bloodType: string, units: string)

  const Header: Row := Row("blood_type", "units")

  /** What is found at the file's path when loading. */
  datatype FileState =
    | Missing                      // the path does not exist
    | Unreadable                   // opening or reading it fails
    | Present(rows: seq<Row>)      // its records, header first

  function EntryRow(e: Entry): Row
  {
    Row(Code(e.bloodType), IntToString(e.units))
  }

  /** What `save_inventory_to_csv` writes: the header, then one record per
      entry in insertion order. */
  function SaveRows(d: Dict): (rows: seq<Row>)
    ensures |rows| == |d| + 1 && rows[0] == Header
    ensures forall i :: 0 <= i < |d| ==> rows[i + 1] == EntryRow(d[i])
  {
    [Header] + seq(|d|, i requires 0 <= i < |d| => EntryRow(d[i]))
  }

  /** The entry a record contributes, if any: a record whose units are not an
      integer, or whose type token is not a valid type, is skipped. */
  function RowEntry(row: Row): Option<Entry>
  {
    match ParseInt(row.units)
    case None => None
    case Some(n) =>
      match ParseType(row.bloodType)
      case None => None
      case Some(t) => Some(Entry(t, n))
  }

  /** `inventory[t] = n` for a record read as `(t, n)`; a skipped record
      leaves the dictionary as it is. */
  function Assign(acc: Dict, read: Option<Entry>): (r: Dict)
    ensures WellFormed(acc) ==> WellFormed(r)
  {
    match read
    case None => acc
    case Some(e) =>
      PutProperties(acc, e.bloodType, e.units);
      Put(acc, e.bloodType, e.units)
  }

  /** The dictionary built by assigning what was read, first to last. */
  function AssignAll(parsed: seq<Option<Entry>>): (d: Dict)
    ensures WellFormed(d)
    decreases |parsed|
  {
    if parsed == [] then []
    else Assign(AssignAll(parsed[..|parsed| - 1]), parsed[|parsed| - 1])
  }

  /** What each data record is read as. */
  function Reads(rows: seq<Row>): seq<Option<Entry>>
  {
    seq(|rows|, i requires 0 <= i < |rows| => RowEntry(rows[i]))
  }

  /** The dictionary built from the data records, first to last. */
  function ParseRows(rows: seq<Row>): (d: Dict)
    ensures WellFormed(d)
  {
    AssignAll(Reads(rows))
  }

  /** The inventory `load_inventory_from_csv` returns: the default when the
      file is missing, an empty one when it cannot be read, and otherwise the
      records after the header. */
  function LoadedInventory(f: FileState): Dict
  {
    match f
    case Missing => DefaultInventory
    case Unreadable => []
    case Present(rows) => if rows == [] then [] else ParseRows(rows[1..])
  }

  /** Writing the file, record by record. */
  method SaveInventory(inventory: Dict) returns (rows: seq<Row>)
    ensures rows == SaveRows(inventory)
  {
    rows := [Header];
    for i := 0 to |inventory|
      invariant |rows| == i + 1 && rows[0] == Header
      invariant forall k :: 0 <= k < i ==> rows[k + 1] == EntryRow(inventory[k])
    {
      rows := rows + [EntryRow(inventory[i])];
    }
    SaveRowsOf(inventory, rows);
  }

  /** Records holding the header and then each entry's record, in order, are
      what saving writes. */
  lemma SaveRowsOf(d: Dict, rows: seq<Row>)
    requires |rows| == |d| + 1 && rows[0] == Header
    requires forall k :: 0 <= k < |d| ==> rows[k + 1] == EntryRow(d[k])
    ensures rows == SaveRows(d)
  {
  }

  /** Loading the file; when it is missing it is first created with the
      default inventory, and the records written are returned too. */
  method LoadInventory(f: FileState) returns (inventory: Dict, written: Option<seq<Row>>)
    ensures inventory == LoadedInventory(f)
    ensures written == if f.Missing? then Some(SaveRows(DefaultInventory)) else None
  {
    match f
    case Missing =>
      var rows := SaveInventory(DefaultInventory);
      return DefaultInventory, Some(rows);
    case Unreadable =>
      return [], None;
    case Present(rows) =>
      inventory, written := [], None;
      if rows == [] {
        return;
      }
      var records := rows[1..];
      for i := 0 to |records|
        invariant inventory == ParseRows(records[..i])
      {
        var row := records[i];
        var units := ParseInt(row.units);
        ReadsStep(records[..i], row);
        assert records[..i + 1] == records[..i] + [row];
        if units.Some? {
          var t := ParseType(row.bloodType);
          if t.Some? {
            inventory := Put(inventory, t.value, units.value);
          }
        }
      }
      assert records[..|records|] == records;
  }

  /** A saved record parsed back as the entry it was written from. */
  lemma EntryRowRoundTrip(e: Entry)
    ensures RowEntry(EntryRow(e)) == Some(e)
  {
    ParseIntOfIntToString(e.units);
    ParseTypeOfCode(e.bloodType);
  }

  /** A record is read as `(t, n)` exactly when its units are the integer
      `n` and its type field, upper-cased and stripped, is the code of `t`. */
  lemma RowEntryAccepts(row: Row, t: BloodType, n: int)
    ensures RowEntry(row) == Some(Entry(t, n)) <==>
      ParseInt(row.units) == Some(n) && Code(t) == Normalize(row.bloodType)
  {
    ParseTypeSpec(row.bloodType);
    if ParseType(row.bloodType).Some? {
      CodeInjective(ParseType(row.bloodType).value, t);
    }
  }

  /** A record is skipped exactly when its units are not an integer or its
      type field is not the code of any type. */
  lemma RowEntrySkips(row: Row)
    ensures RowEntry(row).None? <==>
      ParseInt(row.units).None? || forall t :: Code(t) != Normalize(row.bloodType)
  {
    ParseTypeSpec(row.bloodType);
  }

  /** Every inventory that loading can return is a proper dictionary. */
  lemma LoadedWellFormed(f: FileState)
    ensures WellFormed(LoadedInventory(f))
  {
    DefaultInventoryKeys();
  }

  /** Reading one more record adds what it is read as. */
  lemma ReadsStep(rows: seq<Row>, row: Row)
    ensures ParseRows(rows + [row]) == Assign(ParseRows(rows), RowEntry(row))
  {
    var parsed := Reads(rows + [row]);
    assert parsed[..|rows|] == Reads(rows);
    assert parsed[|rows|] == RowEntry(row);
  }

  /** The reads of a dictionary's entries, each of them accepted. */
  function Accepted(d: Dict): seq<Option<Entry>>
  {
    seq(|d|, i requires 0 <= i < |d| => Some(d[i]))
  }

  /** In a well-formed dictionary no entry's key occurs before it. */
  lemma FreshKey(d: Dict, k: nat)
    requires WellFormed(d) && 0 < k <= |d|
    ensures d[k - 1].bloodType !in Keys(d[..k - 1])
  {
    var prefix := d[..k - 1];
    forall i | 0 <= i < |prefix| ensures Keys(prefix)[i] != d[k - 1].bloodType {
      assert prefix[i] == d[i];
    }
  }

  /** Assigning an accepted entry whose type is not yet present appends it. */
  lemma AssignFresh(done: seq<Option<Entry>>, prefix: Dict, e: Entry)
    requires AssignAll(done) == prefix && e.bloodType !in Keys(prefix)
    ensures AssignAll(done + [Some(e)]) == prefix + [e]
  {
    assert (done + [Some(e)])[..|done|] == done;
  }

  /** The first `k` accepted reads are those of the first `k - 1` entries
      followed by that of entry `k - 1`. */
  lemma AcceptedPrefix(d: Dict, k: nat)
    requires 0 < k <= |d|
    ensures Accepted(d)[..k] == Accepted(d)[..k - 1] + [Some(d[k - 1])]
    ensures d[..k] == d[..k - 1] + [d[k - 1]]
  {
  }

  /** Assigning the first `k` entries of a well-formed dictionary, in order,
      rebuilds them. */
  lemma {:induction false} AssignAccepted(d: Dict, k: nat)
    requires WellFormed(d) && k <= |d|
    ensures AssignAll(Accepted(d)[..k]) == d[..k]
    decreases k
  {
    if k > 0 {
      AssignAccepted(d, k - 1);
      FreshKey(d, k);
      AssignFresh(Accepted(d)[..k - 1], d[..k - 1], d[k - 1]);
      AcceptedPrefix(d, k);
    }
  }

  /** The saved data records are read back as the entries they came from. */
  lemma ReadSaved(d: Dict)
    ensures Reads(SaveRows(d)[1..]) == Accepted(d)
  {
    forall i | 0 <= i < |d| ensures Reads(SaveRows(d)[1..])[i] == Some(d[i]) {
      EntryRowRoundTrip(d[i]);
    }
  }

  /** A record whose units field starts with a separator (codes 28 to 31)
      is skipped, whatever its type field holds; the same character in front
      of a type field is stripped away. */
  lemma SeparatorRecordSkipped(b: string, c: char, s: string)
    requires 28 <= c as int <= 31
    ensures RowEntry(Row(b, [c] + s)) == None
    ensures Normalize([c] + b) == Normalize(b)
  {
    SeparatorRefused(c, s);
    var u := Upper([c] + b);
    assert u == [c] + Upper(b);
    assert u[1..] == Upper(b);
  }

  /** Save then load is the identity on every inventory, order included. */
  lemma SaveThenLoad(d: Dict)
    requires WellFormed(d)
    ensures LoadedInventory(Present(SaveRows(d))) == d
  {
    ReadSaved(d);
    AssignAccepted(d, |d|);
    assert Accepted(d)[..|d|] == Accepted(d);
    assert d[..|d|] == d;
  }

  /** Loading with no file gives the default inventory, and the file created
      for it loads back to the same inventory. */
  lemma LoadWithoutFile()
    ensures LoadedInventory(Missing) == DefaultInventory
    ensures Keys(LoadedInventory(Missing)) == AllTypes
    ensures LoadedInventory(Present(SaveRows(DefaultInventory))) == DefaultInventory
  {
    DefaultInventoryKeys();
    SaveThenLoad(DefaultInventory);
  }

  /** A read that assigns type `t`. */
  predicate AssignsTo(read: Option<Entry>, t: BloodType)
  {
    read.Some? && read.value.bloodType == t
  }

  /** Read `i` is the last of `parsed` that assigns type `t`. */
  ghost predicate LastAssigning(parsed: seq<Option<Entry>>, t: BloodType, i: int)
  {
    0 <= i < |parsed| && AssignsTo(parsed[i], t) &&
    forall j :: i < j < |parsed| ==> !AssignsTo(parsed[j], t)
  }

  lemma AssignLookup(acc: Dict, read: Option<Entry>, t: BloodType)
    ensures Lookup(Assign(acc, read), t) ==
      if AssignsTo(read, t) then Some(read.value.units) else Lookup(acc, t)
  {
    if read.Some? {
      PutLookup(acc, read.value.bloodType, read.value.units, t);
    }
  }

  /** A type is absent from the dictionary exactly when nothing assigns it,
      and otherwise holds the value of the last read that assigns it. */
  lemma {:induction false} LastAssignmentWins(parsed: seq<Option<Entry>>, t: BloodType)
    ensures Lookup(AssignAll(parsed), t).None? <==>
      forall i :: 0 <= i < |parsed| ==> !AssignsTo(parsed[i], t)
    ensures forall i :: LastAssigning(parsed, t, i) ==>
      Lookup(AssignAll(parsed), t) == Some(parsed[i].value.units)
    decreases |parsed|
  {
    if parsed != [] {
      var n := |parsed| - 1;
      var prefix := parsed[..n];
      LastAssignmentWins(prefix, t);
      AssignLookup(AssignAll(prefix), parsed[n], t);
      assert forall i :: 0 <= i < n ==> prefix[i] == parsed[i];
      forall i | LastAssigning(parsed, t, i)
        ensures Lookup(AssignAll(parsed), t) == Some(parsed[i].value.units)
      {
        if i < n {
          assert LastAssigning(prefix, t, i);
        }
      }
    }
  }

  /** Record `i` of `rows` is the last one read as an entry for type `t`. */
  ghost predicate LastFor(rows: seq<Row>, t: BloodType, i: int)
  {
    0 <= i < |rows| && AssignsTo(RowEntry(rows[i]), t) &&
    forall j :: i < j < |rows| ==> !AssignsTo(RowEntry(rows[j]), t)
  }

  /** A type is absent from the loaded dictionary exactly when no record is
      read as an entry for it, and otherwise holds the units of the last
      record read as one: a later record overwrites an earlier one. */
  lemma LastRecordWins(rows: seq<Row>, t: BloodType)
    ensures Lookup(ParseRows(rows), t).None? <==>
      forall i :: 0 <= i < |rows| ==> !AssignsTo(RowEntry(rows[i]), t)
    ensures forall i :: LastFor(rows, t, i) ==>
      Lookup(ParseRows(rows), t) == Some(RowEntry(rows[i]).value.units)
  {
    var parsed := Reads(rows);
    LastAssignmentWins(parsed, t);
    assert forall i :: 0 <= i < |rows| ==> parsed[i] == RowEntry(rows[i]);
    forall i | LastFor(rows, t, i) ensures LastAssigning(parsed, t, i) {
    }
  }

  /** Assigning one more read. */
  lemma AssignAllStep(parsed: seq<Option<Entry>>, item: Option<Entry>)
    ensures AssignAll(parsed + [item]) == Assign(AssignAll(parsed), item)
  {
    assert (parsed + [item])[..|parsed|] == parsed;
  }

  /** A skipped read does not affect the result, wherever it stands. */
  lemma {:induction false} SkippedReadIgnored(before: seq<Option<Entry>>, after: seq<Option<Entry>>)
    ensures AssignAll(before + [None] + after) == AssignAll(before + after)
    decreases |after|
  {
    if after == [] {
      AssignAllStep(before, None);
      assert before + [None] + after == before + [None];
      assert before + after == before;
    } else {
      var n := |after| - 1;
      SkippedReadIgnored(before, after[..n]);
      AssignAllStep(before + [None] + after[..n], after[n]);
      AssignAllStep(before + after[..n], after[n]);
      assert before + [None] + after == (before + [None] + after[..n]) + [after[n]];
      assert before + after == (before + after[..n]) + [after[n]];
    }
  }

  /** Records are read one by one. */
  lemma ReadsAppend(a: seq<Row>, b: seq<Row>)
    ensures Reads(a + b) == Reads(a) + Reads(b)
  {
    var whole := Reads(a + b);
    forall i | 0 <= i < |a| + |b| ensures whole[i] == (Reads(a) + Reads(b))[i] {
      if i < |a| {
        assert (a + b)[i] == a[i];
      } else {
        assert (a + b)[i] == b[i - |a|];
      }
    }
  }

  /** A skipped record does not affect the loaded dictionary, wherever it
      stands. */
  lemma SkippedRecordIgnored(before: seq<Row>, row: Row, after: seq<Row>)
    requires RowEntry(row).None?
    ensures ParseRows(before + [row] + after) == ParseRows(before + after)
  {
    ReadsAppend(before, [row]);
    ReadsAppend(before + [row], after);
    ReadsAppend(before, after);
    assert Reads([row]) == [None];
    SkippedReadIgnored(Reads(before), Reads(after));
  }
}
