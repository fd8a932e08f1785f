/**
 * The `bni_image` table: an append-only ledger of identifiers, each
 * assigned to the source-relative path of one TIF. Creating the table
 * writes the sentinel row (512082, 'START'); the identifier sequence
 * starts at 512083 and goes up by one per row.
 */
module ImageLedger {

  /** One row of the table (its timestamp is not modelled). */
  datatype BNIImage = BNIImage(uuid: int, name: string)

  const SentinelId: int := 512082
  const SentinelName: string := "START"
  /** `Sequence('article_aid_seq', start=512083, increment=1)`. */
  const FirstId: int := 512083

  /** Whether any row is named `name`. */
  function HasName(rows: seq<BNIImage>, name: string): (r: bool)
    ensures r <==> exists i :: 0 <= i < |rows| && rows[i].name == name
    decreases |rows|
  {
    if rows == [] then false
    else rows[|rows| - 1].name == name || HasName(rows[..|rows| - 1], name)
  }

  /** The rows that assigning consecutive identifiers from `first` to `names` appends. */
  function NewRows(names: seq<string>, first: int): (rows: seq<BNIImage>)
    ensures |rows| == |names|
    ensures forall i :: 0 <= i < |names| ==> rows[i] == BNIImage(first + i, names[i])
    decreases |names|
  {
    if names == [] then []
    else NewRows(names[..|names| - 1], first) + [BNIImage(first + |names| - 1, names[|names| - 1])]
  }

  /** Appending the rows for one more name extends the rows for the names before it. */
  lemma NewRowsSnoc(names: seq<string>, name: string, first: int)
    ensures NewRows(names + [name], first) == NewRows(names, first) + [BNIImage(first + |names|, name)]
  {
    assert (names + [name])[..|names|] == names;
  }

  class Ledger {
    var rows: seq<BNIImage>
    var next: int

    /** The sentinel comes first and identifiers are consecutive; `next` is the one the sequence hands out next. */
    ghost predicate Valid()
      reads this
    {
      && |rows| >= 1
      && rows[0] == BNIImage(SentinelId, SentinelName)
      && (forall i :: 0 <= i < |rows| ==> rows[i].uuid == SentinelId + i)
      && next == SentinelId + |rows|
    }

    /** A freshly created table: only the sentinel row. */
    constructor()
      ensures Valid()
      ensures rows == [BNIImage(SentinelId, SentinelName)] && next == FirstId
    {
      rows := [BNIImage(SentinelId, SentinelName)];
      next := FirstId;
    }

    /** `query(exists().where(BNIImage.name == name)).scalar()`. */
    function Has(name: string): (r: bool)
      reads this
      ensures r <==> exists i :: 0 <= i < |rows| && rows[i].name == name
    {
      HasName(rows, name)
    }

    /** `get_image_uuid(name)`: adds one row for `name` and returns its identifier. */
    method Add(name: string) returns (id: int)
      requires Valid()
      modifies this
      ensures Valid()
      ensures id == old(next) && id >= FirstId
      ensures rows == old(rows) + [BNIImage(id, name)]
      ensures next == old(next) + 1
    {
      id := next;
      rows := rows + [BNIImage(id, name)];
      next := next + 1;
    }
  }

  /** After a batch of additions, a name is present exactly when it was before or was added. */
  lemma HasNameAfterAdding(rows: seq<BNIImage>, names: seq<string>, first: int, name: string)
    ensures HasName(rows + NewRows(names, first), name) <==> HasName(rows, name) || name in names
  {
    var all := rows + NewRows(names, first);
    if name in names {
      var k :| 0 <= k < |names| && names[k] == name;
      assert all[|rows| + k].name == name;
    }
    if HasName(rows, name) {
      var i :| 0 <= i < |rows| && rows[i].name == name;
      assert all[i] == rows[i];
    }
    if HasName(all, name) {
      var i :| 0 <= i < |all| && all[i].name == name;
      if i >= |rows| {
        assert names[i - |rows|] == name;
      } else {
        assert rows[i].name == name;
      }
    }
  }
}
