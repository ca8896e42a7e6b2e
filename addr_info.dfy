/**
 * The address-information store the decoder writes into (the Sdb of the
 * binary file): the compilation directory, and the two indexes kept by
 * add_sdb_addrline, address to "file|line" and "file|line" to address.
 *
 * The store keys are strings; "file|line" is modelled as the pair (file,
 * line), which loses nothing because the line is rendered as a decimal
 * number, so the last '|' of a key separates the two. `sdb_add` only adds a
 * key that is not there yet; `sdb_set` overwrites.
 */
module AddrInfoStore {
  import opened Wrappers

  /** The line as the key renders it: a decimal number. */
  type LineKey = (string, int)

  /** `sdb_add`: the first value written under a key stays. */
  function AddNew<K, V>(m: map<K, V>, k: K, v: V): (r: map<K, V>)
    ensures k in r && r[k] == (if k in m then m[k] else v)
    ensures forall k' :: k' in m ==> k' in r && r[k'] == m[k']
    ensures forall k' :: k' in r ==> k' == k || k' in m
  {
    if k in m then m else m[k := v]
  }

  /** One row of the line table as the store receives it. */
  datatype Row = Row(address: nat, file: string, line: int)

  /** The two indexes after the rows have been added in order. */
  function LinesAfter(lineOf: map<nat, LineKey>, rows: seq<Row>): map<nat, LineKey>
    decreases |rows|
  {
    if rows == [] then lineOf
    else
      var last := rows[|rows| - 1];
      AddNew(LinesAfter(lineOf, rows[..|rows| - 1]), last.address, (last.file, last.line))
  }

  function AddrsAfter(addrOf: map<LineKey, nat>, rows: seq<Row>): map<LineKey, nat>
    decreases |rows|
  {
    if rows == [] then addrOf
    else
      var last := rows[|rows| - 1];
      AddNew(AddrsAfter(addrOf, rows[..|rows| - 1]), (last.file, last.line), last.address)
  }

  /** Row `i` is the first row for address `a`. */
  predicate FirstWithAddress(rows: seq<Row>, i: int, a: nat)
  {
    0 <= i < |rows| && rows[i].address == a && forall j :: 0 <= j < i ==> rows[j].address != a
  }

  /**
   * The address index keeps the first row written for an address: an entry
   * that was there stays, and a new entry is the first row with that address.
   */
  lemma {:induction false} FirstRowWins(lineOf: map<nat, LineKey>, rows: seq<Row>, a: nat)
    ensures a in lineOf ==> a in LinesAfter(lineOf, rows) && LinesAfter(lineOf, rows)[a] == lineOf[a]
    ensures a !in lineOf ==>
      (a in LinesAfter(lineOf, rows) <==> exists i :: 0 <= i < |rows| && rows[i].address == a)
    ensures a !in lineOf ==> forall i :: FirstWithAddress(rows, i, a) ==>
      LinesAfter(lineOf, rows)[a] == (rows[i].file, rows[i].line)
    decreases |rows|
  {
    if rows != [] {
      var init := rows[..|rows| - 1];
      FirstRowWins(lineOf, init, a);
      forall i | 0 <= i < |init| ensures init[i] == rows[i] {
      }
      if a !in lineOf && a !in LinesAfter(lineOf, init) && rows[|rows| - 1].address == a {
        assert exists i :: 0 <= i < |rows| && rows[i].address == a by {
          assert rows[|rows| - 1].address == a;
        }
      }
    }
  }

  class AddrInfo {
    var compDir: Option<string>
    var lineOf: map<nat, LineKey>
    var addrOf: map<LineKey, nat>

    constructor ()
      ensures compDir == None && lineOf == map[] && addrOf == map[]
    {
      compDir := None;
      lineOf := map[];
      addrOf := map[];
    }

    /** `sdb_set (sdb, "DW_AT_comp_dir", name, 0)`. */
    method SetCompDir(dir: string)
      modifies this
      ensures compDir == Some(dir)
      ensures lineOf == old(lineOf) && addrOf == old(addrOf)
    {
      compDir := Some(dir);
    }

    /** The two `sdb_add` calls of add_sdb_addrline. */
    method AddRow(row: Row)
      modifies this
      ensures lineOf == LinesAfter(old(lineOf), [row])
      ensures addrOf == AddrsAfter(old(addrOf), [row])
      ensures compDir == old(compDir)
    {
      assert [row][..0] == [];
      lineOf := AddNew(lineOf, row.address, (row.file, row.line));
      addrOf := AddNew(addrOf, (row.file, row.line), row.address);
    }
  }

  /** Adding rows one at a time is adding them all. */
  lemma AfterSnoc(lineOf: map<nat, LineKey>, addrOf: map<LineKey, nat>, rows: seq<Row>, row: Row)
    ensures LinesAfter(lineOf, rows + [row]) == LinesAfter(LinesAfter(lineOf, rows), [row])
    ensures AddrsAfter(addrOf, rows + [row]) == AddrsAfter(AddrsAfter(addrOf, rows), [row])
  {
    assert (rows + [row])[..|rows|] == rows;
    assert [row][..0] == [];
  }

  /** Adding two runs of rows one after the other is adding their concatenation. */
  lemma {:induction false} AfterConcat(lineOf: map<nat, LineKey>, addrOf: map<LineKey, nat>, a: seq<Row>, b: seq<Row>)
    ensures LinesAfter(lineOf, a + b) == LinesAfter(LinesAfter(lineOf, a), b)
    ensures AddrsAfter(addrOf, a + b) == AddrsAfter(AddrsAfter(addrOf, a), b)
    decreases |b|
  {
    if b == [] {
      assert a + b == a;
    } else {
      var init := b[..|b| - 1];
      var last := b[|b| - 1];
      assert b == init + [last];
      assert a + b == (a + init) + [last];
      AfterConcat(lineOf, addrOf, a, init);
      AfterSnoc(lineOf, addrOf, a + init, last);
      AfterSnoc(LinesAfter(lineOf, a), AddrsAfter(addrOf, a), init, last);
    }
  }
}
