/**
 * The relation the handlers try to keep between the two stores: for every id,
 * the table's row is the row of the first document record with that id (the
 * record every handler finds with `next(...)`), and the table has no other rows.
 * The two writes of a handler are separate steps, so nothing enforces this; the
 * lemmas below say which handlers keep it and which inputs break it.
 */
module Mirror {
  import opened Wrappers
  import opened JsonValues
  import opened Products
  import opened ProductTable

  function Lookup(rows: map<int, Row>, id: int): Option<Row>
  {
    if id in rows then Some(rows[id]) else None
  }

  /** The row the document calls for under `id`: that of its first record with this id. */
  function RowFor(doc: seq<Record>, id: int): Option<Row>
  {
    match FindIndex(doc, id)
    case None => None
    case Some(k) => Some(RowOf(doc[k]))
  }

  ghost predicate Mirrors(doc: seq<Record>, rows: map<int, Row>)
  {
    forall id :: Lookup(rows, id) == RowFor(doc, id)
  }

  /** No two records of the document carry the same id. */
  ghost predicate UniqueIds(doc: seq<Record>)
  {
    forall i, j :: 0 <= i < j < |doc| && doc[i].id.Some? ==> doc[i].id != doc[j].id
  }

  /** Every record of the document carries an id, and every id fits in 64 bits. */
  ghost predicate AllIdentified(doc: seq<Record>)
  {
    forall i :: 0 <= i < |doc| ==> doc[i].id.Some? && FitsRowId(doc[i].id.value)
  }

  ghost predicate Consistent(doc: seq<Record>, rows: map<int, Row>)
  {
    UniqueIds(doc) && Mirrors(doc, rows)
  }

  /** With unique ids, a record carrying `id` is the one `next(...)` finds. */
  lemma FindUnique(doc: seq<Record>, id: int, k: nat)
    requires UniqueIds(doc)
    requires k < |doc| && doc[k].id == Some(id)
    ensures FindIndex(doc, id) == Some(k)
  {
    forall j | 0 <= j < k
      ensures doc[j].id != Some(id)
    {
      if doc[j].id.Some? {
        assert doc[j].id != doc[k].id;
      }
    }
    FindIndexIsFirstMatch(doc, id, k);
  }

  /** The lookup only looks at the ids. */
  lemma FindIndexSameIds(a: seq<Record>, b: seq<Record>, id: int)
    requires |a| == |b|
    requires forall i :: 0 <= i < |a| ==> a[i].id == b[i].id
    ensures FindIndex(a, id) == FindIndex(b, id)
  {
    if FindIndex(a, id).Some? {
      FindIndexIsFirstMatch(b, id, FindIndex(a, id).value);
    }
  }

  /** Appending a record leaves every earlier first match where it was. */
  lemma FindIndexAppend(doc: seq<Record>, r: Record, id: int)
    ensures FindIndex(doc + [r], id) ==
      if FindIndex(doc, id).Some? then FindIndex(doc, id)
      else if r.id == Some(id) then Some(|doc|)
      else None
  {
    var ext := doc + [r];
    assert forall j :: 0 <= j < |doc| ==> ext[j] == doc[j];
    if FindIndex(doc, id).Some? {
      FindIndexIsFirstMatch(ext, id, FindIndex(doc, id).value);
    } else if r.id == Some(id) {
      FindIndexIsFirstMatch(ext, id, |doc|);
    }
  }

  /**
   * Appending a record that has a 64-bit id, and inserting-or-ignoring its row,
   * succeeds and keeps the mirror: a new id gets the new row, a known id keeps
   * its first record's row.
   */
  lemma MirrorsAppend(doc: seq<Record>, t: Table, r: Record)
    requires HighWater(t)
    requires Mirrors(doc, t.rows)
    requires r.id.Some? && FitsRowId(r.id.value)
    ensures InsertOrIgnore(t, r).Some?
    ensures Mirrors(doc + [r], InsertOrIgnore(t, r).value.rows)
  {
    var ext, u := doc + [r], InsertOrIgnore(t, r).value;
    forall id
      ensures Lookup(u.rows, id) == RowFor(ext, id)
    {
      FindIndexAppend(doc, r, id);
      assert Lookup(t.rows, id) == RowFor(doc, id);
      if FindIndex(doc, id).Some? {
        assert ext[FindIndex(doc, id).value] == doc[FindIndex(doc, id).value];
      }
    }
  }

  /**
   * The start-up import into an empty table succeeds and mirrors the document
   * when every record carries a 64-bit id; a later record that repeats an id is
   * ignored, so the table keeps the row of the first one, the same record the
   * handlers find.
   */
  lemma {:induction false} ImportMirrors(t: Table, doc: seq<Record>)
    requires HighWater(t) && t.rows == map[]
    requires AllIdentified(doc)
    ensures ImportAll(t, doc).Some?
    ensures Mirrors(doc, ImportAll(t, doc).value.rows)
  {
    if doc == [] {
      forall id
        ensures Lookup(ImportAll(t, doc).value.rows, id) == RowFor(doc, id)
      {
      }
    } else {
      var n := |doc| - 1;
      var init := doc[..n];
      assert AllIdentified(init) by {
        forall i | 0 <= i < |init| ensures init[i].id.Some? && FitsRowId(init[i].id.value) {
          assert init[i] == doc[i];
        }
      }
      ImportMirrors(t, init);
      MirrorsAppend(init, ImportAll(t, init).value, doc[n]);
      assert init + [doc[n]] == doc;
    }
  }

  /**
   * A record without an id is given the next AUTOINCREMENT id, which no record
   * of the document carries: importing it alone into an empty table already
   * leaves a row the document does not call for, whatever the mark was.
   */
  lemma ImportAutoIdUnmatched(t: Table, a: Record)
    requires HighWater(t) && t.rows == map[] && t.high < MaxRowId
    requires a.id.None?
    ensures ImportAll(t, [a]).Some?
    ensures !Mirrors([a], ImportAll(t, [a]).value.rows)
  {
    assert [a][..0] == [];
    assert ImportAll(t, [a]) == InsertOrIgnore(t, a);
    var id := t.high + 1;
    assert Lookup(ImportAll(t, [a]).value.rows, id) == Some(RowOf(a));
    assert RowFor([a], id) == None;
  }

  /**
   * The AUTOINCREMENT id given to a record without an id may be the id a later
   * record carries explicitly; that record's row is then ignored, and the table
   * no longer mirrors the document.
   */
  lemma ImportAutoIdCanShadow(t: Table, a: Record, b: Record)
    requires HighWater(t) && t.rows == map[] && t.high < MaxRowId
    requires a.id.None? && b.id == Some(t.high + 1)
    requires RowOf(a) != RowOf(b)
    ensures ImportAll(t, [a, b]).Some?
    ensures !Mirrors([a, b], ImportAll(t, [a, b]).value.rows)
  {
    var id := t.high + 1;
    assert [a, b][..1] == [a] && [a][..0] == [];
    assert ImportAll(t, []) == Some(t);
    var afterA := ImportAll(t, [a]).value;
    assert ImportAll(t, [a]) == InsertOrIgnore(t, a);
    assert id in afterA.rows && afterA.rows[id] == RowOf(a);
    assert ImportAll(t, [a, b]) == InsertOrIgnore(afterA, b);
    assert ImportAll(t, [a, b]).value.rows[id] == RowOf(a);
    assert Lookup(ImportAll(t, [a, b]).value.rows, id) == Some(RowOf(a));
    FindIndexIsFirstMatch([a, b], id, 1);
    assert RowFor([a, b], id) == Some(RowOf(b));
  }

  /**
   * Create: a record with the fresh id, appended to the document, with its row
   * inserted under that id, keeps both stores consistent when the id fits in
   * 64 bits; the insert cannot hit an existing row.
   */
  lemma CreateKeepsConsistent(doc: seq<Record>, t: Table, r: Record)
    requires HighWater(t)
    requires Consistent(doc, t.rows)
    requires r.id == Some(NewId(doc)) && FitsRowId(NewId(doc))
    ensures NewId(doc) !in t.rows
    ensures Consistent(doc + [r], t.rows[NewId(doc) := RowOf(r)])
  {
    var n := NewId(doc);
    assert Lookup(t.rows, n) == RowFor(doc, n);
    MirrorsAppend(doc, t, r);
    assert InsertOrIgnore(t, r).value.rows == t.rows[n := RowOf(r)];
    var ext := doc + [r];
    forall i, j | 0 <= i < j < |ext| && ext[i].id.Some?
      ensures ext[i].id != ext[j].id
    {
      if j == |doc| {
        assert ext[i] == doc[i];
      } else {
        assert ext[i] == doc[i] && ext[j] == doc[j];
      }
    }
  }

  /**
   * Create when the fresh id does not fit in 64 bits: the document already
   * holds the new record, the INSERT raises, and the table has no row for it.
   */
  lemma CreateOverflowBreaksMirror(doc: seq<Record>, t: Table, r: Record)
    requires HighWater(t)
    requires r.id == Some(NewId(doc)) && !FitsRowId(NewId(doc))
    ensures !Mirrors(doc + [r], t.rows)
  {
    var n := NewId(doc);
    FindIndexAppend(doc, r, n);
    assert RowFor(doc + [r], n) == Some(RowOf(r));
    assert Lookup(t.rows, n) == None;
  }

  /**
   * Replacing the record `next(...)` found for `id` by one with the same id,
   * and writing its row under `id`, keeps the mirror.
   */
  lemma MirrorsReplace(doc: seq<Record>, rows: map<int, Row>, id: int, r: Record)
    requires Mirrors(doc, rows)
    requires FindIndex(doc, id).Some?
    requires r.id == Some(id)
    ensures Mirrors(doc[FindIndex(doc, id).value := r], rows[id := RowOf(r)])
  {
    var k := FindIndex(doc, id).value;
    var doc', rows' := doc[k := r], rows[id := RowOf(r)];
    forall other
      ensures Lookup(rows', other) == RowFor(doc', other)
    {
      FindIndexSameIds(doc, doc', other);
      assert Lookup(rows, other) == RowFor(doc, other);
    }
  }

  /** Replacing a record by one with the same id keeps the ids unique. */
  lemma UniqueIdsReplace(doc: seq<Record>, k: nat, r: Record)
    requires UniqueIds(doc)
    requires k < |doc| && r.id == doc[k].id
    ensures UniqueIds(doc[k := r])
  {
    var doc' := doc[k := r];
    assert forall i :: 0 <= i < |doc| ==> doc'[i].id == doc[i].id;
  }

  /**
   * Update: merging a body that has no "id" key (or repeats the URL id) and
   * rewriting the four columns of the URL id's row keeps both stores consistent.
   */
  lemma UpdateKeepsConsistent(doc: seq<Record>, rows: map<int, Row>, id: int, body: Record)
    requires Consistent(doc, rows)
    requires FindIndex(doc, id).Some?
    requires body.id.None? || body.id == Some(id)
    ensures id in rows
    ensures var k := FindIndex(doc, id).value;
            var merged := Merge(doc[k], body);
            Consistent(doc[k := merged], rows[id := RowOf(merged)])
  {
    assert Lookup(rows, id) == RowFor(doc, id);
    var k := FindIndex(doc, id).value;
    var merged := Merge(doc[k], body);
    MirrorsReplace(doc, rows, id, merged);
    UniqueIdsReplace(doc, k, merged);
  }

  /**
   * Update with a body whose "id" differs from the URL id renames the document
   * record while the SQL UPDATE still writes the row of the URL id: the table
   * then holds a row for an id the document no longer has.
   */
  lemma UpdateWithOtherIdBreaksMirror(doc: seq<Record>, rows: map<int, Row>, id: int, body: Record)
    requires Consistent(doc, rows)
    requires FindIndex(doc, id).Some?
    requires body.id.Some? && body.id != Some(id)
    ensures var k := FindIndex(doc, id).value;
            var merged := Merge(doc[k], body);
            !Mirrors(doc[k := merged], rows[id := RowOf(merged)])
  {
    var k := FindIndex(doc, id).value;
    var merged := Merge(doc[k], body);
    var doc' := doc[k := merged];
    forall j | 0 <= j < |doc'|
      ensures doc'[j].id != Some(id)
    {
      if k < j {
        assert doc[k].id != doc[j].id;
      }
    }
    assert RowFor(doc', id) == None;
  }

  /** Toggle: flipping the flag and writing the habilitado column keeps both stores consistent. */
  lemma ToggleKeepsConsistent(doc: seq<Record>, rows: map<int, Row>, id: int)
    requires Consistent(doc, rows)
    requires FindIndex(doc, id).Some?
    ensures id in rows
    ensures var k := FindIndex(doc, id).value;
            var flag := !Enabled(doc[k]);
            Consistent(doc[k := Toggled(doc[k])], rows[id := rows[id].(habilitado := EnabledColumn(flag))])
  {
    assert Lookup(rows, id) == RowFor(doc, id);
    var k := FindIndex(doc, id).value;
    assert rows[id].(habilitado := EnabledColumn(!Enabled(doc[k]))) == RowOf(Toggled(doc[k]));
    MirrorsReplace(doc, rows, id, Toggled(doc[k]));
    UniqueIdsReplace(doc, k, Toggled(doc[k]));
  }

  /** Adding a comment touches the document only, and the table still mirrors it. */
  lemma CommentKeepsConsistent(doc: seq<Record>, rows: map<int, Row>, id: int, c: Json)
    requires Consistent(doc, rows)
    requires FindIndex(doc, id).Some?
    ensures var k := FindIndex(doc, id).value;
            Consistent(doc[k := WithComment(doc[k], c)], rows)
  {
    assert Lookup(rows, id) == RowFor(doc, id);
    var k := FindIndex(doc, id).value;
    RowOfIgnoresComments(doc[k], c);
    assert rows[id := RowOf(WithComment(doc[k], c))] == rows;
    MirrorsReplace(doc, rows, id, WithComment(doc[k], c));
    UniqueIdsReplace(doc, k, WithComment(doc[k], c));
  }

  /**
   * Delete: with unique ids, removing the found record and the row of its id
   * keeps both stores consistent, and the id is then in neither.
   */
  lemma DeleteKeepsConsistent(doc: seq<Record>, rows: map<int, Row>, id: int)
    requires Consistent(doc, rows)
    requires FindIndex(doc, id).Some?
    ensures var doc' := RemoveAt(doc, FindIndex(doc, id).value);
            Consistent(doc', rows - {id}) && FindIndex(doc', id).None?
  {
    var k := FindIndex(doc, id).value;
    var doc', rows' := RemoveAt(doc, k), rows - {id};
    forall i, j | 0 <= i < j < |doc'| && doc'[i].id.Some?
      ensures doc'[i].id != doc'[j].id
    {
      var i0, j0 := if i < k then i else i + 1, if j < k then j else j + 1;
      assert doc'[i] == doc[i0] && doc'[j] == doc[j0];
    }
    forall other
      ensures Lookup(rows', other) == RowFor(doc', other)
    {
      assert Lookup(rows, other) == RowFor(doc, other);
      if other == id {
        forall j | 0 <= j < |doc'| ensures doc'[j].id != Some(id) {
          var j0 := if j < k then j else j + 1;
          assert doc'[j] == doc[j0];
          if j0 < k { assert doc[j0].id != doc[k].id; }
          else { assert doc[k].id != doc[j0].id; }
        }
      } else if FindIndex(doc, other).Some? {
        var m := FindIndex(doc, other).value;
        var m' := if m < k then m else m - 1;
        assert doc'[m'] == doc[m];
        FindUnique(doc', other, m');
      } else {
        forall j | 0 <= j < |doc'| ensures doc'[j].id != Some(other) {
          assert doc'[j] == doc[if j < k then j else j + 1];
        }
      }
    }
  }

  /**
   * Delete with a duplicated id removes only the first record, but the row is
   * gone: the second record is left without a row, and the mirror is broken.
   */
  lemma DeleteDuplicateBreaksMirror(doc: seq<Record>, rows: map<int, Row>, id: int, m: nat)
    requires Mirrors(doc, rows)
    requires FindIndex(doc, id).Some?
    requires FindIndex(doc, id).value < m < |doc| && doc[m].id == Some(id)
    ensures !Mirrors(RemoveAt(doc, FindIndex(doc, id).value), rows - {id})
  {
    var doc' := RemoveAt(doc, FindIndex(doc, id).value);
    assert doc'[m - 1].id == Some(id);
    assert RowFor(doc', id).Some?;
    assert Lookup(rows - {id}, id).None?;
  }
}
