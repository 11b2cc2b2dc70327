/**
 * The product handlers. A `Catalog` holds the two stores the handlers keep in
 * step: `productos`, the list under "productos" in the JSON document, and the
 * `products` table (`rows` with its AUTOINCREMENT mark `rowSeq`). Each handler
 * reads the list, changes it, writes it back, and then issues its SQL statement;
 * each method returns the HTTP status the handler answers with.
 */
module CatalogService {
  import opened Wrappers
  import opened JsonValues
  import opened Products
  import opened ProductTable
  import opened Mirror

  /** `app.config["UPLOAD_FOLDER"]`. */
  const UploadFolder: string := "static/uploads"

  /**
   * The multipart form of POST /productos. A missing field is "", and `imagen`
   * is the uploaded file's name ("" when no file was sent: an upload with an
   * empty file name is falsy too).
   */
  datatype ProductForm = ProductForm(nombre: string, precio: string, imagen: string)

  /** The record a successful create appends: fresh id, given fields, enabled, no comments. */
  function NewRecord(id: int, nombre: string, precio: real, imagen: string): (r: Record)
    ensures r.id == Some(id) && Enabled(r) && Comments(r) == []
    ensures RowOf(r) == Row(nombre, precio, imagen, 1)
  {
    Record(Some(id), Some(nombre), Some(precio), Some(imagen), Some(true), None, map[])
  }

  /** `os.path.join(UPLOAD_FOLDER, secure_filename(name))`. */
  function ImagePath(secure: string -> string, name: string): (path: string)
    ensures |path| == |UploadFolder| + 1 + |secure(name)|
    ensures path[..|UploadFolder|] == UploadFolder && path[|UploadFolder|] == '/'
    ensures path[|UploadFolder| + 1..] == secure(name)
  {
    UploadFolder + "/" + secure(name)
  }

  /**
   * The `for` loop of `init_db` on the open transaction: one INSERT OR IGNORE
   * per record, in order, giving the rows to commit, or None as soon as a
   * statement raises.
   */
  method InsertEach(start: Table, doc: seq<Record>) returns (result: Option<Table>)
    requires HighWater(start)
    ensures result == ImportAll(start, doc)
  {
    var pending := start.rows;
    var pendingSeq: nat := start.high;
    var i := 0;
    while i < |doc|
      invariant 0 <= i <= |doc|
      invariant HighWater(Table(pending, pendingSeq))
      invariant ImportAll(start, doc[..i]) == Some(Table(pending, pendingSeq))
    {
      var p := doc[i];
      ghost var before := Table(pending, pendingSeq);
      ghost var done := doc[..i + 1];
      assert done[..i] == doc[..i] && done[i] == p;
      assert ImportAll(start, done) == InsertOrIgnore(before, p);
      match p.id {
        case Some(k) =>
          if !FitsRowId(k) {
            ImportFailsOnward(start, doc, i + 1);
            return None;
          }
          if k !in pending {
            pending := pending[k := RowOf(p)];
            if k > pendingSeq {
              pendingSeq := k;
            }
          }
          assert InsertOrIgnore(before, p) == Some(Table(pending, pendingSeq));
        case None =>
          if pendingSeq == MaxRowId {
            ImportFailsOnward(start, doc, i + 1);
            return None;
          }
          pendingSeq := pendingSeq + 1;
          pending := pending[pendingSeq := RowOf(p)];
          assert InsertOrIgnore(before, p) == Some(Table(pending, pendingSeq));
      }
      i := i + 1;
    }
    assert doc[..i] == doc;
    return Some(Table(pending, pendingSeq));
  }

  class Catalog {
    var productos: seq<Record>
    var rows: map<int, Row>
    var rowSeq: nat

    ghost predicate Valid()
      reads this
    {
      HighWater(Table(rows, rowSeq))
    }

    /** The stores as the files hold them when the application starts. */
    constructor (doc: seq<Record>, table: Table)
      requires HighWater(table)
      ensures Valid()
      ensures productos == doc && rows == table.rows && rowSeq == table.high
    {
      productos := doc;
      rows := table.rows;
      rowSeq := table.high;
    }

    /**
     * The import in `init_db`: only when the table is empty and the document
     * exists, every record is inserted with INSERT OR IGNORE, in order, and the
     * rows are committed at the end. A statement that raises stops the start-up
     * before the commit: `started` is false and the table is as it was.
     */
    method ImportDocument(documentExists: bool) returns (started: bool)
      requires Valid()
      modifies this
      ensures Valid()
      ensures productos == old(productos)
      ensures !(old(|rows|) == 0 && documentExists) ==> started && rows == old(rows) && rowSeq == old(rowSeq)
      ensures old(|rows|) == 0 && documentExists ==>
                (started <==> ImportAll(Table(old(rows), old(rowSeq)), productos).Some?) &&
                (started ==> ImportAll(Table(old(rows), old(rowSeq)), productos) == Some(Table(rows, rowSeq))) &&
                (!started ==> rows == old(rows) && rowSeq == old(rowSeq))
      ensures old(|rows|) == 0 && documentExists && AllIdentified(productos) ==> started && Mirrors(productos, rows)
    {
      started := true;
      if |rows| == 0 && documentExists {
        var imported := InsertEach(Table(rows, rowSeq), productos);
        if imported.None? {
          return false;
        }
        ghost var start := Table(rows, rowSeq);
        rows, rowSeq := imported.value.rows, imported.value.high;
        if AllIdentified(productos) {
          ImportMirrors(start, productos);
        }
      }
    }

    /**
     * POST /productos. 400 when a field is missing; 500, before anything is
     * written, when the secured file name is empty (saving the image fails) or
     * when `float(precio)` fails; otherwise the record with id
     * `NewId(productos)` is appended to the document and then its row inserted.
     * The INSERT fails with 500, leaving the document written, when the id does
     * not fit in 64 bits or the table already has a row with that id.
     */
    method Create(form: ProductForm, toFloat: string -> Option<real>, secure: string -> string)
      returns (status: int, created: Option<Record>)
      requires Valid()
      modifies this
      ensures Valid()
      ensures status == 400 <==> form.nombre == "" || form.precio == "" || form.imagen == ""
      ensures status == 400 || secure(form.imagen) == "" || toFloat(form.precio).None? ==> unchanged(this)
      ensures status != 400 && (secure(form.imagen) == "" || toFloat(form.precio).None?) ==> status == 500
      ensures status != 400 && secure(form.imagen) != "" && toFloat(form.precio).Some? ==>
                var id := NewId(old(productos));
                var r := NewRecord(id, form.nombre, toFloat(form.precio).value, ImagePath(secure, form.imagen));
                productos == old(productos) + [r] &&
                (if !FitsRowId(id) || id in old(rows)
                 then status == 500 && rows == old(rows) && rowSeq == old(rowSeq)
                 else status == 201 && created == Some(r) && rows == old(rows)[id := RowOf(r)] &&
                      rowSeq == (if id > old(rowSeq) then id else old(rowSeq)))
      ensures status == 201 <==> created.Some?
      ensures status != 400 && secure(form.imagen) != "" && toFloat(form.precio).Some? &&
              !FitsRowId(NewId(old(productos))) ==>
                !Mirrors(productos, rows)
      ensures old(Consistent(productos, rows)) && status != 400 && secure(form.imagen) != "" &&
              toFloat(form.precio).Some? && FitsRowId(NewId(old(productos))) ==>
                status == 201 && Consistent(productos, rows)
    {
      if form.nombre == "" || form.precio == "" || form.imagen == "" {
        return 400, None;
      }
      if secure(form.imagen) == "" {
        return 500, None;
      }
      var path := ImagePath(secure, form.imagen);
      var precio := toFloat(form.precio);
      if precio.None? {
        return 500, None;
      }
      var id := NewId(productos);
      var nuevo := NewRecord(id, form.nombre, precio.value, path);
      ghost var wasConsistent := Consistent(productos, rows);
      ghost var doc := productos;
      productos := productos + [nuevo];
      if !FitsRowId(id) {
        CreateOverflowBreaksMirror(doc, Table(rows, rowSeq), nuevo);
        return 500, None;
      }
      if wasConsistent {
        CreateKeepsConsistent(doc, Table(rows, rowSeq), nuevo);
      }
      if id in rows {
        return 500, None;
      }
      rows := rows[id := RowOf(nuevo)];
      if id > rowSeq {
        rowSeq := id;
      }
      return 201, Some(nuevo);
    }

    /**
     * DELETE /productos/<id>. 404 when no record has the id; otherwise the first
     * such record is removed (`list.remove`) and written, and then the row with
     * that id is deleted, or, when the id does not fit in 64 bits, the DELETE
     * raises and the answer is 500.
     */
    method Delete(id: nat) returns (status: int)
      requires Valid()
      modifies this
      ensures Valid()
      ensures old(FindIndex(productos, id)).None? ==> status == 404 && unchanged(this)
      ensures old(FindIndex(productos, id)).Some? ==>
                productos == RemoveAt(old(productos), old(FindIndex(productos, id)).value) &&
                rowSeq == old(rowSeq) &&
                (if FitsRowId(id) then status == 200 && rows == old(rows) - {id}
                 else status == 500 && rows == old(rows))
      ensures old(Consistent(productos, rows)) ==>
                status != 500 && Consistent(productos, rows) && FindIndex(productos, id).None? && id !in rows
    {
      var found := FindIndex(productos, id);
      if found.None? {
        if Consistent(productos, rows) {
          assert Lookup(rows, id) == RowFor(productos, id);
        }
        return 404;
      }
      var k := found.value;
      if Consistent(productos, rows) {
        assert Lookup(rows, id) == RowFor(productos, id);
        DeleteKeepsConsistent(productos, rows, id);
      }
      RemoveFoundRecord(productos, id, k);
      productos := RemoveFirst(productos, productos[k]);
      if !FitsRowId(id) {
        return 500;
      }
      rows := rows - {id};
      return 200;
    }

    /**
     * PUT /productos/<id>. 404 when no record has the id; otherwise the body is
     * merged onto the first such record and written, and then the row of the
     * URL id (if the table has one) gets the merged record's four columns, or,
     * when the URL id does not fit in 64 bits, the UPDATE raises and the answer
     * is 500.
     */
    method Update(id: nat, body: Record) returns (status: int, updated: Option<Record>)
      requires Valid()
      modifies this
      ensures Valid()
      ensures old(FindIndex(productos, id)).None? ==> status == 404 && updated == None && unchanged(this)
      ensures old(FindIndex(productos, id)).Some? ==>
                var k := old(FindIndex(productos, id)).value;
                var merged := Merge(old(productos)[k], body);
                productos == old(productos)[k := merged] && rowSeq == old(rowSeq) &&
                (if FitsRowId(id)
                 then status == 200 && updated == Some(merged) &&
                      rows == (if id in old(rows) then old(rows)[id := RowOf(merged)] else old(rows))
                 else status == 500 && updated == None && rows == old(rows))
      ensures old(Consistent(productos, rows)) && (body.id.None? || body.id == Some(id)) ==>
                status != 500 && Consistent(productos, rows)
    {
      var found := FindIndex(productos, id);
      if found.None? {
        return 404, None;
      }
      var k := found.value;
      var merged := Merge(productos[k], body);
      if Consistent(productos, rows) && (body.id.None? || body.id == Some(id)) {
        UpdateKeepsConsistent(productos, rows, id, body);
      }
      productos := productos[k := merged];
      if !FitsRowId(id) {
        return 500, None;
      }
      if id in rows {
        rows := rows[id := RowOf(merged)];
      }
      return 200, Some(merged);
    }

    /**
     * GET /productos/<id>/habilitar. 404 when no record has the id; otherwise the
     * found record's flag is flipped (a missing flag counts as enabled) and
     * written, then the `habilitado` column of the URL id's row follows it and
     * the new flag is returned, or, when the URL id does not fit in 64 bits,
     * the UPDATE raises and the answer is 500.
     */
    method Toggle(id: nat) returns (status: int, enabled: Option<bool>)
      requires Valid()
      modifies this
      ensures Valid()
      ensures old(FindIndex(productos, id)).None? ==> status == 404 && enabled == None && unchanged(this)
      ensures old(FindIndex(productos, id)).Some? ==>
                var k := old(FindIndex(productos, id)).value;
                var flag := !Enabled(old(productos)[k]);
                productos == old(productos)[k := Toggled(old(productos)[k])] && rowSeq == old(rowSeq) &&
                (if FitsRowId(id)
                 then status == 200 && enabled == Some(flag) &&
                      rows == (if id in old(rows) then old(rows)[id := old(rows)[id].(habilitado := EnabledColumn(flag))]
                               else old(rows))
                 else status == 500 && enabled == None && rows == old(rows))
      ensures old(Consistent(productos, rows)) ==> status != 500 && Consistent(productos, rows)
    {
      var found := FindIndex(productos, id);
      if found.None? {
        return 404, None;
      }
      var k := found.value;
      var flag := !Enabled(productos[k]);
      if Consistent(productos, rows) {
        ToggleKeepsConsistent(productos, rows, id);
      }
      productos := productos[k := productos[k].(habilitado := Some(flag))];
      if !FitsRowId(id) {
        return 500, None;
      }
      if id in rows {
        rows := rows[id := rows[id].(habilitado := EnabledColumn(flag))];
      }
      return 200, Some(flag);
    }

    /**
     * GET /productos/<id>/comentarios. 404 when no record has the id; otherwise
     * the comment list of the first such record, empty when it has none.
     */
    method ListComments(id: nat) returns (status: int, comments: seq<Json>)
      ensures status == 200 || status == 404
      ensures status == 404 <==> forall j :: 0 <= j < |productos| ==> productos[j].id != Some(id)
      ensures status == 404 ==> comments == []
      ensures status == 200 ==>
                exists k :: 0 <= k < |productos| && productos[k].id == Some(id) &&
                  (forall j :: 0 <= j < k ==> productos[j].id != Some(id)) &&
                  (productos[k].comentarios.None? ==> comments == []) &&
                  (productos[k].comentarios.Some? ==> comments == productos[k].comentarios.value)
    {
      var found := FindIndex(productos, id);
      if found.None? {
        return 404, [];
      }
      return 200, Comments(productos[found.value]);
    }

    /**
     * POST /productos/<id>/comentarios. 404 when no record has the id; otherwise
     * the body (`{}` when absent or falsy) is appended to the found record's
     * comment list, which is created when missing. The table is not touched.
     */
    method AddComment(id: nat, body: Option<Json>) returns (status: int, comment: Option<Json>)
      requires Valid()
      modifies this
      ensures Valid()
      ensures old(FindIndex(productos, id)).None? ==> status == 404 && comment == None && unchanged(this)
      ensures old(FindIndex(productos, id)).Some? ==>
                var k := old(FindIndex(productos, id)).value;
                status == 201 && comment == Some(BodyOrEmpty(body)) &&
                productos == old(productos)[k := WithComment(old(productos)[k], BodyOrEmpty(body))] &&
                rows == old(rows) && rowSeq == old(rowSeq)
      ensures old(Consistent(productos, rows)) ==> Consistent(productos, rows)
    {
      var nuevo := BodyOrEmpty(body);
      var found := FindIndex(productos, id);
      if found.None? {
        return 404, None;
      }
      var k := found.value;
      if Consistent(productos, rows) {
        CommentKeepsConsistent(productos, rows, id, nuevo);
      }
      var producto := productos[k];
      if producto.comentarios.None? {
        producto := producto.(comentarios := Some([]));
      }
      producto := producto.(comentarios := Some(producto.comentarios.value + [nuevo]));
      productos := productos[k := producto];
      return 201, Some(nuevo);
    }
  }
}
