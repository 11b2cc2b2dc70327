/**
 * The relational mirror: the SQLite table `products` (id INTEGER PRIMARY KEY
 * AUTOINCREMENT, nombre, precio, imagen, habilitado). A table is its rows keyed
 * by id together with the AUTOINCREMENT high-water mark that SQLite keeps in
 * `sqlite_sequence`.
 */
module ProductTable {
  import opened Wrappers
  import opened Products
  import opened JsonValues

  /** The four mirrored columns; `habilitado` is stored as the integer 1 or 0. */
  datatype Row = Row(nombre: string, precio: real, imagen: string, habilitado: int)

  function EnabledColumn(enabled: bool): int
  {
    if enabled then 1 else 0
  }

  /**
   * The row a document record is mirrored as: missing keys take the defaults
   * "", 0, "" and enabled, and the flag becomes the integer 1 or 0.
   */
  function RowOf(r: Record): (row: Row)
    ensures r.nombre.Some? ==> row.nombre == r.nombre.value
    ensures r.nombre.None? ==> row.nombre == ""
    ensures r.precio.Some? ==> row.precio == r.precio.value
    ensures r.precio.None? ==> row.precio == 0.0
    ensures r.imagen.Some? ==> row.imagen == r.imagen.value
    ensures r.imagen.None? ==> row.imagen == ""
    ensures row.habilitado == 1 <==> r.habilitado != Some(false)
    ensures row.habilitado == 0 || row.habilitado == 1
  {
    Row(r.nombre.GetOr(""), r.precio.GetOr(0.0), r.imagen.GetOr(""), EnabledColumn(Enabled(r)))
  }

  /** The mirrored row does not depend on the comments, nor on keys other than the four columns. */
  lemma RowOfIgnoresComments(r: Record, c: Json)
    ensures RowOf(WithComment(r, c)) == RowOf(r)
  {
  }

  /** The largest and smallest integer sqlite3 binds: a Python int outside raises OverflowError. */
  const MaxRowId: int := 0x7FFF_FFFF_FFFF_FFFF
  const MinRowId: int := -0x8000_0000_0000_0000

  predicate FitsRowId(id: int)
  {
    MinRowId <= id <= MaxRowId
  }

  /** The rows and `high`, the largest id AUTOINCREMENT has handed out or seen inserted. */
  datatype Table = Table(rows: map<int, Row>, high: nat)

  /**
   * What SQLite guarantees of a table: every row id is a 64-bit integer no
   * larger than the AUTOINCREMENT high-water mark.
   */
  ghost predicate HighWater(t: Table)
  {
    t.high <= MaxRowId && forall k :: k in t.rows ==> MinRowId <= k <= t.high
  }

  /**
   * `INSERT OR IGNORE` with an explicit id, or a NULL id, which picks high + 1.
   * None when the statement raises: an id outside 64 bits cannot be bound, and
   * a NULL id after the mark reached the largest id fails with SQLITE_FULL.
   */
  function InsertOrIgnore(t: Table, r: Record): (u: Option<Table>)
    requires HighWater(t)
    ensures u.None? <==> (r.id.Some? && !FitsRowId(r.id.value)) || (r.id.None? && t.high == MaxRowId)
    ensures u.Some? ==> HighWater(u.value)
    ensures u.Some? ==> forall k :: k in t.rows ==> k in u.value.rows && u.value.rows[k] == t.rows[k]
    ensures u.Some? && r.id.Some? ==> u.value.rows.Keys == t.rows.Keys + {r.id.value}
    ensures u.Some? && r.id.Some? && r.id.value !in t.rows ==> u.value.rows[r.id.value] == RowOf(r)
    ensures u.Some? && r.id.None? ==> t.high + 1 !in t.rows && u.value.rows == t.rows[t.high + 1 := RowOf(r)]
    ensures u.Some? ==> u.value.high == (if r.id.None? then t.high + 1
                                         else if r.id.value !in t.rows && r.id.value > t.high then r.id.value
                                         else t.high)
  {
    match r.id
    case Some(k) =>
      if !FitsRowId(k) then None
      else if k in t.rows then Some(t)
      else Some(Table(t.rows[k := RowOf(r)], if k > t.high then k else t.high))
    case None =>
      if t.high == MaxRowId then None
      else Some(Table(t.rows[t.high + 1 := RowOf(r)], t.high + 1))
  }

  /**
   * The import loop of the start-up routine: insert-or-ignore every record, in
   * document order. None when one of the statements raises, which stops the
   * start-up before the commit. It cannot raise when every record carries an
   * id that fits in 64 bits.
   */
  function ImportAll(t: Table, doc: seq<Record>): (u: Option<Table>)
    requires HighWater(t)
    ensures u.Some? ==> HighWater(u.value)
    ensures (forall i :: 0 <= i < |doc| ==> doc[i].id.Some? && FitsRowId(doc[i].id.value)) ==> u.Some?
  {
    if doc == [] then Some(t)
    else
      match ImportAll(t, doc[..|doc| - 1])
      case None => None
      case Some(v) => InsertOrIgnore(v, doc[|doc| - 1])
  }

  /** Once a statement of the import has raised, the import as a whole has failed. */
  lemma {:induction false} ImportFailsOnward(t: Table, doc: seq<Record>, i: nat)
    requires HighWater(t)
    requires i <= |doc| && ImportAll(t, doc[..i]).None?
    ensures ImportAll(t, doc).None?
    decreases |doc| - i
  {
    if i < |doc| {
      assert doc[..i + 1][..i] == doc[..i];
      ImportFailsOnward(t, doc, i + 1);
    } else {
      assert doc[..i] == doc;
    }
  }
}
