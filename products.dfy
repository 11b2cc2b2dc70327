/**
 * The product records of the JSON document (`data.json`, key "productos").
 *
 * A record is a Python dict: every key may be absent. The six keys the handlers
 * read are typed fields holding `Some` when the key is present; every other key
 * lives in `extra`. The same type also describes a PUT request body, which is a
 * partial record that `dict.update` merges onto the stored one.
 */
module Products {
  import opened Wrappers
  import opened JsonValues

  datatype Record = Record(
    id: Option<int>,
    nombre: Option<string>,
    precio: Option<real>,
    imagen: Option<string>,
    habilitado: Option<bool>,
    comentarios: Option<seq<Json>>,
    extra: map<string, Json>)

  /** The empty dict `{}`. */
  const EmptyRecord: Record := Record(None, None, None, None, None, None, map[])

  /** `r.get(key)` seen as a JSON value: the uniform, key-by-key view of a record. */
  function Get(r: Record, key: string): Option<Json>
  {
    if key == "id" then (if r.id.Some? then Some(JNum(r.id.value as real)) else None)
    else if key == "nombre" then (if r.nombre.Some? then Some(JStr(r.nombre.value)) else None)
    else if key == "precio" then (if r.precio.Some? then Some(JNum(r.precio.value)) else None)
    else if key == "imagen" then (if r.imagen.Some? then Some(JStr(r.imagen.value)) else None)
    else if key == "habilitado" then (if r.habilitado.Some? then Some(JBool(r.habilitado.value)) else None)
    else if key == "comentarios" then (if r.comentarios.Some? then Some(JArr(r.comentarios.value)) else None)
    else if key in r.extra then Some(r.extra[key])
    else None
  }

  function Pick<T>(over: Option<T>, base: Option<T>): Option<T>
  {
    if over.Some? then over else base
  }

  /**
   * `p.update(q)`: a shallow merge in which every key present in `q` overwrites,
   * and every other key keeps its value from `p`.
   */
  function Merge(p: Record, q: Record): (r: Record)
    ensures forall key :: Get(r, key) == if Get(q, key).Some? then Get(q, key) else Get(p, key)
  {
    Record(
      Pick(q.id, p.id),
      Pick(q.nombre, p.nombre),
      Pick(q.precio, p.precio),
      Pick(q.imagen, p.imagen),
      Pick(q.habilitado, p.habilitado),
      Pick(q.comentarios, p.comentarios),
      p.extra + q.extra)
  }

  /** Merging the body `{}` (an absent or empty PUT body) leaves the record as it was. */
  lemma MergeEmptyBody(p: Record)
    ensures Merge(p, EmptyRecord) == p
  {
    assert p.extra + map[] == p.extra;
  }

  /** Sending the same PUT body twice has the effect of sending it once. */
  lemma MergeIdempotent(p: Record, q: Record)
    ensures Merge(Merge(p, q), q) == Merge(p, q)
  {
    assert (p.extra + q.extra) + q.extra == p.extra + q.extra;
  }

  /** `r.get("habilitado", True)`: a record without the flag counts as enabled. */
  function Enabled(r: Record): bool
  {
    r.habilitado.GetOr(true)
  }

  /** `r.get("comentarios", [])`. */
  function Comments(r: Record): seq<Json>
  {
    r.comentarios.GetOr([])
  }

  /** `r["habilitado"] = not r.get("habilitado", True)`. */
  function Toggled(r: Record): (t: Record)
    ensures Enabled(t) == !Enabled(r)
    ensures Get(t, "habilitado") == Some(JBool(!Enabled(r)))
    ensures forall key :: key != "habilitado" ==> Get(t, key) == Get(r, key)
  {
    r.(habilitado := Some(!Enabled(r)))
  }

  /**
   * Toggling twice restores the effective flag and every other key; the only
   * trace left is that a missing flag is now stored explicitly.
   */
  lemma ToggleTwice(r: Record)
    ensures Enabled(Toggled(Toggled(r))) == Enabled(r)
    ensures forall key :: key != "habilitado" ==> Get(Toggled(Toggled(r)), key) == Get(r, key)
    ensures r.habilitado.Some? ==> Toggled(Toggled(r)) == r
  {
  }

  /**
   * `r.setdefault("comentarios", [])` followed by `append(c)`: the comment list
   * grows by `c` at its end and no other key changes.
   */
  function WithComment(r: Record, c: Json): (t: Record)
    ensures Comments(t) == Comments(r) + [c]
    ensures Get(t, "comentarios").Some?
    ensures forall key :: key != "comentarios" ==> Get(t, key) == Get(r, key)
  {
    r.(comentarios := Some(Comments(r) + [c]))
  }

  /**
   * `next((p for p in doc if p.get("id") == id), None)`, as an index: the first
   * record whose id is `id`, or None when no record has it.
   */
  function FindIndex(doc: seq<Record>, id: int): (r: Option<nat>)
    ensures r.Some? ==> r.value < |doc| && doc[r.value].id == Some(id)
    ensures r.Some? ==> forall j :: 0 <= j < r.value ==> doc[j].id != Some(id)
    ensures r.None? <==> forall j :: 0 <= j < |doc| ==> doc[j].id != Some(id)
  {
    if doc == [] then None
    else if doc[0].id == Some(id) then Some(0)
    else
      match FindIndex(doc[1..], id)
      case None => None
      case Some(k) => Some(k + 1)
  }

  /** The first match is determined: any index that matches and has no earlier match is it. */
  lemma FindIndexIsFirstMatch(doc: seq<Record>, id: int, k: nat)
    requires k < |doc| && doc[k].id == Some(id)
    requires forall j :: 0 <= j < k ==> doc[j].id != Some(id)
    ensures FindIndex(doc, id) == Some(k)
  {
  }

  /** `p.get("id", 0)`: a record without an id counts as 0 when the next id is chosen. */
  function IdOrZero(r: Record): int
  {
    r.id.GetOr(0)
  }

  /** `max([p.get("id", 0) for p in doc], default=0)`. */
  function MaxId(doc: seq<Record>): (m: int)
    ensures doc == [] ==> m == 0
    ensures forall j :: 0 <= j < |doc| ==> IdOrZero(doc[j]) <= m
    ensures doc != [] ==> exists j :: 0 <= j < |doc| && IdOrZero(doc[j]) == m
  {
    if doc == [] then 0
    else if |doc| == 1 then IdOrZero(doc[0])
    else
      var rest := MaxId(doc[1..]);
      assert forall j :: 1 <= j < |doc| ==> doc[j] == doc[1..][j - 1];
      if IdOrZero(doc[0]) >= rest then IdOrZero(doc[0]) else rest
  }

  /** The id a newly created product receives: one more than the largest id. */
  function NewId(doc: seq<Record>): (n: int)
    ensures doc == [] ==> n == 1
    ensures forall j :: 0 <= j < |doc| && doc[j].id.Some? ==> doc[j].id.value < n
    ensures doc != [] ==> exists j :: 0 <= j < |doc| && IdOrZero(doc[j]) == n - 1
    ensures FindIndex(doc, n).None?
  {
    MaxId(doc) + 1
  }

  /** `doc.remove(x)`: drops the first element equal to `x`. */
  function RemoveFirst(doc: seq<Record>, x: Record): (r: seq<Record>)
    requires x in doc
    ensures |r| == |doc| - 1
    ensures forall y :: y in r ==> y in doc
  {
    if doc[0] == x then doc[1..] else [doc[0]] + RemoveFirst(doc[1..], x)
  }

  /** What `doc.remove(x)` leaves is the multiset of `doc` less one copy of `x`. */
  lemma {:induction false} RemoveFirstMultiset(doc: seq<Record>, x: Record)
    requires x in doc
    ensures multiset(RemoveFirst(doc, x)) == multiset(doc) - multiset{x}
  {
    assert doc == [doc[0]] + doc[1..];
    if doc[0] != x {
      RemoveFirstMultiset(doc[1..], x);
    }
  }

  /** The sequence without its element at index `k`, the others in their order. */
  function RemoveAt(doc: seq<Record>, k: nat): (r: seq<Record>)
    requires k < |doc|
    ensures |r| == |doc| - 1
    ensures forall j :: 0 <= j < k ==> r[j] == doc[j]
    ensures forall j :: k <= j < |r| ==> r[j] == doc[j + 1]
  {
    doc[..k] + doc[k + 1..]
  }

  /** `list.remove(x)` removes index `k` when `x` sits there and nowhere before. */
  lemma {:induction false} RemoveFirstAt(doc: seq<Record>, k: nat)
    requires k < |doc|
    requires forall j :: 0 <= j < k ==> doc[j] != doc[k]
    ensures RemoveFirst(doc, doc[k]) == RemoveAt(doc, k)
  {
    if k > 0 {
      var x, tail := doc[k], doc[1..];
      assert tail[k - 1] == x;
      RemoveFirstAt(tail, k - 1);
      assert RemoveFirst(doc, x) == [doc[0]] + RemoveAt(tail, k - 1);
      assert [doc[0]] + tail[..k - 1] == doc[..k];
      assert tail[k..] == doc[k + 1..];
    }
  }

  /**
   * `list.remove` compares dicts by value, but the record `next(...)` found for
   * `id` is the first one equal to itself: any earlier equal record would carry
   * the same id. So deleting it removes exactly index `k`.
   */
  lemma RemoveFoundRecord(doc: seq<Record>, id: int, k: nat)
    requires FindIndex(doc, id) == Some(k)
    ensures RemoveFirst(doc, doc[k]) == RemoveAt(doc, k)
  {
    assert forall j :: 0 <= j < k ==> doc[j].id != doc[k].id;
    RemoveFirstAt(doc, k);
  }
}
