/** What `AgendaRepository.save` and `saveAll` do to the agenda table under
    JPA.  An entity without an id is new: it is inserted under the next value
    of the id generator.  An entity with an id is merged: when a row has that
    id the entity replaces it; when no row has it, the merge persists a copy
    under the next generated id. */
module AgendaStore {
  import opened Errors
  import opened Agendas

  /** The agenda table: its rows in insertion order, and the next value of
      the id generator. */
  datatype Table = Table(rows: seq<Agenda>, nextId: AgendaId)

  /** Every row has an id below the generator's next value, and no two rows
      share an id. */
  predicate WellNumbered(t: Table)
  {
    && (forall i :: 0 <= i < |t.rows| ==> t.rows[i].id.Some? && t.rows[i].id.value < t.nextId)
    && (forall i, j :: 0 <= i < j < |t.rows| ==> t.rows[i].id != t.rows[j].id)
  }

  predicate HasId(rows: seq<Agenda>, k: AgendaId)
  {
    exists i :: 0 <= i < |rows| && rows[i].id == Some(k)
  }

  /** Some row holds `slot`'s owner, start and end, whatever its id. */
  predicate HoldsSlot(rows: seq<Agenda>, slot: Agenda)
  {
    exists a :: a in rows && WithoutId(a) == WithoutId(slot)
  }

  /** The position of a row with id `k`, if there is one. */
  function IndexOfId(rows: seq<Agenda>, k: AgendaId): (at: Option<nat>)
    ensures at.Some? ==> at.value < |rows| && rows[at.value].id == Some(k)
    ensures at.None? <==> !HasId(rows, k)
  {
    if rows == [] then None
    else if rows[0].id == Some(k) then Some(0)
    else
      var rest := IndexOfId(rows[1..], k);
      assert forall i :: 0 < i < |rows| ==> rows[i] == rows[1..][i - 1];
      if rest.None? then None else Some(rest.value + 1)
  }

  /** The table after one save, and the row as stored (what `save` returns). */
  datatype Saved = Saved(table: Table, row: Agenda)

  /** `save(entity)`. */
  function Save(t: Table, entity: Agenda): (s: Saved)
  {
    var at := if entity.id.Some? then IndexOfId(t.rows, entity.id.value) else None;
    if at.Some? then Saved(Table(t.rows[at.value := entity], t.nextId), entity)
    else
      var row := entity.(id := Some(t.nextId));
      Saved(Table(t.rows + [row], t.nextId + 1), row)
  }

  /** A save inserts a new row under a fresh id when the entity has no id or
      an id no row has, and otherwise replaces exactly the row with that id,
      leaving the generator alone.  Either way the stored row is the entity
      up to its id, every other row is kept, and the table stays well
      numbered. */
  lemma SaveInsertsOrReplaces(t: Table, entity: Agenda)
    requires WellNumbered(t)
    ensures var s := Save(t, entity);
            && WellNumbered(s.table)
            && WithoutId(s.row) == WithoutId(entity) && s.row.id.Some? && s.row in s.table.rows
            && (forall a :: a in s.table.rows ==> a == s.row || a in t.rows)
    ensures entity.id.None? || !HasId(t.rows, entity.id.value) ==>
              Save(t, entity) == Saved(Table(t.rows + [entity.(id := Some(t.nextId))], t.nextId + 1),
                                       entity.(id := Some(t.nextId)))
    ensures entity.id.Some? && HasId(t.rows, entity.id.value) ==>
              var s := Save(t, entity);
              && s.row == entity && s.table.nextId == t.nextId && |s.table.rows| == |t.rows|
              && forall i :: 0 <= i < |t.rows| ==> s.table.rows[i] == if t.rows[i].id == entity.id then entity else t.rows[i]
  {
    var s := Save(t, entity);
    if entity.id.Some? && HasId(t.rows, entity.id.value) {
      var at := IndexOfId(t.rows, entity.id.value).value;
      assert s.table.rows == t.rows[at := entity];
      assert s.table.rows[at] == entity;
    }
  }

  /** The rows saved by one `saveAll`, and the table after it. */
  datatype SavedAll = SavedAll(table: Table, rows: seq<Agenda>)

  /** `saveAll(entities)`: one save after the other, in order; the stored
      rows come back in the same order. */
  function SaveAll(t: Table, entities: seq<Agenda>): (s: SavedAll)
    decreases |entities|
  {
    if entities == [] then SavedAll(t, [])
    else
      var first := Save(t, entities[0]);
      var rest := SaveAll(first.table, entities[1..]);
      SavedAll(rest.table, [first.row] + rest.rows)
  }

  /** `entities` under the ids `n`, `n + 1`, ... in order. */
  function Numbered(entities: seq<Agenda>, n: AgendaId): (r: seq<Agenda>)
    ensures |r| == |entities|
    ensures forall i :: 0 <= i < |entities| ==> r[i] == entities[i].(id := Some(n + i))
  {
    seq(|entities|, i requires 0 <= i < |entities| => entities[i].(id := Some(n + i)))
  }

  /** Saving entities none of which has an id appends them, in order, under
      consecutive fresh ids, and returns them so numbered. */
  lemma {:induction false} SaveAllNewAppends(t: Table, entities: seq<Agenda>)
    requires forall i :: 0 <= i < |entities| ==> entities[i].id.None?
    ensures SaveAll(t, entities).table == Table(t.rows + Numbered(entities, t.nextId), t.nextId + |entities|)
    ensures SaveAll(t, entities).rows == Numbered(entities, t.nextId)
    decreases |entities|
  {
    if entities != [] {
      var row := entities[0].(id := Some(t.nextId));
      var next := Table(t.rows + [row], t.nextId + 1);
      var rest := entities[1..];
      SaveAllFirstNew(t, entities);
      NewTail(entities);
      SaveAllNewAppends(next, rest);
      var tail := Numbered(rest, t.nextId + 1);
      var after := SaveAll(next, rest);
      assert SaveAll(t, entities) == SavedAll(after.table, [row] + after.rows);
      assert after.table == Table(t.rows + [row] + tail, t.nextId + 1 + |rest|);
      assert after.rows == tail;
      var full := Numbered(entities, t.nextId);
      NumberedCons(entities, t.nextId);
      assert full == [row] + tail;
      AppendAssociates(t.rows, [row], tail);
      assert t.rows + full == t.rows + [row] + tail;
      assert |entities| == 1 + |rest|;
    }
  }

  /** One step of `saveAll` on an entity without an id. */
  lemma SaveAllFirstNew(t: Table, entities: seq<Agenda>)
    requires entities != [] && entities[0].id.None?
    ensures var row := entities[0].(id := Some(t.nextId));
            var after := SaveAll(Table(t.rows + [row], t.nextId + 1), entities[1..]);
            SaveAll(t, entities) == SavedAll(after.table, [row] + after.rows)
  {
  }

  lemma NewTail(entities: seq<Agenda>)
    requires entities != [] && forall i :: 0 <= i < |entities| ==> entities[i].id.None?
    ensures entities[0].id.None?
    ensures forall i :: 0 <= i < |entities[1..]| ==> entities[1..][i].id.None?
  {
    forall i | 0 <= i < |entities[1..]| ensures entities[1..][i].id.None? {
      assert entities[1..][i] == entities[i + 1];
    }
  }

  lemma AppendAssociates(a: seq<Agenda>, b: seq<Agenda>, c: seq<Agenda>)
    ensures a + b + c == a + (b + c)
  {
  }

  lemma NumberedCons(entities: seq<Agenda>, n: AgendaId)
    requires entities != []
    ensures Numbered(entities, n) == [entities[0].(id := Some(n))] + Numbered(entities[1..], n + 1)
  {
    var r := [entities[0].(id := Some(n))] + Numbered(entities[1..], n + 1);
    forall i | 0 <= i < |entities| ensures Numbered(entities, n)[i] == r[i] {
      if i > 0 {
        assert r[i] == Numbered(entities[1..], n + 1)[i - 1];
      }
    }
  }

  /** A `saveAll` keeps the table well numbered, and each row of the new
      table is an old row or one of the entities up to its id. */
  lemma {:induction false} SaveAllKeepsNumbering(t: Table, entities: seq<Agenda>)
    requires WellNumbered(t)
    ensures WellNumbered(SaveAll(t, entities).table)
    ensures forall a :: a in SaveAll(t, entities).table.rows ==>
              a in t.rows || exists e :: e in entities && WithoutId(a) == WithoutId(e)
    decreases |entities|
  {
    if entities != [] {
      var first := Save(t, entities[0]);
      SaveInsertsOrReplaces(t, entities[0]);
      SaveAllKeepsNumbering(first.table, entities[1..]);
      forall a | a in SaveAll(t, entities).table.rows
        ensures a in t.rows || exists e :: e in entities && WithoutId(a) == WithoutId(e)
      {
        if a !in first.table.rows {
          var e :| e in entities[1..] && WithoutId(a) == WithoutId(e);
          assert e in entities;
        } else if a == first.row {
          assert entities[0] in entities;
        }
      }
    }
  }
}
