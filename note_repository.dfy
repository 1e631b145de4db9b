/** NoteRepository over the Notes table: owner-scoped queries and the three
    writes, each committed at once (SaveChanges). */
module NoteData {
  import opened Entities
  import opened Tables

  predicate OwnedBy(n: Note, userId: string) {
    n.userId == userId
  }

  predicate IsOwnedNote(n: Note, id: int, userId: string) {
    n.noteId == id && n.userId == userId
  }

  /** The notes of `rows` owned by `userId`, in table order: as often as the
      table holds each of them, and no other note. */
  function OwnedNotes(rows: seq<Note>, userId: string): (r: seq<Note>)
    ensures forall n :: n in r <==> n in rows && n.userId == userId
    ensures forall n :: multiset(r)[n] == if n.userId == userId then multiset(rows)[n] else 0
  {
    var owned := (n: Note) => OwnedBy(n, userId);
    FilterCounts(rows, owned);
    Filter(rows, owned)
  }

  class NoteRepository {
    /** The Notes table, in insertion order. */
    var rows: seq<Note>
    /** The key the store generates next. */
    var nextId: int

    ghost predicate Valid()
      reads this
    {
      nextId > 0 && UniqueKeys(rows, NoteKey) && KeysBelow(rows, NoteKey, nextId)
    }

    constructor ()
      ensures Valid() && rows == []
    {
      rows := [];
      nextId := 1;
    }

    /** GetAll: the query of the notes owned by `userId`. */
    function GetAll(userId: string): (r: seq<Note>)
      reads this
      ensures forall n :: n in r <==> n in rows && n.userId == userId
      ensures forall n :: multiset(r)[n] == if n.userId == userId then multiset(rows)[n] else 0
    {
      OwnedNotes(rows, userId)
    }

    /** GetNotesByUserIdAsync: the same notes, materialised as a list. */
    function GetNotesByUserId(userId: string): (r: seq<Note>)
      reads this
      ensures forall n :: n in r <==> n in rows && n.userId == userId
      ensures forall n :: multiset(r)[n] == if n.userId == userId then multiset(rows)[n] else 0
    {
      GetAll(userId)
    }

    /** GetByIdAsync: the first note with both this key and this owner, or null. */
    function GetById(id: int, userId: string): (r: Option<Note>)
      reads this
      ensures r.Some? <==> exists n :: n in rows && n.noteId == id && n.userId == userId
      ensures r.Some? ==> r.value in rows && r.value.noteId == id && r.value.userId == userId
    {
      First(rows, n => IsOwnedNote(n, id, userId))
    }

    /** AddAsync: a note whose NoteId is 0 gets the next generated key; a note
        with an explicit key is stored under it, unless that key is taken. */
    method Add(entity: Note) returns (r: Result<Note>)
      requires Valid()
      modifies this
      ensures Valid()
      ensures r.Ok? <==> entity.noteId == 0 || !HasKey(old(rows), NoteKey, entity.noteId)
      ensures r.Ok? ==> rows == old(rows) + [r.value] &&
                        r.value == entity.(noteId := r.value.noteId) &&
                        !HasKey(old(rows), NoteKey, r.value.noteId) &&
                        (entity.noteId != 0 ==> r.value.noteId == entity.noteId)
      ensures r.Err? ==> r.error == DuplicateKey && rows == old(rows)
    {
      if entity.noteId == 0 {
        var stored := entity.(noteId := nextId);
        rows := rows + [stored];
        nextId := nextId + 1;
        r := Ok(stored);
      } else if HasKey(rows, NoteKey, entity.noteId) {
        r := Err(DuplicateKey);
      } else {
        rows := rows + [entity];
        if entity.noteId >= nextId {
          nextId := entity.noteId + 1;
        }
        r := Ok(entity);
      }
    }

    /** UpdateAsync: the stored row with the entity's key becomes the entity;
        with no such row, the store reports a concurrency failure. */
    method Update(entity: Note) returns (r: Result<()>)
      requires Valid()
      modifies this
      ensures Valid()
      ensures r.Ok? <==> HasKey(old(rows), NoteKey, entity.noteId)
      ensures r.Ok? ==> rows == ReplaceByKey(old(rows), NoteKey, entity)
      ensures r.Err? ==> r.error == RowMissing && rows == old(rows)
    {
      if HasKey(rows, NoteKey, entity.noteId) {
        ReplaceByKeyUnique(rows, NoteKey, entity);
        rows := ReplaceByKey(rows, NoteKey, entity);
        r := Ok(());
      } else {
        r := Err(RowMissing);
      }
    }

    /** DeleteAsync: the row with the entity's key is removed; with no such
        row, the store reports a concurrency failure. */
    method Delete(entity: Note) returns (r: Result<()>)
      requires Valid()
      modifies this
      ensures Valid()
      ensures r.Ok? <==> HasKey(old(rows), NoteKey, entity.noteId)
      ensures r.Ok? ==> rows == WithoutKey(old(rows), NoteKey, entity.noteId) &&
                        |rows| == |old(rows)| - 1
      ensures r.Err? ==> r.error == RowMissing && rows == old(rows)
    {
      if HasKey(rows, NoteKey, entity.noteId) {
        WithoutKeyUnique(rows, NoteKey, entity.noteId);
        WithoutKeyRemovesOne(rows, NoteKey, entity.noteId);
        rows := WithoutKey(rows, NoteKey, entity.noteId);
        r := Ok(());
      } else {
        r := Err(RowMissing);
      }
    }
  }

  /** The row a lookup by key and owner finds is the only row with that key. */
  lemma GetByIdIsTheKeyedRow(rows: seq<Note>, id: int, userId: string, n: Note)
    requires UniqueKeys(rows, NoteKey)
    requires n in rows && n.noteId == id
    ensures forall m :: m in rows && m.noteId == id ==> m == n
  {
  }

  /** After a row with a fresh key is appended, looking it up by key and owner
      finds exactly that row. */
  lemma {:induction false} FindAppended(rows: seq<Note>, stored: Note)
    requires !HasKey(rows, NoteKey, stored.noteId)
    ensures First(rows + [stored], n => IsOwnedNote(n, stored.noteId, stored.userId)) == Some(stored)
  {
    var all := rows + [stored];
    var p := (n: Note) => IsOwnedNote(n, stored.noteId, stored.userId);
    var r := First(all, p);
    assert p(all[|rows|]);
    forall j | 0 <= j < |rows| ensures !p(all[j]) {
      assert all[j] == rows[j] && NoteKey(rows[j]) != stored.noteId;
    }
  }

  /** The owner-scoped list follows the table order: a note appended to the
      table comes last in its owner's list, and the other lists stay as they were. */
  lemma OwnedNotesAppend(rows: seq<Note>, n: Note, userId: string)
    ensures OwnedNotes(rows + [n], userId) ==
            OwnedNotes(rows, userId) + (if n.userId == userId then [n] else [])
  {
    FilterAppend(rows, n, (m: Note) => OwnedBy(m, userId));
  }

  /** With unique keys, each note of the owner is listed exactly once. */
  lemma OwnedNotesListedOnce(rows: seq<Note>, userId: string, n: Note)
    requires UniqueKeys(rows, NoteKey) && n in rows && n.userId == userId
    ensures multiset(OwnedNotes(rows, userId))[n] == 1
  {
    UniqueKeysOccurOnce(rows, NoteKey, n);
  }
}
