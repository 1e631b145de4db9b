/** NoteService: every read and write is scoped to the calling user; images
    go through the file manager. */
module NoteServices {
  import opened Entities
  import opened Tables
  import opened MappingProfile
  import opened NoteData
  import opened FileManagement

  /** `part` occurs in `text` starting at index `k`. */
  predicate OccursAt(text: string, part: string, k: int) {
    0 <= k && k + |part| <= |text| && text[k..k + |part|] == part
  }

  /** `LIKE '%part%'` read as a plain substring test. */
  predicate Contains(text: string, part: string) {
    exists k :: 0 <= k <= |text| - |part| && OccursAt(text, part, k)
  }

  /** The title filter is applied only for a non-null, non-empty name. */
  predicate TitleFilterApplies(name: Option<string>) {
    name.Some? && name.value != ""
  }

  /** A note passes both optional filters of GetAllNotesAsync. */
  predicate MatchesFilters(n: Note, name: Option<string>, categoryId: Option<int>) {
    (TitleFilterApplies(name) ==> Contains(n.title, name.value)) &&
    (categoryId.Some? ==> n.categoryId == categoryId.value)
  }

  /** The note refers to an image file: its path is neither null nor empty. */
  predicate HasImage(n: Note) {
    !IsNullOrEmpty(n.imagePath)
  }

  /** The file-manager calls that replacing the image of `n` starts with. */
  function OldImageDeletes(n: Note): seq<FileCall> {
    if HasImage(n) then [Delete(n.imagePath.value)] else []
  }

  class NoteService {
    const repo: NoteRepository
    const files: FileManager

    ghost predicate Valid()
      reads repo
    {
      repo.Valid()
    }

    constructor (repo: NoteRepository, files: FileManager)
      requires repo.Valid()
      ensures Valid() && this.repo == repo && this.files == files
    {
      this.repo := repo;
      this.files := files;
    }

    /** The query GetAllNotesAsync composes: the caller's notes, narrowed by
        title and by category when those filters apply. */
    function QueryNotes(userId: string, name: Option<string>, categoryId: Option<int>): (r: seq<Note>)
      reads repo
      ensures forall n :: n in r <==> n in repo.rows && n.userId == userId && MatchesFilters(n, name, categoryId)
      ensures forall n :: multiset(r)[n] ==
                if n.userId == userId && MatchesFilters(n, name, categoryId) then multiset(repo.rows)[n] else 0
    {
      var owned := repo.GetAll(userId);
      var byTitle :=
        if TitleFilterApplies(name) then
          var part := name.value;
          var titled := (n: Note) => Contains(n.title, part);
          FilterCounts(owned, titled);
          Filter(owned, titled)
        else owned;
      if categoryId.Some? then
        var category := categoryId.value;
        var inCategory := (n: Note) => n.categoryId == category;
        FilterCounts(byTitle, inCategory);
        Filter(byTitle, inCategory)
      else byTitle
    }

    /** GetAllNotesAsync: the DTOs of exactly the caller's notes that pass the
        filters, each as often as the table holds the note, in query order. */
    function GetAllNotes(userId: string, name: Option<string>, categoryId: Option<int>): (r: seq<NoteDto>)
      reads repo
      ensures forall i :: 0 <= i < |r| ==>
        var n := DtoToNote(r[i]);
        n in repo.rows && n.userId == userId && MatchesFilters(n, name, categoryId)
      ensures forall n :: multiset(r)[NoteToDto(n)] ==
                if n.userId == userId && MatchesFilters(n, name, categoryId) then multiset(repo.rows)[n] else 0
      ensures |r| == |QueryNotes(userId, name, categoryId)| &&
              forall i :: 0 <= i < |r| ==> DtoToNote(r[i]) == QueryNotes(userId, name, categoryId)[i]
    {
      var notes := QueryNotes(userId, name, categoryId);
      MapCounts(notes, NoteToDto, DtoToNote);
      Map(notes, NoteToDto)
    }

    /** GetNotesByUserIdAsync: the DTOs of exactly the caller's notes, each as
        often as the table holds the note, in the repository's order. */
    function GetNotesByUserId(userId: string): (r: seq<NoteDto>)
      reads repo
      ensures forall i :: 0 <= i < |r| ==> DtoToNote(r[i]) in repo.rows && r[i].userId == userId
      ensures forall n :: multiset(r)[NoteToDto(n)] == if n.userId == userId then multiset(repo.rows)[n] else 0
      ensures |r| == |repo.GetNotesByUserId(userId)| &&
              forall i :: 0 <= i < |r| ==> DtoToNote(r[i]) == repo.GetNotesByUserId(userId)[i]
    {
      var notes := repo.GetNotesByUserId(userId);
      MapCounts(notes, NoteToDto, DtoToNote);
      Map(notes, NoteToDto)
    }

    /** GetNoteByIdAsync: the note with this id if the caller owns it, else
        null, whether the id is unknown or belongs to someone else. */
    function GetNoteById(id: int, userId: string): (r: Option<NoteDto>)
      reads repo
      ensures r.Some? <==> exists n :: n in repo.rows && n.noteId == id && n.userId == userId
      ensures r.Some? ==> DtoToNote(r.value) in repo.rows && r.value.noteId == id && r.value.userId == userId
    {
      var note := repo.GetById(id, userId);
      if note.None? then None else Some(NoteToDto(note.value))
    }

    /** CreateNoteAsync: stores one new note owned by the caller, with the path
        of the saved image when an image came with the request. */
    method CreateNote(dto: CreateNoteDto, userId: string) returns (r: NoteDto)
      requires Valid()
      modifies repo, files
      ensures Valid()
      ensures |repo.rows| == |old(repo.rows)| + 1 && repo.rows[..|old(repo.rows)|] == old(repo.rows)
      ensures var stored := repo.rows[|old(repo.rows)|];
              stored.userId == userId && stored.title == dto.title && stored.content == dto.content &&
              stored.categoryId == dto.categoryId && !HasKey(old(repo.rows), NoteKey, stored.noteId) &&
              r == NoteToDto(stored)
      ensures dto.image.None? ==> r.imagePath == None && files.calls == old(files.calls)
      ensures dto.image.Some? ==> r.imagePath.Some? &&
                                  files.calls == old(files.calls) + [Save(dto.image.value, r.imagePath.value)]
      ensures GetNoteById(r.noteId, userId) == Some(r)
    {
      var note := CreateNoteToNote(dto);
      note := note.(userId := userId);
      if dto.image.Some? {
        var path := files.SaveImage(dto.image.value);
        note := note.(imagePath := Some(path));
      }
      var added := repo.Add(note);
      var stored := added.value;
      FindAppended(old(repo.rows), stored);
      r := NoteToDto(stored);
    }

    /** UpdateNoteDetailsAsync: overwrites the title, content and category of
        a note the caller owns; its key, owner and image path stay. */
    method UpdateNoteDetails(noteId: int, dto: NoteUpdateDto, userId: string) returns (r: Result<()>)
      requires Valid()
      modifies repo
      ensures Valid() && files.calls == old(files.calls)
      ensures old(repo.GetById(noteId, userId)).None? ==> r == Err(NoteNotFound) && repo.rows == old(repo.rows)
      ensures old(repo.GetById(noteId, userId)).Some? && dto.categoryId.None? ==>
                r == Err(MissingCategoryId) && repo.rows == old(repo.rows)
      ensures old(repo.GetById(noteId, userId)).Some? && dto.categoryId.Some? ==>
                var note := old(repo.GetById(noteId, userId)).value;
                r.Ok? &&
                repo.rows == ReplaceByKey(old(repo.rows), NoteKey,
                               note.(title := dto.title, content := dto.content, categoryId := dto.categoryId.value))
    {
      var found := repo.GetById(noteId, userId);
      if found.None? {
        return Err(NoteNotFound);
      }
      var updated := ApplyNoteUpdate(dto, found.value);
      if updated.None? {
        return Err(MissingCategoryId);
      }
      var stored := repo.Update(updated.value);
      r := Ok(());
    }

    /** DeleteNoteAsync: removes the caller's note with this id, and does
        nothing when there is none; the image file is not touched. */
    method DeleteNote(id: int, userId: string)
      requires Valid()
      modifies repo
      ensures Valid() && files.calls == old(files.calls)
      ensures old(repo.GetById(id, userId)).None? ==> repo.rows == old(repo.rows)
      ensures old(repo.GetById(id, userId)).Some? ==>
                repo.rows == WithoutKey(old(repo.rows), NoteKey, id) && |repo.rows| == |old(repo.rows)| - 1
    {
      var note := repo.GetById(id, userId);
      if note.Some? {
        var removed := repo.Delete(note.value);
      }
    }

    /** UpdateNoteImageAsync: for a note the caller owns, deletes the old file
        when there is one, then saves the new image when one is supplied and
        records its path. Without a new image the path stays as it was. */
    method UpdateNoteImage(noteId: int, dto: NoteUpdateImageDto, userId: string) returns (r: Result<()>)
      requires Valid()
      modifies repo, files
      ensures Valid()
      ensures r.Ok? <==> old(repo.GetById(noteId, userId)).Some?
      ensures r.Err? ==> r.error == NoteNotFound && repo.rows == old(repo.rows) && files.calls == old(files.calls)
      ensures r.Ok? && dto.image.None? ==>
                var note := old(repo.GetById(noteId, userId)).value;
                files.calls == old(files.calls) + OldImageDeletes(note) && repo.rows == old(repo.rows)
      ensures r.Ok? && dto.image.Some? ==>
                var note := old(repo.GetById(noteId, userId)).value;
                |files.calls| == |old(files.calls)| + |OldImageDeletes(note)| + 1 &&
                var path := files.calls[|files.calls| - 1].path;
                files.calls == old(files.calls) + OldImageDeletes(note) + [Save(dto.image.value, path)] &&
                repo.rows == ReplaceByKey(old(repo.rows), NoteKey, note.(imagePath := Some(path)))
    {
      var found := repo.GetById(noteId, userId);
      if found.None? {
        return Err(NoteNotFound);
      }
      var note := found.value;
      if HasImage(note) {
        files.DeleteImage(note.imagePath.value);
      }
      if dto.image.Some? {
        var path := files.SaveImage(dto.image.value);
        note := note.(imagePath := Some(path));
      } else {
        GetByIdIsTheKeyedRow(repo.rows, noteId, userId, note);
        ReplaceByKeyStored(repo.rows, NoteKey, note);
      }
      var stored := repo.Update(note);
      r := Ok(());
    }
  }

  /** Once a note is deleted, looking it up finds nothing, so deleting it
      again is a no-op. */
  lemma DeleteThenLookupFindsNothing(rows: seq<Note>, id: int, userId: string)
    ensures First(WithoutKey(rows, NoteKey, id), n => IsOwnedNote(n, id, userId)).None?
  {
    var rest := WithoutKey(rows, NoteKey, id);
    var p := (n: Note) => IsOwnedNote(n, id, userId);
    assert forall i :: 0 <= i < |rest| ==> !p(rest[i]) by {
      forall i | 0 <= i < |rest| ensures !p(rest[i]) {
        assert rest[i] in rest;
      }
    }
  }

  /** With no filter in force, GetAllNotesAsync lists every note of the
      caller: the query is the owner-scoped list itself. */
  lemma NoFilterListsAllOwned(service: NoteService, userId: string, name: Option<string>)
    requires !TitleFilterApplies(name)
    ensures service.QueryNotes(userId, name, None) == service.repo.GetAll(userId)
  {
  }

  /** Example of the title filter: "Groceries" contains "roc" but not "Roc"
      (the comparison is exact here). */
  lemma TitleFilterExample()
    ensures Contains("Groceries", "roc") && !Contains("Groceries", "Roc")
  {
    assert OccursAt("Groceries", "roc", 1);
    forall k | 0 <= k <= 6 ensures !OccursAt("Groceries", "Roc", k) {
      assert "Groceries"[k..k + 3][0] == "Groceries"[k] != 'R';
    }
  }
}
