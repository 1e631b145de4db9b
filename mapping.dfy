/** The mapping profile as hand-written field projections, one function per
    configured direction. A destination member the profile ignores, or that has
    no source member of the same name, keeps its default: 0 for an int, null
    for a string (written "" here for a non-nullable string field, None for
    the nullable image path). */
module MappingProfile {
  import opened Entities

  /** Note -> NoteDTO, with ImagePath mapped explicitly. */
  function NoteToDto(n: Note): NoteDto {
    NoteDto(n.noteId, n.title, n.content, n.imagePath, n.categoryId, n.userId)
  }

  /** The reverse map NoteDTO -> Note. */
  function DtoToNote(d: NoteDto): Note {
    Note(d.noteId, d.title, d.content, d.imagePath, d.categoryId, d.userId)
  }

  /** Mapping a note to its DTO loses nothing: the reverse map restores it. */
  lemma NoteDtoRoundTrip(n: Note)
    ensures DtoToNote(NoteToDto(n)) == n
  {
  }

  /** Distinct notes give distinct DTOs. */
  lemma NoteToDtoInjective(n: Note, m: Note)
    requires NoteToDto(n) == NoteToDto(m)
    ensures n == m
  {
    NoteDtoRoundTrip(n);
    NoteDtoRoundTrip(m);
  }

  /** CreateNoteDTO -> Note: NoteId and ImagePath are ignored, and UserId has
      no source member; Title, Content and CategoryId are copied. */
  function CreateNoteToNote(d: CreateNoteDto): (n: Note)
    ensures n.noteId == 0 && n.imagePath == None && n.userId == ""
    ensures n.title == d.title && n.content == d.content && n.categoryId == d.categoryId
  {
    Note(0, d.title, d.content, None, d.categoryId, "")
  }

  /** The create map takes nothing from the uploaded image: two create requests
      that differ only in their image map to the same note. */
  lemma CreateNoteIgnoresImage(d: CreateNoteDto, e: CreateNoteDto)
    requires d.title == e.title && d.content == e.content && d.categoryId == e.categoryId
    ensures CreateNoteToNote(d) == CreateNoteToNote(e)
  {
  }

  /** The in-place NoteUpdateDTO -> Note map as the service's unit tests
      configure it: Title, Content and CategoryId are overwritten, reading
      `CategoryId.Value`, which throws on a null CategoryId. The key, the owner
      and the image path are left as they were. */
  function ApplyNoteUpdate(d: NoteUpdateDto, n: Note): (r: Option<Note>)
    ensures r.None? <==> d.categoryId.None?
    ensures r.Some? ==> r.value.noteId == n.noteId && r.value.userId == n.userId &&
                        r.value.imagePath == n.imagePath
    ensures r.Some? ==> r.value.title == d.title && r.value.content == d.content &&
                        r.value.categoryId == d.categoryId.value
  {
    if d.categoryId.None? then None
    else Some(n.(title := d.title, content := d.content, categoryId := d.categoryId.value))
  }

  /** The same in-place map as the profile declares it: nothing is ignored, so
      NoteUpdateDTO.NoteId is copied onto the note as well, and a null
      CategoryId is mapped onto the non-nullable member as its default 0. */
  function ApplyNoteUpdateAsWritten(d: NoteUpdateDto, n: Note): (r: Note)
    ensures r.noteId == d.noteId && r.title == d.title && r.content == d.content
    ensures r.categoryId == (if d.categoryId.Some? then d.categoryId.value else 0)
    ensures r.userId == n.userId && r.imagePath == n.imagePath
  {
    var category := if d.categoryId.Some? then d.categoryId.value else 0;
    n.(noteId := d.noteId, title := d.title, content := d.content, categoryId := category)
  }

  /** An update body that leaves NoteId at its default 0 re-keys the loaded
      note under the profile as written, and does not under the map the
      service relies on. */
  lemma AsWrittenUpdateRekeysNote()
    ensures var note := Note(1, "Note1", "Content1", Some("path1.jpg"), 1, "user1");
            var body := NoteUpdateDto(0, "Updated Note", "Updated Content", Some(1));
            ApplyNoteUpdateAsWritten(body, note).noteId != note.noteId &&
            ApplyNoteUpdate(body, note).value.noteId == note.noteId
  {
  }

  /** NoteUpdateImageDTO -> Note: ImagePath is ignored and no other member
      matches (the DTO has only Image), so the map leaves the note as it is. */
  function ApplyImageUpdateMap(d: NoteUpdateImageDto, n: Note): (r: Note)
    ensures r.imagePath == n.imagePath && r.noteId == n.noteId && r.userId == n.userId
  {
    n
  }

  /** Category <-> CategoryDTO. */
  function CategoryToDto(c: Category): CategoryDto {
    CategoryDto(c.categoryId, c.name, c.userId)
  }

  function DtoToCategory(d: CategoryDto): Category {
    Category(d.categoryId, d.name, d.userId)
  }

  lemma CategoryDtoRoundTrip(c: Category)
    ensures DtoToCategory(CategoryToDto(c)) == c
  {
  }

  /** CreateCategoryDTO -> Category: CategoryId and UserId are ignored. */
  function CreateCategoryToCategory(d: CreateCategoryDto): (c: Category)
    ensures c.categoryId == 0 && c.userId == "" && c.name == d.name
  {
    Category(0, d.name, "")
  }

  /** UpdateCategoryDTO -> Category: CategoryId and UserId are ignored. */
  function UpdateCategoryToCategory(d: UpdateCategoryDto): (c: Category)
    ensures c.categoryId == 0 && c.userId == "" && c.name == d.name
  {
    Category(0, d.name, "")
  }

  /** The reverse of both category DTO maps keeps only the name, which the
      forward maps restore. */
  function CategoryToCreateDto(c: Category): CreateCategoryDto {
    CreateCategoryDto(c.name)
  }

  function CategoryToUpdateDto(c: Category): UpdateCategoryDto {
    UpdateCategoryDto(c.name)
  }

  lemma CategoryRequestRoundTrips(d: CreateCategoryDto, e: UpdateCategoryDto)
    ensures CategoryToCreateDto(CreateCategoryToCategory(d)) == d
    ensures CategoryToUpdateDto(UpdateCategoryToCategory(e)) == e
  {
  }
}
