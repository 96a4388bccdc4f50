/**
 * The decision logic of ui/notes_ui.py: the upload form's checks and the
 * topic it derives from the file name, and the icon a note card shows for
 * its file's extension. Saving the file to disk is not modelled.
 */
module NotesUi {
  import opened Wrappers
  import opened Text
  import opened Validators
  import opened NotesDb
  import opened NotesService

  // ---------------------------------------------------------------- file names

  /** `name.rsplit('.', 1)[0]`: the name up to its last '.', or all of it when there is none. */
  function Stem(fileName: string): (r: string)
    ensures r <= fileName
  {
    var k := LastIndexOf(fileName, '.');
    if k == -1 then fileName else fileName[..k]
  }

  /** `name.split('.')[-1]`: the text after the last '.', or all of it when there is none. */
  function AfterLastDot(fileName: string): (r: string)
    ensures '.' !in r
  {
    fileName[LastIndexOf(fileName, '.') + 1..]
  }

  /** Splitting at the last '.' takes off exactly the extension. */
  lemma SplitAtLastDot(base: string, ext: string)
    requires '.' !in ext
    ensures Stem(base + "." + ext) == base
    ensures AfterLastDot(base + "." + ext) == ext
  {
    var name := base + "." + ext;
    assert name[|base|] == '.';
    assert forall i :: |base| < i < |name| ==> name[i] == ext[i - |base| - 1];
    assert LastIndexOf(name, '.') == |base|;
    assert name[..|base|] == base;
    assert name[|base| + 1..] == ext;
  }

  /** A name without a '.' is its own stem. */
  lemma StemWithoutDot(fileName: string)
    requires '.' !in fileName
    ensures Stem(fileName) == fileName
  {
  }

  /** The topic the upload form derives: the stem with every '_' and '-' turned into a space. */
  function DeriveTopic(fileName: string): (topic: string)
    ensures '_' !in topic && '-' !in topic
    ensures |topic| == |Stem(fileName)| <= |fileName|
    ensures forall i :: 0 <= i < |topic| ==>
      topic[i] == if Stem(fileName)[i] == '_' || Stem(fileName)[i] == '-' then ' ' else Stem(fileName)[i]
  {
    ReplaceChar(ReplaceChar(Stem(fileName), '_', ' '), '-', ' ')
  }

  /** The largest upload accepted: 10 MiB. */
  const MaxUploadBytes := 10 * 1024 * 1024

  // ---------------------------------------------------------------- upload form

  /** The uploaded file as the form sees it. */
  datatype UploadedFile = UploadedFile(name: string, size: int)

  /** Where a submitted upload form ends. */
  datatype UploadCheck =
    | UploadMissingFields
    | UploadBadName(message: string)
    | FileTooLarge
    | UploadBadDescription(message: string)
    | Uploaded(note: Note)

  /**
   * The upload form's checks, in the order they run, ending in the note
   * `upload_note` returns; `noteId` is the id the store assigns and `today`
   * the current date.
   */
  function CheckUpload(subject: string, semester: string, uploadedBy: string, file: Option<UploadedFile>,
                       description: string, noteId: int, today: string): (r: UploadCheck)
    ensures r.UploadBadName? ==> r.message != ""
    ensures r.UploadBadDescription? ==> r.message != ""
  {
    if subject == "" || semester == "" || uploadedBy == "" || file.None? || description == "" then UploadMissingFields
    else if !ValidateName(uploadedBy).valid then UploadBadName(ValidateName(uploadedBy).message)
    else
      var topic := DeriveTopic(file.value.name);
      if file.value.size > MaxUploadBytes then FileTooLarge
      else if !ValidateDescription(description).valid then UploadBadDescription(ValidateDescription(description).message)
      else Uploaded(UploadNote(subject, topic, semester, uploadedBy, file.value.name, description, noteId, today))
  }

  /**
   * An upload goes through exactly when every field is filled, a file is
   * attached, the uploader's name is valid, the file is at most 10 MiB and the
   * description is valid; a missing field is reported first, and the
   * description only once the name and the size pass.
   */
  lemma UploadedIff(subject: string, semester: string, uploadedBy: string, file: Option<UploadedFile>,
                    description: string, noteId: int, today: string)
    ensures CheckUpload(subject, semester, uploadedBy, file, description, noteId, today).Uploaded? <==>
      && subject != "" && semester != "" && uploadedBy != "" && file.Some? && description != ""
      && ValidateName(uploadedBy).valid
      && file.value.size <= 10485760
      && 10 <= |Strip(description)| <= 500
    ensures (subject == "" || semester == "" || uploadedBy == "" || file.None? || description == "")
      ==> CheckUpload(subject, semester, uploadedBy, file, description, noteId, today) == UploadMissingFields
    ensures CheckUpload(subject, semester, uploadedBy, file, description, noteId, today).UploadBadDescription? ==>
      file.Some? && ValidateName(uploadedBy).valid && file.value.size <= 10485760
  {
    DescriptionDefaultBounds(description);
  }

  /** An upload that goes through carries the derived topic, the given fields, no downloads and a zero rating. */
  lemma UploadedNote(subject: string, semester: string, uploadedBy: string, file: Option<UploadedFile>,
                     description: string, noteId: int, today: string)
    requires CheckUpload(subject, semester, uploadedBy, file, description, noteId, today).Uploaded?
    ensures file.Some?
    ensures var note := CheckUpload(subject, semester, uploadedBy, file, description, noteId, today).note;
      && note.topic == DeriveTopic(file.value.name) && note.fileName == file.value.name
      && note.subject == subject && note.uploadedBy == uploadedBy && note.id == noteId
      && note.downloads == 0 && note.rating == 0.0
  {
  }

  /**
   * A file over 10 MiB is never uploaded, and once the fields and the name
   * pass it is reported as too large whatever the description holds.
   */
  lemma LargeFileRejected(subject: string, semester: string, uploadedBy: string, file: UploadedFile,
                          description: string, noteId: int, today: string)
    requires file.size > 10485760
    ensures !CheckUpload(subject, semester, uploadedBy, Some(file), description, noteId, today).Uploaded?
    ensures subject != "" && semester != "" && uploadedBy != "" && description != "" && ValidateName(uploadedBy).valid
      ==> CheckUpload(subject, semester, uploadedBy, Some(file), description, noteId, today) == FileTooLarge
  {
  }

  /** The name is checked before the size: an invalid name is reported even for an oversized file. */
  lemma NameBeforeSize(subject: string, semester: string, uploadedBy: string, file: UploadedFile,
                       description: string, noteId: int, today: string)
    requires subject != "" && semester != "" && uploadedBy != "" && description != ""
    requires |Strip(uploadedBy)| < 2
    ensures CheckUpload(subject, semester, uploadedBy, Some(file), description, noteId, today).UploadBadName?
  {
  }

  // ---------------------------------------------------------------- file icons

  /** `file_ext` on a note card: the lower-cased text after the last '.', or "file" without one. */
  function FileExtension(fileName: string): (r: string)
    ensures '.' !in r
    ensures '.' !in fileName ==> r == "file"
  {
    if '.' in fileName then Lower(AfterLastDot(fileName)) else "file"
  }

  /** The card icons by extension. */
  const FileIcons: map<string, string> := map[
    "pdf" := "\U{1F4D5}",
    "doc" := "\U{1F4D8}",
    "docx" := "\U{1F4D8}",
    "txt" := "\U{1F4DD}",
    "ppt" := "\U{1F4CA}",
    "pptx" := "\U{1F4CA}",
    "xls" := "\U{1F4CA}",
    "xlsx" := "\U{1F4CA}"]

  const DefaultIcon := "\U{1F4C4}"

  function FileIcon(fileName: string): (r: string)
    ensures r == DefaultIcon || r in FileIcons.Values
    ensures FileExtension(fileName) in FileIcons ==> r == FileIcons[FileExtension(fileName)]
    ensures FileExtension(fileName) !in FileIcons ==> r == DefaultIcon
  {
    var ext := FileExtension(fileName);
    if ext in FileIcons then FileIcons[ext] else DefaultIcon
  }

  /** The extension of `base.ext` is `ext` lower-cased, so the icon does not depend on its case. */
  lemma ExtensionOfDotted(base: string, ext: string)
    requires '.' !in ext
    ensures FileExtension(base + "." + ext) == Lower(ext)
    ensures FileIcon(base + "." + ext) == FileIcon(base + "." + Lower(ext))
  {
    SplitAtLastDot(base, ext);
    var lowered := Lower(ext);
    assert forall i :: 0 <= i < |lowered| ==> lowered[i] == LowerChar(ext[i]) && ext[i] != '.';
    assert '.' !in lowered;
    SplitAtLastDot(base, lowered);
    LowerIdempotent(ext);
    assert (base + "." + ext)[|base|] == '.';
    assert (base + "." + lowered)[|base|] == '.';
  }

  /** A name without a '.' always gets the default icon. */
  lemma NoDotDefaultIcon(fileName: string)
    requires '.' !in fileName
    ensures FileIcon(fileName) == DefaultIcon
  {
  }
}
