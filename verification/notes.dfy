/**
 * The note collection of the note editor (note_editor/notes_class.py): the
 * fixed category schema, the `NoteManager` that keeps the ordered list of
 * notes and rewrites its file after every change with a one-generation
 * backup, and the parts of the note and selection windows that are logic
 * rather than widgets: the emptiness test and save decision of the note
 * window, its delete action, and the label truncation of the selection list.
 *
 * The notes file and its backup are modelled by their contents only, as
 * `Option<seq<Note>>` (absent, or holding a list of notes); the CSV text is
 * not modelled.
 */
module Notes {
  import opened Wrappers

  /** How a category is edited: a one-line entry, a combo box over fixed values, a multi-line text. */
  datatype CategoryKind = Entry | Combo | Text

  datatype Category = Category(name: string, kind: CategoryKind, values: Option<seq<string>>)

  /** The values offered for the media type; the last one, "", is the default. */
  const ListMedia: seq<string> :=
    ["book", "movie", "comic-book", "short movie", "podcast", "drawing", "leaflet", ""]

  /** The schema, in its meaningful order: the title first, the free-text notes last. */
  const Categories: seq<Category> := [
    Category("title", Entry, None),
    Category("author", Entry, None),
    Category("year", Entry, None),
    Category("subtitle", Entry, None),
    Category("media_type", Combo, Some(ListMedia)),
    Category("episode", Entry, None),
    Category("link", Entry, None),
    Category("one_liner", Entry, None),
    Category("notes", Text, None)
  ]

  /** A note maps category names to their text. */
  type Note = map<string, string>

  /** Every category of the schema has a value in the note. */
  predicate Conforms(note: Note)
  {
    forall j :: 0 <= j < |Categories| ==> Categories[j].name in note
  }

  /** The schema's own promises: title first, notes last and multi-line, one combo (the media type), distinct names. */
  lemma SchemaShape()
    ensures Categories[0].name == "title"
    ensures Categories[|Categories| - 1].name == "notes" && Categories[|Categories| - 1].kind == Text
    ensures forall i, j :: 0 <= i < j < |Categories| ==> Categories[i].name != Categories[j].name
    ensures forall j :: 0 <= j < |Categories| ==>
              (Categories[j].kind == Combo <==> Categories[j].name == "media_type")
    ensures forall j :: 0 <= j < |Categories| ==>
              (Categories[j].values.Some? <==> Categories[j].kind == Combo)
  {
  }

  /** The fields the document generator reads are all present in a conforming note. */
  lemma ConformsFields(note: Note)
    requires Conforms(note)
    ensures "title" in note && "author" in note && "year" in note && "subtitle" in note
    ensures "media_type" in note && "episode" in note && "link" in note
    ensures "one_liner" in note && "notes" in note
  {
    assert Categories[0].name == "title" && Categories[1].name == "author";
    assert Categories[2].name == "year" && Categories[3].name == "subtitle";
    assert Categories[4].name == "media_type" && Categories[5].name == "episode";
    assert Categories[6].name == "link" && Categories[7].name == "one_liner";
    assert Categories[8].name == "notes";
  }

  /** `values.index(v)`, with `None` where Python raises `ValueError`. */
  function IndexOf(values: seq<string>, v: string): (r: Option<nat>)
    ensures r.None? <==> v !in values
    ensures r.Some? ==> r.value < |values| && values[r.value] == v && v !in values[..r.value]
  {
    if |values| == 0 then None
    else if values[0] == v then Some(0)
    else
      match IndexOf(values[1..], v)
      case None => None
      case Some(k) =>
        assert values[..k + 1] == [values[0]] + values[1..][..k];
        Some(k + 1)
  }

  // ----- emptiness of a note -----

  /** The characters the note window treats as blank. */
  predicate IsBlank(c: char)
  {
    c == ' ' || c == '\n' || c == '\t'
  }

  predicate BlankField(s: string)
  {
    forall k :: 0 <= k < |s| ==> IsBlank(s[k])
  }

  /** A note is empty when no field holds a character other than space, newline or tab. */
  predicate IsEmptyNote(note: Note)
    requires Conforms(note)
  {
    forall j :: 0 <= j < |Categories| ==> BlankField(note[Categories[j].name])
  }

  /** One character that is not blank, in any field, makes the note non-empty. */
  lemma NonBlankCharMakesNonEmpty(note: Note, j: nat, k: nat)
    requires Conforms(note) && j < |Categories|
    requires k < |note[Categories[j].name]| && !IsBlank(note[Categories[j].name][k])
    ensures !IsEmptyNote(note)
  {
  }

  /**
   * The scan of `NoteWindow.save_note`: one pass over the categories with an
   * `is_empty` flag; while the flag is set, a field's characters are scanned
   * until the first one that is not blank.
   */
  method CheckEmpty(note: Note) returns (isEmpty: bool)
    requires Conforms(note)
    ensures isEmpty <==> IsEmptyNote(note)
  {
    isEmpty := true;
    for i := 0 to |Categories|
      invariant isEmpty <==> forall j :: 0 <= j < i ==> BlankField(note[Categories[j].name])
    {
      var field := note[Categories[i].name];
      if isEmpty {
        if |field| > 0 {
          var k := 0;
          while k < |field|
            invariant 0 <= k <= |field|
            invariant isEmpty
            invariant forall m :: 0 <= m < k ==> IsBlank(field[m])
          {
            if !IsBlank(field[k]) {
              isEmpty := false;
              break;
            }
            k := k + 1;
          }
        }
      }
    }
  }

  // ----- the list operations -----

  /** `list.pop(i)`: the entries after `i` move down by one. */
  function Removed(s: seq<Note>, i: nat): (r: seq<Note>)
    requires i < |s|
    ensures |r| == |s| - 1
    ensures forall j :: 0 <= j < i ==> r[j] == s[j]
    ensures forall j :: i <= j < |r| ==> r[j] == s[j + 1]
    ensures multiset(r) == multiset(s) - multiset{s[i]}
  {
    assert s == s[..i] + [s[i]] + s[i + 1..];
    s[..i] + s[i + 1..]
  }

  /** What `update_note` leaves: the old version removed and the new one appended, so the edited note ends up last. */
  function Updated(s: seq<Note>, note: Note, i: nat): (r: seq<Note>)
    requires i < |s|
    ensures |r| == |s|
    ensures r[|s| - 1] == note
    ensures r[..|s| - 1] == Removed(s, i)
    ensures multiset(r) == multiset(s) - multiset{s[i]} + multiset{note}
  {
    Removed(s, i) + [note]
  }

  /** The note list and the two files it is written to. */
  class NoteManager {
    var list: seq<Note>
    /** Contents of the notes file; `None` while the file does not exist. */
    var persisted: Option<seq<Note>>
    /** Contents of the backup file the previous notes file was renamed to; `None` while there is none. */
    var backup: Option<seq<Note>>

    /** The notes file holds the list, or there is neither a file nor a note. */
    predicate Synced()
      reads this
    {
      persisted == Some(list) || (persisted == None && list == [])
    }

    predicate Valid()
      reads this
    {
      Synced() && forall k :: 0 <= k < |list| ==> Conforms(list[k])
    }

    /** Starts from the files found on disk and loads the notes file. */
    constructor (file: Option<seq<Note>>, backupFile: Option<seq<Note>>)
      ensures list == (if file.Some? then file.value else [])
      ensures persisted == file && backup == backupFile
      ensures Synced()
      ensures file.None? ==> Valid()
      ensures file.Some? && (forall k :: 0 <= k < |file.value| ==> Conforms(file.value[k])) ==> Valid()
    {
      list := [];
      persisted := file;
      backup := backupFile;
      new;
      Load();
    }

    /** Appends the rows of the notes file, if it exists, to the list. */
    method Load()
      modifies this`list
      ensures list == old(list) + (if persisted.Some? then persisted.value else [])
    {
      if persisted.Some? {
        var rows := persisted.value;
        for k := 0 to |rows|
          invariant list == old(list) + rows[..k]
        {
          list := list + [rows[k]];
        }
        assert rows[..|rows|] == rows;
      }
    }

    /** Renames an existing notes file to the backup, then writes the whole list to the notes file. */
    method Dump()
      modifies this`persisted, this`backup
      ensures persisted == Some(list)
      ensures backup == if old(persisted).Some? then old(persisted) else old(backup)
      ensures Synced()
    {
      if persisted.Some? {
        backup := persisted;
      }
      persisted := Some(list);
    }

    method AddNote(note: Note)
      modifies this
      ensures list == old(list) + [note]
      ensures persisted == Some(list)
      ensures backup == if old(persisted).Some? then old(persisted) else old(backup)
      ensures old(Valid()) && Conforms(note) ==> Valid()
    {
      list := list + [note];
      Dump();
    }

    method RemoveNote(noteNumber: nat)
      requires noteNumber < |list|
      modifies this
      ensures list == Removed(old(list), noteNumber)
      ensures persisted == Some(list)
      ensures backup == if old(persisted).Some? then old(persisted) else old(backup)
      ensures old(Valid()) ==> Valid()
    {
      list := list[..noteNumber] + list[noteNumber + 1..];
      Dump();
    }

    /** Remove then add, then one more write: both files end up holding the new list. */
    method UpdateNote(note: Note, noteNumber: nat)
      requires noteNumber < |list|
      modifies this
      ensures list == Updated(old(list), note, noteNumber)
      ensures persisted == Some(list) && backup == Some(list)
      ensures old(Valid()) && Conforms(note) ==> Valid()
    {
      RemoveNote(noteNumber);
      AddNote(note);
      Dump();
    }

    /** A note with every category set to the empty string. */
    static function NewEmptyNote(): (note: Note)
      ensures Conforms(note)
      ensures forall name :: name in note ==> note[name] == ""
      ensures forall name :: name in note ==> exists j :: 0 <= j < |Categories| && Categories[j].name == name
      ensures IsEmptyNote(note)
    {
      map j | 0 <= j < |Categories| :: Categories[j].name := ""
    }
  }

  /** The media type of a new note, "", is one of the combo's values, so selecting it succeeds. */
  lemma EmptyNoteMediaSelectable()
    ensures "media_type" in NoteManager.NewEmptyNote()
    ensures IndexOf(ListMedia, NoteManager.NewEmptyNote()["media_type"]) == Some(|ListMedia| - 1)
  {
    var note := NoteManager.NewEmptyNote();
    assert "media_type" in note && note["media_type"] == "" by {
      ConformsFields(note);
    }
    EmptyMediaLast();
  }

  lemma EmptyMediaLast()
    ensures IndexOf(ListMedia, "") == Some(|ListMedia| - 1)
  {
    assert ListMedia[|ListMedia| - 1] == "";
    assert forall k :: 0 <= k < |ListMedia| - 1 ==> ListMedia[k] != "";
  }

  /**
   * The save decision of `NoteWindow.save_note`, given the note read from the
   * window and the position of the note being edited (`None` for a new note):
   * an emptied existing note is removed, an edited one is updated, a new
   * non-empty note is added and a new empty note is dropped.
   */
  method SaveNote(manager: NoteManager, noteNumber: Option<nat>, note: Note)
    requires Conforms(note)
    requires noteNumber.Some? ==> noteNumber.value < |manager.list|
    modifies manager
    ensures noteNumber.Some? && IsEmptyNote(note) ==>
              manager.list == Removed(old(manager.list), noteNumber.value)
    ensures noteNumber.Some? && !IsEmptyNote(note) ==>
              manager.list == Updated(old(manager.list), note, noteNumber.value)
    ensures noteNumber.None? && !IsEmptyNote(note) ==>
              manager.list == old(manager.list) + [note]
    ensures noteNumber.None? && IsEmptyNote(note) ==>
              manager.list == old(manager.list) && manager.persisted == old(manager.persisted)
              && manager.backup == old(manager.backup)
    ensures noteNumber.Some? || !IsEmptyNote(note) ==> manager.persisted == Some(manager.list)
    ensures noteNumber.Some? && !IsEmptyNote(note) ==> manager.backup == Some(manager.list)
    ensures (noteNumber.Some? && IsEmptyNote(note)) || (noteNumber.None? && !IsEmptyNote(note)) ==>
              manager.backup == if old(manager.persisted).Some? then old(manager.persisted) else old(manager.backup)
    ensures old(manager.Valid()) ==> manager.Valid()
  {
    var isEmpty := CheckEmpty(note);
    if noteNumber.Some? {
      if isEmpty {
        manager.RemoveNote(noteNumber.value);
      } else {
        manager.UpdateNote(note, noteNumber.value);
      }
    } else {
      if !isEmpty {
        manager.AddNote(note);
      }
    }
  }

  /** `NoteWindow.delete_note`: only a note that already exists can be deleted. */
  method DeleteNote(manager: NoteManager, noteNumber: Option<nat>)
    requires noteNumber.Some? ==> noteNumber.value < |manager.list|
    modifies manager
    ensures noteNumber.Some? ==> manager.list == Removed(old(manager.list), noteNumber.value)
                                 && manager.persisted == Some(manager.list)
                                 && manager.backup == if old(manager.persisted).Some? then old(manager.persisted) else old(manager.backup)
    ensures noteNumber.None? ==> manager.list == old(manager.list)
                                 && manager.persisted == old(manager.persisted)
                                 && manager.backup == old(manager.backup)
    ensures old(manager.Valid()) ==> manager.Valid()
  {
    if noteNumber.Some? {
      manager.RemoveNote(noteNumber.value);
    }
  }

  /** Width of a label in the selection window, in characters. */
  const MaxChar: nat := 15

  /** `SelectNote.set_char`: a field cut down to the label width. */
  function SetChar(s: string): (r: string)
    ensures |r| == if |s| < MaxChar then |s| else MaxChar
    ensures r == s[..|r|]
    ensures |s| <= MaxChar ==> r == s
  {
    if |s| > MaxChar then s[..MaxChar] else s
  }
}
