/**
 * The note view screen of the notes app: resolving the selected note, the
 * three remembered UI flags (overflow menu, delete dialog, export dialog), and
 * the click handlers that flip them and emit note events and navigation
 * requests.
 *
 * The pure part is `Resolve`, `Shown` and the transition function `Step` over
 * a `Session` value; the class `ViewSession` holds the same state in mutable
 * fields, and each of its handlers is proved to perform exactly one `Step`.
 */
module ViewNoteScreen {
  import opened Wrappers

  /** A note as the screen reads it; `id` is the note's `Long` identifier. */
  datatype Note = Note(id: int, title: string, content: string, lastModified: int)

  /** The note events the screen hands to its `onEvent` sink. */
  datatype Intent =
    | DeleteNote(note: Note)
    | ExportNote(note: Note)
    | StartEditing(note: Note)

  /** Navigation destinations the screen names. */
  datatype Route = NotesRoute | EditNoteRoute(noteId: int)

  /** The `popUpTo(route) { inclusive = … }` option of a navigation request. */
  datatype PopUpTo = PopUpTo(route: Route, inclusive: bool)

  /** A request made of the navigation controller. */
  datatype Nav =
    | PopBackStack
    | Navigate(route: Route, popUpTo: Option<PopUpTo>)

  /** What the screen renders from the resolved note. */
  datatype Display = Display(title: string, content: string, lastModified: int)

  /**
   * The screen's note lookup: the FIRST note of the collection whose id is
   * `id`, or none when there is no such note (in particular for an empty
   * collection).
   */
  function Resolve(notes: seq<Note>, id: int): (r: Option<Note>)
    ensures r.None? <==> forall i :: 0 <= i < |notes| ==> notes[i].id != id
    ensures r.Some? ==> r.value.id == id
    ensures r.Some? ==> exists i :: 0 <= i < |notes| && notes[i] == r.value && FirstWithId(notes, id, i)
  {
    if notes == [] then None
    else if notes[0].id == id then Some(notes[0])
    else
      var r := Resolve(notes[1..], id);
      assert r.Some? ==> exists i :: 0 <= i < |notes| && notes[i] == r.value && FirstWithId(notes, id, i) by {
        if r.Some? {
          var i :| 0 <= i < |notes[1..]| && notes[1..][i] == r.value && FirstWithId(notes[1..], id, i);
          assert notes[i + 1] == r.value;
          forall j | 0 <= j < i + 1 ensures notes[j].id != id {
            if j > 0 { assert notes[j] == notes[1..][j - 1]; }
          }
          assert FirstWithId(notes, id, i + 1);
        }
      }
      r
  }

  /** The note at index `i` carries `id`, and no earlier note does. */
  predicate FirstWithId(notes: seq<Note>, id: int, i: nat)
  {
    i < |notes| && notes[i].id == id && forall j :: 0 <= j < i ==> notes[j].id != id
  }

  /** No two notes of the collection share an id. */
  predicate UniqueIds(notes: seq<Note>)
  {
    forall i, j :: 0 <= i < j < |notes| ==> notes[i].id != notes[j].id
  }

  /** In a collection with unique ids, the lookup finds the one note carrying the id. */
  lemma ResolveUnique(notes: seq<Note>, k: nat)
    requires UniqueIds(notes)
    requires k < |notes|
    ensures Resolve(notes, notes[k].id) == Some(notes[k])
  {
  }

  /**
   * The title, content and timestamp the screen shows: those of the resolved
   * note, or "", "" and 0 when no note carries the selected id.
   */
  function Shown(notes: seq<Note>, id: int): (d: Display)
    ensures (forall i :: 0 <= i < |notes| ==> notes[i].id != id) ==> d == Display("", "", 0)
    ensures forall i: nat | FirstWithId(notes, id, i) ::
      d == Display(notes[i].title, notes[i].content, notes[i].lastModified)
  {
    match Resolve(notes, id)
    case None => Display("", "", 0)
    case Some(n) => Display(n.title, n.content, n.lastModified)
  }

  /**
   * The state of one visit to the screen: the selected id (fixed at entry),
   * the collection the screen last composed with, the three remembered flags,
   * and the logs of everything handed to the event sink and the navigator.
   */
  datatype Session = Session(
    selectedNoteId: int,
    notes: seq<Note>,
    expanded: bool,
    showDeleteDialog: bool,
    showExportDialog: bool,
    intents: seq<Intent>,
    navs: seq<Nav>)
  {
    /** The note the current composition resolves, `note` in ViewNoteScreen.kt. */
    function ResolvedNote(): Option<Note> { Resolve(notes, selectedNoteId) }
  }

  /** A screen just entered: every flag false, nothing emitted. */
  function Initial(selectedNoteId: int, notes: seq<Note>): Session
  {
    Session(selectedNoteId, notes, false, false, false, [], [])
  }

  /** What can happen to the screen: a new collection from the state holder, or a click. */
  datatype Event =
    | Recompose(newNotes: seq<Note>)
    | TapBack
    | TapOverflow
    | DismissMenu
    | ChooseEdit
    | ChooseExport
    | ChooseDelete
    | ConfirmExport
    | DismissExport
    | ConfirmDelete
    | DismissDelete
  {
    predicate IsMenuItem() { ChooseEdit? || ChooseExport? || ChooseDelete? }
  }

  /**
   * Whether the widget an event belongs to is on screen: the menu and its items
   * only while `expanded`, the delete dialog while `showDeleteDialog`, the
   * export dialog while `showExportDialog` and the note resolves.
   */
  predicate Rendered(s: Session, e: Event)
  {
    match e
    case Recompose(_) => true
    case TapBack => true
    case TapOverflow => true
    case DismissMenu => s.expanded
    case ChooseEdit => s.expanded
    case ChooseExport => s.expanded
    case ChooseDelete => s.expanded
    case ConfirmExport => s.showExportDialog && s.ResolvedNote().Some?
    case DismissExport => s.showExportDialog && s.ResolvedNote().Some?
    case ConfirmDelete => s.showDeleteDialog
    case DismissDelete => s.showDeleteDialog
  }

  /** The result of handling one event: the screen goes on, or the handler threw. */
  datatype Outcome = Running(session: Session) | Crashed(session: Session)

  /** The route the "Edit" item navigates to. */
  function EditNav(id: int): Nav { Navigate(EditNoteRoute(id), None) }

  /** Navigation to the notes list, popping the back stack up to and including it. */
  function BackToNotesNav(): Nav { Navigate(NotesRoute, Some(PopUpTo(NotesRoute, true))) }

  /**
   * One event handled against the session. A click on a widget that is not
   * rendered changes nothing. Confirming deletion with no resolved note
   * throws (the `note!!` of ViewNoteScreen.kt), leaving the session as it was.
   */
  function Step(s: Session, e: Event): (r: Outcome)
    ensures r.session.selectedNoteId == s.selectedNoteId
    ensures s.intents <= r.session.intents && |r.session.intents| <= |s.intents| + 1
    ensures s.navs <= r.session.navs && |r.session.navs| <= |s.navs| + 1
    ensures r.Crashed? <==> e == ConfirmDelete && s.showDeleteDialog && s.ResolvedNote().None?
    ensures r.Crashed? ==> r.session == s
    ensures !Rendered(s, e) ==> r == Running(s)
    ensures |r.session.intents| == |s.intents| + 1 ==>
      s.ResolvedNote().Some? && r.session.intents[|s.intents|].note == s.ResolvedNote().value
    ensures !e.Recompose? ==> r.session.notes == s.notes
  {
    if !Rendered(s, e) then Running(s)
    else match e
      case Recompose(ns) => Running(s.(notes := ns))
      case TapBack => Running(s.(navs := s.navs + [PopBackStack]))
      case TapOverflow => Running(s.(expanded := true))
      case DismissMenu => Running(s.(expanded := false))
      case ChooseEdit =>
        var started := match s.ResolvedNote() case Some(n) => [StartEditing(n)] case None => [];
        Running(s.(expanded := false, intents := s.intents + started,
                   navs := s.navs + [EditNav(s.selectedNoteId)]))
      case ChooseExport => Running(s.(expanded := false, showExportDialog := true))
      case ChooseDelete => Running(s.(expanded := false, showDeleteDialog := !s.showDeleteDialog))
      case ConfirmExport =>
        Running(s.(expanded := false, showExportDialog := false,
                   intents := s.intents + [ExportNote(s.ResolvedNote().value)]))
      case DismissExport => Running(s.(showExportDialog := false))
      case ConfirmDelete =>
        if s.ResolvedNote().None? then Crashed(s)
        else Running(s.(intents := s.intents + [DeleteNote(s.ResolvedNote().value)],
                        navs := s.navs + [BackToNotesNav()]))
      case DismissDelete => Running(s.(showDeleteDialog := false))
  }

  /**
   * The screen's remembered state, updated in place by its click handlers.
   * `notes` is the collection of the latest composition; `note` in ViewNoteScreen.kt
   * is recomputed from it on every composition, here by `State().ResolvedNote()`.
   */
  class ViewSession {
    const selectedNoteId: int
    var notes: seq<Note>
    var expanded: bool
    var showDeleteDialog: bool
    var showExportDialog: bool
    var intents: seq<Intent>
    var navs: seq<Nav>

    function State(): Session
      reads this
    {
      Session(selectedNoteId, notes, expanded, showDeleteDialog, showExportDialog, intents, navs)
    }

    /** Entering the screen: menu closed, both dialogs hidden, nothing emitted. */
    constructor (selectedNoteId: int, notes: seq<Note>)
      ensures this.selectedNoteId == selectedNoteId && this.notes == notes
      ensures !expanded && !showDeleteDialog && !showExportDialog
      ensures intents == [] && navs == []
      ensures State() == Initial(selectedNoteId, notes)
    {
      this.selectedNoteId := selectedNoteId;
      this.notes := notes;
      expanded, showDeleteDialog, showExportDialog := false, false, false;
      intents, navs := [], [];
    }

    /** The state holder publishes a new collection; the screen recomposes with it. */
    method Recompose(newNotes: seq<Note>)
      modifies this
      ensures notes == newNotes
      ensures expanded == old(expanded) && showDeleteDialog == old(showDeleteDialog)
      ensures showExportDialog == old(showExportDialog)
      ensures intents == old(intents) && navs == old(navs)
      ensures Step(old(State()), Event.Recompose(newNotes)) == Running(State())
    {
      notes := newNotes;
    }

    /** The back arrow: pops the back stack, touches no flag. */
    method TapBack()
      modifies this
      ensures navs == old(navs) + [PopBackStack]
      ensures expanded == old(expanded) && showDeleteDialog == old(showDeleteDialog)
      ensures showExportDialog == old(showExportDialog)
      ensures notes == old(notes) && intents == old(intents)
      ensures Step(old(State()), Event.TapBack) == Running(State())
    {
      navs := navs + [PopBackStack];
    }

    /** The overflow icon opens the menu and does nothing else. */
    method TapOverflow()
      modifies this
      ensures expanded
      ensures showDeleteDialog == old(showDeleteDialog) && showExportDialog == old(showExportDialog)
      ensures notes == old(notes) && intents == old(intents) && navs == old(navs)
      ensures Step(old(State()), Event.TapOverflow) == Running(State())
    {
      expanded := true;
    }

    /** The menu's dismiss request closes it and does nothing else. */
    method DismissMenu()
      requires expanded
      modifies this
      ensures !expanded
      ensures showDeleteDialog == old(showDeleteDialog) && showExportDialog == old(showExportDialog)
      ensures notes == old(notes) && intents == old(intents) && navs == old(navs)
      ensures Step(old(State()), Event.DismissMenu) == Running(State())
    {
      expanded := false;
    }

    /**
     * "Edit": closes the menu, starts editing the note when it resolved, and
     * always navigates to the edit route of the selected id.
     */
    method ChooseEdit()
      requires expanded
      modifies this
      ensures !expanded
      ensures showDeleteDialog == old(showDeleteDialog) && showExportDialog == old(showExportDialog)
      ensures intents == old(intents) + (match State().ResolvedNote() case Some(n) => [StartEditing(n)] case None => [])
      ensures navs == old(navs) + [EditNav(selectedNoteId)]
      ensures notes == old(notes)
      ensures Step(old(State()), Event.ChooseEdit) == Running(State())
    {
      expanded := false;
      var note := Resolve(notes, selectedNoteId);
      if note.Some? {
        intents := intents + [StartEditing(note.value)];
      }
      navs := navs + [EditNav(selectedNoteId)];
    }

    /** "Export": closes the menu and raises the export dialog flag. */
    method ChooseExport()
      requires expanded
      modifies this
      ensures !expanded && showExportDialog
      ensures showDeleteDialog == old(showDeleteDialog)
      ensures notes == old(notes) && intents == old(intents) && navs == old(navs)
      ensures Step(old(State()), Event.ChooseExport) == Running(State())
    {
      expanded := false;
      showExportDialog := true;
    }

    /** "Delete": closes the menu and TOGGLES the delete dialog flag. */
    method ChooseDelete()
      requires expanded
      modifies this
      ensures !expanded && showDeleteDialog == !old(showDeleteDialog)
      ensures showExportDialog == old(showExportDialog)
      ensures notes == old(notes) && intents == old(intents) && navs == old(navs)
      ensures Step(old(State()), Event.ChooseDelete) == Running(State())
    {
      expanded := false;
      showDeleteDialog := !showDeleteDialog;
    }

    /**
     * Confirming the export dialog (rendered only while the note resolves):
     * exactly one export event for the note, menu and dialog closed.
     */
    method ConfirmExport()
      requires showExportDialog && State().ResolvedNote().Some?
      modifies this
      ensures !expanded && !showExportDialog
      ensures intents == old(intents) + [ExportNote(old(State().ResolvedNote()).value)]
      ensures showDeleteDialog == old(showDeleteDialog)
      ensures notes == old(notes) && navs == old(navs)
      ensures Step(old(State()), Event.ConfirmExport) == Running(State())
    {
      var note := Resolve(notes, selectedNoteId);
      expanded := false;
      intents := intents + [ExportNote(note.value)];
      showExportDialog := false;
    }

    /** Cancelling or dismissing the export dialog hides it and emits nothing. */
    method DismissExport()
      requires showExportDialog && State().ResolvedNote().Some?
      modifies this
      ensures !showExportDialog
      ensures expanded == old(expanded) && showDeleteDialog == old(showDeleteDialog)
      ensures notes == old(notes) && intents == old(intents) && navs == old(navs)
      ensures Step(old(State()), Event.DismissExport) == Running(State())
    {
      showExportDialog := false;
    }

    /**
     * Confirming the delete dialog: with a resolved note, exactly one delete
     * event for it and a navigation to the notes list that pops this screen;
     * without one, the handler throws and nothing changes (`crashed`). The
     * dialog flag is left as it was: the screen is left by the navigation.
     */
    method ConfirmDelete() returns (crashed: bool)
      requires showDeleteDialog
      modifies this
      ensures crashed <==> old(State().ResolvedNote()).None?
      ensures crashed ==> unchanged(this)
      ensures !crashed ==> intents == old(intents) + [DeleteNote(old(State().ResolvedNote()).value)]
      ensures !crashed ==> navs == old(navs) + [BackToNotesNav()]
      ensures expanded == old(expanded) && showDeleteDialog == old(showDeleteDialog)
      ensures showExportDialog == old(showExportDialog) && notes == old(notes)
      ensures crashed ==> Step(old(State()), Event.ConfirmDelete) == Crashed(State())
      ensures !crashed ==> Step(old(State()), Event.ConfirmDelete) == Running(State())
    {
      var note := Resolve(notes, selectedNoteId);
      if note.None? {
        crashed := true;
        return;
      }
      crashed := false;
      intents := intents + [DeleteNote(note.value)];
      navs := navs + [BackToNotesNav()];
    }

    /** Cancelling or dismissing the delete dialog hides it and emits nothing. */
    method DismissDelete()
      requires showDeleteDialog
      modifies this
      ensures !showDeleteDialog
      ensures expanded == old(expanded) && showExportDialog == old(showExportDialog)
      ensures notes == old(notes) && intents == old(intents) && navs == old(navs)
      ensures Step(old(State()), Event.DismissDelete) == Running(State())
    {
      showDeleteDialog := false;
    }
  }
}
