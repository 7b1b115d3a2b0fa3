/**
 * Whole visits to the note view screen: a sequence of events run from a
 * session, and what holds of every such run — what the logs can contain,
 * which dialogs gate which events, and when the screen can throw.
 */
module SessionRuns {
  import opened Wrappers
  import opened ViewNoteScreen

  /** The events handled one by one; a throwing handler ends the run. */
  function Run(s: Session, events: seq<Event>): (r: Outcome)
    ensures r.session.selectedNoteId == s.selectedNoteId
    ensures s.intents <= r.session.intents && s.navs <= r.session.navs
    ensures |r.session.intents| <= |s.intents| + |events|
    decreases |events|
  {
    if events == [] then Running(s)
    else match Step(s, events[0])
      case Running(t) => Run(t, events[1..])
      case Crashed(t) => Crashed(t)
  }

  /** Every logged event is about the note with the selected id. */
  predicate AllAboutSelected(s: Session)
  {
    forall k :: 0 <= k < |s.intents| ==> s.intents[k].note.id == s.selectedNoteId
  }

  /** No event sent to the sink ever carries a note other than the selected one. */
  lemma {:induction false} RunIntentsAboutSelected(s: Session, events: seq<Event>)
    requires AllAboutSelected(s)
    ensures AllAboutSelected(Run(s, events).session)
    decreases |events|
  {
    if events != [] {
      var o := Step(s, events[0]);
      assert AllAboutSelected(o.session) by {
        if |o.session.intents| == |s.intents| + 1 {
          assert s.ResolvedNote().value.id == s.selectedNoteId;
        } else {
          assert o.session.intents == s.intents;
        }
      }
      if o.Running? { RunIntentsAboutSelected(o.session, events[1..]); }
    }
  }

  /** The events after which the screen hands something to the sink. */
  predicate EmitsIntent(e: Event) { e.ChooseEdit? || e.ConfirmExport? || e.ConfirmDelete? }

  /** Without "Edit" or a dialog confirmation, a run sends nothing to the sink. */
  lemma {:induction false} RunQuietWithoutActions(s: Session, events: seq<Event>)
    requires forall k :: 0 <= k < |events| ==> !EmitsIntent(events[k])
    ensures Run(s, events).session.intents == s.intents
    decreases |events|
  {
    if events != [] {
      var o := Step(s, events[0]);
      assert !EmitsIntent(events[0]);
      assert o.session.intents == s.intents;
      if o.Running? { RunQuietWithoutActions(o.session, events[1..]); }
    }
  }

  /** A delete event is pending or has been emitted. */
  predicate DeleteUnderway(s: Session)
  {
    s.showDeleteDialog || exists k :: 0 <= k < |s.intents| && s.intents[k].DeleteNote?
  }

  /** An export dialog is raised or an export event has been emitted. */
  predicate ExportUnderway(s: Session)
  {
    s.showExportDialog || exists k :: 0 <= k < |s.intents| && s.intents[k].ExportNote?
  }

  /** One event other than choosing "Delete" cannot start a deletion. */
  lemma StepDeleteGated(s: Session, e: Event)
    requires !DeleteUnderway(s) && e != ChooseDelete
    ensures !DeleteUnderway(Step(s, e).session)
  {
  }

  /** One event other than choosing "Export" cannot start an export. */
  lemma StepExportGated(s: Session, e: Event)
    requires !ExportUnderway(s) && e != ChooseExport
    ensures !ExportUnderway(Step(s, e).session)
  {
  }

  /**
   * The delete dialog gates deletion: a run in which "Delete" is never chosen
   * neither raises the dialog nor emits a delete event.
   */
  lemma {:induction false} RunDeleteNeedsMenuChoice(s: Session, events: seq<Event>)
    requires !DeleteUnderway(s)
    requires forall k :: 0 <= k < |events| ==> events[k] != ChooseDelete
    ensures !DeleteUnderway(Run(s, events).session)
    decreases |events|
  {
    if events != [] {
      StepDeleteGated(s, events[0]);
      var o := Step(s, events[0]);
      if o.Running? { RunDeleteNeedsMenuChoice(o.session, events[1..]); }
    }
  }

  /**
   * The export dialog gates exporting: a run in which "Export" is never chosen
   * neither raises the dialog nor emits an export event.
   */
  lemma {:induction false} RunExportNeedsMenuChoice(s: Session, events: seq<Event>)
    requires !ExportUnderway(s)
    requires forall k :: 0 <= k < |events| ==> events[k] != ChooseExport
    ensures !ExportUnderway(Run(s, events).session)
    decreases |events|
  {
    if events != [] {
      StepExportGated(s, events[0]);
      var o := Step(s, events[0]);
      if o.Running? { RunExportNeedsMenuChoice(o.session, events[1..]); }
    }
  }

  /**
   * The screen throws only through the unguarded delete confirmation: while
   * every collection it composes with still holds the selected note, no run
   * crashes.
   */
  lemma {:induction false} RunNoCrashWhileNotePresent(s: Session, events: seq<Event>)
    requires s.ResolvedNote().Some?
    requires forall k :: 0 <= k < |events| && events[k].Recompose? ==>
      Resolve(events[k].newNotes, s.selectedNoteId).Some?
    ensures Run(s, events).Running?
    decreases |events|
  {
    if events != [] {
      var o := Step(s, events[0]);
      assert o.Running?;
      assert o.session.ResolvedNote().Some?;
      forall k | 0 <= k < |events[1..]| && events[1..][k].Recompose?
        ensures Resolve(events[1..][k].newNotes, o.session.selectedNoteId).Some?
      {
        assert events[1..][k] == events[k + 1];
      }
      RunNoCrashWhileNotePresent(o.session, events[1..]);
    }
  }

  /**
   * A crash needs the selected note to be missing when deletion is confirmed:
   * either it was missing at the start or some recomposition dropped it.
   */
  lemma {:induction false} RunCrashNeedsMissingNote(s: Session, events: seq<Event>)
    requires Run(s, events).Crashed?
    ensures s.ResolvedNote().None? ||
      exists k :: 0 <= k < |events| && events[k].Recompose? &&
        Resolve(events[k].newNotes, s.selectedNoteId).None?
  {
    if s.ResolvedNote().Some? {
      if forall k :: 0 <= k < |events| && events[k].Recompose? ==>
        Resolve(events[k].newNotes, s.selectedNoteId).Some?
      {
        RunNoCrashWhileNotePresent(s, events);
      }
    }
  }

  /**
   * While the selected note is missing and no recomposition brings it back,
   * nothing reaches the sink: "Edit" only navigates, the export dialog is
   * not rendered, and confirming deletion throws before emitting.
   */
  lemma {:induction false} RunSilentWithoutNote(s: Session, events: seq<Event>)
    requires s.ResolvedNote().None?
    requires forall k :: 0 <= k < |events| ==> !events[k].Recompose?
    ensures Run(s, events).session.intents == s.intents
    decreases |events|
  {
    if events != [] {
      var o := Step(s, events[0]);
      assert !events[0].Recompose?;
      assert o.session.intents == s.intents;
      if o.Running? {
        assert o.session.ResolvedNote().None?;
        RunSilentWithoutNote(o.session, events[1..]);
      }
    }
  }

  /**
   * Every menu item closes the menu. "Edit" navigates to the edit route of the
   * selected id and, when the note resolves, also emits the start-editing
   * event; "Export" raises its dialog and "Delete" toggles its dialog, both
   * without emitting anything.
   */
  lemma MenuItemsCloseMenu(s: Session, e: Event)
    requires s.expanded && e.IsMenuItem()
    ensures Step(s, e).Running? && !Step(s, e).session.expanded
    ensures var t := Step(s, e).session;
      match e
      case ChooseEdit =>
        t.navs == s.navs + [EditNav(s.selectedNoteId)] &&
        t.showDeleteDialog == s.showDeleteDialog && t.showExportDialog == s.showExportDialog &&
        t.intents == s.intents + (if s.ResolvedNote().Some? then [StartEditing(s.ResolvedNote().value)] else [])
      case ChooseExport =>
        t.showExportDialog && t.showDeleteDialog == s.showDeleteDialog &&
        t.navs == s.navs && t.intents == s.intents
      case ChooseDelete =>
        t.showDeleteDialog == !s.showDeleteDialog && t.showExportDialog == s.showExportDialog &&
        t.navs == s.navs && t.intents == s.intents
      case _ => false
  {
  }

  /** The two-note example: deleting the second note from its view screen. */
  lemma DeleteSecondOfTwo()
    ensures
      var a := Note(1, "A", "", 0);
      var b := Note(2, "B", "", 0);
      var s := Initial(2, [a, b]);
      Shown([a, b], 2).title == "B" &&
      Run(s, [TapOverflow, ChooseDelete, ConfirmDelete]) ==
        Running(s.(showDeleteDialog := true, intents := [DeleteNote(b)], navs := [BackToNotesNav()]))
  {
  }

  /**
   * An id no note carries: the screen shows empty text and timestamp 0, the
   * export dialog never appears so nothing is exported, and confirming the
   * delete dialog throws.
   */
  lemma MissingNote(notes: seq<Note>)
    requires forall i :: 0 <= i < |notes| ==> notes[i].id != 99
    ensures Shown(notes, 99) == Display("", "", 0)
    ensures Run(Initial(99, notes), [TapOverflow, ChooseExport, ConfirmExport]).session.intents == []
    ensures Run(Initial(99, notes), [TapOverflow, ChooseDelete, ConfirmDelete]).Crashed?
  {
  }
}
