/**
  The journal entry record and its update-merge rule (models/entry.go).

  Timestamps are abstract clock readings: the model never reads a clock, the
  caller supplies the reading `now`.
 */
module Models {

  /** A clock reading; larger means later. */
  type Time = int

  /** One journal entry, a value: copying it copies every field. */
  datatype Entry = Entry(ID: string, Title: string, Content: string, Created: Time, Updated: Time)

  /** The timestamp invariant every stored entry is meant to keep. */
  predicate WellTimed(e: Entry) {
    e.Created <= e.Updated
  }

  /**
    The entry that `UpdateEntry(title, content)` leaves behind when the clock
    reads `now`: an empty argument keeps the stored field, a non-empty one
    replaces it, and `Updated` moves to `now` only if some field was supplied.
   */
  function Merge(e: Entry, title: string, content: string, now: Time): (r: Entry)
    ensures r.ID == e.ID && r.Created == e.Created
    ensures title != "" ==> r.Title == title
    ensures title == "" ==> r.Title == e.Title
    ensures content != "" ==> r.Content == content
    ensures content == "" ==> r.Content == e.Content
    ensures title != "" || content != "" ==> r.Updated == now
    ensures title == "" && content == "" ==> r == e
  {
    var changed := |title| > 0 || |content| > 0;
    e.(Title := if |title| > 0 then title else e.Title,
       Content := if |content| > 0 then content else e.Content,
       Updated := if changed then now else e.Updated)
  }

  /** Updating twice with the same arguments is updating once, at the later time. */
  lemma MergeIdempotent(e: Entry, title: string, content: string, now1: Time, now2: Time)
    ensures Merge(Merge(e, title, content, now1), title, content, now2) == Merge(e, title, content, now2)
    ensures Merge(Merge(e, title, content, now1), title, content, now2).Title == Merge(e, title, content, now1).Title
    ensures Merge(Merge(e, title, content, now1), title, content, now2).Content == Merge(e, title, content, now1).Content
  {
  }

  /** With a clock that does not run backwards, an update keeps `Created <= Updated`. */
  lemma MergeKeepsWellTimed(e: Entry, title: string, content: string, now: Time)
    requires WellTimed(e) && e.Updated <= now
    ensures WellTimed(Merge(e, title, content, now))
    ensures e.Updated <= Merge(e, title, content, now).Updated
  {
  }

  /**
    An addressable `Entry` variable: the receiver `*Entry` of `UpdateEntry`,
    whose fields the method overwrites in place.
   */
  class EntryVar {
    var ID: string
    var Title: string
    var Content: string
    var Created: Time
    var Updated: Time

    /** The entry value currently held in the variable. */
    function Value(): (e: Entry)
      reads this
    {
      Entry(ID, Title, Content, Created, Updated)
    }

    constructor (e: Entry)
      ensures Value() == e
    {
      ID, Title, Content, Created, Updated := e.ID, e.Title, e.Content, e.Created, e.Updated;
    }

    /** Merges `title` and `content` into the entry; `now` is the clock reading. */
    method UpdateEntry(title: string, content: string, now: Time)
      modifies this
      ensures Value() == Merge(old(Value()), title, content, now)
      ensures ID == old(ID) && Created == old(Created)
      ensures Title == (if title != "" then title else old(Title))
      ensures Content == (if content != "" then content else old(Content))
      ensures Updated == (if title != "" || content != "" then now else old(Updated))
      ensures old(Created <= Updated) && old(Updated) <= now ==> Created <= Updated
    {
      var isUpdated := false;
      if |title| > 0 {
        Title := title;
        isUpdated := true;
      }
      if |content| > 0 {
        Content := content;
        isUpdated := true;
      }
      if isUpdated {
        Updated := now;
      }
    }
  }
}
