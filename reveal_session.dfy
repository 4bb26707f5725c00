/**
 * The reveal session: the page's interaction state and the four handlers that
 * change it.  "Generate" makes a secret and cuts it; "next" shows the next
 * segment alone, padded with decoys; "reset" re-cuts the same secret and
 * starts over; "show all" re-cuts it and shows every segment at once.
 */
module RevealSession {
  import opened Wrappers
  import opened Digits
  import opened SequenceGenerator
  import opened Segmenter
  import opened NoiseInterleaver
  import opened SessionState
  import Handlers

  class Session {
    /** The length input field, as typed. */
    var digits: string
    var randomNumber: Option<string>
    var segments: seq<string>
    var displayedParts: seq<SegmentDisplay>
    var currentPartIndex: int
    var showingCompleted: bool
    var showAll: bool

    function Snap(): Snapshot
      reads this
    {
      Snapshot(digits, randomNumber, segments, displayedParts, currentPartIndex, showingCompleted, showAll)
    }

    /** The session invariant holds of the current fields. */
    ghost predicate Valid()
      reads this
    {
      SessionInvariant(Snap())
    }

    constructor ()
      ensures Valid()
      ensures Snap() == Snapshot("6", None, [], [], 0, false, false)
    {
      digits := "6";
      randomNumber := None;
      segments := [];
      displayedParts := [];
      currentPartIndex := 0;
      showingCompleted := false;
      showAll := false;
      assert "6"[..0] == [];
    }

    /** `setDigits(value)` with a value the input handlers have already sanitised. */
    method SetDigits(value: string)
      requires Valid()
      requires IsDigits(value) && (value != [] ==> DecimalValue(value) <= MaxLength)
      modifies this
      ensures Valid()
      ensures Snap() == old(Snap()).(digits := value)
    {
      digits := value;
    }

    /** React's commit of a handler's queued updates: every field takes its new value at once. */
    method Commit(next: Snapshot)
      requires SessionInvariant(next)
      modifies this
      ensures Valid() && Snap() == next
    {
      digits := next.digits;
      randomNumber := next.randomNumber;
      segments := next.segments;
      displayedParts := next.displayedParts;
      currentPartIndex := next.currentPartIndex;
      showingCompleted := next.showingCompleted;
      showAll := next.showAll;
    }

    /** A click on "generate": `Handlers.GenerateNumber` on the fields, then its commit. */
    method GenerateNumber(rng: seq<nat>) returns (ok: bool)
      requires Valid()
      modifies this
      ensures Valid()
      ensures ok == AfterGenerate(old(Snap()), rng).Some?
      ensures Snap() == if ok then AfterGenerate(old(Snap()), rng).value else old(Snap())
    {
      var next;
      ok, next := Handlers.GenerateNumber(Snap(), rng);
      if ok {
        Commit(next);
      }
    }

    /** A click on "reset": `Handlers.ResetDisplay` on the fields, then its commit. */
    method ResetDisplay(rng: seq<nat>) returns (ok: bool)
      requires Valid()
      modifies this
      ensures Valid()
      ensures ok == AfterReset(old(Snap()), rng).Some?
      ensures Snap() == if ok then AfterReset(old(Snap()), rng).value else old(Snap())
    {
      var next;
      ok, next := Handlers.ResetDisplay(Snap(), rng);
      if ok {
        Commit(next);
      }
    }

    /** A click on "next": `Handlers.ShowNextPart` on the fields, then its commit. */
    method ShowNextPart(rng: seq<nat>) returns (ok: bool)
      requires Valid()
      modifies this
      ensures Valid()
      ensures ok == AfterNext(old(Snap()), rng).Some?
      ensures Snap() == if ok then AfterNext(old(Snap()), rng).value else old(Snap())
    {
      var next;
      ok, next := Handlers.ShowNextPart(Snap(), rng);
      if ok {
        Commit(next);
      }
    }

    /** A click on "show all": `Handlers.ShowAllSegments` on the fields, then its commit. */
    method ShowAllSegments(rng: seq<nat>) returns (ok: bool)
      requires Valid()
      modifies this
      ensures Valid()
      ensures ok == AfterShowAll(old(Snap()), rng).Some?
      ensures Snap() == if ok then AfterShowAll(old(Snap()), rng).value else old(Snap())
    {
      var next;
      ok, next := Handlers.ShowAllSegments(Snap(), rng);
      if ok {
        Commit(next);
      }
    }
  }

  /**
   * Clicking "next" once per entry of `draws`, from the start of a reveal,
   * until a click runs out of draws: the session ends in the state `Clicks`
   * describes.  After `shown` clicks the index is `min(shown, |segments|)`,
   * the display holds the group the last revealing click made, the session
   * is completed exactly when `shown` reaches the segment count, the secret
   * and its segments stay, and clicking stopped early only on a click whose
   * draws could not pad the current segment.
   */
  method RevealInTurn(session: Session, draws: seq<seq<nat>>) returns (shown: nat)
    requires session.Valid() && session.currentPartIndex == 0 && !session.showingCompleted
    modifies session
    ensures session.Valid()
    ensures (session.Snap(), shown) == Clicks(old(session.Snap()), draws, 0)
    ensures shown <= |draws| && Clicked(session.Snap(), draws, shown)
    ensures session.segments == old(session.segments) && session.randomNumber == old(session.randomNumber)
    ensures shown < |draws| ==>
      session.currentPartIndex < |session.segments|
      && Padded(session.segments[session.currentPartIndex], draws[shown]).None?
  {
    ghost var start := session.Snap();
    shown := 0;
    while shown < |draws|
      invariant session.Valid() && shown <= |draws|
      invariant Clicks(start, draws, 0) == Clicks(session.Snap(), draws, shown)
    {
      var ok := session.ShowNextPart(draws[shown]);
      if !ok {
        break;
      }
      shown := shown + 1;
    }
    ClicksReveal(start, draws, 0);
  }
}
