/**
 * The buffer-age bookkeeping of the xrender backend's present path, as a pure
 * state machine. With vsync the backend renders into one of two back buffers
 * (slot 0 or 1, `currBack`), presents it through the Present extension and
 * waits for the completion event; each slot carries the age of its contents
 * in frames, or Unknown. Buffer index 2 is the scratch buffer, whose age
 * is written once at initialisation and never read.
 */
module Presentation {
  import opened X

  /** The age of a slot whose contents are unknown (the backend writes -1). */
  const Unknown: int := -1

  /** The fields of struct _xrender_data that present and buffer_age touch. */
  datatype PresentState = PresentState(vsync: bool, currBack: int, ages: seq<int>)
  {
    ghost predicate WellFormed()
    {
      |ages| == 3 && (currBack == 0 || currBack == 1)
    }
  }

  /**
   * What happened to one vsync present: the PresentPixmap request failed, the
   * wait for a special event returned nothing, or a PresentCompleteNotify arrived.
   */
  datatype PresentOutcome = RequestError | NoEvent | Completed(mode: CompleteMode)

  /** An age a caller may see: Unknown or a positive number of frames. */
  predicate AgeSane(age: int)
  {
    age == Unknown || age >= 1
  }

  /** Under vsync both double-buffer slots hold sane ages. */
  ghost predicate SlotsSane(s: PresentState)
    requires s.WellFormed()
  {
    s.vsync ==> AgeSane(s.ages[0]) && AgeSane(s.ages[1])
  }

  /**
   * The state backend_xrender_init leaves: the zeroed record with the ages of
   * the allocated buffers set to Unknown (buffers 0 to 2 with vsync, only the
   * scratch buffer without), and slot 0 active.
   */
  function InitialState(vsync: bool): (s: PresentState)
    ensures s.WellFormed() && SlotsSane(s) && s.vsync == vsync && s.currBack == 0
    ensures vsync ==> s.ages[0] == Unknown && s.ages[1] == Unknown
  {
    if vsync then PresentState(true, 0, [Unknown, Unknown, Unknown])
    else PresentState(false, 0, [0, 0, Unknown])
  }

  /** The bookkeeping of one call of present. */
  function Step(s: PresentState, o: PresentOutcome): (t: PresentState)
    requires s.WellFormed()
    ensures t.WellFormed() && t.vsync == s.vsync && t.ages[2] == s.ages[2]
    ensures SlotsSane(s) ==> SlotsSane(t)
  {
    if !s.vsync then s
    else
      match o
      case RequestError => s
      case NoEvent => s.(ages := s.ages[0 := Unknown][1 := Unknown])
      case Completed(mode) =>
        var k := s.currBack;
        var shown := s.ages[k := 1];
        var aged := if shown[1 - k] > 0 then shown[1 - k := shown[1 - k] + 1] else shown;
        s.(ages := aged, currBack := if mode == ModeFlip then 1 - k else k)
  }

  /** buffer_age: the age of the buffer the next frame will be drawn into. */
  function ReportedAge(s: PresentState): (age: int)
    requires s.WellFormed()
    ensures !s.vsync ==> age == 1
    ensures s.vsync ==> age == s.ages[s.currBack]
    ensures SlotsSane(s) ==> AgeSane(age)
  {
    if !s.vsync then 1 else s.ages[s.currBack]
  }

  /**
   * A completed present: the shown slot becomes 1 frame old, the other slot
   * ages by one frame unless its age is Unknown, and the active slot changes
   * exactly when the server flipped.
   */
  lemma PresentCompleted(s: PresentState, mode: CompleteMode)
    requires s.WellFormed() && s.vsync
    ensures var t, k := Step(s, Completed(mode)), s.currBack;
      && t.ages[k] == 1
      && t.ages[1 - k] == (if s.ages[1 - k] > 0 then s.ages[1 - k] + 1 else s.ages[1 - k])
      && (t.currBack == 1 - k <==> mode == ModeFlip)
      && (t.currBack == k <==> mode != ModeFlip)
  {
  }

  /** A failed PresentPixmap request leaves the bookkeeping as it was. */
  lemma PresentRequestErrorKeepsState(s: PresentState)
    requires s.WellFormed()
    ensures Step(s, RequestError) == s
  {
  }

  /** A lost completion event makes both slots Unknown and keeps the active slot. */
  lemma PresentLostEventResetsAges(s: PresentState)
    requires s.WellFormed() && s.vsync
    ensures var t := Step(s, NoEvent);
      t.ages[0] == Unknown && t.ages[1] == Unknown && t.currBack == s.currBack
  {
  }

  /** Without vsync present draws straight to the target and keeps no bookkeeping. */
  lemma PresentWithoutVsyncKeepsState(s: PresentState, o: PresentOutcome)
    requires s.WellFormed() && !s.vsync
    ensures Step(s, o) == s && ReportedAge(Step(s, o)) == 1
  {
  }

  /**
   * The first present after a vsync initialisation: slot 0 is 1 frame old,
   * slot 1 stays Unknown, and after a flip the age reported for the next frame
   * is Unknown (full repaint), after a copy it is 1.
   */
  lemma FirstPresentAfterInit(mode: CompleteMode)
    ensures var t := Step(InitialState(true), Completed(mode));
      && t.ages[0] == 1 && t.ages[1] == Unknown
      && ReportedAge(t) == (if mode == ModeFlip then Unknown else 1)
  {
  }

  /** A sequence of present calls. */
  function Run(s: PresentState, outcomes: seq<PresentOutcome>): (t: PresentState)
    requires s.WellFormed()
    ensures t.WellFormed() && t.vsync == s.vsync
    ensures SlotsSane(s) ==> SlotsSane(t)
    decreases |outcomes|
  {
    if outcomes == [] then s else Run(Step(s, outcomes[0]), outcomes[1..])
  }

  // A reference meaning for the ages: the sequence of slots that were shown,
  // and, for each slot, the number of frames presented since it was last shown.

  /** The index of the last entry of `h` equal to `slot`, or -1 when there is none. */
  function LastIndex(h: seq<int>, slot: int): (i: int)
    ensures -1 <= i < |h|
    ensures i >= 0 <==> slot in h
    ensures i >= 0 ==> h[i] == slot
  {
    if h == [] then -1
    else if h[|h| - 1] == slot then |h| - 1
    else LastIndex(h[..|h| - 1], slot)
  }

  /** 1 if `slot` was shown by the last present, 2 if by the one before, ..., Unknown if never. */
  function FramesSince(h: seq<int>, slot: int): (age: int)
    ensures age != 0 && AgeSane(age)
    ensures age == Unknown <==> slot !in h
  {
    var i := LastIndex(h, slot);
    if i < 0 then Unknown else |h| - i
  }

  ghost predicate AgesMatch(s: PresentState, h: seq<int>)
    requires s.WellFormed()
  {
    s.ages[0] == FramesSince(h, 0) && s.ages[1] == FramesSince(h, 1)
  }

  /**
   * The history after one present: a completed present appends the slot it
   * showed; a lost event forgets everything, since the server's state is unknown.
   */
  function NextHistory(s: PresentState, o: PresentOutcome, h: seq<int>): seq<int>
    requires s.WellFormed()
  {
    if !s.vsync then h
    else
      match o
      case RequestError => h
      case NoEvent => []
      case Completed(_) => h + [s.currBack]
  }

  function RunHistory(s: PresentState, outcomes: seq<PresentOutcome>, h: seq<int>): seq<int>
    requires s.WellFormed()
    decreases |outcomes|
  {
    if outcomes == [] then h
    else RunHistory(Step(s, outcomes[0]), outcomes[1..], NextHistory(s, outcomes[0], h))
  }

  lemma LastIndexAppend(h: seq<int>, k: int, slot: int)
    ensures LastIndex(h + [k], slot) == if slot == k then |h| else LastIndex(h, slot)
  {
    assert (h + [k])[..|h|] == h;
  }

  /** One present keeps each slot's age equal to the frames since it was last shown. */
  lemma StepFollowsHistory(s: PresentState, o: PresentOutcome, h: seq<int>)
    requires s.WellFormed() && s.vsync && AgesMatch(s, h)
    ensures AgesMatch(Step(s, o), NextHistory(s, o, h))
  {
    if o.Completed? {
      LastIndexAppend(h, s.currBack, 0);
      LastIndexAppend(h, s.currBack, 1);
    }
  }

  /** Any sequence of presents keeps the ages equal to the frames since each slot was shown. */
  lemma {:induction false} RunFollowsHistory(s: PresentState, outcomes: seq<PresentOutcome>, h: seq<int>)
    requires s.WellFormed() && s.vsync && AgesMatch(s, h)
    ensures AgesMatch(Run(s, outcomes), RunHistory(s, outcomes, h))
    decreases |outcomes|
  {
    if outcomes != [] {
      StepFollowsHistory(s, outcomes[0], h);
      RunFollowsHistory(Step(s, outcomes[0]), outcomes[1..], NextHistory(s, outcomes[0], h));
    }
  }

  /**
   * After vsync initialisation and any sequence of presents, buffer_age reports
   * the number of frames since the buffer about to be drawn into was last shown,
   * or Unknown, and never 0.
   */
  lemma ReportedAgeIsFramesSinceShown(outcomes: seq<PresentOutcome>)
    ensures var t := Run(InitialState(true), outcomes);
      && ReportedAge(t) == FramesSince(RunHistory(InitialState(true), outcomes, []), t.currBack)
      && ReportedAge(t) != 0
  {
    RunFollowsHistory(InitialState(true), outcomes, []);
  }
}
