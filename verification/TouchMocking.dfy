// The touch-mocking part of launcherwindow.cpp: mouse events and Ctrl+F become touch events.
module TouchMocking {

  datatype PointState = Pressed | Moved | Stationary | Released

  // Id 0 follows the mouse, id 1 the keyboard. Positions and pressure do not matter here.
  datatype Point = Point(id: nat, state: PointState)

  datatype Kind = TouchBegin | TouchUpdate | TouchEnd
  datatype Touch = Touch(kind: Kind, points: seq<Point>)

  // What the window sees; switching mocking on or off counts as an event too.
  datatype Event =
    | MousePress | MouseDoubleClick | MouseRelease | MouseMove(leftButton: bool)
    | ControlF | Other | SetMocking(on: bool)

  // ---------------------------------------------------------------- what the code computes

  datatype Tracker = Tracker(points: seq<Point>, mocking: bool, sent: seq<Touch>)

  const INITIAL: Tracker := Tracker([], false, [])

  function KindOf(points: seq<Point>): Kind
    requires points != []
  {
    if |points| == 1 && points[0].state == Released then TouchEnd
    else if |points| == 1 && points[0].state == Pressed then TouchBegin
    else TouchUpdate
  }

  function RemoveAt<T>(s: seq<T>, i: nat): seq<T>
    requires i < |s|
  {
    s[..i] + s[i + 1..]
  }

  // Released points go after the event; the second test sees the list as the first left it.
  function DropReleased(points: seq<Point>): seq<Point>
    requires points != []
  {
    var rest := if points[0].state == Released then RemoveAt(points, 0) else points;
    if |rest| > 1 && rest[1].state == Released then RemoveAt(rest, 1) else rest
  }

  function Send(t: Tracker): Tracker {
    if t.points == [] then t
    else t.(points := DropReleased(t.points), sent := t.sent + [Touch(KindOf(t.points), t.points)])
  }

  function MouseState(e: Event): PointState {
    if e.MousePress? || e.MouseDoubleClick? then Pressed else if e.MouseRelease? then Released else Moved
  }

  // Update the point with this id among the first two, or append it.
  function PutPoint(points: seq<Point>, p: Point): seq<Point> {
    if |points| > 0 && points[0].id == p.id then points[0 := p]
    else if |points| > 1 && points[1].id == p.id then points[1 := p]
    else points + [p]
  }

  predicate HasPoint(points: seq<Point>, id: nat) {
    (|points| > 0 && points[0].id == id) || (|points| > 1 && points[1].id == id)
  }

  predicate MouseEvent(e: Event) {
    e.MousePress? || e.MouseDoubleClick? || e.MouseRelease? || (e.MouseMove? && e.leftButton)
  }

  function Next(t: Tracker, e: Event): Tracker {
    if e.SetMocking? then t.(mocking := e.on)
    else if !t.mocking then t
    else if MouseEvent(e) then Send(t.(points := PutPoint(t.points, Point(0, MouseState(e)))))
    else if e.ControlF? then
      if HasPoint(t.points, 1) then Send(t.(points := PutPoint(t.points, Point(1, Released))))
      else
        var r := Send(t.(points := t.points + [Point(1, Pressed)]));
        if r.points == [] then r
        else r.(points := r.points[|r.points| - 1 := r.points[|r.points| - 1].(state := Stationary)])
    else t
  }

  function Run(t: Tracker, events: seq<Event>): Tracker
    decreases |events|
  {
    if events == [] then t else Run(Next(t, events[0]), events[1..])
  }

  // ---------------------------------------------------------------- the code

  class LauncherWindow {
    var touchPoints: seq<Point>
    var touchMocking: bool
    var sent: seq<Touch>

    ghost function Value(): Tracker
      reads this
    {
      Tracker(touchPoints, touchMocking, sent)
    }

    constructor ()
      ensures Value() == INITIAL
    {
      touchPoints, touchMocking, sent := [], false, [];
    }

    method SendTouchEvent()
      modifies this
      ensures Value() == Send(old(Value()))
    {
      if touchPoints == [] {
        return;
      }
      var kind := TouchUpdate;
      if |touchPoints| == 1 {
        if touchPoints[0].state == Released {
          kind := TouchEnd;
        } else if touchPoints[0].state == Pressed {
          kind := TouchBegin;
        }
      }
      sent := sent + [Touch(kind, touchPoints)];
      if touchPoints[0].state == Released {
        touchPoints := RemoveAt(touchPoints, 0);
      }
      if |touchPoints| > 1 && touchPoints[1].state == Released {
        touchPoints := RemoveAt(touchPoints, 1);
      }
    }

    method SetTouchMocking(on: bool)
      modifies this`touchMocking
      ensures Value() == Next(old(Value()), SetMocking(on))
    {
      touchMocking := on;
    }

    method EventFilter(e: Event)
      requires !e.SetMocking?
      modifies this
      ensures Value() == Next(old(Value()), e)
    {
      if !touchMocking {
        return;
      }
      if MouseEvent(e) {
        var point := Point(0, MouseState(e));
        if |touchPoints| > 0 && touchPoints[0].id == 0 {
          touchPoints := touchPoints[0 := point];
        } else if |touchPoints| > 1 && touchPoints[1].id == 0 {
          touchPoints := touchPoints[1 := point];
        } else {
          touchPoints := touchPoints + [point];
        }
        SendTouchEvent();
      } else if e.ControlF? {
        if |touchPoints| > 0 && touchPoints[0].id == 1 {
          touchPoints := touchPoints[0 := touchPoints[0].(state := Released)];
          SendTouchEvent();
        } else if |touchPoints| > 1 && touchPoints[1].id == 1 {
          touchPoints := touchPoints[1 := touchPoints[1].(state := Released)];
          SendTouchEvent();
        } else {
          touchPoints := touchPoints + [Point(1, Pressed)];
          SendTouchEvent();
          if touchPoints != [] {
            var last := |touchPoints| - 1;
            touchPoints := touchPoints[last := touchPoints[last].(state := Stationary)];
          }
        }
      }
    }
  }

  // ---------------------------------------------------------------- every run

  // At most the mouse point and the keyboard point, each once, neither released; the keyboard point
  // is at rest.
  ghost predicate Tidy(points: seq<Point>) {
    && |points| <= 2
    && (forall i | 0 <= i < |points| ::
          if points[i].id == 1 then points[i].state == Stationary
          else points[i].id == 0 && (points[i].state == Pressed || points[i].state == Moved))
    && (|points| == 2 ==> points[0].id != points[1].id)
  }

  lemma NextTidy(t: Tracker, e: Event)
    requires Tidy(t.points)
    ensures Tidy(Next(t, e).points)
  {
  }

  lemma {:induction false} RunTidy(t: Tracker, events: seq<Event>)
    requires Tidy(t.points)
    ensures Tidy(Run(t, events).points)
    decreases |events|
  {
    if events != [] {
      NextTidy(t, events[0]);
      RunTidy(Next(t, events[0]), events[1..]);
    }
  }

  // ---------------------------------------------------------------- what is sent

  // `after` is `before` with the point of this id replaced where it was, or added at the end.
  ghost predicate Puts(before: seq<Point>, point: Point, after: seq<Point>) {
    || (exists i | 0 <= i < |before| :: before[i].id == point.id && after == before[i := point])
    || ((forall i | 0 <= i < |before| :: before[i].id != point.id) && after == before + [point])
  }

  function Unreleased(points: seq<Point>): seq<Point> {
    if points == [] then []
    else (if points[0].state == Released then [] else [points[0]]) + Unreleased(points[1..])
  }

  // A begin shows its one point pressed, an end its one point released; anything else is an update.
  predicate KindFits(touch: Touch) {
    && (touch.kind == TouchBegin <==> |touch.points| == 1 && touch.points[0].state == Pressed)
    && (touch.kind == TouchEnd <==> |touch.points| == 1 && touch.points[0].state == Released)
  }

  // One event was sent from t to r. It shows this point in its new state and the other points as
  // they were, a released one included.
  ghost predicate SentOne(t: Tracker, point: Point, r: Tracker) {
    && |r.sent| == |t.sent| + 1 && r.sent == t.sent + [r.sent[|t.sent|]]
    && Puts(t.points, point, r.sent[|t.sent|].points) && KindFits(r.sent[|t.sent|])
    && r.mocking == t.mocking
  }

  // Of two points at most one may be released: of two released ones the second would stay.
  lemma DropIsUnreleased(points: seq<Point>)
    requires 1 <= |points| <= 2
    ensures DropReleased(points) == Unreleased(points) <==>
            !(|points| == 2 && points[0].state == Released && points[1].state == Released)
  {
    assert points[0..] == points;
    if |points| == 2 {
      assert points[1..] == [points[1]];
      assert points == [points[0], points[1]];
    } else {
      assert points == [points[0]];
    }
  }

  // Every press, release and drag of the mouse sends its point, and a released point goes afterwards.
  lemma MouseLaw(t: Tracker, e: Event, state: PointState)
    requires Tidy(t.points) && t.mocking
    requires match e
             case MousePress => state == Pressed
             case MouseDoubleClick => state == Pressed
             case MouseRelease => state == Released
             case MouseMove(left) => left && state == Moved
             case _ => false
    ensures var r := Next(t, e);
            SentOne(t, Point(0, state), r) && r.points == Unreleased(r.sent[|t.sent|].points)
  {
    DropIsUnreleased(PutPoint(t.points, Point(0, state)));
  }

  // Ctrl+F sends the keyboard's point: pressed if it was not there, which leaves it at rest, and
  // released if it was.
  lemma KeyLaw(t: Tracker)
    requires Tidy(t.points) && t.mocking
    ensures var r := Next(t, ControlF);
            if exists i | 0 <= i < |t.points| :: t.points[i].id == 1
            then SentOne(t, Point(1, Released), r) && r.points == Unreleased(r.sent[|t.sent|].points)
            else SentOne(t, Point(1, Pressed), r) && r.points == t.points + [Point(1, Stationary)]
  {
    if HasPoint(t.points, 1) {
      DropIsUnreleased(PutPoint(t.points, Point(1, Released)));
    } else {
      assert (t.points + [Point(1, Pressed)])[|t.points| := Point(1, Stationary)] == t.points + [Point(1, Stationary)];
    }
  }

  // Nothing else sends or changes anything, and without mocking nothing does.
  lemma OthersIgnored(t: Tracker, e: Event)
    requires !e.SetMocking? && (!t.mocking || e.Other? || (e.MouseMove? && !e.leftButton))
    ensures Next(t, e) == t
  {
  }

  // Switching mocking leaves points and events alone.
  lemma SwitchLaw(t: Tracker, on: bool)
    ensures var r := Next(t, SetMocking(on)); r.mocking == on && r.points == t.points && r.sent == t.sent
  {
  }

  // ---------------------------------------------------------------- begin and end

  // From t to r TouchBegin was sent exactly if the first point appeared, TouchEnd exactly if the last
  // one went, and at most one event in all.
  ghost predicate Follows(t: Tracker, r: Tracker) {
    && t.sent <= r.sent && |r.sent| <= |t.sent| + 1
    && ((|r.sent| > |t.sent| && r.sent[|t.sent|].kind == TouchBegin) <==> t.points == [] && r.points != [])
    && ((|r.sent| > |t.sent| && r.sent[|t.sent|].kind == TouchEnd) <==> t.points != [] && r.points == [])
  }

  ghost predicate Proper(t: Tracker, e: Event) {
    Follows(t, Next(t, e))
  }

  // A mouse that moves or is released without having been pressed, with no other point down; or one
  // that is pressed again while it is the only point.
  predicate IllNested(t: Tracker, e: Event) {
    && t.mocking && MouseEvent(e)
    && if e.MousePress? || e.MouseDoubleClick? then |t.points| == 1 && t.points[0].id == 0 else t.points == []
  }

  // That is exactly when an event breaks the begin and end protocol.
  lemma ProperIffWellNested(t: Tracker, e: Event)
    requires Tidy(t.points)
    ensures Proper(t, e) <==> !IllNested(t, e)
  {
  }

  // The begins and ends among the events sent.
  function Marks(sent: seq<Touch>): seq<Kind> {
    if sent == [] then []
    else
      var before, kind := Marks(sent[..|sent| - 1]), sent[|sent| - 1].kind;
      if kind == TouchUpdate then before else before + [kind]
  }

  ghost predicate Alternating(marks: seq<Kind>) {
    forall i | 0 <= i < |marks| :: marks[i] == if i % 2 == 0 then TouchBegin else TouchEnd
  }

  // Begins and ends alternate, and a begin is open exactly while there is a point.
  ghost predicate InStep(t: Tracker) {
    Alternating(Marks(t.sent)) && (t.points != [] <==> |Marks(t.sent)| % 2 == 1)
  }

  lemma FollowsInStep(t: Tracker, r: Tracker)
    requires InStep(t) && Follows(t, r)
    ensures InStep(r)
  {
    if |r.sent| > |t.sent| {
      assert r.sent[..|r.sent| - 1] == t.sent;
    } else {
      assert r.sent == t.sent;
    }
  }

  lemma NextInStep(t: Tracker, e: Event)
    requires Tidy(t.points) && InStep(t) && !IllNested(t, e)
    ensures InStep(Next(t, e))
  {
    ProperIffWellNested(t, e);
    FollowsInStep(t, Next(t, e));
  }

  // Every event of the run sends begin and end exactly on the first and on the last point.
  ghost predicate AllProper(t: Tracker, events: seq<Event>)
    decreases |events|
  {
    events == [] || (Proper(t, events[0]) && AllProper(Next(t, events[0]), events[1..]))
  }

  ghost predicate NeverIllNested(t: Tracker, events: seq<Event>)
    decreases |events|
  {
    events == [] || (!IllNested(t, events[0]) && NeverIllNested(Next(t, events[0]), events[1..]))
  }

  // A run keeps the protocol throughout if and only if none of its events is ill nested.
  lemma {:induction false} AllProperIffNeverIllNested(t: Tracker, events: seq<Event>)
    requires Tidy(t.points)
    ensures AllProper(t, events) <==> NeverIllNested(t, events)
    decreases |events|
  {
    if events != [] {
      ProperIffWellNested(t, events[0]);
      NextTidy(t, events[0]);
      AllProperIffNeverIllNested(Next(t, events[0]), events[1..]);
    }
  }

  // Such events do occur: a drag with nothing down, right after mocking is switched on, sends an
  // update for a first point.
  lemma DragBreaksProtocol()
    ensures var t := Next(INITIAL, SetMocking(true));
            IllNested(t, MouseMove(true)) && !Proper(t, MouseMove(true))
    ensures !AllProper(INITIAL, [SetMocking(true), MouseMove(true)])
  {
    var t, e := Next(INITIAL, SetMocking(true)), MouseMove(true);
    ProperIffWellNested(t, e);
    assert [SetMocking(true), e][1..] == [e];
  }

  // Over any run without ill-nested events TouchBegin and TouchEnd alternate.
  lemma {:induction false} RunInStep(t: Tracker, events: seq<Event>)
    requires Tidy(t.points) && InStep(t) && NeverIllNested(t, events)
    ensures InStep(Run(t, events))
    decreases |events|
  {
    if events != [] {
      NextTidy(t, events[0]);
      NextInStep(t, events[0]);
      RunInStep(Next(t, events[0]), events[1..]);
    }
  }

  // Presses, drags and releases of the mouse nest, and mocking is not switched off.
  predicate WellNested(events: seq<Event>, down: bool)
    decreases |events|
  {
    if events == [] then true
    else
      match events[0]
      case MousePress => !down && WellNested(events[1..], true)
      case MouseDoubleClick => !down && WellNested(events[1..], true)
      case MouseMove(left) => (left ==> down) && WellNested(events[1..], down)
      case MouseRelease => down && WellNested(events[1..], false)
      case SetMocking(on) => on && WellNested(events[1..], down)
      case _ => WellNested(events[1..], down)
  }

  // With mocking on from the start, nesting of the mouse events alone is enough.
  lemma {:induction false} NestingSuffices(t: Tracker, events: seq<Event>, down: bool)
    requires Tidy(t.points) && t.mocking && HasPoint(t.points, 0) == down && WellNested(events, down)
    ensures NeverIllNested(t, events)
    decreases |events|
  {
    if events != [] {
      NextTidy(t, events[0]);
      var down' := if events[0].MousePress? || events[0].MouseDoubleClick? then true
                   else if events[0].MouseRelease? then false else down;
      NestingSuffices(Next(t, events[0]), events[1..], down');
    }
  }

  // The whole claim, from the moment mocking is switched on.
  lemma TouchProtocol(events: seq<Event>)
    requires WellNested(events, false)
    ensures AllProper(Next(INITIAL, SetMocking(true)), events)
    ensures var t := Run(Next(INITIAL, SetMocking(true)), events);
            Tidy(t.points) && Alternating(Marks(t.sent)) && (t.points != [] <==> |Marks(t.sent)| % 2 == 1)
  {
    var t := Next(INITIAL, SetMocking(true));
    NestingSuffices(t, events, false);
    AllProperIffNeverIllNested(t, events);
    RunTidy(t, events);
    RunInStep(t, events);
  }
}
