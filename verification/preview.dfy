/** The multi-window preview controller of lib/preview.js: a 100 ms poll of
    the pointer over the dock, the preview surface's pointer handlers, the
    delayed hide, and what the surface paints. Every handler is a pure step
    from the controller's state and the event's inputs to the next state
    and the native calls made, in order. */
module Preview {
  import opened Common
  import opened Dock
  import opened Layout

  /** A pointer position inside the preview surface (`positionInView`). */
  datatype ViewPoint = ViewPoint(x: nat, y: nat)

  /** The controller's closure variables. `hidePending` is
      `hide_preview_timeout !== undefined`; `None` is `undefined`. */
  datatype State = State(
    showing: bool,              // showing_preview
    mouseInside: bool,          // mouse_inside_preview_window
    hidePending: bool,          // a hide timer is armed
    prevMouse: Point,           // prev_global_mouse_position
    previewMouse: ViewPoint,    // preview_mouse_position
    currentPid: Option<int>,    // current_pid
    currentName: Option<string>,// current_name
    currentWindows: seq<Thumb>, // current_windows
    dockItem: DockItem)         // current_dock_item

  const Initial := State(false, false, false, Point(0, 0), ViewPoint(0, 0), None, None, [], DockItem(0, 0, 0))

  /** The next state and the calls made on the way, in order. */
  datatype Reaction = Reaction(state: State, effects: seq<Effect>)

  /** What the controller reacts to. A `Tick` carries what the native layer
      reports during that poll: the pointer, the element under it, the
      window list and, per window id, the capture (absent when the capture
      returns null). */
  datatype Event =
    | Tick(mouse: Point, element: Option<Element>, windows: seq<WindowInfo>, captures: map<int, Capture>)
    | PointerEnter
    | PointerMove(at: ViewPoint)
    | PointerLeave
    | PointerDown(at: ViewPoint)
    | HideTimerFired

  /** `if (current_pid)`: a pid is truthy unless undefined or 0. */
  predicate Tracked(pid: Option<int>)
  {
    pid.Some? && pid.value != 0
  }

  function Prepend(calls: seq<Effect>, r: Reaction): Reaction
  {
    Reaction(r.state, calls + r.effects)
  }

  /** `hidePreview`: only a tracked session is torn down; the thumbnails, the
      dock item and the pointer bookkeeping are kept. */
  function HidePreview(s: State): (r: Reaction)
    ensures r.state.currentWindows == s.currentWindows && r.state.dockItem == s.dockItem
    ensures r.state.prevMouse == s.prevMouse && r.state.mouseInside == s.mouseInside
    ensures Tracked(s.currentPid) ==>
      r == Reaction(s.(hidePending := false, showing := false, currentName := None, currentPid := None), [HideSurface])
    ensures !Tracked(s.currentPid) ==> r == Reaction(s, [])
  {
    if Tracked(s.currentPid) then
      Reaction(s.(hidePending := false, showing := false, currentName := None, currentPid := None), [HideSurface])
    else Reaction(s, [])
  }

  /** `hidePreviewDelay`: arms the 500 ms hide only when none is armed and a
      session is tracked. */
  function HidePreviewDelay(s: State): (r: Reaction)
    ensures r.state == s.(hidePending := s.hidePending || Tracked(s.currentPid))
    ensures ArmHideTimer in r.effects <==> !s.hidePending && Tracked(s.currentPid)
  {
    if !s.hidePending && Tracked(s.currentPid) then Reaction(s.(hidePending := true), [ArmHideTimer])
    else Reaction(s, [])
  }

  /** `showPreview`: cancels a pending hide and shows the strip of `windows`
      centred over `dock`. */
  function ShowPreview(s: State, pid: int, dock: DockItem, windows: seq<Thumb>): (r: Reaction)
    ensures r.state.showing && !r.state.hidePending
    ensures r.state.currentPid == Some(pid) && r.state.currentWindows == windows && r.state.dockItem == dock
    ensures r.state.currentName == s.currentName && r.state.prevMouse == s.prevMouse
    ensures r.effects == [ShowSurface(SurfaceBounds(|windows|, dock))]
  {
    Reaction(s.(hidePending := false, showing := true, dockItem := dock, currentPid := Some(pid), currentWindows := windows),
             [ShowSurface(SurfaceBounds(|windows|, dock))])
  }

  /** The part of the poll that runs when the pointer is over a dock item. */
  function OnDockItem(s: State, aliases: map<string, string>, el: Element, windows: seq<WindowInfo>, captures: map<int, Capture>): (r: Reaction)
    ensures s.currentName == Some(ResolveName(aliases, el.title)) ==> r == Reaction(s, [])
    ensures r.state.currentName == Some(ResolveName(aliases, el.title)) || (r.state.currentName.None? && !r.state.showing)
    ensures r.state.prevMouse == s.prevMouse && r.state.mouseInside == s.mouseInside && r.state.previewMouse == s.previewMouse
    ensures r.state.currentWindows != s.currentWindows ==> r.state.showing && |r.state.currentWindows| > 0
    ensures ArmHideTimer !in r.effects
  {
    var name := ResolveName(aliases, el.title);
    if s.currentName == Some(name) then Reaction(s, [])
    else
      var s1 := s.(currentName := Some(name));
      if !el.running then HidePreview(s1)
      else
        var found := Matches(windows, name);
        if |found| == 0 then Prepend([ListWindows], HidePreview(s1))
        else
          var thumbs := Captured(found, captures);
          var calls := [ListWindows] + CaptureCalls(found);
          if |thumbs| == 0 then Reaction(s1, calls)
          else Prepend(calls, ShowPreview(s1, found[0].pid, DockItem(el.position.x, el.position.y, el.width), thumbs))
  }

  /** One run of the 100 ms poll. */
  function OnTick(s: State, aliases: map<string, string>, mouse: Point, element: Option<Element>,
                  windows: seq<WindowInfo>, captures: map<int, Capture>): (r: Reaction)
    ensures s.mouseInside || mouse == s.prevMouse ==> r == Reaction(s, [])
    ensures r.state.mouseInside == s.mouseInside && r.state.previewMouse == s.previewMouse
    ensures !s.mouseInside ==> r.state.prevMouse == mouse
    ensures !(element.Some? && element.value.isDockItem) ==>
      && r.state.showing == s.showing && r.state.currentWindows == s.currentWindows
      && (r.state.hidePending <==> s.hidePending || (!s.mouseInside && mouse != s.prevMouse && s.showing && Tracked(s.currentPid)))
  {
    if s.mouseInside then Reaction(s, [])
    else if mouse == s.prevMouse then Reaction(s, [])
    else
      var s1 := s.(prevMouse := mouse);
      if element.Some? && element.value.isDockItem then OnDockItem(s1, aliases, element.value, windows, captures)
      else if s1.showing && !s1.hidePending then HidePreviewDelay(s1)
      else Reaction(s1, [])
  }

  /** The thrown `TypeError` of reading `.id` of a missing entry. */
  datatype Fault = NoWindowAt(index: nat)

  /** `onMouseDown` as written: the index is not checked against the number
      of thumbnails, so a press past the last one throws before anything is
      raised or hidden. */
  function OnPointerDownAsWritten(s: State, at: ViewPoint): (r: Result<Reaction, Fault>)
    ensures r.Failure? <==> MouseToPreviewIndex(at.x) >= |s.currentWindows|
  {
    var index := MouseToPreviewIndex(at.x);
    if index < |s.currentWindows| then
      Success(Prepend([RaiseWindow(s.currentPid, s.currentWindows[index].id, index)], HidePreview(s)))
    else Failure(NoWindowAt(index))
  }

  /** `onMouseDown` with the evident intent: a press over a thumbnail cell
      raises that window and hides the preview; a press that names no
      window is ignored. */
  function OnPointerDown(s: State, at: ViewPoint): (r: Reaction)
    ensures MouseToPreviewIndex(at.x) >= |s.currentWindows| ==> r == Reaction(s, [])
  {
    var index := MouseToPreviewIndex(at.x);
    if index < |s.currentWindows| then
      Prepend([RaiseWindow(s.currentPid, s.currentWindows[index].id, index)], HidePreview(s))
    else Reaction(s, [])
  }

  /** The controller's reaction to one event. */
  function Step(s: State, aliases: map<string, string>, ev: Event): (r: Reaction)
    ensures r.state.mouseInside != s.mouseInside ==> ev.PointerEnter? || ev.PointerLeave?
    ensures !ev.PointerMove? ==> r.state.previewMouse == s.previewMouse
    ensures !ev.Tick? ==> r.state.currentWindows == s.currentWindows && r.state.prevMouse == s.prevMouse
    ensures ArmHideTimer in r.effects ==> ev.Tick?
    ensures ev.HideTimerFired? && !s.hidePending ==> r == Reaction(s, [])
  {
    match ev
    case Tick(mouse, element, windows, captures) => OnTick(s, aliases, mouse, element, windows, captures)
    case PointerEnter => Reaction(s.(hidePending := false, mouseInside := true), [Activate])
    case PointerMove(at) => Reaction(s.(previewMouse := at), [Repaint])
    case PointerLeave => Reaction(s.(mouseInside := false), [])
    case PointerDown(at) => OnPointerDown(s, at)
    case HideTimerFired => if s.hidePending then HidePreview(s) else Reaction(s, [])
  }

  /** A thumbnail as painted: where, and which capture. */
  datatype Painted = Painted(rect: Rect, image: Capture)

  /** What `onDraw` paints: the background strip, the highlighted cell under
      the pointer, the border and the thumbnails. */
  datatype Frame = Frame(content: Rect, hover: Rect, border: Rect, thumbs: seq<Painted>)

  /** `onDraw`: nothing is painted while there are no thumbnails. */
  function Draw(s: State): (f: Option<Frame>)
    ensures f.Some? <==> |s.currentWindows| > 0
    ensures f.Some? ==> |f.value.thumbs| == |s.currentWindows|
    ensures f.Some? ==> forall i :: 0 <= i < |f.value.thumbs| ==> f.value.thumbs[i].image == s.currentWindows[i].image
  {
    var n := |s.currentWindows|;
    if n == 0 then None
    else
      Some(Frame(ContentRect(n), HoverRect(MouseToPreviewIndex(s.previewMouse.x)), BorderRect(n),
                 seq(n, i requires 0 <= i < n => Painted(ThumbRect(i), s.currentWindows[i].image))))
  }
}
