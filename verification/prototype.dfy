/** The single-window prototype of index.js: a 100 ms poll that previews the
    first window of the hovered running dock item, re-capturing only when
    that window changes, and a paint handler that shows a square surface
    centred over the item. */
module Prototype {
  import opened Common
  import opened Dock
  import Layout

  /** The prototype's fixed alias table (`app_aliases`). */
  const Aliases: map<string, string> := map["Visual Studio Code" := "Code"]

  const MarginFromDock := 50
  const WindowMargin := 5
  const ContentWidth := 200
  const ContentHeight := 200

  /** The prototype's module variables. `anchor` holds `current_preview_x`,
      `current_preview_y` and `current_preview_width`, which start out
      undefined but are only read once `preview` has been set together with
      them. */
  datatype State = State(
    prevMouse: Point,         // prev_mouse_position
    currentId: Option<int>,   // current_preview_id
    anchor: DockItem,
    preview: Option<Capture>) // preview (null when the capture failed)

  const Initial := State(Point(0, 0), None, DockItem(0, 0, 0), None)

  datatype Reaction = Reaction(state: State, effects: seq<Effect>)

  /** One run of the poll; `captures` maps a window id to its capture, absent
      when the capture returns null. */
  function Tick(s: State, mouse: Point, element: Option<Element>, windows: seq<WindowInfo>, captures: map<int, Capture>): (r: Reaction)
    ensures mouse == s.prevMouse ==> r == Reaction(s, [])
    ensures r.state.prevMouse == mouse
    ensures mouse != s.prevMouse && r.state.currentId.Some? ==>
      && element.Some? && element.value.isDockItem && element.value.running
      && exists w :: w in windows && w.window == r.state.currentId.value && w.name == ResolveName(Aliases, element.value.title)
    ensures forall i :: 0 <= i < |r.effects| && r.effects[i].CaptureWindow? ==>
      && r.state.currentId == Some(r.effects[i].id) != s.currentId
      && r.state.preview == (if r.effects[i].id in captures then Some(captures[r.effects[i].id]) else None)
  {
    if mouse == s.prevMouse then Reaction(s, [])
    else
      var s1 := s.(prevMouse := mouse);
      if element.Some? && element.value.isDockItem && element.value.running then
        var el := element.value;
        match FirstMatch(windows, ResolveName(Aliases, el.title))
        case Some(found) =>
          if s1.currentId != Some(found.window) then
            var img := if found.window in captures then Some(captures[found.window]) else None;
            Reaction(s1.(preview := img, currentId := Some(found.window), anchor := DockItem(el.position.x, el.position.y, el.width)),
                     [ListWindows, CaptureWindow(found.window), Repaint])
          else Reaction(s1, [ListWindows])
        case None => Reaction(s1.(currentId := None), [ListWindows, HideSurface])
      else Reaction(s1.(currentId := None), [HideSurface])
  }

  /** What `onDraw` does when a capture is held: shows the surface at
      `bounds` and paints the background, the border and the image. */
  datatype Frame = Frame(bounds: Bounds, content: Rect, border: Rect, image: Rect, capture: Capture)

  function Draw(s: State): (f: Option<Frame>)
    ensures f.Some? <==> s.preview.Some?
    ensures f.Some? ==> f.value.capture == s.preview.value
  {
    match s.preview
    case None => None
    case Some(img) =>
      var twiceX := 2 * s.anchor.x - (ContentWidth + WindowMargin * 2) + s.anchor.width;
      var y := s.anchor.y - MarginFromDock - ContentHeight - WindowMargin * 2;
      Some(Frame(Bounds(twiceX, y, ContentWidth + WindowMargin * 2, ContentHeight + WindowMargin * 2),
                 Rect(WindowMargin, WindowMargin, ContentWidth, ContentHeight),
                 Rect(WindowMargin, WindowMargin, ContentWidth - 2, ContentHeight - 2),
                 Rect(WindowMargin + 20, WindowMargin + 20, ContentWidth - 40, ContentHeight - 40),
                 img))
  }

  /** A poll with the pointer where it was last time changes nothing. */
  lemma StillPointerIgnored(s: State, element: Option<Element>, windows: seq<WindowInfo>, captures: map<int, Capture>)
    ensures Tick(s, s.prevMouse, element, windows, captures) == Reaction(s, [])
  {
  }

  /** The window previewed is the first window, in window-list order, whose
      owner has the item's (aliased) name; it is captured once, and the
      capture, the item's position and the window id are recorded. */
  lemma NewWindowIsCaptured(s: State, mouse: Point, el: Element, windows: seq<WindowInfo>, captures: map<int, Capture>, j: nat)
    requires mouse != s.prevMouse && el.isDockItem && el.running
    requires j < |windows| && windows[j].name == ResolveName(Aliases, el.title)
    requires forall i :: 0 <= i < j ==> windows[i].name != ResolveName(Aliases, el.title)
    requires s.currentId != Some(windows[j].window)
    ensures var r := Tick(s, mouse, Some(el), windows, captures);
      && r.state.currentId == Some(windows[j].window)
      && r.state.preview == (if windows[j].window in captures then Some(captures[windows[j].window]) else None)
      && r.state.anchor == DockItem(el.position.x, el.position.y, el.width)
      && r.effects == [ListWindows, CaptureWindow(windows[j].window), Repaint]
  {
  }

  /** Hovering the item whose window is already previewed lists the windows
      but does not capture again, and changes nothing but the pointer. */
  lemma SameWindowNotRecaptured(s: State, mouse: Point, el: Element, windows: seq<WindowInfo>, captures: map<int, Capture>)
    requires mouse != s.prevMouse && el.isDockItem && el.running
    requires FirstMatch(windows, ResolveName(Aliases, el.title)).Some?
    requires s.currentId == Some(FirstMatch(windows, ResolveName(Aliases, el.title)).value.window)
    ensures Tick(s, mouse, Some(el), windows, captures) == Reaction(s.(prevMouse := mouse), [ListWindows])
  {
  }

  /** Off the dock, over an item that is not running, or over one with no
      window, the surface is hidden at once and the previewed window
      forgotten, so the next hover captures afresh. */
  lemma NothingToPreviewHides(s: State, mouse: Point, element: Option<Element>, windows: seq<WindowInfo>, captures: map<int, Capture>)
    requires mouse != s.prevMouse
    requires !(element.Some? && element.value.isDockItem && element.value.running)
             || forall w :: w in windows ==> w.name != ResolveName(Aliases, element.value.title)
    ensures var r := Tick(s, mouse, element, windows, captures);
      && r.state == s.(prevMouse := mouse, currentId := None)
      && r.effects[|r.effects| - 1] == HideSurface
      && forall i :: 0 <= i < |r.effects| ==> !r.effects[i].CaptureWindow?
  {
  }

  /** The painted surface is a 210-pixel square centred over the item, its
      bottom edge 50 pixels above the item's top; the 200-pixel background
      fills the surface less its margin, the border is pulled in by its
      2-pixel line, and the 160-pixel image is inset 20 pixels into the
      background. */
  lemma DrawGeometry(s: State)
    requires s.preview.Some?
    ensures var f := Draw(s).value;
      && f.bounds.width == f.bounds.height == ContentWidth + 2 * WindowMargin
      && f.bounds.twiceX + f.bounds.width == 2 * s.anchor.x + s.anchor.width
      && f.bounds.y + f.bounds.height + MarginFromDock == s.anchor.y
      && Within(f.content, Rect(0, 0, f.bounds.width, f.bounds.height))
      && Within(f.border, f.content) && Within(f.image, f.content)
      && f.content.Right() + WindowMargin == f.bounds.width
      && f.content == Rect(5, 5, 200, 200)
      && f.border == Rect(5, 5, 198, 198)
      && f.image == Rect(25, 25, 160, 160)
  {
  }

  /** The prototype and the multi-window controller place the surface
      alike: for the same item and one thumbnail, the same top edge, the
      same height and the same horizontal centre. */
  lemma PlacedLikeController(s: State)
    requires s.preview.Some?
    ensures var b := Draw(s).value.bounds;
      var c := Layout.SurfaceBounds(1, s.anchor);
      && b.y == c.y && b.height == c.height
      && b.twiceX + b.width == c.twiceX + c.width
  {
  }

  /** The window the prototype previews is the controller's primary window:
      the owner of the first thumbnail `lib/preview.js` would keep. */
  lemma PreviewsControllerPrimaryWindow(s: State, mouse: Point, el: Element, windows: seq<WindowInfo>, captures: map<int, Capture>)
    requires mouse != s.prevMouse && el.isDockItem && el.running
    requires |Matches(windows, ResolveName(Aliases, el.title))| > 0
    ensures var r := Tick(s, mouse, Some(el), windows, captures);
      r.state.currentId == Some(Matches(windows, ResolveName(Aliases, el.title))[0].window)
  {
    FirstMatchIsFirstOfMatches(windows, ResolveName(Aliases, el.title));
  }
}
