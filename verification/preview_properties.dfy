/** What the preview controller guarantees across its handlers: the state
    invariant every step keeps, the surface's visibility agreeing with
    `showing_preview`, when the native layer is queried, when the hide timer
    is armed, and what a hover, a press and a paint do. */
module PreviewProperties {
  import opened Common
  import opened Dock
  import opened Layout
  import opened Preview

  /** A hide is pending only for a visible, tracked session, and a visible
      session always has thumbnails to paint. */
  predicate Inv(s: State)
  {
    && (s.hidePending ==> s.showing && Tracked(s.currentPid))
    && (s.showing ==> |s.currentWindows| > 0)
  }

  lemma InitialInv()
    ensures Inv(Initial)
    ensures !Initial.showing && !Initial.hidePending && Initial.currentName.None?
  {
  }

  lemma OnDockItemPreservesInv(s: State, aliases: map<string, string>, el: Element, windows: seq<WindowInfo>, captures: map<int, Capture>)
    requires Inv(s)
    ensures Inv(OnDockItem(s, aliases, el, windows, captures).state)
  {
  }

  /** Every handler keeps the invariant. */
  lemma StepPreservesInv(s: State, aliases: map<string, string>, ev: Event)
    requires Inv(s)
    ensures Inv(Step(s, aliases, ev).state)
  {
    if ev.Tick? && ev.element.Some? && ev.element.value.isDockItem && !s.mouseInside && ev.mouse != s.prevMouse {
      OnDockItemPreservesInv(s.(prevMouse := ev.mouse), aliases, ev.element.value, ev.windows, ev.captures);
    }
  }

  /** Whether the surface is visible after the calls in `effects`, when it
      was `visible` before them. */
  function VisibleAfter(effects: seq<Effect>, visible: bool): bool
  {
    if |effects| == 0 then visible
    else VisibleAfter(effects[1..], if effects[0].ShowSurface? then true else if effects[0].HideSurface? then false else visible)
  }

  /** Calls that neither show nor hide the surface leave its visibility. */
  lemma {:induction false} VisibleAfterQuietPrefix(calls: seq<Effect>, rest: seq<Effect>, visible: bool)
    requires forall i :: 0 <= i < |calls| ==> !calls[i].ShowSurface? && !calls[i].HideSurface?
    ensures VisibleAfter(calls + rest, visible) == VisibleAfter(rest, visible)
  {
    if |calls| > 0 {
      assert (calls + rest)[0] == calls[0];
      assert (calls + rest)[1..] == calls[1..] + rest;
      assert forall i :: 0 <= i < |calls[1..]| ==> calls[1..][i] == calls[i + 1];
      VisibleAfterQuietPrefix(calls[1..], rest, visible);
    } else {
      assert calls + rest == rest;
    }
  }

  /** `showing_preview` always agrees with the surface's visibility: a step
      that shows the surface sets it, one that hides it clears it, and any
      other step leaves it alone. */
  lemma ShowingMirrorsSurface(s: State, aliases: map<string, string>, ev: Event)
    ensures VisibleAfter(Step(s, aliases, ev).effects, s.showing) == Step(s, aliases, ev).state.showing
  {
    match ev {
      case Tick(mouse, element, windows, captures) =>
        if !s.mouseInside && mouse != s.prevMouse && element.Some? && element.value.isDockItem {
          var s1 := s.(prevMouse := mouse);
          var name := ResolveName(aliases, element.value.title);
          if s1.currentName != Some(name) && element.value.running {
            var s2 := s1.(currentName := Some(name));
            var found := Matches(windows, name);
            var calls := [ListWindows] + CaptureCalls(found);
            if |found| == 0 {
              VisibleAfterQuietPrefix([ListWindows], HidePreview(s2).effects, s.showing);
            } else {
              VisibleAfterQuietPrefix(calls, [], s.showing);
              assert calls + [] == calls;
              var thumbs := Captured(found, captures);
              if |thumbs| > 0 {
                var shown := ShowPreview(s2, found[0].pid, DockItem(element.value.position.x, element.value.position.y, element.value.width), thumbs);
                VisibleAfterQuietPrefix(calls, shown.effects, s.showing);
                assert shown.effects[1..] == [];
                assert VisibleAfter(shown.effects, s.showing);
                assert Step(s, aliases, ev) == Prepend(calls, shown);

              }
            }
          }
        }
      case PointerDown(at) =>
        var index := MouseToPreviewIndex(at.x);
        if index < |s.currentWindows| {
          VisibleAfterQuietPrefix([RaiseWindow(s.currentPid, s.currentWindows[index].id, index)], HidePreview(s).effects, s.showing);
        }
      case _ =>
    }
  }

  /** While the pointer is over the surface, polls change nothing. */
  lemma PollIgnoredWhilePointerInside(s: State, aliases: map<string, string>, mouse: Point, element: Option<Element>,
                                      windows: seq<WindowInfo>, captures: map<int, Capture>)
    requires s.mouseInside
    ensures Step(s, aliases, Tick(mouse, element, windows, captures)) == Reaction(s, [])
  {
  }

  /** A poll with the pointer where it was at the last poll changes nothing. */
  lemma PollIgnoredWhenPointerStill(s: State, aliases: map<string, string>, element: Option<Element>,
                                    windows: seq<WindowInfo>, captures: map<int, Capture>)
    ensures Step(s, aliases, Tick(s.prevMouse, element, windows, captures)) == Reaction(s, [])
  {
  }

  /** Hovering the item whose windows were last looked up only records the
      pointer: no window list, no capture, and a pending hide stays
      pending. */
  lemma SameItemOnlyRecordsPointer(s: State, aliases: map<string, string>, mouse: Point, el: Element,
                                   windows: seq<WindowInfo>, captures: map<int, Capture>)
    requires !s.mouseInside && mouse != s.prevMouse && el.isDockItem
    requires s.currentName == Some(ResolveName(aliases, el.title))
    ensures Step(s, aliases, Tick(mouse, Some(el), windows, captures)) == Reaction(s.(prevMouse := mouse), [])
    ensures Step(s, aliases, Tick(mouse, Some(el), windows, captures)).state.hidePending == s.hidePending
  {
  }

  /** The window list and the captures are fetched only by a poll that finds
      the pointer moved onto a running dock item other than the one last
      looked up, and then in the order: window list, one capture per
      matching window. */
  lemma ProviderCallsOnlyForNewItem(s: State, aliases: map<string, string>, ev: Event)
    ensures var r := Step(s, aliases, ev);
      (exists i :: 0 <= i < |r.effects| && IsProviderCall(r.effects[i])) ==>
        && ev.Tick? && !s.mouseInside && ev.mouse != s.prevMouse
        && ev.element.Some? && ev.element.value.isDockItem && ev.element.value.running
        && s.currentName != Some(ResolveName(aliases, ev.element.value.title))
        && r.effects[..1 + |Matches(ev.windows, ResolveName(aliases, ev.element.value.title))|]
           == [ListWindows] + CaptureCalls(Matches(ev.windows, ResolveName(aliases, ev.element.value.title)))
  {
    var r := Step(s, aliases, ev);
    if ev.PointerDown? && MouseToPreviewIndex(ev.at.x) < |s.currentWindows| {
      assert forall i :: 0 <= i < |r.effects| ==> !IsProviderCall(r.effects[i]);
    }
    if ev.Tick? && !s.mouseInside && ev.mouse != s.prevMouse && ev.element.Some? && ev.element.value.isDockItem {
      var name := ResolveName(aliases, ev.element.value.title);
      var found := Matches(ev.windows, name);
      if s.currentName != Some(name) && ev.element.value.running && |found| > 0 {
        assert r.effects[..1 + |found|] == [ListWindows] + CaptureCalls(found);
      }
    }
  }

  /** Hovering a new running item with at least one capturable window shows
      those windows, in window-list order, for the owner of the first
      matching window, centred over the item, and cancels any pending
      hide. */
  lemma HoverShowsMatchingWindows(s: State, aliases: map<string, string>, mouse: Point, el: Element,
                                  windows: seq<WindowInfo>, captures: map<int, Capture>)
    requires !s.mouseInside && mouse != s.prevMouse && el.isDockItem && el.running
    requires s.currentName != Some(ResolveName(aliases, el.title))
    requires |Captured(Matches(windows, ResolveName(aliases, el.title)), captures)| > 0
    ensures var name := ResolveName(aliases, el.title);
      var found := Matches(windows, name);
      var r := Step(s, aliases, Tick(mouse, Some(el), windows, captures));
      && r.state.showing && !r.state.hidePending
      && r.state.currentName == Some(name)
      && FirstMatch(windows, name).Some?
      && r.state.currentPid == Some(FirstMatch(windows, name).value.pid)
      && r.state.currentWindows == Captured(found, captures)
      && r.state.dockItem == DockItem(el.position.x, el.position.y, el.width)
      && r.effects == [ListWindows] + CaptureCalls(found)
                      + [ShowSurface(SurfaceBounds(|r.state.currentWindows|, r.state.dockItem))]
  {
    FirstMatchIsFirstOfMatches(windows, ResolveName(aliases, el.title));
  }

  /** When every capture fails, the poll neither shows nor hides anything:
      only the pointer and the item's name are recorded. */
  lemma FailedCapturesKeepSurface(s: State, aliases: map<string, string>, mouse: Point, el: Element,
                                  windows: seq<WindowInfo>, captures: map<int, Capture>)
    requires !s.mouseInside && mouse != s.prevMouse && el.isDockItem && el.running
    requires s.currentName != Some(ResolveName(aliases, el.title))
    requires |Matches(windows, ResolveName(aliases, el.title))| > 0
    requires forall w :: w in Matches(windows, ResolveName(aliases, el.title)) ==> w.window !in captures
    ensures var name := ResolveName(aliases, el.title);
      var r := Step(s, aliases, Tick(mouse, Some(el), windows, captures));
      && r.state == s.(prevMouse := mouse, currentName := Some(name))
      && r.effects == [ListWindows] + CaptureCalls(Matches(windows, name))
  {
  }

  /** A new dock item that is not running, or has no window, hides a tracked
      preview at once; an untracked one is left as it is, with the item's
      name recorded. */
  lemma NothingToShowHidesAtOnce(s: State, aliases: map<string, string>, mouse: Point, el: Element,
                                 windows: seq<WindowInfo>, captures: map<int, Capture>)
    requires !s.mouseInside && mouse != s.prevMouse && el.isDockItem
    requires s.currentName != Some(ResolveName(aliases, el.title))
    requires !el.running || forall w :: w in windows ==> w.name != ResolveName(aliases, el.title)
    ensures var r := Step(s, aliases, Tick(mouse, Some(el), windows, captures));
      && (Tracked(s.currentPid) ==> !r.state.showing && !r.state.hidePending && r.state.currentPid.None?
                                    && r.state.currentName.None? && HideSurface in r.effects)
      && (!Tracked(s.currentPid) ==> r.state == s.(prevMouse := mouse, currentName := Some(ResolveName(aliases, el.title)))
                                     && HideSurface !in r.effects)
  {
    var found := Matches(windows, ResolveName(aliases, el.title));
    if |found| > 0 {
      assert found[0] in found;
    }
  }

  /** Moving off the dock starts the delayed hide of a visible preview,
      unless one is already pending; nothing is hidden yet. */
  lemma LeavingDockArmsHide(s: State, aliases: map<string, string>, mouse: Point, element: Option<Element>,
                            windows: seq<WindowInfo>, captures: map<int, Capture>)
    requires Inv(s)
    requires !s.mouseInside && mouse != s.prevMouse
    requires !(element.Some? && element.value.isDockItem)
    ensures var r := Step(s, aliases, Tick(mouse, element, windows, captures));
      && r.state == s.(prevMouse := mouse, hidePending := s.hidePending || (s.showing && Tracked(s.currentPid)))
      && r.state.showing == s.showing
      && (r.effects == [ArmHideTimer] <==> s.showing && !s.hidePending && Tracked(s.currentPid))
      && (r.effects == [] <==> !(s.showing && !s.hidePending && Tracked(s.currentPid)))
  {
  }

  /** The hide timer is armed only by a poll, only when none is pending, and
      only for a visible tracked session; it is then pending. */
  lemma HideTimerArmedOnlyWhenIdle(s: State, aliases: map<string, string>, ev: Event)
    ensures var r := Step(s, aliases, ev);
      ArmHideTimer in r.effects ==>
        ev.Tick? && !s.hidePending && s.showing && Tracked(s.currentPid) && r.state.hidePending
  {
    var r := Step(s, aliases, ev);
    if ev.Tick? && !s.mouseInside && ev.mouse != s.prevMouse && ev.element.Some? && ev.element.value.isDockItem {
      var name := ResolveName(aliases, ev.element.value.title);
      var found := Matches(ev.windows, name);
      if s.currentName != Some(name) && ev.element.value.running && |found| > 0 {
        var calls := [ListWindows] + CaptureCalls(found);
        assert forall i :: 0 <= i < |calls| ==> calls[i] != ArmHideTimer;
      }
    }
    if ev.PointerDown? && MouseToPreviewIndex(ev.at.x) < |s.currentWindows| {
      assert forall i :: 0 <= i < |r.effects| ==> r.effects[i] != ArmHideTimer;
    }
  }

  /** When the pending hide fires it tears the session down. */
  lemma HideTimerHides(s: State, aliases: map<string, string>)
    requires Inv(s) && s.hidePending
    ensures var r := Step(s, aliases, HideTimerFired);
      && !r.state.showing && !r.state.hidePending && r.state.currentPid.None? && r.state.currentName.None?
      && r.effects == [HideSurface]
  {
  }

  /** Entering the surface cancels a pending hide and refocuses it. */
  lemma EnteringCancelsHide(s: State, aliases: map<string, string>)
    ensures var r := Step(s, aliases, PointerEnter);
      && r.state.mouseInside && !r.state.hidePending && r.state.showing == s.showing
      && r.effects == [Activate]
  {
  }

  /** The events that reach the controller while the pointer rests on the
      surface: polls, pointer moves and a hide timer firing. */
  predicate Hovering(ev: Event)
  {
    ev.Tick? || ev.PointerMove? || ev.HideTimerFired?
  }

  /** Runs `evs` from `s`, returning the final state. */
  function Run(s: State, aliases: map<string, string>, evs: seq<Event>): State
    decreases |evs|
  {
    if |evs| == 0 then s else Run(Step(s, aliases, evs[0]).state, aliases, evs[1..])
  }

  /** Once the pointer has entered the surface, the preview stays exactly as
      it is — same session, same thumbnails — however long the pointer rests
      there, until it is pressed or left. */
  lemma {:induction false} PreviewStaysWhileHovered(s: State, aliases: map<string, string>, evs: seq<Event>)
    requires forall i :: 0 <= i < |evs| ==> Hovering(evs[i])
    decreases |evs|
    ensures var s0 := Step(s, aliases, PointerEnter).state;
      var t := Run(s0, aliases, evs);
      && t.showing == s.showing && t.currentPid == s.currentPid && t.currentWindows == s.currentWindows
      && t.currentName == s.currentName && t.mouseInside && !t.hidePending
  {
    var s0 := Step(s, aliases, PointerEnter).state;
    if |evs| > 0 {
      var s1 := Step(s0, aliases, evs[0]).state;
      assert s1 == s0.(previewMouse := s1.previewMouse);
      assert Step(s1, aliases, PointerEnter).state == s0.(previewMouse := s1.previewMouse);
      PreviewStaysWhileHovered(s1, aliases, evs[1..]);
      assert Run(s0, aliases, evs) == Run(Step(s1, aliases, PointerEnter).state, aliases, evs[1..]);
    }
  }

  /** Pressing thumbnail `i` raises exactly that window, with its position,
      and then hides a tracked preview. */
  lemma PressRaisesThumbUnderPointer(s: State, aliases: map<string, string>, at: ViewPoint, i: nat)
    requires i < |s.currentWindows| && Holds(ThumbRect(i), at.x, at.y)
    ensures var r := Step(s, aliases, PointerDown(at));
      && r.effects[0] == RaiseWindow(s.currentPid, s.currentWindows[i].id, i)
      && (Tracked(s.currentPid) ==> r.effects == [r.effects[0], HideSurface] && !r.state.showing)
  {
    ThumbSelectsItsIndex(i, at.x, at.y);
  }

  /** On every press with `x < 240·n`, the corrected handler does what the
      handler as written does. */
  lemma PressAgreesWithAsWritten(s: State, at: ViewPoint)
    requires at.x < ContentWidth(|s.currentWindows|)
    ensures OnPointerDownAsWritten(s, at) == Success(OnPointerDown(s, at))
  {
    IndexInRange(at.x, |s.currentWindows|);
  }

  /** As written, a press from `240·n` to the surface's right edge — the
      strip's last 5 pixels and the 5-pixel right margin — names a window
      that does not exist and throws. */
  lemma MarginPressFaults(s: State, at: ViewPoint)
    requires ContentWidth(|s.currentWindows|) <= at.x < SurfaceView(|s.currentWindows|).Right()
    ensures OnPointerDownAsWritten(s, at) == Failure(NoWindowAt(|s.currentWindows|))
  {
    RightMarginIsOnePastTheEnd(at.x, |s.currentWindows|);
  }

  /** Concrete instances with one thumbnail: a press at x = 245 in the right
      margin of the 250-wide surface, and one at x = 242 on the painted strip
      itself, both throw as written and are ignored when corrected. */
  lemma MarginPressExample()
    ensures var s := Initial.(showing := true, currentPid := Some(42), currentWindows := [Thumb(7, Capture(800, 600))]);
      && 245 < SurfaceView(1).Right()
      && OnPointerDownAsWritten(s, ViewPoint(245, 100)).Failure?
      && Step(s, map[], PointerDown(ViewPoint(245, 100))) == Reaction(s, [])
      && Holds(ContentRect(1), 242, 100)
      && OnPointerDownAsWritten(s, ViewPoint(242, 100)).Failure?
      && Step(s, map[], PointerDown(ViewPoint(242, 100))) == Reaction(s, [])
  {
  }

  /** What is painted for a session: each thumbnail inside its own cell on
      the strip, left to right without overlap, and the highlight on the
      cell the pointer selects, which covers the pointer only when it is at
      least 5 pixels into that cell. */
  lemma DrawLaysOutThumbs(s: State)
    requires |s.currentWindows| > 0
    ensures var f := Draw(s).value;
      var n := |s.currentWindows|;
      && Within(f.content, SurfaceView(n))
      && f.hover == HoverRect(MouseToPreviewIndex(s.previewMouse.x))
      && (WindowMargin <= s.previewMouse.y < WindowMargin + ContentHeight ==>
            (Holds(f.hover, s.previewMouse.x, s.previewMouse.y) <==> s.previewMouse.x % CellWidth >= WindowMargin))
      && (forall i :: 0 <= i < n ==>
            f.thumbs[i].rect == ThumbRect(i) && Within(f.thumbs[i].rect, HoverRect(i)) && Within(f.thumbs[i].rect, f.content))
      && (forall i, j :: 0 <= i < j < n ==> Disjoint(f.thumbs[i].rect, f.thumbs[j].rect))
  {
    var n := |s.currentWindows|;
    ContentOnSurface(n);
    if WindowMargin <= s.previewMouse.y < WindowMargin + ContentHeight {
      HighlightUnderPointer(s.previewMouse.x, s.previewMouse.y);
    }
    forall i | 0 <= i < n
      ensures Within(ThumbRect(i), HoverRect(i)) && Within(ThumbRect(i), ContentRect(n))
    {
      ThumbInCell(i, n);
    }
    forall i, j | 0 <= i < j < n
      ensures Disjoint(ThumbRect(i), ThumbRect(j))
    {
      ThumbsLeftToRight(i, j);
    }
  }

  /** A visible session always paints. */
  lemma ShowingPaints(s: State)
    requires Inv(s) && s.showing
    ensures Draw(s).Some?
  {
  }
}
