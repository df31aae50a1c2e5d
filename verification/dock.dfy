/** What the accessibility layer (`axlib`) reports about the dock and the
    open windows, the calls the pollers make into it and into the window
    toolkit, and the matching of a hovered dock item to its windows that
    index.js and lib/preview.js share. */
module Dock {
  import opened Common

  /** `AXGetElementAtPosition`: the element under the pointer. Only dock
      items (`type === 'AXApplicationDockItem'`) matter to the pollers. */
  datatype Element = Element(isDockItem: bool, title: string, running: bool, position: Point, width: int, height: int)

  /** One entry of `AXGetWindowList`: owner name, owner pid, window id. */
  datatype WindowInfo = WindowInfo(name: string, pid: int, window: int)

  /** A raw capture returned by `AXGetWindowPreview`. */
  datatype Capture = Capture(width: int, height: int)

  /** Where a preview is anchored: `{x, y, width}` of the hovered dock item. */
  datatype DockItem = DockItem(x: int, y: int, width: int)

  /** The calls into the native layer and the toolkit that a step makes,
      in order. Reading the pointer and the element under it are inputs of
      a poll tick rather than effects. */
  datatype Effect =
    | ListWindows                                  // AXGetWindowList()
    | CaptureWindow(id: int)                       // AXGetWindowPreview(id)
    | ShowSurface(bounds: Bounds)                  // setVisible(true), activate, setBounds, schedulePaint
    | HideSurface                                  // setVisible(false)
    | Activate                                     // win.activate()
    | Repaint                                      // contentview.schedulePaint()
    | RaiseWindow(pid: Option<int>, id: int, index: nat)  // AXRaiseAppWindow(pid, id, index)
    | ArmHideTimer                                 // setTimeout(hidePreview, 500)

  /** Calls that go to the accessibility layer for window data. */
  predicate IsProviderCall(e: Effect)
  {
    e.ListWindows? || e.CaptureWindow?
  }

  /** `aliases[title] || title`: an alias is used only when it is a
      non-empty string. The contract only spells out the two cases of the
      lookup; what depends on the name is stated by the lemmas about the
      pollers. */
  function ResolveName(aliases: map<string, string>, title: string): (name: string)
    ensures title in aliases && aliases[title] != "" ==> name == aliases[title]
    ensures !(title in aliases && aliases[title] != "") ==> name == title
  {
    if title in aliases && aliases[title] != "" then aliases[title] else title
  }

  /** `windows.filter(w => w.name === name)`. */
  function Matches(windows: seq<WindowInfo>, name: string): (r: seq<WindowInfo>)
    ensures forall w :: w in r <==> w in windows && w.name == name
    ensures Subsequence(r, windows)
  {
    if |windows| == 0 then []
    else if windows[0].name == name then [windows[0]] + Matches(windows[1..], name)
    else Matches(windows[1..], name)
  }

  /** `filter` keeps every copy of a window with the name, duplicates
      included, and no copy of any other window. */
  lemma {:induction false} MatchesCounts(windows: seq<WindowInfo>, name: string)
    ensures forall w :: multiset(Matches(windows, name))[w] == if w.name == name then multiset(windows)[w] else 0
  {
    if |windows| > 0 {
      MatchesCounts(windows[1..], name);
      assert windows == [windows[0]] + windows[1..];
    }
  }

  /** `r` is `s` with some elements left out, the rest in their order. */
  predicate Subsequence<T(==)>(r: seq<T>, s: seq<T>)
  {
    if |r| == 0 then true
    else if |s| == 0 then false
    else (r[0] == s[0] && Subsequence(r[1..], s[1..])) || Subsequence(r, s[1..])
  }

  /** `windows.find(w => w.name === name)`: the first window with that name. */
  function FirstMatch(windows: seq<WindowInfo>, name: string): (r: Option<WindowInfo>)
    ensures r.None? <==> forall w :: w in windows ==> w.name != name
    ensures r.Some? ==> r.value.name == name && exists j ::
              && 0 <= j < |windows| && windows[j] == r.value
              && forall i :: 0 <= i < j ==> windows[i].name != name
  {
    if |windows| == 0 then None
    else if windows[0].name == name then Some(windows[0])
    else
      var r := FirstMatch(windows[1..], name);
      assert forall i :: 1 <= i < |windows| ==> windows[i] == windows[1..][i - 1];
      r
  }

  /** The first window `find` picks is the head of the list `filter` keeps,
      so the prototype and the controller agree on the primary window. */
  lemma {:induction false} FirstMatchIsFirstOfMatches(windows: seq<WindowInfo>, name: string)
    ensures FirstMatch(windows, name) == if |Matches(windows, name)| > 0 then Some(Matches(windows, name)[0]) else None
  {
    if |windows| > 0 && windows[0].name != name {
      FirstMatchIsFirstOfMatches(windows[1..], name);
    }
  }

  /** A window kept for the preview, with its capture. */
  datatype Thumb = Thumb(id: int, image: Capture)

  /** `found.map(capture).filter(w => w !== null)`: the matched windows whose
      capture succeeded, in order; a missing entry in `captures` is a
      capture that returned null. */
  function Captured(found: seq<WindowInfo>, captures: map<int, Capture>): (r: seq<Thumb>)
    ensures |r| <= |found|
    ensures forall t :: t in r <==> exists w :: w in found && w.window in captures && t == Thumb(w.window, captures[w.window])
    ensures Subsequence(ThumbIds(r), WindowIds(found))
  {
    if |found| == 0 then []
    else
      var rest := Captured(found[1..], captures);
      assert forall w :: w in found[1..] ==> w in found;
      assert forall w :: w in found ==> w == found[0] || w in found[1..];
      assert WindowIds(found)[1..] == WindowIds(found[1..]);
      if found[0].window in captures then
        var r := [Thumb(found[0].window, captures[found[0].window])] + rest;
        assert r[1..] == rest;
        r
      else rest
  }

  /** A thumbnail is kept for every copy of a matched window whose capture
      succeeded, and for no other. */
  lemma {:induction false} CapturedCounts(found: seq<WindowInfo>, captures: map<int, Capture>)
    ensures forall id :: multiset(ThumbIds(Captured(found, captures)))[id] == if id in captures then multiset(WindowIds(found))[id] else 0
  {
    if |found| > 0 {
      CapturedCounts(found[1..], captures);
      var rest := Captured(found[1..], captures);
      assert WindowIds(found) == [found[0].window] + WindowIds(found[1..]);
      if found[0].window in captures {
        var t := Thumb(found[0].window, captures[found[0].window]);
        assert Captured(found, captures) == [t] + rest;
        assert ThumbIds([t] + rest) == [t.id] + ThumbIds(rest);
      }
    }
  }

  /** The window ids of `ws`, in order. */
  function WindowIds(ws: seq<WindowInfo>): (ids: seq<int>)
    ensures |ids| == |ws| && forall i :: 0 <= i < |ws| ==> ids[i] == ws[i].window
  {
    if |ws| == 0 then [] else [ws[0].window] + WindowIds(ws[1..])
  }

  /** The window ids of the thumbnails `ts`, in order. */
  function ThumbIds(ts: seq<Thumb>): (ids: seq<int>)
    ensures |ids| == |ts| && forall i :: 0 <= i < |ts| ==> ids[i] == ts[i].id
  {
    if |ts| == 0 then [] else [ts[0].id] + ThumbIds(ts[1..])
  }

  /** The calls a hover over a running item makes: the window list, then one
      capture per matched window, in order. The contract spells out the
      map element by element; `ProviderCallsOnlyForNewItem` places these
      calls in a poll. */
  function CaptureCalls(found: seq<WindowInfo>): (r: seq<Effect>)
    ensures |r| == |found|
    ensures forall i :: 0 <= i < |found| ==> r[i] == CaptureWindow(found[i].window)
  {
    seq(|found|, i requires 0 <= i < |found| => CaptureWindow(found[i].window))
  }
}
