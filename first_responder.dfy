/**
 * The first-responder lookup of UIView+ZHHFindFirstResponder: a pre-order search of
 * a view tree, and the choice of the key window whose tree is searched.
 */
module FindFirstResponder {
  import opened Wrappers

  /** A view: whether it is currently first responder, and its subviews in order. */
  datatype View = View(isFirst: bool, subviews: seq<View>)

  /** `zhhkb_findFirstResponder`: the view itself if it is first responder (its subviews
      are not visited), else the first non-nil result of searching the subviews in order. */
  function Find(v: View): (r: Option<View>)
    ensures r.Some? ==> r.value.isFirst
    decreases v
  {
    if v.isFirst then Some(v) else FindAmong(v.subviews)
  }

  /** The `for view in subviews` loop of `zhhkb_findFirstResponder`, with its early return. */
  function FindAmong(vs: seq<View>): (r: Option<View>)
    ensures r.Some? ==> r.value.isFirst
    decreases vs
  {
    if vs == [] then None
    else
      match Find(vs[0])
      case Some(responder) => Some(responder)
      case None => FindAmong(vs[1..])
  }

  /** Reference definition: every node of the tree rooted at `v`, in pre-order. */
  function PreOrder(v: View): seq<View>
    decreases v
  {
    [v] + PreOrderAll(v.subviews)
  }

  /** The pre-order node lists of a forest, one tree after another. */
  function PreOrderAll(vs: seq<View>): seq<View>
    decreases vs
  {
    if vs == [] then [] else PreOrder(vs[0]) + PreOrderAll(vs[1..])
  }

  /** The first view of a sequence that is first responder, if any. */
  function FirstResponderIn(s: seq<View>): (r: Option<View>)
    ensures r.Some? ==> r.value in s && r.value.isFirst
    ensures r.None? <==> forall w :: w in s ==> !w.isFirst
  {
    if s == [] then None
    else if s[0].isFirst then Some(s[0])
    else
      assert forall w :: w in s ==> w == s[0] || w in s[1..];
      FirstResponderIn(s[1..])
  }

  /** The view found is preceded by no first responder: it is the first one in the order. */
  lemma {:induction false} FirstResponderInIsEarliest(s: seq<View>)
    requires FirstResponderIn(s).Some?
    ensures exists k :: 0 <= k < |s| && s[k] == FirstResponderIn(s).value && (forall j :: 0 <= j < k ==> !s[j].isFirst)
  {
    if !s[0].isFirst {
      FirstResponderInIsEarliest(s[1..]);
      var k :| 0 <= k < |s[1..]| && s[1..][k] == FirstResponderIn(s[1..]).value &&
        forall j :: 0 <= j < k ==> !s[1..][j].isFirst;
      assert s[k + 1] == FirstResponderIn(s).value;
      assert forall j :: 0 <= j < k + 1 ==> !s[j].isFirst by {
        forall j | 0 <= j < k + 1 ensures !s[j].isFirst {
          if j > 0 { assert s[j] == s[1..][j - 1]; }
        }
      }
    } else {
      assert s[0] == FirstResponderIn(s).value;
    }
  }

  lemma {:induction false} FirstResponderInAppend(a: seq<View>, b: seq<View>)
    ensures FirstResponderIn(a + b) == if FirstResponderIn(a).Some? then FirstResponderIn(a) else FirstResponderIn(b)
    decreases |a|
  {
    if a != [] {
      assert (a + b)[0] == a[0];
      assert (a + b)[1..] == a[1..] + b;
      FirstResponderInAppend(a[1..], b);
    } else {
      assert a + b == b;
    }
  }

  /** The search returns exactly the pre-order-first first responder of the tree. */
  lemma {:induction false} FindIsPreOrderFirst(v: View)
    ensures Find(v) == FirstResponderIn(PreOrder(v))
    decreases v
  {
    assert PreOrder(v) == [v] + PreOrderAll(v.subviews);
    assert ([v] + PreOrderAll(v.subviews))[1..] == PreOrderAll(v.subviews);
    if !v.isFirst {
      FindAmongIsPreOrderFirst(v.subviews);
    }
  }

  /** The loop over subviews returns the pre-order-first first responder of the forest. */
  lemma {:induction false} FindAmongIsPreOrderFirst(vs: seq<View>)
    ensures FindAmong(vs) == FirstResponderIn(PreOrderAll(vs))
    decreases vs
  {
    if vs != [] {
      FindIsPreOrderFirst(vs[0]);
      FindAmongIsPreOrderFirst(vs[1..]);
      FirstResponderInAppend(PreOrder(vs[0]), PreOrderAll(vs[1..]));
    }
  }

  /** The search's contract on every tree: a first-responder root is returned at once;
      the result is nil iff no node of the tree is first responder; a returned view is
      first responder, is a node of the tree, and no node before it in pre-order is. */
  lemma FindSpec(v: View)
    ensures v.isFirst ==> Find(v) == Some(v)
    ensures Find(v).None? <==> forall w :: w in PreOrder(v) ==> !w.isFirst
    ensures Find(v).Some? ==> Find(v).value in PreOrder(v) && Find(v).value.isFirst
    ensures Find(v).Some? ==>
      exists k :: 0 <= k < |PreOrder(v)| && PreOrder(v)[k] == Find(v).value &&
        (forall j :: 0 <= j < k ==> !PreOrder(v)[j].isFirst)
  {
    FindIsPreOrderFirst(v);
    if Find(v).Some? {
      FirstResponderInIsEarliest(PreOrder(v));
    }
  }

  /** A window: whether it is the key window, and the window as a view (its own
      first-responder flag and its subviews). */
  datatype Window = Window(isKeyWindow: bool, view: View)

  /** A connected scene: a window scene with its windows in order, or a scene of another kind. */
  datatype Scene = WindowScene(windows: seq<Window>) | OtherScene

  /** Reference definition: the key windows of a list of windows, in order. */
  function KeyWindowsOf(ws: seq<Window>): seq<Window>
  {
    if ws == [] then []
    else (if ws[0].isKeyWindow then [ws[0]] else []) + KeyWindowsOf(ws[1..])
  }

  /** Reference definition: the key windows of all window scenes, in iteration order. */
  function KeyWindows(scenes: seq<Scene>): seq<Window>
  {
    if scenes == [] then []
    else
      (match scenes[0] case WindowScene(ws) => KeyWindowsOf(ws) case OtherScene => [])
      + KeyWindows(scenes[1..])
  }

  lemma {:induction false} KeyWindowsOfAppend(a: seq<Window>, b: seq<Window>)
    ensures KeyWindowsOf(a + b) == KeyWindowsOf(a) + KeyWindowsOf(b)
    decreases |a|
  {
    if a == [] {
      assert a + b == b;
    } else {
      assert (a + b)[0] == a[0];
      assert (a + b)[1..] == a[1..] + b;
      KeyWindowsOfAppend(a[1..], b);
    }
  }

  lemma {:induction false} KeyWindowsAppend(a: seq<Scene>, b: seq<Scene>)
    ensures KeyWindows(a + b) == KeyWindows(a) + KeyWindows(b)
    decreases |a|
  {
    if a == [] {
      assert a + b == b;
    } else {
      assert (a + b)[0] == a[0];
      assert (a + b)[1..] == a[1..] + b;
      KeyWindowsAppend(a[1..], b);
    }
  }

  /** A key window at (i, j) with none before it is the first of all key windows. */
  lemma FirstKeyWindowFound(scenes: seq<Scene>, i: int, j: int)
    requires 0 <= i < |scenes| && scenes[i].WindowScene?
    requires 0 <= j < |scenes[i].windows| && scenes[i].windows[j].isKeyWindow
    requires KeyWindows(scenes[..i]) == [] && KeyWindowsOf(scenes[i].windows[..j]) == []
    ensures KeyWindows(scenes) != [] && KeyWindows(scenes)[0] == scenes[i].windows[j]
  {
    var windows := scenes[i].windows;
    KeyWindowsOfAppend(windows[..j], windows[j..]);
    assert windows[..j] + windows[j..] == windows;
    assert windows[j..][0] == windows[j];
    assert KeyWindowsOf(windows)[0] == windows[j];
    KeyWindowsAppend(scenes[..i], scenes[i..]);
    assert scenes[..i] + scenes[i..] == scenes;
    assert scenes[i..][0] == scenes[i];
  }

  /** The scene/window loops of `zhhkb_firstResponder`: the first key window met when
      iterating the window scenes and their windows in order, or None when there is none. */
  method FindKeyWindow(scenes: seq<Scene>) returns (keyWindow: Option<Window>)
    ensures keyWindow.None? <==> KeyWindows(scenes) == []
    ensures keyWindow.Some? ==> keyWindow.value.isKeyWindow && keyWindow.value == KeyWindows(scenes)[0]
  {
    keyWindow := None;
    var i := 0;
    while i < |scenes|
      invariant 0 <= i <= |scenes|
      invariant keyWindow.None?
      invariant KeyWindows(scenes[..i]) == []
    {
      match scenes[i] {
        case WindowScene(windows) =>
          var j := 0;
          while j < |windows|
            invariant 0 <= j <= |windows|
            invariant keyWindow.None?
            invariant KeyWindowsOf(windows[..j]) == []
          {
            if windows[j].isKeyWindow {
              keyWindow := Some(windows[j]);
              break;
            }
            KeyWindowsOfAppend(windows[..j], [windows[j]]);
            assert windows[..j + 1] == windows[..j] + [windows[j]];
            j := j + 1;
          }
          if keyWindow.Some? {
            FirstKeyWindowFound(scenes, i, j);
            break;
          }
          assert windows[..j] == windows;
        case OtherScene =>
      }
      KeyWindowsAppend(scenes[..i], [scenes[i]]);
      assert scenes[..i + 1] == scenes[..i] + [scenes[i]];
      i := i + 1;
    }
    if keyWindow.None? {
      assert scenes[..i] == scenes;
    }
  }

  /** `zhhkb_firstResponder`: only the first key window is searched; with no key window
      the result is nil. */
  method FirstResponder(scenes: seq<Scene>) returns (responder: Option<View>)
    ensures KeyWindows(scenes) == [] ==> responder.None?
    ensures KeyWindows(scenes) != [] ==> responder == Find(KeyWindows(scenes)[0].view)
    ensures responder.Some? ==> responder.value.isFirst
  {
    var keyWindow := FindKeyWindow(scenes);
    match keyWindow {
      case None => responder := None;
      case Some(w) => responder := Find(w.view);
    }
  }
}
