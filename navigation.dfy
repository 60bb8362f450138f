/**
 * UIViewController+Ex.swift: the `dismiss` variants, which trim a navigation
 * stack, and `topViewController()`, which walks the presentation chain.
 *
 * Controllers are numbers. The navigation controller's own operations
 * (`popViewController`, `popToViewController`, `popToRootViewController`,
 * `setViewControllers`) are modelled as taking effect at once on the stack, the
 * way UIKit leaves it once the transition has run.
 */
module Navigation {
  import opened Wrappers

  type ControllerId = nat

  /** The first position of `x` in `s`. */
  function IndexOf(s: seq<ControllerId>, x: ControllerId): (k: nat)
    requires x in s
    ensures k < |s| && s[k] == x
    ensures forall j :: 0 <= j < k ==> s[j] != x
  {
    if s[0] == x then 0 else 1 + IndexOf(s[1..], x)
  }

  /** No controller twice on one stack, as UIKit requires. */
  predicate Distinct(s: seq<ControllerId>)
  {
    forall i, j :: 0 <= i < j < |s| ==> s[i] != s[j]
  }

  /** A `UINavigationController`: its stack, bottom (the root) first, whether
    * it was presented (`presentingViewController != nil`), and whether it has
    * been dismissed. */
  class NavigationController {
    var viewControllers: seq<ControllerId>
    var isPresented: bool
    var isDismissed: bool

    constructor (viewControllers: seq<ControllerId>, isPresented: bool)
      ensures this.viewControllers == viewControllers && this.isPresented == isPresented && !isDismissed
    {
      this.viewControllers := viewControllers;
      this.isPresented := isPresented;
      isDismissed := false;
    }

    /** `popViewController(animated:)`: the top goes, the root never does. */
    method PopViewController()
      modifies this`viewControllers
      ensures |old(viewControllers)| > 1 ==> viewControllers == old(viewControllers)[..|old(viewControllers)| - 1]
      ensures |old(viewControllers)| <= 1 ==> viewControllers == old(viewControllers)
    {
      if |viewControllers| > 1 {
        viewControllers := viewControllers[..|viewControllers| - 1];
      }
    }

    /** `popToViewController(_:animated:)`: everything above `vc` goes. */
    method PopToViewController(vc: ControllerId)
      requires vc in viewControllers
      modifies this`viewControllers
      ensures viewControllers == old(viewControllers)[..IndexOf(old(viewControllers), vc) + 1]
    {
      viewControllers := viewControllers[..IndexOf(viewControllers, vc) + 1];
    }

    /** `popToRootViewController(animated:)`. */
    method PopToRootViewController()
      modifies this`viewControllers
      ensures viewControllers == if old(viewControllers) == [] then [] else [old(viewControllers)[0]]
    {
      if viewControllers != [] {
        viewControllers := [viewControllers[0]];
      }
    }

    method SetViewControllers(vcs: seq<ControllerId>)
      modifies this`viewControllers
      ensures viewControllers == vcs
    {
      viewControllers := vcs;
    }

    /** `dismiss(animated:completion:)` on the navigation controller. */
    method Dismiss()
      modifies this`isDismissed
      ensures isDismissed
    {
      isDismissed := true;
    }
  }

  /** What `dismiss()` did. */
  datatype DismissOutcome = DismissedSelf | Popped | DismissedNavigation | Nothing

  /** `dismiss()` of a controller whose `navigationController` is `nav`: without
    * one the controller dismisses itself; with one it pops the top when the
    * stack has more than one controller, and otherwise dismisses the
    * navigation controller if it was presented. */
  method Dismiss(nav: NavigationController?) returns (outcome: DismissOutcome)
    modifies nav
    ensures nav == null <==> outcome == DismissedSelf
    ensures nav != null && |old(nav.viewControllers)| > 1 ==>
      outcome == Popped && nav.viewControllers == old(nav.viewControllers)[..|old(nav.viewControllers)| - 1]
      && nav.isDismissed == old(nav.isDismissed)
    ensures nav != null && |old(nav.viewControllers)| <= 1 ==>
      nav.viewControllers == old(nav.viewControllers) &&
      (if nav.isPresented then outcome == DismissedNavigation && nav.isDismissed
       else outcome == Nothing && nav.isDismissed == old(nav.isDismissed))
    ensures nav != null ==> nav.isPresented == old(nav.isPresented)
  {
    if nav == null {
      return DismissedSelf;
    }
    if |nav.viewControllers| > 1 {
      nav.PopViewController();
      outcome := Popped;
    } else if nav.isPresented {
      nav.Dismiss();
      outcome := DismissedNavigation;
    } else {
      outcome := Nothing;
    }
  }

  /** The first position at or above `i` holding a member of `members`, or
    * `|s|`. */
  function FirstMatchFrom(s: seq<ControllerId>, members: set<ControllerId>, i: nat): (k: nat)
    requires i <= |s|
    ensures i <= k <= |s|
    ensures k < |s| ==> s[k] in members
    ensures forall j :: i <= j < k ==> s[j] !in members
    decreases |s| - i
  {
    if i == |s| then |s| else if s[i] in members then i else FirstMatchFrom(s, members, i + 1)
  }

  /** The stack `dismiss(to:)` goes from `s` to: up to the lowest controller of
    * the class, or `s` itself when there is none. */
  function TrimToLowestMatch(s: seq<ControllerId>, members: set<ControllerId>): seq<ControllerId>
  {
    var k := FirstMatchFrom(s, members, 0);
    if k < |s| then s[..k + 1] else s
  }

  /** `dismiss(to:animated:)`: for every controller of the stack, from the top
    * down, that is exactly of the class (`members` holds those), pop to it.
    * Each pop cuts deeper, so the stack ends at the lowest one. */
  method DismissTo(nav: NavigationController?, members: set<ControllerId>)
    requires nav != null ==> Distinct(nav.viewControllers)
    modifies nav
    ensures nav != null ==> nav.viewControllers == TrimToLowestMatch(old(nav.viewControllers), members)
    ensures nav != null ==> nav.isDismissed == old(nav.isDismissed) && nav.isPresented == old(nav.isPresented)
  {
    if nav == null {
      return;
    }
    var reversed := nav.viewControllers;
    var i := |reversed|;
    while i > 0
      invariant 0 <= i <= |reversed|
      invariant nav.isDismissed == old(nav.isDismissed) && nav.isPresented == old(nav.isPresented)
      invariant nav.viewControllers == TrimFrom(reversed, members, i)
    {
      i := i - 1;
      var vc := reversed[i];
      if vc in members {
        PopToStep(reversed, members, i);
        nav.PopToViewController(vc);
      }
    }
  }

  /** The stack cut just above the lowest member at or above `i`. */
  function TrimFrom(s: seq<ControllerId>, members: set<ControllerId>, i: nat): seq<ControllerId>
    requires i <= |s|
  {
    var k := FirstMatchFrom(s, members, i);
    if k < |s| then s[..k + 1] else s
  }

  /** Popping to a member at `i` of a stack already cut above `i` cuts it just
    * above `i`. */
  lemma PopToStep(s: seq<ControllerId>, members: set<ControllerId>, i: nat)
    requires Distinct(s) && i < |s| && s[i] in members
    ensures s[i] in TrimFrom(s, members, i + 1)
    ensures var cur := TrimFrom(s, members, i + 1);
      cur[..IndexOf(cur, s[i]) + 1] == TrimFrom(s, members, i)
  {
    var cur := TrimFrom(s, members, i + 1);
    assert |cur| > i && cur[i] == s[i];
    var k := IndexOf(cur, s[i]);
    assert cur[k] == s[k];
    assert k == i;
  }

  /** With no controller of the class, `dismiss(to:)` leaves the stack as it
    * is; otherwise the stack ends with the lowest such controller, and no
    * controller below it is of the class. */
  lemma TrimToLowestMatchShape(s: seq<ControllerId>, members: set<ControllerId>)
    ensures (forall i :: 0 <= i < |s| ==> s[i] !in members) ==> TrimToLowestMatch(s, members) == s
    ensures (exists i :: 0 <= i < |s| && s[i] in members) ==>
      var r := TrimToLowestMatch(s, members);
      r != [] && r <= s && r[|r| - 1] in members &&
      forall j :: 0 <= j < |r| - 1 ==> r[j] !in members
  {
    var k := FirstMatchFrom(s, members, 0);
    if exists i :: 0 <= i < |s| && s[i] in members {
      var i :| 0 <= i < |s| && s[i] in members;
      assert k <= i;
    }
  }

  /** `dismiss(_:animated:)`: nothing for a count below one or without a
    * navigation controller; back to the root when the count reaches the stack
    * size; otherwise pop to the controller `count` below the top. */
  method DismissCount(nav: NavigationController?, count: int)
    modifies nav
    ensures nav != null ==> nav.isDismissed == old(nav.isDismissed) && nav.isPresented == old(nav.isPresented)
    ensures nav != null && count < 1 ==> nav.viewControllers == old(nav.viewControllers)
    ensures nav != null && count >= 1 && count >= |old(nav.viewControllers)| ==>
      nav.viewControllers == if old(nav.viewControllers) == [] then [] else [old(nav.viewControllers)[0]]
    ensures nav != null && 1 <= count < |old(nav.viewControllers)| && Distinct(old(nav.viewControllers)) ==>
      nav.viewControllers == old(nav.viewControllers)[..|old(nav.viewControllers)| - count]
  {
    if nav == null || count < 1 {
      return;
    }
    var vcsCount := |nav.viewControllers|;
    if count >= vcsCount {
      nav.PopToRootViewController();
      return;
    }
    ghost var s := nav.viewControllers;
    var vc := nav.viewControllers[vcsCount - count - 1];
    nav.PopToViewController(vc);
    assert Distinct(s) ==> IndexOf(s, vc) == vcsCount - count - 1;
  }

  /** `dismiss(_:to:animated:)`: nothing for a count below one or without a
    * navigation controller; the root and then `vc` when the count reaches the
    * stack size; otherwise the controllers below the top `count`, then `vc`. */
  method DismissCountTo(nav: NavigationController?, count: int, vc: ControllerId)
    modifies nav
    ensures nav != null ==> nav.isDismissed == old(nav.isDismissed) && nav.isPresented == old(nav.isPresented)
    ensures nav != null && count < 1 ==> nav.viewControllers == old(nav.viewControllers)
    ensures nav != null && count >= 1 && count >= |old(nav.viewControllers)| ==>
      nav.viewControllers == if old(nav.viewControllers) == [] then [] else [old(nav.viewControllers)[0], vc]
    ensures nav != null && 1 <= count < |old(nav.viewControllers)| ==>
      nav.viewControllers == old(nav.viewControllers)[..|old(nav.viewControllers)| - count] + [vc]
  {
    if nav == null || count < 1 {
      return;
    }
    var vcsCount := |nav.viewControllers|;
    if count >= vcsCount {
      if nav.viewControllers != [] {
        var first := nav.viewControllers[0];
        nav.SetViewControllers([first, vc]);
      }
      return;
    }
    var vcs := nav.viewControllers[0..vcsCount - count - 1 + 1];
    vcs := vcs + [vc];
    nav.SetViewControllers(vcs);
  }

  // ---------------------------------------------------------------------------
  // topViewController()
  // ---------------------------------------------------------------------------

  /** The controllers `topViewController()` looks through: what each one
    * presents, which are tab bar and navigation controllers, and the selected
    * or top child of those. A presented controller is numbered below its
    * presenter, so the presentation chain has no cycle. */
  datatype Controllers = Controllers(
    presented: map<ControllerId, ControllerId>,
    tabBars: set<ControllerId>,
    selected: map<ControllerId, ControllerId>,
    navigations: set<ControllerId>,
    top: map<ControllerId, ControllerId>)

  predicate ValidControllers(c: Controllers)
  {
    forall v :: v in c.presented ==> c.presented[v] < v
  }

  /** The controller `v` leads to by following `presentedViewController`. */
  function PresentedTop(c: Controllers, v: ControllerId): (r: ControllerId)
    requires ValidControllers(c)
    ensures r !in c.presented
    ensures r <= v
    ensures v !in c.presented ==> r == v
    decreases v
  {
    if v in c.presented then PresentedTop(c, c.presented[v]) else v
  }

  function Lookup(m: map<ControllerId, ControllerId>, v: ControllerId): Option<ControllerId>
  {
    if v in m then Some(m[v]) else None
  }

  /** The two `isKind(of:) != false` tests: a tab bar controller gives way to
    * its selected controller, then a navigation controller to its top one;
    * `nil` passes both tests and stays `nil`. */
  function Unwrap(c: Controllers, t: Option<ControllerId>): (r: Option<ControllerId>)
    ensures t == None ==> r == None
  {
    var a := if t.Some? && t.value !in c.tabBars then t else if t.Some? then Lookup(c.selected, t.value) else None;
    if a.Some? && a.value !in c.navigations then a else if a.Some? then Lookup(c.top, a.value) else None
  }

  /** A window: whether its level is `.normal`, and its root controller. */
  datatype Window = Window(isNormal: bool, rootViewController: Option<ControllerId>)

  /** `topViewController()`: the key window, or when its level is not normal
    * the first normal window if any; from its root, the end of the
    * presentation chain; then the tab bar and navigation unwrapping. */
  method TopViewController(c: Controllers, keyWindow: Option<Window>, windows: seq<Window>)
    returns (topVc: Option<ControllerId>)
    requires ValidControllers(c)
    ensures keyWindow == None ==> topVc == None
    ensures keyWindow.Some? ==>
      var root := ChosenWindow(keyWindow.value, windows).rootViewController;
      topVc == Unwrap(c, if root.Some? then Some(PresentedTop(c, root.value)) else None)
  {
    if keyWindow == None {
      return None;
    }
    var win := keyWindow.value;
    if !win.isNormal {
      var i := 0;
      while i < |windows|
        invariant 0 <= i <= |windows|
        invariant ChosenWindow(keyWindow.value, windows) == ChosenFrom(keyWindow.value, windows, i)
        invariant win == keyWindow.value
      {
        if windows[i].isNormal {
          win := windows[i];
          break;
        }
        i := i + 1;
      }
      assert win == ChosenWindow(keyWindow.value, windows);
    }
    topVc := win.rootViewController;
    while topVc.Some? && topVc.value in c.presented
      invariant topVc.Some? == win.rootViewController.Some?
      invariant topVc.Some? ==> PresentedTop(c, topVc.value) == PresentedTop(c, win.rootViewController.value)
      decreases if topVc.Some? then topVc.value else 0
    {
      topVc := Some(c.presented[topVc.value]);
    }
    topVc := Unwrap(c, topVc);
  }

  /** The first normal window from position `i`, or the key window. */
  function ChosenFrom(keyWindow: Window, windows: seq<Window>, i: nat): Window
    requires i <= |windows|
    decreases |windows| - i
  {
    if i == |windows| then keyWindow
    else if windows[i].isNormal then windows[i]
    else ChosenFrom(keyWindow, windows, i + 1)
  }

  /** The window `topViewController()` starts from. */
  function ChosenWindow(keyWindow: Window, windows: seq<Window>): (w: Window)
    ensures keyWindow.isNormal ==> w == keyWindow
    ensures !keyWindow.isNormal && w != keyWindow ==> w in windows && w.isNormal
  {
    if keyWindow.isNormal then keyWindow else ChosenFromIsNormal(keyWindow, windows, 0); ChosenFrom(keyWindow, windows, 0)
  }

  lemma {:induction false} ChosenFromIsNormal(keyWindow: Window, windows: seq<Window>, i: nat)
    requires i <= |windows|
    ensures var w := ChosenFrom(keyWindow, windows, i);
      w == keyWindow || (w in windows[i..] && w.isNormal)
    decreases |windows| - i
  {
    if i < |windows| && !windows[i].isNormal {
      ChosenFromIsNormal(keyWindow, windows, i + 1);
    }
  }
}
