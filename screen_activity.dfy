/**
 * The back-stack discipline of the screen activity: the fragment shown in
 * the main container, the stack of fragments to return to, and the
 * navigation that pushes onto, pops from and clears that stack.
 *
 * Fragment transactions, animations, reflection and every other piece of
 * Android UI are not part of this model: a fragment is the record the
 * activity reads from it and re-creates it from.
 */
module Screen {
  import opened Wrappers
  import opened FragmentParcel
  import IntentPackage

  /** A fragment as the activity sees it: its class, its arguments, and the state it was re-created with. */
  datatype Fragment = Fragment(className: string, arguments: Option<Bundle>, initialSavedState: Option<SavedState>)

  const TabsFragmentClass: string := "com.looker.droidify.ui.tabs_fragment.TabsFragment"
  const AppDetailFragmentClass: string := "com.looker.droidify.ui.app_detail.AppDetailFragment"

  /** A new `TabsFragment()`. */
  function TabsFragment(): (f: Fragment)
    ensures f.className == TabsFragmentClass && f.arguments.None?
  {
    Fragment(TabsFragmentClass, None, None)
  }

  predicate IsTabs(f: Option<Fragment>) {
    f.Some? && f.value.className == TabsFragmentClass
  }

  /** The stack entry `pushFragment` records for the fragment it leaves, given what the fragment manager saved of it. */
  function StackItemOf(f: Fragment, saved: Option<SavedState>): (item: FragmentStackItem)
    ensures item.className == f.className && item.arguments == f.arguments && item.savedState == saved
  {
    FragmentStackItem(f.className, f.arguments, saved)
  }

  /** The fragment `popFragment` re-creates from a stack entry: same class, its arguments, its saved state as initial state. */
  function Recreate(item: FragmentStackItem): (f: Fragment)
    ensures StackItemOf(f, item.savedState) == item
  {
    Fragment(item.className, item.arguments, item.savedState)
  }

  /**
   * The product page `handleIntent` opens for an intent, given the fragment
   * shown and the package an `AppDetailFragment` shows: a VIEW intent with a
   * non-empty package name opens it unless that very page is already shown.
   */
  function ProductToOpen(intent: Option<IntentPackage.Intent>, current: Option<Fragment>, shownPackage: Fragment -> string): (r: Option<string>)
    ensures r.Some? <==>
      && intent.Some? && intent.value.action == Some(IntentPackage.ActionView)
      && IntentPackage.PackageName(intent.value).Some?
      && !(current.Some? && current.value.className == AppDetailFragmentClass
           && shownPackage(current.value) == IntentPackage.PackageName(intent.value).value)
    ensures r.Some? ==> r == IntentPackage.PackageName(intent.value) && r.value != []
  {
    if intent.Some? && intent.value.action == Some(IntentPackage.ActionView) then
      var packageName := IntentPackage.PackageName(intent.value);
      if packageName.Some? && packageName.value != [] then
        if current.None? || current.value.className != AppDetailFragmentClass || shownPackage(current.value) != packageName.value
        then packageName
        else None
      else None
    else None
  }

  class ScreenActivity {
    /** What the main container shows (`currentFragment`). */
    var currentFragment: Option<Fragment>
    /** The fragments to go back to, oldest first (`fragmentStack`). */
    var fragmentStack: seq<FragmentStackItem>

    constructor ()
      ensures currentFragment == None && fragmentStack == []
    {
      currentFragment := None;
      fragmentStack := [];
    }

    /** `replaceFragment`: the container shows the new fragment; the stack is untouched. */
    method ReplaceFragment(fragment: Fragment)
      modifies this
      ensures currentFragment == Some(fragment) && fragmentStack == old(fragmentStack)
    {
      currentFragment := Some(fragment);
    }

    /**
     * `pushFragment`: when a fragment is shown, append exactly one entry for
     * it (with the state the fragment manager saved of it); then show the new one.
     */
    method PushFragment(fragment: Fragment, saved: Option<SavedState>)
      modifies this
      ensures fragmentStack ==
        if old(currentFragment).Some? then old(fragmentStack) + [StackItemOf(old(currentFragment).value, saved)]
        else old(fragmentStack)
      ensures currentFragment == Some(fragment)
    {
      if currentFragment.Some? {
        fragmentStack := fragmentStack + [StackItemOf(currentFragment.value, saved)];
      }
      ReplaceFragment(fragment);
    }

    /**
     * `popFragment`: on an empty stack report false and change nothing;
     * otherwise remove exactly the last entry, show the fragment re-created
     * from it, and report true.
     */
    method PopFragment() returns (popped: bool)
      modifies this
      ensures popped <==> old(fragmentStack) != []
      ensures !popped ==> fragmentStack == old(fragmentStack) && currentFragment == old(currentFragment)
      ensures popped ==>
        && fragmentStack == old(fragmentStack)[..|old(fragmentStack)| - 1]
        && currentFragment == Some(Recreate(old(fragmentStack)[|old(fragmentStack)| - 1]))
    {
      if fragmentStack == [] {
        return false;
      }
      var stackItem := fragmentStack[|fragmentStack| - 1];
      fragmentStack := fragmentStack[..|fragmentStack| - 1];
      ReplaceFragment(Recreate(stackItem));
      popped := true;
    }

    /**
     * `onBackPressed`: unless the shown fragment consumes the press, pop the
     * stack; report whether the press falls through to the system (the stack was empty).
     */
    method OnBackPressed(consumedByFragment: bool) returns (leavesActivity: bool)
      modifies this
      ensures leavesActivity <==> !consumedByFragment && old(fragmentStack) == []
      ensures consumedByFragment || old(fragmentStack) == [] ==>
        fragmentStack == old(fragmentStack) && currentFragment == old(currentFragment)
      ensures !consumedByFragment && old(fragmentStack) != [] ==>
        && fragmentStack == old(fragmentStack)[..|old(fragmentStack)| - 1]
        && currentFragment == Some(Recreate(old(fragmentStack)[|old(fragmentStack)| - 1]))
    {
      leavesActivity := false;
      if !consumedByFragment {
        var popped := PopFragment();
        leavesActivity := !popped;
      }
    }

    /** `onToolbarCreated`: the toolbar gets the up indicator exactly when going back would pop a fragment. */
    method OnToolbarCreated() returns (upIndicator: bool)
      ensures upIndicator <==> |fragmentStack| > 0
    {
      upIndicator := fragmentStack != [];
    }

    /**
     * `handleSpecialIntent(Updates)`: unless the tabs are shown, forget the
     * whole stack and show new tabs; either way the tabs are shown afterwards,
     * so the cast that selects the updates tab succeeds.
     */
    method HandleUpdates()
      modifies this
      ensures IsTabs(old(currentFragment)) ==>
        fragmentStack == old(fragmentStack) && currentFragment == old(currentFragment)
      ensures !IsTabs(old(currentFragment)) ==>
        fragmentStack == [] && currentFragment == Some(TabsFragment())
      ensures IsTabs(currentFragment)
    {
      if !IsTabs(currentFragment) {
        fragmentStack := [];
        ReplaceFragment(TabsFragment());
      }
    }

    /**
     * `handleIntent`: a VIEW intent naming a package pushes its product page
     * (`appDetail`), unless that page is already shown; anything else changes nothing.
     */
    method HandleIntent(intent: Option<IntentPackage.Intent>, shownPackage: Fragment -> string,
                        appDetail: string -> Fragment, saved: Option<SavedState>)
      modifies this
      ensures ProductToOpen(intent, old(currentFragment), shownPackage).None? ==>
        fragmentStack == old(fragmentStack) && currentFragment == old(currentFragment)
      ensures ProductToOpen(intent, old(currentFragment), shownPackage).Some? ==>
        && currentFragment == Some(appDetail(ProductToOpen(intent, old(currentFragment), shownPackage).value))
        && fragmentStack ==
          if old(currentFragment).Some? then old(fragmentStack) + [StackItemOf(old(currentFragment).value, saved)]
          else old(fragmentStack)
    {
      if intent.Some? && intent.value.action == Some(IntentPackage.ActionView) {
        var packageName := IntentPackage.PackageName(intent.value);
        if packageName.Some? && packageName.value != [] {
          var fragment := currentFragment;
          if fragment.None? || fragment.value.className != AppDetailFragmentClass || shownPackage(fragment.value) != packageName.value {
            PushFragment(appDetail(packageName.value), saved);
          }
        }
      }
    }

    /** `onSaveInstanceState`: the stack is saved as it is. */
    method OnSaveInstanceState() returns (saved: seq<FragmentStackItem>)
      ensures saved == fragmentStack
    {
      saved := fragmentStack;
    }

    /**
     * The stack and navigation part of `onCreate`: a restored state appends
     * its saved stack (`+=`); a fresh start shows new tabs and, unless
     * launched from history, handles the launching intent.
     */
    method OnCreate(savedStack: Option<seq<FragmentStackItem>>, intent: Option<IntentPackage.Intent>,
                    launchedFromHistory: bool, shownPackage: Fragment -> string,
                    appDetail: string -> Fragment, saved: Option<SavedState>)
      modifies this
      ensures savedStack.Some? ==>
        fragmentStack == old(fragmentStack) + savedStack.value && currentFragment == old(currentFragment)
      ensures savedStack.None? && (launchedFromHistory || ProductToOpen(intent, Some(TabsFragment()), shownPackage).None?) ==>
        fragmentStack == old(fragmentStack) && currentFragment == Some(TabsFragment())
      ensures savedStack.None? && !launchedFromHistory && ProductToOpen(intent, Some(TabsFragment()), shownPackage).Some? ==>
        && fragmentStack == old(fragmentStack) + [StackItemOf(TabsFragment(), saved)]
        && currentFragment == Some(appDetail(ProductToOpen(intent, Some(TabsFragment()), shownPackage).value))
    {
      if savedStack.Some? {
        fragmentStack := fragmentStack + savedStack.value;
      } else {
        ReplaceFragment(TabsFragment());
        if !launchedFromHistory {
          HandleIntent(intent, shownPackage, appDetail, saved);
        }
      }
    }
  }

  /** Going back after a push returns to the fragment that was shown, re-created with its saved state, and restores the stack. */
  method BackAfterPush(activity: ScreenActivity, fragment: Fragment, saved: Option<SavedState>)
    requires activity.currentFragment.Some?
    modifies activity
    ensures activity.fragmentStack == old(activity.fragmentStack)
    ensures activity.currentFragment ==
      Some(Fragment(old(activity.currentFragment).value.className, old(activity.currentFragment).value.arguments, saved))
  {
    activity.PushFragment(fragment, saved);
    var popped := activity.PopFragment();
    assert popped;
  }

  /**
   * Handling the same VIEW intent twice has the effect of handling it once:
   * after the first, the page shown is that package's detail page.
   */
  method RepeatedViewIntentOpensOnce(activity: ScreenActivity, intent: IntentPackage.Intent,
                                      shownPackage: Fragment -> string, appDetail: string -> Fragment,
                                      saved: Option<SavedState>)
    requires forall p :: appDetail(p).className == AppDetailFragmentClass && shownPackage(appDetail(p)) == p
    modifies activity
    ensures activity.fragmentStack ==
      if ProductToOpen(Some(intent), old(activity.currentFragment), shownPackage).Some? && old(activity.currentFragment).Some?
      then old(activity.fragmentStack) + [StackItemOf(old(activity.currentFragment).value, saved)]
      else old(activity.fragmentStack)
    ensures ProductToOpen(Some(intent), old(activity.currentFragment), shownPackage).Some? ==>
      activity.currentFragment == Some(appDetail(ProductToOpen(Some(intent), old(activity.currentFragment), shownPackage).value))
    ensures ProductToOpen(Some(intent), old(activity.currentFragment), shownPackage).None? ==>
      activity.currentFragment == old(activity.currentFragment)
  {
    activity.HandleIntent(Some(intent), shownPackage, appDetail, saved);
    var afterFirst := activity.fragmentStack;
    assert ProductToOpen(Some(intent), activity.currentFragment, shownPackage).None?;
    activity.HandleIntent(Some(intent), shownPackage, appDetail, saved);
    assert activity.fragmentStack == afterFirst;
  }

  /**
   * Saving the stack and creating a new activity from that saved state gives
   * the new activity the same stack.
   */
  method SaveThenRestore(activity: ScreenActivity, intent: Option<IntentPackage.Intent>, launchedFromHistory: bool,
                         shownPackage: Fragment -> string, appDetail: string -> Fragment, saved: Option<SavedState>)
    returns (recreated: ScreenActivity)
    ensures recreated.fragmentStack == activity.fragmentStack
  {
    var stack := activity.OnSaveInstanceState();
    recreated := new ScreenActivity();
    recreated.OnCreate(Some(stack), intent, launchedFromHistory, shownPackage, appDetail, saved);
  }
}
