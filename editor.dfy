/**
 * `useEditor`: the bridge between a React component and one CodeMirror
 * `EditorView`. It decides which state is authoritative (the controlled
 * `state` option, or an internal store), forwards the view's transactions,
 * and on every commit creates, replaces, clears or resets the view so that
 * it sits in the current parent element and shows the effective state.
 */
module UseEditor {
  import opened Wrappers
  import opened Engine

  /** The parts of `UseViewOptions` the bridge reads. */
  datatype Options = Options(
    state: Option<EditorState>,
    defaultState: Option<EditorState>,
    hasDispatchTransactions: bool)

  /** `options.defaultState ?? EMPTY_STATE`: the seed of the internal store. */
  function InitialState(o: Options): (s: EditorState)
    ensures o.defaultState.Some? ==> s == o.defaultState.value
    ensures o.defaultState.None? ==> s == EmptyState
  {
    o.defaultState.GetOr(EmptyState)
  }

  /**
   * `options.state ?? _state`: the state the view must show. A controlled
   * editor shows the supplied state, whatever the internal store holds.
   */
  function EffectiveState(o: Options, store: EditorState): (s: EditorState)
    ensures o.state.Some? ==> s == o.state.value
    ensures o.state.None? ==> s == store
  {
    o.state.GetOr(store)
  }

  /** What the lifecycle effect can see of a view: the element it sits in and its state. */
  datatype ViewSnapshot = ViewSnapshot(parent: Element, state: EditorState)

  /** The one thing a lifecycle step does. */
  datatype LifecycleAction =
    | ClearView                                        // setView(null)
    | CreateView(parent: Element, state: EditorState)  // setView(new EditorView(...))
    | ResetState(state: EditorState)                   // view.setState(state)
    | KeepView                                         // nothing

  /** The branch the layout effect takes, given the parent, the current view and the effective state. */
  function PlanLifecycle(parent: Option<Element>, view: Option<ViewSnapshot>, desired: EditorState): (a: LifecycleAction)
    ensures a == ClearView <==> parent.None?
    ensures a == KeepView <==> parent.Some? && view == Some(ViewSnapshot(parent.value, desired))
    ensures a.CreateView? ==> a.parent == parent.value && a.state == desired
    ensures a.ResetState? ==> a.state == desired && view.Some? && view.value.parent == parent.value
  {
    if parent.None? then ClearView
    else if view.None? || view.value.parent != parent.value then CreateView(parent.value, desired)
    else if view.value.state != desired then ResetState(desired)
    else KeepView
  }

  /** The view after an action. */
  function ApplyLifecycle(view: Option<ViewSnapshot>, a: LifecycleAction): (after: Option<ViewSnapshot>)
    ensures a == ClearView ==> after.None?
    ensures a.CreateView? ==> after == Some(ViewSnapshot(a.parent, a.state))
    ensures a.ResetState? && view.Some? ==> after == Some(view.value.(state := a.state))
    ensures a == KeepView ==> after == view
  {
    match a
    case ClearView => None
    case CreateView(p, s) => Some(ViewSnapshot(p, s))
    case ResetState(s) => if view.Some? then Some(ViewSnapshot(view.value.parent, s)) else None
    case KeepView => view
  }

  /**
   * After a step there is no view exactly when there is no parent, and a
   * view present sits in that parent and shows the effective state.
   */
  lemma LifecycleAligns(parent: Option<Element>, view: Option<ViewSnapshot>, desired: EditorState)
    ensures var after := ApplyLifecycle(view, PlanLifecycle(parent, view, desired));
            after == if parent.None? then None else Some(ViewSnapshot(parent.value, desired))
  {
  }

  /** `setState` is called only when the view is kept and its state is not the effective one. */
  lemma LifecycleResetsOnlyStale(parent: Option<Element>, view: Option<ViewSnapshot>, desired: EditorState)
    ensures PlanLifecycle(parent, view, desired).ResetState? <==>
            parent.Some? && view.Some? && view.value.parent == parent.value && view.value.state != desired
  {
  }

  /** A second step with the same parent and effective state does nothing. */
  lemma LifecycleIdempotent(parent: Option<Element>, view: Option<ViewSnapshot>, desired: EditorState)
    ensures var after := ApplyLifecycle(view, PlanLifecycle(parent, view, desired));
            var again := PlanLifecycle(parent, after, desired);
            (again == KeepView || (again == ClearView && after.None?)) && ApplyLifecycle(after, again) == after
  {
  }

  /** An `EditorView`: mounted in a parent element, showing one state, destroyed at most once. */
  class View {
    var parent: Element
    var state: EditorState
    var destroyed: bool
    /** How many times `destroy()` was called on this view. */
    ghost var destroyCalls: nat
    /** The options captured by the `dispatchTransactions` closure this view was built with. */
    const dispatchOptions: Options

    constructor (parent: Element, state: EditorState, dispatchOptions: Options)
      ensures this.parent == parent && this.state == state && this.dispatchOptions == dispatchOptions
      ensures !destroyed && destroyCalls == 0
    {
      this.parent := parent;
      this.state := state;
      this.dispatchOptions := dispatchOptions;
      destroyed := false;
      destroyCalls := 0;
    }

    /** `view.setState(state)`: the view now shows `s` and stays where it is. */
    method SetState(s: EditorState)
      modifies this
      ensures state == s
      ensures parent == old(parent) && destroyed == old(destroyed) && destroyCalls == old(destroyCalls)
    {
      state := s;
    }

    /** `view.destroy()` */
    method Destroy()
      modifies this
      ensures destroyed && destroyCalls == old(destroyCalls) + 1
      ensures parent == old(parent) && state == old(state)
    {
      destroyed := true;
      destroyCalls := destroyCalls + 1;
    }
  }

  /** A call made to the user's `options.dispatchTransactions`. */
  datatype DispatchCall = DispatchCall(trs: seq<Transaction>, view: View)

  /** The module-level `didWarnValueDefaultValue` flag and the warning it guards. */
  class BothPropsWarning {
    var didWarnValueDefaultValue: bool
    /** How many times the warning was emitted. */
    ghost var emitted: nat

    ghost predicate Valid()
      reads this
    {
      emitted == if didWarnValueDefaultValue then 1 else 0
    }

    constructor ()
      ensures Valid() && !didWarnValueDefaultValue
    {
      didWarnValueDefaultValue := false;
      emitted := 0;
    }

    /**
     * The check at the top of each render: outside production, warn if both
     * `defaultState` and `state` are given and no warning was emitted before.
     */
    method Check(o: Options, development: bool) returns (warned: bool)
      requires Valid()
      modifies this
      ensures Valid() && emitted <= 1
      ensures warned <==> development && o.defaultState.Some? && o.state.Some? && !old(didWarnValueDefaultValue)
      ensures emitted == old(emitted) + (if warned then 1 else 0)
      ensures didWarnValueDefaultValue == (old(didWarnValueDefaultValue) || warned)
    {
      warned := false;
      if development {
        if o.defaultState.Some? && o.state.Some? && !didWarnValueDefaultValue {
          warned := true;
          didWarnValueDefaultValue := true;
          emitted := emitted + 1;
        }
      }
    }
  }

  /** One mounted `useEditor` hook: its React state and the views it made. */
  class Editor {
    /** The options of the latest render. */
    var options: Options
    /** `_state`, the internal store. */
    var internalState: EditorState
    /** `view`, the React state holding the live view. */
    var view: View?
    /** The calls made so far to the user's `dispatchTransactions`. */
    var dispatched: seq<DispatchCall>
    /** Every view this hook created. */
    ghost var created: set<View>

    /**
     * The live view is one this hook created; every other view it created
     * has been destroyed, exactly once, and the live one not at all.
     */
    ghost predicate Valid()
      reads this, created
    {
      && (view != null ==> view in created)
      && (forall v :: v in created ==> v.destroyed == (v != view))
      && (forall v :: v in created ==> v.destroyCalls == (if v == view then 0 else 1))
    }

    /** `state`, the effective state this render returns and the view must show. */
    function State(): EditorState
      reads this
    {
      EffectiveState(options, internalState)
    }

    /** The live view as the lifecycle effect sees it. */
    function Snapshot(): Option<ViewSnapshot>
      reads this, view
    {
      if view == null then None else Some(ViewSnapshot(view.parent, view.state))
    }

    /**
     * The hook's state on mount: the store is seeded from `defaultState`, or
     * the empty state, and there is no view yet. The mount render itself is
     * this constructor followed by `Render`, which runs the both-props check.
     */
    constructor (o: Options)
      ensures Valid()
      ensures options == o && internalState == InitialState(o)
      ensures view == null && dispatched == [] && created == {}
      ensures State() == if o.state.Some? then o.state.value else InitialState(o)
    {
      options := o;
      internalState := InitialState(o);
      view := null;
      dispatched := [];
      created := {};
    }

    /** A render: the new options take effect, after the both-props check. */
    method Render(o: Options, warning: BothPropsWarning, development: bool) returns (warned: bool)
      requires warning.Valid()
      modifies this`options, warning
      ensures options == o && warning.Valid() && warning.emitted <= 1
      ensures warned <==> development && o.defaultState.Some? && o.state.Some? && !old(warning.didWarnValueDefaultValue)
      ensures warning.didWarnValueDefaultValue == (old(warning.didWarnValueDefaultValue) || warned)
      ensures warning.emitted == old(warning.emitted) + (if warned then 1 else 0)
      ensures o.state.Some? ==> State() == o.state.value
    {
      warned := warning.Check(o, development);
      options := o;
    }

    /**
     * `dispatchTransactions(trs, view)`, the closure the view `v` was built
     * with. An empty list does nothing. Otherwise the store takes the last
     * transaction's state unless that closure's options were controlled,
     * and the user's callback, if any, gets the same list and view.
     */
    method DispatchTransactions(trs: seq<Transaction>, v: View)
      modifies this`internalState, this`dispatched
      ensures trs == [] ==> internalState == old(internalState) && dispatched == old(dispatched)
      ensures trs != [] && v.dispatchOptions.state.None? ==> internalState == trs[|trs| - 1].state
      ensures v.dispatchOptions.state.Some? ==> internalState == old(internalState)
      ensures dispatched == if trs != [] && v.dispatchOptions.hasDispatchTransactions
                            then old(dispatched) + [DispatchCall(trs, v)]
                            else old(dispatched)
      ensures options.state.Some? ==> State() == old(State())
    {
      if |trs| == 0 {
        return;
      }
      var newState := trs[|trs| - 1].state;
      var captured := v.dispatchOptions;
      if captured.state.None? {
        internalState := newState;
      }
      if captured.hasDispatchTransactions {
        dispatched := dispatched + [DispatchCall(trs, v)];
      }
    }

    /**
     * `setView(next)` followed by the cleanup keyed on `view`: when the
     * view changes, the one it replaces is destroyed.
     */
    method SetView(next: View?)
      requires Valid()
      requires next != null ==> next !in created && !next.destroyed && next.destroyCalls == 0
      modifies this`view, this`created, view
      ensures Valid()
      ensures view == next
      ensures created == old(created) + (if next == null then {} else {next})
      ensures next != null ==> next.parent == old(next.parent) && next.state == old(next.state)
    {
      if next != view {
        if view != null {
          view.Destroy();
        }
        view := next;
        if next != null {
          created := created + {next};
        }
      }
    }

    /**
     * The layout effect run after every commit. With no parent the view is
     * cleared; with a parent but no view, or a view in another element, a new
     * view is built in that parent with the effective state; otherwise the
     * view's state is reset if it is not the effective state.
     */
    method LifecycleStep(parent: Option<Element>) returns (a: LifecycleAction)
      requires Valid()
      modifies this`view, this`created, view
      ensures Valid()
      ensures a == PlanLifecycle(parent, old(Snapshot()), old(State()))
      ensures Snapshot() == ApplyLifecycle(old(Snapshot()), a)
      ensures a.CreateView? ==> view != null && fresh(view) && view.dispatchOptions == options
      ensures old(view) != null && old(view) != view ==> old(view).destroyed && old(view).destroyCalls == 1
      ensures a.ResetState? || a == KeepView ==> view == old(view)
      ensures created == old(created) + (if a.CreateView? then {view} else {})
      ensures State() == old(State())
    {
      var desired := State();
      if parent.None? {
        SetView(null);
        return ClearView;
      }
      if view == null || view.parent != parent.value {
        var newView := new View(parent.value, desired, options);
        SetView(newView);
        return CreateView(parent.value, desired);
      }
      if view.state != desired {
        view.SetState(desired);
        return ResetState(desired);
      }
      return KeepView;
    }

    /** Unmount: the cleanup keyed on `view` destroys the live view; every view made is now destroyed once. */
    method Unmount()
      requires Valid()
      modifies this`view, this`created, view
      ensures Valid() && view == null && created == old(created)
      ensures forall v :: v in created ==> v.destroyed && v.destroyCalls == 1
    {
      SetView(null);
    }
  }
}
