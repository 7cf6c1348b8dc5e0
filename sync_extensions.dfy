/**
 * `useSyncExtensions`: keep N compartments of an editor state in step with
 * N desired extensions, queueing one reconfigure effect per stale
 * compartment and committing all of them in a single state update.
 */
module UseSyncExtensions {
  import opened Wrappers
  import opened Extensions

  /** A CodeMirror `Compartment`, known by its identity. */
  datatype Compartment = Compartment(id: nat)

  /**
   * What an editor state holds in its compartments: `compartment.get(state)`
   * is the value under the compartment, `undefined` when it is absent.
   */
  type CompartmentMap = map<Compartment, Extension>

  /** `compartment.reconfigure(extension)` */
  datatype Effect = Reconfigure(compartment: Compartment, extension: Extension)

  /** The error thrown when the two lists are not parallel. */
  datatype SyncError = LengthMismatch

  /**
   * The outcome of one call: the effects queued, and the argument passed to
   * `setEditorState`, or `None` when it was not called.
   */
  datatype SyncOutcome = SyncOutcome(effects: seq<Effect>, committed: Option<CompartmentMap>)

  /**
   * The hook's test `!prevExtension || !extensionIsEqual(extension, prevExtension)`:
   * a compartment is stale exactly when it does not already hold the desired extension.
   */
  predicate IsStale(state: CompartmentMap, c: Compartment, e: Extension): (r: bool)
    ensures r <==> !(c in state && state[c] == e)
  {
    c !in state || !ExtensionIsEqual(e, state[c])
  }

  /**
   * The indices, among the first `n`, whose compartment is stale, in
   * increasing order: exactly the indices the loop queues an effect for.
   */
  function StaleIndices(cs: seq<Compartment>, es: seq<Extension>, state: CompartmentMap, n: nat): (q: seq<nat>)
    requires n <= |cs| && n <= |es|
    ensures forall k :: 0 <= k < |q| ==> q[k] < n
    ensures forall j, k :: 0 <= j < k < |q| ==> q[j] < q[k]
    ensures forall i :: i in q <==> 0 <= i < n && IsStale(state, cs[i], es[i])
  {
    if n == 0 then []
    else
      var prev := StaleIndices(cs, es, state, n - 1);
      if IsStale(state, cs[n - 1], es[n - 1]) then prev + [n - 1] else prev
  }

  /** The reconfigure effects for the given indices, in their order. */
  function EffectsAt(cs: seq<Compartment>, es: seq<Extension>, q: seq<nat>): (effs: seq<Effect>)
    requires forall k :: 0 <= k < |q| ==> q[k] < |cs| && q[k] < |es|
    ensures |effs| == |q|
    ensures forall k :: 0 <= k < |q| ==> effs[k] == Reconfigure(cs[q[k]], es[q[k]])
  {
    if q == [] then [] else EffectsAt(cs, es, q[..|q| - 1]) + [Reconfigure(cs[q[|q| - 1]], es[q[|q| - 1]])]
  }

  /** The effects the hook queues for the first `n` compartments. */
  function QueuedEffects(cs: seq<Compartment>, es: seq<Extension>, state: CompartmentMap, n: nat): seq<Effect>
    requires n <= |cs| && n <= |es|
  {
    EffectsAt(cs, es, StaleIndices(cs, es, state, n))
  }

  /** One more compartment adds its effect at the end, exactly when it is stale. */
  lemma QueuedEffectsStep(cs: seq<Compartment>, es: seq<Extension>, state: CompartmentMap, n: nat)
    requires n < |cs| && n < |es|
    ensures QueuedEffects(cs, es, state, n + 1) ==
            QueuedEffects(cs, es, state, n) + (if IsStale(state, cs[n], es[n]) then [Reconfigure(cs[n], es[n])] else [])
  {
  }

  /**
   * `state.update({ effects }).state`, as far as compartments go: every
   * effect writes its extension into its compartment, in order, so a
   * later effect on the same compartment wins.
   */
  function ApplyEffects(state: CompartmentMap, effs: seq<Effect>): (next: CompartmentMap)
    ensures next.Keys == state.Keys + set k | 0 <= k < |effs| :: effs[k].compartment
  {
    if effs == [] then state
    else
      var last := effs[|effs| - 1];
      ApplyEffects(state, effs[..|effs| - 1])[last.compartment := last.extension]
  }

  /**
   * A compartment several effects name ends up holding the extension of the
   * last of them: the later effect wins.
   */
  lemma {:induction false} ApplyEffectsLastWins(state: CompartmentMap, effs: seq<Effect>, k: nat)
    requires k < |effs|
    requires forall j :: k < j < |effs| ==> effs[j].compartment != effs[k].compartment
    ensures effs[k].compartment in ApplyEffects(state, effs)
    ensures ApplyEffects(state, effs)[effs[k].compartment] == effs[k].extension
  {
    if k < |effs| - 1 {
      var init := effs[..|effs| - 1];
      assert init[k] == effs[k];
      ApplyEffectsLastWins(state, init, k);
    }
  }

  /** Each compartment is listed at most once. */
  predicate Distinct(cs: seq<Compartment>) {
    forall i, j :: 0 <= i < j < |cs| ==> cs[i] != cs[j]
  }

  /** A compartment no effect mentions keeps its value, or stays absent. */
  lemma {:induction false} ApplyEffectsElsewhere(state: CompartmentMap, effs: seq<Effect>, c: Compartment)
    requires forall k :: 0 <= k < |effs| ==> effs[k].compartment != c
    ensures c in ApplyEffects(state, effs) <==> c in state
    ensures c in state ==> ApplyEffects(state, effs)[c] == state[c]
  {
    if effs != [] {
      ApplyEffectsElsewhere(state, effs[..|effs| - 1], c);
    }
  }

  /** A compartment exactly one effect mentions ends up holding that effect's extension. */
  lemma {:induction false} ApplyEffectsOnly(state: CompartmentMap, effs: seq<Effect>, k: nat)
    requires k < |effs|
    requires forall j :: 0 <= j < |effs| && j != k ==> effs[j].compartment != effs[k].compartment
    ensures effs[k].compartment in ApplyEffects(state, effs)
    ensures ApplyEffects(state, effs)[effs[k].compartment] == effs[k].extension
  {
    if k < |effs| - 1 {
      var init := effs[..|effs| - 1];
      assert init[k] == effs[k];
      ApplyEffectsOnly(state, init, k);
    }
  }

  /** After the committed update, listed compartment `i` holds its desired extension. */
  lemma {:induction false} SyncReachesDesiredAt(cs: seq<Compartment>, es: seq<Extension>, state: CompartmentMap, i: nat)
    requires |cs| == |es| && Distinct(cs) && i < |cs|
    ensures var next := ApplyEffects(state, QueuedEffects(cs, es, state, |cs|));
            cs[i] in next && next[cs[i]] == es[i]
  {
    var q := StaleIndices(cs, es, state, |cs|);
    var effs := QueuedEffects(cs, es, state, |cs|);
    if IsStale(state, cs[i], es[i]) {
      var k :| 0 <= k < |q| && q[k] == i;
      forall j | 0 <= j < |effs| && j != k
        ensures effs[j].compartment != effs[k].compartment
      {
        assert q[j] != q[k];
      }
      ApplyEffectsOnly(state, effs, k);
    } else {
      forall k | 0 <= k < |effs|
        ensures effs[k].compartment != cs[i]
      {
        assert q[k] != i;
      }
      ApplyEffectsElsewhere(state, effs, cs[i]);
    }
  }

  /**
   * After the committed update every listed compartment holds its desired
   * extension, whether it was stale or already equal.
   */
  lemma SyncReachesDesired(cs: seq<Compartment>, es: seq<Extension>, state: CompartmentMap)
    requires |cs| == |es| && Distinct(cs)
    ensures var next := ApplyEffects(state, QueuedEffects(cs, es, state, |cs|));
            forall i :: 0 <= i < |cs| ==> cs[i] in next && next[cs[i]] == es[i]
  {
    forall i | 0 <= i < |cs|
      ensures var next := ApplyEffects(state, QueuedEffects(cs, es, state, |cs|));
              cs[i] in next && next[cs[i]] == es[i]
    {
      SyncReachesDesiredAt(cs, es, state, i);
    }
  }

  /** The committed update leaves every compartment that is not listed as it was. */
  lemma SyncLeavesUnlisted(cs: seq<Compartment>, es: seq<Extension>, state: CompartmentMap, c: Compartment)
    requires |cs| == |es| && c !in cs
    ensures var next := ApplyEffects(state, QueuedEffects(cs, es, state, |cs|));
            (c in next <==> c in state) && (c in state ==> next[c] == state[c])
  {
    var q := StaleIndices(cs, es, state, |cs|);
    var effs := QueuedEffects(cs, es, state, |cs|);
    forall k | 0 <= k < |effs|
      ensures effs[k].compartment != c
    {
      assert effs[k].compartment == cs[q[k]];
    }
    ApplyEffectsElsewhere(state, effs, c);
  }

  /** Nothing is queued, and so nothing is committed, exactly when no compartment is stale. */
  lemma NothingQueuedWhenInSync(cs: seq<Compartment>, es: seq<Extension>, state: CompartmentMap)
    requires |cs| == |es|
    ensures QueuedEffects(cs, es, state, |cs|) == [] <==>
            forall i :: 0 <= i < |cs| ==> cs[i] in state && state[cs[i]] == es[i]
  {
  }

  /** Syncing again against the state just committed queues nothing. */
  lemma {:induction false} SyncIdempotent(cs: seq<Compartment>, es: seq<Extension>, state: CompartmentMap)
    requires |cs| == |es| && Distinct(cs)
    ensures QueuedEffects(cs, es, ApplyEffects(state, QueuedEffects(cs, es, state, |cs|)), |cs|) == []
  {
    var next := ApplyEffects(state, QueuedEffects(cs, es, state, |cs|));
    SyncReachesDesired(cs, es, state);
  }

  /**
   * With a compartment listed twice under different extensions, the source is
   * not idempotent. From an empty state both listings are stale, the later
   * effect wins, and the next call finds the first listing stale again.
   */
  lemma DuplicateCompartmentRequeues()
    ensures var cs := [Compartment(1), Compartment(1)];
            var es := [Leaf(1), Leaf(2)];
            var next := ApplyEffects(map[], QueuedEffects(cs, es, map[], 2));
            QueuedEffects(cs, es, next, 2) != []
  {
  }

  /** First call of the alternation: only the first listing is stale. */
  lemma AlternationFirstCall(cs: seq<Compartment>, es: seq<Extension>, state: CompartmentMap)
    requires cs == [Compartment(1), Compartment(1)] && es == [Leaf(1), Leaf(2)]
    requires state == map[Compartment(1) := Leaf(2)]
    ensures StaleIndices(cs, es, state, 2) == [0]
  {
    assert StaleIndices(cs, es, state, 1) == [0];
  }

  /** Its commit installs the earlier listing's extension. */
  lemma AlternationCommit(cs: seq<Compartment>, es: seq<Extension>, state: CompartmentMap)
    requires cs == [Compartment(1), Compartment(1)] && es == [Leaf(1), Leaf(2)]
    requires state == map[Compartment(1) := Leaf(2)]
    ensures ApplyEffects(state, QueuedEffects(cs, es, state, 2)) == map[Compartment(1) := Leaf(1)]
  {
    AlternationFirstCall(cs, es, state);
    var effs := QueuedEffects(cs, es, state, 2);
    assert effs == [Reconfigure(Compartment(1), Leaf(1))];
    assert effs[..0] == [];
  }

  /** Second call of the alternation: only the later listing is stale. */
  lemma AlternationSecondCall(cs: seq<Compartment>, es: seq<Extension>, state: CompartmentMap)
    requires cs == [Compartment(1), Compartment(1)] && es == [Leaf(1), Leaf(2)]
    requires state == map[Compartment(1) := Leaf(1)]
    ensures StaleIndices(cs, es, state, 2) == [1]
  {
    assert StaleIndices(cs, es, state, 1) == [];
  }

  /**
   * With the compartment already holding the later listing's extension, only
   * the first listing is stale, so the commit installs the earlier extension,
   * and the next call finds the later listing stale: successive calls alternate.
   */
  lemma DuplicateCompartmentAlternates(cs: seq<Compartment>, es: seq<Extension>, state: CompartmentMap)
    requires cs == [Compartment(1), Compartment(1)] && es == [Leaf(1), Leaf(2)]
    requires state == map[Compartment(1) := Leaf(2)]
    ensures StaleIndices(cs, es, state, 2) == [0]
    ensures ApplyEffects(state, QueuedEffects(cs, es, state, 2)) == map[Compartment(1) := Leaf(1)]
    ensures StaleIndices(cs, es, ApplyEffects(state, QueuedEffects(cs, es, state, 2)), 2) == [1]
  {
    AlternationFirstCall(cs, es, state);
    AlternationCommit(cs, es, state);
    AlternationSecondCall(cs, es, map[Compartment(1) := Leaf(1)]);
  }

  /**
   * `useSyncExtensions(compartments, extensions, editorState, setEditorState)`.
   * Throws before doing anything when the lists differ in length; otherwise
   * queues, in compartment order, one effect per stale compartment, and calls
   * `setEditorState` once with all of them applied, or not at all when none
   * was queued.
   */
  method SyncExtensions(compartments: seq<Compartment>, extensions: seq<Extension>, editorState: CompartmentMap)
    returns (r: Result<SyncOutcome, SyncError>)
    ensures |compartments| != |extensions| <==> r == Err(LengthMismatch)
    ensures r.Ok? ==> r.value.effects == QueuedEffects(compartments, extensions, editorState, |compartments|)
    ensures r.Ok? ==> r.value.committed ==
                      if r.value.effects == [] then None else Some(ApplyEffects(editorState, r.value.effects))
  {
    if |compartments| != |extensions| {
      return Err(LengthMismatch);
    }
    var effects: seq<Effect> := [];
    var i := 0;
    while i < |compartments|
      invariant i <= |compartments|
      invariant effects == QueuedEffects(compartments, extensions, editorState, i)
    {
      var compartment := compartments[i];
      var extension := extensions[i];
      var prevExtension := if compartment in editorState then Some(editorState[compartment]) else None;
      QueuedEffectsStep(compartments, extensions, editorState, i);
      if prevExtension.None? || !ExtensionIsEqual(extension, prevExtension.value) {
        effects := effects + [Reconfigure(compartment, extension)];
      }
      i := i + 1;
    }
    if |effects| > 0 {
      return Ok(SyncOutcome(effects, Some(ApplyEffects(editorState, effects))));
    }
    return Ok(SyncOutcome(effects, None));
  }
}
