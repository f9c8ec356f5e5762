/** Properties of the registry that relate several transitions: idempotence of the
    fallback scan, and the at-most-once promise over any sequence of events. */
module Properties {
  import opened Common
  import opened Dom
  import opened Features
  import opened Registry

  /** An event the engine reacts to: an animation-start firing, or the content-loaded
      signal with the document snapshot the scan sees and whether `removeEventListener`
      exists. */
  datatype Event =
    | AnimationStart(animationName: string, target: Elem)
    | ContentLoaded(matches: string -> seq<Elem>, hasRemoveListener: bool)

  function Step(st: State, ev: Event): Result<State, Fault>
  {
    match ev
    case AnimationStart(name, target) => OnNodeInserted(st, name, target)
    case ContentLoaded(matches, hasRemoveListener) => Fallback(st, matches, hasRemoveListener)
  }

  /** Feeds `evs` to the engine in order; stops at the first fault. */
  function Run(st: State, evs: seq<Event>): Result<State, Fault>
    decreases |evs|
  {
    if evs == [] then Success(st)
    else
      match Step(st, evs[0])
      case Failure(f) => Failure(f)
      case Success(next) => Run(next, evs[1..])
  }

  /** Every rule has a handled list. */
  predicate AllInitialised(st: State)
  {
    forall n :: n in st.rules ==> st.rules[n].elems.Some?
  }

  /** A scan that finds nothing new changes nothing. */
  lemma {:induction false} ScanElemsHandledIsNoOp(st: State, name: string, es: seq<Elem>)
    requires name in st.rules
    requires forall e :: e in es ==> Handled(st, name, e)
    ensures ScanElems(st, name, es) == Success(st)
    decreases |es|
  {
    if es != [] {
      assert Handled(st, name, es[0]);
      assert IssueCallback(st, name, es[0]) == Success(st);
      ScanElemsHandledIsNoOp(st, name, es[1..]);
    }
  }

  lemma {:induction false} ScanRulesHandledIsNoOp(st: State, names: seq<string>, matches: string -> seq<Elem>)
    requires forall n, e :: n in names && n in st.rules && e in matches(st.rules[n].selector) ==> Handled(st, n, e)
    ensures ScanRules(st, names, matches) == Success(st)
    decreases |names|
  {
    if names != [] {
      if names[0] in st.rules {
        ScanElemsHandledIsNoOp(st, names[0], matches(st.rules[names[0]].selector));
      }
      ScanRulesHandledIsNoOp(st, names[1..], matches);
    }
  }

  /** Running the fallback again on the same document snapshot changes nothing and logs no
      further call. */
  lemma FallbackIdempotent(st: State, matches: string -> seq<Elem>, hasRemoveListener: bool)
    requires Fallback(st, matches, hasRemoveListener).Success?
    ensures var r := Fallback(st, matches, hasRemoveListener).value;
      Fallback(r, matches, hasRemoveListener) == Success(r)
  {
    var r := Fallback(st, matches, hasRemoveListener).value;
    ScanRulesHandledIsNoOp(r, r.order, matches);
  }

  /** After the fallback, every element that any rule's selector matches has had that
      rule's callback called on it, exactly once. */
  lemma FallbackCoversMatches(st: State, matches: string -> seq<Elem>, hasRemoveListener: bool)
    requires Inv(st)
    requires Fallback(st, matches, hasRemoveListener).Success?
    ensures var r := Fallback(st, matches, hasRemoveListener).value;
      && NoDup(r.log)
      && forall n, e :: n in st.rules && e in matches(st.rules[n].selector) ==> Call(n, e) in r.log
  {
    var r := Fallback(st, matches, hasRemoveListener).value;
    forall n, e | n in st.rules && e in matches(st.rules[n].selector)
      ensures Call(n, e) in r.log
    {
      assert n in st.order;
      assert Handled(r, n, e);
    }
  }

  /** Once the fallback has detached the handlers, no animation-start firing dispatches. */
  lemma FallbackStopsDispatch(st: State, matches: string -> seq<Elem>, name: string, target: Elem)
    requires Fallback(st, matches, true).Success?
    ensures var r := Fallback(st, matches, true).value;
      OnNodeInserted(r, name, target) == Success(r)
  {
  }

  /** Any run of events keeps the invariant and only appends to the log. */
  lemma {:induction false} RunKeepsInv(st: State, evs: seq<Event>)
    requires Inv(st)
    requires Run(st, evs).Success?
    ensures Inv(Run(st, evs).value)
    ensures Extends(st.log, Run(st, evs).value.log)
    ensures Run(st, evs).value.rules.Keys == st.rules.Keys
    decreases |evs|
  {
    if evs != [] {
      var next := Step(st, evs[0]).value;
      RunKeepsInv(next, evs[1..]);
    }
  }

  /** With the passive trigger supported, every handled list exists from the start, so no
      sequence of events faults. */
  lemma {:induction false} RunNeverFaultsWhenInitialised(st: State, evs: seq<Event>)
    requires AllInitialised(st)
    ensures Run(st, evs).Success?
    decreases |evs|
  {
    if evs != [] {
      var r := Step(st, evs[0]);
      assert r.Success? && AllInitialised(r.value);
      RunNeverFaultsWhenInitialised(r.value, evs[1..]);
    }
  }

  /** The central promise: from a fresh `enhance`, whatever interleaving of animation-start
      firings and content-loaded scans follows, each (rule, element) pair gets its callback
      at most once, and only declared rules' callbacks are called. When animations are
      supported no event faults. */
  lemma AtMostOneCallbackPerElement(cap: Capability, order: seq<string>, selectors: map<string, string>, evs: seq<Event>)
    requires forall n :: n in selectors ==> n in order
    ensures cap.supported ==> Run(Enhance(cap, order, selectors).state, evs).Success?
    ensures Run(Enhance(cap, order, selectors).state, evs).Success? ==>
      var log := Run(Enhance(cap, order, selectors).state, evs).value.log;
      && NoDup(log)
      && forall k :: 0 <= k < |log| ==> log[k].rule in selectors
  {
    var st := Enhance(cap, order, selectors).state;
    if cap.supported {
      RunNeverFaultsWhenInitialised(st, evs);
    }
    if Run(st, evs).Success? {
      RunKeepsInv(st, evs);
    }
  }

  /** The passive path works: after any run from a supported `enhance`, while the handlers
      are still attached, an animation-start firing for a declared rule leaves that rule's
      callback called on the firing's target, once. */
  lemma PassiveFiringCallsBack(cap: Capability, order: seq<string>, selectors: map<string, string>,
                               evs: seq<Event>, name: string, target: Elem)
    requires forall n :: n in selectors ==> n in order
    requires cap.supported
    requires name in selectors
    ensures var r := Run(Enhance(cap, order, selectors).state, evs);
      && r.Success?
      && (r.value.listening ==>
            && OnNodeInserted(r.value, name, target).Success?
            && Call(name, target) in OnNodeInserted(r.value, name, target).value.log
            && NoDup(OnNodeInserted(r.value, name, target).value.log))
  {
    var st := Enhance(cap, order, selectors).state;
    RunNeverFaultsWhenInitialised(st, evs);
    RunKeepsInv(st, evs);
    var r := Run(st, evs).value;
    if r.listening {
      assert name in r.rules;
      var next := OnNodeInserted(r, name, target).value;
      assert Handled(next, name, target);
    }
  }
}
