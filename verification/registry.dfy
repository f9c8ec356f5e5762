/** The per-rule state of one `enhance` call and its transitions: the dedup-and-call step
    (`issueCallback`), the animation-start handler (`onNodeInserted`) and the scan run on
    content-loaded (`fallback`). The callback itself is recorded in an append-only log. */
module Registry {
  import opened Common
  import opened Dom
  import opened Features
  import opened Stylesheet

  /** One declared rule: its selector and the elements already handled (`elems`), which is
      `None` while the property is still `undefined`. */
  datatype Rule = Rule(selector: string, elems: Option<seq<Elem>>)

  /** One callback invocation: the rule whose callback ran and the element passed as the `this` argument of `call`. */
  datatype Call = Call(rule: string, context: Elem)

  /** `order` is the `for`-`in` enumeration order of the rule object's keys (it may name
      inherited keys, which are not in `rules`); `listening` says whether the
      animation-start handlers are attached; `log` is every callback invocation so far. */
  datatype State = State(order: seq<string>, rules: map<string, Rule>, listening: bool, log: seq<Call>)

  /** The TypeError thrown by reading `length` of an `elems` that was never initialised. */
  datatype Fault = LengthOfUndefined(rule: string)

  /** The result of `enhance`: the registry and the CSS rules inserted, in order. */
  datatype Enhanced = Enhanced(state: State, css: seq<string>)

  /** Element `e` is in the handled list of rule `name`. */
  predicate Handled(st: State, name: string, e: Elem)
  {
    name in st.rules && st.rules[name].elems.Some? && e in st.rules[name].elems.value
  }

  /** What every reachable state satisfies: every rule is enumerated; handled lists have no
      duplicates; the log records each (rule, element) pair at most once and records exactly
      the handled pairs; while the handlers are attached every handled list exists. */
  ghost predicate Inv(st: State)
  {
    && (forall n :: n in st.rules ==> n in st.order)
    && (forall n :: n in st.rules && st.rules[n].elems.Some? ==> NoDup(st.rules[n].elems.value))
    && NoDup(st.log)
    && (forall k :: 0 <= k < |st.log| ==> Handled(st, st.log[k].rule, st.log[k].context))
    && (forall n, e :: Handled(st, n, e) ==> Call(n, e) in st.log)
    && (st.listening ==> forall n :: n in st.rules ==> st.rules[n].elems.Some?)
  }

  /** `r` has the same rules, selectors, enumeration order and handler status as `st`, and
      the same rules have a handled list. */
  ghost predicate SameShape(st: State, r: State)
  {
    && r.order == st.order
    && r.listening == st.listening
    && r.rules.Keys == st.rules.Keys
    && forall n :: n in st.rules ==>
         && r.rules[n].selector == st.rules[n].selector
         && (r.rules[n].elems.Some? <==> st.rules[n].elems.Some?)
  }

  /** Every call logged after `st` is for a rule in `names`, on an element that rule's
      selector matches, and that rule had not handled before. */
  ghost predicate FreshCalls(st: State, r: State, names: seq<string>, matches: string -> seq<Elem>)
  {
    && Extends(st.log, r.log)
    && forall k :: |st.log| <= k < |r.log| ==>
         && r.log[k].rule in names
         && r.log[k].rule in st.rules
         && r.log[k].context in matches(st.rules[r.log[k].rule].selector)
         && !Handled(st, r.log[k].rule, r.log[k].context)
  }

  /** The backward scan of a handled list for `t`: the last index holding `t`, or -1. */
  function LastIndexOf(es: seq<Elem>, t: Elem): (i: int)
    ensures -1 <= i < |es|
    ensures i == -1 <==> t !in es
    ensures i >= 0 ==> es[i] == t && t !in es[i + 1..]
    decreases |es|
  {
    if es == [] then -1
    else if es[|es| - 1] == t then |es| - 1
    else
      var front := es[..|es| - 1];
      assert es == front + [es[|es| - 1]];
      LastIndexOf(front, t)
  }

  /** Calls rule `name`'s callback on `target` unless it has handled `target` before. */
  function IssueCallback(st: State, name: string, target: Elem): (r: Result<State, Fault>)
    requires name in st.rules
    ensures r.Success? <==> st.rules[name].elems.Some?
    ensures r.Success? ==> SameShape(st, r.value)
    ensures r.Success? ==> forall n :: n in st.rules && n != name ==> r.value.rules[n] == st.rules[n]
    ensures r.Success? ==> forall n, e :: Handled(r.value, n, e) <==> Handled(st, n, e) || (n == name && e == target)
    ensures r.Success? && Handled(st, name, target) ==> r.value == st
    ensures r.Success? && !Handled(st, name, target) ==> r.value.log == st.log + [Call(name, target)]
    ensures Inv(st) && r.Success? ==> Inv(r.value)
  {
    match st.rules[name].elems
    case None => Failure(LengthOfUndefined(name))
    case Some(es) =>
      if LastIndexOf(es, target) >= 0 then Success(st)
      else
        var rule := st.rules[name].(elems := Some(es + [target]));
        Success(st.(rules := st.rules[name := rule], log := st.log + [Call(name, target)]))
  }

  /** The animation-start handler: looks the rule up by the event's animation name. Nothing
      happens when the handlers are not attached or the name is not a rule. */
  function OnNodeInserted(st: State, animationName: string, target: Elem): (r: Result<State, Fault>)
    ensures Inv(st) ==> r.Success? && Inv(r.value)
    ensures !st.listening || animationName !in st.rules ==> r == Success(st)
    ensures st.listening && animationName in st.rules ==> (r.Success? <==> st.rules[animationName].elems.Some?)
    ensures r.Success? && st.listening && animationName in st.rules ==>
              && Handled(r.value, animationName, target)
              && (Handled(st, animationName, target) ==> r.value == st)
              && (!Handled(st, animationName, target) ==> r.value.log == st.log + [Call(animationName, target)])
    ensures r.Success? ==> SameShape(st, r.value)
    ensures r.Success? ==> forall n :: n in st.rules && n != animationName ==> r.value.rules[n] == st.rules[n]
    ensures r.Success? ==> Extends(st.log, r.value.log)
    ensures r.Success? ==> forall k :: |st.log| <= k < |r.value.log| ==> r.value.log[k] == Call(animationName, target)
  {
    if st.listening && animationName in st.rules then IssueCallback(st, animationName, target)
    else Success(st)
  }

  /** Issues the callback of rule `name` on each of `es` in turn; stops at the first fault. */
  function ScanElems(st: State, name: string, es: seq<Elem>): (r: Result<State, Fault>)
    requires name in st.rules
    ensures r.Success? <==> st.rules[name].elems.Some? || es == []
    ensures r.Success? ==> SameShape(st, r.value)
    ensures r.Success? ==> forall n :: n in st.rules && n != name ==> r.value.rules[n] == st.rules[n]
    decreases |es|
  {
    if es == [] then Success(st)
    else
      match IssueCallback(st, name, es[0])
      case Failure(f) => Failure(f)
      case Success(next) => ScanElems(next, name, es[1..])
  }

  /** After a successful `ScanElems`, rule `name` has handled exactly what it had handled
      before plus `es`; the log grew only by calls for elements of `es` it had not handled,
      and the invariant still holds. */
  lemma {:induction false} ScanElemsEffect(st: State, name: string, es: seq<Elem>)
    requires name in st.rules
    requires ScanElems(st, name, es).Success?
    ensures var r := ScanElems(st, name, es).value;
      && (forall n, e :: Handled(r, n, e) <==> Handled(st, n, e) || (n == name && e in es))
      && Extends(st.log, r.log)
      && (forall k :: |st.log| <= k < |r.log| ==>
            r.log[k].rule == name && r.log[k].context in es && !Handled(st, name, r.log[k].context))
      && (Inv(st) ==> Inv(r))
    decreases |es|
  {
    if es != [] {
      var next := IssueCallback(st, name, es[0]).value;
      ScanElemsEffect(next, name, es[1..]);
      var r := ScanElems(st, name, es).value;
      assert r == ScanElems(next, name, es[1..]).value;
      forall n, e
        ensures Handled(r, n, e) <==> Handled(st, n, e) || (n == name && e in es)
      {
        assert e in es <==> e == es[0] || e in es[1..];
      }
      assert Extends(next.log, r.log);
      assert Extends(st.log, next.log);
      assert |next.log| <= |st.log| + 1;
      forall k | |st.log| <= k < |r.log|
        ensures r.log[k].rule == name && r.log[k].context in es && !Handled(st, name, r.log[k].context)
      {
        if k < |next.log| {
          assert next.log == st.log + [Call(name, es[0])];
          assert r.log[k] == next.log[k];
        } else {
          assert r.log[k].context in es[1..];
        }
      }
    }
  }

  /** The body of the fallback's `for`-`in` loop over `names`: each own key's selector is
      resolved through `matches` and every element found goes through `IssueCallback`. */
  function ScanRules(st: State, names: seq<string>, matches: string -> seq<Elem>): (r: Result<State, Fault>)
    ensures r.Success? <==> forall n :: n in names && n in st.rules ==>
              st.rules[n].elems.Some? || matches(st.rules[n].selector) == []
    ensures r.Success? ==> SameShape(st, r.value)
    decreases |names|
  {
    if names == [] then Success(st)
    else if names[0] !in st.rules then ScanRules(st, names[1..], matches)
    else
      match ScanElems(st, names[0], matches(st.rules[names[0]].selector))
      case Failure(f) => Failure(f)
      case Success(next) => ScanRules(next, names[1..], matches)
  }

  /** After a successful `ScanRules`, each rule of `names` has also handled every element
      its selector matches, nothing else was handled, the log grew only by fresh calls for
      those matches, and the invariant still holds. */
  lemma {:induction false} ScanRulesEffect(st: State, names: seq<string>, matches: string -> seq<Elem>)
    requires ScanRules(st, names, matches).Success?
    ensures var r := ScanRules(st, names, matches).value;
      && (forall n, e :: Handled(r, n, e) <==>
            Handled(st, n, e) || (n in names && n in st.rules && e in matches(st.rules[n].selector)))
      && FreshCalls(st, r, names, matches)
      && (Inv(st) ==> Inv(r))
    decreases |names|
  {
    if names != [] {
      var r := ScanRules(st, names, matches).value;
      var rest := names[1..];
      if names[0] !in st.rules {
        ScanRulesEffect(st, rest, matches);
        forall n, e
          ensures Handled(r, n, e) <==>
            Handled(st, n, e) || (n in names && n in st.rules && e in matches(st.rules[n].selector))
        {
          assert n in names && n in st.rules <==> n in rest && n in st.rules;
        }
        forall k | |st.log| <= k < |r.log|
          ensures r.log[k].rule in names
        {
          assert r.log[k].rule in rest;
        }
      } else {
        var name := names[0];
        var next := ScanElems(st, name, matches(st.rules[name].selector)).value;
        ScanElemsEffect(st, name, matches(st.rules[name].selector));
        ScanRulesEffect(next, rest, matches);
        assert r == ScanRules(next, rest, matches).value;
        forall n, e
          ensures Handled(r, n, e) <==>
            Handled(st, n, e) || (n in names && n in st.rules && e in matches(st.rules[n].selector))
        {
          assert n in names <==> n == name || n in rest;
        }
        assert Extends(st.log, r.log);
        forall k | |st.log| <= k < |r.log|
          ensures && r.log[k].rule in names
                  && r.log[k].rule in st.rules
                  && r.log[k].context in matches(st.rules[r.log[k].rule].selector)
                  && !Handled(st, r.log[k].rule, r.log[k].context)
        {
          if k < |next.log| {
            assert r.log[k] == next.log[k];
          } else {
            assert r.log[k].rule in rest;
          }
        }
      }
    }
  }

  /** The content-loaded handler: scans every rule against the document snapshot `matches`,
      then detaches the animation-start handlers when `removeEventListener` exists. */
  function Fallback(st: State, matches: string -> seq<Elem>, hasRemoveListener: bool): (r: Result<State, Fault>)
    ensures r.Success? <==> forall n :: n in st.order && n in st.rules ==>
              st.rules[n].elems.Some? || matches(st.rules[n].selector) == []
    ensures r.Success? ==> r.value.listening == (st.listening && !hasRemoveListener)
    ensures r.Success? ==> r.value.order == st.order && r.value.rules.Keys == st.rules.Keys
    ensures r.Success? ==> forall n :: n in st.rules ==>
              && r.value.rules[n].selector == st.rules[n].selector
              && (r.value.rules[n].elems.Some? <==> st.rules[n].elems.Some?)
    ensures r.Success? ==> forall n, e :: Handled(r.value, n, e) <==>
              Handled(st, n, e) || (n in st.order && n in st.rules && e in matches(st.rules[n].selector))
    ensures r.Success? ==> FreshCalls(st, r.value, st.order, matches)
    ensures Inv(st) && r.Success? ==> Inv(r.value)
  {
    match ScanRules(st, st.order, matches)
    case Failure(f) => Failure(f)
    case Success(scanned) =>
      ScanRulesEffect(st, st.order, matches);
      Success(if hasRemoveListener then scanned.(listening := false) else scanned)
  }

  /** The rules as `enhance` leaves them: `elems` is set to the empty list only when the
      passive trigger is supported. */
  function InitialRules(selectors: map<string, string>, supported: bool): (rules: map<string, Rule>)
    ensures rules.Keys == selectors.Keys
    ensures forall n :: n in rules ==> rules[n].selector == selectors[n]
    ensures forall n :: n in rules ==> (rules[n].elems.Some? <==> supported)
    ensures forall n :: n in rules && rules[n].elems.Some? ==> rules[n].elems.value == []
  {
    map n | n in selectors :: Rule(selectors[n], if supported then Some([]) else None)
  }

  /** `enhance`: builds the registry, and when animations are supported inserts the CSS rules
      and attaches the animation-start handlers. `order` is the enumeration order of the
      rule object's keys, `selectors` its own properties. */
  function Enhance(cap: Capability, order: seq<string>, selectors: map<string, string>): (r: Enhanced)
    requires forall n :: n in selectors ==> n in order
    ensures Inv(r.state)
    ensures r.state.order == order && r.state.log == [] && r.state.listening == cap.supported
    ensures forall n :: n in r.state.rules <==> n in selectors
    ensures forall n :: n in selectors ==>
              && r.state.rules[n].selector == selectors[n]
              && r.state.rules[n].elems == (if cap.supported then Some([]) else None)
    ensures !cap.supported ==> r.css == []
    ensures cap.supported ==> |r.css| == 2 * |OwnKeys(order, selectors)|
    ensures cap.supported ==> forall i :: 0 <= i < |OwnKeys(order, selectors)| ==>
              && OwnKeys(order, selectors)[i] in selectors
              && r.css[2 * i] == AnimationRule(selectors[OwnKeys(order, selectors)[i]], OwnKeys(order, selectors)[i], cap.prefix)
              && r.css[2 * i + 1] == KeyframesRule(OwnKeys(order, selectors)[i], cap.prefix)
  {
    CompileRulesLayoutAll(order, selectors, cap.prefix);
    var css := if cap.supported then CompileRules(order, selectors, cap.prefix) else [];
    Enhanced(State(order, InitialRules(selectors, cap.supported), cap.supported, []), css)
  }
}
