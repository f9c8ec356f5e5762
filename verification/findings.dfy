/** Two behaviours of the engine that defeat its evident purpose, each modelled as written
    (in `Registry` and `Selectors`) with an input that exhibits it, next to a corrected
    definition and the property the correction restores. */
module Findings {
  import opened Common
  import opened Dom
  import opened Features
  import opened Selectors
  import opened Registry
  import opened Properties

  // ---------------------------------------------------------------------------------
  // 1. Without animation support the fallback throws instead of calling back.

  /** As written: when animations are unsupported, the scan faults on the first rule whose
      selector matches anything, before any callback runs. */
  lemma UnsupportedFallbackFaults(cap: Capability, order: seq<string>, selectors: map<string, string>,
                                  matches: string -> seq<Elem>, hasRemoveListener: bool, name: string)
    requires forall n :: n in selectors ==> n in order
    requires !cap.supported
    requires name in selectors && matches(selectors[name]) != []
    ensures Fallback(Enhance(cap, order, selectors).state, matches, hasRemoveListener).Failure?
  {
    var st := Enhance(cap, order, selectors).state;
    assert name in st.order && name in st.rules;
    assert st.rules[name].elems == None;
  }

  /** The smallest instance: no animation support, one rule on `.note`, three notes in the
      document; the scan faults and no callback is ever issued. */
  lemma UnsupportedFallbackExample()
    ensures var st := Enhance(Detect(false, false), ["highlight"], map["highlight" := ".note"]).state;
      && st.log == []
      && Fallback(st, s => if s == ".note" then [Node(1), Node(2), Node(3)] else [], true).Failure?
  {
    UnsupportedFallbackFaults(Detect(false, false), ["highlight"], map["highlight" := ".note"],
      s => if s == ".note" then [Node(1), Node(2), Node(3)] else [], true, "highlight");
  }

  /** Corrected: the handled lists are created whether or not animations are supported;
      only the CSS rules and the handlers stay behind the capability check. */
  function EnhanceCorrected(cap: Capability, order: seq<string>, selectors: map<string, string>): (r: Enhanced)
    requires forall n :: n in selectors ==> n in order
    ensures Inv(r.state) && AllInitialised(r.state)
    ensures r.state.log == [] && r.state.listening == cap.supported
    ensures forall n :: n in r.state.rules <==> n in selectors
    ensures forall n :: n in selectors ==> r.state.rules[n] == Rule(selectors[n], Some([]))
    ensures r.css == Enhance(cap, order, selectors).css
  {
    var css := Enhance(cap, order, selectors).css;
    Enhanced(State(order, InitialRules(selectors, true), cap.supported, []), css)
  }

  /** With the correction, the fallback succeeds with or without animation support and
      calls every rule's callback once on every element its selector matches. */
  lemma CorrectedFallbackCallsEveryMatch(cap: Capability, order: seq<string>, selectors: map<string, string>,
                                         matches: string -> seq<Elem>, hasRemoveListener: bool)
    requires forall n :: n in selectors ==> n in order
    ensures var st := EnhanceCorrected(cap, order, selectors).state;
      && Fallback(st, matches, hasRemoveListener).Success?
      && NoDup(Fallback(st, matches, hasRemoveListener).value.log)
      && forall n, e :: n in selectors && e in matches(selectors[n]) ==>
           Call(n, e) in Fallback(st, matches, hasRemoveListener).value.log
  {
    var st := EnhanceCorrected(cap, order, selectors).state;
    assert Fallback(st, matches, hasRemoveListener).Success?;
    FallbackCoversMatches(st, matches, hasRemoveListener);
  }

  // ---------------------------------------------------------------------------------
  // 2. An id selector whose element is absent calls the callback with `null` as the `this` argument of `call`.

  /** As written: a supported registry with one rule on an id selector, in a document
      without that id, calls the rule's callback on `Null`. */
  lemma AbsentIdCallsBackWithNull(doc: Document, name: string, selector: string, hasRemoveListener: bool)
    requires Classify(selector, doc.hasClassLookup).Id?
    requires doc.byId(Classify(selector, doc.hasClassLookup).elementId) == Null
    ensures var st := Enhance(Detect(true, false), [name], map[name := selector]).state;
      && Fallback(st, Resolver(doc), hasRemoveListener).Success?
      && Call(name, Null) in Fallback(st, Resolver(doc), hasRemoveListener).value.log
  {
    var st := Enhance(Detect(true, false), [name], map[name := selector]).state;
    assert GetElements(doc, selector) == [Null];
    FallbackCoversMatches(st, Resolver(doc), hasRemoveListener);
  }

  /** Corrected lookup: an absent id yields the empty list. */
  function GetElementsCorrected(doc: Document, selector: string): (es: seq<Elem>)
    ensures Classify(selector, doc.hasClassLookup).Id? ==>
              (es == [] <==> doc.byId(Classify(selector, doc.hasClassLookup).elementId) == Null)
    ensures !Classify(selector, doc.hasClassLookup).Id? ==> es == GetElements(doc, selector)
    ensures Null !in es || Null in GetElements(doc, selector)
    ensures Classify(selector, doc.hasClassLookup).Id? ==>
              es == (if doc.byId(Classify(selector, doc.hasClassLookup).elementId) == Null then []
                     else GetElements(doc, selector))
  {
    match Classify(selector, doc.hasClassLookup)
    case Id(name) => if doc.byId(name) == Null then [] else [doc.byId(name)]
    case _ => GetElements(doc, selector)
  }

  /** The tag, class and query lookups of a real document never return `null`. */
  ghost predicate NullFreeLookups(doc: Document)
  {
    && (forall s :: Null !in doc.byTag(s))
    && (forall s :: Null !in doc.byClass(s))
    && (forall s :: Null !in doc.query(s))
  }

  /** The resolver the fallback scan uses with the corrected lookup. */
  function CorrectedResolver(doc: Document): string -> seq<Elem>
  {
    s => GetElementsCorrected(doc, s)
  }

  /** On a real document the corrected lookup never yields `Null`, for any selector. */
  lemma CorrectedLookupIsNullFree(doc: Document, selector: string)
    requires NullFreeLookups(doc)
    ensures Null !in GetElementsCorrected(doc, selector)
  {
    match Classify(selector, doc.hasClassLookup)
    case Tag(t) => assert Null !in doc.byTag(t);
    case Class(t) => assert Null !in doc.byClass(t);
    case Query(t) => assert Null !in doc.query(t);
    case Id(t) =>
  }

  /** With the corrected lookup, no callback is ever issued with `Null` as its context. */
  lemma CorrectedLookupNeverCallsBackWithNull(st: State, doc: Document, hasRemoveListener: bool)
    requires forall k :: 0 <= k < |st.log| ==> st.log[k].context != Null
    requires NullFreeLookups(doc)
    requires Fallback(st, CorrectedResolver(doc), hasRemoveListener).Success?
    ensures var r := Fallback(st, CorrectedResolver(doc), hasRemoveListener).value;
      forall k :: 0 <= k < |r.log| ==> r.log[k].context != Null
  {
    var r := Fallback(st, CorrectedResolver(doc), hasRemoveListener).value;
    forall k | |st.log| <= k < |r.log|
      ensures r.log[k].context != Null
    {
      var c := r.log[k];
      CorrectedLookupIsNullFree(doc, st.rules[c.rule].selector);
      assert c.context in GetElementsCorrected(doc, st.rules[c.rule].selector);
    }
    forall k | 0 <= k < |st.log|
      ensures r.log[k].context != Null
    {
      assert r.log[k] == st.log[k];
    }
  }
}
