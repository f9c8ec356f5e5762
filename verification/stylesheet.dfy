/** The CSS text the engine inserts for each rule: a near-zero-length animation scoped to
    the rule's selector, and the keyframes that animation names. */
module Stylesheet {
  import opened Common

  /** The fixed text before a style rule's animation name. */
  function AnimationHead(selector: string, prefix: string): string
  {
    selector + "{" + prefix + "animation:"
  }

  /** The fixed text after a style rule's animation name: a 1 ms duration. */
  const AnimationTail: string := " 0.001s;} "

  /** The fixed text before a keyframes definition's name. */
  function KeyframesHead(prefix: string): string
  {
    "@" + prefix + "keyframes "
  }

  /** The fixed text after a keyframes definition's name: an opacity change from 0.99 to 1. */
  const KeyframesTail: string := "{from{opacity:0.99;}to{opacity:1;}}"

  /** The text `rule` holds between `head` and `tail`, if it has that head and tail. */
  function Between(rule: string, head: string, tail: string): Option<string>
  {
    if |head| + |tail| <= |rule| && rule[..|head|] == head && rule[|rule| - |tail|..] == tail
    then Some(rule[|head|..|rule| - |tail|])
    else None
  }

  /** Framing `name` with a head and a tail and reading it back gives `name`. */
  lemma BetweenFramed(head: string, name: string, tail: string)
    ensures Between(head + name + tail, head, tail) == Some(name)
  {
  }

  /** The style rule that starts the animation `name` on every element matching `selector`. */
  function AnimationRule(selector: string, name: string, prefix: string): (rule: string)
    ensures |selector| <= |rule| && rule[..|selector|] == selector
    ensures AnimationNameOf(rule, selector, prefix) == Some(name)
  {
    var text := AnimationHead(selector, prefix) + name + AnimationTail;
    BetweenFramed(AnimationHead(selector, prefix), name, AnimationTail);
    assert text[..|selector|] == selector;
    text
  }

  /** The keyframes definition for the animation `name`. */
  function KeyframesRule(name: string, prefix: string): (rule: string)
    ensures KeyframesNameOf(rule, prefix) == Some(name)
  {
    BetweenFramed(KeyframesHead(prefix), name, KeyframesTail);
    KeyframesHead(prefix) + name + KeyframesTail
  }

  /** The text a style rule for a known selector and prefix holds between its fixed head
      and its fixed tail. */
  function AnimationNameOf(rule: string, selector: string, prefix: string): Option<string>
  {
    Between(rule, AnimationHead(selector, prefix), AnimationTail)
  }

  /** The text a keyframes definition for a known prefix holds between its fixed head and
      its fixed tail. */
  function KeyframesNameOf(rule: string, prefix: string): Option<string>
  {
    Between(rule, KeyframesHead(prefix), KeyframesTail)
  }

  /** Two rules with different names never share generated text, even on the same selector. */
  lemma GeneratedTextSeparatesNames(selector: string, name1: string, name2: string, prefix: string)
    requires name1 != name2
    ensures AnimationRule(selector, name1, prefix) != AnimationRule(selector, name2, prefix)
    ensures KeyframesRule(name1, prefix) != KeyframesRule(name2, prefix)
  {
    assert AnimationNameOf(AnimationRule(selector, name1, prefix), selector, prefix) == Some(name1);
    assert KeyframesNameOf(KeyframesRule(name1, prefix), prefix) == Some(name1);
  }

  /** The names of `order` that are own keys of the rule object, in enumeration order
      (the `hasOwnProperty` filter of the `for`-`in` loop). */
  function OwnKeys(order: seq<string>, selectors: map<string, string>): (r: seq<string>)
    ensures forall n :: n in r <==> n in order && n in selectors
    ensures |r| <= |order|
  {
    if order == [] then []
    else (if order[0] in selectors then [order[0]] else []) + OwnKeys(order[1..], selectors)
  }

  /** The rules inserted, in insertion order: for each own key, its style rule then its
      keyframes definition. */
  function CompileRules(order: seq<string>, selectors: map<string, string>, prefix: string): (css: seq<string>)
    ensures |css| == 2 * |OwnKeys(order, selectors)|
  {
    if order == [] then []
    else if order[0] in selectors then
      [AnimationRule(selectors[order[0]], order[0], prefix), KeyframesRule(order[0], prefix)]
        + CompileRules(order[1..], selectors, prefix)
    else CompileRules(order[1..], selectors, prefix)
  }

  /** Position `2i` holds the style rule and `2i+1` the keyframes of the `i`-th own key. */
  lemma {:induction false} CompileRulesLayout(order: seq<string>, selectors: map<string, string>, prefix: string, i: nat)
    requires i < |OwnKeys(order, selectors)|
    ensures OwnKeys(order, selectors)[i] in selectors
    ensures CompileRules(order, selectors, prefix)[2 * i]
         == AnimationRule(selectors[OwnKeys(order, selectors)[i]], OwnKeys(order, selectors)[i], prefix)
    ensures CompileRules(order, selectors, prefix)[2 * i + 1] == KeyframesRule(OwnKeys(order, selectors)[i], prefix)
    decreases |order|
  {
    var keys := OwnKeys(order, selectors);
    var css := CompileRules(order, selectors, prefix);
    assert keys[i] in keys;
    var restKeys := OwnKeys(order[1..], selectors);
    var restCss := CompileRules(order[1..], selectors, prefix);
    if order[0] in selectors {
      assert keys == [order[0]] + restKeys;
      assert css == [AnimationRule(selectors[order[0]], order[0], prefix), KeyframesRule(order[0], prefix)] + restCss;
      if i > 0 {
        CompileRulesLayout(order[1..], selectors, prefix, i - 1);
        assert keys[i] == restKeys[i - 1];
        assert css[2 * i] == restCss[2 * (i - 1)];
        assert css[2 * i + 1] == restCss[2 * (i - 1) + 1];
      }
    } else {
      assert keys == restKeys;
      assert css == restCss;
      CompileRulesLayout(order[1..], selectors, prefix, i);
    }
  }

  /** `CompileRulesLayout` for every position at once. */
  lemma CompileRulesLayoutAll(order: seq<string>, selectors: map<string, string>, prefix: string)
    ensures forall i :: 0 <= i < |OwnKeys(order, selectors)| ==>
              && OwnKeys(order, selectors)[i] in selectors
              && CompileRules(order, selectors, prefix)[2 * i]
                 == AnimationRule(selectors[OwnKeys(order, selectors)[i]], OwnKeys(order, selectors)[i], prefix)
              && CompileRules(order, selectors, prefix)[2 * i + 1] == KeyframesRule(OwnKeys(order, selectors)[i], prefix)
  {
    forall i | 0 <= i < |OwnKeys(order, selectors)|
      ensures && OwnKeys(order, selectors)[i] in selectors
              && CompileRules(order, selectors, prefix)[2 * i]
                 == AnimationRule(selectors[OwnKeys(order, selectors)[i]], OwnKeys(order, selectors)[i], prefix)
              && CompileRules(order, selectors, prefix)[2 * i + 1] == KeyframesRule(OwnKeys(order, selectors)[i], prefix)
    {
      CompileRulesLayout(order, selectors, prefix, i);
    }
  }
}
