/** Selector classification: which lookup primitive a selector string is given to,
    and with which argument (the engine's `getElements`). */
module Selectors {
  import opened Dom

  /** A character of the class `[a-zA-Z0-9-]`; every other character is "special". */
  predicate IsWordChar(c: char)
  {
    ('a' <= c <= 'z') || ('A' <= c <= 'Z') || ('0' <= c <= '9') || c == '-'
  }

  /** Every character of `s` is a word character. */
  predicate AllWord(s: string)
  {
    forall i :: 0 <= i < |s| ==> IsWordChar(s[i])
  }

  /** Position `k` holds the one and only special character of `s`. */
  predicate OnlySpecialAt(s: string, k: int)
  {
    && 0 <= k < |s|
    && !IsWordChar(s[k])
    && forall i :: 0 <= i < |s| && i != k ==> IsWordChar(s[i])
  }

  /** The special characters of `s`, in order: what a global match of
      `[^a-zA-Z0-9-]` collects (the empty list standing for the `null` of no match). */
  function SpecialChars(s: string): (r: string)
    ensures |r| <= |s|
    ensures forall i :: 0 <= i < |r| ==> !IsWordChar(r[i])
    ensures |r| == 0 <==> AllWord(s)
  {
    if s == [] then []
    else (if IsWordChar(s[0]) then [] else [s[0]]) + SpecialChars(s[1..])
  }

  /** The lookup strategy chosen for a selector, with the argument it is given. */
  datatype Lookup =
    | Tag(tagName: string)
    | Class(className: string)
    | Id(elementId: string)
    | Query(selector: string)

  /** The exactly-one-special-character case, characterised by position. */
  lemma {:induction false} SpecialCharsSingle(s: string)
    ensures |SpecialChars(s)| == 1 <==> exists k :: OnlySpecialAt(s, k)
    ensures forall k :: OnlySpecialAt(s, k) ==> SpecialChars(s) == [s[k]]
  {
    if s == [] {
    } else {
      var t := s[1..];
      SpecialCharsSingle(t);
      if IsWordChar(s[0]) {
        assert SpecialChars(s) == SpecialChars(t);
        forall k | OnlySpecialAt(s, k)
          ensures k >= 1 && OnlySpecialAt(t, k - 1)
        {
          assert k != 0;
          forall i | 0 <= i < |t| && i != k - 1
            ensures IsWordChar(t[i])
          {
            assert t[i] == s[i + 1];
          }
        }
        forall k | OnlySpecialAt(t, k)
          ensures OnlySpecialAt(s, k + 1)
        {
          forall i | 0 <= i < |s| && i != k + 1
            ensures IsWordChar(s[i])
          {
            if i > 0 { assert s[i] == t[i - 1]; }
          }
        }
        if |SpecialChars(s)| == 1 {
          var k :| OnlySpecialAt(t, k);
          assert OnlySpecialAt(s, k + 1);
        }
        if exists k :: OnlySpecialAt(s, k) {
          var k :| OnlySpecialAt(s, k);
          assert OnlySpecialAt(t, k - 1);
        }
      } else {
        assert SpecialChars(s) == [s[0]] + SpecialChars(t);
        forall k | OnlySpecialAt(s, k)
          ensures k == 0 && AllWord(t)
        {
          forall i | 0 <= i < |t|
            ensures IsWordChar(t[i])
          {
            assert t[i] == s[i + 1];
          }
        }
        if |SpecialChars(s)| == 1 {
          assert AllWord(t);
          forall i | 0 <= i < |s| && i != 0
            ensures IsWordChar(s[i])
          {
            assert s[i] == t[i - 1];
          }
          assert OnlySpecialAt(s, 0);
        }
      }
    }
  }

  /** Classifies `selector`. Exactly one strategy applies, and which one depends only on
      where the special characters are; the class and id branches drop the first
      character of the whole string, wherever the special character sits. */
  function Classify(selector: string, hasClassLookup: bool): (l: Lookup)
    ensures l == Tag(selector) <==> AllWord(selector)
    ensures l.Class? <==> hasClassLookup && exists k :: OnlySpecialAt(selector, k) && selector[k] == '.'
    ensures l.Id? <==> exists k :: OnlySpecialAt(selector, k) && selector[k] == '#'
    ensures l.Query? <==>
      && !AllWord(selector)
      && !(hasClassLookup && exists k :: OnlySpecialAt(selector, k) && selector[k] == '.')
      && !(exists k :: OnlySpecialAt(selector, k) && selector[k] == '#')
    ensures l.Class? ==> l.className == selector[1..]
    ensures l.Id? ==> l.elementId == selector[1..]
    ensures l.Query? ==> l.selector == selector
  {
    SpecialCharsSingle(selector);
    var special := SpecialChars(selector);
    if |special| == 0 then Tag(selector)
    else if |special| == 1 && special[0] == '.' && hasClassLookup then Class(selector[1..])
    else if |special| == 1 && special[0] == '#' then Id(selector[1..])
    else Query(selector)
  }

  /** The special character's position is not checked: `a.b` asks for the class `.b`. */
  lemma ClassIgnoresPosition()
    ensures Classify("a.b", true) == Class(".b")
  {
    assert SpecialChars("a.b") == ".";
  }

  /** Without `getElementsByClassName`, a class selector falls through to a full query. */
  lemma ClassNeedsClassLookup()
    ensures Classify(".note", true) == Class("note")
    ensures Classify(".note", false) == Query(".note")
  {
    assert SpecialChars(".note") == ".";
  }

  /** An underscore is special, so `my_tag` is not a tag lookup. */
  lemma UnderscoreIsSpecial()
    ensures Classify("my_tag", true) == Query("my_tag")
  {
    assert SpecialChars("my_tag") == "_";
  }

  /** The elements the chosen lookup returns. An id lookup is wrapped in a one-element
      list, so an absent id yields `[Null]`, never the empty list. */
  function GetElements(doc: Document, selector: string): (es: seq<Elem>)
    ensures AllWord(selector) ==> es == doc.byTag(selector)
    ensures (exists k :: OnlySpecialAt(selector, k) && selector[k] == '#') ==> es == [doc.byId(selector[1..])]
    ensures Classify(selector, doc.hasClassLookup).Class? ==> es == doc.byClass(selector[1..])
    ensures Classify(selector, doc.hasClassLookup).Query? ==> es == doc.query(selector)
  {
    match Classify(selector, doc.hasClassLookup)
    case Tag(name) => doc.byTag(name)
    case Class(name) => doc.byClass(name)
    case Id(name) => [doc.byId(name)]
    case Query(s) => doc.query(s)
  }

  /** The resolver the fallback scan uses for a document. */
  function Resolver(doc: Document): string -> seq<Elem>
  {
    s => GetElements(doc, s)
  }
}
