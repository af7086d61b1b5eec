/**
Segment bodies of the EDIFACT parser: elements of components, with delimiters as parameters.
The printer follows the release rule of section 5.1 of ISO 9735:1988, which puts the release
character before every service character in the text.
*/
module Edifact {

  datatype Delimiters = Delimiters(component: char, data: char, escape: char, terminator: char)

  type Component = string
  type Element = seq<Component>

  /** The terminator serves no other purpose. */
  predicate TerminatorApart(d: Delimiters) {
    d.terminator != d.component && d.terminator != d.data && d.terminator != d.escape
  }

  predicate AllApart(d: Delimiters) {
    TerminatorApart(d) && d.component != d.data && d.component != d.escape && d.data != d.escape
  }

  // ---------------------------------------------------------------- one element

  datatype Scan = Scan(components: Element, rest: string)

  /** The character loop of `parse_element` from any point of it. */
  function ScanElement(d: Delimiters, s: string, components: Element, current: Component, escaped: bool): Scan
    decreases |s|
  {
    if s == [] then Scan(components + [current], s)
    else if s[0] == d.component && !escaped then ScanElement(d, s[1..], components + [current], [], escaped)
    else if s[0] == d.escape then ScanElement(d, s[1..], components, current, !escaped)
    else if s[0] == d.data || s[0] == d.terminator then Scan(components + [current], s)
    else ScanElement(d, s[1..], components, current + [s[0]], false)
  }

  function ReadElement(d: Delimiters, s: string): Scan { ScanElement(d, s, [], [], false) }

  /** `rest` is the end of `s` from a separator, a terminator or the end on, and no terminator comes before. */
  ghost predicate StopsAt(d: Delimiters, s: string, rest: string) {
    && |rest| <= |s| && rest == s[|s| - |rest|..] && d.terminator !in s[..|s| - |rest|]
    && (rest == [] || rest[0] == d.data || rest[0] == d.terminator)
  }

  lemma StopsLater(d: Delimiters, s: string, rest: string)
    requires s != [] && s[0] != d.terminator && StopsAt(d, s[1..], rest)
    ensures StopsAt(d, s, rest) && |rest| < |s|
  {
    assert s == [s[0]] + s[1..];
  }

  /** The scan stops at a separator, a terminator or the end, and passes no terminator. */
  lemma {:induction false} ScanStops(d: Delimiters, s: string, components: Element, current: Component, escaped: bool)
    requires TerminatorApart(d)
    ensures StopsAt(d, s, ScanElement(d, s, components, current, escaped).rest)
    ensures s != [] && s[0] != d.data && s[0] != d.terminator ==>
              |ScanElement(d, s, components, current, escaped).rest| < |s|
    decreases |s|
  {
    hide StopsAt;
    if s == [] {
      StopsHere(d, s);
    } else if s[0] == d.component && !escaped {
      ScanStops(d, s[1..], components + [current], [], escaped);
      StopsLater(d, s, ScanElement(d, s[1..], components + [current], [], escaped).rest);
    } else if s[0] == d.escape {
      ScanStops(d, s[1..], components, current, !escaped);
      StopsLater(d, s, ScanElement(d, s[1..], components, current, !escaped).rest);
    } else if s[0] == d.data || s[0] == d.terminator {
      StopsHere(d, s);
    } else {
      ScanStops(d, s[1..], components, current + [s[0]], false);
      StopsLater(d, s, ScanElement(d, s[1..], components, current + [s[0]], false).rest);
    }
  }

  lemma StopsHere(d: Delimiters, s: string)
    requires s == [] || s[0] == d.data || s[0] == d.terminator
    ensures StopsAt(d, s, s)
  {}

  // ---------------------------------------------------------------- the segment body

  datatype Body = Body(elements: seq<Element>, rest: string)

  predicate AtTerminator(d: Delimiters, s: string) { s != [] && s[0] == d.terminator }

  /** One turn of the loop in `parse_segment`: an element, and a separator if one follows. */
  function Turn(d: Delimiters, b: Body): Body {
    var scan := ReadElement(d, b.rest);
    var rest := if scan.rest != [] && scan.rest[0] == d.data then scan.rest[1..] else scan.rest;
    Body(b.elements + [scan.components], rest)
  }

  /** `k` turns of the loop, or fewer if it is left before. */
  function Turns(d: Delimiters, b: Body, k: nat): Body
    decreases k
  {
    if k == 0 || AtTerminator(d, b.rest) then b else Turns(d, Turn(d, b), k - 1)
  }

  /** The loop is left after some number of turns. */
  ghost predicate Exits(d: Delimiters, b: Body) {
    exists k: nat :: AtTerminator(d, Turns(d, b, k).rest)
  }

  function FirstAt(s: string, c: char): (n: nat)
    requires c in s
    ensures n < |s| && s[n] == c && forall i :: 0 <= i < n ==> s[i] != c
  {
    if s[0] == c then 0
    else
      assert s == [s[0]] + s[1..];
      1 + FirstAt(s[1..], c)
  }

  lemma FirstAtUnique(s: string, c: char, n: nat)
    requires n < |s| && s[n] == c && forall i :: 0 <= i < n ==> s[i] != c
    ensures c in s && FirstAt(s, c) == n
  {
    hide FirstAt;
    var m := FirstAt(s, c);
  }

  lemma FirstAtShift(s: string, c: char, n: nat)
    requires n <= |s| && c !in s[..n] && c in s[n..]
    ensures c in s && s[n..][FirstAt(s[n..], c)..] == s[FirstAt(s, c)..]
  {
    hide FirstAt;
    var m := FirstAt(s[n..], c);
    forall i | 0 <= i < n + m ensures s[i] != c {
      if i < n { assert s[i] in s[..n]; } else { assert s[i] == s[n..][i - n]; }
    }
    FirstAtUnique(s, c, n + m);
    assert s[n..][m..] == s[n + m..];
  }

  /** A turn away from a terminator takes at least one character, and the first terminator stays put. */
  lemma TurnAdvances(d: Delimiters, b: Body)
    requires TerminatorApart(d) && b.rest != [] && !AtTerminator(d, b.rest)
    ensures var rest := Turn(d, b).rest;
            && |rest| < |b.rest| && rest == b.rest[|b.rest| - |rest|..]
            && d.terminator !in b.rest[..|b.rest| - |rest|]
  {
    hide ScanElement, StopsAt;
    ScanStops(d, b.rest, [], [], false);
    AfterStop(d, b.rest, ReadElement(d, b.rest).rest);
  }

  lemma AfterStop(d: Delimiters, s: string, stop: string)
    requires TerminatorApart(d) && StopsAt(d, s, stop) && s != [] && s[0] != d.terminator
    requires s[0] != d.data ==> |stop| < |s|
    ensures var rest := if stop != [] && stop[0] == d.data then stop[1..] else stop;
            |rest| < |s| && rest == s[|s| - |rest|..] && d.terminator !in s[..|s| - |rest|]
  {
    var n := |s| - |stop|;
    if stop != [] && stop[0] == d.data { assert s[..n + 1] == s[..n] + [s[n]]; }
  }

  /** The whole body, up to its terminator. */
  function ParseBody(d: Delimiters, b: Body): Body
    requires TerminatorApart(d) && d.terminator in b.rest
    decreases |b.rest|
  {
    if AtTerminator(d, b.rest) then b
    else
      TurnAdvances(d, b);
      assert b.rest == b.rest[..|b.rest| - |Turn(d, b).rest|] + Turn(d, b).rest;
      ParseBody(d, Turn(d, b))
  }

  lemma ParseStep(d: Delimiters, b: Body)
    requires TerminatorApart(d) && d.terminator in b.rest && !AtTerminator(d, b.rest)
    ensures |Turn(d, b).rest| < |b.rest| && d.terminator in Turn(d, b).rest
    ensures ParseBody(d, b) == ParseBody(d, Turn(d, b))
  {
    TurnAdvances(d, b);
    assert b.rest == b.rest[..|b.rest| - |Turn(d, b).rest|] + Turn(d, b).rest;
  }

  lemma ParseEnd(d: Delimiters, b: Body)
    requires TerminatorApart(d) && AtTerminator(d, b.rest)
    ensures ParseBody(d, b) == b
  {}

  /** The loop consumes everything before the first terminator and nothing else. */
  lemma {:induction false} ParseBodyStops(d: Delimiters, b: Body)
    requires TerminatorApart(d) && d.terminator in b.rest
    ensures ParseBody(d, b).rest == b.rest[FirstAt(b.rest, d.terminator)..]
    decreases |b.rest|
  {
    var s := b.rest;
    if !AtTerminator(d, s) {
      TurnAdvances(d, b);
      var rest := Turn(d, b).rest;
      var n := |s| - |rest|;
      assert s == s[..n] + rest;
      hide ParseBody, Turn, FirstAt;
      FirstAtShift(s, d.terminator, n);
      ParseBodyStops(d, Turn(d, b));
    }
  }

  /** It takes some number of turns, at most one a character. */
  lemma {:induction false} ParseBodyTurns(d: Delimiters, b: Body) returns (k: nat)
    requires TerminatorApart(d) && d.terminator in b.rest
    ensures k <= |b.rest| && Turns(d, b, k) == ParseBody(d, b) && AtTerminator(d, Turns(d, b, k).rest)
    decreases |b.rest|
  {
    hide Turn, ParseBody, TerminatorApart;
    k := 0;
    if AtTerminator(d, b.rest) {
      ParseEnd(d, b);
    } else {
      ParseStep(d, b);
      k := ParseBodyTurns(d, Turn(d, b));
      k := k + 1;
    }
  }

  /** Without a terminator no number of turns leaves the loop, and every turn adds an element. */
  lemma {:induction false} NeverExits(d: Delimiters, b: Body, k: nat)
    requires TerminatorApart(d) && d.terminator !in b.rest
    ensures !AtTerminator(d, Turns(d, b, k).rest) && |Turns(d, b, k).elements| == |b.elements| + k
    decreases k
  {
    hide Turn, TerminatorApart;
    if k > 0 {
      TurnMeetsNone(d, b);
      NeverExits(d, Turn(d, b), k - 1);
    }
  }

  lemma TurnMeetsNone(d: Delimiters, b: Body)
    requires TerminatorApart(d) && d.terminator !in b.rest
    ensures d.terminator !in Turn(d, b).rest && |Turn(d, b).elements| == |b.elements| + 1
  {
    if b.rest == [] {
      NoProgressAtEnd(d, b.elements);
    } else {
      TurnAdvances(d, b);
      hide ReadElement;
      var n := |b.rest| - |Turn(d, b).rest|;
      assert b.rest == b.rest[..n] + b.rest[n..];
    }
  }

  /** At the end of the input a turn consumes nothing and adds an empty element. */
  lemma NoProgressAtEnd(d: Delimiters, elements: seq<Element>)
    ensures Turn(d, Body(elements, [])) == Body(elements + [[[]]], [])
  {
    var none: Element := [];
    assert none + [[]] == [[]];
  }

  /** The loop of `parse_segment` terminates exactly when a terminator remains in the input. */
  lemma ExitsIff(d: Delimiters, b: Body)
    requires TerminatorApart(d)
    ensures Exits(d, b) <==> d.terminator in b.rest
  {
    if d.terminator in b.rest {
      var k := ParseBodyTurns(d, b);
    } else {
      forall k: nat ensures !AtTerminator(d, Turns(d, b, k).rest) {
        NeverExits(d, b, k);
      }
    }
  }

  // ---------------------------------------------------------------- the parser object

  class EdiParser {
    const delimiters: Delimiters
    var chars: string
    var position: nat

    constructor (delimiters: Delimiters, input: string)
      ensures this.delimiters == delimiters && chars == input && position == 0
    {
      this.delimiters, chars, position := delimiters, input, 0;
    }

    method ParseElement() returns (components: Element)
      modifies this
      ensures Scan(components, chars) == ReadElement(delimiters, old(chars))
      ensures position + |chars| == old(position + |chars|)
    {
      components := [];
      var current: Component := [];
      var escaped := false;
      while true
        invariant ScanElement(delimiters, chars, components, current, escaped) == ReadElement(delimiters, old(chars))
        invariant position + |chars| == old(position + |chars|)
        decreases |chars|
      {
        if chars == [] { break; }
        var c := chars[0];
        if c == delimiters.component && !escaped {
          components := components + [current];
          current := [];
          chars, position := chars[1..], position + 1;
        } else if c == delimiters.escape {
          escaped := !escaped;
          chars, position := chars[1..], position + 1;
        } else if c == delimiters.data || c == delimiters.terminator {
          break;
        } else {
          current := current + [c];
          chars, position := chars[1..], position + 1;
          escaped := false;
        }
      }
      components := components + [current];
    }

    /** The loop needs a terminator in the input; without one it would not end. */
    method ParseSegmentBody() returns (elements: seq<Element>)
      requires TerminatorApart(delimiters) && delimiters.terminator in chars
      modifies this
      ensures elements == ParseBody(delimiters, Body([], old(chars))).elements
      ensures chars == old(chars)[FirstAt(old(chars), delimiters.terminator) + 1..]
      ensures position + |chars| == old(position + |chars|)
    {
      hide ScanElement, ParseBody, FirstAt;
      elements := [];
      ghost var start := Body([], chars);
      ParseBodyStops(delimiters, start);
      while chars == [] || chars[0] != delimiters.terminator
        invariant delimiters.terminator in chars
        invariant ParseBody(delimiters, Body(elements, chars)) == ParseBody(delimiters, start)
        invariant position + |chars| == old(position + |chars|)
        decreases |chars|
      {
        ghost var before := Body(elements, chars);
        ParseStep(delimiters, before);
        var element := ParseElement();
        elements := elements + [element];
        if chars != [] && chars[0] == delimiters.data {
          chars, position := chars[1..], position + 1;
        }
        assert Body(elements, chars) == Turn(delimiters, before);
      }
      ParseEnd(delimiters, Body(elements, chars));
      chars, position := chars[1..], position + 1;
    }
  }

  // ---------------------------------------------------------------- printing and reading back

  predicate Service(d: Delimiters, c: char) {
    c == d.component || c == d.data || c == d.escape || c == d.terminator
  }

  /** The text with the release character before each service character. */
  function Release(d: Delimiters, text: Component): string {
    if text == [] then []
    else (if Service(d, text[0]) then [d.escape, text[0]] else [text[0]]) + Release(d, text[1..])
  }

  function PrintElement(d: Delimiters, e: Element): string
    requires e != []
  {
    if |e| == 1 then Release(d, e[0]) else Release(d, e[0]) + [d.component] + PrintElement(d, e[1..])
  }

  ghost predicate Printable(es: seq<Element>) {
    forall i :: 0 <= i < |es| ==> es[i] != []
  }

  function PrintBody(d: Delimiters, es: seq<Element>): string
    requires Printable(es)
  {
    if es == [] then []
    else if |es| == 1 then PrintElement(d, es[0])
    else PrintElement(d, es[0]) + [d.data] + PrintBody(d, es[1..])
  }

  /** Text the parser can give back: no separator of elements, no terminator, no release character. */
  predicate CleanText(d: Delimiters, text: Component) {
    d.data !in text && d.terminator !in text && d.escape !in text
  }

  predicate CleanElement(d: Delimiters, e: Element) {
    forall i :: 0 <= i < |e| ==> CleanText(d, e[i])
  }

  predicate Clean(d: Delimiters, es: seq<Element>) {
    forall i :: 0 <= i < |es| ==> CleanElement(d, es[i])
  }

  /** One empty element at the end is not there when the segment is read back. */
  function DropTrailing(es: seq<Element>): seq<Element> {
    if es != [] && es[|es| - 1] == [[]] then es[..|es| - 1] else es
  }

  lemma {:induction false} ScanText(d: Delimiters, text: Component, s: string, components: Element, current: Component)
    requires AllApart(d) && CleanText(d, text)
    ensures ScanElement(d, Release(d, text) + s, components, current, false) ==
            ScanElement(d, s, components, current + text, false)
    decreases |text|
  {
    if text == [] {
      assert Release(d, text) + s == s && current + text == current;
    } else {
      hide ScanElement, Release;
      var c, more := text[0], Release(d, text[1..]) + s;
      assert c in text;
      assert forall x :: x in text[1..] ==> x in text;
      ScanText(d, text[1..], s, components, current + [c]);
      assert current + [c] + text[1..] == current + text;
      ReleaseFirst(d, text, s);
      ScanFirst(d, c, more, components, current);
    }
  }

  lemma ReleaseFirst(d: Delimiters, text: Component, s: string)
    requires text != []
    ensures Release(d, text) + s ==
            (if Service(d, text[0]) then [d.escape, text[0]] else [text[0]]) + (Release(d, text[1..]) + s)
  {}

  /** One printed character is read back, unless it is a separator, a terminator or a release character. */
  lemma ScanFirst(d: Delimiters, c: char, more: string, components: Element, current: Component)
    requires AllApart(d) && c != d.data && c != d.escape && c != d.terminator
    ensures ScanElement(d, (if Service(d, c) then [d.escape, c] else [c]) + more, components, current, false) ==
            ScanElement(d, more, components, current + [c], false)
  {
    assert ([c] + more)[1..] == more;
    if c == d.component {
      var all := [d.escape, c] + more;
      assert all[1..] == [c] + more;
    }
  }

  lemma {:induction false} ScanPrinted(d: Delimiters, e: Element, s: string, components: Element)
    requires AllApart(d) && e != [] && CleanElement(d, e)
    requires s != [] && (s[0] == d.data || s[0] == d.terminator)
    ensures ScanElement(d, PrintElement(d, e) + s, components, [], false) == Scan(components + e, s)
    decreases |e|
  {
    var none: Component := [];
    assert none + e[0] == e[0];
    if |e| == 1 {
      ScanText(d, e[0], s, components, []);
      assert e == [e[0]];
    } else {
      var more := PrintElement(d, e[1..]) + s;
      assert PrintElement(d, e) + s == Release(d, e[0]) + ([d.component] + more);
      ScanText(d, e[0], [d.component] + more, components, []);
      assert ([d.component] + more)[1..] == more;
      ScanPrinted(d, e[1..], s, components + [e[0]]);
      assert components + [e[0]] + e[1..] == components + e;
    }
  }

  lemma PrintStarts(d: Delimiters, e: Element)
    requires AllApart(d) && e != [] && CleanElement(d, e)
    ensures PrintElement(d, e) == [] <==> e == [[]]
    ensures PrintElement(d, e) != [] ==> PrintElement(d, e)[0] != d.terminator
  {
    assert CleanText(d, e[0]);
    if e[0] != [] {
      assert e[0][0] in e[0];
    } else {
      assert Release(d, e[0]) == [];
      if |e| == 1 { assert e == [e[0]]; }
    }
  }

  /** Reading one printed element takes it and the separator after it. */
  lemma TurnPrinted(d: Delimiters, e: Element, elements: seq<Element>, s: string)
    requires AllApart(d) && e != [] && CleanElement(d, e)
    requires s != [] && (s[0] == d.data || s[0] == d.terminator)
    requires PrintElement(d, e) != [] || s[0] == d.data
    ensures var b := Body(elements, PrintElement(d, e) + s);
            !AtTerminator(d, b.rest) && Turn(d, b) == Body(elements + [e], if s[0] == d.data then s[1..] else s)
  {
    PrintStarts(d, e);
    ScanPrinted(d, e, s, []);
    var none: Element := [];
    assert none + e == e;
  }

  lemma {:induction false} ParsePrinted(d: Delimiters, es: seq<Element>, elements: seq<Element>, tail: string)
    requires AllApart(d) && Printable(es) && Clean(d, es)
    ensures var s := PrintBody(d, es) + ([d.terminator] + tail);
            d.terminator in s && ParseBody(d, Body(elements, s)) == Body(elements + DropTrailing(es), [d.terminator] + tail)
    decreases |es|
  {
    hide ParseBody, Turn, PrintElement, CleanElement;
    var end := [d.terminator] + tail;
    var s := PrintBody(d, es) + end;
    assert end[0] == d.terminator;
    assert s[|PrintBody(d, es)|] == d.terminator;
    if es == [] {
      assert s == end && elements + DropTrailing(es) == elements;
      ParseEnd(d, Body(elements, s));
    } else if |es| == 1 {
      ParseLastPrinted(d, es[0], elements, tail);
      assert es == [es[0]];
    } else {
      var more := PrintBody(d, es[1..]) + end;
      ParsePrinted(d, es[1..], elements + [es[0]], tail);
      assert s == PrintElement(d, es[0]) + ([d.data] + more);
      ParseFirstPrinted(d, es[0], elements, more);
      DropLater(es, elements);
    }
  }

  lemma DropLater(es: seq<Element>, elements: seq<Element>)
    requires |es| > 1
    ensures elements + [es[0]] + DropTrailing(es[1..]) == elements + DropTrailing(es)
  {}

  lemma ParseFirstPrinted(d: Delimiters, e: Element, elements: seq<Element>, more: string)
    requires AllApart(d) && e != [] && CleanElement(d, e) && d.terminator in more
    ensures var s := PrintElement(d, e) + ([d.data] + more);
            d.terminator in s && ParseBody(d, Body(elements, s)) == ParseBody(d, Body(elements + [e], more))
  {
    hide ParseBody, Turn, PrintElement, CleanElement;
    assert ([d.data] + more)[1..] == more;
    TurnPrinted(d, e, elements, [d.data] + more);
    ParseStep(d, Body(elements, PrintElement(d, e) + ([d.data] + more)));
  }

  lemma ParseLastPrinted(d: Delimiters, e: Element, elements: seq<Element>, tail: string)
    requires AllApart(d) && e != [] && CleanElement(d, e)
    ensures var s := PrintElement(d, e) + ([d.terminator] + tail);
            d.terminator in s && ParseBody(d, Body(elements, s)) == Body(elements + DropTrailing([e]), [d.terminator] + tail)
  {
    hide ParseBody, Turn, PrintElement, CleanElement;
    var end := [d.terminator] + tail;
    var s := PrintElement(d, e) + end;
    assert end[0] == d.terminator;
    assert s[|PrintElement(d, e)|] == d.terminator;
    PrintStarts(d, e);
    if e == [[]] {
      assert s == end && DropTrailing([e]) == [] && elements + [] == elements;
      ParseEnd(d, Body(elements, s));
    } else {
      TurnPrinted(d, e, elements, end);
      ParseStep(d, Body(elements, s));
      ParseEnd(d, Body(elements + [e], end));
      assert DropTrailing([e]) == [e];
    }
  }

  lemma {:induction false} ScanIsClean(d: Delimiters, s: string, components: Element, current: Component, escaped: bool)
    requires CleanElement(d, components) && CleanText(d, current)
    ensures CleanElement(d, ScanElement(d, s, components, current, escaped).components)
    decreases |s|
  {
    if s != [] {
      if s[0] == d.component && !escaped {
        ScanIsClean(d, s[1..], components + [current], [], escaped);
      } else if s[0] == d.escape {
        ScanIsClean(d, s[1..], components, current, !escaped);
      } else if s[0] == d.data || s[0] == d.terminator {
      } else {
        ScanIsClean(d, s[1..], components, current + [s[0]], false);
      }
    }
  }

  /** Whatever the input, no component that is read holds a separator, terminator or release character. */
  lemma {:induction false} ParseIsClean(d: Delimiters, b: Body)
    requires TerminatorApart(d) && d.terminator in b.rest && Clean(d, b.elements)
    ensures Clean(d, ParseBody(d, b).elements)
    decreases |b.rest|
  {
    hide ParseBody, ScanElement, TerminatorApart;
    if AtTerminator(d, b.rest) {
      ParseEnd(d, b);
    } else {
      ParseStep(d, b);
      ScanIsClean(d, b.rest, [], [], false);
      ParseIsClean(d, Turn(d, b));
    }
  }

  /** A printed segment reads back, less one trailing empty element, exactly when its text is clean. */
  lemma RoundTripIff(d: Delimiters, es: seq<Element>, tail: string)
    requires AllApart(d) && Printable(es)
    ensures d.terminator in PrintBody(d, es) + ([d.terminator] + tail)
    ensures ParseBody(d, Body([], PrintBody(d, es) + ([d.terminator] + tail))) ==
            Body(DropTrailing(es), [d.terminator] + tail)
            <==> Clean(d, es)
  {
    hide ParseBody, PrintBody, CleanElement;
    var none: seq<Element> := [];
    var s := PrintBody(d, es) + ([d.terminator] + tail);
    assert s[|PrintBody(d, es)|] == d.terminator;
    if Clean(d, es) {
      ParsePrinted(d, es, none, tail);
      assert none + DropTrailing(es) == DropTrailing(es);
    } else {
      ParseIsClean(d, Body(none, s));
      DropKeepsDirt(d, es);
    }
  }

  lemma DropKeepsDirt(d: Delimiters, es: seq<Element>)
    ensures Clean(d, DropTrailing(es)) ==> Clean(d, es)
  {
    if Clean(d, DropTrailing(es)) {
      forall i | 0 <= i < |es| ensures CleanElement(d, es[i]) {
        if i < |DropTrailing(es)| { assert DropTrailing(es)[i] == es[i]; }
      }
    }
  }

  /** After a release character an ordinary character and the component separator are read as themselves; a second
      release character undoes the first, and separator and terminator end the element all the same. */
  lemma ReleasedReads(d: Delimiters, c: char, more: string, components: Element, current: Component)
    requires AllApart(d)
    ensures var scan := ScanElement(d, [d.escape, c] + more, components, current, false);
            if c == d.data || c == d.terminator then scan == Scan(components + [current], [c] + more)
            else if c == d.escape then scan == ScanElement(d, more, components, current, false)
            else scan == ScanElement(d, more, components, current + [c], false)
  {
    var all := [d.escape, c] + more;
    assert all[1..] == [c] + more && ([c] + more)[1..] == more;
  }

  /** A released data separator still ends the element, so one element comes back as two. */
  lemma ReleasedSeparatorSplits(d: Delimiters, a: Component, b: Component, tail: string)
    requires AllApart(d) && CleanText(d, a) && CleanText(d, b) && b != []
    ensures var s := PrintBody(d, [[a + [d.data] + b]]) + ([d.terminator] + tail);
            d.terminator in s && ParseBody(d, Body([], s)) == Body([[a], [b]], [d.terminator] + tail)
  {
    var end := [d.terminator] + tail;
    var more := Release(d, b) + end;
    var s := PrintBody(d, [[a + [d.data] + b]]) + end;
    assert s == Release(d, a) + ([d.escape, d.data] + more) by {
      assert a + [d.data] + b == a + ([d.data] + b);
      ReleaseJoins(d, a, [d.data] + b);
      assert ([d.data] + b)[1..] == b;
    }
    assert s[|s| - |end|] == d.terminator;
    TurnSplits(d, a, more);
    ParseLastPrinted(d, [b], [[a]], tail);
    assert PrintElement(d, [b]) + end == more;
    hide ParseBody, Turn, PrintElement, PrintBody, Release;
    ParseStep(d, Body([], s));
    assert DropTrailing([[b]]) == [[b]];
  }

  lemma TurnSplits(d: Delimiters, a: Component, more: string)
    requires AllApart(d) && CleanText(d, a)
    ensures var b := Body([], Release(d, a) + ([d.escape, d.data] + more));
            !AtTerminator(d, b.rest) && Turn(d, b) == Body([[a]], more)
  {
    var s := [d.escape, d.data] + more;
    var none: Component, nothing: Element := [], [];
    assert s[1..] == [d.data] + more && ([d.data] + more)[1..] == more;
    ScanText(d, a, s, [], []);
    assert none + a == a && nothing + [a] == [a];
    ReleaseStarts(d, a, s);
    assert ScanElement(d, [d.data] + more, [], a, true) == Scan([a], [d.data] + more);
  }

  lemma ReleaseStarts(d: Delimiters, a: Component, s: string)
    requires AllApart(d) && CleanText(d, a) && s != [] && s[0] != d.terminator
    ensures !AtTerminator(d, Release(d, a) + s)
  {
    if a != [] { assert a[0] in a; }
  }

  lemma {:induction false} ReleaseJoins(d: Delimiters, a: Component, b: Component)
    ensures Release(d, a + b) == Release(d, a) + Release(d, b)
    decreases |a|
  {
    if a == [] {
      assert a + b == b;
    } else {
      assert (a + b)[1..] == a[1..] + b;
      ReleaseJoins(d, a[1..], b);
    }
  }
}
