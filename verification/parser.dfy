/**
  The converter's driver (`CDMarkdownParser`): it normalises the raw
  Markdown, gives every character the base font, colours and paragraph
  style, and then lets each element of its pipeline rewrite the attributed
  string in a fixed order. What an element does to the text is not part of
  this model: `Parse` takes it as the function `effect`.
 */
module Parsing {
  import opened Wrappers
  import opened StyledStrings
  import opened Normalizer
  import Lists

  /** Which element class an element object is an instance of. */
  datatype ElementKind =
    | CodeEscaping | Escaping
    | Header | List | Quote | Link | AutomaticLink | BoldItalic | Bold | Italic | Underline | Image
    | Code | Syntax | Unescaping
    | Custom(name: string)

  /** An element object; pipelines hold and compare these by identity. */
  class Element {
    const kind: ElementKind

    constructor (kind: ElementKind)
      ensures this.kind == kind
    {
      this.kind := kind;
    }
  }

  function Kinds(es: seq<Element>): (r: seq<ElementKind>)
    ensures |r| == |es|
  {
    seq(|es|, i requires 0 <= i < |es| => es[i].kind)
  }

  lemma KindsAppend(a: seq<Element>, b: seq<Element>)
    ensures Kinds(a + b) == Kinds(a) + Kinds(b)
  {
  }

  // ---------------------------------------------------------------------
  // Custom elements: identity search and removal
  // ---------------------------------------------------------------------

  /** `s` without the first occurrence of `e`; `s` itself when `e` is absent. */
  function RemoveFirst(s: seq<Element>, e: Element): (r: seq<Element>)
    ensures e !in s ==> r == s
    ensures e in s ==> |r| == |s| - 1
  {
    if s == [] then []
    else if s[0] == e then s[1..]
    else
      assert e in s ==> e in s[1..];
      [s[0]] + RemoveFirst(s[1..], e)
  }

  /** Exactly one copy of `e` leaves, when there is one; the other entries stay. */
  lemma {:induction false} RemoveFirstMultiset(s: seq<Element>, e: Element)
    ensures multiset(RemoveFirst(s, e)) == multiset(s) - multiset{e}
  {
    if s != [] {
      assert s == [s[0]] + s[1..];
      if s[0] != e {
        RemoveFirstMultiset(s[1..], e);
      }
    }
  }

  /** Removal cuts the sequence at the first position holding the very object `e`. */
  lemma {:induction false} RemoveFirstAt(s: seq<Element>, e: Element, i: nat)
    requires i < |s| && s[i] == e && e !in s[..i]
    ensures RemoveFirst(s, e) == s[..i] + s[i + 1..]
    decreases i
  {
    if i > 0 {
      assert s[0] == s[..i][0];
      assert s[1..][..i - 1] == s[..i][1..];
      RemoveFirstAt(s[1..], e, i - 1);
      assert s[..i] == [s[0]] + s[1..][..i - 1];
      assert s[i + 1..] == s[1..][i..];
    }
  }

  /**
    Adding an element and removing it again removes the first occurrence:
    the original sequence when the element was not in it, else the element
    moves to the end.
   */
  lemma {:induction false} AddThenRemove(s: seq<Element>, e: Element)
    ensures e !in s ==> RemoveFirst(s + [e], e) == s
    ensures e in s ==> RemoveFirst(s + [e], e) == RemoveFirst(s, e) + [e]
  {
    if s == [] {
      assert s + [e] == [e];
    } else if s[0] == e {
      assert (s + [e])[1..] == s[1..] + [e];
    } else {
      var t := s[1..];
      assert (s + [e])[0] == s[0] && (s + [e])[1..] == t + [e];
      assert RemoveFirst(s + [e], e) == [s[0]] + RemoveFirst(t + [e], e);
      assert e in s <==> e in t by {
        assert s == [s[0]] + t;
      }
      AddThenRemove(t, e);
      assert s == [s[0]] + t;
    }
  }

  // ---------------------------------------------------------------------
  // The automatic-link gate and the order of execution
  // ---------------------------------------------------------------------

  /** An element runs unless it is an automatic-link element and detection is off. */
  predicate Runs(e: Element, autoLinkEnabled: bool)
  {
    autoLinkEnabled || e.kind != AutomaticLink
  }

  /** The elements of `es` that run, in pipeline order. */
  function Executed(es: seq<Element>, autoLinkEnabled: bool): (r: seq<Element>)
    ensures |r| <= |es|
    decreases |es|
  {
    if es == [] then []
    else
      var last := es[|es| - 1];
      Executed(es[..|es| - 1], autoLinkEnabled) + (if Runs(last, autoLinkEnabled) then [last] else [])
  }

  /** A group whose every element passes the gate runs whole. */
  lemma {:induction false} ExecutedGroup(es: seq<Element>, autoLinkEnabled: bool)
    requires forall i :: 0 <= i < |es| ==> Runs(es[i], autoLinkEnabled)
    ensures Executed(es, autoLinkEnabled) == es
    decreases |es|
  {
    if es != [] {
      ExecutedGroup(es[..|es| - 1], autoLinkEnabled);
      assert es == es[..|es| - 1] + [es[|es| - 1]];
    }
  }

  /** With detection on, every element runs. */
  lemma ExecutedAllWhenEnabled(es: seq<Element>)
    ensures Executed(es, true) == es
  {
    ExecutedGroup(es, true);
  }

  /** The gate acts element by element, so it splits over the four groups. */
  lemma {:induction false} ExecutedAppend(a: seq<Element>, b: seq<Element>, autoLinkEnabled: bool)
    ensures Executed(a + b, autoLinkEnabled) == Executed(a, autoLinkEnabled) + Executed(b, autoLinkEnabled)
    decreases |b|
  {
    if b == [] {
      assert a + b == a;
    } else {
      ExecutedAppend(a, b[..|b| - 1], autoLinkEnabled);
      assert (a + b)[..|a + b| - 1] == a + b[..|b| - 1];
    }
  }

  /** An element runs exactly when it is in the pipeline and passes the gate. */
  lemma {:induction false} ExecutedMembership(es: seq<Element>, autoLinkEnabled: bool, x: Element)
    ensures x in Executed(es, autoLinkEnabled) <==> x in es && Runs(x, autoLinkEnabled)
    decreases |es|
  {
    if es != [] {
      ExecutedMembership(es[..|es| - 1], autoLinkEnabled, x);
      assert es == es[..|es| - 1] + [es[|es| - 1]];
    }
  }

  /** With detection off, the pipeline runs whole exactly when it holds no automatic-link element. */
  lemma ExecutedUnchangedIff(es: seq<Element>)
    ensures Executed(es, false) == es <==> forall i :: 0 <= i < |es| ==> es[i].kind != AutomaticLink
  {
    if forall i :: 0 <= i < |es| ==> es[i].kind != AutomaticLink {
      ExecutedGroup(es, false);
    } else {
      var j :| 0 <= j < |es| && es[j].kind == AutomaticLink;
      ExecutedMembership(es, false, es[j]);
      assert es[j] in es && es[j] !in Executed(es, false);
    }
  }

  /** The text after the elements `es` have each rewritten `v`, first to last. */
  function RunElements(es: seq<Element>, v: StyledValue, effect: (Element, StyledValue) -> StyledValue): StyledValue
    decreases |es|
  {
    if es == [] then v else effect(es[|es| - 1], RunElements(es[..|es| - 1], v, effect))
  }

  /** Running two groups is running the first and then the second on its output. */
  lemma {:induction false} RunElementsAppend(a: seq<Element>, b: seq<Element>, v: StyledValue,
                                             effect: (Element, StyledValue) -> StyledValue)
    ensures RunElements(a + b, v, effect) == RunElements(b, RunElements(a, v, effect), effect)
    decreases |b|
  {
    if b == [] {
      assert a + b == a;
    } else {
      RunElementsAppend(a, b[..|b| - 1], v, effect);
      assert (a + b)[..|a + b| - 1] == a + b[..|b| - 1];
    }
  }

  // ---------------------------------------------------------------------
  // Base attributes
  // ---------------------------------------------------------------------

  function BaseAttributes(font: nat, fontColor: nat, backgroundColor: nat, style: ParagraphStyle): Attributes
  {
    map[FontKey := FontValue(font), ForegroundColorKey := ColorValue(fontColor),
        BackgroundColorKey := ColorValue(backgroundColor), ParagraphStyleKey := ParagraphValue(style)]
  }

  /** Every character carries exactly the four base attributes. */
  function BaseStyled(chars: string, font: nat, fontColor: nat, backgroundColor: nat, style: ParagraphStyle): StyledValue
  {
    Styled(chars, seq(|chars|, _ => BaseAttributes(font, fontColor, backgroundColor, style)))
  }

  /**
    The four whole-range additions of font, foreground colour, background
    colour and paragraph style, applied to text without attributes, give
    every character exactly those four attributes.
   */
  lemma BaseAdditions(v: StyledValue, font: nat, fontColor: nat, backgroundColor: nat, style: ParagraphStyle)
    requires forall i :: 0 <= i < |v.attrs| ==> v.attrs[i] == map[]
    ensures var n := |v.chars|;
            var v1 := WithAttributes(v, map[FontKey := FontValue(font)], 0, n);
            var v2 := WithAttributes(v1, map[ForegroundColorKey := ColorValue(fontColor)], 0, n);
            var v3 := WithAttributes(v2, map[BackgroundColorKey := ColorValue(backgroundColor)], 0, n);
            WithAttributes(v3, map[ParagraphStyleKey := ParagraphValue(style)], 0, n)
            == BaseStyled(v.chars, font, fontColor, backgroundColor, style)
  {
    var n := |v.chars|;
    var m1: Attributes := map[FontKey := FontValue(font)];
    var m2: Attributes := map[ForegroundColorKey := ColorValue(fontColor)];
    var m3: Attributes := map[BackgroundColorKey := ColorValue(backgroundColor)];
    var m4: Attributes := map[ParagraphStyleKey := ParagraphValue(style)];
    var v1 := WithAttributes(v, m1, 0, n);
    var v2 := WithAttributes(v1, m2, 0, n);
    var v3 := WithAttributes(v2, m3, 0, n);
    assert WithAttributes(v3, m4, 0, n) == WithAttributes(v, m1 + m2 + m3 + m4, 0, n) by {
      WithAttributesCompose(v, m1, m2, 0, n);
      WithAttributesCompose(v, m1 + m2, m3, 0, n);
      WithAttributesCompose(v, m1 + m2 + m3, m4, 0, n);
    }
    assert m1 + m2 + m3 + m4 == BaseAttributes(font, fontColor, backgroundColor, style);
    WithAttributesOnBare(v, BaseAttributes(font, fontColor, backgroundColor, style));
  }

  /** The element kinds of the default group, with the image element only where the platform has one. */
  function DefaultKinds(withImage: bool): seq<ElementKind>
  {
    [Header, List, Quote, Link, AutomaticLink, BoldItalic, Bold, Italic, Underline]
    + (if withImage then [Image] else [])
  }

  /** The default group's kinds once the automatic-link gate has been applied. */
  function ExecutedDefaultKinds(withImage: bool, autoLinkEnabled: bool): seq<ElementKind>
  {
    [Header, List, Quote, Link] + (if autoLinkEnabled then [AutomaticLink] else [])
    + [BoldItalic, Bold, Italic, Underline] + (if withImage then [Image] else [])
  }

  /** Fresh element objects of the given kinds, in order. */
  method NewElements(kinds: seq<ElementKind>) returns (es: seq<Element>)
    ensures Kinds(es) == kinds
    ensures forall e | e in es :: fresh(e)
    ensures forall i, j | 0 <= i < j < |es| :: es[i] != es[j]
  {
    es := [];
    for i := 0 to |kinds|
      invariant Kinds(es) == kinds[..i]
      invariant forall e | e in es :: fresh(e)
      invariant forall i, j | 0 <= i < j < |es| :: es[i] != es[j]
    {
      var e := new Element(kinds[i]);
      es := es + [e];
      assert kinds[..i + 1] == kinds[..i] + [kinds[i]];
    }
  }

  class MarkdownParser {
    const escapingElements: seq<Element>
    const defaultElements: seq<Element>
    const unescapingElements: seq<Element>
    var customElements: seq<Element>

    const header: Element
    const list: Element
    const quote: Element
    const link: Element
    const automaticLink: Element
    const boldItalic: Element
    const bold: Element
    const italic: Element
    const underline: Element
    const code: Element
    const syntax: Element
    /** Present only on platforms with image support. */
    const image: Option<Element>

    const codeEscaping: Element
    const escaping: Element
    const unescaping: Element

    /** The configuration the parser hands to its list element. */
    const listFormat: Lists.MarkdownList

    var automaticLinkDetectionEnabled: bool
    const font: nat
    const fontColor: nat
    const backgroundColor: nat
    const paragraphStyle: ParagraphStyle

    /** The three fixed groups are laid out as the initializer builds them. */
    predicate Valid()
    {
      && escapingElements == [codeEscaping, escaping]
      && defaultElements == [header, list, quote, link, automaticLink, boldItalic, bold, italic, underline]
                            + (if image.Some? then [image.value] else [])
      && unescapingElements == [code, syntax, unescaping]
      && Kinds(escapingElements) == [CodeEscaping, Escaping]
      && Kinds(defaultElements) == DefaultKinds(image.Some?)
      && Kinds(unescapingElements) == [Code, Syntax, Unescaping]
    }

    constructor (font: nat, fontColor: nat, backgroundColor: nat, paragraphStyle: Option<ParagraphStyle>,
                 withImage: bool, automaticLinkDetectionEnabled: bool, customElements: seq<Element>)
      ensures Valid()
      ensures image.Some? == withImage
      ensures this.font == font && this.fontColor == fontColor && this.backgroundColor == backgroundColor
      ensures this.paragraphStyle == if paragraphStyle.Some? then paragraphStyle.value else ParserDefaultStyle
      ensures this.automaticLinkDetectionEnabled == automaticLinkDetectionEnabled
      ensures this.customElements == customElements
      ensures listFormat.Settings()
              == Lists.ListSettings(Lists.DefaultMaxLevel, Lists.DefaultIndicator, Lists.DefaultSeparator,
                                    Some(font), Some(fontColor), Some(backgroundColor),
                                    Some(if paragraphStyle.Some? then paragraphStyle.value else ListDefaultStyle))
    {
      // The elements receive the caller's paragraph style as given, so an
      // absent style leaves each element to its own default.
      var esc := NewElements([CodeEscaping, Escaping]);
      var dfl := NewElements(DefaultKinds(withImage));
      var unesc := NewElements([Code, Syntax, Unescaping]);
      this.font, this.fontColor, this.backgroundColor := font, fontColor, backgroundColor;
      this.paragraphStyle := if paragraphStyle.Some? then paragraphStyle.value else ParserDefaultStyle;
      codeEscaping, escaping := esc[0], esc[1];
      header, list, quote, link, automaticLink := dfl[0], dfl[1], dfl[2], dfl[3], dfl[4];
      boldItalic, bold, italic, underline := dfl[5], dfl[6], dfl[7], dfl[8];
      image := if withImage then Some(dfl[9]) else None;
      code, syntax, unescaping := unesc[0], unesc[1], unesc[2];
      this.automaticLinkDetectionEnabled := automaticLinkDetectionEnabled;
      escapingElements := esc;
      defaultElements := dfl;
      unescapingElements := unesc;
      assert esc == [esc[0], esc[1]];
      assert unesc == [unesc[0], unesc[1], unesc[2]];
      assert dfl == [dfl[0], dfl[1], dfl[2], dfl[3], dfl[4], dfl[5], dfl[6], dfl[7], dfl[8]]
                    + (if withImage then [dfl[9]] else []);
      this.customElements := customElements;
      listFormat := new Lists.MarkdownList(Some(font), Lists.DefaultMaxLevel, Lists.DefaultIndicator,
                                           Lists.DefaultSeparator, Some(fontColor), Some(backgroundColor),
                                           paragraphStyle);
    }

    /** addCustomElement(_:) */
    method AddCustomElement(element: Element)
      modifies this
      ensures customElements == old(customElements) + [element]
      ensures automaticLinkDetectionEnabled == old(automaticLinkDetectionEnabled)
    {
      customElements := customElements + [element];
    }

    /** removeCustomElement(_:): the first entry that is the very same object goes; nothing else changes. */
    method RemoveCustomElement(element: Element)
      modifies this
      ensures customElements == RemoveFirst(old(customElements), element)
      ensures automaticLinkDetectionEnabled == old(automaticLinkDetectionEnabled)
    {
      var i := 0;
      while i < |customElements| && customElements[i] != element
        invariant 0 <= i <= |customElements|
        invariant element !in customElements[..i]
      {
        i := i + 1;
      }
      if i == |customElements| {
        assert customElements[..i] == customElements;
        return;
      }
      RemoveFirstAt(customElements, element, i);
      customElements := customElements[..i] + customElements[i + 1..];
    }

    /** The elements in the order `parse` offers them: escaping, default, custom, unescaping. */
    function Pipeline(): seq<Element>
      reads this
    {
      escapingElements + defaultElements + customElements + unescapingElements
    }

    /**
      parse(_:) on plain text. The text is normalised, every character gets
      the base attributes, and then each element that passes the
      automatic-link gate rewrites the text in pipeline order. `ran` lists
      the elements that ran.
     */
    method Parse(markdown: string, effect: (Element, StyledValue) -> StyledValue)
      returns (result: StyledValue, ran: seq<Element>)
      ensures ran == Executed(Pipeline(), automaticLinkDetectionEnabled)
      ensures result == RunElements(ran, BaseStyled(Normalize(markdown), font, fontColor, backgroundColor, paragraphStyle), effect)
    {
      var s := CollapseNewlines(markdown);
      s := ReplaceOccurrences(s, NonBreakingSpaceEntity, " ");
      s := ReplaceOccurrences(s, SpaceSpaceBreakLiteral, ForcedBreak);
      s := StripLineStarts(s);
      s := IndentContinuations(s);
      var text := new StyledText.FromString(s);
      AddBaseAttributes(text);
      var elements := escapingElements + defaultElements + customElements + unescapingElements;
      ran := RunPipeline(text, elements, automaticLinkDetectionEnabled, effect);
      result := text.Value();
    }

    /** The four whole-range additions of the base font, colours and paragraph style. */
    method AddBaseAttributes(text: StyledText)
      requires text.Valid() && forall i :: 0 <= i < |text.attrs| ==> text.attrs[i] == map[]
      modifies text
      ensures text.Valid()
      ensures text.Value() == BaseStyled(old(text.chars), font, fontColor, backgroundColor, paragraphStyle)
    {
      BaseAdditions(text.Value(), font, fontColor, backgroundColor, paragraphStyle);
      var n := |text.chars|;
      text.AddAttribute(FontKey, FontValue(font), 0, n);
      text.AddAttribute(ForegroundColorKey, ColorValue(fontColor), 0, n);
      text.AddAttribute(BackgroundColorKey, ColorValue(backgroundColor), 0, n);
      text.AddAttribute(ParagraphStyleKey, ParagraphValue(paragraphStyle), 0, n);
    }

    /**
      The kinds that run, in order: the two escaping elements, the default
      group (without its automatic-link element when detection is off), the
      custom elements that pass the gate, then code, syntax and unescaping.
     */
    lemma ExecutionOrder(autoLinkEnabled: bool)
      requires Valid()
      ensures Kinds(Executed(Pipeline(), autoLinkEnabled))
              == [CodeEscaping, Escaping] + ExecutedDefaultKinds(image.Some?, autoLinkEnabled)
                 + Kinds(Executed(customElements, autoLinkEnabled)) + [Code, Syntax, Unescaping]
    {
      ExecutionOrderOf(escapingElements, defaultElements, customElements, unescapingElements,
                       image.Some?, autoLinkEnabled);

    }
  }

  /**
    The `forEach` over the assembled elements: each element that passes the
    gate rewrites the text in turn. `ran` lists the elements that ran.
   */
  method RunPipeline(text: StyledText, elements: seq<Element>, autoLinkEnabled: bool,
                     effect: (Element, StyledValue) -> StyledValue) returns (ran: seq<Element>)
    requires text.Valid()
    modifies text
    ensures text.Valid()
    ensures ran == Executed(elements, autoLinkEnabled)
    ensures text.Value() == RunElements(ran, old(text.Value()), effect)
  {
    ghost var base := text.Value();
    ran := [];
    var i := 0;
    while i < |elements|
      invariant 0 <= i <= |elements|
      invariant text.Valid()
      invariant ran == Executed(elements[..i], autoLinkEnabled)
      invariant text.Value() == RunElements(ran, base, effect)
    {
      var element := elements[i];
      assert elements[..i + 1] == elements[..i] + [element];
      if autoLinkEnabled || element.kind != AutomaticLink {
        var next := effect(element, text.Value());
        text.Assign(next);
        assert (ran + [element])[..|ran|] == ran;
        ran := ran + [element];
      }
      i := i + 1;
    }
    assert elements[..i] == elements;
  }

  /** The kinds of `ks` that pass the automatic-link gate. */
  function GateKinds(ks: seq<ElementKind>, autoLinkEnabled: bool): seq<ElementKind>
    decreases |ks|
  {
    if ks == [] then []
    else
      var last := ks[|ks| - 1];
      GateKinds(ks[..|ks| - 1], autoLinkEnabled)
      + (if autoLinkEnabled || last != AutomaticLink then [last] else [])
  }

  lemma {:induction false} KindsExecuted(es: seq<Element>, autoLinkEnabled: bool)
    ensures Kinds(Executed(es, autoLinkEnabled)) == GateKinds(Kinds(es), autoLinkEnabled)
    decreases |es|
  {
    if es != [] {
      var init := es[..|es| - 1];
      KindsExecuted(init, autoLinkEnabled);
      assert Kinds(es)[..|es| - 1] == Kinds(init);
      KindsAppend(Executed(init, autoLinkEnabled),
                  if Runs(es[|es| - 1], autoLinkEnabled) then [es[|es| - 1]] else []);
    }
  }

  lemma {:induction false} GateKindsAppend(a: seq<ElementKind>, b: seq<ElementKind>, autoLinkEnabled: bool)
    ensures GateKinds(a + b, autoLinkEnabled) == GateKinds(a, autoLinkEnabled) + GateKinds(b, autoLinkEnabled)
    decreases |b|
  {
    if b == [] {
      assert a + b == a;
    } else {
      GateKindsAppend(a, b[..|b| - 1], autoLinkEnabled);
      assert (a + b)[..|a + b| - 1] == a + b[..|b| - 1];
    }
  }

  lemma GateKindsWithout(ks: seq<ElementKind>, autoLinkEnabled: bool)
    requires AutomaticLink !in ks
    ensures GateKinds(ks, autoLinkEnabled) == ks
    decreases |ks|
  {
    if ks != [] {
      GateKindsWithout(ks[..|ks| - 1], autoLinkEnabled);
      assert ks == ks[..|ks| - 1] + [ks[|ks| - 1]];
    }
  }

  lemma GateSingle(k: ElementKind, autoLinkEnabled: bool)
    ensures GateKinds([k], autoLinkEnabled) == if autoLinkEnabled || k != AutomaticLink then [k] else []
  {
    assert [k][..0] == [];
  }

  /** The gate drops a lone automatic-link kind between kinds it keeps. */
  lemma GateAroundAutoLink(front: seq<ElementKind>, back: seq<ElementKind>, autoLinkEnabled: bool)
    requires AutomaticLink !in front && AutomaticLink !in back
    ensures GateKinds(front + [AutomaticLink] + back, autoLinkEnabled)
            == front + (if autoLinkEnabled then [AutomaticLink] else []) + back
  {
    GateKindsAppend(front + [AutomaticLink], back, autoLinkEnabled);
    GateKindsAppend(front, [AutomaticLink], autoLinkEnabled);
    GateKindsWithout(front, autoLinkEnabled);
    GateKindsWithout(back, autoLinkEnabled);
    GateSingle(AutomaticLink, autoLinkEnabled);
  }

  lemma GateDefaultKinds(withImage: bool, autoLinkEnabled: bool)
    ensures GateKinds(DefaultKinds(withImage), autoLinkEnabled) == ExecutedDefaultKinds(withImage, autoLinkEnabled)
  {
    var front: seq<ElementKind> := [Header, List, Quote, Link];
    var back: seq<ElementKind> := [BoldItalic, Bold, Italic, Underline] + (if withImage then [Image] else []);
    assert DefaultKinds(withImage) == front + [AutomaticLink] + back;
    assert ExecutedDefaultKinds(withImage, autoLinkEnabled)
           == front + (if autoLinkEnabled then [AutomaticLink] else []) + back;
    GateAroundAutoLink(front, back, autoLinkEnabled);
  }

  /**
    The order of execution for any pipeline laid out as the parser lays out
    its groups: fixed escaping elements first, the gated default group, the
    gated custom elements, the fixed unescaping elements last.
   */
  lemma ExecutionOrderOf(esc: seq<Element>, dfl: seq<Element>, custom: seq<Element>, unesc: seq<Element>,
                         withImage: bool, autoLinkEnabled: bool)
    requires Kinds(esc) == [CodeEscaping, Escaping]
    requires Kinds(dfl) == DefaultKinds(withImage)
    requires Kinds(unesc) == [Code, Syntax, Unescaping]
    ensures Kinds(Executed(esc + dfl + custom + unesc, autoLinkEnabled))
            == [CodeEscaping, Escaping] + ExecutedDefaultKinds(withImage, autoLinkEnabled)
               + Kinds(Executed(custom, autoLinkEnabled)) + [Code, Syntax, Unescaping]
  {
    var all := esc + dfl + custom + unesc;
    var e, d, c, u := Kinds(esc), Kinds(dfl), Kinds(custom), Kinds(unesc);
    assert Kinds(all) == e + d + c + u by {
      KindsAppend(esc + dfl + custom, unesc);
      KindsAppend(esc + dfl, custom);
      KindsAppend(esc, dfl);
    }
    assert GateKinds(e + d + c + u, autoLinkEnabled)
           == GateKinds(e, autoLinkEnabled) + GateKinds(d, autoLinkEnabled)
              + GateKinds(c, autoLinkEnabled) + GateKinds(u, autoLinkEnabled) by {
      GateKindsAppend(e + d + c, u, autoLinkEnabled);
      GateKindsAppend(e + d, c, autoLinkEnabled);
      GateKindsAppend(e, d, autoLinkEnabled);
    }
    assert GateKinds(e, autoLinkEnabled) == e by { GateKindsWithout(e, autoLinkEnabled); }
    assert GateKinds(u, autoLinkEnabled) == u by { GateKindsWithout(u, autoLinkEnabled); }
    assert GateKinds(d, autoLinkEnabled) == ExecutedDefaultKinds(withImage, autoLinkEnabled) by {
      GateDefaultKinds(withImage, autoLinkEnabled);
    }
    assert GateKinds(c, autoLinkEnabled) == Kinds(Executed(custom, autoLinkEnabled)) by {
      KindsExecuted(custom, autoLinkEnabled);
    }
    KindsExecuted(all, autoLinkEnabled);
  }
}
