/**
  The attributed string the converter works on: a character sequence with
  one attribute dictionary per character. Fonts, colours and paragraph
  styles are abstract tokens.
 */
module StyledStrings {

  /** A paragraph style: the two built-in defaults, or one supplied by a caller. */
  datatype ParagraphStyle = ParserDefaultStyle | ListDefaultStyle | CallerStyle(id: nat)

  datatype AttrKey = FontKey | ForegroundColorKey | BackgroundColorKey | ParagraphStyleKey | OtherKey(name: string)

  datatype AttrValue =
    | FontValue(font: nat)
    | ColorValue(color: nat)
    | ParagraphValue(style: ParagraphStyle)
    | OtherValue(id: nat)

  type Attributes = map<AttrKey, AttrValue>

  /** A snapshot of an attributed string. */
  datatype Styled = Styled(chars: string, attrs: seq<Attributes>)

  type StyledValue = v: Styled | |v.chars| == |v.attrs| witness Styled([], [])

  /**
    The attributes that characters inserted by a replacement take on: those
    of the first replaced character, or for a pure insertion those of the
    character before it, else those of the character after it.
   */
  function InheritedAttributes(attrs: seq<Attributes>, loc: nat, len: nat): Attributes
    requires loc + len <= |attrs|
  {
    if len > 0 then attrs[loc]
    else if loc > 0 then attrs[loc - 1]
    else if loc < |attrs| then attrs[loc]
    else map[]
  }

  /** Replaces the characters in [loc, loc + len) by `s`. */
  function Splice(v: StyledValue, loc: nat, len: nat, s: string): (r: StyledValue)
    requires loc + len <= |v.chars|
    ensures |r.chars| == |v.chars| - len + |s|
    ensures r.chars[..loc] == v.chars[..loc] && r.attrs[..loc] == v.attrs[..loc]
    ensures r.chars[loc..loc + |s|] == s
    ensures r.chars[loc + |s|..] == v.chars[loc + len..] && r.attrs[loc + |s|..] == v.attrs[loc + len..]
    ensures forall i :: loc <= i < loc + |s| ==> r.attrs[i] == InheritedAttributes(v.attrs, loc, len)
  {
    var inserted := seq(|s|, _ => InheritedAttributes(v.attrs, loc, len));
    var r := Styled(v.chars[..loc] + s + v.chars[loc + len..], v.attrs[..loc] + inserted + v.attrs[loc + len..]);
    assert r.chars[loc + |s|..] == v.chars[loc + len..];
    assert r.attrs[loc + |s|..] == v.attrs[loc + len..];
    r
  }

  /** Putting the replaced characters back restores the text. */
  lemma SpliceUndo(v: StyledValue, loc: nat, len: nat, s: string)
    requires loc + len <= |v.chars|
    ensures var r := Splice(v, loc, len, s);
            Splice(r, loc, |s|, v.chars[loc..loc + len]).chars == v.chars
  {
    var r := Splice(v, loc, len, s);
    var back := Splice(r, loc, |s|, v.chars[loc..loc + len]);
    assert back.chars == back.chars[..loc] + back.chars[loc..loc + len] + back.chars[loc + len..];
    assert v.chars == v.chars[..loc] + v.chars[loc..loc + len] + v.chars[loc + len..];
  }

  /** Adds (overriding) the entries of `m` to every character in [loc, loc + len). */
  function WithAttributes(v: StyledValue, m: Attributes, loc: nat, len: nat): (r: StyledValue)
    requires loc + len <= |v.chars|
    ensures r.chars == v.chars
    ensures |r.attrs| == |v.attrs|
    ensures forall i :: 0 <= i < |v.attrs| && !(loc <= i < loc + len) ==> r.attrs[i] == v.attrs[i]
    ensures forall i :: loc <= i < loc + len ==>
              (forall k :: k in m ==> k in r.attrs[i] && r.attrs[i][k] == m[k])
    ensures forall i :: loc <= i < loc + len ==>
              (forall k :: k in v.attrs[i] && k !in m ==> k in r.attrs[i] && r.attrs[i][k] == v.attrs[i][k])
    ensures forall i :: loc <= i < loc + len ==> r.attrs[i].Keys == v.attrs[i].Keys + m.Keys
  {
    Styled(v.chars, seq(|v.attrs|, i requires 0 <= i < |v.attrs| =>
      if loc <= i < loc + len then v.attrs[i] + m else v.attrs[i]))
  }

  /** Adding the same attributes twice is the same as adding them once. */
  lemma WithAttributesIdempotent(v: StyledValue, m: Attributes, loc: nat, len: nat)
    requires loc + len <= |v.chars|
    ensures WithAttributes(WithAttributes(v, m, loc, len), m, loc, len) == WithAttributes(v, m, loc, len)
  {
    var once := WithAttributes(v, m, loc, len);
    var twice := WithAttributes(once, m, loc, len);
    forall i | 0 <= i < |v.attrs| ensures twice.attrs[i] == once.attrs[i] {
      if loc <= i < loc + len {
        assert twice.attrs[i] == once.attrs[i] + m;
      }
    }
  }

  /** Two successive additions over one range are one addition of both, the later winning. */
  lemma WithAttributesCompose(v: StyledValue, m1: Attributes, m2: Attributes, loc: nat, len: nat)
    requires loc + len <= |v.chars|
    ensures WithAttributes(WithAttributes(v, m1, loc, len), m2, loc, len) == WithAttributes(v, m1 + m2, loc, len)
  {
    var lhs := WithAttributes(WithAttributes(v, m1, loc, len), m2, loc, len);
    var rhs := WithAttributes(v, m1 + m2, loc, len);
    forall i | 0 <= i < |v.attrs| ensures lhs.attrs[i] == rhs.attrs[i] {
      if loc <= i < loc + len {
        assert lhs.attrs[i] == v.attrs[i] + m1 + m2;
        assert rhs.attrs[i] == v.attrs[i] + (m1 + m2);
      }
    }
  }

  /** Text without attributes takes on exactly the added ones. */
  lemma WithAttributesOnBare(v: StyledValue, m: Attributes)
    requires forall i :: 0 <= i < |v.attrs| ==> v.attrs[i] == map[]
    ensures WithAttributes(v, m, 0, |v.chars|) == Styled(v.chars, seq(|v.chars|, _ => m))
  {
    var r := WithAttributes(v, m, 0, |v.chars|);
    forall i | 0 <= i < |v.chars|
      ensures r.attrs[i] == m
    {
      assert r.attrs[i] == v.attrs[i] + m;
      assert map[] + m == m;
    }
  }

  /** An attributed string that is updated in place. */
  class StyledText {
    var chars: string
    var attrs: seq<Attributes>

    ghost predicate Valid()
      reads this
    {
      |chars| == |attrs|
    }

    function Value(): StyledValue
      reads this
      requires Valid()
    {
      Styled(chars, attrs)
    }

    /** A string with no attributes on any character. */
    constructor FromString(s: string)
      ensures Valid() && chars == s
      ensures forall i :: 0 <= i < |attrs| ==> attrs[i] == map[]
    {
      chars := s;
      attrs := seq(|s|, _ => map[]);
    }

    /** replaceCharacters(in:with:) */
    method ReplaceCharacters(loc: nat, len: nat, s: string)
      requires Valid() && loc + len <= |chars|
      modifies this
      ensures Valid() && Value() == Splice(old(Value()), loc, len, s)
    {
      var r := Splice(Value(), loc, len, s);
      chars, attrs := r.chars, r.attrs;
    }

    /** addAttributes(_:range:) */
    method AddAttributes(m: Attributes, loc: nat, len: nat)
      requires Valid() && loc + len <= |chars|
      modifies this
      ensures Valid() && Value() == WithAttributes(old(Value()), m, loc, len)
    {
      attrs := WithAttributes(Value(), m, loc, len).attrs;
    }

    /** addAttribute(_:value:range:), the form the font, colour and paragraph-style helpers take. */
    method AddAttribute(key: AttrKey, value: AttrValue, loc: nat, len: nat)
      requires Valid() && loc + len <= |chars|
      modifies this
      ensures Valid() && Value() == WithAttributes(old(Value()), map[key := value], loc, len)
    {
      AddAttributes(map[key := value], loc, len);
    }

    /** The whole content is replaced by what an opaque element pass produced. */
    method Assign(v: StyledValue)
      modifies this
      ensures Valid() && Value() == v
    {
      chars, attrs := v.chars, v.attrs;
    }
  }
}
