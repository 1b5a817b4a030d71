/**
 The one entity of the grocery list, and the blank-input test that guards
 adding one. `item.trim() === ""` in `handleAddItem` is modelled with the
 white-space set of ECMA-262 (2023 edition): the WhiteSpace production of
 section 12.2 and the LineTerminator production of section 12.3, which
 together are what `String.prototype.trim` (section 22.1.3.32) strips.
 */
module Items {

  /** A grocery-list entry. `id` is the decimal text of a millisecond clock
      reading; nothing makes it unique. */
  datatype Item = Item(id: string, text: string, isCompleted: bool)

  predicate IsCompleted(x: Item) { x.isCompleted }

  predicate IsIncomplete(x: Item) { !x.isCompleted }

  function TextOf(x: Item): string { x.text }

  /** No two entries share an id. No operation checks this. */
  predicate IdsUnique(items: seq<Item>)
  {
    forall i, j :: 0 <= i < |items| && 0 <= j < |items| && i != j ==> items[i].id != items[j].id
  }

  /** WhiteSpace (section 12.2): TAB, VT, FF, ZWNBSP and every code point of
      Unicode general category Zs (Unicode 15.0: SPACE, NO-BREAK SPACE,
      OGHAM SPACE MARK, EN QUAD .. HAIR SPACE, NARROW NO-BREAK SPACE,
      MEDIUM MATHEMATICAL SPACE, IDEOGRAPHIC SPACE). */
  predicate IsWhiteSpaceChar(c: char)
  {
    var n := c as int;
    n == 0x0009 || n == 0x000B || n == 0x000C || n == 0xFEFF
    || n == 0x0020 || n == 0x00A0 || n == 0x1680
    || (0x2000 <= n <= 0x200A)
    || n == 0x202F || n == 0x205F || n == 0x3000
  }

  /** LineTerminator (section 12.3): LF, CR, LINE SEPARATOR, PARAGRAPH SEPARATOR. */
  predicate IsLineTerminator(c: char)
  {
    var n := c as int;
    n == 0x000A || n == 0x000D || n == 0x2028 || n == 0x2029
  }

  /** The characters `trim` removes. */
  predicate IsTrimmable(c: char)
  {
    IsWhiteSpaceChar(c) || IsLineTerminator(c)
  }

  /** Every character of `s` is trimmable (true of the empty string). */
  predicate IsBlank(s: string)
  {
    forall i :: 0 <= i < |s| ==> IsTrimmable(s[i])
  }

  /** Strips leading trimmable characters: the longest suffix of `s` that
      does not start with one. */
  function TrimStart(s: string): (r: string)
    ensures |r| <= |s| && r == s[|s| - |r|..]
    ensures forall i :: 0 <= i < |s| - |r| ==> IsTrimmable(s[i])
    ensures r == [] || !IsTrimmable(r[0])
  {
    if s != [] && IsTrimmable(s[0]) then TrimStart(s[1..]) else s
  }

  /** Strips trailing trimmable characters: the longest prefix of `s` that
      does not end with one. */
  function TrimEnd(s: string): (r: string)
    ensures |r| <= |s| && r == s[..|r|]
    ensures forall i :: |r| <= i < |s| ==> IsTrimmable(s[i])
    ensures r == [] || !IsTrimmable(r[|r| - 1])
  {
    if s != [] && IsTrimmable(s[|s| - 1]) then TrimEnd(s[..|s| - 1]) else s
  }

  /** `r` is the slice of `s` that starts at `a`, and every character of
      `s` outside that slice is trimmable. */
  predicate TrimmedSliceAt(s: string, r: string, a: int)
  {
    0 <= a && a + |r| <= |s| && r == s[a..a + |r|]
    && forall i :: 0 <= i < |s| && (i < a || a + |r| <= i) ==> IsTrimmable(s[i])
  }

  /** `String.prototype.trim`: the slice of `s` left once the trimmable
      characters at both ends are gone. */
  function Trim(s: string): (r: string)
    ensures |r| <= |s|
    ensures exists a :: TrimmedSliceAt(s, r, a)
    ensures r == [] || (!IsTrimmable(r[0]) && !IsTrimmable(r[|r| - 1]))
  {
    var t := TrimStart(s);
    var r := TrimEnd(t);
    var a := |s| - |t|;
    assert r == s[a..a + |r|];
    forall i | 0 <= i < |s| && a + |r| <= i ensures IsTrimmable(s[i]) {
      assert s[i] == t[i - a];
    }
    assert TrimmedSliceAt(s, r, a);
    r
  }

  /** `s.trim() === ""` holds exactly for the blank strings. */
  lemma TrimEmptyIffBlank(s: string)
    ensures Trim(s) == [] <==> IsBlank(s)
  {
    var t := TrimStart(s);
    if t != [] {
      assert !IsTrimmable(t[0]);
      assert TrimEnd(t) != [];
      assert !IsTrimmable(s[|s| - |t|]);
    }
  }
}
