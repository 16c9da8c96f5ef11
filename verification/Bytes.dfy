/** Byte strings and the three string relations the selectors use. */
module Bytes {
  newtype byte = x: int | 0 <= x < 256

  type Text = seq<byte>

  predicate IsAscii(s: string) {
    forall i | 0 <= i < |s| :: s[i] < 128 as char
  }

  /** A text written out in letters. */
  function Ascii(s: string): Text
    requires IsAscii(s)
  {
    seq(|s|, i requires 0 <= i < |s| => s[i] as int as byte)
  }

  const TRUE_TEXT: Text := [116, 114, 117, 101]
  const FALSE_TEXT: Text := [102, 97, 108, 115, 101]

  predicate IsSuffix(w: Text, t: Text) {
    |w| <= |t| && t[|t| - |w|..] == w
  }

  predicate HasPrefix(t: Text, p: Text) {
    |p| <= |t| && t[..|p|] == p
  }

  predicate OccursAt(t: Text, needle: Text, i: int) {
    0 <= i && i + |needle| <= |t| && t[i..i + |needle|] == needle
  }

  predicate Contains(t: Text, needle: Text) {
    exists i | 0 <= i <= |t| :: OccursAt(t, needle, i)
  }

  /** Extending a text by one byte adds only the occurrence that ends there. */
  lemma ContainsExtend(t: Text, b: byte, needle: Text)
    ensures Contains(t + [b], needle) <==> Contains(t, needle) || IsSuffix(needle, t + [b])
  {
    var u := t + [b];
    if Contains(u, needle) && !IsSuffix(needle, u) {
      var i :| 0 <= i <= |u| && OccursAt(u, needle, i);
      assert u[|u| - |needle|..] == u[|u| - |needle|..|u| - |needle| + |needle|];
      assert i + |needle| <= |t|;
      assert t[i..i + |needle|] == u[i..i + |needle|];
      assert OccursAt(t, needle, i);
    }
    if Contains(t, needle) {
      var i :| 0 <= i <= |t| && OccursAt(t, needle, i);
      assert t[i..i + |needle|] == u[i..i + |needle|];
      assert OccursAt(u, needle, i);
    }
    if IsSuffix(needle, u) {
      assert OccursAt(u, needle, |u| - |needle|) by {
        assert u[|u| - |needle|..] == u[|u| - |needle|..|u| - |needle| + |needle|];
      }
    }
  }

  /** An occurrence in a concatenation lies in the left part, in the right part, or across the cut. */
  lemma ContainsAppend(t: Text, s: Text, needle: Text, i: int)
    requires OccursAt(t + s, needle, i)
    ensures OccursAt(t, needle, i) || OccursAt(s, needle, i - |t|) || i < |t| < i + |needle|
  {
    var u := t + s;
    if i + |needle| <= |t| {
      assert t[i..i + |needle|] == u[i..i + |needle|];
    } else if |t| <= i {
      assert s[i - |t|..i - |t| + |needle|] == u[i..i + |needle|];
    }
  }

  lemma ContainsMonotone(t: Text, s: Text, needle: Text)
    requires Contains(t, needle) || Contains(s, needle)
    ensures Contains(t + s, needle)
  {
    var u := t + s;
    if Contains(t, needle) {
      var i :| 0 <= i <= |t| && OccursAt(t, needle, i);
      assert u[i..i + |needle|] == t[i..i + |needle|];
      assert OccursAt(u, needle, i);
    } else {
      var i :| 0 <= i <= |s| && OccursAt(s, needle, i);
      assert u[|t| + i..|t| + i + |needle|] == s[i..i + |needle|];
      assert OccursAt(u, needle, |t| + i);
    }
  }

  function Flatten(segments: seq<Text>): Text {
    if segments == [] then [] else segments[0] + Flatten(segments[1..])
  }

  lemma {:induction false} FlattenAppend(a: seq<Text>, s: Text)
    ensures Flatten(a + [s]) == Flatten(a) + s
  {
    if a == [] {
      assert a + [s] == [s];
      assert [s][1..] == [];
    } else {
      FlattenAppend(a[1..], s);
      assert (a + [s])[1..] == a[1..] + [s];
    }
  }
}
