/** The classifier that tells a cell-pattern string from plain text: after
    all spaces are removed, every remaining character must be `O` or `.`.
 */
module Classifier {
  import opened Alphabet

  /** `s.replace(' ', '')`: the characters of `s` in order, without the spaces. */
  function RemoveSpaces(s: string): (r: string)
    ensures ' ' !in r
    ensures forall c :: c != ' ' ==> (c in r <==> c in s)
    ensures |r| == |s| - multiset(s)[' ']
    ensures multiset(r) == multiset(s)[' ' := 0]
  {
    if s == [] then []
    else
      assert s == [s[0]] + s[1..];
      (if s[0] == ' ' then [] else [s[0]]) + RemoveSpaces(s[1..])
  }

  /** Removing spaces works piecewise: with the one-character cases in the
      body this fixes the order and multiplicity of what is kept. */
  lemma {:induction false} RemoveSpacesConcat(a: string, b: string)
    ensures RemoveSpaces(a + b) == RemoveSpaces(a) + RemoveSpaces(b)
    decreases |a|
  {
    if a == [] {
      assert a + b == b;
    } else {
      assert (a + b)[0] == a[0];
      assert (a + b)[1..] == a[1..] + b;
      RemoveSpacesConcat(a[1..], b);
    }
  }

  /** `is_braille`: every character left after removing spaces is a cell symbol. */
  function IsBraille(s: string): (b: bool)
    ensures b <==> forall i :: 0 <= i < |s| && s[i] != ' ' ==> IsCellSymbol(s[i])
  {
    var r := RemoveSpaces(s);
    assert (forall c :: c in r ==> IsCellSymbol(c)) <==>
      (forall i :: 0 <= i < |s| && s[i] != ' ' ==> IsCellSymbol(s[i])) by {
      if forall c :: c in r ==> IsCellSymbol(c) {
        forall i | 0 <= i < |s| && s[i] != ' ' ensures IsCellSymbol(s[i]) {
          assert s[i] in s;
        }
      }
    }
    forall c :: c in r ==> IsCellSymbol(c)
  }

  /** The empty string and any string of spaces only are taken for cell
      patterns. */
  lemma BlankIsBraille(s: string)
    requires forall i :: 0 <= i < |s| ==> s[i] == ' '
    ensures IsBraille(s)
  {
  }

  /** A string is a cell pattern exactly when both of its parts are. */
  lemma IsBrailleConcat(a: string, b: string)
    ensures IsBraille(a + b) <==> IsBraille(a) && IsBraille(b)
  {
    if IsBraille(a) && IsBraille(b) {
      forall i | 0 <= i < |a + b| && (a + b)[i] != ' ' ensures IsCellSymbol((a + b)[i]) {
        if i >= |a| {
          assert (a + b)[i] == b[i - |a|];
        }
      }
    }
    if IsBraille(a + b) {
      forall i | 0 <= i < |b| && b[i] != ' ' ensures IsCellSymbol(b[i]) {
        assert (a + b)[|a| + i] == b[i];
      }
    }
  }
}
