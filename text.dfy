/**
 * The two Python string operations the dashboard search is built from:
 * `str.lower()` and the substring test `needle in hay`.
 */
module Text {

  predicate IsUpperAscii(c: char) {
    'A' <= c <= 'Z'
  }

  /** One character of `str.lower()`, restricted to the ASCII letters. */
  function LowerChar(c: char): (d: char)
    ensures !IsUpperAscii(d)
    ensures IsUpperAscii(c) ==> d as int == c as int + 32
    ensures !IsUpperAscii(c) ==> d == c
  {
    if IsUpperAscii(c) then (c as int - 'A' as int + 'a' as int) as char else c
  }

  /** `s.lower()`: maps every character through LowerChar. */
  function Lower(s: string): (r: string)
    ensures |r| == |s|
    ensures forall i :: 0 <= i < |s| ==> r[i] == LowerChar(s[i])
  {
    if s == [] then [] else [LowerChar(s[0])] + Lower(s[1..])
  }

  /** `needle` occurs in `hay` starting at index `i`. */
  ghost predicate OccursAt(needle: string, hay: string, i: int) {
    0 <= i && i + |needle| <= |hay| && hay[i..i + |needle|] == needle
  }

  /** `needle in hay`: tries every start position from the left. */
  function Contains(hay: string, needle: string): (b: bool)
    ensures needle == [] ==> b
    ensures b ==> |needle| <= |hay|
    decreases |hay|
  {
    if needle <= hay then true
    else if hay == [] then false
    else Contains(hay[1..], needle)
  }

  /** A successful Contains has a position where `needle` starts. */
  lemma {:induction false} ContainsHasWitness(hay: string, needle: string)
    requires Contains(hay, needle)
    ensures exists i :: OccursAt(needle, hay, i)
    decreases |hay|
  {
    if needle <= hay {
      assert OccursAt(needle, hay, 0);
    } else {
      ContainsHasWitness(hay[1..], needle);
      var i :| OccursAt(needle, hay[1..], i);
      assert hay[i + 1..i + 1 + |needle|] == hay[1..][i..i + |needle|];
      assert OccursAt(needle, hay, i + 1);
    }
  }

  /** An occurrence at any position makes Contains succeed. */
  lemma {:induction false} OccurrenceIsFound(hay: string, needle: string, i: int)
    requires OccursAt(needle, hay, i)
    ensures Contains(hay, needle)
    decreases i
  {
    if i == 0 {
      assert needle <= hay;
    } else {
      assert hay[1..][i - 1..i - 1 + |needle|] == hay[i..i + |needle|];
      OccurrenceIsFound(hay[1..], needle, i - 1);
    }
  }

  /** Contains answers exactly whether `needle` occurs somewhere in `hay`. */
  lemma ContainsIff(hay: string, needle: string)
    ensures Contains(hay, needle) <==> exists i :: OccursAt(needle, hay, i)
  {
    if Contains(hay, needle) {
      ContainsHasWitness(hay, needle);
    }
    forall i | OccursAt(needle, hay, i)
      ensures Contains(hay, needle)
    {
      OccurrenceIsFound(hay, needle, i);
    }
  }
}
