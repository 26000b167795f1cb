/** Text matching used by the poll search: Django's `icontains` lookup, a
    case-insensitive substring test. Case folding covers the ASCII letters. */
module Text {

  /** Lower-cases one ASCII letter; every other character is left alone. */
  function LowerChar(c: char): char
  {
    if 'A' <= c <= 'Z' then (c as int - 'A' as int + 'a' as int) as char else c
  }

  function Lower(s: string): string
  {
    seq(|s|, i requires 0 <= i < |s| => LowerChar(s[i]))
  }

  /** `p` occurs in `s` starting at index `i`. */
  ghost predicate OccursAt(s: string, p: string, i: int)
  {
    0 <= i && i + |p| <= |s| && s[i..i + |p|] == p
  }

  /** An occurrence at `i + 1` in `s` is an occurrence at `i` in `s[1..]`. */
  lemma OccursShifted(s: string, p: string)
    requires s != []
    ensures forall i :: 0 <= i ==> (OccursAt(s, p, i + 1) <==> OccursAt(s[1..], p, i))
  {
    forall i | 0 <= i
      ensures OccursAt(s, p, i + 1) <==> OccursAt(s[1..], p, i)
    {
      if i + 1 + |p| <= |s| {
        assert s[1..][i..i + |p|] == s[i + 1..i + 1 + |p|];
      }
    }
  }

  /** Substring test, scanning left to right. */
  function Contains(s: string, p: string): (b: bool)
    ensures b <==> exists i :: OccursAt(s, p, i)
    decreases |s|
  {
    if |p| > |s| then
      false
    else if s[..|p|] == p then
      assert OccursAt(s, p, 0);
      true
    else
      OccursShifted(s, p);
      assert forall i :: OccursAt(s, p, i) ==> i >= 1 && OccursAt(s[1..], p, i - 1);
      Contains(s[1..], p)
  }

  /** `text__icontains=term`: the term occurs in the text, ignoring case. */
  function ContainsIgnoreCase(text: string, term: string): (b: bool)
    ensures b <==> exists i :: OccursAt(Lower(text), Lower(term), i)
  {
    Contains(Lower(text), Lower(term))
  }

  /** The empty term matches every text. */
  lemma EmptyTermMatches(text: string)
    ensures ContainsIgnoreCase(text, "")
  {
    assert OccursAt(Lower(text), Lower(""), 0);
  }

  /** Folding the case of either side first changes nothing. */
  lemma CaseBlind(text: string, term: string)
    ensures ContainsIgnoreCase(Lower(text), term) == ContainsIgnoreCase(text, term)
    ensures ContainsIgnoreCase(text, Lower(term)) == ContainsIgnoreCase(text, term)
  {
    assert Lower(Lower(text)) == Lower(text);
    assert Lower(Lower(term)) == Lower(term);
  }

  /** A pattern whose first character never appears in `s` does not occur in it. */
  lemma AbsentFirstChar(s: string, p: string)
    requires p != []
    requires forall k :: 0 <= k < |s| ==> s[k] != p[0]
    ensures !Contains(s, p)
  {
    forall i | 0 <= i < |s|
      ensures !OccursAt(s, p, i)
    {
      if i + |p| <= |s| {
        assert s[i..i + |p|][0] == s[i];
      }
    }
  }

  /** A poll titled "Favorite Color" is found by the term "color" ... */
  lemma FavoriteColorFound()
    ensures ContainsIgnoreCase("Favorite Color", "color")
  {
    var lowered := Lower("Favorite Color");
    assert lowered == "favorite color";
    assert Lower("color") == "color";
    assert OccursAt(lowered, "color", 9);
  }

  /** ... and is not found by "xyz". */
  lemma FavoriteColorNotFound()
    ensures !ContainsIgnoreCase("Favorite Color", "xyz")
  {
    assert Lower("Favorite Color") == "favorite color";
    assert Lower("xyz") == "xyz";
    AbsentFirstChar("favorite color", "xyz");
  }
}
