/** client/src/pages/home.tsx: the search filter over the character list.
    A character is kept when its lower-cased name or lower-cased anime title
    includes the lower-cased search string. */
module Home {

  import opened Wrappers
  import opened Text
  import opened Schema

  predicate Matches(c: Character, search: string) {
    Contains(Lower(c.name), Lower(search)) || Contains(Lower(c.anime), Lower(search))
  }

  /** `characters.filter(…)`. */
  function FilterCharacters(cs: seq<Character>, search: string): (r: seq<Character>)
    ensures forall c :: c in r <==> c in cs && Matches(c, search)
    ensures |r| <= |cs|
  {
    if cs == [] then []
    else
      var rest := FilterCharacters(cs[1..], search);
      assert forall c :: c in cs <==> c == cs[0] || c in cs[1..];
      if Matches(cs[0], search) then [cs[0]] + rest else rest
  }

  /** The filter keeps each matching character as many times as it occurs,
      and no other. */
  lemma {:induction false} FilterCounts(cs: seq<Character>, search: string, c: Character)
    ensures multiset(FilterCharacters(cs, search))[c] == if Matches(c, search) then multiset(cs)[c] else 0
  {
    if cs != [] {
      FilterCounts(cs[1..], search, c);
      assert cs == [cs[0]] + cs[1..];
    }
  }

  /** `characters?.filter(…)`: no list while the query has not answered. */
  function FilteredCharacters(characters: Option<seq<Character>>, search: string): (r: Option<seq<Character>>)
    ensures r.None? <==> characters.None?
    ensures r.Some? ==> forall c :: c in r.value <==> c in characters.value && Matches(c, search)
  {
    match characters
    case None => None
    case Some(cs) => Some(FilterCharacters(cs, search))
  }

  /** `a` is `b` with some elements left out, order kept. */
  predicate IsSubsequence<T(==)>(a: seq<T>, b: seq<T>)
    decreases |b|
  {
    if a == [] then true
    else if b == [] then false
    else (a[0] == b[0] && IsSubsequence(a[1..], b[1..])) || IsSubsequence(a, b[1..])
  }

  /** The filter keeps the input's order. */
  lemma {:induction false} FilterIsSubsequence(cs: seq<Character>, search: string)
    ensures IsSubsequence(FilterCharacters(cs, search), cs)
  {
    if cs != [] {
      FilterIsSubsequence(cs[1..], search);
      var r := FilterCharacters(cs, search);
      if Matches(cs[0], search) {
        assert r[1..] == FilterCharacters(cs[1..], search);
      }
    }
  }

  /** An empty search keeps every character. */
  lemma {:induction false} EmptySearchKeepsAll(cs: seq<Character>)
    ensures FilterCharacters(cs, "") == cs
  {
    if cs != [] {
      ContainsEmpty(Lower(cs[0].name));
      assert Lower("") == "";
      EmptySearchKeepsAll(cs[1..]);
      assert [cs[0]] + cs[1..] == cs;
    }
  }

  /** Searches that differ only in letter case select the same characters;
      in particular a search and its lower-cased form do. */
  lemma {:induction false} FilterCaseInsensitive(cs: seq<Character>, s: string, t: string)
    requires Lower(s) == Lower(t)
    ensures FilterCharacters(cs, s) == FilterCharacters(cs, t)
  {
    if cs != [] {
      FilterCaseInsensitive(cs[1..], s, t);
    }
  }

  lemma SearchLowerCased(cs: seq<Character>, s: string)
    ensures FilterCharacters(cs, Lower(s)) == FilterCharacters(cs, s)
  {
    LowerIdempotent(s);
    FilterCaseInsensitive(cs, Lower(s), s);
  }

  /** Filtering the result again changes nothing. */
  lemma {:induction false} FilterIdempotent(cs: seq<Character>, search: string)
    ensures FilterCharacters(FilterCharacters(cs, search), search) == FilterCharacters(cs, search)
  {
    if cs != [] {
      FilterIdempotent(cs[1..], search);
      var r := FilterCharacters(cs, search);
      if Matches(cs[0], search) {
        assert r[0] == cs[0] && r[1..] == FilterCharacters(cs[1..], search);
      }
    }
  }
}
