/**
 * Letter bookkeeping behind the "is this word possible?" check: finding and
 * removing one occurrence of a letter in a string, and the sub-multiset
 * relation that the check decides.
 */
module Letters {
  import opened Wrappers

  /** The position of the first occurrence of `c` in `s`, as `String.firstIndex(of:)` finds it. */
  function FirstIndex(s: string, c: char): (r: Option<nat>)
    ensures r.None? <==> c !in s
    ensures r.Some? ==> r.value < |s| && s[r.value] == c && c !in s[..r.value]
  {
    if s == [] then None
    else if s[0] == c then Some(0)
    else
      match FirstIndex(s[1..], c)
      case None => None
      case Some(i) =>
        assert s[..i + 1] == [s[0]] + s[1..][..i];
        Some(i + 1)
  }

  /** The one position that is a first occurrence of `c`. */
  lemma FirstIndexAt(s: string, c: char, k: nat)
    requires k < |s| && s[k] == c && c !in s[..k]
    ensures FirstIndex(s, c) == Some(k)
  {
    assert c in s;
  }

  /** `s` with the character at position `i` taken out, as `String.remove(at:)` leaves it. */
  function RemoveAt(s: string, i: nat): (r: string)
    requires i < |s|
    ensures |r| == |s| - 1
    ensures multiset(r) + multiset{s[i]} == multiset(s)
  {
    assert s == s[..i] + [s[i]] + s[i + 1..];
    s[..i] + s[i + 1..]
  }

  /** The number of times `c` occurs in `s`. */
  function Count(s: string, c: char): nat
  {
    if s == [] then 0 else (if s[0] == c then 1 else 0) + Count(s[1..], c)
  }

  lemma {:induction false} CountIsMultiplicity(s: string, c: char)
    ensures Count(s, c) == multiset(s)[c]
  {
    if s != [] {
      assert s == [s[0]] + s[1..];
      CountIsMultiplicity(s[1..], c);
    }
  }

  /** `word` can be spelled with the letters of `pool`, each letter of `pool` used at most once. */
  predicate Composable(word: string, pool: string)
  {
    multiset(word) <= multiset(pool)
  }

  /** Composability is the letter-by-letter count comparison: no letter occurs in `word` more often than in `pool`. */
  lemma ComposableIffCounts(word: string, pool: string)
    ensures Composable(word, pool) <==> forall c :: Count(word, c) <= Count(pool, c)
  {
    forall c
      ensures Count(word, c) == multiset(word)[c] && Count(pool, c) == multiset(pool)[c]
    {
      CountIsMultiplicity(word, c);
      CountIsMultiplicity(pool, c);
    }
    if Composable(word, pool) {
      forall c ensures Count(word, c) <= Count(pool, c) {
        assert multiset(word)[c] <= multiset(pool)[c];
      }
    }
    if !Composable(word, pool) {
      var c :| multiset(word)[c] > multiset(pool)[c];
      assert Count(word, c) > Count(pool, c);
    }
  }

  /** A composable word is never longer than its pool, and the empty word is always composable. */
  lemma ComposableBounds(word: string, pool: string)
    ensures Composable([], pool)
    ensures Composable(word, pool) ==> |word| <= |pool|
  {
    if Composable(word, pool) {
      var rest := multiset(pool) - multiset(word);
      assert multiset(pool) == multiset(word) + rest;
      assert |multiset(pool)| == |multiset(word)| + |rest|;
    }
  }

  /**
   * The step that makes a letter-by-letter check fail: when the letters
   * still unused after spelling `done` do not include `c`, no word that
   * starts with `done + [c]` is composable.
   */
  lemma MissingLetterNotComposable(word: string, i: nat, left: string, pool: string)
    requires i < |word|
    requires multiset(left) + multiset(word[..i]) == multiset(pool)
    requires word[i] !in left
    ensures !Composable(word, pool)
  {
    var c := word[i];
    assert word == word[..i] + [c] + word[i + 1..];
    assert multiset(word) == multiset(word[..i]) + multiset{c} + multiset(word[i + 1..]);
    assert multiset(left)[c] == 0;
    assert multiset(word)[c] > multiset(pool)[c];
  }
}
