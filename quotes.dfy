/**
 * The two fixed quote lists of the reporter and the way one quote is picked:
 * `quotes[Math.floor(Math.random() * quotes.length)]`. The random draw is a
 * parameter `r` with `0 <= r < 1`, the range `Math.random` promises.
 */
module Quotes {

  const FailureQuotes: seq<string> := [
    "“Houston, we have a problem.” - Apollo 13",
    "“Failure is not an option.” - Apollo 13",
    "“Why so serious?” - The Dark Knight",
    "“I find your lack of passing disturbing.” - Darth Vader",
    "“It's not a bug, it's a feature!” - Every developer ever",
    "Oh, crap, it failed! But it worked on my machine!",
    "Tests won't fail if you have no tests!",
    "PLEASE LET ME MERGE BEFORE I START CRYING",
    "“You can’t handle the truth!” - A Few Good Men"
  ]

  const SuccessQuotes: seq<string> := [
    "“Hasta la vista, baby.” - The Terminator",
    "“All systems go!” - NASA",
    "“That’s one small step for man, one giant leap for… tests!” - Apollo 11",
    "“Victory is ours!” - Braveheart",
    "“I'm king of the world!” - Titanic",
    "“You’re a wizard, Harry!” - Harry Potter",
    "“Live long and prosper.” - Star Trek"
  ]

  /** A value `Math.random` can return. */
  predicate IsRandom(r: real) {
    0.0 <= r < 1.0
  }

  /** `Math.floor(r * len)`: always a valid index into a list of `len` elements. */
  function PickIndex(r: real, len: nat): (i: nat)
    requires IsRandom(r) && len > 0
    ensures i < len
    ensures i as real <= r * len as real < i as real + 1.0
  {
    assert 0.0 <= r * len as real < len as real;
    (r * len as real).Floor
  }

  /** `getRandomFailureQuote()` with the draw `r`. */
  function FailureQuote(r: real): (q: string)
    requires IsRandom(r)
    ensures q in FailureQuotes
  {
    FailureQuotes[PickIndex(r, |FailureQuotes|)]
  }

  /** `getRandomSuccessQuote()` with the draw `r`. */
  function SuccessQuote(r: real): (q: string)
    requires IsRandom(r)
    ensures q in SuccessQuotes
  {
    SuccessQuotes[PickIndex(r, |SuccessQuotes|)]
  }

  /** Every index of a list of `len` elements is picked by some draw: the draw `k / len`. */
  lemma PickIndexReaches(k: nat, len: nat)
    requires k < len
    ensures IsRandom(k as real / len as real)
    ensures PickIndex(k as real / len as real, len) == k
  {
    var r := k as real / len as real;
    assert r * len as real == k as real;
  }

  /** Every failure quote can be chosen. */
  lemma EveryFailureQuoteReachable(k: nat)
    requires k < |FailureQuotes|
    ensures IsRandom(k as real / 9.0) && FailureQuote(k as real / 9.0) == FailureQuotes[k]
  {
    PickIndexReaches(k, 9);
  }

  /** Every success quote can be chosen. */
  lemma EverySuccessQuoteReachable(k: nat)
    requires k < |SuccessQuotes|
    ensures IsRandom(k as real / 7.0) && SuccessQuote(k as real / 7.0) == SuccessQuotes[k]
  {
    PickIndexReaches(k, 7);
  }
}
