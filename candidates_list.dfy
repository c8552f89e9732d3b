/** The display logic of the candidate list
    (frontend/src/components/CandidatesList.jsx): the five rating stars, the
    name shown for a candidate, which entry is highlighted, and the count in
    the header.  Date formatting and rendering are not modelled. */
module CandidatesList {
  import opened Wrappers
  import Text
  import Database

  const STARS := 5

  /** `getRatingStars(rating)`: star `i` is filled when `i < rating`.  A
      missing rating (`null` or `undefined`) compares false with every star. */
  function RatingStars(rating: Option<real>): (stars: seq<bool>)
    ensures |stars| == STARS
    ensures forall i :: 0 <= i < STARS ==> (stars[i] <==> rating.Some? && (i as real) < rating.value)
  {
    seq(STARS, i => rating.Some? && (i as real) < rating.value)
  }

  /** The number of filled stars. */
  function Filled(stars: seq<bool>): nat
    decreases |stars|
  {
    if stars == [] then 0 else (if stars[0] then 1 else 0) + Filled(stars[1..])
  }

  /** The filled stars come first: no empty star is followed by a filled one. */
  lemma FilledStarsArePrefix(rating: Option<real>)
    ensures forall i, j :: 0 <= i < j < STARS && RatingStars(rating)[j] ==> RatingStars(rating)[i]
  {
  }

  /** If exactly the first `k` stars are filled, `Filled` gives `k`. */
  lemma {:induction false} FilledOfPrefix(stars: seq<bool>, k: nat)
    requires k <= |stars|
    requires forall i :: 0 <= i < |stars| ==> (stars[i] <==> i < k)
    ensures Filled(stars) == k
    decreases |stars|
  {
    if stars != [] {
      var rest := stars[1..];
      if k > 0 {
        FilledOfPrefix(rest, k - 1);
      } else {
        FilledOfPrefix(rest, 0);
      }
    }
  }

  /** For an integer rating, the number of filled stars is the rating
      clamped to 0..5. */
  lemma FilledCount(rating: int)
    ensures Filled(RatingStars(Some(rating as real))) ==
            if rating < 0 then 0 else if rating > STARS then STARS else rating
  {
    var k := if rating < 0 then 0 else if rating > STARS then STARS else rating;
    FilledOfPrefix(RatingStars(Some(rating as real)), k);
  }

  /** A stored rating, which the backend derives from a score, shows as that
      many filled stars, at least one. */
  lemma StoredRatingStars(score: real)
    ensures Filled(RatingStars(Some(Database.ScoreToRating(score) as real))) == Database.ScoreToRating(score)
    ensures RatingStars(Some(Database.ScoreToRating(score) as real))[0]
  {
    FilledCount(Database.ScoreToRating(score));
  }

  /** `candidate.name || \`Candidate ${candidate.id}\``. */
  function DisplayName(name: Option<string>, id: int): (r: string)
    ensures name.Some? && name.value != "" ==> r == name.value
    ensures name.None? || name.value == "" ==> r == Database.CANDIDATE_LABEL + Text.IntToString(id)
  {
    if name.Some? && name.value != "" then name.value
    else Database.CANDIDATE_LABEL + Text.IntToString(id)
  }

  /** The list shows the same name as the backend gives the chat for the
      same row. */
  lemma DisplayNameAgrees(name: Option<string>, id: int)
    ensures DisplayName(name, id) == Database.DisplayName(name, id)
  {
  }

  /** Two unnamed candidates are never shown under the same name. */
  lemma UnnamedDistinct(id1: int, id2: int)
    requires id1 != id2
    ensures DisplayName(None, id1) != DisplayName(None, id2)
  {
    Database.FallbackNamesDistinct(id1, id2);
  }

  /** `selectedCandidateId === candidate.id`; no selection is `null`. */
  predicate RowSelected(selected: Option<int>, id: int)
    ensures selected.None? ==> !RowSelected(selected, id)
    ensures RowSelected(selected, id) ==> selected.value == id
  {
    selected == Some(id)
  }

  /** `!selectedCandidateId`: `null` and the id 0 are both falsy. */
  predicate MainPageSelected(selected: Option<int>)
    ensures MainPageSelected(selected) ==> forall id :: id != 0 ==> !RowSelected(selected, id)
    ensures !MainPageSelected(selected) ==> RowSelected(selected, selected.value)
  {
    selected.None? || selected.value == 0
  }

  /** With a selection row ids cannot produce (0 never does, since ids
      start at 1), the main page and a row are never highlighted together,
      and at most one row is. */
  lemma SelectionExclusive(selected: Option<int>, id1: int, id2: int)
    requires id1 >= 1 && id2 >= 1
    ensures MainPageSelected(selected) ==> !RowSelected(selected, id1)
    ensures RowSelected(selected, id1) && RowSelected(selected, id2) ==> id1 == id2
  {
  }

  /** The count in the header: the early return for a missing or empty list
      prints "0 total". */
  function CountLabel(count: Option<nat>): (r: string)
    ensures count.None? ==> r == "0 total"
    ensures count.Some? ==> r == Text.IntToString(count.value) + " total"
  {
    if count.None? || count.value == 0 then "0 total"
    else Text.IntToString(count.value) + " total"
  }

  /** Distinct lengths give distinct labels. */
  lemma CountLabelInjective(m: nat, n: nat)
    requires m != n
    ensures CountLabel(Some(m)) != CountLabel(Some(n))
  {
    Text.IntToStringInjective(m, n);
    var a, b := Text.IntToString(m), Text.IntToString(n);
    assert CountLabel(Some(m)) == a + " total" && CountLabel(Some(n)) == b + " total";
    assert (a + " total")[..|a|] == a && (b + " total")[..|b|] == b;
    assert (a + " total")[|a|..] == " total" && (b + " total")[|b|..] == " total";
  }
}
