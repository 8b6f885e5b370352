/** Sorted-set scores and the (score, name) order of `zless`. */
module Scores {
  import opened Bytes

  /** An IEEE double that is not NaN: a sign bit over the remaining 63 bits.
      Read as integers, those 63 bits are ordered like the values they denote, so the two zeros
      are different scores of equal rank. */
  datatype Score = Score(negative: bool, magnitude: nat)

  function Rank(s: Score): int {
    if s.negative then 0 - s.magnitude else s.magnitude
  }

  /** A sorted-set key: a score and a name. */
  datatype ZKey = ZKey(score: Score, name: Bytes)

  /** `zless`: scores first, then names as bytes, then lengths. */
  predicate ZLess(a: ZKey, b: ZKey) {
    if Rank(a.score) != Rank(b.score) then Rank(a.score) < Rank(b.score)
    else NameLess(a.name, b.name)
  }

  /** The order of the values that two doubles denote: two negative numbers the other way round than their
      magnitudes, and the zeros neither above nor below each other. */
  predicate Lower(a: Score, b: Score) {
    if a.negative then if b.negative then b.magnitude < a.magnitude else a.magnitude > 0 || b.magnitude > 0
    else !b.negative && a.magnitude < b.magnitude
  }

  predicate SameValue(a: Score, b: Score) {
    a == b || (a.magnitude == 0 && b.magnitude == 0)
  }

  /** The lower score first; names in dictionary order only between scores of equal value. */
  predicate Precedes(a: ZKey, b: ZKey) {
    Lower(a.score, b.score) || (SameValue(a.score, b.score) && Lex(a.name, b.name))
  }

  /** That is the order of `zless`. */
  lemma ZLessByValue(a: ZKey, b: ZKey)
    ensures ZLess(a, b) <==> Precedes(a, b)
  {
    NameLessIsLex(a.name, b.name);
  }

  /** The same, case by case: numbers from zero up by magnitude, numbers from zero down the other way round,
      whatever is below zero before zero and zero before whatever is above it, and names between equals. */
  lemma LowerScoreFirst(a: ZKey, b: ZKey)
    ensures !a.score.negative && !b.score.negative && a.score.magnitude < b.score.magnitude ==>
      ZLess(a, b) && !ZLess(b, a)
    ensures a.score.negative && b.score.negative && a.score.magnitude > b.score.magnitude ==>
      ZLess(a, b) && !ZLess(b, a)
    ensures a.score.negative && !b.score.negative && (a.score.magnitude > 0 || b.score.magnitude > 0) ==>
      ZLess(a, b) && !ZLess(b, a)
    ensures a.score == b.score || a.score.magnitude == b.score.magnitude == 0 ==>
      (ZLess(a, b) <==> Lex(a.name, b.name))
  {
    NameLessIsLex(a.name, b.name);
  }

  /** `zless` is a strict order in which two keys are tied only if name and score value agree. */
  lemma ZLessTotal(a: ZKey, b: ZKey)
    ensures !ZLess(a, a)
    ensures !(ZLess(a, b) && ZLess(b, a))
    ensures !ZLess(a, b) && !ZLess(b, a) ==> a.name == b.name && Rank(a.score) == Rank(b.score)
  {
    NameLessIsLex(a.name, b.name);
    NameLessIsLex(b.name, a.name);
    NameLessIsLex(a.name, a.name);
    LexTotal(a.name, b.name);
  }

  lemma ZLessTransitive(a: ZKey, b: ZKey, c: ZKey)
    requires ZLess(a, b) && ZLess(b, c)
    ensures ZLess(a, c)
  {
    NameLessIsLex(a.name, b.name);
    NameLessIsLex(b.name, c.name);
    NameLessIsLex(a.name, c.name);
    if Rank(a.score) == Rank(b.score) == Rank(c.score) {
      LexTransitive(a.name, b.name, c.name);
    }
  }

  /** The scores of a sorted set by name. */
  type ScoreMap = map<Bytes, Score>

  /** Adding or re-scoring a name; a score of equal value leaves the old one, sign of zero included. */
  function Rescored(scores: ScoreMap, name: Bytes, score: Score): ScoreMap {
    if name in scores && Rank(scores[name]) == Rank(score) then scores else scores[name := score]
  }
}
