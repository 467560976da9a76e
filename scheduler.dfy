/**
 * The scheduler's choice of search criteria: seven phrasings, one per day of
 * the week, each ending with the current year.
 */
module Scheduler {
  import opened Text

  /** The seven phrasings, Monday first, each followed by the year. */
  const PHRASES: seq<string> := [
    "new merit-based scholarships for college students ",
    "need-based financial aid and grants ",
    "STEM scholarships and fellowships for students ",
    "diversity and minority scholarships ",
    "graduate school scholarships and funding ",
    "undergraduate scholarships and awards ",
    "local and regional scholarship opportunities "]

  /** A string ends with what was appended to it. */
  lemma EndsWithAppended(a: string, b: string)
    ensures EndsWith(a + b, b)
  {
    assert (a + b)[|a + b| - |b|..] == b;
  }

  /** The seven criteria for a year. */
  function Variations(year: nat): (vs: seq<string>)
    ensures |vs| == |PHRASES| == 7
    ensures forall i :: 0 <= i < |vs| ==> EndsWith(vs[i], NatToString(year))
  {
    var y := NatToString(year);
    forall i | 0 <= i < |PHRASES|
      ensures EndsWith(PHRASES[i] + y, y)
    {
      EndsWithAppended(PHRASES[i], y);
    }
    seq(|PHRASES|, i requires 0 <= i < |PHRASES| => PHRASES[i] + y)
  }

  /**
   * `create_search_variations`: the criteria for the given day of the week
   * (Monday is 0), which always end with the year.
   */
  function SearchVariation(year: nat, weekday: nat): (c: string)
    ensures EndsWith(c, NatToString(year))
  {
    Variations(year)[weekday % 7]
  }

  /** Two strings that differ in length or first character stay different after the same suffix. */
  lemma SuffixKeepsApart(a: string, b: string, y: string)
    requires |a| != |b| || (|a| > 0 && |b| > 0 && a[0] != b[0])
    ensures a + y != b + y
  {
    if |a| == |b| {
      assert (a + y)[0] == a[0] && (b + y)[0] == b[0];
    }
  }

  /** Any two of the phrasings differ in length or in their first character. */
  lemma PhrasesApart(a: nat, b: nat)
    requires a < 7 && b < 7 && a != b
    ensures |PHRASES[a]| != |PHRASES[b]| || (|PHRASES[a]| > 0 && |PHRASES[b]| > 0 && PHRASES[a][0] != PHRASES[b][0])
  {
  }

  /** The criteria for a day are its phrasing followed by the year. */
  lemma VariationAt(year: nat, weekday: nat)
    requires weekday < 7
    ensures SearchVariation(year, weekday) == PHRASES[weekday] + NatToString(year)
  {
    assert weekday % 7 == weekday;
  }

  /** Different days of the week get different criteria. */
  lemma WeekdaysDistinct(year: nat, a: nat, b: nat)
    requires a < 7 && b < 7 && a != b
    ensures SearchVariation(year, a) != SearchVariation(year, b)
  {
    var y := NatToString(year);
    VariationAt(year, a);
    VariationAt(year, b);
    PhrasesApart(a, b);
    SuffixKeepsApart(PHRASES[a], PHRASES[b], y);
  }

  /** The rotation repeats every week. */
  lemma WeeklyRotation(year: nat, weekday: nat)
    ensures SearchVariation(year, weekday + 7) == SearchVariation(year, weekday)
  {
    assert (weekday + 7) % 7 == weekday % 7;
  }
}
