/** The keyword rule that each probe stage applies to a response body:
    lower-case it, refuse anything that looks like a camera, otherwise look
    for a word that marks a Shelly device. The source writes the rule out
    three times, each with its own set of accepted words. */
module Classifier {
  import opened Text

  /** The outcome of one keyword check. `Inconclusive` is a body that
      neither excludes nor confirms. */
  datatype Verdict = Accept | Reject | Inconclusive

  /** Words that mark a camera or video device. */
  const Exclusions: set<string> := {"picvision", "hikvision", "hik-vision", "camera", "ipcam", "video"}

  /** Accepted words of the `/shelly` probe. */
  const ShellyKeywords: set<string> := {"shelly"}

  /** Accepted words of the `/status` probe: fields of a Shelly status document. */
  const StatusKeywords: set<string> := {"shelly", "wifi_sta", "meter", "relay"}

  /** Accepted words of the confirmation sweep. */
  const SweepKeywords: set<string> := {"shelly", "relay", "meter"}

  /** Some word of `words` is a substring of `text`. */
  predicate MentionsAny(text: string, words: set<string>)
  {
    exists w :: w in words && Contains(text, w)
  }

  /** The rule: an excluded word anywhere in the lower-cased text rejects,
      whatever else it says; otherwise an accepted word accepts. */
  function Classify(text: string, accept: set<string>): (v: Verdict)
    ensures v == Reject <==>
      exists e, i: nat :: e in Exclusions && OccursAt(ToLower(text), e, i)
    ensures v == Accept <==>
      && (forall e, i: nat :: e in Exclusions ==> !OccursAt(ToLower(text), e, i))
      && (exists k, i: nat :: k in accept && OccursAt(ToLower(text), k, i))
  {
    var lower := ToLower(text);
    if MentionsAny(lower, Exclusions) then Reject
    else if MentionsAny(lower, accept) then Accept
    else Inconclusive
  }

  lemma ExclusionsAreLower(e: string)
    requires e in Exclusions
    ensures IsLower(e)
  {
  }

  /** Exclusion dominance: a body that contains an excluded word, written
      in any letter case, is rejected at every stage, even when it also
      holds an accepted word. */
  lemma ExclusionDominates(p: string, m: string, q: string, accept: set<string>)
    requires ToLower(m) in Exclusions
    ensures Classify(p + m + q, accept) == Reject
  {
    var e := ToLower(m);
    ToLowerAppend(p + m, q);
    ToLowerAppend(p, m);
    assert OccursAt(e, e, 0);
    ContainsWithin(ToLower(p), e, ToLower(q), e);
  }

  /** More text never turns a rejected body into an accepted one. */
  lemma RejectSurvivesMoreText(p: string, t: string, q: string, a: set<string>, b: set<string>)
    requires Classify(t, a) == Reject
    ensures Classify(p + t + q, b) == Reject
  {
    var e :| e in Exclusions && Contains(ToLower(t), e);
    ToLowerAppend(p + t, q);
    ToLowerAppend(p, t);
    ContainsWithin(ToLower(p), ToLower(t), ToLower(q), e);
  }

  /** A body accepted with fewer words is accepted with more. */
  lemma AcceptGrowsWithKeywords(t: string, a: set<string>, b: set<string>)
    requires a <= b && Classify(t, a) == Accept
    ensures Classify(t, b) == Accept
  {
  }

  /** The `/shelly` words are among the sweep's, and those among the `/status` words. */
  lemma KeywordSetsNest()
    ensures ShellyKeywords <= SweepKeywords <= StatusKeywords
    ensures Exclusions !! StatusKeywords
  {
  }

  /** Letter case does not matter. */
  lemma CaseDoesNotMatter(t: string, a: set<string>)
    ensures Classify(ToLower(t), a) == Classify(t, a)
  {
    ToLowerIsLower(t);
    ToLowerIsLower(ToLower(t));
  }

  /** A clone with a camera brand in its page is a camera. */
  lemma CloneExample(t: string)
    requires t == "this is a " + "Hikvision" + " Shelly clone"
    ensures Classify(t, ShellyKeywords) == Reject
  {
    BrandLowered("Hikvision");
    ExclusionDominates("this is a ", "Hikvision", " Shelly clone", ShellyKeywords);
  }

  lemma BrandLowered(brand: string)
    requires brand == "Hikvision"
    ensures ToLower(brand) in Exclusions
  {
    assert ToLower(brand) == "hikvision" by {
      assert brand == "H" + "ikvision";
      ToLowerAppend("H", "ikvision");
      ToLowerIsLower("ikvision");
      assert ToLower("H") == "h" by {
        assert ToLower("H")[0] == LowerChar('H');
      }
    }
  }

  /** A page saying just "shelly" is accepted. */
  lemma ShellyPageExample(t: string)
    requires t == "shelly"
    ensures Classify(t, ShellyKeywords) == Accept
  {
    assert ToLower(t) == t by {
      ToLowerIsLower(t);
    }
    assert !MentionsAny(t, Exclusions) by {
      NoExclusionWithout(t);
    }
    assert MentionsAny(t, ShellyKeywords) by {
      assert OccursAt(t, t, 0);
    }
  }

  /** Every excluded word holds an 'i' or a 'c', so a text with neither
      holds no excluded word. */
  lemma NoExclusionWithout(t: string)
    requires 'i' !in t && 'c' !in t
    ensures !MentionsAny(t, Exclusions)
  {
    forall e | e in Exclusions ensures !Contains(t, e) {
      AbsentCharacter(t, e, if 'i' in e then 'i' else 'c');
    }
  }
}
