/**
 * Hit selection (`find_ver_from_hits`): the version matcher is run on the
 * component of each search hit in turn, stopping at the first exact version
 * match. What is reported is the matcher's result for the hit examined last,
 * paired with that hit's component URL; it is not the best result seen.
 */
module HitSelection {
  import opened Text
  import opened KnowledgeBase
  import opened VersionMatcher

  /** The six values `find_ver_from_hits` returns: component name, matched
      version, strength, source URL, component URL and version URL. */
  datatype HitMatch = HitMatch(
    compName: string, versionName: string, strength: nat,
    sourceUrl: string, compUrl: string, versionUrl: string)

  const NoHitMatch := HitMatch("", "", 0, "", "", "")

  /** The tuple reported for the matcher's result `r` on the hit whose
      component URL is `compUrl`. */
  function Report(r: VersionMatch, compUrl: string): HitMatch {
    if r.versionName == "" then NoHitMatch
    else HitMatch(r.compName, r.versionName, r.strength, r.sourceUrl, compUrl, r.versionUrl)
  }

  /** The rest of the hit loop, `last` being the matcher's result for the
      hit examined last and `lastUrl` that hit's component URL. */
  function SelectFrom(o: Oracle, hits: seq<string>, version: string, last: VersionMatch, lastUrl: string): HitMatch
  {
    if hits == [] then Report(last, lastUrl)
    else
      var r := MatchComponent(o, hits[0], version);
      if r.strength == 3 then Report(r, hits[0])
      else SelectFrom(o, hits[1..], version, r, hits[0])
  }

  /** What `find_ver_from_hits(hits, version)` returns. */
  function SelectHit(o: Oracle, hits: seq<string>, version: string): HitMatch {
    SelectFrom(o, hits, version, NoVersionMatch, "")
  }

  /** Every result the matcher reports that is not empty has a strength of 1 to 3. */
  lemma MatchStrength(o: Oracle, kburl: string, version: string)
    ensures var r := MatchComponent(o, kburl, version);
      r.versionName != "" ==> 0 < r.strength <= 3
  {
    match o.fetch(kburl)
    case None =>
    case Some(c) => MatchComponentIsACandidate(o, kburl, version, c);
  }

  /** The tuple reported for a hit whose component is `c`: either empty, or
      the component's name and `;`-free source URL, this hit's component URL,
      and a non-empty version of the component's list with that version's
      tier (1 to 3) as strength. Without an exact version it is empty exactly
      when no non-empty version of the list reaches a block. */
  lemma ReportedHit(o: Oracle, kburl: string, version: string, c: Component)
    requires o.fetch(kburl) == Some(c)
    ensures var h := Report(MatchComponent(o, kburl, version), kburl); var vs := c.versions;
      && (h == NoHitMatch || (
            && h.compName == c.name && h.sourceUrl == ReplaceChar(c.sourceUrl, ';', "") && h.compUrl == kburl
            && 0 < h.strength <= 3
            && exists k :: 0 <= k < |vs| && vs[k].versionName != "" && h.versionName == vs[k].versionName
                 && h.strength == Tier(Normalize(vs[k].versionName), Normalize(version))))
      && (NoExact(vs, Normalize(version)) ==>
            (h == NoHitMatch <==>
               forall k :: 0 <= k < |vs| && vs[k].versionName != "" ==> Tier(Normalize(vs[k].versionName), Normalize(version)) == 0))
  {
    MatchComponentIsACandidate(o, kburl, version, c);
    if NoExact(c.versions, Normalize(version)) {
      MatchComponentWithoutExact(o, kburl, version, c);
    }
  }

  /** The matcher result is exact (strength 3) for none of `hits`. */
  predicate NoExactHit(o: Oracle, hits: seq<string>, version: string) {
    forall j :: 0 <= j < |hits| ==> MatchComponent(o, hits[j], version).strength != 3
  }

  /** The first hit whose component holds an exact version match decides
      the result, and the hits after it are not looked at. */
  lemma {:induction false} SelectFromFirstExact(o: Oracle, hits: seq<string>, version: string,
                                                last: VersionMatch, lastUrl: string, k: nat)
    requires k < |hits| && MatchComponent(o, hits[k], version).strength == 3
    requires NoExactHit(o, hits[..k], version)
    ensures SelectFrom(o, hits, version, last, lastUrl) == Report(MatchComponent(o, hits[k], version), hits[k])
  {
    if k > 0 {
      assert hits[..k][0] == hits[0];
      assert hits[1..][..k - 1] == hits[..k][1..];
      SelectFromFirstExact(o, hits[1..], version, MatchComponent(o, hits[0], version), hits[0], k - 1);
    }
  }

  /** Without an exact match anywhere, the result is the last hit's matcher
      result with the last hit's component URL, whatever earlier hits found. */
  lemma {:induction false} SelectFromLast(o: Oracle, hits: seq<string>, version: string,
                                          last: VersionMatch, lastUrl: string)
    requires |hits| > 0 && NoExactHit(o, hits, version)
    ensures SelectFrom(o, hits, version, last, lastUrl)
         == Report(MatchComponent(o, hits[|hits| - 1], version), hits[|hits| - 1])
  {
    if |hits| > 1 {
      assert NoExactHit(o, hits[1..], version) by {
        forall j | 0 <= j < |hits[1..]| ensures MatchComponent(o, hits[1..][j], version).strength != 3 {
          assert hits[1..][j] == hits[j + 1];
        }
      }
      SelectFromLast(o, hits[1..], version, MatchComponent(o, hits[0], version), hits[0]);
    }
  }

  /** `find_ver_from_hits` in full: nothing for no hits; the first exact hit
      when there is one; otherwise the last hit's result. */
  lemma SelectHitCases(o: Oracle, hits: seq<string>, version: string)
    ensures hits == [] ==> SelectHit(o, hits, version) == NoHitMatch
    ensures forall k :: 0 <= k < |hits| && MatchComponent(o, hits[k], version).strength == 3
                        && NoExactHit(o, hits[..k], version) ==>
      SelectHit(o, hits, version) == Report(MatchComponent(o, hits[k], version), hits[k])
    ensures |hits| > 0 && NoExactHit(o, hits, version) ==>
      SelectHit(o, hits, version) == Report(MatchComponent(o, hits[|hits| - 1], version), hits[|hits| - 1])
  {
    forall k | 0 <= k < |hits| && MatchComponent(o, hits[k], version).strength == 3
               && NoExactHit(o, hits[..k], version)
      ensures SelectHit(o, hits, version) == Report(MatchComponent(o, hits[k], version), hits[k])
    {
      SelectFromFirstExact(o, hits, version, NoVersionMatch, "", k);
    }
    if |hits| > 0 && NoExactHit(o, hits, version) {
      SelectFromLast(o, hits, version, NoVersionMatch, "");
    }
  }

  /** A reported result is empty, or has a strength of 1 to 3 and names one
      of the hits (or the hit examined before them). */
  lemma {:induction false} SelectFromShape(o: Oracle, hits: seq<string>, version: string,
                                           last: VersionMatch, lastUrl: string)
    requires last.versionName != "" ==> 0 < last.strength <= 3
    ensures var h := SelectFrom(o, hits, version, last, lastUrl);
      || h == NoHitMatch
      || (&& h.versionName != "" && 0 < h.strength <= 3
          && (h.compUrl in hits || (last.versionName != "" && h.compUrl == lastUrl)))
  {
    if hits != [] {
      var r := MatchComponent(o, hits[0], version);
      MatchStrength(o, hits[0], version);
      if r.strength != 3 {
        SelectFromShape(o, hits[1..], version, r, hits[0]);
        var h := SelectFrom(o, hits, version, last, lastUrl);
        assert h.compUrl in hits[1..] ==> h.compUrl in hits;
      }
    }
  }

  /** The result of `find_ver_from_hits` is empty, or has a strength of 1 to 3
      and the component URL of one of the hits. */
  lemma SelectHitShape(o: Oracle, hits: seq<string>, version: string)
    ensures var h := SelectHit(o, hits, version);
      h == NoHitMatch || (h.versionName != "" && 0 < h.strength <= 3 && h.compUrl in hits)
  {
    SelectFromShape(o, hits, version, NoVersionMatch, "");
  }

  /** The hit loop, with its early exit on an exact match. */
  method FindVerFromHits(o: Oracle, hits: seq<string>, searchVersion: string) returns (h: HitMatch)
    ensures h == SelectHit(o, hits, searchVersion)
  {
    var matchResult := NoVersionMatch;
    var compUrl := "";
    var i := 0;
    while i < |hits|
      invariant 0 <= i <= |hits|
      invariant SelectFrom(o, hits[i..], searchVersion, matchResult, compUrl) == SelectHit(o, hits, searchVersion)
    {
      assert hits[i..][0] == hits[i] && hits[i..][1..] == hits[i + 1..];
      compUrl := hits[i];
      matchResult := FindVerFromCompver(o, compUrl, searchVersion);
      if matchResult.strength == 3 {
        break;
      }
      i := i + 1;
    }
    h := Report(matchResult, compUrl);
  }
}
