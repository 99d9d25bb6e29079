/**
 * The version matcher (`find_ver_from_compver`): one pass over a KB
 * component's version list, comparing each version name with the target
 * after both have had `-` replaced by `.`, and keeping a running best match
 * with a strength of 0 to 3.
 *
 * `Tier` classifies one candidate by the first of the four tests it reaches
 * (exact, prefix, containment, close final number); `Step` adds the length
 * comparison with the match held so far; `Scan` is the pass with its early
 * exit on an exact match. `FindVerFromCompver` is the loop itself.
 */
module VersionMatcher {
  import opened Text
  import opened Difflib
  import opened KnowledgeBase

  /** `s.replace('-', '.')`. */
  function Normalize(s: string): (r: string)
    ensures |r| == |s| && '-' !in r
    ensures '-' !in s ==> r == s
  {
    seq(|s|, i requires 0 <= i < |s| => if s[i] == '-' then '.' else s[i])
  }

  /** `s.lower() == 'v'`. */
  predicate IsSingleV(s: string) {
    |s| == 1 && (s[0] == 'v' || s[0] == 'V')
  }

  /** The close-number test of the third block: the common start ends within
      two characters after the target's last `.`, and the final `.`-segments of
      both strings are numbers at most 2 apart. */
  predicate CloseNumeric(kb: string, local: string, size: int) {
    var kbFinal := LastSegment(kb, '.');
    var localFinal := LastSegment(local, '.');
    && 0 <= size - RFind(local, '.') <= 2
    && IsDigits(kbFinal) && IsDigits(localFinal)
    && Abs(DecimalValue(kbFinal) - DecimalValue(localFinal)) <= 2
  }

  /** The strength a normalised candidate `kb` earns against the normalised
      target `local`: 3 for equality; 2 when `kb` is a prefix of `local`; 2
      when the first occurrence of `local` in `kb` has no digit before it; 1
      when the longest common block starts both strings, is longer than 2,
      and ends within two characters after the target's last `.`, and the
      final `.`-segments are numbers at most 2 apart; otherwise 0. The tests
      are tried in that order and only the first one that applies decides. */
  function Tier(kb: string, local: string): (t: nat)
    ensures t <= 3
    ensures t == 3 <==> kb == local
  {
    if kb == local then 3
    else
      var m := LongestMatch(kb, local);
      if m.a == 0 && m.b == 0 && m.size == |kb| then 2
      else if m.b == 0 && m.size == |local| then (if HasDigit(kb[..m.a]) then 0 else 2)
      else if m.a == 0 && m.b == 0 && m.size > 2 then (if CloseNumeric(kb, local, m.size) then 1 else 0)
      else 0
  }

  /** `local` occurs in `kb` at position `p`. */
  predicate OccursAt(kb: string, local: string, p: nat) {
    p + |local| <= |kb| && kb[p..p + |local|] == local
  }

  /** A candidate that is a proper prefix of the target is in tier 2. */
  lemma PrefixIsTierTwo(kb: string, local: string)
    requires kb != local && kb <= local
    ensures Tier(kb, local) == 2
  {
    LongestMatchIsLongest(kb, local);
    assert Block(kb, local, 0, 0, |kb|);
  }

  /** A candidate holding the target, whose first occurrence has no digit
      before it, is in tier 2. */
  lemma ContainmentIsTierTwo(kb: string, local: string, p: nat)
    requires kb != local && OccursAt(kb, local, p) && !HasDigit(kb[..p])
    requires forall q :: 0 <= q < p ==> !OccursAt(kb, local, q)
    ensures Tier(kb, local) == 2
  {
    LongestMatchIsLongest(kb, local);
    var m := LongestMatch(kb, local);
    assert Block(kb, local, p, 0, |local|);
    if !(m.a == 0 && m.b == 0 && m.size == |kb|) {
      assert m.size == |local| && m.b == 0;
      assert OccursAt(kb, local, m.a);
    }
  }

  /** Tier 2 holds only in those two cases. */
  lemma TierTwoCases(kb: string, local: string)
    requires Tier(kb, local) == 2
    ensures kb != local
    ensures kb <= local || exists p: nat :: OccursAt(kb, local, p) && !HasDigit(kb[..p])
                                       && forall q :: 0 <= q < p ==> !OccursAt(kb, local, q)
  {
    LongestMatchIsLongest(kb, local);
    var m := LongestMatch(kb, local);
    if m.a == 0 && m.b == 0 && m.size == |kb| {
      assert kb == kb[0..m.size];
    } else {
      assert local == local[0..m.size];
      assert OccursAt(kb, local, m.a);
      forall q | 0 <= q < m.a ensures !OccursAt(kb, local, q) {
        if OccursAt(kb, local, q) {
          assert Block(kb, local, q, 0, m.size);
        }
      }
    }
  }

  /** Tier 1 is reached only through the third block: the candidate is not a
      prefix of the target, and the longest common block starts both strings,
      is longer than 2 and ends close to the target's last `.`, where both
      final numbers are at most 2 apart. */
  lemma TierOneCase(kb: string, local: string)
    requires Tier(kb, local) == 1
    ensures !(kb <= local)
    ensures var m := LongestMatch(kb, local);
      m.a == 0 && m.b == 0 && m.size > 2 && CloseNumeric(kb, local, m.size)
  {
    if kb <= local {
      PrefixIsTierTwo(kb, local);
    }
  }

  /** The loop's variables: `matchversion`, `matchstrength` and `kbver_url`. */
  datatype ScanState = ScanState(matchVersion: string, strength: nat, lastUrl: string)

  const Start := ScanState("", 0, "")

  /** One candidate. An exact match is always adopted; a strength-2 candidate
      only when strictly longer than the match held; a strength-1 candidate
      when at least as long. The last URL is updated in every case. */
  function Step(st: ScanState, v: KBVersion, local: string): (r: ScanState)
    ensures r.lastUrl == v.url
  {
    var kb := Normalize(v.versionName);
    var t := Tier(kb, local);
    if t == 3 || (t == 2 && |kb| > |st.matchVersion|) || (t == 1 && |kb| >= |st.matchVersion|)
    then ScanState(v.versionName, t, v.url)
    else st.(lastUrl := v.url)
  }

  /** The pass over the version list; it stops right after an exact match. */
  function Scan(vs: seq<KBVersion>, local: string, st: ScanState): ScanState
    decreases |vs|
  {
    if vs == [] then st
    else
      var st' := Step(st, vs[0], local);
      if Normalize(vs[0].versionName) == local then st' else Scan(vs[1..], local, st')
  }

  /** The tuple `find_ver_from_compver` returns. */
  datatype VersionMatch = VersionMatch(
    compName: string, versionName: string, strength: nat, sourceUrl: string, versionUrl: string)

  const NoVersionMatch := VersionMatch("", "", 0, "", "")

  /** The returned tuple: empty unless a version name was adopted. */
  function Outcome(c: Component, st: ScanState): VersionMatch {
    if st.matchVersion != "" then
      VersionMatch(c.name, st.matchVersion, st.strength, ReplaceChar(c.sourceUrl, ';', ""), st.lastUrl)
    else NoVersionMatch
  }

  /** What `find_ver_from_compver(kburl, version)` returns. */
  function MatchComponent(o: Oracle, kburl: string, version: string): VersionMatch {
    match o.fetch(kburl)
    case None => NoVersionMatch
    case Some(c) => Outcome(c, Scan(c.versions, Normalize(version), Start))
  }

  /** The special case of the second block (a candidate that is `v` followed
      by the target) can never apply: the candidate would have to be the one
      character `v` with the whole, then empty, target after it, and an empty
      common block is always reported at position 0. */
  lemma ContainmentIsNeverExact(kb: string, local: string)
    ensures var m := LongestMatch(kb, local);
      m.b == 0 && m.size == |local| ==> !(m.a == 1 && IsSingleV(kb))
  {
  }

  /** No candidate of `vs` normalises to the target. */
  predicate NoExact(vs: seq<KBVersion>, local: string) {
    forall j :: 0 <= j < |vs| ==> Normalize(vs[j].versionName) != local
  }

  /** The first exact match ends the pass, and it is what the pass returns,
      with that candidate's own URL. */
  lemma {:induction false} ScanStopsAtFirstExact(vs: seq<KBVersion>, local: string, st: ScanState, k: nat)
    requires k < |vs| && Normalize(vs[k].versionName) == local
    requires NoExact(vs[..k], local)
    ensures Scan(vs, local, st) == ScanState(vs[k].versionName, 3, vs[k].url)
  {
    if k > 0 {
      assert vs[..k][0] == vs[0];
      assert vs[1..][..k - 1] == vs[..k][1..];
      ScanStopsAtFirstExact(vs[1..], local, Step(st, vs[0], local), k - 1);
    }
  }

  /** Without an exact match the match held never gets shorter, and it ends
      at least as long as every candidate that reached one of the blocks. */
  lemma {:induction false} ScanKeepsLongest(vs: seq<KBVersion>, local: string, st: ScanState)
    requires NoExact(vs, local)
    ensures |Scan(vs, local, st).matchVersion| >= |st.matchVersion|
    ensures forall k :: 0 <= k < |vs| && Tier(Normalize(vs[k].versionName), local) > 0 ==>
      |Scan(vs, local, st).matchVersion| >= |vs[k].versionName|
  {
    if vs != [] {
      var st' := Step(st, vs[0], local);
      assert NoExact(vs[1..], local) by {
        forall j | 0 <= j < |vs[1..]| ensures Normalize(vs[1..][j].versionName) != local {
          assert vs[1..][j] == vs[j + 1];
        }
      }
      ScanKeepsLongest(vs[1..], local, st');
      forall k | 0 < k < |vs| && Tier(Normalize(vs[k].versionName), local) > 0
        ensures |Scan(vs, local, st).matchVersion| >= |vs[k].versionName|
      {
        assert vs[1..][k - 1] == vs[k];
      }
    }
  }

  /** What the pass returns is either the state it started from or a
      candidate of the list with the strength of its tier. */
  lemma {:induction false} ScanAdoptsACandidate(vs: seq<KBVersion>, local: string, st: ScanState)
    ensures var r := Scan(vs, local, st);
      || (r.matchVersion == st.matchVersion && r.strength == st.strength)
      || exists k :: 0 <= k < |vs| && r.matchVersion == vs[k].versionName
           && r.strength == Tier(Normalize(vs[k].versionName), local) && r.strength > 0
  {
    if vs != [] {
      var st' := Step(st, vs[0], local);
      if Normalize(vs[0].versionName) != local {
        ScanAdoptsACandidate(vs[1..], local, st');
        var r := Scan(vs, local, st);
        if r.matchVersion == st'.matchVersion && r.strength == st'.strength {
        } else {
          var k :| 0 <= k < |vs[1..]| && r.matchVersion == vs[1..][k].versionName
            && r.strength == Tier(Normalize(vs[1..][k].versionName), local) && r.strength > 0;
          assert vs[1..][k] == vs[k + 1];
        }
      }
    }
  }

  /** Without an exact match the URL reported is that of the last version
      scanned, whichever version was matched. */
  lemma {:induction false} ScanEndsOnLastUrl(vs: seq<KBVersion>, local: string, st: ScanState)
    requires |vs| > 0 && NoExact(vs, local)
    ensures Scan(vs, local, st).lastUrl == vs[|vs| - 1].url
  {
    if |vs| > 1 {
      assert NoExact(vs[1..], local) by {
        forall j | 0 <= j < |vs[1..]| ensures Normalize(vs[1..][j].versionName) != local {
          assert vs[1..][j] == vs[j + 1];
        }
      }
      ScanEndsOnLastUrl(vs[1..], local, Step(st, vs[0], local));
    }
  }

  /** `find_ver_from_compver` on an exact match: strength 3, the first exactly
      matching version and that version's URL; later versions are not looked at. */
  lemma MatchComponentExact(o: Oracle, kburl: string, version: string, c: Component, k: nat)
    requires o.fetch(kburl) == Some(c)
    requires k < |c.versions| && Normalize(c.versions[k].versionName) == Normalize(version)
    requires NoExact(c.versions[..k], Normalize(version))
    ensures MatchComponent(o, kburl, version)
         == if c.versions[k].versionName == "" then NoVersionMatch
            else VersionMatch(c.name, c.versions[k].versionName, 3, ReplaceChar(c.sourceUrl, ';', ""), c.versions[k].url)
  {
    ScanStopsAtFirstExact(c.versions, Normalize(version), Start, k);
  }

  /** A non-empty result names a version of the component, with the strength
      of that version's tier; strength 3 only for an exact match. */
  lemma MatchComponentIsACandidate(o: Oracle, kburl: string, version: string, c: Component)
    requires o.fetch(kburl) == Some(c)
    ensures var r := MatchComponent(o, kburl, version);
      r != NoVersionMatch ==>
        && r.compName == c.name && r.sourceUrl == ReplaceChar(c.sourceUrl, ';', "") && r.versionName != ""
        && 0 < r.strength <= 3
        && (exists k :: 0 <= k < |c.versions| && r.versionName == c.versions[k].versionName
              && r.strength == Tier(Normalize(c.versions[k].versionName), Normalize(version)))
        && (r.strength == 3 ==> exists k :: 0 <= k < |c.versions| && Normalize(c.versions[k].versionName) == Normalize(version))
  {
    ScanAdoptsACandidate(c.versions, Normalize(version), Start);
  }

  /** Without an exact match: a result exists exactly when some non-empty
      version reaches a block; it is at least as long as every such version;
      and its URL is that of the last version in the list. */
  lemma MatchComponentWithoutExact(o: Oracle, kburl: string, version: string, c: Component)
    requires o.fetch(kburl) == Some(c)
    requires NoExact(c.versions, Normalize(version))
    ensures var r := MatchComponent(o, kburl, version); var vs := c.versions;
      && (r != NoVersionMatch <==>
            exists k :: 0 <= k < |vs| && vs[k].versionName != "" && Tier(Normalize(vs[k].versionName), Normalize(version)) > 0)
      && (forall k :: 0 <= k < |vs| && Tier(Normalize(vs[k].versionName), Normalize(version)) > 0 ==>
            |r.versionName| >= |vs[k].versionName|)
      && (r != NoVersionMatch ==> r.versionUrl == vs[|vs| - 1].url)
  {
    var local, vs := Normalize(version), c.versions;
    ScanKeepsLongest(vs, local, Start);
    ScanAdoptsACandidate(vs, local, Start);
    if |vs| > 0 {
      ScanEndsOnLastUrl(vs, local, Start);
    }
  }

  /** The three partial-match blocks of the loop body, for a candidate that
      is not an exact match: the new `matchversion` and `matchstrength`. */
  method RankCandidate(kbversion: KBVersion, localversion: string, matchversion: string, matchstrength: nat)
    returns (newversion: string, newstrength: nat)
    requires Normalize(kbversion.versionName) != localversion
    ensures ScanState(newversion, newstrength, kbversion.url)
         == Step(ScanState(matchversion, matchstrength, ""), kbversion, localversion)
  {
    newversion, newstrength := matchversion, matchstrength;
    var kbversionname := Normalize(kbversion.versionName);
    var m := LongestMatch(kbversionname, localversion);
    if m.a == 0 && m.b == 0 && m.size == |kbversionname| {
      if |kbversionname| > |matchversion| {
        newversion, newstrength := kbversion.versionName, 2;
      }
    } else if m.b == 0 && m.size == |localversion| {
      if !HasDigit(kbversionname[..m.a]) && |kbversionname| > |matchversion| {
        newversion := kbversion.versionName;
        if m.a == 1 && IsSingleV(kbversionname) {
          // the source sets strength 3 here; the branch is unreachable
          ContainmentIsNeverExact(kbversionname, localversion);
          assert false;
        } else {
          newstrength := 2;
        }
      }
    } else if m.a == 0 && m.b == 0 && m.size > 2 {
      if 0 <= m.size - RFind(localversion, '.') <= 2 {
        var kbfinalsegment := LastSegment(kbversionname, '.');
        var localfinalsegment := LastSegment(localversion, '.');
        if IsDigits(kbfinalsegment) && IsDigits(localfinalsegment) {
          if Abs(DecimalValue(kbfinalsegment) - DecimalValue(localfinalsegment)) <= 2 {
            if |kbversionname| >= |matchversion| {
              newversion, newstrength := kbversion.versionName, 1;
            }
          }
        }
      }
    }
  }

  method FindVerFromCompver(o: Oracle, kburl: string, version: string) returns (r: VersionMatch)
    ensures r == MatchComponent(o, kburl, version)
  {
    var fetched := o.fetch(kburl);
    if fetched.None? {
      return NoVersionMatch;
    }
    var component := fetched.value;
    var sourceUrl := ReplaceChar(component.sourceUrl, ';', "");
    var versions := component.versions;
    var localversion := Normalize(version);
    var matchversion, matchstrength, kbverUrl := "", 0, "";
    var i := 0;
    while i < |versions|
      invariant 0 <= i <= |versions|
      invariant Scan(versions[i..], localversion, ScanState(matchversion, matchstrength, kbverUrl))
             == Scan(versions, localversion, Start)
    {
      var kbversion := versions[i];
      var kbversionname := Normalize(kbversion.versionName);
      assert versions[i..][0] == kbversion && versions[i..][1..] == versions[i + 1..];
      kbverUrl := kbversion.url;
      if kbversionname == localversion {
        matchversion, matchstrength := kbversion.versionName, 3;
        break;
      }
      matchversion, matchstrength := RankCandidate(kbversion, localversion, matchversion, matchstrength);
      i := i + 1;
    }
    if matchversion != "" {
      r := VersionMatch(component.name, matchversion, matchstrength, sourceUrl, kbverUrl);
    } else {
      r := NoVersionMatch;
    }
  }
}
