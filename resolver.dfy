/**
 * The name resolver (`find_comp_from_kb`). The configured substrings are
 * removed from the package name; then, round after round, the name is
 * searched as it is, with `-`/`_` turned into `::` (first round only) and
 * with `-`/`_` turned into spaces, and then loses its last `-` segment, or
 * failing that its last `.` segment. An exact version match (strength 3)
 * ends the search; so does a name that cannot be shortened. The strongest
 * result, the first one when several are equally strong, becomes a
 * `;`-separated cache record.
 *
 * `Attempts` is the list of searches the loop makes, in order, with what
 * each one found; `Best` is the running maximum over them; `Resolve` puts
 * the two together. `FindCompFromKb` is the loop itself.
 */
module Resolver {
  import opened Text
  import opened KnowledgeBase
  import opened HitSelection

  /** The name searched first: every pattern is removed from the original
      `compstring`, so only the last one has any effect. */
  function Stripped(compstring: string, patterns: seq<string>): (r: string)
    ensures |r| <= |compstring|
  {
    if patterns == [] then compstring else RemoveAll(compstring, patterns[|patterns| - 1])
  }

  /** The loop that removes the configured patterns. */
  method StripPatterns(compstring: string, patterns: seq<string>) returns (compname: string)
    ensures compname == Stripped(compstring, patterns)
  {
    if patterns != [] {
      compname := compstring;
      for k := 0 to |patterns|
        invariant k > 0 ==> compname == RemoveAll(compstring, patterns[k - 1])
      {
        compname := RemoveAll(compstring, patterns[k]);
      }
    } else {
      compname := compstring;
    }
  }

  /** `-` and then `_` replaced by `::`. */
  function ColonName(name: string): (r: string)
    ensures '-' !in r && '_' !in r
  {
    ReplaceChar(ReplaceChar(name, '-', "::"), '_', "::")
  }

  /** `-` and then `_` replaced by a space. */
  function SpaceName(name: string): (r: string)
    ensures '-' !in r && '_' !in r
  {
    ReplaceChar(ReplaceChar(name, '-', " "), '_', " ")
  }

  /** The name for the next round: without its last `-` segment, or, when
      it has no `-`, without its last `.` segment. */
  function Truncate(name: string): (r: string)
    ensures r <= name
    ensures |r| < |name| <==> '-' in name || '.' in name
    ensures '-' in name ==> r == RSplitHead(name, '-')
  {
    var head := RSplitHead(name, '-');
    if |head| == |name| then RSplitHead(name, '.') else head
  }

  /** What `search_kbpackage` followed by `find_ver_from_hits` yields for one
      query: nothing when the search has no hits. */
  function Result(o: Oracle, version: string, query: string): (h: HitMatch)
    ensures h == NoHitMatch || (h.versionName != "" && 0 < h.strength <= 3)
  {
    var hits := o.search(query);
    SelectHitShape(o, hits, version);
    if hits == [] then NoHitMatch else SelectHit(o, hits, version)
  }

  datatype Form = Plain | Colons | Spaces

  /** The string searched for `name` in a given form. */
  function Query(form: Form, name: string): string {
    match form
    case Plain => name
    case Colons => ColonName(name)
    case Spaces => SpaceName(name)
  }

  /** One search of the loop: its form, the name it was made from, and what
      it found. */
  datatype Attempt = Attempt(form: Form, name: string, result: HitMatch)

  /** What the search for each query finds, for a fixed version. */
  type Lookup = string -> HitMatch

  function Searches(o: Oracle, version: string): Lookup {
    query => Result(o, version, query)
  }

  function Try(look: Lookup, form: Form, name: string): Attempt {
    Attempt(form, name, look(Query(form, name)))
  }

  /** The searches of one round on `name`: as it is; with `::` when it is
      still as long as the name the loop started with and holds a `-`; with
      spaces when it holds a `-` or `_`. An exact match ends the round. */
  function Round(look: Lookup, baseLen: nat, name: string): (round: seq<Attempt>)
    ensures 1 <= |round| <= 3
  {
    var plain := [Try(look, Plain, name)];
    var colons := if |name| == baseLen && '-' in name then [Try(look, Colons, name)] else [];
    var spaces := if '-' in name || '_' in name then [Try(look, Spaces, name)] else [];
    if plain[0].result.strength == 3 then plain
    else if colons != [] && colons[0].result.strength == 3 then plain + colons
    else plain + colons + spaces
  }

  /** The last search of `round` found an exact version match. */
  predicate EndsExact(round: seq<Attempt>) {
    |round| > 0 && round[|round| - 1].result.strength == 3
  }

  /** The searches the loop makes from the round on `name` on, `baseLen`
      being the length of the name it started with. */
  function Attempts(look: Lookup, baseLen: nat, name: string): seq<Attempt>
    decreases |name|
  {
    var round := Round(look, baseLen, name);
    var next := Truncate(name);
    if EndsExact(round) || |next| == |name| then round
    else round + Attempts(look, baseLen, next)
  }

  /** The running best: replaced only by a strictly stronger result. */
  function Better(best: HitMatch, r: HitMatch): HitMatch {
    if r.strength > best.strength then r else best
  }

  function Best(attempts: seq<Attempt>, best: HitMatch): HitMatch {
    if attempts == [] then best else Best(attempts[1..], Better(best, attempts[0].result))
  }

  /** The result `find_comp_from_kb` settles on. */
  function Resolve(o: Oracle, compstring: string, version: string, patterns: seq<string>): HitMatch {
    var name := Stripped(compstring, patterns);
    Best(Attempts(Searches(o, version), |name|, name), NoHitMatch)
  }

  /** The cache record returned: the original, unstripped `compstring`, the
      match's fields and the version asked for, or the no-match record. */
  function Record(compstring: string, version: string, best: HitMatch): string {
    if best.strength > 0 then
      compstring + ";" + best.compName + ";" + best.sourceUrl + ";" + best.compUrl + ";"
      + version + ";" + best.versionUrl + ";\n"
    else
      compstring + ";;;NO MATCH;" + version + ";NO VERSION MATCH;\n"
  }

  lemma {:induction false} BestAppend(xs: seq<Attempt>, ys: seq<Attempt>, best: HitMatch)
    ensures Best(xs + ys, best) == Best(ys, Best(xs, best))
  {
    if xs != [] {
      assert (xs + ys)[0] == xs[0] && (xs + ys)[1..] == xs[1..] + ys;
      BestAppend(xs[1..], ys, Better(best, xs[0].result));
    } else {
      assert xs + ys == ys;
    }
  }

  /** The running best ends as the first result of greatest strength, or as
      the starting value when no result is stronger. */
  lemma {:induction false} BestIsFirstStrongest(attempts: seq<Attempt>, best: HitMatch)
    ensures var r := Best(attempts, best);
      && r.strength >= best.strength
      && (forall j :: 0 <= j < |attempts| ==> attempts[j].result.strength <= r.strength)
      && (|| r == best
          || exists k :: 0 <= k < |attempts| && r == attempts[k].result && r.strength > best.strength
               && forall j :: 0 <= j < k ==> attempts[j].result.strength < r.strength)
  {
    if attempts != [] {
      var rest, b' := attempts[1..], Better(best, attempts[0].result);
      BestIsFirstStrongest(rest, b');
      var r := Best(attempts, best);
      forall j | 0 < j < |attempts| ensures attempts[j].result.strength <= r.strength {
        assert attempts[j] == rest[j - 1];
      }
      if r != b' {
        var k :| 0 <= k < |rest| && r == rest[k].result && r.strength > b'.strength
          && forall j :: 0 <= j < k ==> rest[j].result.strength < r.strength;
        forall j | 0 < j <= k ensures attempts[j].result.strength < r.strength {
          assert attempts[j] == rest[j - 1];
        }
        assert r == attempts[k + 1].result;
      } else if b' != best {
        assert r == attempts[0].result;
      }
    }
  }

  /** Each search holds what the lookup gives for its query. */
  predicate Recorded(look: Lookup, tried: seq<Attempt>) {
    forall j :: 0 <= j < |tried| ==> tried[j] == Try(look, tried[j].form, tried[j].name)
  }

  /** Each search is made from a prefix of `name`. */
  predicate PrefixesOf(tried: seq<Attempt>, name: string) {
    forall j :: 0 <= j < |tried| ==> tried[j].name <= name
  }

  /** The `::` form is searched only for `orig`, and only when it holds a `-`. */
  predicate ColonsOnlyFor(tried: seq<Attempt>, orig: string) {
    forall j :: 0 <= j < |tried| && tried[j].form == Colons ==> tried[j].name == orig && '-' in orig
  }

  /** The space form is searched only for names holding a `-` or `_`. */
  predicate SpacesOnlySeparated(tried: seq<Attempt>) {
    forall j :: 0 <= j < |tried| && tried[j].form == Spaces ==> '-' in tried[j].name || '_' in tried[j].name
  }

  /** No search but the last found an exact match. */
  predicate ExactOnlyLast(tried: seq<Attempt>) {
    forall j :: 0 <= j < |tried| - 1 ==> tried[j].result.strength != 3
  }

  /** Each round starts on a name strictly shorter than every name searched
      before it. */
  predicate RoundsShrink(tried: seq<Attempt>) {
    forall i, j :: 0 <= i < j < |tried| && tried[j].form == Plain ==> |tried[j].name| < |tried[i].name|
  }

  /** What one round searches, and in what order. */
  lemma RoundShape(look: Lookup, baseLen: nat, name: string)
    ensures var round := Round(look, baseLen, name);
      && round[0] == Try(look, Plain, name)
      && Recorded(look, round)
      && (forall j :: 0 <= j < |round| ==> round[j].name == name)
      && (forall j :: 0 < j < |round| ==> round[j].form != Plain)
      && (forall j :: 0 <= j < |round| && round[j].form == Colons ==> |name| == baseLen && '-' in name)
      && SpacesOnlySeparated(round)
      && ExactOnlyLast(round)
      && (!EndsExact(round) ==> forall j :: 0 <= j < |round| ==> round[j].result.strength != 3)
  {
    var round := Round(look, baseLen, name);
    var p, c, sp := Try(look, Plain, name), Try(look, Colons, name), Try(look, Spaces, name);
    var withColons := |name| == baseLen && '-' in name;
    var withSpaces := '-' in name || '_' in name;
    if p.result.strength == 3 {
      assert round == [p];
    } else if withColons && c.result.strength == 3 {
      assert round == [p, c];
    } else if withColons {
      assert round == [p, c, sp];
    } else if withSpaces {
      assert round == [p, sp];
    } else {
      assert round == [p];
    }
  }

  /** The loop goes on from `name` to the round on `Truncate(name)`. */
  predicate Continues(look: Lookup, baseLen: nat, name: string) {
    !(EndsExact(Round(look, baseLen, name)) || |Truncate(name)| == |name|)
  }

  lemma AttemptsUnfold(look: Lookup, baseLen: nat, name: string)
    ensures Continues(look, baseLen, name) ==>
      Attempts(look, baseLen, name) == Round(look, baseLen, name) + Attempts(look, baseLen, Truncate(name))
    ensures !Continues(look, baseLen, name) ==> Attempts(look, baseLen, name) == Round(look, baseLen, name)
  {
  }

  /** The loop's first search is of the name it starts with. */
  lemma AttemptsStart(look: Lookup, baseLen: nat, name: string)
    ensures |Attempts(look, baseLen, name)| >= 1 && Attempts(look, baseLen, name)[0] == Try(look, Plain, name)
  {
    RoundShape(look, baseLen, name);
    AttemptsUnfold(look, baseLen, name);
  }

  /** Every search holds what the lookup gives for its query, and is made
      from a prefix of the name the loop started with. */
  lemma {:induction false} AttemptsArePrefixes(look: Lookup, baseLen: nat, name: string)
    decreases |name|
    ensures Recorded(look, Attempts(look, baseLen, name))
    ensures PrefixesOf(Attempts(look, baseLen, name), name)
  {
    var round := Round(look, baseLen, name);
    RoundShape(look, baseLen, name);
    AttemptsUnfold(look, baseLen, name);
    if Continues(look, baseLen, name) {
      var next := Truncate(name);
      var rest := Attempts(look, baseLen, next);
      AttemptsArePrefixes(look, baseLen, next);
      var tried := round + rest;
      forall j | |round| <= j < |tried|
        ensures tried[j] == Try(look, tried[j].form, tried[j].name) && tried[j].name <= name
      {
        assert tried[j] == rest[j - |round|];
      }
    }
  }

  /** The `::` form is only ever searched for the name the loop started
      with, and only when that name holds a `-`. */
  lemma {:induction false} ColonsOnlyFirst(look: Lookup, orig: string, name: string)
    requires name <= orig
    decreases |name|
    ensures ColonsOnlyFor(Attempts(look, |orig|, name), orig)
  {
    var round := Round(look, |orig|, name);
    RoundShape(look, |orig|, name);
    AttemptsUnfold(look, |orig|, name);
    if |name| == |orig| {
      assert name == orig[..|name|];
    }
    if Continues(look, |orig|, name) {
      var next := Truncate(name);
      var rest := Attempts(look, |orig|, next);
      ColonsOnlyFirst(look, orig, next);
      var tried := round + rest;
      forall j | |round| <= j < |tried| && tried[j].form == Colons
        ensures tried[j].name == orig && '-' in orig
      {
        assert tried[j] == rest[j - |round|];
      }
    }
  }

  /** The space form is only searched for a name holding a `-` or `_`. */
  lemma {:induction false} SpacesNeedSeparator(look: Lookup, baseLen: nat, name: string)
    decreases |name|
    ensures SpacesOnlySeparated(Attempts(look, baseLen, name))
  {
    var round := Round(look, baseLen, name);
    RoundShape(look, baseLen, name);
    AttemptsUnfold(look, baseLen, name);
    if Continues(look, baseLen, name) {
      var next := Truncate(name);
      var rest := Attempts(look, baseLen, next);
      SpacesNeedSeparator(look, baseLen, next);
      var tried := round + rest;
      forall j | |round| <= j < |tried| && tried[j].form == Spaces
        ensures '-' in tried[j].name || '_' in tried[j].name
      {
        assert tried[j] == rest[j - |round|];
      }
    }
  }

  /** Any exact match ends the loop: only the last search can be exact. */
  lemma {:induction false} ExactEndsLoop(look: Lookup, baseLen: nat, name: string)
    decreases |name|
    ensures ExactOnlyLast(Attempts(look, baseLen, name))
  {
    var round := Round(look, baseLen, name);
    RoundShape(look, baseLen, name);
    AttemptsUnfold(look, baseLen, name);
    if Continues(look, baseLen, name) {
      var next := Truncate(name);
      var rest := Attempts(look, baseLen, next);
      ExactEndsLoop(look, baseLen, next);
      var tried := round + rest;
      forall j | 0 <= j < |tried| - 1 ensures tried[j].result.strength != 3 {
        if j >= |round| {
          assert tried[j] == rest[j - |round|];
        }
      }
    }
  }

  /** Each round's name is strictly shorter than every name searched before
      it, which is why the loop ends. */
  lemma {:induction false} NamesShrink(look: Lookup, baseLen: nat, name: string)
    decreases |name|
    ensures RoundsShrink(Attempts(look, baseLen, name))
  {
    var round := Round(look, baseLen, name);
    RoundShape(look, baseLen, name);
    AttemptsUnfold(look, baseLen, name);
    if Continues(look, baseLen, name) {
      var next := Truncate(name);
      var rest := Attempts(look, baseLen, next);
      var tried := round + rest;
      NamesShrink(look, baseLen, next);
      AttemptsArePrefixes(look, baseLen, next);
      assert |next| < |name|;
      forall i, j | 0 <= i < j < |tried| && tried[j].form == Plain
        ensures |tried[j].name| < |tried[i].name|
      {
        assert j >= |round|;
        assert tried[j] == rest[j - |round|];
        assert |tried[j].name| <= |next|;
        if i >= |round| {
          assert tried[i] == rest[i - |round|];
        } else {
          assert tried[i] == round[i];
        }
      }
    }
  }

  /** `find_comp_from_kb` settles on the first strongest of its searches, or
      on no match when none found anything; it has strength 3 exactly when
      its last search found an exact version match. */
  lemma ResolveIsFirstStrongest(o: Oracle, compstring: string, version: string, patterns: seq<string>)
    ensures var name := Stripped(compstring, patterns);
      var tried := Attempts(Searches(o, version), |name|, name);
      var r := Resolve(o, compstring, version, patterns);
      && (forall j :: 0 <= j < |tried| ==> tried[j].result.strength <= r.strength)
      && (r.strength == 0 ==> r == NoHitMatch)
      && (r.strength > 0 ==>
            exists k :: 0 <= k < |tried| && r == tried[k].result
              && forall j :: 0 <= j < k ==> tried[j].result.strength < r.strength)
      && (r.strength == 3 <==> tried[|tried| - 1].result.strength == 3)
  {
    var name := Stripped(compstring, patterns);
    var tried := Attempts(Searches(o, version), |name|, name);
    BestIsFirstStrongest(tried, NoHitMatch);
    ExactEndsLoop(Searches(o, version), |name|, name);
    AttemptsArePrefixes(Searches(o, version), |name|, name);
    var r := Resolve(o, compstring, version, patterns);
    if r.strength == 3 {
      var k :| 0 <= k < |tried| && r == tried[k].result;
      assert k == |tried| - 1;
    }
  }

  /** One search: `search_kbpackage` and, when it has hits,
      `find_ver_from_hits`, with the running best updated. */
  method Search(o: Oracle, version: string, query: string, best: HitMatch) returns (newBest: HitMatch, exact: bool)
    ensures newBest == Better(best, Result(o, version, query))
    ensures exact == (Result(o, version, query).strength == 3)
  {
    newBest, exact := best, false;
    var hits := o.search(query);
    if hits != [] {
      var h := FindVerFromHits(o, hits, version);
      if h.strength == 3 {
        exact := true;
      }
      if h.strength > best.strength {
        newBest := h;
      }
    }
  }

  /** The three searches of one round. */
  method SearchRound(o: Oracle, version: string, baseLen: nat, compname: string, best: HitMatch)
    returns (newBest: HitMatch, end: bool)
    ensures newBest == Best(Round(Searches(o, version), baseLen, compname), best)
    ensures end == EndsExact(Round(Searches(o, version), baseLen, compname))
  {
    ghost var look := Searches(o, version);
    ghost var plain := [Try(look, Plain, compname)];
    ghost var colons := if |compname| == baseLen && '-' in compname then [Try(look, Colons, compname)] else [];
    ghost var spaces := if '-' in compname || '_' in compname then [Try(look, Spaces, compname)] else [];
    newBest, end := Search(o, version, compname, best);
    if !end && |compname| == baseLen && '-' in compname {
      newBest, end := Search(o, version, ColonName(compname), newBest);
      BestAppend(plain, colons, best);
    }
    if !end && ('-' in compname || '_' in compname) {
      newBest, end := Search(o, version, SpaceName(compname), newBest);
      BestAppend(plain + colons, spaces, best);
    }
  }

  /** `find_comp_from_kb`. */
  method FindCompFromKb(o: Oracle, compstring: string, version: string, patterns: seq<string>) returns (line: string)
    ensures line == Record(compstring, version, Resolve(o, compstring, version, patterns))
  {
    var compname := StripPatterns(compstring, patterns);
    var origcomp := compname;
    ghost var goal := Resolve(o, compstring, version, patterns);
    var best := NoHitMatch;
    var end := false;
    while !end
      invariant compname <= origcomp
      invariant !end ==> Best(Attempts(Searches(o, version), |origcomp|, compname), best) == goal
      invariant end ==> best == goal
      decreases |compname| + (if end then 0 else 1)
    {
      ghost var before := best;
      best, end := SearchRound(o, version, |origcomp|, compname, best);
      BestAppend(Round(Searches(o, version), |origcomp|, compname), Attempts(Searches(o, version), |origcomp|, Truncate(compname)), before);
      if !end {
        var newname := RSplitHead(compname, '-');
        if |newname| == |compname| {
          newname := RSplitHead(compname, '.');
          if |newname| == |compname| {
            end := true;
          }
        }
        compname := newname;
      }
    }
    line := Record(compstring, version, best);
  }
}
