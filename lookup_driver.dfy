/**
 * The `kblookup` command. The cache indexes are loaded from the input KB
 * file, when one is given (and copied into the output cache file under
 * `--append`). Then each manifest line is split into package and version:
 *  - a package the cache marks `NO MATCH` is skipped;
 *  - a package/version the cache already resolves is left alone;
 *  - a package the cache knows but whose version it does not is looked up
 *    in the cached component URLs in turn, and the output file's line for
 *    the first URL is amended with the version URL found (or with
 *    `NO VERSION MATCH`);
 *  - a package the cache does not know is searched for in the knowledge
 *    base and its record appended to the output file.
 * The run stops once more than 500 lookups have been counted.
 *
 * The output file is modelled as its list of lines; the lookups come from
 * the `Oracle`.
 */
module LookupDriver {
  import opened Text
  import opened KnowledgeBase
  import opened VersionMatcher
  import opened HitSelection
  import opened Resolver
  import opened ManifestLine
  import opened KbCache

  const NoMatch := "NO MATCH"
  const NoVersion := "NO VERSION MATCH"
  /** The count of lookups past which the run stops. */
  const Limit := 500

  /** `find_compver_from_compurl`: the version URL and source URL of a match
      of any strength in the component at `kburl`, or the no-version marker
      and an empty source URL. */
  function CompverFromCompurl(o: Oracle, kburl: string, version: string): (string, string) {
    var m := MatchComponent(o, kburl, version);
    if m.strength > 0 then (m.versionUrl, m.sourceUrl) else (NoVersion, "")
  }

  /** What a component URL yields: nothing when the component cannot be
      fetched or no version of it reaches a block; the first exact version's
      URL when there is one; otherwise the URL of the component's last
      version, whichever version matched. */
  lemma CompverFromCompurlCases(o: Oracle, kburl: string, version: string)
    ensures o.fetch(kburl).None? ==> CompverFromCompurl(o, kburl, version) == (NoVersion, "")
    ensures o.fetch(kburl).Some? ==>
      var c := o.fetch(kburl).value; var vs := c.versions; var local := Normalize(version);
      && (forall k :: 0 <= k < |vs| && Normalize(vs[k].versionName) == local && vs[k].versionName != ""
                      && NoExact(vs[..k], local) ==>
            CompverFromCompurl(o, kburl, version) == (vs[k].url, ReplaceChar(c.sourceUrl, ';', "")))
      && (NoExact(vs, local) ==>
            CompverFromCompurl(o, kburl, version)
            == if exists k :: 0 <= k < |vs| && vs[k].versionName != "" && Tier(Normalize(vs[k].versionName), local) > 0
               then (vs[|vs| - 1].url, ReplaceChar(c.sourceUrl, ';', ""))
               else (NoVersion, ""))
  {
    if o.fetch(kburl).Some? {
      var c := o.fetch(kburl).value;
      var vs, local := c.versions, Normalize(version);
      forall k | 0 <= k < |vs| && Normalize(vs[k].versionName) == local && vs[k].versionName != ""
                 && NoExact(vs[..k], local)
        ensures CompverFromCompurl(o, kburl, version) == (vs[k].url, ReplaceChar(c.sourceUrl, ';', ""))
      {
        MatchComponentExact(o, kburl, version, c, k);
      }
      if NoExact(vs, local) {
        MatchComponentWithoutExact(o, kburl, version, c);
        MatchComponentIsACandidate(o, kburl, version, c);
      }
    }
  }

  method FindCompverFromCompurl(o: Oracle, kburl: string, searchVersion: string)
    returns (kbverurl: string, srcurl: string)
    ensures (kbverurl, srcurl) == CompverFromCompurl(o, kburl, searchVersion)
  {
    var m := FindVerFromCompver(o, kburl, searchVersion);
    if m.strength > 0 {
      return m.versionUrl, m.sourceUrl;
    } else {
      return NoVersion, "";
    }
  }

  /** The state of the `kblookup` loop: the two cache indexes, the lines of
      the output cache file and the count of lookups made. */
  datatype Session = Session(
    lookup: map<string, seq<string>>, verdict: map<string, string>, out: seq<string>, processed: nat)

  /** How one manifest line ends: it goes on to the next line without the
      check on the count (`continue`), it reaches that check, or the amend
      raised, which ends the run. */
  datatype Flow = Skip | Check | Raise

  /** How a run ends: every line done, stopped at the limit, or raised. */
  datatype Ending = Completed | Stopped | Raised

  /** Every name of the index has a component URL. */
  predicate Valid(s: Session) {
    forall n :: n in s.lookup ==> s.lookup[n] != []
  }

  /** The version URL a component URL yields for `version`. */
  function VersionUrlOf(o: Oracle, version: string, kburl: string): string {
    CompverFromCompurl(o, kburl, version).0
  }

  /** What each of the component URLs yields, in order. */
  function Outcomes(o: Oracle, version: string, urls: seq<string>): (r: seq<string>)
    ensures |r| == |urls|
  {
    if urls == [] then [] else [VersionUrlOf(o, version, urls[0])] + Outcomes(o, version, urls[1..])
  }

  /** The outcome at position `k` is what the `k`-th component URL yields. */
  lemma {:induction false} OutcomeAt(o: Oracle, version: string, urls: seq<string>, k: nat)
    requires k < |urls|
    ensures Outcomes(o, version, urls)[k] == VersionUrlOf(o, version, urls[k])
  {
    if k > 0 {
      OutcomeAt(o, version, urls[1..], k - 1);
    }
  }

  /** The outcomes of the component URLs tried in order until one is a
      version URL: how many were tried, and the version URL found, if any. */
  function Probe(outcomes: seq<string>): (nat, Option<string>) {
    if outcomes == [] then (0, None)
    else if outcomes[0] != NoVersion then (1, Some(outcomes[0]))
    else
      var rest := Probe(outcomes[1..]);
      (rest.0 + 1, rest.1)
  }

  /** The URL loop stops at the first URL that yields a version URL and
      reports that URL's result; when none does, every URL has been tried. */
  lemma {:induction false} ProbeFindsFirst(outcomes: seq<string>)
    ensures var p := Probe(outcomes);
      && (p.1 == None <==> forall k :: 0 <= k < |outcomes| ==> outcomes[k] == NoVersion)
      && (p.1 == None ==> p.0 == |outcomes|)
      && (p.1.Some? ==>
            && 1 <= p.0 <= |outcomes|
            && p.1.value == outcomes[p.0 - 1] != NoVersion
            && forall k :: 0 <= k < p.0 - 1 ==> outcomes[k] == NoVersion)
  {
    if outcomes != [] && outcomes[0] == NoVersion {
      var rest := outcomes[1..];
      ProbeFindsFirst(rest);
      var q := Probe(rest);
      forall k | 1 <= k < |outcomes| ensures outcomes[k] == rest[k - 1] { }
      if q.1.Some? {
        assert outcomes[q.0] == rest[q.0 - 1];
      }
    }
  }

  /** One manifest line, split into `package` and `version`: the new state,
      and how the line ends (the `NO MATCH` skip and a failed version search
      go on to the next line before the check on the count). */
  function Visit(o: Oracle, patterns: seq<string>, s: Session, package: string, version: string): (Session, Flow)
    requires Valid(s)
  {
    if package !in s.lookup then
      var record := Record(package, version, Resolve(o, package, version, patterns));
      (s.(out := s.out + [record], processed := s.processed + 1), Check)
    else
      var urls := s.lookup[package];
      if urls[0] == NoMatch then (s, Skip)
      else if package + "/" + version in s.verdict then (s, Check)
      else
        Probed(s, package, version, urls[0], Probe(Outcomes(o, version, urls)))
  }

  /** A package/version the cache does not resolve, once its component URLs
      are probed: the version URL found is recorded in the verdict index and
      the output file's lines for `compurl` are amended with it (or with
      `NO VERSION MATCH`); every URL tried counts, and the one found counts
      once more, after the amend. An output line without the four fields
      makes the amend raise, with the lines before it written. */
  function Probed(s: Session, package: string, version: string, compurl: string, p: (nat, Option<string>)): (Session, Flow)
  {
    var u := if p.1.Some? then p.1.value else NoVersion;
    var verdict := if p.1.Some? then s.verdict[package + "/" + version := u] else s.verdict;
    var (written, raised) := Rewrite(s.out, package, version, compurl, u);
    if raised then (Session(s.lookup, verdict, written, s.processed + p.0), Raise)
    else if p.1.Some? then (Session(s.lookup, verdict, written, s.processed + p.0 + 1), Check)
    else (Session(s.lookup, verdict, written, s.processed + p.0), Skip)
  }

  /** One manifest line. */
  function LineStep(o: Oracle, patterns: seq<string>, s: Session, line: string): (Session, Flow)
    requires Valid(s) && NoEmptySegment(line)
  {
    Visit(o, patterns, s, Package(line), Version(line))
  }

  /** A `;`-join of `n` parts holds at least `n - 1` separators. */
  lemma {:induction false} CountJoin(parts: seq<string>)
    ensures Count(Join(parts, ";"), ';') + 1 >= |parts|
  {
    if |parts| > 1 {
      CountJoin(parts[1..]);
      CountAppend(parts[0], ";", ';');
      CountAppend(parts[0] + ";", Join(parts[1..], ";"), ';');
      assert Count(";", ';') == 1;
    }
  }

  /** A record has the four fields the amend reads. */
  lemma RecordHasFields(compstring: string, version: string, best: HitMatch)
    ensures HasFields(Record(compstring, version, best))
  {
    RecordIsRecordLine(compstring, version, best);
    CountJoin(RecordedFields(compstring, version, best) + ["\n"]);
    FieldsFromCount(Record(compstring, version, best));
  }

  /** A line keeps the state valid; it never touches the index; it keeps
      every version URL already resolved; it only adds to the count; unless
      it raises, it changes the output file in place or by one appended
      record; and it raises only on an output file with a line without the
      four fields, which it never makes. */
  lemma VisitKeepsValid(o: Oracle, patterns: seq<string>, s: Session, package: string, version: string)
    requires Valid(s)
    ensures var (r, flow) := Visit(o, patterns, s, package, version);
      && Valid(r)
      && r.lookup == s.lookup
      && (forall k :: k in s.verdict ==> k in r.verdict && r.verdict[k] == s.verdict[k])
      && r.processed >= s.processed
      && (flow != Raise ==>
            |r.out| == |s.out| || r.out == s.out + [Record(package, version, Resolve(o, package, version, patterns))])
      && (AllFields(s.out) ==> AllFields(r.out) && flow != Raise)
  {
    var r := Visit(o, patterns, s, package, version).0;
    if package !in s.lookup {
      var rec := Record(package, version, Resolve(o, package, version, patterns));
      RecordHasFields(package, version, Resolve(o, package, version, patterns));
      assert r.out == s.out + [rec];
      if AllFields(s.out) {
        AllFieldsSnoc(s.out, rec);
      }
    } else {
      var urls := s.lookup[package];
      if urls[0] != NoMatch && package + "/" + version !in s.verdict {
        ProbedKeepsValid(s, package, version, urls[0], Probe(Outcomes(o, version, urls)));
      }
    }
  }

  /** Recording a probe keeps the state valid, leaves the lookup index and
      every verdict already there alone, and only adds to the count; it
      raises exactly when a line of the output file lacks the four fields,
      and otherwise keeps the number of output lines. */
  lemma ProbedKeepsValid(s: Session, package: string, version: string, compurl: string, p: (nat, Option<string>))
    requires Valid(s)
    requires package + "/" + version !in s.verdict
    ensures var (r, flow) := Probed(s, package, version, compurl, p);
      && Valid(r)
      && r.lookup == s.lookup
      && (forall k :: k in s.verdict ==> k in r.verdict && r.verdict[k] == s.verdict[k])
      && r.processed >= s.processed
      && AllFields(r.out)
      && (flow == Raise <==> !AllFields(s.out))
      && (flow != Raise ==> |r.out| == |s.out|)
  {
    var u := if p.1.Some? then p.1.value else NoVersion;
    RewriteCases(s.out, package, version, compurl, u);
  }

  /** Every manifest line splits into a package and a version. */
  predicate Parsable(lines: seq<string>) {
    forall i :: 0 <= i < |lines| ==> NoEmptySegment(lines[i])
  }

  /** The loop over the manifest lines from state `s`: the final state, and
      whether the run completed, stopped at the limit or raised. A line with
      an empty `-`-segment makes the splitter raise, which ends the run. */
  function Run(o: Oracle, patterns: seq<string>, s: Session, lines: seq<string>): (Session, Ending)
    requires Valid(s)
    decreases |lines|
  {
    if lines == [] then (s, Completed)
    else if !NoEmptySegment(lines[0]) then (s, Raised)
    else
      VisitKeepsValid(o, patterns, s, Package(lines[0]), Version(lines[0]));
      var step := LineStep(o, patterns, s, lines[0]);
      if step.1 == Raise then (step.0, Raised)
      else if step.1 == Check && step.0.processed > Limit then (step.0, Stopped)
      else Run(o, patterns, step.0, lines[1..])
  }

  /** Over a whole run: the index loaded at the start is never updated (a
      package searched for in this run is searched for again when it recurs);
      every version URL already resolved is kept; the count only grows;
      unless the run raises, the output file keeps its number of lines and
      may gain new ones; a run that stops early has counted more than 500
      lookups; and a run over an output file whose lines all have the four
      fields keeps them so, and never raises when every manifest line
      splits. */
  lemma {:induction false} RunInvariants(o: Oracle, patterns: seq<string>, s: Session, lines: seq<string>)
    requires Valid(s)
    ensures var (r, ending) := Run(o, patterns, s, lines);
      && Valid(r)
      && r.lookup == s.lookup
      && (forall k :: k in s.verdict ==> k in r.verdict && r.verdict[k] == s.verdict[k])
      && r.processed >= s.processed
      && (ending != Raised ==> |r.out| >= |s.out|)
      && (ending == Stopped ==> r.processed > Limit)
      && (AllFields(s.out) ==> AllFields(r.out))
      && (AllFields(s.out) && Parsable(lines) ==> ending != Raised)
    decreases |lines|
  {
    if lines != [] && NoEmptySegment(lines[0]) {
      VisitKeepsValid(o, patterns, s, Package(lines[0]), Version(lines[0]));
      var step := LineStep(o, patterns, s, lines[0]);
      if step.1 != Raise && !(step.1 == Check && step.0.processed > Limit) {
        if Parsable(lines) {
          forall i | 0 <= i < |lines| - 1 ensures NoEmptySegment(lines[1..][i]) {
            assert lines[1..][i] == lines[i + 1];
          }
        }
        assert Run(o, patterns, s, lines) == Run(o, patterns, step.0, lines[1..]);
        RunInvariants(o, patterns, step.0, lines[1..]);
      }
    }
  }

  /** A `kblookup` run raises only on a manifest line that does not split
      or when the output file it starts from has a line without the four
      fields: every line it writes has them. */
  lemma WellFormedRunNeverRaises(o: Oracle, patterns: seq<string>, manifest: seq<string>, kbfile: string,
                                 kbLines: seq<string>, output: string, append: bool, existing: seq<string>)
    requires Parsable(manifest)
    requires AllFields(kbLines)
    requires AllFields(existing)
    ensures Valid(Start(kbfile, kbLines, output, append, existing))
    ensures var r := Run(o, patterns, Start(kbfile, kbLines, output, append, existing), manifest);
      r.1 != Raised && AllFields(r.0.out)
  {
    StartValid(kbfile, kbLines, output, append, existing);
    RunInvariants(o, patterns, Start(kbfile, kbLines, output, append, existing), manifest);
  }

  /** The state before the loop: with an input KB file, its two indexes, and
      its lines copied after the output file's when `--append` names an
      output file other than it; without one, empty indexes. */
  function Start(kbfile: string, kbLines: seq<string>, output: string, append: bool, existing: seq<string>): Session
    requires AllFields(kbLines)
  {
    if kbfile == "" then Session(map[], map[], existing, 0)
    else
      var outfile := if append then output else "";
      var copied := if outfile != "" && outfile != kbfile then kbLines else [];
      Session(LookupIndex(kbLines), VersionIndex(kbLines), existing + copied, 0)
  }

  lemma {:induction false} LookupIndexNonEmpty(lines: seq<string>)
    requires AllFields(lines)
    ensures forall n :: n in LookupIndex(lines) ==> LookupIndex(lines)[n] != []
  {
    if lines != [] {
      LookupIndexNonEmpty(lines[..|lines| - 1]);
    }
  }

  /** The loaded state is valid, and its output lines have the four fields
      when the output file's own lines do. */
  lemma StartValid(kbfile: string, kbLines: seq<string>, output: string, append: bool, existing: seq<string>)
    requires AllFields(kbLines)
    ensures Valid(Start(kbfile, kbLines, output, append, existing))
    ensures AllFields(existing) ==> AllFields(Start(kbfile, kbLines, output, append, existing).out)
  {
    LookupIndexNonEmpty(kbLines);
    if AllFields(existing) {
      AllFieldsAppend(existing, kbLines);
      AllFieldsAppend(existing, []);
      assert existing + [] == existing;
    }
  }

  /** The fields a record is made of. */
  function RecordedFields(compstring: string, version: string, best: HitMatch): seq<string> {
    if best.strength > 0 then [compstring, best.compName, best.sourceUrl, best.compUrl, version, best.versionUrl]
    else [compstring, "", "", NoMatch, version, NoVersion]
  }

  /** The seven fields of a record joined with `;`, as the record writes them. */
  lemma JoinSeven(a: string, b: string, c: string, d: string, e: string, f: string)
    ensures Join([a, b, c, d, e, f, "\n"], ";") == a + ";" + b + ";" + c + ";" + d + ";" + e + ";" + f + ";\n"
  {
    assert Join([a], ";") == a;
    JoinSnoc([a], b, ";");
    assert [a] + [b] == [a, b];
    JoinSnoc([a, b], c, ";");
    assert [a, b] + [c] == [a, b, c];
    JoinSnoc([a, b, c], d, ";");
    assert [a, b, c] + [d] == [a, b, c, d];
    JoinSnoc([a, b, c, d], e, ";");
    assert [a, b, c, d] + [e] == [a, b, c, d, e];
    JoinSnoc([a, b, c, d, e], f, ";");
    assert [a, b, c, d, e] + [f] == [a, b, c, d, e, f];
    JoinSnoc([a, b, c, d, e, f], "\n", ";");
    assert [a, b, c, d, e, f] + ["\n"] == [a, b, c, d, e, f, "\n"];
    var x := a + ";" + b + ";" + c + ";" + d + ";" + e + ";" + f;
    assert x + ";" + "\n" == x + ";\n";
  }

  lemma RecordIsRecordLine(compstring: string, version: string, best: HitMatch)
    ensures Record(compstring, version, best) == RecordLine(RecordedFields(compstring, version, best))
  {
    var f := RecordedFields(compstring, version, best);
    assert f + ["\n"] == [f[0], f[1], f[2], f[3], f[4], f[5], "\n"];
    JoinSeven(f[0], f[1], f[2], f[3], f[4], f[5]);
    if best.strength == 0 {
      UnmatchedRecord(compstring, version);
    }
  }

  /** The record of a package with no match, field by field. */
  lemma UnmatchedRecord(compstring: string, version: string)
    ensures compstring + ";" + "" + ";" + "" + ";" + NoMatch + ";" + version + ";" + NoVersion + ";\n"
         == compstring + ";;;NO MATCH;" + version + ";NO VERSION MATCH;\n"
  {
    var head := compstring + ";" + "" + ";" + "" + ";" + NoMatch + ";";
    assert head == compstring + ";;;NO MATCH;" by {
      assert compstring + ";" + "" + ";" + "" + ";" == compstring + ";;;";
      AppendAssoc(compstring, ";;;", NoMatch);
      AppendAssoc(compstring, ";;;" + NoMatch, ";");
      assert ";;;" + NoMatch + ";" == ";;;NO MATCH;";
    }
    AppendAssoc(head + version, ";", NoVersion);
    AppendAssoc(head + version, ";" + NoVersion, ";\n");
    assert ";" + NoVersion + ";\n" == ";NO VERSION MATCH;\n";
  }

  /** A record, loaded back from the cache file, gives the package the
      component URL found (or `NO MATCH`), and the package/version the
      version URL found (or `NO VERSION MATCH`). */
  lemma RecordLoadsBack(compstring: string, version: string, best: HitMatch)
    requires ';' !in compstring && ';' !in version
    requires ';' !in best.compName && ';' !in best.sourceUrl && ';' !in best.compUrl && ';' !in best.versionUrl
    ensures HasFields(Record(compstring, version, best))
    ensures LookupIndex([Record(compstring, version, best)])
         == map[compstring := [if best.strength > 0 then best.compUrl else NoMatch]]
    ensures VersionIndex([Record(compstring, version, best)])
         == map[compstring + "/" + version := if best.strength > 0 then best.versionUrl else NoVersion]
  {
    RecordIsRecordLine(compstring, version, best);
    var f := RecordedFields(compstring, version, best);
    RecordLoads(f[0], f[1], f[2], f[3], f[4], f[5]);
  }

  /** A package/version whose record is a line of the input KB file, with
      any lines before and after it, is left alone, whatever the knowledge
      base answers. */
  lemma RecordedPairLeftAlone(o: Oracle, patterns: seq<string>, package: string, version: string, best: HitMatch,
                              before: seq<string>, after: seq<string>, out: seq<string>, processed: nat)
    requires AllFields(before) && AllFields(after)
    requires ';' !in package && ';' !in version
    requires ';' !in best.compName && ';' !in best.sourceUrl && ';' !in best.compUrl && ';' !in best.versionUrl
    ensures var rec := Record(package, version, best);
      && HasFields(rec)
      && AllFields(before + [rec] + after)
      && var s := Session(LookupIndex(before + [rec] + after), VersionIndex(before + [rec] + after), out, processed);
         Valid(s) && Visit(o, patterns, s, package, version).0 == s
  {
    RecordLoadsBack(package, version, best);
    var rec := Record(package, version, best);
    KeptRecordLoads(package, version, rec, before, after);
    LookupIndexNonEmpty(before + [rec] + after);
  }

  /** A line of a cache file that loads as `package` and `package/version`
      keeps both entries whatever lines surround it. */
  lemma KeptRecordLoads(package: string, version: string, rec: string, before: seq<string>, after: seq<string>)
    requires AllFields(before) && AllFields(after) && HasFields(rec)
    requires package in LookupIndex([rec]) && package + "/" + version in VersionIndex([rec])
    ensures AllFields(before + [rec] + after)
    ensures var kb := before + [rec] + after;
      package in LookupIndex(kb) && LookupIndex(kb)[package] != [] && package + "/" + version in VersionIndex(kb)
  {
    assert AllFields([rec]);
    LookupIndexAppend(before, [rec], package);
    LookupIndexAppend(before + [rec], after, package);
    VersionIndexAppend(before, [rec]);
    VersionIndexAppend(before + [rec], after);
    var kb := before + [rec] + after;
    assert Get(LookupIndex(kb), package) != [];
  }

  /** Rerunning with the output file as the input KB file: a manifest line
      whose record the first run appended, wherever that record stands in
      the file, is then left alone, whatever the knowledge base now answers. */
  lemma RerunLeavesRecordedLine(o: Oracle, o': Oracle, patterns: seq<string>, line: string,
                                before: seq<string>, after: seq<string>, out: seq<string>, processed: nat)
    requires NoEmptySegment(line)
    requires AllFields(before) && AllFields(after)
    requires ';' !in Package(line) && ';' !in Version(line)
    requires var best := Resolve(o, Package(line), Version(line), patterns);
      ';' !in best.compName && ';' !in best.sourceUrl && ';' !in best.compUrl && ';' !in best.versionUrl
    ensures var rec := Record(Package(line), Version(line), Resolve(o, Package(line), Version(line), patterns));
      && HasFields(rec)
      && AllFields(before + [rec] + after)
      && var s := Session(LookupIndex(before + [rec] + after), VersionIndex(before + [rec] + after), out, processed);
         Valid(s) && LineStep(o', patterns, s, line).0 == s
  {
    RecordedPairLeftAlone(o', patterns, Package(line), Version(line), Resolve(o, Package(line), Version(line), patterns),
                          before, after, out, processed);
  }

  /** The loop has passed the first `i` outcomes without finding a version
      URL: the probe over all of them is the probe over the rest, `i` later. */
  predicate ProbedUpTo(outcomes: seq<string>, i: nat)
    requires i <= |outcomes|
  {
    Probe(outcomes) == (i + Probe(outcomes[i..]).0, Probe(outcomes[i..]).1)
  }

  /** The loop goes on past a no-version outcome. */
  lemma ProbeGoesOn(outcomes: seq<string>, i: nat)
    requires i < |outcomes| && ProbedUpTo(outcomes, i) && outcomes[i] == NoVersion
    ensures ProbedUpTo(outcomes, i + 1)
  {
    var rest, next := outcomes[i..], outcomes[i + 1..];
    assert rest[0] == NoVersion && rest[1..] == next;
    assert Probe(rest) == (Probe(next).0 + 1, Probe(next).1);
  }

  /** The loop stops at any other outcome, the probe's result. */
  lemma ProbeStops(outcomes: seq<string>, i: nat)
    requires i < |outcomes| && ProbedUpTo(outcomes, i) && outcomes[i] != NoVersion
    ensures Probe(outcomes) == (i + 1, Some(outcomes[i]))
  {
    var rest := outcomes[i..];
    assert rest[0] == outcomes[i];
    assert Probe(rest) == (1, Some(outcomes[i]));
  }

  /** Past the last outcome without a version URL, every URL was tried. */
  lemma ProbeExhausted(outcomes: seq<string>)
    requires ProbedUpTo(outcomes, |outcomes|)
    ensures Probe(outcomes) == (|outcomes|, None)
  {
    assert outcomes[|outcomes|..] == [];
  }

  /** One turn of the URL loop: the version URL the `i`-th component URL
      yields. */
  method TryUrl(o: Oracle, urls: seq<string>, i: nat, version: string) returns (kbverurl: string)
    requires i < |urls|
    ensures kbverurl == Outcomes(o, version, urls)[i]
  {
    var srcurl;
    kbverurl, srcurl := FindCompverFromCompurl(o, urls[i], version);
    OutcomeAt(o, version, urls, i);
  }

  /** The loop over a package's cached component URLs, stopping at the
      first that yields a version URL: how many URLs were tried, and the
      version URL found, if any. */
  method FindVersionUrl(o: Oracle, urls: seq<string>, version: string) returns (tried: nat, found: Option<string>)
    ensures (tried, found) == Probe(Outcomes(o, version, urls))
  {
    ghost var outcomes := Outcomes(o, version, urls);
    tried, found := 0, None;
    while tried < |urls|
      invariant 0 <= tried <= |urls|
      invariant ProbedUpTo(outcomes, tried)
    {
      var kbverurl := TryUrl(o, urls, tried, version);
      if kbverurl != NoVersion {
        ProbeStops(outcomes, tried);
        tried, found := tried + 1, Some(kbverurl);
        return;
      }
      ProbeGoesOn(outcomes, tried);
      tried := tried + 1;
    }
    ProbeExhausted(outcomes);
  }

  /** The loop body for one manifest line, once split. */
  method LookupPackage(o: Oracle, patterns: seq<string>, lookup: map<string, seq<string>>,
                       verdict: map<string, string>, out: seq<string>, processed: nat,
                       package: string, version: string)
    returns (newVerdict: map<string, string>, newOut: seq<string>, newProcessed: nat, flow: Flow)
    requires Valid(Session(lookup, verdict, out, processed))
    ensures (Session(lookup, newVerdict, newOut, newProcessed), flow)
         == Visit(o, patterns, Session(lookup, verdict, out, processed), package, version)
  {
    if package !in lookup {
      var newkbline := FindCompFromKb(o, package, version, patterns);
      return verdict, out + [newkbline], processed + 1, Check;
    }
    var urls := lookup[package];
    if urls[0] == NoMatch {
      return verdict, out, processed, Skip;
    }
    var packverstr := package + "/" + version;
    if packverstr in verdict {
      return verdict, out, processed, Check;
    }
    var tried, found := FindVersionUrl(o, urls, version);
    ghost var s := Session(lookup, verdict, out, processed);
    assert Visit(o, patterns, s, package, version) == Probed(s, package, version, urls[0], (tried, found));
    newVerdict, newOut, newProcessed, flow := RecordProbe(lookup, verdict, out, processed, package, version, urls[0], tried, found);
  }

  /** After the URL loop: the verdict index, the amend of the output file
      for the first component URL and the count. */
  method RecordProbe(lookup: map<string, seq<string>>, verdict: map<string, string>, out: seq<string>, processed: nat,
                     package: string, version: string, compurl: string, tried: nat, found: Option<string>)
    returns (newVerdict: map<string, string>, newOut: seq<string>, newProcessed: nat, flow: Flow)
    ensures (Session(lookup, newVerdict, newOut, newProcessed), flow)
         == Probed(Session(lookup, verdict, out, processed), package, version, compurl, (tried, found))
  {
    var kbverurl := NoVersion;
    newVerdict := verdict;
    if found.Some? {
      kbverurl := found.value;
      newVerdict := verdict[package + "/" + version := kbverurl];
    }
    var raised;
    newOut, raised := UpdateKbfileEntry(out, package, version, compurl, kbverurl);
    if raised {
      return newVerdict, newOut, processed + tried, Raise;
    }
    if found.Some? {
      return newVerdict, newOut, processed + tried + 1, Check;
    }
    return newVerdict, newOut, processed + tried, Skip;
  }

  /** The set-up before the loop: the indexes of the input KB file, if one
      is given, and the output file's lines. */
  method LoadKbfile(kbfile: string, kbLines: seq<string>, output: string, append: bool, existing: seq<string>)
    returns (kblookupdict: map<string, seq<string>>, kbverdict: map<string, string>, out: seq<string>)
    requires AllFields(kbLines)
    ensures Session(kblookupdict, kbverdict, out, 0) == Start(kbfile, kbLines, output, append, existing)
  {
    kblookupdict, kbverdict, out := map[], map[], existing;
    if kbfile != "" {
      var copied;
      if append {
        kblookupdict, kbverdict, copied := ImportKbfile(kbfile, output, kbLines);
      } else {
        kblookupdict, kbverdict, copied := ImportKbfile(kbfile, "", kbLines);
      }
      out := out + copied;
    }
  }

  /** The `kblookup` command over the manifest lines, given the input KB
      file's name and lines (`kbfile` empty when none is given), the output
      file's name and its lines before the run: the output file's lines and
      the count when the run ends, and whether it completed, stopped at the
      limit or raised. */
  method KbLookup(o: Oracle, patterns: seq<string>, manifest: seq<string>, kbfile: string, kbLines: seq<string>,
                  output: string, append: bool, existing: seq<string>)
    returns (out: seq<string>, processed: nat, ending: Ending)
    requires AllFields(kbLines)
    ensures Valid(Start(kbfile, kbLines, output, append, existing))
    ensures var r := Run(o, patterns, Start(kbfile, kbLines, output, append, existing), manifest);
      out == r.0.out && processed == r.0.processed && ending == r.1
  {
    StartValid(kbfile, kbLines, output, append, existing);
    var kblookupdict, kbverdict;
    kblookupdict, kbverdict, out := LoadKbfile(kbfile, kbLines, output, append, existing);
    ghost var goal := Run(o, patterns, Start(kbfile, kbLines, output, append, existing), manifest);
    processed, ending := 0, Completed;
    var i := 0;
    while i < |manifest|
      invariant 0 <= i <= |manifest|
      invariant Valid(Session(kblookupdict, kbverdict, out, processed))
      invariant Run(o, patterns, Session(kblookupdict, kbverdict, out, processed), manifest[i..]) == goal
    {
      ghost var s := Session(kblookupdict, kbverdict, out, processed);
      assert manifest[i..][0] == manifest[i] && manifest[i..][1..] == manifest[i + 1..];
      VisitKeepsValid(o, patterns, s, Package(manifest[i]), Version(manifest[i]));
      var package, version, raised := ProcessCompfileLine(manifest[i]);
      if raised {
        ending := Raised;
        return;
      }
      var flow;
      kbverdict, out, processed, flow := LookupPackage(o, patterns, kblookupdict, kbverdict, out, processed, package, version);
      if flow == Raise {
        ending := Raised;
        return;
      }
      if flow == Check && processed > Limit {
        ending := Stopped;
        return;
      }
      i := i + 1;
    }
  }
}
