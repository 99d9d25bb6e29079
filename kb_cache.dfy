/**
 * The KB lookup cache: a list of `;`-separated lines
 *
 *   local name ; KB component name ; source URL ; component URL ;
 *     [ local version ; version URL ; ]*  newline
 *
 * `UpdateKbfileEntry` (`update_kbfile_entry`) appends a version pair to the
 * lines of one package and component; `ImportKbfile` (`import_kbfile`)
 * loads the lines into a name-to-component-URLs index and a
 * name/version-to-version-URL index, and copies them for the output file.
 * Files are sequences of lines here.
 */
module KbCache {
  import opened Text

  /** The source reads fields 0 and 3 of every line: a line with fewer than
      four fields makes it raise. */
  predicate HasFields(line: string) {
    |Split(line, ';')| >= 4
  }

  /** Every line has the four fields. */
  predicate AllFields(lines: seq<string>) {
    forall i :: 0 <= i < |lines| ==> HasFields(lines[i])
  }

  /** One line of `update_kbfile_entry`: a line of `package` whose component
      URL is `compurl` gets the pair appended after its trailing whitespace
      is removed; every other line is kept as it is. */
  function AmendLine(line: string, package: string, version: string, compurl: string, kbverurl: string): string
    requires HasFields(line)
  {
    var fields := Split(line, ';');
    if fields[0] != package then line
    else if compurl != fields[3] then line
    else RStrip(line) + version + ";" + kbverurl + ";\n"
  }

  /** `update_kbfile_entry` over the output file's lines: the lines it
      writes, each one amended, and whether it raised. It raises on the
      first line without the four fields and writes nothing after it. */
  function Rewrite(lines: seq<string>, package: string, version: string, compurl: string, kbverurl: string)
    : (seq<string>, bool)
  {
    if lines == [] then ([], false)
    else if !HasFields(lines[0]) then ([], true)
    else
      var rest := Rewrite(lines[1..], package, version, compurl, kbverurl);
      ([AmendLine(lines[0], package, version, compurl, kbverurl)] + rest.0, rest.1)
  }

  /** The rewrite raises exactly when some line lacks the four fields. The
      lines written are the amended lines before the first such line (all of
      them when it does not raise), and each has the four fields. */
  lemma {:induction false} RewriteCases(lines: seq<string>, package: string, version: string, compurl: string, kbverurl: string)
    ensures var (written, raised) := Rewrite(lines, package, version, compurl, kbverurl);
      && (raised <==> !AllFields(lines))
      && (raised <==> |written| < |lines|)
      && (raised ==> |written| < |lines| && !HasFields(lines[|written|]))
      && |written| <= |lines|
      && (forall i :: 0 <= i < |written| ==>
            HasFields(lines[i]) && written[i] == AmendLine(lines[i], package, version, compurl, kbverurl))
      && AllFields(written)
  {
    RewriteRaises(lines, package, version, compurl, kbverurl);
    RewriteWritten(lines, package, version, compurl, kbverurl);
  }

  /** It raises exactly at the first line without the four fields. */
  lemma {:induction false} RewriteRaises(lines: seq<string>, package: string, version: string, compurl: string, kbverurl: string)
    ensures var (written, raised) := Rewrite(lines, package, version, compurl, kbverurl);
      && (raised <==> !AllFields(lines))
      && (raised <==> |written| < |lines|)
      && (raised ==> |written| < |lines| && !HasFields(lines[|written|]))
      && |written| <= |lines|
  {
    if lines != [] && HasFields(lines[0]) {
      var rest := lines[1..];
      RewriteRaises(rest, package, version, compurl, kbverurl);
      var wr := Rewrite(rest, package, version, compurl, kbverurl).0;
      assert |Rewrite(lines, package, version, compurl, kbverurl).0| == 1 + |wr|;
      if !AllFields(rest) {
        var j :| 0 <= j < |rest| && !HasFields(rest[j]);
        assert lines[j + 1] == rest[j];
      }
      if !AllFields(lines) {
        var j :| 0 <= j < |lines| && !HasFields(lines[j]);
        assert rest[j - 1] == lines[j];
      }
      if |wr| < |rest| {
        assert lines[1 + |wr|] == rest[|wr|];
      }
    }
  }

  /** What it has written is the amended prefix, still four fields a line. */
  lemma {:induction false} RewriteWritten(lines: seq<string>, package: string, version: string, compurl: string, kbverurl: string)
    ensures var written := Rewrite(lines, package, version, compurl, kbverurl).0;
      && |written| <= |lines|
      && (forall i :: 0 <= i < |written| ==>
            HasFields(lines[i]) && written[i] == AmendLine(lines[i], package, version, compurl, kbverurl))
      && AllFields(written)
  {
    if lines != [] && HasFields(lines[0]) {
      var rest := lines[1..];
      RewriteWritten(rest, package, version, compurl, kbverurl);
      AmendKeepsFields(lines[0], package, version, compurl, kbverurl);
      var w := Rewrite(lines, package, version, compurl, kbverurl).0;
      var wr := Rewrite(rest, package, version, compurl, kbverurl).0;
      assert w == [AmendLine(lines[0], package, version, compurl, kbverurl)] + wr;
      forall i | 0 <= i < |w|
        ensures HasFields(lines[i]) && w[i] == AmendLine(lines[i], package, version, compurl, kbverurl)
        ensures HasFields(w[i])
      {
        if i > 0 { assert w[i] == wr[i - 1] && lines[i] == rest[i - 1]; }
      }
    }
  }

  /** `update_kbfile_entry`: the lines rewritten in order, one for one,
      until a line without the four fields makes it raise. */
  method UpdateKbfileEntry(lines: seq<string>, package: string, version: string, compurl: string, kbverurl: string)
    returns (out: seq<string>, raised: bool)
    ensures (out, raised) == Rewrite(lines, package, version, compurl, kbverurl)
    ensures raised <==> !AllFields(lines)
    ensures !raised ==> |out| == |lines|
    ensures !raised ==> forall i :: 0 <= i < |lines| ==> out[i] == AmendLine(lines[i], package, version, compurl, kbverurl)
  {
    out, raised := [], false;
    var i := 0;
    assert lines[i..] == lines;
    assert out + Rewrite(lines, package, version, compurl, kbverurl).0 == Rewrite(lines, package, version, compurl, kbverurl).0;
    while i < |lines|
      invariant 0 <= i <= |lines|
      invariant Rewrite(lines, package, version, compurl, kbverurl)
             == (out + Rewrite(lines[i..], package, version, compurl, kbverurl).0,
                 Rewrite(lines[i..], package, version, compurl, kbverurl).1)
    {
      var line := lines[i];
      assert lines[i..][0] == line && lines[i..][1..] == lines[i + 1..];
      var elements := Split(line, ';');
      var compname := elements[0];
      if |elements| < 4 {
        raised := true;
        assert out + [] == out;
        break;
      }
      var thiscompurl := elements[3];
      var written;
      if compname != package {
        written := line;
      } else if compurl != thiscompurl {
        written := line;
      } else {
        written := RStrip(line) + version + ";" + kbverurl + ";\n";
      }
      AppendAssoc(out, [written], Rewrite(lines[i + 1..], package, version, compurl, kbverurl).0);
      out := out + [written];
      i := i + 1;
    }
    if !raised {
      assert lines[i..] == [] && out + [] == out;
    }
    RewriteCases(lines, package, version, compurl, kbverurl);
  }

  /** A line changes exactly when its name is `package` and its component
      URL is `compurl`. */
  lemma AmendChangesOnlyItsComponent(line: string, package: string, version: string, compurl: string, kbverurl: string)
    requires HasFields(line)
    ensures var fields := Split(line, ';');
      AmendLine(line, package, version, compurl, kbverurl) != line <==> fields[0] == package && fields[3] == compurl
  {
    var fields := Split(line, ';');
    if fields[0] == package && fields[3] == compurl {
      var r := RStrip(line);
      var amended := r + version + ";" + kbverurl + ";\n";
      var p := |r| + |version|;
      assert amended[p] == ';' && !IsSpace(amended[p]);
      if p < |line| {
        assert IsSpace(line[p]);
      }
    }
  }

  /** A line with at least three `;` has the four fields the source reads. */
  lemma FieldsFromCount(line: string)
    requires Count(line, ';') >= 3
    ensures HasFields(line)
  {
    SplitCount(line, ';');
  }

  /** An amended line still has the four fields. */
  lemma AmendKeepsFields(line: string, package: string, version: string, compurl: string, kbverurl: string)
    requires HasFields(line)
    ensures HasFields(AmendLine(line, package, version, compurl, kbverurl))
  {
    var r := RStrip(line);
    var tail := line[|r|..];
    assert line == r + tail;
    assert ';' !in tail by {
      forall i | 0 <= i < |tail| ensures tail[i] != ';' {
        assert tail[i] == line[|r| + i];
        assert IsSpace(line[|r| + i]);
      }
    }
    CountAbsent(tail, ';');
    CountAppend(r, tail, ';');
    SplitCount(line, ';');
    var amended := r + version + ";" + kbverurl + ";\n";
    CountAppend(r, version, ';');
    CountAppend(r + version, ";", ';');
    CountAppend(r + version + ";", kbverurl, ';');
    CountAppend(r + version + ";" + kbverurl, ";\n", ';');
    assert Count(";", ';') == 1;
    assert Count(";\n", ';') == 1;
    FieldsFromCount(amended);
  }

  /** A line of the cache format: the fields, then the newline as a last,
      empty field. */
  function RecordLine(fields: seq<string>): string {
    Join(fields + ["\n"], ";")
  }

  lemma RStripRecord(fields: seq<string>)
    requires |fields| >= 1
    ensures RStrip(RecordLine(fields)) == Join(fields, ";") + ";"
  {
    var s := Join(fields, ";") + ";";
    JoinSnoc(fields, "\n", ";");
    assert RecordLine(fields) == s + "\n";
    assert RStrip(s + "\n") == RStrip(s) by {
      assert (s + "\n")[..|s + "\n"| - 1] == s;
    }
  }

  /** The fields of a cache line come back out of it. */
  lemma RecordFields(fields: seq<string>)
    requires forall k :: 0 <= k < |fields| ==> ';' !in fields[k]
    ensures Split(RecordLine(fields), ';') == fields + ["\n"]
  {
    var parts := fields + ["\n"];
    forall k | 0 <= k < |parts| ensures ';' !in parts[k] {
      if k < |fields| { assert parts[k] == fields[k]; }
    }
    SplitJoin(parts, ';');
  }

  /** On a cache line of the package and component, the amend appends the
      version pair as two more fields and keeps every field there was. */
  lemma AmendAppendsPair(fields: seq<string>, version: string, kbverurl: string)
    requires |fields| >= 4
    requires forall k :: 0 <= k < |fields| ==> ';' !in fields[k]
    ensures HasFields(RecordLine(fields))
    ensures AmendLine(RecordLine(fields), fields[0], version, fields[3], kbverurl)
         == RecordLine(fields + [version, kbverurl])
  {
    RecordFields(fields);
    RStripRecord(fields);
    var s := Join(fields, ";");
    JoinSnoc(fields, version, ";");
    JoinSnoc(fields + [version], kbverurl, ";");
    JoinSnoc(fields + [version, kbverurl], "\n", ";");
    assert fields + [version] + [kbverurl] == fields + [version, kbverurl];
  }

  /** The amend is not idempotent: amending the same line twice appends the
      pair twice. */
  lemma AmendTwiceAppendsTwice(fields: seq<string>, version: string, kbverurl: string)
    requires |fields| >= 4
    requires forall k :: 0 <= k < |fields| ==> ';' !in fields[k]
    requires ';' !in version && ';' !in kbverurl
    ensures HasFields(RecordLine(fields))
    ensures var once := AmendLine(RecordLine(fields), fields[0], version, fields[3], kbverurl);
      && HasFields(once)
      && AmendLine(once, fields[0], version, fields[3], kbverurl) == RecordLine(fields + [version, kbverurl, version, kbverurl])
      && AmendLine(once, fields[0], version, fields[3], kbverurl) != once
  {
    var more := fields + [version, kbverurl];
    AmendAppendsPair(fields, version, kbverurl);
    forall k | 0 <= k < |more| ensures ';' !in more[k] {
      if k < |fields| { assert more[k] == fields[k]; }
    }
    AmendAppendsPair(more, version, kbverurl);
    assert more[0] == fields[0] && more[3] == fields[3];
    assert more + [version, kbverurl] == fields + [version, kbverurl, version, kbverurl];
    AmendChangesOnlyItsComponent(RecordLine(more), fields[0], version, fields[3], kbverurl);
    RecordFields(more);
  }

  /** The component URLs recorded for `name`, none when it has no entry. */
  function Get(index: map<string, seq<string>>, name: string): seq<string> {
    if name in index then index[name] else []
  }

  /** `kblookupdict` after loading `lines`: field 3 of each line appended to
      the list of its field 0. */
  function LookupIndex(lines: seq<string>): map<string, seq<string>>
    requires AllFields(lines)
  {
    if lines == [] then map[]
    else
      var index := LookupIndex(lines[..|lines| - 1]);
      assert HasFields(lines[|lines| - 1]);
      var fields := Split(lines[|lines| - 1], ';');
      index[fields[0] := Get(index, fields[0]) + [fields[3]]]
  }

  /** The version pairs of one line, from field `at` on, in steps of two
      while a value follows the name, entered over `index`. */
  function VersionPairs(fields: seq<string>, at: nat, index: map<string, string>): map<string, string>
    requires |fields| >= 1
    decreases |fields| - at
  {
    if at < |fields| - 1 then
      VersionPairs(fields, at + 2, index[fields[0] + "/" + fields[at] := fields[at + 1]])
    else index
  }

  /** `kbverdict` after loading `lines`. */
  function VersionIndex(lines: seq<string>): map<string, string>
    requires AllFields(lines)
  {
    if lines == [] then map[]
    else VersionPairs(Split(lines[|lines| - 1], ';'), 4, VersionIndex(lines[..|lines| - 1]))
  }

  lemma AllFieldsSnoc(lines: seq<string>, l: string)
    requires AllFields(lines) && HasFields(l)
    ensures AllFields(lines + [l])
  {
    forall i | 0 <= i < |lines + [l]| ensures HasFields((lines + [l])[i]) {
      if i < |lines| { assert (lines + [l])[i] == lines[i]; }
    }
  }

  lemma AllFieldsAppend(a: seq<string>, b: seq<string>)
    requires AllFields(a) && AllFields(b)
    ensures AllFields(a + b)
  {
    forall i | 0 <= i < |a + b| ensures HasFields((a + b)[i]) {
      if i < |a| { assert (a + b)[i] == a[i]; } else { assert (a + b)[i] == b[i - |a|]; }
    }
  }

  /** One line more at the end of the file. */
  lemma LookupIndexSnoc(lines: seq<string>, l: string)
    requires AllFields(lines) && HasFields(l)
    ensures AllFields(lines + [l])
    ensures var fields := Split(l, ';'); var index := LookupIndex(lines);
      LookupIndex(lines + [l]) == index[fields[0] := Get(index, fields[0]) + [fields[3]]]
  {
    AllFieldsSnoc(lines, l);
    assert (lines + [l])[..|lines|] == lines;
  }

  lemma VersionIndexSnoc(lines: seq<string>, l: string)
    requires AllFields(lines) && HasFields(l)
    ensures AllFields(lines + [l])
    ensures VersionIndex(lines + [l]) == VersionPairs(Split(l, ';'), 4, VersionIndex(lines))
  {
    AllFieldsSnoc(lines, l);
    assert (lines + [l])[..|lines|] == lines;
  }

  /** The URLs of `name` after the index takes one more line. */
  lemma GetAfterLine(index: map<string, seq<string>>, key: string, url: string, name: string)
    ensures Get(index[key := Get(index, key) + [url]], name)
         == Get(index, name) + (if key == name then [url] else [])
  {
    if key != name {
      assert Get(index, name) + [] == Get(index, name);
    }
  }

  lemma LookupIndexStep(a: seq<string>, b: seq<string>, l: string, name: string)
    requires AllFields(a) && AllFields(b) && HasFields(l)
    requires AllFields(a + b)
    requires Get(LookupIndex(a + b), name) == Get(LookupIndex(a), name) + Get(LookupIndex(b), name)
    ensures AllFields((a + b) + [l]) && AllFields(b + [l])
    ensures Get(LookupIndex((a + b) + [l]), name) == Get(LookupIndex(a), name) + Get(LookupIndex(b + [l]), name)
  {
    LookupIndexSnoc(a + b, l);
    LookupIndexSnoc(b, l);
    var f := Split(l, ';');
    var ga, gb := Get(LookupIndex(a), name), Get(LookupIndex(b), name);
    var e := if f[0] == name then [f[3]] else [];
    GetAfterLine(LookupIndex(a + b), f[0], f[3], name);
    GetAfterLine(LookupIndex(b), f[0], f[3], name);
    AppendAssoc(ga, gb, e);
  }

  /** Loading two files one after the other (the output file is opened for
      appending): each name's component URLs are those of the first file
      followed by those of the second, duplicates kept. */
  lemma {:induction false} LookupIndexAppend(a: seq<string>, b: seq<string>, name: string)
    requires AllFields(a)
    requires AllFields(b)
    ensures AllFields(a + b)
    ensures Get(LookupIndex(a + b), name) == Get(LookupIndex(a), name) + Get(LookupIndex(b), name)
  {
    AllFieldsAppend(a, b);
    if b == [] {
      assert a + b == a;
    } else {
      var b', l := b[..|b| - 1], b[|b| - 1];
      assert AllFields(b') by {
        forall i | 0 <= i < |b'| ensures HasFields(b'[i]) { assert b'[i] == b[i]; }
      }
      assert HasFields(l);
      LookupIndexAppend(a, b', name);
      LookupIndexStep(a, b', l, name);
      ConcatSnoc(a, b);
      SplitLast(b);
    }
  }

  /** A name has an entry exactly when some line is of that name, and each
      of its component URLs is field 3 of a line of that name. */
  lemma {:induction false} LookupIndexEntries(lines: seq<string>, name: string)
    requires AllFields(lines)
    ensures name in LookupIndex(lines) <==> exists i :: 0 <= i < |lines| && Split(lines[i], ';')[0] == name
    ensures forall u :: u in Get(LookupIndex(lines), name) ==>
      exists i :: 0 <= i < |lines| && Split(lines[i], ';')[0] == name && Split(lines[i], ';')[3] == u
  {
    if lines != [] {
      var init, l := lines[..|lines| - 1], lines[|lines| - 1];
      LookupIndexEntries(init, name);
      assert HasFields(l);
      forall i | 0 <= i < |init| ensures init[i] == lines[i] { }
      var fields := Split(l, ';');
      forall u | u in Get(LookupIndex(lines), name)
        ensures exists i :: 0 <= i < |lines| && Split(lines[i], ';')[0] == name && Split(lines[i], ';')[3] == u
      {
        if u in Get(LookupIndex(init), name) {
          var i :| 0 <= i < |init| && Split(init[i], ';')[0] == name && Split(init[i], ';')[3] == u;
          assert lines[i] == init[i];
        } else {
          assert fields[0] == name && u == fields[3];
          assert lines[|lines| - 1] == l;
        }
      }
      if fields[0] == name {
        assert Split(lines[|lines| - 1], ';')[0] == name;
      }
    }
  }

  /** Field 3 of each line whose field 0 is `name`, in file order. */
  function NameUrls(lines: seq<string>, name: string): seq<string>
    requires AllFields(lines)
  {
    if lines == [] then []
    else
      assert HasFields(lines[0]);
      assert AllFields(lines[1..]) by {
        forall i | 0 <= i < |lines| - 1 ensures HasFields(lines[1..][i]) { assert lines[1..][i] == lines[i + 1]; }
      }
      var fields := Split(lines[0], ';');
      (if fields[0] == name then [fields[3]] else []) + NameUrls(lines[1..], name)
  }

  /** The component URLs loaded for a name are field 3 of the lines of that
      name, in file order, duplicates kept. */
  lemma {:induction false} LookupIndexUrls(lines: seq<string>, name: string)
    requires AllFields(lines)
    ensures Get(LookupIndex(lines), name) == NameUrls(lines, name)
  {
    if lines != [] {
      var head, rest := [lines[0]], lines[1..];
      assert lines == head + rest;
      assert AllFields(head);
      assert AllFields(rest) by {
        forall i | 0 <= i < |rest| ensures HasFields(rest[i]) { assert rest[i] == lines[i + 1]; }
      }
      LookupIndexAppend(head, rest, name);
      LookupIndexUrls(rest, name);
      assert head[..|head| - 1] == [] && head[|head| - 1] == lines[0];
      var fields := Split(lines[0], ';');
      assert Get(map[], fields[0]) + [fields[3]] == [fields[3]];
      assert LookupIndex(head) == map[fields[0] := [fields[3]]];
    }
  }

  /** The version pairs a line carries. */
  function LinePairs(line: string): map<string, string> {
    VersionPairs(Split(line, ';'), 4, map[])
  }

  /** A name/version key is loaded exactly when some line carries it, and
      then with the value the last such line gives it. */
  lemma {:induction false} VersionIndexLastLine(lines: seq<string>, key: string)
    requires AllFields(lines)
    ensures key in VersionIndex(lines) <==> exists i :: 0 <= i < |lines| && key in LinePairs(lines[i])
    ensures key in VersionIndex(lines) ==>
      exists i :: 0 <= i < |lines| && key in LinePairs(lines[i]) && VersionIndex(lines)[key] == LinePairs(lines[i])[key]
        && forall j :: i < j < |lines| ==> key !in LinePairs(lines[j])
  {
    VersionIndexKeys(lines, key);
    if lines != [] {
      var init, last := lines[..|lines| - 1], lines[|lines| - 1];
      InitKeepsFields(lines);
      VersionIndexLastLine(init, key);
      VersionPairsOverride(Split(last, ';'), 4, VersionIndex(init));
      assert VersionIndex(lines) == VersionIndex(init) + LinePairs(last);
      if key in LinePairs(last) {
        assert VersionIndex(lines)[key] == LinePairs(lines[|lines| - 1])[key];
      } else if key in VersionIndex(init) {
        var i :| 0 <= i < |init| && key in LinePairs(init[i]) && VersionIndex(init)[key] == LinePairs(init[i])[key]
          && forall j :: i < j < |init| ==> key !in LinePairs(init[j]);
        assert lines[i] == init[i];
        assert VersionIndex(lines)[key] == LinePairs(lines[i])[key];
        forall j | i < j < |lines| ensures key !in LinePairs(lines[j]) {
          if j < |init| { assert lines[j] == init[j]; }
        }
      }
    }
  }

  /** A key is in the index exactly when some line lists it. */
  lemma {:induction false} VersionIndexKeys(lines: seq<string>, key: string)
    requires AllFields(lines)
    ensures key in VersionIndex(lines) <==> exists i :: 0 <= i < |lines| && key in LinePairs(lines[i])
  {
    if lines != [] {
      var init, last := lines[..|lines| - 1], lines[|lines| - 1];
      InitKeepsFields(lines);
      VersionIndexKeys(init, key);
      VersionPairsOverride(Split(last, ';'), 4, VersionIndex(init));
      assert VersionIndex(lines) == VersionIndex(init) + LinePairs(last);
      if key in LinePairs(last) {
        assert key in LinePairs(lines[|lines| - 1]);
      } else if key in VersionIndex(init) {
        var i :| 0 <= i < |init| && key in LinePairs(init[i]);
        assert lines[i] == init[i];
      } else {
        forall i | 0 <= i < |lines| ensures key !in LinePairs(lines[i]) {
          if i < |init| { assert lines[i] == init[i]; }
        }
      }
    }
  }

  /** Dropping the last line keeps every line four fields. */
  lemma InitKeepsFields(lines: seq<string>)
    requires AllFields(lines) && lines != []
    ensures AllFields(lines[..|lines| - 1])
  {
    var init := lines[..|lines| - 1];
    forall i | 0 <= i < |init| ensures HasFields(init[i]) { assert init[i] == lines[i]; }
  }

  /** The pairs of a line override what the index held before. */
  lemma {:induction false} VersionPairsOverride(fields: seq<string>, at: nat, index: map<string, string>)
    requires |fields| >= 1
    decreases |fields| - at
    ensures VersionPairs(fields, at, index) == index + VersionPairs(fields, at, map[])
  {
    if at < |fields| - 1 {
      var k, v := fields[0] + "/" + fields[at], fields[at + 1];
      VersionPairsOverride(fields, at + 2, index[k := v]);
      VersionPairsOverride(fields, at + 2, map[k := v]);
      var rest := VersionPairs(fields, at + 2, map[]);
      assert map[][k := v] == map[k := v];
      assert index[k := v] + rest == index + (map[k := v] + rest);
    } else {
      assert index + map[] == index;
    }
  }

  lemma VersionIndexStep(a: seq<string>, b: seq<string>, l: string)
    requires AllFields(a) && AllFields(b) && HasFields(l)
    requires AllFields(a + b)
    requires VersionIndex(a + b) == VersionIndex(a) + VersionIndex(b)
    ensures AllFields((a + b) + [l]) && AllFields(b + [l])
    ensures VersionIndex((a + b) + [l]) == VersionIndex(a) + VersionIndex(b + [l])
  {
    VersionIndexSnoc(a + b, l);
    VersionIndexSnoc(b, l);
    var fields := Split(l, ';');
    var own := VersionPairs(fields, 4, map[]);
    VersionPairsOverride(fields, 4, VersionIndex(a + b));
    VersionPairsOverride(fields, 4, VersionIndex(b));
    MapUnionAssoc(VersionIndex(a), VersionIndex(b), own);
  }

  /** Loading two files one after the other: a version entry of the second
      file overrides one of the first. */
  lemma {:induction false} VersionIndexAppend(a: seq<string>, b: seq<string>)
    requires AllFields(a)
    requires AllFields(b)
    ensures AllFields(a + b)
    ensures VersionIndex(a + b) == VersionIndex(a) + VersionIndex(b)
  {
    AllFieldsAppend(a, b);
    if b == [] {
      assert a + b == a;
      assert VersionIndex(a) + map[] == VersionIndex(a);
    } else {
      var b', l := b[..|b| - 1], b[|b| - 1];
      assert AllFields(b') by {
        forall i | 0 <= i < |b'| ensures HasFields(b'[i]) { assert b'[i] == b[i]; }
      }
      assert HasFields(l);
      VersionIndexAppend(a, b');
      VersionIndexStep(a, b', l);
      ConcatSnoc(a, b);
      SplitLast(b);
    }
  }

  /** A record line of one match loads as the component URL of its name and
      the version URL of its name and version. */
  lemma RecordLoads(name: string, comp: string, src: string, compurl: string, version: string, verurl: string)
    requires ';' !in name && ';' !in comp && ';' !in src && ';' !in compurl && ';' !in version && ';' !in verurl
    ensures HasFields(RecordLine([name, comp, src, compurl, version, verurl]))
    ensures LookupIndex([RecordLine([name, comp, src, compurl, version, verurl])]) == map[name := [compurl]]
    ensures VersionIndex([RecordLine([name, comp, src, compurl, version, verurl])]) == map[name + "/" + version := verurl]
  {
    var fields := [name, comp, src, compurl, version, verurl];
    var line := RecordLine(fields);
    RecordFields(fields);
    var f := Split(line, ';');
    assert f == [name, comp, src, compurl, version, verurl, "\n"];
    assert [line][..0] == [] && [line][0] == line;
    assert LookupIndex([line]) == map[][f[0] := Get(map[], f[0]) + [f[3]]];
    assert Get(map[], f[0]) + [f[3]] == [compurl];
    assert VersionIndex([line]) == VersionPairs(f, 4, map[]);
    assert VersionPairs(f, 4, map[]) == VersionPairs(f, 6, map[][name + "/" + version := verurl]);
  }

  /** `import_kbfile`: the two indexes, and the lines copied to `outfile`
      when there is one and it is not the file being read. */
  method ImportKbfile(kbfile: string, outfile: string, lines: seq<string>)
    returns (kblookupdict: map<string, seq<string>>, kbverdict: map<string, string>, copied: seq<string>)
    requires AllFields(lines)
    ensures kblookupdict == LookupIndex(lines)
    ensures kbverdict == VersionIndex(lines)
    ensures copied == if outfile != "" && outfile != kbfile then lines else []
  {
    kblookupdict, kbverdict, copied := map[], map[], [];
    var output := outfile != "" && outfile != kbfile;
    for i := 0 to |lines|
      invariant kblookupdict == LookupIndex(lines[..i])
      invariant kbverdict == VersionIndex(lines[..i])
      invariant copied == if output then lines[..i] else []
    {
      var line := lines[i];
      assert lines[..i + 1][..i] == lines[..i] && lines[..i + 1][i] == line;
      var elements := Split(line, ';');
      var compname := elements[0];
      var kbcompurl := elements[3];
      kblookupdict := kblookupdict[compname := Get(kblookupdict, compname) + [kbcompurl]];
      var index := 4;
      while index < |elements| - 1
        invariant VersionPairs(elements, index, kbverdict) == VersionIndex(lines[..i + 1])
        decreases |elements| - index
      {
        kbverdict := kbverdict[compname + "/" + elements[index] := elements[index + 1]];
        index := index + 2;
      }
      if output {
        copied := copied + [line];
      }
    }
    assert lines[..|lines|] == lines;
  }
}
