/**
 * The manifest-line splitter (`process_compfile_line`). A line such as
 * `zlib-1.2.11-r0` is split on `-`; the segments whose first character is a
 * digit make up the version, joined with `.`, and the others the package
 * name, joined with `-`, each segment stripped of surrounding whitespace.
 * A separator is added only once the name (or version) built so far is not
 * empty, so pieces that strip to nothing at the front leave no trace, while
 * later ones leave a doubled separator.
 */
module ManifestLine {
  import opened Text

  /** Every `-`-separated segment has a first character to look at; the
      source raises on an empty one. */
  predicate NoEmptySegment(line: string) {
    forall k :: 0 <= k < |Split(line, '-')| ==> Split(line, '-')[k] != ""
  }

  /** The segment's first character is a digit. */
  predicate DigitLed(seg: string) {
    |seg| > 0 && IsDigit(seg[0])
  }

  /** The stripped segments that start with a digit (`digitLed`) or that
      do not, in order. */
  function Pieces(segs: seq<string>, digitLed: bool): seq<string> {
    if segs == [] then []
    else Pieces(segs[..|segs| - 1], digitLed) + Piece(segs[|segs| - 1], digitLed)
  }

  /** What one segment contributes to the pieces of its kind. */
  function Piece(seg: string, digitLed: bool): seq<string> {
    if DigitLed(seg) == digitLed then [Strip(seg)] else []
  }

  /** One segment more at the end. */
  lemma PiecesSnoc(segs: seq<string>, x: string, digitLed: bool)
    ensures Pieces(segs + [x], digitLed) == Pieces(segs, digitLed) + Piece(x, digitLed)
  {
    assert (segs + [x])[..|segs|] == segs;
  }

  /** The list without its leading empty strings. */
  function SkipLeadingEmpty(pieces: seq<string>): (r: seq<string>)
    ensures r == [] || r[0] != ""
  {
    if pieces == [] || pieces[0] != "" then pieces else SkipLeadingEmpty(pieces[1..])
  }

  /** The package name of a manifest line. */
  function Package(line: string): string {
    Join(SkipLeadingEmpty(Pieces(Split(line, '-'), false)), "-")
  }

  /** The version of a manifest line. */
  function Version(line: string): string {
    Join(SkipLeadingEmpty(Pieces(Split(line, '-'), true)), ".")
  }

  lemma {:induction false} SkipLeadingEmptySnoc(pieces: seq<string>, x: string)
    ensures SkipLeadingEmpty(pieces + [x])
         == if SkipLeadingEmpty(pieces) == [] then SkipLeadingEmpty([x]) else SkipLeadingEmpty(pieces) + [x]
  {
    if pieces == [] {
      assert pieces + [x] == [x];
    } else {
      assert (pieces + [x])[0] == pieces[0];
      assert (pieces + [x])[1..] == pieces[1..] + [x];
      if pieces[0] == "" {
        SkipLeadingEmptySnoc(pieces[1..], x);
      }
    }
  }

  /** Adding one more piece the way the loop does it: the accumulated string
      is the join of the pieces so far, leading empty ones skipped. */
  lemma JoinSkipSnoc(pieces: seq<string>, x: string, sep: string)
    ensures Join(SkipLeadingEmpty(pieces + [x]), sep)
         == (if Join(SkipLeadingEmpty(pieces), sep) != "" then Join(SkipLeadingEmpty(pieces), sep) + sep else "") + x
  {
    SkipLeadingEmptySnoc(pieces, x);
    var ys := SkipLeadingEmpty(pieces);
    if ys == [] {
      assert Join(ys, sep) == "";
      if x == "" {
        assert SkipLeadingEmpty([x]) == [];
      } else {
        assert SkipLeadingEmpty([x]) == [x];
      }
      assert "" + x == x;
    } else {
      JoinSnoc(ys, x, sep);
      JoinStartsWithHead(ys, sep);
      assert Join(ys, sep) != "";
    }
  }

  /** One segment more: the loop's update of the string of its kind. */
  lemma AccumulateSegment(segs: seq<string>, k: nat, digitLed: bool, sep: string, acc: string)
    requires k < |segs|
    requires acc == Join(SkipLeadingEmpty(Pieces(segs[..k], digitLed)), sep)
    ensures Join(SkipLeadingEmpty(Pieces(segs[..k + 1], digitLed)), sep)
         == if DigitLed(segs[k]) == digitLed then (if acc != "" then acc + sep else "") + Strip(segs[k]) else acc
  {
    var prefix := segs[..k + 1];
    assert prefix[..|prefix| - 1] == segs[..k];
    assert prefix[|prefix| - 1] == segs[k];
    var before := Pieces(segs[..k], digitLed);
    if DigitLed(segs[k]) == digitLed {
      assert Pieces(prefix, digitLed) == before + [Strip(segs[k])];
      JoinSkipSnoc(before, Strip(segs[k]), sep);
    } else {
      assert Pieces(prefix, digitLed) == before + [];
      assert before + [] == before;
    }
  }

  /** A prefix of non-empty segments grows by one more non-empty segment. */
  lemma NonEmptyPrefixGrows(segs: seq<string>, k: nat)
    requires k < |segs| && "" !in segs[..k] && segs[k] != ""
    ensures "" !in segs[..k + 1]
  {
    assert segs[..k + 1] == segs[..k] + [segs[k]];
  }

  /** The splitting loop. It raises on the first empty segment, whose first
      character it reads. */
  method ProcessCompfileLine(line: string) returns (package: string, version: string, raised: bool)
    ensures raised <==> !NoEmptySegment(line)
    ensures !raised ==> package == Package(line) && version == Version(line)
  {
    version, package, raised := "", "", false;
    var splitline := Split(line, '-');
    for k := 0 to |splitline|
      invariant package == Join(SkipLeadingEmpty(Pieces(splitline[..k], false)), "-")
      invariant version == Join(SkipLeadingEmpty(Pieces(splitline[..k], true)), ".")
      invariant "" !in splitline[..k]
    {
      var segment := splitline[k];
      if segment == "" {
        assert splitline[k] == "";
        raised := true;
        return;
      }
      NonEmptyPrefixGrows(splitline, k);
      AccumulateSegment(splitline, k, false, "-", package);
      AccumulateSegment(splitline, k, true, ".", version);
      if IsDigit(segment[0]) {
        if version != "" {
          version := version + ".";
        }
        version := version + Strip(segment);
      } else {
        if package != "" {
          package := package + "-";
        }
        package := package + Strip(segment);
      }
    }
    assert splitline[..|splitline|] == splitline;
  }

  /** Pieces that are all non-empty need no skipping. */
  lemma {:induction false} PiecesNonEmpty(segs: seq<string>, digitLed: bool)
    requires forall k :: 0 <= k < |segs| ==> Strip(segs[k]) != ""
    ensures forall k :: 0 <= k < |Pieces(segs, digitLed)| ==> Pieces(segs, digitLed)[k] != ""
  {
    if segs != [] {
      PiecesNonEmpty(segs[..|segs| - 1], digitLed);
    }
  }

  /** The pieces hold no `-`, the character the line was split on. */
  lemma {:induction false} PiecesHaveNoDash(segs: seq<string>, digitLed: bool)
    requires forall k :: 0 <= k < |segs| ==> '-' !in segs[k]
    ensures forall k :: 0 <= k < |Pieces(segs, digitLed)| ==> '-' !in Pieces(segs, digitLed)[k]
  {
    if segs != [] {
      var init, last := segs[..|segs| - 1], segs[|segs| - 1];
      assert forall k :: 0 <= k < |init| ==> '-' !in init[k] by {
        forall k | 0 <= k < |init| ensures '-' !in init[k] { assert init[k] == segs[k]; }
      }
      PiecesHaveNoDash(init, digitLed);
      StripKeepsOut(last, '-');
      var before, tail := Pieces(init, digitLed), Piece(last, digitLed);
      assert Pieces(segs, digitLed) == before + tail;
      forall k | 0 <= k < |before + tail| ensures '-' !in (before + tail)[k] {
        if k < |before| {
          assert (before + tail)[k] == before[k];
        } else {
          assert (before + tail)[k] == Strip(last);
        }
      }
    }
  }

  /** For a line no segment of which is blank, the package name is the
      `-`-join of the stripped non-digit segments and the version the
      `.`-join of the stripped digit-led ones, in line order. */
  lemma CleanLine(line: string)
    requires NoEmptySegment(line)
    requires forall k :: 0 <= k < |Split(line, '-')| ==> Strip(Split(line, '-')[k]) != ""
    ensures Package(line) == Join(Pieces(Split(line, '-'), false), "-")
    ensures Version(line) == Join(Pieces(Split(line, '-'), true), ".")
  {
    PiecesNonEmpty(Split(line, '-'), false);
    PiecesNonEmpty(Split(line, '-'), true);
  }

  /** Splitting the package name on `-` again gives back its pieces: the
      name loses no segment boundary and gains none. */
  lemma PackageSplitsBack(line: string)
    requires NoEmptySegment(line)
    requires Package(line) != ""
    ensures Split(Package(line), '-') == SkipLeadingEmpty(Pieces(Split(line, '-'), false))
  {
    var ps := Pieces(Split(line, '-'), false);
    var ys := SkipLeadingEmpty(ps);
    assert Package(line) == Join(ys, "-");
    PiecesHaveNoDash(Split(line, '-'), false);
    SkipLeadingEmptyKeepsOut(ps, '-');
    assert ys != [];
    SplitJoin(ys, '-');
  }

  /** Skipping leading pieces keeps a character out of the pieces. */
  lemma {:induction false} SkipLeadingEmptyKeepsOut(pieces: seq<string>, c: char)
    requires forall k :: 0 <= k < |pieces| ==> c !in pieces[k]
    ensures forall k :: 0 <= k < |SkipLeadingEmpty(pieces)| ==> c !in SkipLeadingEmpty(pieces)[k]
  {
    if pieces != [] && pieces[0] == "" {
      assert forall k :: 0 <= k < |pieces[1..]| ==> c !in pieces[1..][k] by {
        forall k | 0 <= k < |pieces[1..]| ensures c !in pieces[1..][k] { assert pieces[1..][k] == pieces[k + 1]; }
      }
      SkipLeadingEmptyKeepsOut(pieces[1..], c);
    }
  }

  lemma {:induction false} PiecesAppend(a: seq<string>, b: seq<string>, digitLed: bool)
    ensures Pieces(a + b, digitLed) == Pieces(a, digitLed) + Pieces(b, digitLed)
    decreases |b|
  {
    if b != [] {
      var b', x := b[..|b| - 1], b[|b| - 1];
      PiecesAppend(a, b', digitLed);
      ConcatSnoc(a, b);
      PiecesSnoc(a + b', x, digitLed);
      PiecesSnoc(b', x, digitLed);
      SplitLast(b);
      AppendAssoc(Pieces(a, digitLed), Pieces(b', digitLed), Piece(x, digitLed));
    } else {
      assert a + b == a;
    }
  }

  /** Segments that are already stripped and all of one kind are all kept,
      and none of them is kept for the other kind. */
  lemma {:induction false} PiecesOfOneKind(segs: seq<string>, digitLed: bool)
    requires forall k :: 0 <= k < |segs| ==> Strip(segs[k]) == segs[k] && DigitLed(segs[k]) == digitLed
    ensures Pieces(segs, digitLed) == segs
    ensures Pieces(segs, !digitLed) == []
  {
    if segs != [] {
      var init, x := segs[..|segs| - 1], segs[|segs| - 1];
      PiecesOfOneKind(init, digitLed);
      assert Pieces(segs, digitLed) == Pieces(init, digitLed) + [Strip(x)];
      assert Pieces(segs, !digitLed) == Pieces(init, !digitLed) + [];
      SplitLast(segs);
    }
  }

  /** A line made of package segments followed by version segments splits
      back into them: the package name is the package segments joined with
      `-`, the version the version segments joined with `.`. */
  lemma ComposedLine(ps: seq<string>, vs: seq<string>)
    requires |ps| + |vs| >= 1
    requires forall k :: 0 <= k < |ps| ==> ps[k] != "" && '-' !in ps[k] && Strip(ps[k]) == ps[k] && !IsDigit(ps[k][0])
    requires forall k :: 0 <= k < |vs| ==> vs[k] != "" && '-' !in vs[k] && Strip(vs[k]) == vs[k] && IsDigit(vs[k][0])
    ensures NoEmptySegment(Join(ps + vs, "-"))
    ensures Package(Join(ps + vs, "-")) == Join(ps, "-")
    ensures Version(Join(ps + vs, "-")) == Join(vs, ".")
  {
    var segs := ps + vs;
    forall k | 0 <= k < |segs| ensures '-' !in segs[k] {
      if k < |ps| { assert segs[k] == ps[k]; } else { assert segs[k] == vs[k - |ps|]; }
    }
    SplitJoin(segs, '-');
    PiecesAppend(ps, vs, false);
    PiecesAppend(ps, vs, true);
    PiecesOfOneKind(ps, false);
    PiecesOfOneKind(vs, true);
    assert ps + [] == ps && [] + vs == vs;
  }
}
