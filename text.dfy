/**
 * The handful of Python `str` operations the matching engine relies on,
 * over `string` (= `seq<char>`). Character classes are the ASCII ones:
 * `str.isdigit`, the regular-expression class `\d` and `str.isspace` are
 * modelled on ASCII (plus the Latin-1 spaces for `isspace`).
 */
module Text {

  /** `c.isspace()` for the ASCII and Latin-1 whitespace characters. */
  predicate IsSpace(c: char) {
    c == ' ' || c == '\t' || c == '\n' || c == '\r' || c == '\U{0B}' || c == '\U{0C}'
    || ('\U{1C}' <= c <= '\U{1F}') || c == '\U{85}' || c == '\U{A0}'
  }

  /** `c.isdigit()`, ASCII decimal digits. */
  predicate IsDigit(c: char) {
    '0' <= c <= '9'
  }

  /** `re.search('\d', s)` finds something. */
  predicate HasDigit(s: string) {
    exists i :: 0 <= i < |s| && IsDigit(s[i])
  }

  /** `s.isdigit()`: non-empty and every character a digit. */
  predicate IsDigits(s: string) {
    |s| > 0 && forall i :: 0 <= i < |s| ==> IsDigit(s[i])
  }

  /** `int(s)` for a string of decimal digits. */
  function DecimalValue(s: string): (n: nat)
    requires forall i :: 0 <= i < |s| ==> IsDigit(s[i])
  {
    if s == [] then 0
    else
      assert IsDigit(s[|s| - 1]);
      DecimalValue(s[..|s| - 1]) * 10 + (s[|s| - 1] as int - '0' as int)
  }

  function Abs(x: int): (r: nat)
    ensures r == x || r == -x
  {
    if x < 0 then -x else x
  }

  /** `s.rstrip()`: the longest prefix of `s` that does not end in whitespace,
      all of whose removed tail is whitespace. */
  function RStrip(s: string): (r: string)
    ensures r <= s
    ensures r == [] || !IsSpace(r[|r| - 1])
    ensures forall i :: |r| <= i < |s| ==> IsSpace(s[i])
  {
    if s != [] && IsSpace(s[|s| - 1]) then RStrip(s[..|s| - 1]) else s
  }

  /** `s.lstrip()`. */
  function LStrip(s: string): (r: string)
    ensures |r| <= |s| && r == s[|s| - |r|..]
    ensures r == [] || !IsSpace(r[0])
    ensures forall i :: 0 <= i < |s| - |r| ==> IsSpace(s[i])
  {
    if s != [] && IsSpace(s[0]) then LStrip(s[1..]) else s
  }

  /** `s.strip()`. */
  function Strip(s: string): string {
    LStrip(RStrip(s))
  }

  /** Stripping adds no character. */
  lemma StripKeepsOut(s: string, c: char)
    requires c !in s
    ensures c !in Strip(s)
  {
    var r := RStrip(s);
    assert c !in r by {
      forall i | 0 <= i < |r| ensures r[i] != c {
        assert r[i] == s[i];
      }
    }
    var l := LStrip(r);
    forall i | 0 <= i < |l| ensures l[i] != c {
      assert l[i] == r[|r| - |l| + i];
    }
  }

  /** `s.split(d)` for a one-character separator: the pieces between the
      separators, left to right, none containing the separator. */
  function Split(s: string, d: char): (r: seq<string>)
    ensures |r| >= 1
    ensures forall k :: 0 <= k < |r| ==> d !in r[k]
  {
    if s == [] then [""]
    else if s[0] == d then [""] + Split(s[1..], d)
    else
      var t := Split(s[1..], d);
      [[s[0]] + t[0]] + t[1..]
  }

  /** `sep.join(parts)`. */
  function Join(parts: seq<string>, sep: string): string {
    if |parts| == 0 then ""
    else if |parts| == 1 then parts[0]
    else parts[0] + sep + Join(parts[1..], sep)
  }

  /** Joining with the separator undoes splitting on it. */
  lemma {:induction false} JoinSplit(s: string, d: char)
    ensures Join(Split(s, d), [d]) == s
  {
    if s == [] {
    } else if s[0] == d {
      JoinSplit(s[1..], d);
      assert s == [d] + s[1..];
    } else {
      var t := Split(s[1..], d);
      JoinSplit(s[1..], d);
      JoinConsHead(s[0], t, [d]);
      assert s == [s[0]] + s[1..];
    }
  }

  lemma {:induction false} JoinConsHead(c: char, t: seq<string>, sep: string)
    requires |t| >= 1
    ensures Join([[c] + t[0]] + t[1..], sep) == [c] + Join(t, sep)
  {
    var u := [[c] + t[0]] + t[1..];
    assert u[1..] == t[1..];
    if |t| == 1 {
    } else {
      assert Join(u, sep) == u[0] + sep + Join(t[1..], sep);
    }
  }

  lemma {:induction false} JoinSnoc(parts: seq<string>, x: string, sep: string)
    requires |parts| >= 1
    ensures Join(parts + [x], sep) == Join(parts, sep) + sep + x
  {
    var u := parts + [x];
    assert u[0] == parts[0] && u[1..] == parts[1..] + [x];
    if |parts| > 1 {
      JoinSnoc(parts[1..], x, sep);
    }
  }

  lemma JoinStartsWithHead(parts: seq<string>, sep: string)
    requires |parts| >= 1
    ensures parts[0] <= Join(parts, sep)
  {
  }

  /** Splitting undoes joining with the separator, when no part contains it. */
  lemma {:induction false} SplitJoin(parts: seq<string>, d: char)
    requires |parts| >= 1
    requires forall k :: 0 <= k < |parts| ==> d !in parts[k]
    ensures Split(Join(parts, [d]), d) == parts
  {
    if |parts| == 1 {
      SplitNoSep(parts[0], d);
    } else {
      var tail := parts[1..];
      assert forall k :: 0 <= k < |tail| ==> d !in tail[k] by {
        forall k | 0 <= k < |tail| ensures d !in tail[k] { assert tail[k] == parts[k + 1]; }
      }
      SplitJoin(tail, d);
      assert Join(parts, [d]) == parts[0] + [d] + Join(tail, [d]);
      SplitAfterPiece(parts[0], Join(tail, [d]), d);
      assert [parts[0]] + tail == parts;
    }
  }

  /** A piece free of the separator, the separator, then the rest. */
  lemma SplitAfterPiece(p: string, q: string, d: char)
    requires d !in p
    ensures Split(p + [d] + q, d) == [p] + Split(q, d)
  {
    var rest := [d] + q;
    assert rest[0] == d && rest[1..] == q;
    assert Split(rest, d) == [""] + Split(q, d);
    assert p + [d] + q == p + rest;
    SplitAppend(p, rest, d);
    SplitNoSep(p, d);
    assert p + "" == p;
    assert Fuse([p], [""] + Split(q, d)) == [p + ""] + Split(q, d);
  }

  lemma {:induction false} SplitNoSep(s: string, d: char)
    requires d !in s
    ensures Split(s, d) == [s]
  {
    if s != [] {
      SplitNoSep(s[1..], d);
      assert s == [s[0]] + s[1..];
    }
  }

  /** The pieces of `p + q` when `p` is split into `sp` and `q` into `sq`:
      the last piece of `sp` fuses with the first piece of `sq`. */
  function Fuse(sp: seq<string>, sq: seq<string>): seq<string>
    requires |sp| >= 1 && |sq| >= 1
  {
    sp[..|sp| - 1] + [sp[|sp| - 1] + sq[0]] + sq[1..]
  }

  /** Splitting a concatenation keeps every piece except where the two meet. */
  lemma {:induction false} SplitAppend(p: string, q: string, d: char)
    ensures Split(p + q, d) == Fuse(Split(p, d), Split(q, d))
  {
    if p == [] {
      assert p + q == q;
      var sq := Split(q, d);
      assert "" + sq[0] == sq[0];
      assert Fuse([""], sq) == [sq[0]] + sq[1..];
    } else {
      SplitAppend(p[1..], q, d);
      assert (p + q)[1..] == p[1..] + q;
      assert (p + q)[0] == p[0];
      if p[0] == d {
        FuseSep(Split(p[1..], d), Split(q, d));
      } else {
        FuseChar(p[0], Split(p[1..], d), Split(q, d));
      }
    }
  }

  lemma FuseSep(sp: seq<string>, sq: seq<string>)
    requires |sp| >= 1 && |sq| >= 1
    ensures [""] + Fuse(sp, sq) == Fuse([""] + sp, sq)
  {
    assert ([""] + sp)[..|sp|] == [""] + sp[..|sp| - 1];
  }

  lemma FuseChar(c: char, sp: seq<string>, sq: seq<string>)
    requires |sp| >= 1 && |sq| >= 1
    ensures var t := Fuse(sp, sq); [[c] + t[0]] + t[1..] == Fuse([[c] + sp[0]] + sp[1..], sq)
  {
    var t := Fuse(sp, sq);
    var u := [[c] + sp[0]] + sp[1..];
    if |sp| == 1 {
      assert t[0] == sp[0] + sq[0];
      assert t[1..] == sq[1..];
      assert u == [[c] + sp[0]];
      AppendAssoc([c], sp[0], sq[0]);
      assert Fuse(u, sq) == [([c] + sp[0]) + sq[0]] + sq[1..];
    } else {
      assert t[0] == sp[0];
      assert t[1..] == sp[1..|sp| - 1] + [sp[|sp| - 1] + sq[0]] + sq[1..];
      assert u[..|u| - 1] == [[c] + sp[0]] + sp[1..|sp| - 1];
    }
  }

  lemma SplitLast<T>(s: seq<T>)
    requires |s| > 0
    ensures s[..|s| - 1] + [s[|s| - 1]] == s
  {
  }

  lemma ConcatSnoc<T>(a: seq<T>, b: seq<T>)
    requires |b| > 0
    ensures a + b == (a + b[..|b| - 1]) + [b[|b| - 1]]
  {
  }

  lemma AppendAssoc<T>(x: seq<T>, y: seq<T>, z: seq<T>)
    ensures (x + y) + z == x + (y + z)
  {
  }

  lemma MapUnionAssoc<K, V>(x: map<K, V>, y: map<K, V>, z: map<K, V>)
    ensures (x + y) + z == x + (y + z)
  {
  }

  /** Number of occurrences of `d` in `s`. */
  function Count(s: string, d: char): nat {
    if s == [] then 0 else (if s[0] == d then 1 else 0) + Count(s[1..], d)
  }

  lemma {:induction false} SplitCount(s: string, d: char)
    ensures |Split(s, d)| == Count(s, d) + 1
  {
    if s != [] {
      SplitCount(s[1..], d);
    }
  }

  lemma {:induction false} CountAppend(p: string, q: string, d: char)
    ensures Count(p + q, d) == Count(p, d) + Count(q, d)
  {
    if p == [] {
      assert p + q == q;
    } else {
      CountAppend(p[1..], q, d);
      assert (p + q)[1..] == p[1..] + q;
      assert (p + q)[0] == p[0];
    }
  }

  lemma {:induction false} CountAbsent(s: string, d: char)
    requires d !in s
    ensures Count(s, d) == 0
  {
    if s != [] {
      assert s[1..] == s[1..] && d !in s[1..];
      CountAbsent(s[1..], d);
    }
  }

  /** `s.replace(c, r)` for a one-character pattern `c`. */
  function ReplaceChar(s: string, c: char, r: string): (t: string)
    ensures c !in r ==> c !in t
    ensures forall x :: x in t ==> x in s || x in r
  {
    if s == [] then []
    else (if s[0] == c then r else [s[0]]) + ReplaceChar(s[1..], c, r)
  }

  /** `s.replace(pat, '')`: occurrences of `pat` removed left to right,
      without overlapping; an empty pattern leaves `s` as it is. */
  function RemoveAll(s: string, pat: string): (r: string)
    ensures |r| <= |s|
    ensures pat == [] ==> r == s
    decreases |s|
  {
    if pat == [] || |s| < |pat| then s
    else if s[..|pat|] == pat then RemoveAll(s[|pat|..], pat)
    else [s[0]] + RemoveAll(s[1..], pat)
  }

  /** `s.rfind(c)`: the last index of `c` in `s`, or -1. */
  function RFind(s: string, c: char): (r: int)
    ensures -1 <= r < |s|
    ensures r >= 0 ==> s[r] == c
    ensures forall i :: r < i < |s| ==> s[i] != c
  {
    if s == [] then -1
    else if s[|s| - 1] == c then |s| - 1
    else RFind(s[..|s| - 1], c)
  }

  /** `s.rsplit(c, 1)[0]`: everything before the last `c`, or all of `s`. */
  function RSplitHead(s: string, c: char): (r: string)
    ensures r <= s
    ensures |r| < |s| <==> c in s
  {
    var k := RFind(s, c);
    if k >= 0 then s[..k] else s
  }

  /** `s.split(c)[-1]`: everything after the last `c`, or all of `s`. */
  function LastSegment(s: string, c: char): (r: string)
    ensures c !in r
    ensures |r| <= |s| && r == s[|s| - |r|..]
  {
    s[RFind(s, c) + 1..]
  }
}
