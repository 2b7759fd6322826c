/**
 * The text of the report `main` in Duplicates.py writes when duplicates are
 * found: a header line, then for each group (in dictionary order) a line
 * naming the digest and the number of paths, followed by one tab-indented
 * line per path. The file name, its timestamp and the writing itself are not
 * part of this model; the text is a value.
 *
 * As a partner to the serialiser, a parser reads the text back and recovers
 * the groups, provided no digest holds a space or a line break and no path
 * holds a line break.
 */
module Report {
  import opened Wrappers
  import opened FileHash
  import opened Duplicates

  const Header: string := "Duplicate files found:"

  // ---------------------------------------------------------------------------
  // Decimal numerals, as `str` writes a non-negative int

  predicate IsDigit(c: char) { '0' <= c <= '9' }

  function DigitChar(d: nat): (c: char)
    requires d < 10
    ensures IsDigit(c)
  {
    ('0' as int + d) as char
  }

  /** The decimal numeral of `n`, without leading zeros. */
  function Decimal(n: nat): (s: string)
    ensures |s| >= 1 && forall i :: 0 <= i < |s| ==> IsDigit(s[i])
    ensures s[0] == '0' <==> n == 0
    ensures n == 0 ==> s == "0"
    decreases n
  {
    if n < 10 then [DigitChar(n)] else Decimal(n / 10) + [DigitChar(n % 10)]
  }

  function DigitValue(c: char): nat
    requires IsDigit(c)
  {
    c as int - '0' as int
  }

  /** The value of a numeral made of digits. */
  function DecimalValue(s: string): nat
    requires forall i :: 0 <= i < |s| ==> IsDigit(s[i])
    decreases |s|
  {
    if s == [] then 0 else 10 * DecimalValue(s[..|s| - 1]) + DigitValue(s[|s| - 1])
  }

  lemma {:induction false} DecimalRoundTrip(n: nat)
    ensures DecimalValue(Decimal(n)) == n
    decreases n
  {
    if n >= 10 {
      DecimalRoundTrip(n / 10);
      var s := Decimal(n);
      assert s[..|s| - 1] == Decimal(n / 10);
    }
  }

  // ---------------------------------------------------------------------------
  // Splitting text at a separator

  /** `s` cut before the first occurrence of `c`: the part before it, and the rest (empty, or starting with `c`). */
  function SplitAt(s: string, c: char): (r: (string, string))
    ensures r.0 + r.1 == s
    ensures c !in r.0
    ensures r.1 == [] || r.1[0] == c
    decreases |s|
  {
    if s == [] then ([], [])
    else if s[0] == c then ([], s)
    else
      var (before, rest) := SplitAt(s[1..], c);
      var head := [s[0]] + before;
      assert head + rest == s by {
        assert head + rest == [s[0]] + (before + rest);
      }
      assert c !in head by {
        forall i | 0 <= i < |head| ensures head[i] != c {
          if i > 0 {
            assert head[i] == before[i - 1];
          }
        }
      }
      (head, rest)
  }

  /** Cutting `a + b` where `a` has no `c` and `b` is empty or starts with `c` gives back `a` and `b`. */
  lemma {:induction false} SplitAtJoin(a: string, b: string, c: char)
    requires c !in a
    requires b == [] || b[0] == c
    ensures SplitAt(a + b, c) == (a, b)
    decreases |a|
  {
    if a == [] {
      assert a + b == b;
    } else {
      assert (a + b)[0] == a[0] != c;
      assert (a + b)[1..] == a[1..] + b;
      SplitAtJoin(a[1..], b, c);
      assert [a[0]] + a[1..] == a;
    }
  }

  // ---------------------------------------------------------------------------
  // Lines of the report

  /**
   * The line that opens a group: `Hash: <digest> has <count> duplicates:`.
   * It starts with `H`, so it is never taken for a path line, and it holds a
   * line break only if the digest does.
   */
  function HashLine(h: HexDigest, count: nat): (line: string)
    ensures |line| > 0 && line[0] == 'H'
    ensures '\n' !in h ==> '\n' !in line
  {
    var num := Decimal(count);
    assert '\n' !in num by {
      forall i | 0 <= i < |num| ensures num[i] != '\n' {
        assert IsDigit(num[i]);
      }
    }
    "Hash: " + (h + (" has " + (num + " duplicates:")))
  }

  function PathLines(paths: seq<Path>): (ls: seq<string>)
    ensures |ls| == |paths|
    ensures forall i :: 0 <= i < |paths| ==> ls[i] == "\t" + paths[i]
  {
    if paths == [] then [] else ["\t" + paths[0]] + PathLines(paths[1..])
  }

  /** The groups of a result in dictionary order, each with its paths. */
  function Listing(d: Groups): (l: seq<(HexDigest, seq<Path>)>)
    requires d.Valid()
    ensures |l| == |d.keys| && forall i :: 0 <= i < |l| ==> l[i].0 == d.keys[i]
    ensures forall i, j :: 0 <= i < j < |l| ==> l[i].0 != l[j].0
    ensures forall i :: 0 <= i < |l| ==> |l[i].1| >= 2
    ensures forall h :: h in d.paths ==> (h, d.paths[h]) in l
  {
    var l := seq(|d.keys|, i requires 0 <= i < |d.keys| => (d.keys[i], d.paths[d.keys[i]]));
    assert forall h :: h in d.paths ==> (h, d.paths[h]) in l by {
      forall h | h in d.paths ensures (h, d.paths[h]) in l {
        var i :| 0 <= i < |d.keys| && d.keys[i] == h;
        assert l[i] == (h, d.paths[h]);
      }
    }
    l
  }

  /** The lines written for the groups; there are none exactly when there are no groups. */
  function BodyLines(listing: seq<(HexDigest, seq<Path>)>): (ls: seq<string>)
    ensures ls == [] <==> listing == []
  {
    if listing == [] then []
    else [HashLine(listing[0].0, |listing[0].1|)] + (PathLines(listing[0].1) + BodyLines(listing[1..]))
  }

  /** The lines of the report, without their line terminators. */
  function ReportLines(d: Groups): (ls: seq<string>)
    requires d.Valid()
    ensures |ls| >= 1 && ls[0] == Header
    ensures |ls| == 1 <==> d.keys == []
  {
    [Header] + BodyLines(Listing(d))
  }

  /** Every line followed by a line break. */
  function JoinLines(ls: seq<string>): (text: string)
    ensures text == [] <==> ls == []
    ensures text != [] ==> text[|text| - 1] == '\n'
  {
    if ls == [] then [] else ls[0] + "\n" + JoinLines(ls[1..])
  }

  /**
   * The report file's text, or `None` when there is nothing to report (the
   * source then writes no file).
   */
  function ReportText(d: Groups): (r: Option<string>)
    requires d.Valid()
    ensures r.None? <==> d.keys == []
    ensures r.Some? ==> |r.value| > |Header| && r.value[..|Header| + 1] == Header + "\n"
    ensures r.Some? ==> r.value[|r.value| - 1] == '\n'
  {
    if d.keys == [] then None
    else
      var text := JoinLines(ReportLines(d));
      assert text == Header + "\n" + JoinLines(BodyLines(Listing(d)));
      assert text[..|Header| + 1] == Header + "\n";
      Some(text)
  }

  // ---------------------------------------------------------------------------
  // Reading a report back

  /** The text cut into lines at each line break; a final line break ends the last line. */
  function SplitLines(s: string): seq<string>
    decreases |s|
  {
    if s == [] then []
    else
      var (line, rest) := SplitAt(s, '\n');
      if rest == [] then [line] else [line] + SplitLines(rest[1..])
  }

  /** The digest and count named by a group's opening line. */
  function ParseHashLine(line: string): Option<(HexDigest, nat)>
  {
    if |line| < 6 || line[..6] != "Hash: " then None
    else
      var (h, rest) := SplitAt(line[6..], ' ');
      if |rest| < 5 || rest[..5] != " has " then None
      else
        var (num, tail) := SplitAt(rest[5..], ' ');
        if num == [] || tail != " duplicates:" || !(forall i :: 0 <= i < |num| ==> IsDigit(num[i])) then None
        else if num[0] == '0' && |num| > 1 then None  // a count is written without leading zeros
        else Some((h, DecimalValue(num)))
  }

  /** The leading tab-indented lines, as paths, and the lines after them. */
  function TakePaths(ls: seq<string>): (r: (seq<Path>, seq<string>))
    ensures |r.1| <= |ls|
    decreases |ls|
  {
    if ls != [] && |ls[0]| > 0 && ls[0][0] == '\t' then
      var (paths, rest) := TakePaths(ls[1..]);
      ([ls[0][1..]] + paths, rest)
    else ([], ls)
  }

  function ParseGroups(ls: seq<string>): Option<seq<(HexDigest, seq<Path>)>>
    decreases |ls|
  {
    if ls == [] then Some([])
    else
      match ParseHashLine(ls[0])
      case None => None
      case Some((h, count)) =>
        var (paths, rest) := TakePaths(ls[1..]);
        if count != |paths| then None
        else
          match ParseGroups(rest)
          case None => None
          case Some(groups) => Some([(h, paths)] + groups)
  }

  /** The groups a report's lines list, or `None` if the lines are not a report. */
  function ParseReport(ls: seq<string>): Option<seq<(HexDigest, seq<Path>)>>
  {
    if ls == [] || ls[0] != Header then None else ParseGroups(ls[1..])
  }

  // ---------------------------------------------------------------------------
  // Round trips

  lemma HashLineRoundTrip(h: HexDigest, n: nat)
    requires ' ' !in h
    ensures ParseHashLine(HashLine(h, n)) == Some((h, n))
  {
    var num, tail := Decimal(n), " duplicates:";
    var rest := " has " + (num + tail);
    var line := HashLine(h, n);
    assert line == "Hash: " + (h + rest);
    assert line[..6] == "Hash: " && line[6..] == h + rest;
    SplitAtJoin(h, rest, ' ');
    assert rest[..5] == " has " && rest[5..] == num + tail;
    SplitAtJoin(num, tail, ' ');
    DecimalRoundTrip(n);
  }

  lemma {:induction false} TakePathsRoundTrip(paths: seq<Path>, rest: seq<string>)
    requires rest == [] || |rest[0]| == 0 || rest[0][0] != '\t'
    ensures TakePaths(PathLines(paths) + rest) == (paths, rest)
    decreases |paths|
  {
    if paths == [] {
      assert PathLines(paths) + rest == rest;
    } else {
      var line, more := "\t" + paths[0], PathLines(paths[1..]);
      assert PathLines(paths) == [line] + more;
      var ls := [line] + (more + rest);
      assert PathLines(paths) + rest == ls;
      assert ls[1..] == more + rest;
      TakePathsRoundTrip(paths[1..], rest);
      assert line[1..] == paths[0];
      assert [paths[0]] + paths[1..] == paths;
    }
  }

  /** No digest of the listing contains a space. */
  predicate SpaceFreeDigests(listing: seq<(HexDigest, seq<Path>)>)
  {
    forall i :: 0 <= i < |listing| ==> ' ' !in listing[i].0
  }

  /** One step of the group parser: a hash line whose count matches the path lines after it. */
  lemma ParseGroupsCons(ls: seq<string>, g: (HexDigest, seq<Path>), rest: seq<string>, groups: seq<(HexDigest, seq<Path>)>)
    requires ls != [] && ParseHashLine(ls[0]) == Some((g.0, |g.1|))
    requires TakePaths(ls[1..]) == (g.1, rest) && ParseGroups(rest) == Some(groups)
    ensures ParseGroups(ls) == Some([g] + groups)
  {
  }

  /** The body opens with the first group's hash line, followed by its path lines and the other groups. */
  lemma BodyLinesCons(listing: seq<(HexDigest, seq<Path>)>)
    requires listing != []
    ensures BodyLines(listing)[0] == HashLine(listing[0].0, |listing[0].1|)
    ensures BodyLines(listing)[1..] == PathLines(listing[0].1) + BodyLines(listing[1..])
  {
    var rest := PathLines(listing[0].1) + BodyLines(listing[1..]);
    assert ([HashLine(listing[0].0, |listing[0].1|)] + rest)[1..] == rest;
  }

  /** The path lines after a group's hash line are read back as that group's paths, up to the next hash line. */
  lemma BodyTakePaths(listing: seq<(HexDigest, seq<Path>)>)
    requires listing != []
    ensures TakePaths(BodyLines(listing)[1..]) == (listing[0].1, BodyLines(listing[1..]))
  {
    var tail := listing[1..];
    BodyLinesCons(listing);
    if tail != [] {
      BodyLinesCons(tail);
    }
    TakePathsRoundTrip(listing[0].1, BodyLines(tail));
  }

  /** The first line of a non-empty body reads back as the first group's digest and path count. */
  lemma BodyHead(listing: seq<(HexDigest, seq<Path>)>)
    requires listing != [] && ' ' !in listing[0].0
    ensures ParseHashLine(BodyLines(listing)[0]) == Some((listing[0].0, |listing[0].1|))
  {
    BodyLinesCons(listing);
    HashLineRoundTrip(listing[0].0, |listing[0].1|);
  }

  /** One group in front of a body that reads back reads back with that group in front. */
  lemma BodyRoundTripStep(listing: seq<(HexDigest, seq<Path>)>)
    requires listing != [] && ' ' !in listing[0].0
    requires ParseGroups(BodyLines(listing[1..])) == Some(listing[1..])
    ensures ParseGroups(BodyLines(listing)) == Some(listing)
  {
    var tail := listing[1..];
    assert [listing[0]] + tail == listing;
    BodyHead(listing);
    BodyTakePaths(listing);
    ParseGroupsCons(BodyLines(listing), listing[0], BodyLines(tail), tail);
  }

  lemma {:induction false} BodyRoundTrip(listing: seq<(HexDigest, seq<Path>)>)
    requires SpaceFreeDigests(listing)
    ensures ParseGroups(BodyLines(listing)) == Some(listing)
    decreases |listing|
  {
    if listing != [] {
      var tail := listing[1..];
      assert SpaceFreeDigests(tail) by {
        forall i | 0 <= i < |tail| ensures ' ' !in tail[i].0 {
          assert tail[i] == listing[i + 1];
        }
      }
      BodyRoundTrip(tail);
      BodyRoundTripStep(listing);
    }
  }

  /** Reading the report's lines back gives every group, in order, with its paths. */
  lemma ReportLinesRoundTrip(d: Groups)
    requires d.Valid()
    requires forall i :: 0 <= i < |d.keys| ==> ' ' !in d.keys[i]
    ensures ReportLines(d)[0] == Header
    ensures ParseReport(ReportLines(d)) == Some(Listing(d))
  {
    var ls := ReportLines(d);
    assert ls[1..] == BodyLines(Listing(d));
    BodyRoundTrip(Listing(d));
  }

  lemma {:induction false} SplitLinesRoundTrip(ls: seq<string>)
    requires forall i :: 0 <= i < |ls| ==> '\n' !in ls[i]
    ensures SplitLines(JoinLines(ls)) == ls
    decreases |ls|
  {
    if ls != [] {
      var rest := JoinLines(ls[1..]);
      assert JoinLines(ls) == ls[0] + ("\n" + rest);
      SplitAtJoin(ls[0], "\n" + rest, '\n');
      assert ("\n" + rest)[1..] == rest;
      SplitLinesRoundTrip(ls[1..]);
    }
  }

  /**
   * The report text lists every group of the result, in dictionary order, each
   * with its count and its paths in order: reading it back recovers them.
   */
  lemma ReportTextRoundTrip(d: Groups)
    requires d.Valid() && d.keys != []
    requires forall i :: 0 <= i < |d.keys| ==> ' ' !in d.keys[i] && '\n' !in d.keys[i]
    requires forall h :: h in d.paths ==> forall j :: 0 <= j < |d.paths[h]| ==> '\n' !in d.paths[h][j]
    ensures ReportText(d).Some?
    ensures ParseReport(SplitLines(ReportText(d).value)) == Some(Listing(d))
  {
    ReportLinesRoundTrip(d);
    NoLineBreaks(d);
    SplitLinesRoundTrip(ReportLines(d));
  }

  lemma NoLineBreaks(d: Groups)
    requires d.Valid()
    requires forall i :: 0 <= i < |d.keys| ==> '\n' !in d.keys[i]
    requires forall h :: h in d.paths ==> forall j :: 0 <= j < |d.paths[h]| ==> '\n' !in d.paths[h][j]
    ensures forall i :: 0 <= i < |ReportLines(d)| ==> '\n' !in ReportLines(d)[i]
  {
    BodyLinesNoBreaks(Listing(d));
  }

  lemma {:induction false} BodyLinesNoBreaks(listing: seq<(HexDigest, seq<Path>)>)
    requires forall i :: 0 <= i < |listing| ==> '\n' !in listing[i].0
    requires forall i, j :: 0 <= i < |listing| && 0 <= j < |listing[i].1| ==> '\n' !in listing[i].1[j]
    ensures forall k :: 0 <= k < |BodyLines(listing)| ==> '\n' !in BodyLines(listing)[k]
    decreases |listing|
  {
    if listing != [] {
      var h, paths, tail := listing[0].0, listing[0].1, listing[1..];
      assert forall i :: 0 <= i < |tail| ==> tail[i] == listing[i + 1];
      BodyLinesNoBreaks(tail);
      BodyLinesCons(listing);
      var ls, pls, rest := BodyLines(listing), PathLines(paths), BodyLines(tail);
      forall k | 0 <= k < |ls| ensures '\n' !in ls[k] {
        if k > 0 {
          assert ls[k] == (pls + rest)[k - 1];
          if k <= |paths| {
            assert ls[k] == "\t" + paths[k - 1];
          } else {
            assert ls[k] == rest[k - 1 - |paths|];
          }
        }
      }
    }
  }
}
