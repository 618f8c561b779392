/** `extractSummaryFromBody` of build.js: the first line of the body that is not a
    markdown heading, with its emphasis characters removed and cut to 200 characters. */
module Summary {
  import opened Text
  import opened Wrappers

  /** The characters of `/[`*_>~\-]{1,}/g`; removing every run of them is removing
      every one of them. */
  const Emphasis: set<char> := {'`', '*', '_', '>', '~', '-'}

  const MaxSummary: nat := 200

  /** `s.slice(0, n)`. */
  function Take(s: string, n: nat): (r: string)
    ensures |r| <= n && |r| <= |s|
    ensures r == s[..|r|]
    ensures |s| <= n ==> r == s
    ensures |s| > n ==> |r| == n
  {
    if |s| <= n then s else s[..n]
  }

  /** Number of `#` at the start of the line. */
  function HashRun(s: string): (n: nat)
    ensures n <= |s|
    ensures forall k :: 0 <= k < n ==> s[k] == '#'
    ensures n < |s| ==> s[n] != '#'
  {
    if |s| > 0 && s[0] == '#' then 1 + HashRun(s[1..]) else 0
  }

  /** `/^#{1,6}\s+/.test(line)`: one to six `#` followed by whitespace. A seventh
      `#` cannot be followed by the whitespace the pattern needs, nor can any
      shorter run of them. */
  predicate IsHeading(line: string) {
    var h := HashRun(line);
    1 <= h <= 6 && h < |line| && IsWs(line[h])
  }

  /** `body.split(/\r?\n/).map(l => l.trim()).filter(Boolean)`. */
  function BodyLines(body: string): seq<string> {
    NonEmpty(TrimAll(SplitLines(body)))
  }

  /** The lines the summary is chosen from are trimmed and not empty. */
  lemma BodyLinesTrimmed(body: string)
    ensures forall k :: 0 <= k < |BodyLines(body)| ==> BodyLines(body)[k] != ""
    ensures forall k :: 0 <= k < |BodyLines(body)| ==> Trim(BodyLines(body)[k]) == BodyLines(body)[k]
  {
    var trimmed := TrimAll(SplitLines(body));
    forall k | 0 <= k < |trimmed| ensures Trim(trimmed[k]) == trimmed[k] {
      TrimIdempotent(SplitLines(body)[k]);
    }
  }

  /** `line.replace(/[`*_>~\-]{1,}/g, '').slice(0, 200)`. */
  function Clean(line: string): (r: string)
    ensures |r| <= MaxSummary
    ensures forall i :: 0 <= i < |r| ==> r[i] !in Emphasis
    ensures |r| <= |RemoveChars(line, Emphasis)| && r == RemoveChars(line, Emphasis)[..|r|]
    ensures |r| == MaxSummary || r == RemoveChars(line, Emphasis)
    ensures |line| <= MaxSummary && (forall i :: 0 <= i < |line| ==> line[i] !in Emphasis) ==> r == line
  {
    Take(RemoveChars(line, Emphasis), MaxSummary)
  }

  /** The first line that is not a heading. */
  function FirstNonHeading(ls: seq<string>): (r: Option<nat>)
    ensures r.None? <==> forall k :: 0 <= k < |ls| ==> IsHeading(ls[k])
    ensures r.Some? ==> r.value < |ls| && !IsHeading(ls[r.value])
    ensures r.Some? ==> forall k :: 0 <= k < r.value ==> IsHeading(ls[k])
  {
    if |ls| == 0 then None
    else if !IsHeading(ls[0]) then Some(0)
    else match FirstNonHeading(ls[1..])
      case None => None
      case Some(k) => Some(k + 1)
  }

  /** The choice among the lines: the first one that is not a heading, else the
      first one, else nothing. */
  function SummaryOfLines(ls: seq<string>): string {
    if |ls| == 0 then ""
    else match FirstNonHeading(ls)
      case Some(k) => Clean(ls[k])
      case None => Clean(ls[0])
  }

  /** The specification of `extractSummaryFromBody`. */
  function SummaryOf(body: string): string {
    SummaryOfLines(BodyLines(body))
  }

  /** `extractSummaryFromBody(body)`. */
  method ExtractSummaryFromBody(body: string) returns (r: string)
    ensures r == SummaryOf(body)
  {
    var lines := BodyLines(body);
    r := PickSummary(lines);
  }

  /** The early return and the loop of `extractSummaryFromBody`, over its lines. */
  method PickSummary(lines: seq<string>) returns (r: string)
    ensures r == SummaryOfLines(lines)
  {
    if |lines| == 0 {
      return "";
    }
    for i := 0 to |lines|
      invariant forall k :: 0 <= k < i ==> IsHeading(lines[k])
    {
      if !IsHeading(lines[i]) {
        r := Clean(lines[i]);
        assert FirstNonHeading(lines) == Some(i);
        return;
      }
    }
    r := Clean(lines[0]);
  }

  /** A summary is at most 200 characters long and holds no emphasis character. */
  lemma SummaryBounds(body: string)
    ensures |SummaryOf(body)| <= MaxSummary
    ensures forall i :: 0 <= i < |SummaryOf(body)| ==> SummaryOf(body)[i] !in Emphasis
  {}

  /** A body whose lines are all blank has the empty summary. */
  lemma BlankBodyHasNoSummary(body: string)
    requires AllWs(body)
    ensures BodyLines(body) == []
    ensures SummaryOf(body) == ""
  {
    var pieces := Split(body, '\n');
    var lines := SplitLines(body);
    var trimmed := TrimAll(lines);
    forall k | 0 <= k < |lines| ensures trimmed[k] == "" {
      forall i | 0 <= i < |pieces[k]| ensures IsWs(pieces[k][i]) {
        JoinHasPieceChars(pieces, '\n', k, i);
      }
      assert lines[k] == DropCr(pieces[k]) || lines[k] == pieces[k];
      assert AllWs(lines[k]);
    }
    NoneNonEmpty(trimmed);
  }

  lemma NoneNonEmpty(xs: seq<string>)
    requires forall k :: 0 <= k < |xs| ==> xs[k] == ""
    ensures NonEmpty(xs) == []
  {}

  /** The summary is taken from the first line that is not a heading, every
      earlier line being a heading. */
  lemma SummaryFromFirstText(body: string, k: nat)
    requires k < |BodyLines(body)| && !IsHeading(BodyLines(body)[k])
    requires forall j :: 0 <= j < k ==> IsHeading(BodyLines(body)[j])
    ensures SummaryOf(body) == Clean(BodyLines(body)[k])
  {
    var r := FirstNonHeading(BodyLines(body));
    assert r.Some?;
    assert r.value == k;
  }

  /** When every line is a heading, the first line is used. */
  lemma SummaryOfHeadings(body: string)
    requires |BodyLines(body)| > 0
    requires forall j :: 0 <= j < |BodyLines(body)| ==> IsHeading(BodyLines(body)[j])
    ensures SummaryOf(body) == Clean(BodyLines(body)[0])
  {}

  function Hashes(n: nat): (s: string)
    ensures |s| == n && forall k :: 0 <= k < n ==> s[k] == '#'
  {
    seq(n, _ => '#')
  }

  /** A line that starts with `h` of `#` followed by another character is a heading
      exactly when `h` is at most six and that character is whitespace. */
  lemma HeadingIff(h: nat, rest: string)
    requires h >= 1 && rest != "" && rest[0] != '#'
    ensures IsHeading(Hashes(h) + rest) <==> h <= 6 && IsWs(rest[0])
  {
    var line := Hashes(h) + rest;
    assert line[h] == rest[0];
    assert HashRun(line) == h;
  }
}
