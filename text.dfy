/** String helpers shared by the build script and the contact form: the JavaScript
    whitespace class, `trim`, `split`, `toLowerCase` on ASCII letters, and the decimal
    rendering of a counter used in template literals. Strings are sequences of
    Unicode scalar values. */
module Text {
  import opened Wrappers

  /** JavaScript's `\s` class, which is also the set `String.prototype.trim` removes:
      the WhiteSpace and LineTerminator code points of ECMAScript. */
  predicate IsWs(c: char) {
    c == '\t' || c == '\n' || c == '\U{000B}' || c == '\U{000C}' || c == '\r' || c == ' '
    || c == '\U{00A0}' || c == '\U{1680}' || ('\U{2000}' <= c <= '\U{200A}')
    || c == '\U{2028}' || c == '\U{2029}' || c == '\U{202F}' || c == '\U{205F}'
    || c == '\U{3000}' || c == '\U{FEFF}'
  }

  /** The characters a regular-expression `.` does not match without the `s` flag. */
  predicate IsLineTerminator(c: char) {
    c == '\n' || c == '\r' || c == '\U{2028}' || c == '\U{2029}'
  }

  predicate AllWs(s: string) {
    forall i :: 0 <= i < |s| ==> IsWs(s[i])
  }

  predicate StartsWith(s: string, prefix: string) {
    |prefix| <= |s| && s[..|prefix|] == prefix
  }

  predicate OccursAt(s: string, sub: string, i: nat) {
    i + |sub| <= |s| && s[i..i + |sub|] == sub
  }

  /** Where `sub` occurs, the text starts with the first character of `sub`. */
  lemma OccursAtFirst(s: string, sub: string, i: nat)
    requires OccursAt(s, sub, i) && |sub| > 0
    ensures s[i] == sub[0]
  {
    assert s[i..i + |sub|][0] == s[i];
  }

  predicate Contains(s: string, sub: string) {
    exists i: nat :: i + |sub| <= |s| && OccursAt(s, sub, i)
  }

  predicate WsBetween(s: string, i: nat, j: nat)
    requires i <= j <= |s|
  {
    forall k :: i <= k < j ==> IsWs(s[k])
  }

  /** Length of the run of whitespace that starts at index `i`. */
  function WsRun(s: string, i: nat): (n: nat)
    requires i <= |s|
    ensures i + n <= |s|
    ensures WsBetween(s, i, i + n)
    ensures i + n < |s| ==> !IsWs(s[i + n])
    decreases |s| - i
  {
    if i < |s| && IsWs(s[i]) then 1 + WsRun(s, i + 1) else 0
  }

  /** A whitespace run followed by a non-whitespace character has exactly that length. */
  lemma {:induction false} WsRunExact(s: string, i: nat, j: nat)
    requires i <= j <= |s| && WsBetween(s, i, j) && (j < |s| ==> !IsWs(s[j]))
    ensures WsRun(s, i) == j - i
    decreases j - i
  {
    if i < j { WsRunExact(s, i + 1, j); }
  }

  /** Start of the run of whitespace that ends at index `j`, not going below `lo`. */
  function WsBack(s: string, lo: nat, j: nat): (q: nat)
    requires lo <= j <= |s|
    ensures lo <= q <= j
    ensures WsBetween(s, q, j)
    ensures q > lo ==> !IsWs(s[q - 1])
    decreases j - lo
  {
    if j > lo && IsWs(s[j - 1]) then WsBack(s, lo, j - 1) else j
  }

  /** `trimStart`: the input without its leading whitespace. */
  function TrimStart(s: string): (r: string)
    ensures |r| <= |s| && r == s[|s| - |r|..]
    ensures AllWs(s[..|s| - |r|])
    ensures |r| > 0 ==> !IsWs(r[0])
  {
    var a := WsRun(s, 0);
    assert AllWs(s[..a]) by {
      forall k | 0 <= k < a ensures IsWs(s[..a][k]) { assert s[..a][k] == s[k]; }
    }
    s[a..]
  }

  /** Leading whitespace followed by anything else is exactly what `trimStart` drops. */
  lemma TrimStartOf(ws: string, x: string)
    requires AllWs(ws) && (|x| > 0 ==> !IsWs(x[0]))
    ensures TrimStart(ws + x) == x
  {
    var s := ws + x;
    forall k | 0 <= k < |ws| ensures IsWs(s[k]) { assert s[k] == ws[k]; }
    if |ws| < |s| { assert s[|ws|] == x[0]; }
    WsRunExact(s, 0, |ws|);
    assert s[|ws|..] == x;
  }

  /** What follows the whitespace of `s` is what follows it in `s + y`, unless `s`
      is nothing but whitespace. */
  lemma TrimStartAppend(s: string, y: string)
    requires |TrimStart(s)| > 0
    ensures TrimStart(s + y) == TrimStart(s) + y
  {
    var r := TrimStart(s);
    var ws := s[..|s| - |r|];
    assert s == ws + r;
    assert s + y == ws + (r + y);
    TrimStartOf(ws, r + y);
  }

  /** A common prefix carries over a concatenation; stated on its own so that proofs
      about recursive string functions need not rediscover associativity. */
  lemma PrefixCarries(p: string, x: string, y: string, xy: string)
    requires xy == x + y
    ensures p + xy == (p + x) + y
  {}

  /** Regrouping four strings, stated on its own for the same reason. */
  lemma Regroup(a: string, b: string, c: string, d: string)
    ensures (a + b + c) + d == a + (b + (c + d))
  {}

  /** The first character of a concatenation and what follows it. */
  lemma ConsAppend(a: string, b: string)
    requires |a| > 0
    ensures (a + b)[0] == a[0] && (a + b)[1..] == a[1..] + b
  {}

  /** `String.prototype.trim`: the input without its leading and trailing whitespace. */
  function Trim(s: string): (r: string)
    ensures |r| <= |s|
    ensures |r| > 0 ==> !IsWs(r[0]) && !IsWs(r[|r| - 1])
    ensures r == "" <==> AllWs(s)
  {
    var a := WsRun(s, 0);
    var b := WsBack(s, a, |s|);
    assert a < |s| ==> b > a;
    s[a..b]
  }

  /** Trimming only drops characters: every character of the result is one of the input's. */
  lemma TrimHasChars(s: string, i: nat)
    requires i < |Trim(s)|
    ensures Trim(s)[i] in s
  {
    var a := WsRun(s, 0);
    assert Trim(s) == s[a..WsBack(s, a, |s|)];
    assert Trim(s)[i] == s[a + i];
  }

  lemma TrimIdempotent(s: string)
    ensures Trim(Trim(s)) == Trim(s)
  {}

  /** A string that neither starts nor ends with whitespace is its own trim. */
  lemma TrimOfTrimmed(s: string)
    requires |s| > 0 ==> !IsWs(s[0]) && !IsWs(s[|s| - 1])
    ensures Trim(s) == s
  {}

  function LowerChar(c: char): char {
    if 'A' <= c <= 'Z' then (c as int + 32) as char else c
  }

  /** `toLowerCase` restricted to ASCII letters; other characters are kept. */
  function LowerAscii(s: string): (r: string)
    ensures |r| == |s|
    ensures forall i :: 0 <= i < |s| ==> r[i] == LowerChar(s[i])
  {
    if |s| == 0 then "" else [LowerChar(s[0])] + LowerAscii(s[1..])
  }

  /** `s.replace(/[...]/g, '')`: every character of `cs` removed. */
  function RemoveChars(s: string, cs: set<char>): (r: string)
    ensures |r| <= |s|
    ensures forall i :: 0 <= i < |r| ==> r[i] !in cs && r[i] in s
    ensures forall i :: 0 <= i < |s| && s[i] !in cs ==> s[i] in r
    ensures (forall i :: 0 <= i < |s| ==> s[i] !in cs) ==> r == s
    ensures (forall i :: 0 <= i < |s| ==> s[i] in cs) ==> r == ""
  {
    if |s| == 0 then ""
    else if s[0] in cs then RemoveChars(s[1..], cs)
    else [s[0]] + RemoveChars(s[1..], cs)
  }

  /** Removing characters works piece by piece: the result for a concatenation is
      the concatenation of the results. */
  lemma {:induction false} RemoveCharsAppend(a: string, b: string, cs: set<char>)
    ensures RemoveChars(a + b, cs) == RemoveChars(a, cs) + RemoveChars(b, cs)
  {
    if |a| > 0 {
      assert (a + b)[1..] == a[1..] + b;
      RemoveCharsAppend(a[1..], b, cs);
    } else {
      assert a + b == b;
    }
  }

  function IndexOf(s: string, c: char): (r: Option<nat>)
    ensures r.None? <==> c !in s
    ensures r.Some? ==> r.value < |s| && s[r.value] == c && c !in s[..r.value]
  {
    if |s| == 0 then None
    else if s[0] == c then Some(0)
    else match IndexOf(s[1..], c)
      case None => None
      case Some(k) => Some(k + 1)
  }

  /** A character that does not occur before index `i` is found at `i`. */
  lemma IndexOfAt(s: string, c: char, i: nat)
    requires i < |s| && s[i] == c && c !in s[..i]
    ensures IndexOf(s, c) == Some(i)
  {
    var r := IndexOf(s, c);
    assert r.Some?;
    assert r.value <= i ==> s[..r.value] == s[..i][..r.value];
  }

  /** `trim` cuts the input into leading whitespace, the result, and trailing
      whitespace. */
  lemma TrimIsSlice(s: string)
    ensures exists a: nat, b: nat :: a <= b <= |s| && Trim(s) == s[a..b] && AllWs(s[..a]) && AllWs(s[b..])
  {
    var a := WsRun(s, 0);
    var b := WsBack(s, a, |s|);
    assert AllWs(s[..a]) by {
      forall k | 0 <= k < a ensures IsWs(s[..a][k]) { assert s[..a][k] == s[k]; }
    }
    assert AllWs(s[b..]) by {
      forall k | 0 <= k < |s| - b ensures IsWs(s[b..][k]) { assert s[b..][k] == s[b + k]; }
    }
  }

  /** Conversely, a slice between leading and trailing whitespace that neither
      starts nor ends with whitespace is the trimmed text. */
  lemma TrimUnique(s: string, a: nat, b: nat)
    requires a <= b <= |s| && AllWs(s[..a]) && AllWs(s[b..])
    requires a < b ==> !IsWs(s[a]) && !IsWs(s[b - 1])
    ensures Trim(s) == s[a..b]
  {
    if a == b {
      forall k | 0 <= k < |s| ensures IsWs(s[k]) {
        if k < a { assert s[..a][k] == s[k]; } else { assert s[b..][k - b] == s[k]; }
      }
    } else {
      forall k | 0 <= k < a ensures IsWs(s[k]) { assert s[..a][k] == s[k]; }
      WsRunExact(s, 0, a);
      forall k | b <= k < |s| ensures IsWs(s[k]) { assert s[b..][k - b] == s[k]; }
      WsBackExact(s, a, |s|, b);
    }
  }

  /** A whitespace run that ends at `j` and is preceded by other text starts at `q`. */
  lemma {:induction false} WsBackExact(s: string, lo: nat, j: nat, q: nat)
    requires lo <= q <= j <= |s| && WsBetween(s, q, j) && (q > lo ==> !IsWs(s[q - 1]))
    ensures WsBack(s, lo, j) == q
    decreases j - q
  {
    if q < j {
      WsBackExact(s, lo, j - 1, q);
    }
  }

  /** Leading whitespace does not change the trimmed text. */
  lemma TrimDropWs(s: string, i: nat)
    requires i <= |s| && AllWs(s[..i])
    ensures Trim(s[i..]) == Trim(s)
  {
    var t := s[i..];
    TrimIsSlice(t);
    var a: nat, b: nat :| a <= b <= |t| && Trim(t) == t[a..b] && AllWs(t[..a]) && AllWs(t[b..]);
    if a == b {
      TrimWsIff(s, i, t);
    } else {
      TrimShift(s, i, t, a, b);
    }
  }

  /** The trimmed slice `s[lo..hi]` is `s[p..q]` when only whitespace lies
      outside `p..q` and the characters at its ends are not whitespace. */
  lemma TrimBetween(s: string, lo: nat, p: nat, q: nat, hi: nat)
    requires lo <= p <= q <= hi <= |s| && WsBetween(s, lo, p) && WsBetween(s, q, hi)
    requires p < q ==> !IsWs(s[p]) && !IsWs(s[q - 1])
    ensures Trim(s[lo..hi]) == s[p..q]
  {
    var u, a, b := s[lo..hi], p - lo, q - lo;
    AllWsSlice(s, lo, p);
    AllWsSlice(s, q, hi);
    assert u[..a] == s[lo..p] && u[b..] == s[q..hi];
    if a < b {
      assert u[a] == s[p] && u[b - 1] == s[q - 1];
    }
    TrimUnique(u, a, b);
    assert u[a..b] == s[p..q];
  }

  /** A whitespace stretch of `s`, taken out as a string of its own. */
  lemma AllWsSlice(s: string, i: nat, j: nat)
    requires i <= j <= |s| && WsBetween(s, i, j)
    ensures AllWs(s[i..j])
  {
    var w := s[i..j];
    forall k | 0 <= k < |w| ensures IsWs(w[k]) { assert w[k] == s[i + k]; }
  }

  /** Whitespace at index `a` of `s`, `n` characters of it, does not change the
      trimmed rest. */
  lemma TrimAfterWs(s: string, a: nat, n: nat)
    requires a + n <= |s| && WsBetween(s, a, a + n)
    ensures Trim(s[a + n..]) == Trim(s[a..])
  {
    var r := s[a..];
    AllWsSlice(s, a, a + n);
    assert r[..n] == s[a..a + n];
    TrimDropWs(r, n);
    assert r[n..] == s[a + n..];
  }

  /** Trimming from the end of a whitespace run gives what trimming from its start does. */
  lemma TrimAfterRun(s: string, a: nat, e: nat)
    requires a <= |s| && e == a + WsRun(s, a)
    ensures e <= |s| && Trim(s[e..]) == Trim(s[a..])
  {
    TrimAfterWs(s, a, e - a);
  }

  /** The slice that is the trimmed suffix is also the trimmed whole. */
  lemma TrimShift(s: string, i: nat, t: string, a: nat, b: nat)
    requires i <= |s| && AllWs(s[..i]) && t == s[i..]
    requires a < b <= |t| && Trim(t) == t[a..b] && AllWs(t[..a]) && AllWs(t[b..])
    ensures Trim(t) == Trim(s)
  {
    assert t[a..b] == s[i + a..i + b] by {
      forall k | 0 <= k < b - a ensures t[a..b][k] == s[i + a..i + b][k] { assert t[a + k] == s[i + a + k]; }
    }
    TrimHasEnds(t, a, b);
    var pre, post := s[..i + a], s[i + b..];
    assert AllWs(pre) by {
      forall k | 0 <= k < |pre| ensures IsWs(pre[k]) {
        if k < i { assert s[..i][k] == s[k]; } else { assert t[..a][k - i] == s[k]; }
      }
    }
    assert AllWs(post) by {
      forall k | 0 <= k < |post| ensures IsWs(post[k]) { assert t[b..][k] == s[i + b + k]; }
    }
    assert s[i + a] == t[a] && s[i + b - 1] == t[b - 1];
    TrimUnique(s, i + a, i + b);
  }

  /** The trimmed text has no whitespace at either end. */
  lemma TrimHasEnds(t: string, a: nat, b: nat)
    requires a < b <= |t| && Trim(t) == t[a..b]
    ensures !IsWs(t[a]) && !IsWs(t[b - 1])
  {
    assert Trim(t)[0] == t[a];
    assert Trim(t)[b - a - 1] == t[b - 1];
  }

  /** With leading whitespace, the text is blank exactly when the rest is. */
  lemma TrimWsIff(s: string, i: nat, t: string)
    requires i <= |s| && AllWs(s[..i]) && t == s[i..] && Trim(t) == ""
    ensures Trim(s) == ""
  {
    forall k | 0 <= k < |s| ensures IsWs(s[k]) {
      if k < i { assert s[..i][k] == s[k]; } else { assert t[k - i] == s[k]; }
    }
  }

  /** Inverse of `Split`: the pieces glued back with the separator. */
  function Join(pieces: seq<string>, sep: char): string
    requires |pieces| >= 1
  {
    if |pieces| == 1 then pieces[0] else pieces[0] + [sep] + Join(pieces[1..], sep)
  }

  /** The first piece, the separator and the rest of a join, with a text after it. */
  lemma JoinCons(pieces: seq<string>, sep: char, z: string)
    requires |pieces| > 1
    ensures Join(pieces, sep) + z == pieces[0] + ([sep] + (Join(pieces[1..], sep) + z))
  {
    Regroup(pieces[0], [sep], Join(pieces[1..], sep), z);
  }

  /** Splitting a piece without the separator, the separator and a rest. */
  lemma {:induction false} SplitCons(p: string, sep: char, x: string)
    requires sep !in p
    ensures Split(p + [sep] + x, sep) == [p] + Split(x, sep)
    decreases |p|
  {
    var s := p + [sep] + x;
    if |p| == 0 {
      assert s == [sep] + x;
    } else {
      assert s[0] == p[0];
      assert s[1..] == p[1..] + [sep] + x;
      SplitCons(p[1..], sep, x);
      assert [p[0]] + p[1..] == p;
    }
  }

  /** `split` undoes `join` for pieces that do not hold the separator. */
  lemma {:induction false} SplitJoin(pieces: seq<string>, sep: char)
    requires |pieces| >= 1 && forall k :: 0 <= k < |pieces| ==> sep !in pieces[k]
    ensures Split(Join(pieces, sep), sep) == pieces
    decreases |pieces|
  {
    if |pieces| > 1 {
      SplitJoin(pieces[1..], sep);
      SplitCons(pieces[0], sep, Join(pieces[1..], sep));
      assert [pieces[0]] + pieces[1..] == pieces;
    }
  }

  /** Every character of a piece occurs in the joined string. */
  lemma {:induction false} JoinHasPieceChars(pieces: seq<string>, sep: char, k: nat, i: nat)
    requires |pieces| >= 1 && k < |pieces| && i < |pieces[k]|
    ensures pieces[k][i] in Join(pieces, sep)
  {
    var j := Join(pieces, sep);
    if |pieces| > 1 {
      assert j == pieces[0] + [sep] + Join(pieces[1..], sep);
      if k == 0 {
        assert j[i] == pieces[0][i];
      } else {
        JoinHasPieceChars(pieces[1..], sep, k - 1, i);
        var rest := Join(pieces[1..], sep);
        var m :| 0 <= m < |rest| && rest[m] == pieces[k][i];
        assert j[|pieces[0]| + 1 + m] == rest[m];
      }
    }
  }

  /** `s.split(sep)` for a one-character separator: never empty, pieces hold no
      separator, and joining them gives back the input. */
  function Split(s: string, sep: char): (r: seq<string>)
    ensures |r| >= 1
    ensures forall k :: 0 <= k < |r| ==> sep !in r[k]
    ensures Join(r, sep) == s
    ensures sep !in s ==> r == [s]
  {
    if |s| == 0 then [""]
    else
      var rest := Split(s[1..], sep);
      if s[0] == sep then
        assert s == [sep] + s[1..];
        [""] + rest
      else
        var r := [[s[0]] + rest[0]] + rest[1..];
        assert r[1..] == rest[1..];
        assert s == [s[0]] + s[1..];
        r
  }

  function DropCr(line: string): string {
    if |line| > 0 && line[|line| - 1] == '\r' then line[..|line| - 1] else line
  }

  /** `s.split(/\r?\n/)`: split at line feeds, a carriage return just before a line
      feed belonging to the separator. */
  function SplitLines(s: string): (r: seq<string>)
    ensures |r| >= 1
    ensures forall k :: 0 <= k < |r| ==> '\n' !in r[k]
  {
    var pieces := Split(s, '\n');
    seq(|pieces|, k requires 0 <= k < |pieces| =>
      if k < |pieces| - 1 then DropCr(pieces[k]) else pieces[k])
  }

  /** `.filter(Boolean)` on strings: the empty strings dropped, order kept. */
  function NonEmpty(xs: seq<string>): (r: seq<string>)
    ensures |r| <= |xs|
    ensures forall k :: 0 <= k < |r| ==> r[k] != "" && r[k] in xs
    ensures forall x :: x in xs && x != "" ==> x in r
  {
    if |xs| == 0 then []
    else if xs[0] == "" then NonEmpty(xs[1..])
    else [xs[0]] + NonEmpty(xs[1..])
  }

  /** `Array.prototype.map(t => t.trim())`. */
  function TrimAll(xs: seq<string>): (r: seq<string>)
    ensures |r| == |xs|
    ensures forall k :: 0 <= k < |xs| ==> r[k] == Trim(xs[k])
  {
    seq(|xs|, k requires 0 <= k < |xs| => Trim(xs[k]))
  }

  function DigitChar(d: nat): char
    requires d < 10
  {
    ('0' as int + d) as char
  }

  /** Decimal rendering of a natural number, as `${i}` in a template literal. */
  function NatToString(n: nat): (r: string)
    ensures |r| >= 1
    ensures forall k :: 0 <= k < |r| ==> '0' <= r[k] <= '9'
    ensures '-' !in r
  {
    if n < 10 then [DigitChar(n)] else NatToString(n / 10) + [DigitChar(n % 10)]
  }

  /** Value of a string of decimal digits: the partner of `NatToString`. */
  function DecimalValue(s: string): nat
    requires forall k :: 0 <= k < |s| ==> '0' <= s[k] <= '9'
  {
    if |s| == 0 then 0
    else DecimalValue(s[..|s| - 1]) * 10 + (s[|s| - 1] as int - '0' as int)
  }

  lemma {:induction false} DecimalRoundTrip(n: nat)
    ensures DecimalValue(NatToString(n)) == n
  {
    if n >= 10 {
      var s := NatToString(n);
      assert s[..|s| - 1] == NatToString(n / 10);
      DecimalRoundTrip(n / 10);
    }
  }

  /** Different numbers print differently. */
  lemma NatToStringInjective(m: nat, n: nat)
    requires NatToString(m) == NatToString(n)
    ensures m == n
  {
    DecimalRoundTrip(m);
    DecimalRoundTrip(n);
  }
}
