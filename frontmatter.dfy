/** `parseFrontmatter` of build.js: a hand-written splitter for a leading
    `---` ... `---` block of `key: value` lines, with special handling of the
    `tags` key and of the category keys. It never fails: anything it cannot
    read is ignored or falls back to a comma split. */
module Frontmatter {
  import opened Wrappers
  import opened Text

  /** The `meta` object. Ordinary keys hold trimmed strings; `tags` holds a list
      and the category keys collapse into the single `category` string. */
  datatype Meta = Meta(fields: map<string, string>, tags: Option<seq<string>>, category: Option<string>)

  datatype Parsed = Parsed(meta: Meta, body: string)

  const NoMeta := Meta(map[], None, None)

  // ---------------------------------------------------------------------------
  // The block: /^---\s*([\s\S]*?)\s*---\s*/

  predicate DashesAt(s: string, j: nat) {
    j + 3 <= |s| && s[j] == '-' && s[j + 1] == '-' && s[j + 2] == '-'
  }

  /** The first `---` at or after `from`. */
  function FindDashes(s: string, from: nat): (r: Option<nat>)
    requires from <= |s|
    ensures r.Some? ==> from <= r.value && DashesAt(s, r.value)
    ensures forall j :: from <= j && (r.None? || j < r.value) ==> !DashesAt(s, j)
    decreases |s| - from
  {
    if from + 3 > |s| then None
    else if DashesAt(s, from) then Some(from)
    else FindDashes(s, from + 1)
  }

  /** Where the regular expression matched: the captured group is
      `s[inner..innerEnd]` and the whole match is `s[..end]`. */
  datatype Block = Block(inner: nat, innerEnd: nat, end: nat)

  /** The leftmost, shortest match of the block pattern. The first `\s*` takes the
      whitespace after the opening dashes; the lazy group then stops before the
      whitespace that precedes the first later `---`; the last `\s*` takes the
      whitespace after it. */
  function MatchBlock(s: string): (m: Option<Block>)
    ensures m.Some? <==> DashesAt(s, 0) && exists j :: 3 <= j && DashesAt(s, j)
    ensures m.Some? ==> 3 <= m.value.inner <= m.value.innerEnd && m.value.innerEnd + 3 <= m.value.end <= |s|
    ensures m.Some? ==> WsBetween(s, 3, m.value.inner)
    ensures m.Some? ==> m.value.inner < m.value.innerEnd ==>
      !IsWs(s[m.value.inner]) && !IsWs(s[m.value.innerEnd - 1])
    ensures m.Some? ==> forall j :: 3 <= j < m.value.innerEnd ==> !DashesAt(s, j)
    ensures m.Some? ==> m.value.end < |s| ==> !IsWs(s[m.value.end])
  {
    if !DashesAt(s, 0) then None
    else
      var p := 3 + WsRun(s, 3);
      match FindDashes(s, p)
      case None =>
        assert forall j :: 3 <= j < p ==> !DashesAt(s, j) by {
          forall j | 3 <= j < p ensures !DashesAt(s, j) { assert IsWs(s[j]); }
        }
        None
      case Some(j) =>
        assert forall k :: 3 <= k < p ==> !DashesAt(s, k) by {
          forall k | 3 <= k < p ensures !DashesAt(s, k) { assert IsWs(s[k]); }
        }
        var q := WsBack(s, p, j);
        Some(Block(p, q, j + 3 + WsRun(s, j + 3)))
  }

  // ---------------------------------------------------------------------------
  // One line: /^\s*([^\s:]+)\s*:\s*(.*)$/

  predicate IsKeyChar(c: char) {
    !IsWs(c) && c != ':'
  }

  predicate AllKeyChars(s: string) {
    forall i :: 0 <= i < |s| ==> IsKeyChar(s[i])
  }

  predicate NoLineBreak(s: string) {
    forall i :: 0 <= i < |s| ==> !IsLineTerminator(s[i])
  }

  /** The number of key characters at the start of `s`. */
  function KeyLength(s: string): (n: nat)
    ensures n <= |s|
    ensures forall i :: 0 <= i < n ==> IsKeyChar(s[i])
    ensures n < |s| ==> !IsKeyChar(s[n])
  {
    if |s| > 0 && IsKeyChar(s[0]) then 1 + KeyLength(s[1..]) else 0
  }

  /** The longest prefix of key characters, and what follows it. */
  function KeySplit(s: string): (r: (string, string))
    ensures r.0 + r.1 == s
    ensures AllKeyChars(r.0)
    ensures |r.1| > 0 ==> !IsKeyChar(r.1[0])
  {
    var n := KeyLength(s);
    assert s[..n] + s[n..] == s;
    assert forall i :: 0 <= i < n ==> s[..n][i] == s[i];
    (s[..n], s[n..])
  }

  /** The raw key (`kv[1]`) and the trimmed value (`kv[2].trim()`). */
  datatype KeyValue = KeyValue(key: string, value: string)

  /** The line pattern, read left to right: optional whitespace, then a key of
      characters that are neither whitespace nor `:` (`MatchKey`), optional
      whitespace and a colon (`MatchColon`), and a value that holds no line
      terminator once its leading whitespace is skipped, since `.` does not
      match one (`MatchValue`). The greedy runs are the only ones that can lead
      to a match: a shorter key or a shorter whitespace run would be followed by
      a character the next part of the pattern cannot start with. */
  function MatchLine(line: string): Option<KeyValue> {
    MatchKey(KeySplit(TrimStart(line)))
  }

  function MatchKey(kr: (string, string)): Option<KeyValue> {
    if kr.0 == "" then None else MatchColon(kr.0, TrimStart(kr.1))
  }

  function MatchColon(key: string, u: string): Option<KeyValue> {
    if u == "" || u[0] != ':' then None else MatchValue(key, u[1..])
  }

  function MatchValue(key: string, v: string): Option<KeyValue> {
    if !NoLineBreak(TrimStart(v)) then None else Some(KeyValue(key, Trim(v)))
  }

  /** A run of key characters followed by anything else is what `KeySplit` takes. */
  lemma {:induction false} KeyLengthOf(key: string, x: string)
    requires AllKeyChars(key) && (|x| > 0 ==> !IsKeyChar(x[0]))
    ensures KeyLength(key + x) == |key|
  {
    if |key| > 0 {
      var s := key + x;
      assert s[0] == key[0];
      assert s[1..] == key[1..] + x;
      KeyLengthOf(key[1..], x);
    } else {
      assert key + x == x;
    }
  }

  lemma KeySplitOf(key: string, x: string)
    requires AllKeyChars(key) && (|x| > 0 ==> !IsKeyChar(x[0]))
    ensures KeySplit(key + x) == (key, x)
  {
    KeyLengthOf(key, x);
    assert (key + x)[..|key|] == key;
    assert (key + x)[|key|..] == x;
  }

  /** Every line of the pattern's shape matches, with its key and its value trimmed. */
  lemma MatchLineShape(pre: string, key: string, mid: string, v: string)
    requires AllWs(pre) && key != "" && AllKeyChars(key) && AllWs(mid)
    requires NoLineBreak(TrimStart(v))
    ensures MatchLine(pre + (key + (mid + (":" + v)))) == Some(KeyValue(key, Trim(v)))
  {
    var colon := ":" + v;
    var rest := mid + colon;
    calc {
      MatchLine(pre + (key + rest));
      { assert (key + rest)[0] == key[0]; TrimStartOf(pre, key + rest); }
      MatchKey(KeySplit(key + rest));
      { assert rest[0] == if mid == "" then ':' else mid[0]; KeySplitOf(key, rest); }
      MatchColon(key, TrimStart(rest));
      { assert colon[0] == ':'; TrimStartOf(mid, colon); }
      MatchColon(key, colon);
      { assert colon[1..] == v; }
      MatchValue(key, v);
    }
  }

  /** Every line that matches has the pattern's shape: the key is a non-empty run
      of key characters, and `pre`, `mid` and `v` rebuild the line around it. */
  lemma MatchLineSound(line: string) returns (pre: string, key: string, mid: string, v: string)
    requires MatchLine(line).Some?
    ensures line == pre + (key + (mid + (":" + v)))
    ensures AllWs(pre) && key != "" && AllKeyChars(key) && AllWs(mid) && NoLineBreak(TrimStart(v))
    ensures MatchLine(line) == Some(KeyValue(key, Trim(v)))
  {
    var t := TrimStart(line);
    var rest: string;
    key, rest := KeySplit(t).0, KeySplit(t).1;
    var u := TrimStart(rest);
    MatchLineSteps(line);
    pre, mid, v := line[..|line| - |t|], rest[..|rest| - |u|], u[1..];
    Rebuild(line, pre, t, key, rest, mid, u, v);
  }

  /** The three stages a matching line goes through. */
  lemma MatchLineSteps(line: string)
    requires MatchLine(line).Some?
    ensures var kr := KeySplit(TrimStart(line)); var u := TrimStart(kr.1);
      kr.0 != "" && u != "" && u[0] == ':' && MatchLine(line) == MatchValue(kr.0, u[1..])
  {}

  /** Gluing the pieces of a matching line back together. */
  lemma Rebuild(line: string, pre: string, t: string, key: string, rest: string, mid: string, u: string, v: string)
    requires |t| <= |line| && t == line[|line| - |t|..] && pre == line[..|line| - |t|]
    requires t == key + rest
    requires |u| <= |rest| && u == rest[|rest| - |u|..] && mid == rest[..|rest| - |u|]
    requires u != "" && u[0] == ':' && v == u[1..]
    ensures line == pre + (key + (mid + (":" + v)))
  {
    assert line == pre + t;
    assert rest == mid + u;
    assert u == ":" + v;
  }

  predicate IsCombiningMark(c: char) {
    '\U{0300}' <= c <= '\U{036F}'
  }

  /** `.replace(/[\u0300-\u036f]/g, '')`. */
  function StripMarks(s: string): (r: string)
    ensures |r| <= |s|
    ensures forall i :: 0 <= i < |r| ==> !IsCombiningMark(r[i]) && r[i] in s
    ensures forall i :: 0 <= i < |s| && !IsCombiningMark(s[i]) ==> s[i] in r
    ensures (forall i :: 0 <= i < |s| ==> !IsCombiningMark(s[i])) ==> r == s
    ensures (forall i :: 0 <= i < |s| ==> IsCombiningMark(s[i])) ==> r == ""
  {
    if |s| == 0 then ""
    else if IsCombiningMark(s[0]) then StripMarks(s[1..])
    else [s[0]] + StripMarks(s[1..])
  }

  /** The removal works character by character, so it distributes over concatenation. */
  lemma {:induction false} StripMarksAppend(a: string, b: string)
    ensures StripMarks(a + b) == StripMarks(a) + StripMarks(b)
  {
    if |a| > 0 {
      assert (a + b)[0] == a[0] && (a + b)[1..] == a[1..] + b;
      StripMarksAppend(a[1..], b);
    } else {
      assert a + b == b;
    }
  }

  /** `rawKey.toLowerCase().normalize('NFD').replace(/[\u0300-\u036f]/g, '')`, with
      the lower-casing on ASCII letters and the decomposition left out. */
  function NormalizeKey(raw: string): string {
    StripMarks(LowerAscii(raw))
  }

  predicate IsQuote(c: char) {
    c == '"' || c == '\''
  }

  const Quotes: set<char> := {'"', '\''}

  /** One layer of matching wrapping quotes removed; a lone quote becomes empty. */
  function StripQuotes(v: string): (r: string)
    ensures |v| >= 2 && IsQuote(v[0]) && v[|v| - 1] == v[0] ==> v == [v[0]] + r + [v[0]]
    ensures |v| == 1 && IsQuote(v[0]) ==> r == ""
    ensures !(|v| > 0 && IsQuote(v[0]) && v[|v| - 1] == v[0]) ==> r == v
  {
    if |v| > 0 && IsQuote(v[0]) && v[|v| - 1] == v[0] then
      if |v| == 1 then "" else v[1..|v| - 1]
    else v
  }

  // ---------------------------------------------------------------------------
  // The bracket list: value.replace(/(['"])?([a-zA-Z0-9_\-\s]+)(['"])?/g, ...)

  predicate IsListChar(c: char) {
    ('a' <= c <= 'z') || ('A' <= c <= 'Z') || ('0' <= c <= '9') || c == '_' || c == '-' || IsWs(c)
  }

  function ListRun(s: string, i: nat): (n: nat)
    requires i <= |s|
    ensures i + n <= |s|
    ensures forall k :: i <= k < i + n ==> IsListChar(s[k])
    ensures i + n < |s| ==> !IsListChar(s[i + n])
    decreases |s| - i
  {
    if i < |s| && IsListChar(s[i]) then 1 + ListRun(s, i + 1) else 0
  }

  function Quoted(w: string): string {
    "\"" + w + "\""
  }

  /** The global replacement: each run of word characters, hyphens and whitespace,
      with an optional quote on either side, becomes that run trimmed inside
      double quotes; everything else is copied. The callback's test
      `/^\s*[\[,\]]\s*$/` never holds of a match, which holds no bracket or comma,
      so it is not modelled. */
  function NormalizeBracket(s: string): string
    decreases |s|
  {
    if |s| == 0 then ""
    else
      var q1 := if IsQuote(s[0]) && |s| > 1 && IsListChar(s[1]) then 1 else 0;
      var n := ListRun(s, q1);
      if n == 0 then [s[0]] + NormalizeBracket(s[1..])
      else
        var stop := q1 + n;
        var end := if stop < |s| && IsQuote(s[stop]) then stop + 1 else stop;
        Quoted(Trim(s[q1..stop])) + NormalizeBracket(s[end..])
  }

  /** The run of list characters at the start of `w + rest`, when `w` is one and
      `rest` does not continue it. */
  lemma {:induction false} ListRunOf(w: string, rest: string, i: nat)
    requires i <= |w| && forall k :: i <= k < |w| ==> IsListChar(w[k])
    requires rest == "" || !IsListChar(rest[0])
    ensures ListRun(w + rest, i) == |w| - i
    decreases |w| - i
  {
    var s := w + rest;
    if i < |w| {
      assert s[i] == w[i];
      ListRunOf(w, rest, i + 1);
    } else if rest != "" {
      assert s[i] == rest[0];
    }
  }

  /** A bare word is quoted, trimmed. */
  lemma NormalizeWord(w: string, rest: string)
    requires w != "" && forall k :: 0 <= k < |w| ==> IsListChar(w[k])
    requires rest == "" || (!IsListChar(rest[0]) && !IsQuote(rest[0]))
    ensures NormalizeBracket(w + rest) == Quoted(Trim(w)) + NormalizeBracket(rest)
  {
    var s := w + rest;
    assert s[0] == w[0];
    assert !IsQuote(s[0]);
    ListRunOf(w, rest, 0);
    assert |w| < |s| ==> s[|w|] == rest[0] && !IsQuote(s[|w|]);
    assert s[0..|w|] == w;
    assert s[|w|..] == rest;
    assert NormalizeBracket(s) == Quoted(Trim(s[0..|w|])) + NormalizeBracket(s[|w|..]);
  }

  /** A word between two quotes, of either kind and not necessarily the same, is
      quoted with double quotes, trimmed. */
  lemma NormalizeQuotedWord(q: char, w: string, c: char, rest: string)
    requires IsQuote(q) && IsQuote(c)
    requires w != "" && forall k :: 0 <= k < |w| ==> IsListChar(w[k])
    ensures NormalizeBracket([q] + w + [c] + rest) == Quoted(Trim(w)) + NormalizeBracket(rest)
  {
    var t := [q] + w;
    var u := [c] + rest;
    var s := t + u;
    assert [q] + w + [c] + rest == s;
    forall k | 1 <= k < |t| ensures IsListChar(t[k]) {
      assert t[k] == w[k - 1];
    }
    assert !IsListChar(u[0]);
    ListRunOf(t, u, 1);
    var stop := 1 + |w|;
    assert s[0] == q && s[1] == w[0];
    assert s[stop] == c;
    assert s[1..stop] == w;
    assert s[stop + 1..] == rest;
  }

  /** Brackets, commas and other characters outside a word are copied. */
  lemma NormalizeCopies(c: char, rest: string)
    requires !IsListChar(c) && !IsQuote(c)
    ensures NormalizeBracket([c] + rest) == [c] + NormalizeBracket(rest)
  {
    var s := [c] + rest;
    assert s[0] == c;
    assert ListRun(s, 0) == 0;
    assert s[1..] == rest;
  }

  // ---------------------------------------------------------------------------
  // JSON.parse, restricted to a flat array of strings without escapes

  predicate IsJsonWs(c: char) {
    c == ' ' || c == '\t' || c == '\n' || c == '\r'
  }

  /** A character JSON accepts unescaped inside a string. */
  predicate IsPlainChar(c: char) {
    c != '"' && c != '\\' && c >= ' '
  }

  predicate PlainString(x: string) {
    forall i :: 0 <= i < |x| ==> IsPlainChar(x[i])
  }

  /** The text without its leading JSON whitespace. */
  function SkipJsonWs(t: string): (r: string)
    ensures |r| <= |t|
    ensures |r| > 0 ==> !IsJsonWs(r[0])
  {
    if |t| > 0 && IsJsonWs(t[0]) then SkipJsonWs(t[1..]) else t
  }

  /** The rest of a string literal after its opening quote: its text and what
      follows the closing quote. */
  function StringBody(t: string): (r: Option<(string, string)>)
    ensures r.Some? ==> |r.value.1| < |t|
  {
    if |t| == 0 then None
    else if t[0] == '"' then Some(("", t[1..]))
    else if !IsPlainChar(t[0]) then None
    else match StringBody(t[1..])
      case None => None
      case Some((x, rest)) => Some(([t[0]] + x, rest))
  }

  function StringLit(t: string): (r: Option<(string, string)>)
    ensures r.Some? ==> |r.value.1| < |t|
  {
    if |t| > 0 && t[0] == '"' then StringBody(t[1..]) else None
  }

  /** The items of a non-empty array through its closing bracket, and what follows. */
  function Items(t: string): (r: Option<(seq<string>, string)>)
    ensures r.Some? ==> |r.value.1| < |t|
    decreases |t|
  {
    match StringLit(t)
    case None => None
    case Some((x, rest)) =>
      var u := SkipJsonWs(rest);
      if |u| > 0 && u[0] == ',' then
        match Items(SkipJsonWs(u[1..]))
        case None => None
        case Some((xs, after)) => Some(([x] + xs, after))
      else if |u| > 0 && u[0] == ']' then Some(([x], u[1..]))
      else None
  }

  /** `JSON.parse` where the text is an array of strings: the strings, or `None`
      where `JSON.parse` would throw or would return anything else. */
  function ParseJsonStrings(s: string): Option<seq<string>> {
    var t := SkipJsonWs(s);
    if |t| > 0 && t[0] == '[' then
      var u := SkipJsonWs(t[1..]);
      var close: Option<(seq<string>, string)> := if |u| > 0 && u[0] == ']' then Some(([], u[1..])) else Items(u);
      match close
      case None => None
      case Some((xs, after)) => if SkipJsonWs(after) == "" then Some(xs) else None
    else None
  }

  /** The compact JSON text of a non-empty list of strings, through its `]`. */
  function ItemsText(xs: seq<string>): (t: string)
    requires |xs| > 0
  {
    Quoted(xs[0]) + (if |xs| == 1 then "]" else "," + ItemsText(xs[1..]))
  }

  function ArrayText(xs: seq<string>): string {
    if |xs| == 0 then "[]" else "[" + ItemsText(xs)
  }

  lemma {:induction false} StringBodyAt(x: string, tail: string)
    requires PlainString(x)
    ensures StringBody(x + "\"" + tail) == Some((x, tail))
    decreases |x|
  {
    var t := x + "\"" + tail;
    if |x| == 0 {
      assert t == "\"" + tail;
    } else {
      assert t[0] == x[0];
      assert t[1..] == x[1..] + "\"" + tail;
      StringBodyAt(x[1..], tail);
      assert [x[0]] + x[1..] == x;
    }
  }

  lemma {:induction false} ItemsAt(xs: seq<string>, tail: string)
    requires |xs| > 0 && forall k :: 0 <= k < |xs| ==> PlainString(xs[k])
    ensures Items(ItemsText(xs) + tail) == Some((xs, tail))
    decreases |xs|
  {
    var x := xs[0];
    var after := if |xs| == 1 then "]" else "," + ItemsText(xs[1..]);
    var t := ItemsText(xs) + tail;
    assert t == "\"" + (x + "\"" + (after + tail));
    StringBodyAt(x, after + tail);
    assert StringLit(t) == Some((x, after + tail));
    var u := after + tail;
    assert SkipJsonWs(u) == u;
    if |xs| > 1 {
      var rest := ItemsText(xs[1..]) + tail;
      assert u[1..] == rest;
      assert rest[0] == '"';
      assert SkipJsonWs(rest) == rest;
      ItemsAt(xs[1..], tail);
      assert [x] + xs[1..] == xs;
    } else {
      assert u[1..] == tail;
      assert [x] == xs;
    }
  }

  /** The parser reads back exactly the array of plain strings it is given. */
  lemma ParseArrayText(xs: seq<string>)
    requires forall k :: 0 <= k < |xs| ==> PlainString(xs[k])
    ensures ParseJsonStrings(ArrayText(xs)) == Some(xs)
  {
    var s := ArrayText(xs);
    if |xs| > 0 {
      assert s[1..] == ItemsText(xs) + "";
      ItemsAt(xs, "");
    }
  }

  // ---------------------------------------------------------------------------
  // tags and category

  /** `t.replace(/['"]/g, '').trim()` */
  function CleanPiece(t: string): string {
    Trim(RemoveChars(t, Quotes))
  }

  /** `value.split(',').map(t => t.replace(/['"]/g, '').trim()).filter(Boolean)` */
  function CommaList(v: string): seq<string> {
    var ps := Split(v, ',');
    NonEmpty(seq(|ps|, k requires 0 <= k < |ps| => CleanPiece(ps[k])))
  }

  /** Each tag of a comma list is non-empty, trimmed, and holds no quote and no comma. */
  lemma CommaListClean(v: string)
    ensures forall k :: 0 <= k < |CommaList(v)| ==> CommaList(v)[k] != "" && Trim(CommaList(v)[k]) == CommaList(v)[k]
    ensures forall k, i :: 0 <= k < |CommaList(v)| && 0 <= i < |CommaList(v)[k]| ==>
      !IsQuote(CommaList(v)[k][i]) && CommaList(v)[k][i] != ','
  {
    var ps := Split(v, ',');
    var cleaned := seq(|ps|, k requires 0 <= k < |ps| => CleanPiece(ps[k]));
    forall k | 0 <= k < |ps| ensures Trim(cleaned[k]) == cleaned[k] {
      TrimIdempotent(RemoveChars(ps[k], Quotes));
    }
    forall k, i | 0 <= k < |ps| && 0 <= i < |cleaned[k]|
      ensures !IsQuote(cleaned[k][i]) && cleaned[k][i] != ','
    {
      TrimHasChars(RemoveChars(ps[k], Quotes), i);
    }
    assert CommaList(v) == NonEmpty(cleaned);
  }

  const CatchStripped: set<char> := {'[', ']', '\''}

  /** The catch path: `value.replace(/[\[\]']/g, '').split(',').map(t => t.trim()).filter(Boolean)` */
  function FallbackList(v: string): seq<string> {
    NonEmpty(TrimAll(Split(RemoveChars(v, CatchStripped), ',')))
  }

  /** Each tag of the fallback list is non-empty, trimmed, and holds no bracket, no
      single quote and no comma. */
  lemma FallbackListClean(v: string)
    ensures forall k :: 0 <= k < |FallbackList(v)| ==> FallbackList(v)[k] != "" && Trim(FallbackList(v)[k]) == FallbackList(v)[k]
    ensures forall k, i :: 0 <= k < |FallbackList(v)| && 0 <= i < |FallbackList(v)[k]| ==>
      FallbackList(v)[k][i] !in CatchStripped && FallbackList(v)[k][i] != ','
  {
    var ps := Split(RemoveChars(v, CatchStripped), ',');
    var trimmed := TrimAll(ps);
    forall k | 0 <= k < |ps| ensures Trim(trimmed[k]) == trimmed[k] {
      TrimIdempotent(ps[k]);
    }
    forall k, i | 0 <= k < |ps| && 0 <= i < |trimmed[k]|
      ensures trimmed[k][i] !in CatchStripped && trimmed[k][i] != ','
    {
      var c := trimmed[k][i];
      assert c in ps[k];
      var m :| 0 <= m < |ps[k]| && ps[k][m] == c;
      JoinHasPieceChars(ps, ',', k, m);
    }
    assert FallbackList(v) == NonEmpty(trimmed);
  }

  /** The value stored under `tags`: a JSON reading of a bracket list, or a comma
      split that keeps the non-empty trimmed pieces with every quote removed; when
      the JSON reading fails, a comma split with the brackets and single quotes
      removed (double quotes are kept on that path). */
  function TagsValue(value: string): seq<string> {
    var v := Trim(value);
    if StartsWith(v, "[") then
      match ParseJsonStrings(NormalizeBracket(v))
      case Some(xs) => xs
      case None => FallbackList(v)
    else CommaList(v)
  }

  function FirstOr(xs: seq<string>, default: string): string {
    if |xs| > 0 then xs[0] else default
  }

  /** The value stored under `category` for any of the category keys: one string,
      the first element of a bracket list, else the first non-empty piece of a
      comma split, else the whole value. */
  function CategoryValue(v: string): string {
    if StartsWith(v, "[") then
      match ParseJsonStrings(NormalizeBracket(v))
      case Some(xs) => if |xs| > 0 then xs[0] else ""
      case None => FirstOr(FallbackList(v), v)
    else if ',' in v then FirstOr(CommaList(v), v)
    else CleanPiece(v)
  }

  /** Off the JSON path (no bracket, or a bracket list JSON cannot read), every tag
      is non-empty, trimmed, and holds no single quote and no comma. */
  lemma TagsValueClean(value: string)
    requires !StartsWith(Trim(value), "[") || ParseJsonStrings(NormalizeBracket(Trim(value))).None?
    ensures forall k :: 0 <= k < |TagsValue(value)| ==>
      TagsValue(value)[k] != "" && Trim(TagsValue(value)[k]) == TagsValue(value)[k]
    ensures forall k, i :: 0 <= k < |TagsValue(value)| && 0 <= i < |TagsValue(value)[k]| ==>
      TagsValue(value)[k][i] != '\'' && TagsValue(value)[k][i] != ','
  {
    var v := Trim(value);
    if StartsWith(v, "[") {
      FallbackListClean(v);
    } else {
      CommaListClean(v);
    }
  }

  /** A category value with a comma and no bracket is never empty: the first
      non-empty cleaned piece, or the whole value when every piece is empty. */
  lemma CategoryCommaRule(v: string)
    requires !StartsWith(v, "[") && ',' in v
    ensures CategoryValue(v) != ""
    ensures |CommaList(v)| > 0 ==> CategoryValue(v) == CommaList(v)[0] && Trim(CategoryValue(v)) == CategoryValue(v)
    ensures |CommaList(v)| == 0 ==> CategoryValue(v) == v
    ensures forall i :: 0 <= i < |CategoryValue(v)| && |CommaList(v)| > 0 ==> !IsQuote(CategoryValue(v)[i])
  {
    CommaListClean(v);
  }

  /** One item of a bracket list that the normaliser turns into a JSON string: a
      word of list characters, bare or between two quotes. */
  predicate ListItem(piece: string, w: string) {
    w != "" && (forall k :: 0 <= k < |w| ==> IsListChar(w[k])) &&
    (piece == w ||
     (|piece| == |w| + 2 && IsQuote(piece[0]) && IsQuote(piece[|piece| - 1]) && piece[1..|piece| - 1] == w))
  }

  /** An item followed by a comma or a bracket becomes its word, trimmed and quoted. */
  lemma NormalizeItem(piece: string, w: string, rest: string)
    requires ListItem(piece, w)
    requires |rest| > 0 && !IsListChar(rest[0]) && !IsQuote(rest[0])
    ensures NormalizeBracket(piece + rest) == Quoted(Trim(w)) + NormalizeBracket(rest)
  {
    if piece == w {
      NormalizeWord(w, rest);
    } else {
      assert [piece[0]] + w + [piece[|piece| - 1]] == piece;
      NormalizeQuotedWord(piece[0], w, piece[|piece| - 1], rest);
    }
  }

  /** The items of a bracket list and its closing bracket normalise to the
      compact JSON text of the trimmed words. */
  lemma {:induction false} NormalizeItems(pieces: seq<string>, ws: seq<string>)
    requires |pieces| == |ws| > 0 && forall k :: 0 <= k < |ws| ==> ListItem(pieces[k], ws[k])
    ensures NormalizeBracket(Join(pieces, ',') + "]") == ItemsText(TrimAll(ws))
    decreases |ws|
  {
    if |ws| == 1 {
      NormalizeLastItem(pieces, ws);
    } else {
      NormalizeItems(pieces[1..], ws[1..]);
      NormalizeNextItem(pieces, ws);
    }
  }

  /** The last item and the closing bracket. */
  lemma NormalizeLastItem(pieces: seq<string>, ws: seq<string>)
    requires |pieces| == |ws| == 1 && ListItem(pieces[0], ws[0])
    ensures NormalizeBracket(Join(pieces, ',') + "]") == ItemsText(TrimAll(ws))
  {
    NormalizeCopies(']', "");
    assert [']'] + "" == "]";
    assert Join(pieces, ',') + "]" == pieces[0] + "]";
    NormalizeItem(pieces[0], ws[0], "]");
  }

  /** The first item, its comma, and the normalised rest of the list. */
  lemma NormalizeNextItem(pieces: seq<string>, ws: seq<string>)
    requires |pieces| == |ws| > 1 && ListItem(pieces[0], ws[0])
    requires NormalizeBracket(Join(pieces[1..], ',') + "]") == ItemsText(TrimAll(ws[1..]))
    ensures NormalizeBracket(Join(pieces, ',') + "]") == ItemsText(TrimAll(ws))
  {
    var tail := Join(pieces[1..], ',') + "]";
    JoinCons(pieces, ',', "]");
    NormalizeItemComma(pieces[0], ws[0], tail);
    var xs := TrimAll(ws);
    assert xs[1..] == TrimAll(ws[1..]);
    assert xs[0] == Trim(ws[0]);
  }

  /** An item and a comma become the quoted word and the comma. */
  lemma NormalizeItemComma(piece: string, w: string, tail: string)
    requires ListItem(piece, w)
    ensures NormalizeBracket(piece + ([','] + tail)) == Quoted(Trim(w)) + ([','] + NormalizeBracket(tail))
  {
    NormalizeItem(piece, w, [','] + tail);
    NormalizeCopies(',', tail);
  }

  /** A whole bracket list of items normalises to the JSON array of the trimmed
      words. */
  lemma NormalizeBracketList(pieces: seq<string>, ws: seq<string>)
    requires |pieces| == |ws| > 0 && forall k :: 0 <= k < |ws| ==> ListItem(pieces[k], ws[k])
    ensures NormalizeBracket("[" + Join(pieces, ',') + "]") == ArrayText(TrimAll(ws))
  {
    var x := Join(pieces, ',') + "]";
    assert "[" + Join(pieces, ',') + "]" == ['['] + x;
    NormalizeCopies('[', x);
    NormalizeItems(pieces, ws);
  }

  /** The JSON path: a bracket list of words, bare or quoted, gives the trimmed
      words as tags. */
  lemma BracketListTags(pieces: seq<string>, ws: seq<string>)
    requires |pieces| == |ws| > 0
    requires forall k :: 0 <= k < |ws| ==> ListItem(pieces[k], ws[k]) && PlainString(Trim(ws[k]))
    ensures TagsValue("[" + Join(pieces, ',') + "]") == TrimAll(ws)
  {
    BracketListJson(pieces, ws);
    TagsOfJson("[" + Join(pieces, ',') + "]", TrimAll(ws));
  }

  /** A bracket list of words is trimmed, starts with `[`, and after the
      normaliser JSON reads the trimmed words from it. */
  lemma BracketListJson(pieces: seq<string>, ws: seq<string>)
    requires |pieces| == |ws| > 0
    requires forall k :: 0 <= k < |ws| ==> ListItem(pieces[k], ws[k]) && PlainString(Trim(ws[k]))
    ensures var v := "[" + Join(pieces, ',') + "]";
      Trim(v) == v && StartsWith(v, "[") && ParseJsonStrings(NormalizeBracket(v)) == Some(TrimAll(ws))
  {
    Bracketed(Join(pieces, ','));
    BracketListReads(pieces, ws);
  }

  /** A text between brackets is trimmed and starts with `[`. */
  lemma Bracketed(x: string)
    ensures Trim("[" + x + "]") == "[" + x + "]" && StartsWith("[" + x + "]", "[")
  {
    var v := "[" + x + "]";
    assert v[0] == '[' && v[|v| - 1] == ']';
    TrimOfTrimmed(v);
  }

  /** After the normaliser, JSON reads the trimmed words from a bracket list. */
  lemma BracketListReads(pieces: seq<string>, ws: seq<string>)
    requires |pieces| == |ws| > 0
    requires forall k :: 0 <= k < |ws| ==> ListItem(pieces[k], ws[k]) && PlainString(Trim(ws[k]))
    ensures ParseJsonStrings(NormalizeBracket("[" + Join(pieces, ',') + "]")) == Some(TrimAll(ws))
  {
    var xs := TrimAll(ws);
    NormalizeBracketList(pieces, ws);
    ParseArrayText(xs);
  }

  /** Where the normalised text reads as JSON, the tags are what it reads. */
  lemma TagsOfJson(v: string, xs: seq<string>)
    requires Trim(v) == v && StartsWith(v, "[") && ParseJsonStrings(NormalizeBracket(v)) == Some(xs)
    ensures TagsValue(v) == xs
  {}

  /** The JSON path of a category key: the first word of the bracket list, trimmed. */
  lemma BracketListCategory(pieces: seq<string>, ws: seq<string>)
    requires |pieces| == |ws| > 0
    requires forall k :: 0 <= k < |ws| ==> ListItem(pieces[k], ws[k]) && PlainString(Trim(ws[k]))
    ensures CategoryValue("[" + Join(pieces, ',') + "]") == Trim(ws[0])
  {
    BracketListJson(pieces, ws);
    CategoryOfJson("[" + Join(pieces, ',') + "]", TrimAll(ws));
  }

  /** Where the normalised text reads as a non-empty JSON list, the category is
      its first string. */
  lemma CategoryOfJson(v: string, xs: seq<string>)
    requires StartsWith(v, "[") && ParseJsonStrings(NormalizeBracket(v)) == Some(xs) && |xs| > 0
    ensures CategoryValue(v) == xs[0]
  {}

  // ---------------------------------------------------------------------------
  // The forEach over the block's lines

  predicate IsCategoryKey(k: string) {
    k == "category" || k == "categories" || k == "cat" || k == "categoria"
  }

  predicate IsSpecialKey(k: string) {
    k == "tags" || IsCategoryKey(k)
  }

  /** What one line asks to store: its normalised key and its value with one layer
      of quotes removed, or nothing when the line does not match. */
  function LineEntry(line: string): Option<KeyValue> {
    match MatchLine(line)
    case None => None
    case Some(kv) => Some(KeyValue(NormalizeKey(kv.key), StripQuotes(kv.value)))
  }

  /** A line of the pattern's shape asks to store its normalised key with its
      trimmed value, one layer of quotes removed. */
  lemma LineEntryShape(pre: string, key: string, mid: string, v: string)
    requires AllWs(pre) && key != "" && AllKeyChars(key) && AllWs(mid)
    requires NoLineBreak(TrimStart(v))
    ensures LineEntry(pre + (key + (mid + (":" + v)))) == Some(KeyValue(NormalizeKey(key), StripQuotes(Trim(v))))
  {
    MatchLineShape(pre, key, mid, v);
  }

  /** Storing one key: `tags` and the category keys are read specially. */
  function Store(meta: Meta, key: string, value: string): Meta {
    if key == "tags" then meta.(tags := Some(TagsValue(value)))
    else if IsCategoryKey(key) then meta.(category := Some(CategoryValue(value)))
    else meta.(fields := meta.fields[key := value])
  }

  /** The body of the `forEach` callback, once the line has been matched. */
  function ApplyEntry(meta: Meta, e: Option<KeyValue>): Meta {
    match e
    case None => meta
    case Some(kv) => Store(meta, kv.key, kv.value)
  }

  function Entries(lines: seq<string>): (es: seq<Option<KeyValue>>)
    ensures |es| == |lines|
  {
    seq(|lines|, i requires 0 <= i < |lines| => LineEntry(lines[i]))
  }

  /** The `forEach` from an empty `meta`, over the matched lines. */
  function Fold(es: seq<Option<KeyValue>>): Meta {
    if |es| == 0 then NoMeta
    else ApplyEntry(Fold(es[..|es| - 1]), es[|es| - 1])
  }

  function MetaOf(lines: seq<string>): Meta {
    Fold(Entries(lines))
  }

  /** Entry `i` stores the ordinary (not `tags`, not category) key `k`. */
  predicate StoresField(es: seq<Option<KeyValue>>, i: int, k: string) {
    0 <= i < |es| && es[i].Some? && es[i].value.key == k && !IsSpecialKey(k)
  }

  /** Entry `i` stores `k` and no later entry does. */
  predicate LastStoring(es: seq<Option<KeyValue>>, i: int, k: string) {
    StoresField(es, i, k) && forall j :: i < j < |es| ==> !StoresField(es, j, k)
  }

  predicate IsTagsEntry(e: Option<KeyValue>) {
    e.Some? && e.value.key == "tags"
  }

  predicate IsCategoryEntry(e: Option<KeyValue>) {
    e.Some? && IsCategoryKey(e.value.key)
  }

  /** Entry `i` is the last `tags` entry. */
  predicate LastTags(es: seq<Option<KeyValue>>, i: int) {
    0 <= i < |es| && IsTagsEntry(es[i]) && forall j :: i < j < |es| ==> !IsTagsEntry(es[j])
  }

  /** Entry `i` is the last entry with a category key. */
  predicate LastCategory(es: seq<Option<KeyValue>>, i: int) {
    0 <= i < |es| && IsCategoryEntry(es[i]) && forall j :: i < j < |es| ==> !IsCategoryEntry(es[j])
  }

  /** One step of the fold, seen from an ordinary key. */
  lemma StepField(meta: Meta, e: Option<KeyValue>, k: string)
    requires !IsSpecialKey(k)
    ensures e.Some? && e.value.key == k ==>
      k in ApplyEntry(meta, e).fields && ApplyEntry(meta, e).fields[k] == e.value.value
    ensures !(e.Some? && e.value.key == k) ==>
      (k in ApplyEntry(meta, e).fields <==> k in meta.fields) &&
      (k in meta.fields ==> ApplyEntry(meta, e).fields[k] == meta.fields[k])
  {
    if e.Some? {
      var key := e.value.key;
      if key == "tags" {
      } else if IsCategoryKey(key) {
      } else {
      }
    }
  }

  /** One step of the fold, seen from `tags` and from `category`. */
  lemma StepSpecial(meta: Meta, e: Option<KeyValue>)
    ensures ApplyEntry(meta, e).tags == if IsTagsEntry(e) then Some(TagsValue(e.value.value)) else meta.tags
    ensures ApplyEntry(meta, e).category ==
      if IsCategoryEntry(e) then Some(CategoryValue(e.value.value)) else meta.category
  {
    if e.Some? {
      var key := e.value.key;
      if key == "tags" {
      } else if IsCategoryKey(key) {
      } else {
      }
    }
  }

  /** Ordinary keys: a key is present exactly when some line stores it, and it
      holds the value of the LAST line that stores it; lines that do not match
      are ignored. */
  lemma {:induction false} FieldsLastWins(es: seq<Option<KeyValue>>, k: string)
    requires !IsSpecialKey(k)
    ensures k in Fold(es).fields <==> exists i :: StoresField(es, i, k)
    ensures forall i :: LastStoring(es, i, k) ==> Fold(es).fields[k] == es[i].value.value
  {
    if |es| > 0 {
      var n := |es| - 1;
      var init := es[..n];
      FieldsLastWins(init, k);
      assert Fold(es) == ApplyEntry(Fold(init), es[n]);
      StepField(Fold(init), es[n], k);
      forall i | 0 <= i < n ensures StoresField(es, i, k) == StoresField(init, i, k) {
        assert es[i] == init[i];
      }
      if StoresField(es, n, k) {
        assert forall i :: LastStoring(es, i, k) ==> i == n;
      } else {
        assert forall i :: LastStoring(es, i, k) ==> LastStoring(init, i, k);
      }
    }
  }

  /** `tags` and the category keys never appear among the ordinary fields. */
  lemma {:induction false} NoSpecialFields(es: seq<Option<KeyValue>>, k: string)
    requires IsSpecialKey(k)
    ensures k !in Fold(es).fields
  {
    if |es| > 0 {
      var init := es[..|es| - 1];
      NoSpecialFields(init, k);
      var e := es[|es| - 1];
      assert Fold(es) == ApplyEntry(Fold(init), e);
      if e.Some? {
        var key := e.value.key;
        if key == "tags" {
        } else if IsCategoryKey(key) {
        } else {
          assert key != k;
        }
      }
    }
  }

  /** `tags` holds the list read from the last `tags` line, if there is one. */
  lemma {:induction false} TagsLastWins(es: seq<Option<KeyValue>>)
    ensures Fold(es).tags.None? <==> forall i :: 0 <= i < |es| ==> !IsTagsEntry(es[i])
    ensures forall i :: LastTags(es, i) ==> Fold(es).tags == Some(TagsValue(es[i].value.value))
  {
    if |es| > 0 {
      var n := |es| - 1;
      var init := es[..n];
      TagsLastWins(init);
      assert Fold(es) == ApplyEntry(Fold(init), es[n]);
      StepSpecial(Fold(init), es[n]);
      assert forall i :: 0 <= i < n ==> es[i] == init[i];
      if IsTagsEntry(es[n]) {
        assert forall i :: LastTags(es, i) ==> i == n;
      } else {
        assert forall i :: LastTags(es, i) ==> LastTags(init, i);
      }
    }
  }

  /** `category` holds the value read from the last line with any of the
      category keys, if there is one. */
  lemma {:induction false} CategoryLastWins(es: seq<Option<KeyValue>>)
    ensures Fold(es).category.None? <==> forall i :: 0 <= i < |es| ==> !IsCategoryEntry(es[i])
    ensures forall i :: LastCategory(es, i) ==> Fold(es).category == Some(CategoryValue(es[i].value.value))
  {
    if |es| > 0 {
      var n := |es| - 1;
      var init := es[..n];
      CategoryLastWins(init);
      assert Fold(es) == ApplyEntry(Fold(init), es[n]);
      StepSpecial(Fold(init), es[n]);
      assert forall i :: 0 <= i < n ==> es[i] == init[i];
      if IsCategoryEntry(es[n]) {
        assert forall i :: LastCategory(es, i) ==> i == n;
      } else {
        assert forall i :: LastCategory(es, i) ==> LastCategory(init, i);
      }
    }
  }

  // ---------------------------------------------------------------------------
  // parseFrontmatter

  /** The specification of `parseFrontmatter`. */
  function FrontmatterOf(markdown: string): Parsed {
    match MatchBlock(markdown)
    case None => Parsed(NoMeta, markdown)
    case Some(b) => Parsed(MetaOf(SplitLines(markdown[b.inner..b.innerEnd])), Trim(markdown[b.end..]))
  }

  /** Without a leading `---` followed later by another `---`, nothing is read and
      the body is the input itself. */
  lemma NoBlockKeepsInput(markdown: string)
    requires !DashesAt(markdown, 0) || forall j :: 3 <= j ==> !DashesAt(markdown, j)
    ensures FrontmatterOf(markdown) == Parsed(NoMeta, markdown)
  {}

  /** The match, stated against the first `---` after the opening one, at `j`:
      the group is the text between the two dash runs, trimmed, and the match
      ends after the closing dashes and the whitespace that follows them. */
  lemma MatchBlockAt(s: string, j: nat)
    requires DashesAt(s, 0) && 3 <= j && DashesAt(s, j)
    requires forall i :: 3 <= i < j ==> !DashesAt(s, i)
    ensures MatchBlock(s).Some?
    ensures s[MatchBlock(s).value.inner..MatchBlock(s).value.innerEnd] == Trim(s[3..j])
    ensures MatchBlock(s).value.end == j + 3 + WsRun(s, j + 3)
  {
    MatchBlockEnd(s, j);
    var p := 3 + WsRun(s, 3);
    var q := WsBack(s, p, j);
    TrimBetween(s, 3, p, q, j);
  }

  /** Where the match ends, with `j` as above. */
  lemma MatchBlockEnd(s: string, j: nat)
    requires DashesAt(s, 0) && 3 <= j && DashesAt(s, j)
    requires forall i :: 3 <= i < j ==> !DashesAt(s, i)
    ensures MatchBlock(s).Some?
    ensures MatchBlock(s).value.end == j + 3 + WsRun(s, j + 3)
  {
    var p := 3 + WsRun(s, 3);
    assert FindDashes(s, p) == Some(j);
  }

  /** With a block whose closing dashes are the first ones at `j`, the body is the
      text after those dashes, trimmed, and `meta` is read from the lines of the
      trimmed text between the two dash runs. */
  lemma BlockContents(markdown: string, j: nat)
    requires DashesAt(markdown, 0) && 3 <= j && DashesAt(markdown, j)
    requires forall i :: 3 <= i < j ==> !DashesAt(markdown, i)
    ensures FrontmatterOf(markdown).body == Trim(markdown[j + 3..])
    ensures FrontmatterOf(markdown).meta == MetaOf(SplitLines(Trim(markdown[3..j])))
    ensures Trim(FrontmatterOf(markdown).body) == FrontmatterOf(markdown).body
  {
    BlockBody(markdown, j);
    BlockMeta(markdown, j);
    var rest := markdown[j + 3..];
    TrimIdempotent(rest);
  }

  /** The body half of `BlockContents`. */
  lemma BlockBody(markdown: string, j: nat)
    requires DashesAt(markdown, 0) && 3 <= j && DashesAt(markdown, j)
    requires forall i :: 3 <= i < j ==> !DashesAt(markdown, i)
    ensures FrontmatterOf(markdown).body == Trim(markdown[j + 3..])
  {
    var a := j + 3;
    var e := a + WsRun(markdown, a);
    MatchBodyEnd(markdown, j);
    TrimAfterRun(markdown, a, e);
  }

  /** The body is the trimmed text after the closing dashes and their whitespace. */
  lemma MatchBodyEnd(s: string, j: nat)
    requires DashesAt(s, 0) && 3 <= j && DashesAt(s, j)
    requires forall i :: 3 <= i < j ==> !DashesAt(s, i)
    ensures FrontmatterOf(s).body == Trim(s[j + 3 + WsRun(s, j + 3)..])
  {
    MatchBlockEnd(s, j);
    MatchBody(s, MatchBlock(s).value);
  }

  /** The `meta` half of `BlockContents`. */
  lemma BlockMeta(markdown: string, j: nat)
    requires DashesAt(markdown, 0) && 3 <= j && DashesAt(markdown, j)
    requires forall i :: 3 <= i < j ==> !DashesAt(markdown, i)
    ensures FrontmatterOf(markdown).meta == MetaOf(SplitLines(Trim(markdown[3..j])))
  {
    MatchBlockAt(markdown, j);
  }

  /** The body is the text after the match, trimmed. */
  lemma MatchBody(s: string, b: Block)
    requires MatchBlock(s) == Some(b)
    ensures b.end <= |s| && FrontmatterOf(s).body == Trim(s[b.end..])
  {}

  /** `parseFrontmatter(markdown)`: the result object starts as empty meta and the
      whole input, and a `forEach` over the block's lines fills `meta`. */
  method ParseFrontmatter(markdown: string) returns (res: Parsed)
    ensures res == FrontmatterOf(markdown)
  {
    res := Parsed(NoMeta, markdown);
    var m := MatchBlock(markdown);
    if m.None? {
      return;
    }
    var fm := markdown[m.value.inner..m.value.innerEnd];
    res := res.(body := Trim(markdown[m.value.end..]));
    var meta := FillMeta(SplitLines(fm));
    res := res.(meta := meta);
  }

  /** The `forEach` over the block's lines, each matching line updating `meta`. */
  method FillMeta(lines: seq<string>) returns (meta: Meta)
    ensures meta == MetaOf(lines)
  {
    meta := NoMeta;
    ghost var es := Entries(lines);
    for i := 0 to |lines|
      invariant meta == Fold(es[..i])
    {
      assert es[..i + 1][..i] == es[..i];
      meta := ApplyEntry(meta, LineEntry(lines[i]));
    }
    assert es[..|lines|] == es;
  }
}
