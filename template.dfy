/** The end of build.js: the serialised posts with every `</script>` escaped, and
    the page template with its `let blogPosts = [...]` declaration removed. The
    serialisation is a parameter; the escaped text is not written anywhere, and the
    page written is the template after the removal. */
module Template {
  import opened Wrappers
  import opened Text

  const CloseTag: string := "</script>"
  const EscapedTag: string := "<\\/script>"

  /** `/<\/script>/i` matches at index `i`: ASCII letters in any case. */
  predicate CloseTagAt(s: string, i: nat) {
    i + |CloseTag| <= |s| && LowerAscii(s[i..i + |CloseTag|]) == CloseTag
  }

  predicate NoCloseTag(s: string) {
    forall i :: 0 <= i < |s| ==> !CloseTagAt(s, i)
  }

  /** `postsData.replace(/<\/script>/gi, '<\\/script>')`, left to right. */
  function Escape(s: string): string
    decreases |s|
  {
    if |s| == 0 then ""
    else if CloseTagAt(s, 0) then EscapedTag + Escape(s[|CloseTag|..])
    else [s[0]] + Escape(s[1..])
  }

  /** Without a close tag in the text, nothing is replaced. */
  lemma {:induction false} EscapeNoTag(s: string)
    requires NoCloseTag(s)
    ensures Escape(s) == s
    decreases |s|
  {
    if |s| > 0 {
      forall i | 0 <= i < |s[1..]| ensures !CloseTagAt(s[1..], i) {
        assert !CloseTagAt(s, i + 1);
        if i + |CloseTag| <= |s[1..]| {
          assert s[1..][i..i + |CloseTag|] == s[i + 1..i + 1 + |CloseTag|];
        }
      }
      EscapeNoTag(s[1..]);
    }
  }

  /** A close tag starts with `<` and `/` in any letter case. */
  lemma CloseTagHead(s: string, i: nat)
    ensures CloseTagAt(s, i) ==> i + 1 < |s| && LowerChar(s[i]) == '<' && LowerChar(s[i + 1]) == '/'
  {
    if i + |CloseTag| <= |s| {
      var w := s[i..i + |CloseTag|];
      assert LowerAscii(w)[0] == LowerChar(s[i]);
      assert LowerAscii(w)[1] == LowerChar(s[i + 1]);
    }
  }

  /** An escaped text that starts with a close tag starts with `<`. */
  lemma EscapeHead(t: string)
    ensures CloseTagAt(t, 0) ==> |Escape(t)| > 0 && Escape(t)[0] == '<'
  {
    if CloseTagAt(t, 0) {
      assert Escape(t) == EscapedTag + Escape(t[|CloseTag|..]);
    }
  }

  /** The leading characters of an escaped text that are not `<` were copied. */
  lemma {:induction false} EscapeCopies(t: string, n: nat)
    requires n <= |Escape(t)| && forall k :: 0 <= k < n ==> Escape(t)[k] != '<'
    ensures n <= |t| && t[..n] == Escape(t)[..n]
    decreases n
  {
    if n > 0 {
      assert |t| > 0;
      EscapeHead(t);
      assert Escape(t) == [t[0]] + Escape(t[1..]);
      forall k | 0 <= k < n - 1 ensures Escape(t[1..])[k] != '<' {
        assert Escape(t)[k + 1] == Escape(t[1..])[k];
      }
      EscapeCopies(t[1..], n - 1);
      assert t[..n] == [t[0]] + t[1..][..n - 1];
    }
  }

  /** No close tag starts inside the replacement `<\/script>`. */
  lemma NoTagInEscaped(out: string, x: string, i: nat)
    requires out == EscapedTag + x && i < |EscapedTag|
    ensures !CloseTagAt(out, i)
  {
    CloseTagHead(out, i);
    assert out[i] == EscapedTag[i];
    if i == 0 {
      assert out[1] == EscapedTag[1];
    }
  }

  /** The escaped text holds no `</script>` in any letter case. */
  lemma {:induction false} EscapeRemovesCloseTags(s: string)
    ensures NoCloseTag(Escape(s))
    decreases |s|
  {
    if |s| > 0 {
      var out := Escape(s);
      if CloseTagAt(s, 0) {
        var rest := s[|CloseTag|..];
        EscapeRemovesCloseTags(rest);
        assert out == EscapedTag + Escape(rest);
        forall i | 0 <= i < |out| ensures !CloseTagAt(out, i) {
          if i >= |EscapedTag| {
            assert !CloseTagAt(Escape(rest), i - |EscapedTag|);
            if i + |CloseTag| <= |out| {
              assert out[i..i + |CloseTag|] == Escape(rest)[i - |EscapedTag|..i - |EscapedTag| + |CloseTag|];
            }
          } else {
            NoTagInEscaped(out, Escape(rest), i);
          }
        }
      } else {
        var rest := s[1..];
        EscapeRemovesCloseTags(rest);
        assert out == [s[0]] + Escape(rest);
        forall i | 0 <= i < |out| ensures !CloseTagAt(out, i) {
          if i >= 1 {
            assert !CloseTagAt(Escape(rest), i - 1);
            if i + |CloseTag| <= |out| {
              assert out[i..i + |CloseTag|] == Escape(rest)[i - 1..i - 1 + |CloseTag|];
            }
          } else {
            FirstCharCopied(s, out, rest);
          }
        }
      }
    }
  }

  /** A close tag at the start of `[s[0]] + Escape(s[1..])` is one at the start
      of `s`. */
  lemma FirstCharCopied(s: string, out: string, rest: string)
    requires |s| > 0 && rest == s[1..] && out == [s[0]] + Escape(rest)
    ensures CloseTagAt(out, 0) ==> CloseTagAt(s, 0)
  {
    var m := |CloseTag| - 1;
    if CloseTagAt(out, 0) {
      var w := out[..|CloseTag|];
      assert LowerAscii(w) == CloseTag;
      forall k | 0 <= k < m ensures Escape(rest)[k] != '<' {
        assert LowerChar(w[k + 1]) == CloseTag[k + 1];
        assert w[k + 1] == Escape(rest)[k];
      }
      EscapeCopies(rest, m);
      assert s[..|CloseTag|] == [s[0]] + rest[..m];
      assert w == [s[0]] + Escape(rest)[..m];
      assert s[0..|CloseTag|] == w;
    }
  }

  // ---------------------------------------------------------------------------
  // /let\s+blogPosts\s*=\s*\[.*?\];?/s

  /** The end of the declaration that starts at index `p`, if one does: `let`,
      whitespace, `blogPosts`, `=` between optional whitespace, `[`, the text up
      to the first `]` (the `s` flag lets it span lines), and an optional `;`. */
  function DeclAt(t: string, p: nat): (r: Option<nat>)
    ensures r.Some? ==> p < r.value <= |t|
  {
    if !OccursAt(t, "let", p) then None
    else match NameEnd(t, p + 3)
      case None => None
      case Some(c) =>
        match SymEnd(t, c, '=')
        case None => None
        case Some(d) =>
          match SymEnd(t, d, '[')
          case None => None
          case Some(g) => ArrayTail(t, g)
  }

  /** `\s+blogPosts` from index `a`: where it ends, if it matches there. */
  function NameEnd(t: string, a: nat): (r: Option<nat>)
    requires a <= |t|
    ensures r.Some? ==> a < r.value <= |t|
  {
    var n := WsRun(t, a);
    if n > 0 && OccursAt(t, "blogPosts", a + n) then Some(a + n + 9) else None
  }

  /** `\s*` and the character `sym` from index `c`: where they end, if they match. */
  function SymEnd(t: string, c: nat, sym: char): (r: Option<nat>)
    requires c <= |t|
    ensures r.Some? ==> c < r.value <= |t|
  {
    var d := c + WsRun(t, c);
    if d < |t| && t[d] == sym then Some(d + 1) else None
  }

  /** `.*?\];?` from index `g`: up to the first `]`, and a `;` if one follows. */
  function ArrayTail(t: string, g: nat): (r: Option<nat>)
    requires g <= |t|
    ensures r.Some? ==> g < r.value <= |t|
  {
    match IndexOf(t[g..], ']')
    case None => None
    case Some(k) =>
      var f := g + k + 1;
      Some(if f < |t| && t[f] == ';' then f + 1 else f)
  }

  /** `\s+blogPosts`: whitespace from `a` to `b`, at least one character of it,
      then the name. */
  predicate NameSpan(t: string, a: nat, b: nat) {
    a < b && b + 9 <= |t| && WsBetween(t, a, b) && OccursAt(t, "blogPosts", b)
  }

  /** `\s*` then `sym`: whitespace from `c` up to the `sym` at `d`. */
  predicate SymSpan(t: string, c: nat, d: nat, sym: char) {
    c <= d < |t| && WsBetween(t, c, d) && t[d] == sym
  }

  /** `.*?\];?` from `g`: text without `]` up to the `]` at `f`, and the match
      ends after a `;` that follows, or else right after the `]`. */
  predicate TailSpan(t: string, g: nat, f: nat, e: nat) {
    g <= f < |t| && t[f] == ']' && ']' !in t[g..f]
    && (if f + 1 < |t| && t[f + 1] == ';' then e == f + 2 else e == f + 1)
  }

  /** The pattern read declaratively, with the positions where each part ends:
      `let` at `p`, then the parts above in turn. */
  predicate DeclSpan(t: string, p: nat, b: nat, c: nat, d: nat, f: nat, e: nat) {
    OccursAt(t, "let", p) && NameSpan(t, p + 3, b) && SymSpan(t, b + 9, c, '=')
    && SymSpan(t, c + 1, d, '[') && TailSpan(t, d + 1, f, e)
  }

  ghost predicate DeclMatch(t: string, p: nat, e: nat) {
    exists b: nat, c: nat, d: nat, f: nat :: DeclSpan(t, p, b, c, d, f, e)
  }

  /** `DeclAt` finds exactly the declarations the pattern describes: the greedy
      whitespace runs and the first `]` are the only way to match. */
  lemma DeclAtIff(t: string, p: nat, e: nat)
    ensures DeclAt(t, p) == Some(e) <==> DeclMatch(t, p, e)
  {
    if DeclAt(t, p) == Some(e) {
      DeclAtSound(t, p);
    }
    if DeclMatch(t, p, e) {
      var b: nat, c: nat, d: nat, f: nat :| DeclSpan(t, p, b, c, d, f, e);
      DeclAtComplete(t, p, b, c, d, f, e);
    }
  }

  lemma DeclAtSound(t: string, p: nat)
    requires DeclAt(t, p).Some?
    ensures DeclMatch(t, p, DeclAt(t, p).value)
  {
    var e := DeclAt(t, p).value;
    var c1 := NameEnd(t, p + 3).value;
    var d1 := SymEnd(t, c1, '=').value;
    var g := SymEnd(t, d1, '[').value;
    assert OccursAt(t, "let", p) && ArrayTail(t, g) == Some(e);
    var b := NameEndSound(t, p + 3, c1);
    var c := SymEndSound(t, c1, '=', d1);
    var d := SymEndSound(t, d1, '[', g);
    var f := ArrayTailSound(t, g, e);
    assert DeclSpan(t, p, b, c, d, f, e);
  }

  lemma NameEndSound(t: string, a: nat, c: nat) returns (b: nat)
    requires a <= |t| && NameEnd(t, a) == Some(c)
    ensures NameSpan(t, a, b) && c == b + 9
  {
    b := a + WsRun(t, a);
  }

  lemma SymEndSound(t: string, c: nat, sym: char, g: nat) returns (d: nat)
    requires c <= |t| && SymEnd(t, c, sym) == Some(g)
    ensures SymSpan(t, c, d, sym) && g == d + 1
  {
    d := c + WsRun(t, c);
  }

  lemma ArrayTailSound(t: string, g: nat, e: nat) returns (f: nat)
    requires g <= |t| && ArrayTail(t, g) == Some(e)
    ensures TailSpan(t, g, f, e)
  {
    var k := IndexOf(t[g..], ']').value;
    f := g + k;
    assert t[g..][k] == t[f];
    assert t[g..][..k] == t[g..f];
  }

  lemma DeclAtComplete(t: string, p: nat, b: nat, c: nat, d: nat, f: nat, e: nat)
    requires DeclSpan(t, p, b, c, d, f, e)
    ensures DeclAt(t, p) == Some(e)
  {
    // Name the stage boundaries once, so that each stage lemma and the
    // composition speak about the same terms.
    var a, c1, d1, g := p + 3, b + 9, c + 1, d + 1;
    NameEndComplete(t, a, b);
    SymEndComplete(t, c1, c, '=');
    SymEndComplete(t, d1, d, '[');
    ArrayTailComplete(t, g, f, e);
    DeclAtOfParts(t, p, c1, d1, g, e);
  }

  /** `DeclAt` is the composition of its parts. */
  lemma DeclAtOfParts(t: string, p: nat, c: nat, d: nat, g: nat, e: nat)
    requires OccursAt(t, "let", p) && p + 3 <= |t| && NameEnd(t, p + 3) == Some(c)
    requires c <= |t| && SymEnd(t, c, '=') == Some(d)
    requires d <= |t| && SymEnd(t, d, '[') == Some(g)
    requires g <= |t| && ArrayTail(t, g) == Some(e)
    ensures DeclAt(t, p) == Some(e)
  {}

  lemma NameEndComplete(t: string, a: nat, b: nat)
    requires NameSpan(t, a, b)
    ensures NameEnd(t, a) == Some(b + 9)
  {
    OccursAtFirst(t, "blogPosts", b);
    WsRunExact(t, a, b);
  }

  lemma SymEndComplete(t: string, c: nat, d: nat, sym: char)
    requires SymSpan(t, c, d, sym) && !IsWs(sym)
    ensures SymEnd(t, c, sym) == Some(d + 1)
  {
    WsRunExact(t, c, d);
  }

  lemma ArrayTailComplete(t: string, g: nat, f: nat, e: nat)
    requires TailSpan(t, g, f, e)
    ensures ArrayTail(t, g) == Some(e)
  {
    var u := t[g..];
    assert u[..f - g] == t[g..f];
    IndexOfAt(u, ']', f - g);
  }

  /** The leftmost match of a pattern at or after index `p`, where `at(q)` is the
      end of the match starting at `q`, if one does: what a regular expression
      without the `g` flag finds. */
  function Leftmost(at: nat -> Option<nat>, p: nat, n: nat): (r: Option<(nat, nat)>)
    requires p <= n
    ensures r.Some? ==> p <= r.value.0 <= n && at(r.value.0) == Some(r.value.1)
    decreases n - p
  {
    match at(p)
    case Some(f) => Some((p, f))
    case None => if p == n then None else Leftmost(at, p + 1, n)
  }

  /** The search finds nothing exactly when no match starts from `p` to `n`. */
  lemma {:induction false} LeftmostNone(at: nat -> Option<nat>, p: nat, n: nat)
    requires p <= n
    ensures Leftmost(at, p, n).None? <==> forall q :: p <= q <= n ==> at(q).None?
    decreases n - p
  {
    if at(p).None? && p < n {
      LeftmostNone(at, p + 1, n);
    }
  }

  /** No match starts between `p` and the one found. */
  lemma {:induction false} LeftmostFirst(at: nat -> Option<nat>, p: nat, n: nat)
    requires p <= n && Leftmost(at, p, n).Some?
    ensures forall q :: p <= q < Leftmost(at, p, n).value.0 ==> at(q).None?
    decreases n - p
  {
    if at(p).None? {
      LeftmostFirst(at, p + 1, n);
    }
  }

  /** The declarations of a template, by start. */
  function DeclsOf(t: string): nat -> Option<nat> {
    (q: nat) => DeclAt(t, q)
  }

  /** The leftmost declaration, as its start and end. */
  function FindDecl(t: string): (r: Option<(nat, nat)>)
    ensures r.Some? ==> r.value.0 < r.value.1 <= |t| && DeclAt(t, r.value.0) == Some(r.value.1)
  {
    Leftmost(DeclsOf(t), 0, |t|)
  }

  /** `if (varRegex.test(html)) html = html.replace(varRegex, '')`. */
  function RemoveDecl(html: string): string {
    match FindDecl(html)
    case None => html
    case Some((s, e)) => html[..s] + html[e..]
  }

  /** No declaration starts anywhere in the template. */
  predicate NoDecl(html: string) {
    forall q :: 0 <= q <= |html| ==> DeclAt(html, q).None?
  }

  /** The search over the template finds nothing exactly when it holds no
      declaration. */
  lemma FindDeclNone(html: string)
    ensures FindDecl(html).None? <==> NoDecl(html)
  {
    LeftmostNone(DeclsOf(html), 0, |html|);
    if FindDecl(html).None? {
      forall q | 0 <= q <= |html| ensures DeclAt(html, q).None? {
        assert DeclsOf(html)(q).None?;
      }
    } else {
      var r := FindDecl(html).value;
      assert DeclAt(html, r.0).Some?;
    }
  }

  /** The template is left exactly as it is when it holds no declaration, and
      changes when it holds one. */
  lemma RemoveDeclUnchangedIff(html: string)
    ensures RemoveDecl(html) == html <==> NoDecl(html)
  {
    FindDeclNone(html);
    match FindDecl(html)
    case None =>
    case Some((s, e)) =>
      assert |RemoveDecl(html)| < |html|;
  }

  /** The declaration from `s` to `e` is the leftmost one. */
  predicate FirstDecl(html: string, s: nat, e: nat) {
    s < e <= |html| && DeclAt(html, s) == Some(e) && forall q :: 0 <= q < s ==> DeclAt(html, q).None?
  }

  /** With a declaration, the first one is cut out and the text around it kept. */
  lemma RemoveDeclCutsFirst(html: string)
    requires !NoDecl(html)
    ensures exists s: nat, e: nat :: FirstDecl(html, s, e) && RemoveDecl(html) == html[..s] + html[e..]
  {
    FindDeclNone(html);
    var r := FindDecl(html).value;
    LeftmostFirst(DeclsOf(html), 0, |html|);
    forall q | 0 <= q < r.0 ensures DeclAt(html, q).None? {
      assert DeclsOf(html)(q).None?;
    }
    assert FirstDecl(html, r.0, r.1);
  }

  /** The page written: the template without the declaration. */
  function OutputPage(template: string): string {
    RemoveDecl(template)
  }

  /** `postsData`: the serialised posts with `</script>` escaped. */
  function PostsData(serialised: string): string {
    Escape(serialised)
  }
}
