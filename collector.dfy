/** `collectMarkdownFiles` of build.js: a depth-first walk of the articles folder that
    keeps the regular files whose extension is `.md` in any letter case.
    The folder is given as a tree of listings, in the order the file system lists
    them; a path is the sequence of names below the articles root. */
module Collector {
  import opened Text
  import opened Wrappers

  /** One directory entry: a regular file, a directory with its own listing, or
      anything else (a symbolic link, a socket, ...), which the walk ignores. */
  datatype Entry =
    | File(name: string)
    | Dir(name: string, entries: seq<Entry>)
    | Other(name: string)

  type Path = seq<string>

  function LastIndexOf(s: string, c: char): (r: Option<nat>)
    ensures r.None? <==> c !in s
    ensures r.Some? ==> r.value < |s| && s[r.value] == c && c !in s[r.value + 1..]
  {
    if |s| == 0 then None
    else if s[|s| - 1] == c then Some(|s| - 1)
    else
      var r := LastIndexOf(s[..|s| - 1], c);
      assert s == s[..|s| - 1] + [s[|s| - 1]];
      r
  }

  /** Node's `path.extname` applied to a single file name: from the last dot to the
      end, except for a name whose only dot is its first character and for `..`. */
  function ExtName(name: string): string {
    match LastIndexOf(name, '.')
    case None => ""
    case Some(d) => if d == 0 || name == ".." then "" else name[d..]
  }

  /** `path.extname(name).toLowerCase() === '.md'`. */
  predicate IsMarkdownName(name: string) {
    var x := ExtName(name);
    |x| == 3 && x[0] == '.' && LowerChar(x[1]) == 'm' && LowerChar(x[2]) == 'd'
  }

  /** A name is kept exactly when it has at least one character before a final
      `.md` written in any letter case: a bare `.md` is a hidden file with no
      extension. */
  lemma MarkdownNameIff(name: string)
    ensures IsMarkdownName(name) <==> |name| >= 4 && LowerAscii(name[|name| - 3..]) == ".md"
  {
    var n := |name|;
    if IsMarkdownName(name) {
      var d := LastIndexOf(name, '.').value;
      assert ExtName(name) == name[d..];
      assert |name[d..]| == 3;
    }
    if n >= 4 && LowerAscii(name[n - 3..]) == ".md" {
      assert name[n - 3] == '.';
      assert LowerChar(name[n - 2]) == 'm' && LowerChar(name[n - 1]) == 'd';
      assert '.' !in name[n - 2..];
      var r := LastIndexOf(name, '.');
      assert r.value == n - 3;
    }
  }

  /** The markdown files of one entry, in pre-order. */
  function FilesOf(dir: Path, e: Entry): seq<Path>
    decreases e, 0
  {
    match e
    case File(n) => if IsMarkdownName(n) then [dir + [n]] else []
    case Dir(n, es) => MarkdownFiles(dir + [n], es)
    case Other(_) => []
  }

  /** The specification of the walk: each entry in listing order, a directory's
      files in place of the directory. */
  function MarkdownFiles(dir: Path, entries: seq<Entry>): seq<Path>
    decreases entries, 1
  {
    if |entries| == 0 then []
    else FilesOf(dir, entries[0]) + MarkdownFiles(dir, entries[1..])
  }

  /** `rel` names a regular file of the listing, through directories only. */
  predicate FileAt(entries: seq<Entry>, rel: Path)
    decreases entries
  {
    exists k :: 0 <= k < |entries| && FileIn(entries[k], rel)
  }

  predicate FileIn(e: Entry, rel: Path)
    decreases e
  {
    match e
    case File(n) => rel == [n]
    case Dir(n, es) => |rel| >= 2 && rel[0] == n && FileAt(es, rel[1..])
    case Other(_) => false
  }

  /** The walk returns a path exactly when it lies under `dir`, leads to a regular
      file through directories, and that file's name has the markdown extension:
      no directory, no other entry and no file of another type is returned. */
  lemma {:induction false} MarkdownFilesIff(dir: Path, entries: seq<Entry>, p: Path)
    ensures p in MarkdownFiles(dir, entries) <==>
      |p| > |dir| && p[..|dir|] == dir && FileAt(entries, p[|dir|..]) && IsMarkdownName(p[|p| - 1])
    decreases entries, 1
  {
    if |entries| > 0 {
      FilesOfIff(dir, entries[0], p);
      MarkdownFilesIff(dir, entries[1..], p);
      if |p| > |dir| && p[..|dir|] == dir {
        var rel := p[|dir|..];
        if FileAt(entries, rel) {
          var k :| 0 <= k < |entries| && FileIn(entries[k], rel);
          if k > 0 { assert FileIn(entries[1..][k - 1], rel); }
        }
        if FileAt(entries[1..], rel) {
          var k :| 0 <= k < |entries[1..]| && FileIn(entries[1..][k], rel);
          assert FileIn(entries[k + 1], rel);
        }
      }
    }
  }

  lemma {:induction false} FilesOfIff(dir: Path, e: Entry, p: Path)
    ensures p in FilesOf(dir, e) <==>
      |p| > |dir| && p[..|dir|] == dir && FileIn(e, p[|dir|..]) && IsMarkdownName(p[|p| - 1])
    decreases e, 0
  {
    match e
    case File(n) =>
      if |p| > |dir| && p[..|dir|] == dir && p[|dir|..] == [n] {
        assert p == dir + [n];
      }
    case Dir(n, es) =>
      MarkdownFilesIff(dir + [n], es, p);
      ChildPrefix(dir, n, p);
    case Other(_) =>
  }

  /** Being below `dir + [n]` is being below `dir` with `n` as the next name. */
  lemma ChildPrefix(dir: Path, n: string, p: Path)
    ensures (|p| > |dir| + 1 && p[..|dir| + 1] == dir + [n]) <==>
      (|p| > |dir| && p[..|dir|] == dir && |p[|dir|..]| >= 2 && p[|dir|..][0] == n)
    ensures |p| > |dir| ==> p[|dir|..][1..] == p[|dir| + 1..]
  {
    if |p| > |dir| + 1 && p[..|dir| + 1] == dir + [n] {
      assert p[..|dir|] == p[..|dir| + 1][..|dir|];
    }
    if |p| > |dir| + 1 && p[..|dir|] == dir && p[|dir|] == n {
      assert p[..|dir| + 1] == p[..|dir|] + [p[|dir|]];
    }
  }

  lemma {:induction false} MarkdownFilesSnoc(dir: Path, entries: seq<Entry>, e: Entry)
    ensures MarkdownFiles(dir, entries + [e]) == MarkdownFiles(dir, entries) + FilesOf(dir, e)
  {
    if |entries| > 0 {
      assert (entries + [e])[1..] == entries[1..] + [e];
      MarkdownFilesSnoc(dir, entries[1..], e);
    } else {
      assert [e][1..] == [];
    }
  }

  /** `collectMarkdownFiles(dir)` for the directory `dir` whose listing is
      `entries`: a `for` loop that pushes each markdown file and splices in the
      result of the recursive call on each sub-directory. */
  method CollectMarkdownFiles(dir: Path, entries: seq<Entry>) returns (results: seq<Path>)
    ensures results == MarkdownFiles(dir, entries)
    decreases entries
  {
    results := [];
    for i := 0 to |entries|
      invariant results == MarkdownFiles(dir, entries[..i])
    {
      var here: seq<Path> := [];
      match entries[i] {
        case Dir(n, es) =>
          here := CollectMarkdownFiles(dir + [n], es);
        case File(n) =>
          if IsMarkdownName(n) {
            here := [dir + [n]];
          }
        case Other(_) =>
      }
      assert here == FilesOf(dir, entries[i]);
      MarkdownFilesSnoc(dir, entries[..i], entries[i]);
      assert entries[..i + 1] == entries[..i] + [entries[i]];
      results := results + here;
    }
    assert entries[..|entries|] == entries;
  }
}
