/** The blog index loader of `src/routes/blog/+page.server.ts`: the post paths
    in lexicographic order, each paired with the slug taken from its file name
    and with the frontmatter its file yields.

    The glob over the posts directory is an input (`entries`), and so are the
    file contents (`read`) and the YAML parser (`yaml`). */
module BlogList {
  import opened JsCore
  import opened JsString
  import opened Utils

  // ---------------------------------------------------------------------------
  // The default order of Array.prototype.toSorted on strings
  // ---------------------------------------------------------------------------

  /** `a` sorts before or equal to `b`: a prefix comes first, and otherwise the
      first differing character decides. */
  predicate LexLe(a: string, b: string)
    decreases |a|
  {
    a == [] || (b != [] && (a[0] < b[0] || (a[0] == b[0] && LexLe(a[1..], b[1..]))))
  }

  lemma {:induction false} LexLeReflexive(a: string)
    ensures LexLe(a, a)
    decreases |a|
  {
    if a != [] {
      LexLeReflexive(a[1..]);
    }
  }

  lemma {:induction false} LexLeTotal(a: string, b: string)
    ensures LexLe(a, b) || LexLe(b, a)
    decreases |a|
  {
    if a != [] && b != [] && a[0] == b[0] {
      LexLeTotal(a[1..], b[1..]);
    }
  }

  lemma {:induction false} LexLeTransitive(a: string, b: string, c: string)
    requires LexLe(a, b) && LexLe(b, c)
    ensures LexLe(a, c)
    decreases |a|
  {
    if a != [] && a[0] == b[0] && b[0] == c[0] {
      LexLeTransitive(a[1..], b[1..], c[1..]);
    }
  }

  lemma {:induction false} LexLeAntisymmetric(a: string, b: string)
    requires LexLe(a, b) && LexLe(b, a)
    ensures a == b
    decreases |a|
  {
    if a != [] {
      LexLeAntisymmetric(a[1..], b[1..]);
      assert a == [a[0]] + a[1..] && b == [b[0]] + b[1..];
    }
  }

  /** Every earlier element sorts before or equal to every later one. */
  ghost predicate Sorted(s: seq<string>) {
    forall i, j {:trigger LexLe(s[i], s[j])} :: 0 <= i < j < |s| ==> LexLe(s[i], s[j])
  }

  /** `x` sorts before or equal to every element of `s`. */
  ghost predicate LowerBound(x: string, s: seq<string>) {
    forall i {:trigger LexLe(x, s[i])} :: 0 <= i < |s| ==> LexLe(x, s[i])
  }

  lemma LowerBoundOfPermutation(x: string, s: seq<string>, t: seq<string>)
    requires LowerBound(x, s) && multiset(t) <= multiset(s)
    ensures LowerBound(x, t)
  {
    forall j | 0 <= j < |t|
      ensures LexLe(x, t[j])
    {
      assert t[j] in multiset(t);
      assert t[j] in s;
    }
  }

  /** Inserting into a sorted list keeps it sorted. */
  function Insert(x: string, s: seq<string>): (r: seq<string>)
    requires Sorted(s)
    ensures Sorted(r)
    ensures multiset(r) == multiset(s) + multiset{x}
  {
    if s == [] then [x]
    else if LexLe(x, s[0]) then
      assert LowerBound(x, s) by {
        forall j | 0 <= j < |s| ensures LexLe(x, s[j]) {
          if j > 0 { LexLeTransitive(x, s[0], s[j]); }
        }
      }
      [x] + s
    else
      LexLeTotal(x, s[0]);
      var rest := Insert(x, s[1..]);
      assert s == [s[0]] + s[1..];
      assert LowerBound(s[0], s[1..] + [x]);
      LowerBoundOfPermutation(s[0], s[1..] + [x], rest);
      [s[0]] + rest
  }

  /** `paths.toSorted()`: the same paths, in lexicographic order. */
  function SortPaths(paths: seq<string>): (r: seq<string>)
    ensures Sorted(r)
    ensures multiset(r) == multiset(paths)
  {
    if paths == [] then []
    else
      assert paths == [paths[0]] + paths[1..];
      Insert(paths[0], SortPaths(paths[1..]))
  }

  /** The head of a sorted list sorts before or equal to all of it. */
  lemma SortedHead(a: seq<string>)
    requires Sorted(a) && a != []
    ensures LowerBound(a[0], a)
  {
    forall j | 0 <= j < |a|
      ensures LexLe(a[0], a[j])
    {
      if j == 0 {
        LexLeReflexive(a[0]);
      }
    }
  }

  /** The tail of a sorted list is sorted, and holds the list's elements but
      its head. */
  lemma SortedTail(a: seq<string>)
    requires Sorted(a) && a != []
    ensures Sorted(a[1..])
    ensures multiset(a[1..]) == multiset(a) - multiset{a[0]}
  {
    assert a == [a[0]] + a[1..];
    assert forall i, j :: 0 <= i < j < |a[1..]| ==> a[1..][i] == a[i + 1] && a[1..][j] == a[j + 1];
  }

  /** There is only one sorted arrangement of a list of paths, so any correct
      sort puts the entries in the order SortPaths gives. */
  lemma {:induction false} SortedUnique(a: seq<string>, b: seq<string>)
    requires Sorted(a) && Sorted(b) && multiset(a) == multiset(b)
    ensures a == b
    decreases |a|
  {
    assert |a| == |multiset(a)| == |multiset(b)| == |b|;
    if a != [] {
      SortedHead(a);
      SortedHead(b);
      assert a[0] in multiset(b) && b[0] in multiset(a);
      assert LexLe(b[0], a[0]) by {
        var i :| 0 <= i < |b| && b[i] == a[0];
        assert LexLe(b[0], b[i]);
      }
      assert LexLe(a[0], b[0]) by {
        var j :| 0 <= j < |a| && a[j] == b[0];
        assert LexLe(a[0], a[j]);
      }
      LexLeAntisymmetric(a[0], b[0]);
      SortedTail(a);
      SortedTail(b);
      SortedUnique(a[1..], b[1..]);
      assert a == [a[0]] + a[1..] && b == [b[0]] + b[1..];
    }
  }

  /** Two strings that agree up to index `k` and differ there are ordered by
      their characters at `k`. */
  lemma {:induction false} LexLeAt(a: string, b: string, k: nat)
    requires k < |a| && k < |b| && a[..k] == b[..k] && a[k] < b[k]
    ensures LexLe(a, b)
    decreases k
  {
    if k > 0 {
      assert a[0] == a[..k][0] && b[0] == b[..k][0];
      assert a[1..][..k - 1] == a[..k][1..] && b[1..][..k - 1] == b[..k][1..];
      LexLeAt(a[1..], b[1..], k - 1);
    }
  }

  /** Fixed-width ordering prefixes sort the posts in prefix order. */
  lemma SortExample()
    ensures SortPaths(["002-b.md", "001-a.md", "010-c.md"]) == ["001-a.md", "002-b.md", "010-c.md"]
  {
    var t := ["001-a.md", "002-b.md", "010-c.md"];
    LexLeAt(t[0], t[1], 2);
    LexLeAt(t[1], t[2], 1);
    LexLeAt(t[0], t[2], 1);
    assert Sorted(t);
    var input := ["002-b.md", "001-a.md", "010-c.md"];
    assert multiset(input) == multiset(t);
    SortedUnique(SortPaths(input), t);
  }

  // ---------------------------------------------------------------------------
  // Slugs: split("/").at(-1)?.replace(/^\d{3}-|\.md$/g, "")
  // ---------------------------------------------------------------------------

  /** `entry.split("/").at(-1)`. The split always has a last piece, so the
      optional chain that follows never sees `undefined`. The piece is the part
      of the path after its last slash. */
  function FileName(entry: string): (r: string)
    ensures '/' !in r
    ensures EndsWith(entry, r)
    ensures |r| == |entry| || entry[|entry| - |r| - 1] == '/'
  {
    var parts := Split(entry, '/');
    SplitLast(entry, '/');
    parts[|parts| - 1]
  }

  /** `\d{3}-` matches at the start of `s`: exactly three ASCII digits and a dash. */
  predicate OrderPrefixAt(s: string) {
    |s| >= 4 && IsDigit(s[0]) && IsDigit(s[1]) && IsDigit(s[2]) && s[3] == '-'
  }

  /** `\.md$` matches at index `i` of `s`: the last three characters are `.md`. */
  predicate MdAt(s: string, i: int) {
    0 <= i && i + 3 == |s| && s[i] == '.' && s[i + 1] == 'm' && s[i + 2] == 'd'
  }

  /** The global replace scan from position `i`: at each position the first
      alternative `^\d{3}-` is tried (it can only match at the start), then
      `\.md$` (it can only match the last three characters); a match is dropped
      and the scan resumes after it, any other character is kept. */
  function ReplaceFrom(s: string, i: nat): string
    requires i <= |s|
    decreases |s| - i
  {
    if i == 0 && OrderPrefixAt(s) then ReplaceFrom(s, 4)
    else if MdAt(s, i) then ""
    else if i == |s| then ""
    else [s[i]] + ReplaceFrom(s, i + 1)
  }

  /** `name.replace(/^\d{3}-|\.md$/g, "")`. */
  function StripSlug(name: string): string {
    ReplaceFrom(name, 0)
  }

  /** Drop a leading ordering prefix, once. */
  function StripOrderPrefix(name: string): string {
    if OrderPrefixAt(name) then name[4..] else name
  }

  /** Drop a trailing `.md`, once. */
  function StripMd(t: string): string {
    if MdAt(t, |t| - 3) then t[..|t| - 3] else t
  }

  /** Putting a character in front of a string that is not `.md` itself
      commutes with dropping its trailing `.md`. */
  lemma StripMdCons(c: char, t: string)
    requires !MdAt([c] + t, 0)
    ensures StripMd([c] + t) == [c] + StripMd(t)
  {
    var u := [c] + t;
    assert MdAt(u, |u| - 3) <==> MdAt(t, |t| - 3);
    if MdAt(t, |t| - 3) {
      assert u[..|u| - 3] == [c] + t[..|t| - 3];
    }
  }

  /** Away from the start, the scan keeps everything but a final `.md`. */
  lemma {:induction false} ReplaceFromTail(s: string, i: nat)
    requires i <= |s| && !(i == 0 && OrderPrefixAt(s))
    ensures ReplaceFrom(s, i) == StripMd(s[i..])
    decreases |s| - i
  {
    var t := s[i..];
    assert MdAt(s, i) <==> MdAt(t, 0);
    if MdAt(s, i) {
      assert t[..|t| - 3] == [];
    } else if i < |s| {
      ReplaceFromTail(s, i + 1);
      assert t == [s[i]] + s[i + 1..];
      StripMdCons(s[i], s[i + 1..]);
    }
  }

  /** The replace removes a leading ordering prefix at most once, at the start
      only, and a trailing `.md` at most once, at the end only. The two never
      overlap: the prefix is digits and a dash, and `.md` has neither. */
  lemma StripSlugSpec(name: string)
    ensures StripSlug(name) == StripMd(StripOrderPrefix(name))
  {
    if OrderPrefixAt(name) {
      ReplaceFromTail(name, 4);
      assert name[4..] == StripOrderPrefix(name);
    } else {
      ReplaceFromTail(name, 0);
    }
  }

  /** A three-digit prefix and the extension are removed. */
  lemma OrderPrefixExample()
    ensures StripSlug("003-hi.md") == "hi"
  {
    var name := "003-hi.md";
    StripSlugSpec(name);
    assert OrderPrefixAt(name);
    assert name[4..] == "hi.md";
    assert "hi.md"[..2] == "hi";
  }

  /** Only a prefix of exactly three digits and a dash is an ordering prefix:
      two digits are kept. */
  lemma ShortPrefixKept()
    ensures StripSlug("42-a.md") == "42-a"
  {
    var name := "42-a.md";
    StripSlugSpec(name);
    assert !OrderPrefixAt(name);
    assert name[..4] == "42-a";
  }

  /** Four digits are not an ordering prefix either. */
  lemma LongPrefixKept()
    ensures StripSlug("1234-a.md") == "1234-a"
  {
    var name := "1234-a.md";
    StripSlugSpec(name);
    assert name[3] != '-';
    assert name[..6] == "1234-a";
  }

  /** Only one `.md`, at the very end, goes. */
  lemma MdSuffixExample()
    ensures StripSlug("a.md.md") == "a.md"
  {
    var name := "a.md.md";
    StripSlugSpec(name);
    assert !IsDigit(name[0]);
    assert name[..4] == "a.md";
  }

  /** A name without prefix or extension is its own slug. */
  lemma PlainNameKept()
    ensures StripSlug("readme") == "readme"
  {
    var name := "readme";
    StripSlugSpec(name);
    assert !IsDigit(name[0]);
    assert !MdAt(name, 3);
  }

  /** The slug of a glob entry: the replace applied to its file name. */
  function SlugOf(entry: string): (r: string)
    ensures r == StripMd(StripOrderPrefix(FileName(entry)))
    ensures '/' !in r
  {
    var f := FileName(entry);
    StripSlugSpec(f);
    var t := StripOrderPrefix(f);
    assert forall i :: 0 <= i < |t| ==> t[i] in f;
    assert forall i :: 0 <= i < |StripMd(t)| ==> StripMd(t)[i] == t[i];
    StripSlug(f)
  }

  /** The file name of a path is what follows its last slash. */
  lemma FileNameOf(dir: string, name: string)
    requires '/' !in name
    ensures FileName(dir + "/" + name) == name
  {
    var e := dir + "/" + name;
    var r := FileName(e);
    assert e[|dir|] == '/';
    assert e[|dir| + 1..] == name;
    assert forall k :: |dir| < k < |e| ==> e[k] == name[k - |dir| - 1];
    assert forall j :: 0 <= j <= |dir| ==> '/' in e[j..] by {
      forall j | 0 <= j <= |dir|
        ensures '/' in e[j..]
      {
        assert e[j..][|dir| - j] == '/';
      }
    }
    assert r == e[|e| - |r|..];
    assert |r| <= |name|;
    assert e[|e| - |r|..] == name[|name| - |r|..];
    assert |r| >= |name|;
  }

  /** A glob entry's slug, from its full relative path. */
  lemma SlugOfExample()
    ensures SlugOf("../../../posts/003-hi.md") == "hi"
  {
    FileNameOf("../../../posts", "003-hi.md");
    assert "../../../posts" + "/" + "003-hi.md" == "../../../posts/003-hi.md";
    OrderPrefixExample();
  }

  // ---------------------------------------------------------------------------
  // load
  // ---------------------------------------------------------------------------

  /** One element of the page's `posts`. */
  datatype Summary = Summary(slug: string, frontmatter: Frontmatter)

  /** The index of the first entry whose load throws, or the number of
      entries when none does. */
  function FirstFailure(entries: seq<string>, load: string -> Outcome<Post>): (i: nat)
    ensures i <= |entries|
    ensures forall j :: 0 <= j < i ==> load(entries[j]).Return?
    ensures i < |entries| ==> load(entries[i]).Throw?
  {
    if entries == [] || load(entries[0]).Throw? then 0
    else 1 + FirstFailure(entries[1..], load)
  }

  /** The `map` over the entries, in their given order: one summary per entry,
      pairing its slug with the frontmatter loaded from that same entry. If an
      entry's load throws, the whole load throws the exception of the first
      such entry. */
  function LoadEach(entries: seq<string>, load: string -> Outcome<Post>): (r: Outcome<seq<Summary>>)
    ensures r.Return? <==> FirstFailure(entries, load) == |entries|
    ensures r.Return? ==> |r.value| == |entries|
    ensures r.Return? ==> forall i :: 0 <= i < |entries| ==>
              r.value[i] == Summary(SlugOf(entries[i]), load(entries[i]).value.frontmatter)
    ensures r.Throw? ==>
              var i := FirstFailure(entries, load);
              i < |entries| && load(entries[i]) == Throw(r.exception)
  {
    if entries == [] then Return([])
    else if load(entries[0]).Throw? then Throw(load(entries[0]).exception)
    else
      var rest := LoadEach(entries[1..], load);
      if rest.Throw? then
        Throw(rest.exception)
      else
        Return([Summary(SlugOf(entries[0]), load(entries[0]).value.frontmatter)] + rest.value)
  }

  /** `loadPost` on one entry, given the file contents and the YAML parser. */
  function LoadEntry(entry: string, read: string -> string, yaml: string -> Outcome<Yaml>): Outcome<Post> {
    LoadPost(read(entry), yaml)
  }

  /** `summaries` has one element per entry, in the entries' order, each
      pairing the entry's slug with the frontmatter loaded from that entry. */
  ghost predicate SummarisesInOrder(summaries: seq<Summary>, entries: seq<string>,
                                    read: string -> string, yaml: string -> Outcome<Yaml>)
  {
    |summaries| == |entries|
    && forall i :: 0 <= i < |entries| ==>
         LoadEntry(entries[i], read, yaml).Return?
         && summaries[i] == Summary(SlugOf(entries[i]), LoadEntry(entries[i], read, yaml).value.frontmatter)
  }

  /** No entry fails to load exactly when every entry loads. */
  lemma {:induction false} FirstFailureAll(entries: seq<string>, load: string -> Outcome<Post>)
    ensures FirstFailure(entries, load) == |entries| <==> forall e :: e in entries ==> load(e).Return?
  {
    var i := FirstFailure(entries, load);
    if i < |entries| {
      assert entries[i] in entries;
    } else {
      forall e | e in entries ensures load(e).Return? {
        var k :| 0 <= k < |entries| && entries[k] == e;
      }
    }
  }

  /** Sorting neither adds nor drops an entry. */
  lemma SortedSameEntries(entries: seq<string>)
    ensures |SortPaths(entries)| == |entries|
    ensures forall e :: e in entries <==> e in SortPaths(entries)
  {
    var sorted := SortPaths(entries);
    forall e ensures e in entries <==> e in sorted {
      assert e in entries <==> e in multiset(entries);
      assert e in sorted <==> e in multiset(sorted);
    }
    assert |sorted| == |multiset(sorted)| == |entries|;
  }

  /** `load()`: the entries sorted by path, then loaded in that order. Nothing
      is dropped: there is no draft filter. */
  function Load(entries: seq<string>, read: string -> string, yaml: string -> Outcome<Yaml>)
    : (r: Outcome<seq<Summary>>)
    ensures r.Return? <==> forall e :: e in entries ==> LoadEntry(e, read, yaml).Return?
    ensures r.Return? ==> |r.value| == |entries|
    ensures r.Return? ==> SummarisesInOrder(r.value, SortPaths(entries), read, yaml)
    ensures r.Throw? ==> exists e :: e in entries && LoadEntry(e, read, yaml) == Throw(r.exception)
  {
    var sorted := SortPaths(entries);
    var load := e => LoadEntry(e, read, yaml);
    SortedSameEntries(entries);
    FirstFailureAll(sorted, load);
    var r := LoadEach(sorted, load);
    if r.Throw? then
      var i := FirstFailure(sorted, load);
      assert sorted[i] in entries;
      r
    else
      r
  }
}
