/** The offline-manifest builder of `build-sw.js`: which entries of the `build`
    and `build/_app` directory listings become the worker's app-shell and
    static-file lists, and how the first line of the worker source is dropped
    before the generated declarations are put in its place.

    The directory listings and the source text are inputs; reading and writing
    the files, the timestamp and the JSON text of the lists are not modelled. */
module BuildSw {
  import opened JsCore
  import opened JsString

  /** `s.filter(keep)`: the elements that pass, in their original order. */
  function Filter(keep: string -> bool, s: seq<string>): (r: seq<string>)
    ensures |r| <= |s|
    ensures forall x :: x in r <==> x in s && keep(x)
  {
    if s == [] then []
    else (if keep(s[0]) then [s[0]] else []) + Filter(keep, s[1..])
  }

  /** Filtering a concatenation filters each part and keeps them in order: the
      filter never reorders what it keeps. */
  lemma {:induction false} FilterAppend(keep: string -> bool, a: seq<string>, b: seq<string>)
    ensures Filter(keep, a + b) == Filter(keep, a) + Filter(keep, b)
  {
    if a != [] {
      assert (a + b)[0] == a[0];
      assert (a + b)[1..] == a[1..] + b;
      FilterAppend(keep, a[1..], b);
    } else {
      assert a + b == b;
    }
  }

  /** `s.map(d => prefix + d)`. */
  function Prefixed(prefix: string, s: seq<string>): (r: seq<string>)
    ensures |r| == |s|
    ensures forall i :: 0 <= i < |s| ==> r[i] == prefix + s[i]
  {
    seq(|s|, i requires 0 <= i < |s| => prefix + s[i])
  }

  lemma PrefixedAppend(prefix: string, a: seq<string>, b: seq<string>)
    ensures Prefixed(prefix, a + b) == Prefixed(prefix, a) + Prefixed(prefix, b)
  {
  }

  /** `listing.filter(keep).map(d => prefix + d)`: the prefixed names of the
      kept entries, in listing order. */
  function KeptPaths(keep: string -> bool, prefix: string, listing: seq<string>): (r: seq<string>)
    ensures |r| <= |listing|
    ensures forall x :: x in r <==> exists d :: d in listing && keep(d) && x == prefix + d
  {
    var kept := Filter(keep, listing);
    var r := Prefixed(prefix, kept);
    forall x ensures x in r <==> exists d :: d in listing && keep(d) && x == prefix + d {
      if x in r {
        var i :| 0 <= i < |kept| && r[i] == x;
        assert kept[i] in kept;
      }
      if exists d :: d in listing && keep(d) && x == prefix + d {
        var d :| d in listing && keep(d) && x == prefix + d;
        var i :| 0 <= i < |kept| && kept[i] == d;
        assert r[i] == x;
      }
    }
    r
  }

  /** Listing more entries only adds to the end: the kept paths follow the
      listing order. */
  lemma KeptPathsAppend(keep: string -> bool, prefix: string, a: seq<string>, b: seq<string>)
    ensures KeptPaths(keep, prefix, a + b) == KeptPaths(keep, prefix, a) + KeptPaths(keep, prefix, b)
  {
    FilterAppend(keep, a, b);
    PrefixedAppend(prefix, Filter(keep, a), Filter(keep, b));
  }

  /** A `build` entry belongs to the app shell unless it is a dotfile or the
      `_app` directory itself. */
  predicate KeepShell(d: string) {
    !(StartsWith(d, ".") || d == "_app")
  }

  /** A `build/_app` entry is a static file unless it is a source map. */
  predicate KeepAppFile(d: string) {
    !EndsWith(d, ".map")
  }

  /** The emitted shell list `['/', ...shell]`: the root, then `/` before each
      kept `build` entry, in listing order. */
  function Shell(build: seq<string>): (r: seq<string>)
    ensures 1 <= |r| <= |build| + 1 && r[0] == "/"
    ensures forall x :: x in r[1..] <==> exists d :: d in build && KeepShell(d) && x == "/" + d
  {
    var r := ["/"] + KeptPaths(KeepShell, "/", build);
    assert r[1..] == KeptPaths(KeepShell, "/", build);
    r
  }

  /** The emitted files list: `/_app/` before each `build/_app` entry that is
      not a source map, in listing order. */
  function Files(app: seq<string>): (r: seq<string>)
    ensures |r| <= |app|
    ensures forall x :: x in r <==> exists d :: d in app && KeepAppFile(d) && x == "/_app/" + d
  {
    KeptPaths(KeepAppFile, "/_app/", app)
  }

  /** The shell list keeps the listing order: the entries of a longer listing
      come after the root and the entries of its first part. */
  lemma ShellAppend(a: seq<string>, b: seq<string>)
    ensures Shell(a + b) == Shell(a) + Shell(b)[1..]
  {
    KeptPathsAppend(KeepShell, "/", a, b);
  }

  /** The files list keeps the listing order. */
  lemma FilesAppend(a: seq<string>, b: seq<string>)
    ensures Files(a + b) == Files(a) + Files(b)
  {
    KeptPathsAppend(KeepAppFile, "/_app/", a, b);
  }

  /** Two shell entries come out in the order they are listed. */
  lemma ShellOrderExample()
    ensures Shell(["a", "b"]) == ["/", "/a", "/b"]
  {
    ShellAppend(["a"], ["b"]);
    assert ["a"] + ["b"] == ["a", "b"];
    assert "a"[..1][0] != "."[0] && "b"[..1][0] != "."[0];
    ShellOne("a");
    ShellOne("b");
    assert "/" + "a" == "/a" && "/" + "b" == "/b";
    assert Shell(["b"])[1..] == ["/b"];
    assert ["/", "/a"] + ["/b"] == ["/", "/a", "/b"];
  }

  lemma ShellOne(d: string)
    requires KeepShell(d)
    ensures Shell([d]) == ["/", "/" + d]
  {
    FilterCons(KeepShell, d, []);
    assert [d] == [d] + [];
    assert Filter(KeepShell, [d]) == [d];
  }

  /** `data.split('\n').slice(1).join('\n')`: everything after the first line
      feed; a text without one becomes empty. */
  function DropFirstLine(data: string): (r: string)
    ensures '\n' !in data ==> r == ""
    ensures '\n' in data ==>
              exists first :: '\n' !in first && data == first + "\n" + r
  {
    var parts := Split(data, '\n');
    var r := Join(parts[1..], '\n');
    match IndexOf(data, '\n')
    case None => r
    case Some(k) =>
      assert parts[1..] == Split(data[k + 1..], '\n');
      JoinSplit(data[k + 1..], '\n');
      assert data == data[..k] + "\n" + r;
      r
  }

  lemma FilterCons(keep: string -> bool, x: string, s: seq<string>)
    ensures Filter(keep, [x] + s) == (if keep(x) then [x] else []) + Filter(keep, s)
  {
    assert ([x] + s)[1..] == s;
  }

  /** Which entries of a typical `build` listing the shell keeps: dotfiles and
      the `_app` directory are dropped, a name that merely starts with `_app`
      is kept. */
  lemma KeepShellExamples()
    ensures KeepShell("_apple.txt") && KeepShell("favicon.png")
    ensures !KeepShell(".nojekyll") && !KeepShell("_app")
  {
    assert "_apple.txt"[..1] == ['_'];
    assert "favicon.png"[..1] == ['f'];
  }

  /** A source map is dropped from the static files; the rest is prefixed. */
  lemma FilesExample()
    ensures Files(["a.js", "a.js.map"]) == ["/_app/a.js"]
  {
    var app := ["a.js", "a.js.map"];
    assert "a.js.map"[4..] == ".map";
    assert "a.js"[0..] != ".map";
    FilterCons(KeepAppFile, "a.js.map", []);
    FilterCons(KeepAppFile, "a.js", ["a.js.map"]);
    assert app == ["a.js"] + ["a.js.map"];
    assert Filter(KeepAppFile, app) == ["a.js"];
    var r := Prefixed("/_app/", ["a.js"]);
    assert r[0] == "/_app/a.js";
  }

  /** The generated worker loses exactly its first line. */
  lemma DropFirstLineExample()
    ensures DropFirstLine("a\nb") == "b"
  {
    var data := "a\nb";
    IndexOfIs(data, '\n', 1);
    assert data[..1] == "a" && data[2..] == "b";
    assert Split("b", '\n') == ["b"];
    assert Split(data, '\n') == ["a", "b"];
    assert Split(data, '\n')[1..] == ["b"];
  }
}
