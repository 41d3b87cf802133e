/**
 The generated-client boundary: whether a relative import, resolved from the importing file, lands
 inside the guarded directory. The rule compares path strings; what is meant is path segments.
 */
module GuardedPath {
  import opened Text

  type Path = seq<string>

  // ----- POSIX path resolution

  /** One step of walking a path: empty and `.` stay, `..` goes up as long as there is an up. */
  function Enter(at: Path, segment: string): Path {
    if segment == "" || segment == "." then at
    else if segment == ".." then if at == [] then [] else at[..|at| - 1]
    else at + [segment]
  }

  function Walk(at: Path, segments: seq<string>): Path
    decreases segments
  {
    if segments == [] then at else Walk(Enter(at, segments[0]), segments[1..])
  }

  /** `path.resolve(base, path)`, as segments below the root. */
  function Resolve(base: Path, path: string): Path {
    Walk(if path != "" && path[0] == '/' then [] else base, Split(path, '/'))
  }

  function Directory(file: Path): Path {
    if file == [] then [] else file[..|file| - 1]
  }

  /** The path as a string. */
  function Render(path: Path): string {
    "/" + Join(path, "/")
  }

  // ----- what the rule computes

  predicate StartsWith(s: string, prefix: string) {
    prefix <= s
  }

  predicate ResolvesIntoGuarded(fromDir: Path, guarded: Path, source: string) {
    && StartsWith(source, ".")
    && var resolved := Render(Resolve(fromDir, source));
       resolved == Render(guarded) || StartsWith(resolved, Render(guarded) + "/")
  }

  /** The rule for one import of one file, which does nothing without a configured directory. */
  predicate Restricted(cwd: Path, dir: string, filename: string, source: string) {
    dir != "" && ResolvesIntoGuarded(Directory(Resolve(cwd, filename)), Resolve(cwd, dir), source)
  }

  // ----- segments are what is compared

  predicate Plain(path: Path) {
    forall segment <- path :: segment != "" && Without(segment, '/')
  }

  lemma {:induction false} WalkPlain(at: Path, segments: seq<string>)
    requires Plain(at) && forall segment <- segments :: Without(segment, '/')
    ensures Plain(Walk(at, segments))
    decreases segments
  {
    if segments != [] {
      WalkPlain(Enter(at, segments[0]), segments[1..]);
    }
  }

  lemma ResolvePlain(base: Path, path: string)
    requires Plain(base)
    ensures Plain(Resolve(base, path))
  {
    SplitParts(path, '/');
    WalkPlain(if path != "" && path[0] == '/' then [] else base, Split(path, '/'));
  }

  lemma DirectoryPlain(file: Path)
    requires Plain(file)
    ensures Plain(Directory(file))
  {
    forall segment | segment in Directory(file)
      ensures segment != "" && Without(segment, '/')
    {
      assert segment in file;
    }
  }

  /** Splitting a rendered path gives its segments back, behind the empty text before the root. */
  lemma SplitRendered(path: Path)
    requires Plain(path) && path != []
    ensures Split(Render(path), '/') == [""] + path
  {
    assert ([""] + path)[1..] == path;
    assert Render(path) == Join([""] + path, "/");
    SplitJoin([""] + path, '/');
  }

  lemma RootRendered(path: Path)
    requires Plain(path)
    ensures Render([]) == "/"
    ensures path != [] ==> |Render(path)| >= 2 && Render(path)[1] != '/'
  {
    if path != [] {
      assert path[0] in path && Render(path)[1] == path[0][0];
    }
  }

  lemma RenderInjective(g: Path, r: Path)
    requires Plain(g) && Plain(r)
    ensures Render(g) == Render(r) <==> g == r
  {
    RootRendered(g);
    RootRendered(r);
    if g != [] && r != [] {
      SplitRendered(g);
      SplitRendered(r);
      assert g == ([""] + g)[1..] && r == ([""] + r)[1..];
    }
  }

  lemma ConsPrefix(first: string, g: Path, r: Path)
    ensures [first] + g < [first] + r <==> g < r
  {
    var fg, fr := [first] + g, [first] + r;
    assert g == fg[1..] && r == fr[1..];
    if fg < fr {
      assert fg == fr[..|fg|];
      assert g == fr[..|fg|][1..] == r[..|g|];
    }
  }

  lemma RenderPrefix(g: Path, r: Path)
    requires Plain(g) && Plain(r)
    ensures StartsWith(Render(r), Render(g) + "/") <==> g < r && g != []
  {
    RootRendered(g);
    RootRendered(r);
    if g != [] && r != [] {
      SplitRendered(g);
      SplitRendered(r);
      SplitPrefix(Render(g), '/', Render(r));
      ConsPrefix("", g, r);
    } else if g == [] {
      assert (Render(g) + "/")[1] == '/';
    } else {
      assert |Render(g) + "/"| > |Render(r)|;
    }
  }

  /**
   The string test says yes exactly when the source is relative and the guarded segments begin the
   resolved ones, with one exception: a guarded root accepts nothing but the root itself.
   */
  lemma StringTestIsSegmentTest(fromDir: Path, guarded: Path, source: string)
    requires Plain(fromDir) && Plain(guarded)
    ensures ResolvesIntoGuarded(fromDir, guarded, source)
       <==> (var resolved := Resolve(fromDir, source);
             && StartsWith(source, ".")
             && guarded <= resolved
             && (guarded == [] ==> resolved == []))
  {
    ResolvePlain(fromDir, source);
    RenderInjective(Resolve(fromDir, source), guarded);
    RenderPrefix(guarded, Resolve(fromDir, source));
  }

  /** The string test is the segment test for every import exactly when the guarded directory is not the root. */
  lemma SegmentTestIffNotRoot(guarded: Path)
    requires Plain(guarded)
    ensures guarded != []
       <==> forall fromDir: Path, source: string :: Plain(fromDir) ==>
              (ResolvesIntoGuarded(fromDir, guarded, source)
               <==> StartsWith(source, ".") && guarded <= Resolve(fromDir, source))
  {
    forall fromDir: Path, source: string | Plain(fromDir) && guarded != []
      ensures ResolvesIntoGuarded(fromDir, guarded, source)
         <==> StartsWith(source, ".") && guarded <= Resolve(fromDir, source)
    {
      StringTestIsSegmentTest(fromDir, guarded, source);
    }
    if guarded == [] {
      var fromDir: Path := ["src"];
      StringTestIsSegmentTest(fromDir, guarded, ".");
      SplitWithout(".", '/');
      assert ["."][1..] == [];
      assert Walk(fromDir, ["."]) == Walk(fromDir, []);
      assert Resolve(fromDir, ".") == fromDir;
    }
  }

  /**
   The whole rule, from the working directory, the option, the file and the specifier: an import is
   reported exactly when a directory is configured, the specifier is relative, and the configured
   segments begin the resolved ones, where the root begins only itself.
   */
  lemma RestrictedIffInside(cwd: Path, dir: string, filename: string, source: string)
    requires Plain(cwd)
    ensures Restricted(cwd, dir, filename, source)
       <==> (var guarded := Resolve(cwd, dir);
             var resolved := Resolve(Directory(Resolve(cwd, filename)), source);
             && dir != "" && StartsWith(source, ".")
             && guarded <= resolved && (guarded == [] ==> resolved == []))
  {
    ResolvePlain(cwd, dir);
    ResolvePlain(cwd, filename);
    DirectoryPlain(Resolve(cwd, filename));
    StringTestIsSegmentTest(Directory(Resolve(cwd, filename)), Resolve(cwd, dir), source);
  }

  /** A sibling whose name merely begins with the guarded name is never inside. */
  lemma SiblingIsOutside(fromDir: Path, parent: Path, name: string, more: string, below: Path, source: string)
    requires Plain(fromDir) && Plain(parent + [name]) && more != ""
    requires Resolve(fromDir, source) == parent + [name + more] + below
    ensures !ResolvesIntoGuarded(fromDir, parent + [name], source)
  {
    var guarded, resolved := parent + [name], Resolve(fromDir, source);
    StringTestIsSegmentTest(fromDir, guarded, source);
    assert resolved[|parent|] == name + more && guarded[|parent|] == name;
    assert |name + more| != |name|;
  }

  // ----- spellings

  lemma {:induction false} WalkAppend(at: Path, a: seq<string>, b: seq<string>)
    ensures Walk(at, a + b) == Walk(Walk(at, a), b)
    decreases a
  {
    if a == [] {
      assert a + b == b;
    } else {
      assert (a + b)[1..] == a[1..] + b;
      WalkAppend(Enter(at, a[0]), a[1..], b);
    }
  }

  predicate IsName(segment: string) {
    segment != "" && segment != "." && segment != ".." && Without(segment, '/')
  }

  /** One more segment on a relative path: a name is cancelled by the `..` after it. */
  function Reduce(path: seq<string>, segment: string): seq<string> {
    if segment == "" || segment == "." then path
    else if segment == ".." && path != [] && path[|path| - 1] != ".." then path[..|path| - 1]
    else path + [segment]
  }

  /** The shortest spelling of a relative path: so many times up, then down along names. */
  function Normal(segments: seq<string>): seq<string> {
    if segments == [] then []
    else Reduce(Normal(segments[..|segments| - 1]), segments[|segments| - 1])
  }

  lemma WalkSnoc(at: Path, segments: seq<string>, last: string)
    ensures Walk(at, segments + [last]) == Enter(Walk(at, segments), last)
  {
    WalkAppend(at, segments, [last]);
    assert [last][1..] == [];
    assert Walk(Walk(at, segments), [last]) == Walk(Enter(Walk(at, segments), last), []);
  }

  predicate Proper(path: seq<string>) {
    forall i :: 0 <= i < |path| ==> path[i] != "" && path[i] != "."
  }

  lemma {:induction false} NormalIsProper(segments: seq<string>)
    ensures Proper(Normal(segments))
  {
    if segments != [] {
      NormalIsProper(segments[..|segments| - 1]);
    }
  }

  lemma ReduceWalks(at: Path, path: seq<string>, segment: string)
    requires Proper(path)
    ensures Walk(at, Reduce(path, segment)) == Enter(Walk(at, path), segment)
  {
    if segment == ".." && path != [] && path[|path| - 1] != ".." {
      var before, last := path[..|path| - 1], path[|path| - 1];
      assert path == before + [last];
      WalkSnoc(at, before, last);
      assert (Walk(at, before) + [last])[..|Walk(at, before)|] == Walk(at, before);
    } else if segment != "" && segment != "." {
      WalkSnoc(at, path, segment);
    }
  }

  /** A spelling and its normal form lead to the same place from everywhere. */
  lemma {:induction false} NormalWalks(at: Path, segments: seq<string>)
    ensures Walk(at, Normal(segments)) == Walk(at, segments)
  {
    if segments != [] {
      var before, last := segments[..|segments| - 1], segments[|segments| - 1];
      NormalWalks(at, before);
      NormalIsProper(before);
      ReduceWalks(at, Normal(before), last);
      assert segments == before + [last];
      WalkSnoc(at, before, last);
    }
  }

  /** Two relative specifiers spell one path. */
  predicate SameSpelling(a: string, b: string) {
    StartsWith(a, ".") && StartsWith(b, ".") && Normal(Split(a, '/')) == Normal(Split(b, '/'))
  }

  /** Different relative spellings of one path are decided alike, for every file and directory. */
  lemma SpellingsAgree(fromDir: Path, guarded: Path, a: string, b: string)
    requires SameSpelling(a, b)
    ensures ResolvesIntoGuarded(fromDir, guarded, a) == ResolvesIntoGuarded(fromDir, guarded, b)
    ensures Resolve(fromDir, a) == Resolve(fromDir, b)
  {
    NormalWalks(fromDir, Split(a, '/'));
    NormalWalks(fromDir, Split(b, '/'));
    assert a[0] == b[0] == '.';
  }

  // ----- the normal form is the only one

  function Ups(k: nat): seq<string> {
    if k == 0 then [] else Ups(k - 1) + [".."]
  }

  predicate Names(path: seq<string>) {
    forall i :: 0 <= i < |path| ==> path[i] != "" && path[i] != "." && path[i] != ".."
  }

  /** So many times up, then names. */
  ghost predicate IsNormal(path: seq<string>, ups: nat, names: seq<string>) {
    path == Ups(ups) + names && Names(names)
  }

  lemma ReduceShape(path: seq<string>, ups: nat, names: seq<string>, segment: string)
    returns (ups': nat, names': seq<string>)
    requires IsNormal(path, ups, names)
    ensures IsNormal(Reduce(path, segment), ups', names')
  {
    ups', names' := ups, names;
    if segment == ".." {
      if names != [] {
        assert path[|path| - 1] == names[|names| - 1];
        names' := names[..|names| - 1];
        assert path[..|path| - 1] == Ups(ups) + names';
      } else {
        assert path == Ups(ups);
        assert path != [] ==> path[|path| - 1] == "..";
        ups' := ups + 1;
        assert Ups(ups) + [".."] == Ups(ups + 1) + [];
      }
    } else if segment != "" && segment != "." {
      names' := names + [segment];
      assert path + [segment] == Ups(ups) + names';
    }
  }

  lemma {:induction false} NormalShape(segments: seq<string>) returns (ups: nat, names: seq<string>)
    ensures IsNormal(Normal(segments), ups, names)
  {
    ups, names := 0, [];
    if segments != [] {
      ups, names := NormalShape(segments[..|segments| - 1]);
      ups, names := ReduceShape(Normal(segments[..|segments| - 1]), ups, names, segments[|segments| - 1]);
    }
  }

  lemma {:induction false} WalkNames(at: Path, names: seq<string>)
    requires Names(names)
    ensures Walk(at, names) == at + names
    decreases names
  {
    if names != [] {
      WalkNames(at + [names[0]], names[1..]);
      assert at + [names[0]] + names[1..] == at + names;
    }
  }

  lemma {:induction false} WalkUps(at: Path, k: nat)
    requires k <= |at|
    ensures Walk(at, Ups(k)) == at[..|at| - k]
  {
    if k > 0 {
      WalkUps(at, k - 1);
      WalkSnoc(at, Ups(k - 1), "..");
    }
  }

  /** A directory deep enough, under a name that none of the given ones is. */
  function Deep(k: nat, name: string): (path: Path)
    ensures |path| == k && forall i :: 0 <= i < k ==> path[i] == name
  {
    if k == 0 then [] else Deep(k - 1, name) + [name]
  }

  function Longer(names: seq<string>): (name: string)
    ensures name != "" && Without(name, '/') && name !in names
    ensures forall other <- names :: |other| < |name|
  {
    if names == [] then "a"
    else
      var rest := Longer(names[1..]);
      if |names[0]| < |rest| then rest else seq(|names[0]| + 1, _ => 'a')
  }

  lemma WalkNormal(at: Path, ups: nat, names: seq<string>)
    requires Names(names) && ups <= |at|
    ensures Walk(at, Ups(ups) + names) == at[..|at| - ups] + names
  {
    WalkAppend(at, Ups(ups), names);
    WalkUps(at, ups);
    WalkNames(at[..|at| - ups], names);
  }

  /** From deep enough under an unused name, different normal forms lead to different places. */
  lemma NormalFormsDiffer(ups: nat, names: seq<string>, ups': nat, names': seq<string>)
    requires Names(names) && Names(names') && ups <= ups'
    requires Ups(ups) + names != Ups(ups') + names'
    ensures var at := Deep(ups', Longer(names + names'));
            Walk(at, Ups(ups) + names) != Walk(at, Ups(ups') + names')
  {
    var unused := Longer(names + names');
    var at := Deep(ups', unused);
    WalkNormal(at, ups, names);
    WalkNormal(at, ups', names');
    assert at[..0] == [] && [] + names' == names';
    if ups < ups' {
      assert (at[..ups' - ups] + names)[0] == unused;
      assert names' != [] ==> names'[0] in names + names';
    } else {
      assert at[..0] + names == names;
    }
  }

  /**
   The normal form is exact: two relative specifiers have the same normal form exactly when they
   resolve alike from every directory.
   */
  lemma SameSpellingIff(a: string, b: string)
    requires StartsWith(a, ".") && StartsWith(b, ".")
    ensures SameSpelling(a, b) <==> forall fromDir: Path :: Resolve(fromDir, a) == Resolve(fromDir, b)
  {
    assert a[0] == b[0] == '.';
    var x, y := Split(a, '/'), Split(b, '/');
    if SameSpelling(a, b) {
      forall fromDir: Path
        ensures Resolve(fromDir, a) == Resolve(fromDir, b)
      {
        SpellingsAgree(fromDir, [], a, b);
      }
    } else {
      var ups, names := NormalShape(x);
      var ups', names' := NormalShape(y);
      if ups <= ups' {
        NormalFormsDiffer(ups, names, ups', names');
      } else {
        NormalFormsDiffer(ups', names', ups, names);
      }
      var at := if ups <= ups' then Deep(ups', Longer(names + names')) else Deep(ups, Longer(names' + names));
      NormalWalks(at, x);
      NormalWalks(at, y);
      assert Resolve(at, a) != Resolve(at, b);
    }
  }

  // ----- familiar spellings

  lemma {:induction false} NormalAppend(a: seq<string>, b: seq<string>, c: seq<string>)
    requires Normal(a) == Normal(b)
    ensures Normal(a + c) == Normal(b + c)
  {
    if c == [] {
      assert a + c == a && b + c == b;
    } else {
      NormalAppend(a, b, c[..|c| - 1]);
      assert (a + c)[..|a + c| - 1] == a + c[..|c| - 1];
      assert (b + c)[..|b + c| - 1] == b + c[..|c| - 1];
    }
  }

  lemma NormalSnoc(a: seq<string>, segment: string)
    ensures Normal(a + [segment]) == Reduce(Normal(a), segment)
  {
    assert (a + [segment])[..|a|] == a;
  }

  lemma SplitSlash(a: string, b: string)
    ensures Split(a + "/" + b, '/') == Split(a, '/') + Split(b, '/')
  {
    assert a + "/" + b == a + ['/'] + b;
    SplitAt(a, '/', b);
  }

  /** Anything may follow two spellings of one path, or nothing. */
  lemma SameSpellingBefore(a: string, b: string, c: string)
    requires SameSpelling(a, b)
    ensures SameSpelling(a + "/" + c, b + "/" + c)
  {
    SplitSlash(a, c);
    SplitSlash(b, c);
    NormalAppend(Split(a, '/'), Split(b, '/'), Split(c, '/'));
    assert (a + "/" + c)[0] == a[0] && (b + "/" + c)[0] == b[0];
  }

  lemma SnocSpelling(a: string, last: string)
    requires StartsWith(a, ".") && Without(last, '/')
    ensures Normal(Split(a + "/" + last, '/')) == Reduce(Normal(Split(a, '/')), last)
    ensures StartsWith(a + "/" + last, ".")
  {
    SplitSlash(a, last);
    SplitWithout(last, '/');
    NormalSnoc(Split(a, '/'), last);
    assert (a + "/" + last)[0] == a[0];
  }

  /** A trailing slash, a trailing `.`, and a name that is left again make no difference. */
  lemma EndSpellings(a: string, name: string)
    requires StartsWith(a, ".") && IsName(name)
    ensures SameSpelling(a + "/", a)
    ensures SameSpelling(a + "/" + ".", a)
    ensures SameSpelling(a + "/" + name + "/" + "..", a)
  {
    assert a + "/" + "" == a + "/";
    SnocSpelling(a, "");
    SnocSpelling(a, ".");
    SnocSpelling(a, name);
    SnocSpelling(a + "/" + name, "..");
    var x := Normal(Split(a, '/'));
    assert (x + [name])[..|x|] == x;
  }

  /** Nor do they make a difference with more of the specifier behind them. */
  lemma InnerSpellings(fromDir: Path, guarded: Path, a: string, name: string, b: string)
    requires StartsWith(a, ".") && IsName(name)
    ensures var plain := ResolvesIntoGuarded(fromDir, guarded, a + "/" + b);
            && ResolvesIntoGuarded(fromDir, guarded, a + "/" + "/" + b) == plain
            && ResolvesIntoGuarded(fromDir, guarded, a + "/" + "." + "/" + b) == plain
            && ResolvesIntoGuarded(fromDir, guarded, a + "/" + name + "/" + ".." + "/" + b) == plain
  {
    EndSpellings(a, name);
    BeforeAgrees(fromDir, guarded, a + "/", a, b);
    BeforeAgrees(fromDir, guarded, a + "/" + ".", a, b);
    BeforeAgrees(fromDir, guarded, a + "/" + name + "/" + "..", a, b);
  }

  lemma BeforeAgrees(fromDir: Path, guarded: Path, a: string, b: string, c: string)
    requires SameSpelling(a, b)
    ensures ResolvesIntoGuarded(fromDir, guarded, a + "/" + c)
         == ResolvesIntoGuarded(fromDir, guarded, b + "/" + c)
  {
    SameSpellingBefore(a, b, c);
    SpellingsAgree(fromDir, guarded, a + "/" + c, b + "/" + c);
  }

  /** A leading `./` makes no difference to a relative specifier. */
  lemma LeadingDot(a: string)
    requires StartsWith(a, ".")
    ensures SameSpelling("./" + a, a)
  {
    assert "./" + a == "." + "/" + a;
    SplitSlash(".", a);
    SplitWithout(".", '/');
    assert ["."][..0] == [];
    assert Normal(["."]) == Reduce(Normal([]), ".") == Normal([]);
    NormalAppend(["."], [], Split(a, '/'));
    assert [] + Split(a, '/') == Split(a, '/');
  }

  // ----- from which directory

  /** A further segment is walked from where the path before it leads. */
  lemma ResolveBelow(base: Path, d: string, s: string)
    ensures Resolve(base, d + "/" + s) == Walk(Resolve(base, d + "/"), Split(s, '/'))
  {
    SplitSlash(d, s);
    SplitSlash(d, "");
    assert d + "/" + "" == d + "/";
    var start := if (d + "/")[0] == '/' then [] else base;
    WalkAppend(start, Split(d, '/'), Split(s, '/'));
    WalkSnoc(start, Split(d, '/'), "");
  }

  lemma FileInDirectory(cwd: Path, d: string, n: string)
    requires IsName(n)
    ensures Directory(Resolve(cwd, d + "/" + n)) == Resolve(cwd, d + "/")
  {
    ResolveBelow(cwd, d, n);
    SplitWithout(n, '/');
    var at := Resolve(cwd, d + "/");
    assert Walk(at, [n]) == Walk(Enter(at, n), [n][1..]) == at + [n];
  }

  /**
   An import of a file is resolved from the directory the file is in: it is restricted exactly when
   the text of that directory, followed by the specifier, leads inside the configured directory.
   */
  lemma FileImport(cwd: Path, dir: string, d: string, n: string, source: string)
    requires Plain(cwd) && IsName(n)
    ensures Restricted(cwd, dir, d + "/" + n, source)
       <==> (var guarded, resolved := Resolve(cwd, dir), Resolve(cwd, d + "/" + source);
             && dir != "" && StartsWith(source, ".")
             && guarded <= resolved && (guarded == [] ==> resolved == []))
  {
    RestrictedIffInside(cwd, dir, d + "/" + n, source);
    FileInDirectory(cwd, d, n);
    ResolveBelow(cwd, d, source);
    assert StartsWith(source, ".") ==> source[0] == '.';
  }

  /** `./x` is what is called x beside the file. */
  lemma ImportBeside(cwd: Path, dir: string, d: string, n: string, x: string)
    requires Plain(cwd) && IsName(n)
    ensures Restricted(cwd, dir, d + "/" + n, "./" + x)
       <==> (var guarded, resolved := Resolve(cwd, dir), Resolve(cwd, d + "/" + x);
             dir != "" && guarded <= resolved && (guarded == [] ==> resolved == []))
  {
    FileImport(cwd, dir, d, n, "./" + x);
    ResolveBelow(cwd, d, "./" + x);
    ResolveBelow(cwd, d, x);
    assert "./" + x == "." + "/" + x;
    SplitSlash(".", x);
    SplitWithout(".", '/');
    WalkAppend(Resolve(cwd, d + "/"), ["."], Split(x, '/'));
    assert ["."][1..] == [];
    assert Walk(Resolve(cwd, d + "/"), ["."]) == Walk(Enter(Resolve(cwd, d + "/"), "."), []);
  }

  /** `../x` is what is called x beside the file's directory. */
  lemma ImportAbove(cwd: Path, dir: string, d: string, m: string, n: string, x: string)
    requires Plain(cwd) && IsName(m) && IsName(n)
    ensures Restricted(cwd, dir, d + "/" + m + "/" + n, "../" + x)
       <==> (var guarded, resolved := Resolve(cwd, dir), Resolve(cwd, d + "/" + x);
             dir != "" && guarded <= resolved && (guarded == [] ==> resolved == []))
  {
    FileImport(cwd, dir, d + "/" + m, n, "../" + x);
    assert d + "/" + m + "/" + ("../" + x) == d + "/" + (m + "/" + "../" + x);
    ResolveBelow(cwd, d, m + "/" + "../" + x);
    ResolveBelow(cwd, d, x);
    UpAgain(Resolve(cwd, d + "/"), m, x);
  }

  lemma UpAgain(at: Path, m: string, x: string)
    requires IsName(m)
    ensures Walk(at, Split(m + "/" + "../" + x, '/')) == Walk(at, Split(x, '/'))
  {
    assert m + "/" + "../" + x == m + "/" + (".." + "/" + x);
    SplitSlash(m, ".." + "/" + x);
    SplitSlash("..", x);
    SplitWithout(m, '/');
    SplitWithout("..", '/');
    assert [m] + ([".."] + Split(x, '/')) == [m, ".."] + Split(x, '/');
    WalkAppend(at, [m, ".."], Split(x, '/'));
    InAndOut(at, m);
  }

  lemma InAndOut(at: Path, m: string)
    requires IsName(m)
    ensures Walk(at, [m, ".."]) == at
  {
    assert [m, ".."][1..] == [".."] && [".."][1..] == [];
    assert Walk(at, [m, ".."]) == Walk(at + [m], [".."]) == Walk(Enter(at + [m], ".."), []);
    assert (at + [m])[..|at|] == at;
  }

  /** A written path of names is itself when it is absolute, and goes on from the base when it is not. */
  lemma NamesResolve(base: Path, path: Path)
    requires path != [] && forall segment <- path :: IsName(segment)
    ensures Resolve(base, "/" + Join(path, "/")) == path
    ensures Resolve(base, Join(path, "/")) == base + path
  {
    SplitRendered(path);
    SplitJoin(path, '/');
    assert path[0] in path && Join(path, "/")[0] == path[0][0];
    forall i | 0 <= i < |path|
      ensures IsName(path[i])
    {
      assert path[i] in path;
    }
    WalkNames([], path);
    WalkNames(base, path);
    assert ([""] + path)[1..] == path && [] + path == path;
  }

  /** The working directory matters to an absolute file name only through the option. */
  lemma AbsoluteFile(cwd: Path, other: Path, dir: string, filename: string, source: string)
    requires StartsWith(filename, "/")
    requires Resolve(cwd, dir) == Resolve(other, dir)
    ensures Restricted(cwd, dir, filename, source) == Restricted(other, dir, filename, source)
  {
    assert filename[0] == '/';
  }

  /** When the option is absolute too it does not matter at all. */
  lemma AbsoluteOption(cwd: Path, other: Path, dir: string, filename: string, source: string)
    requires StartsWith(filename, "/") && StartsWith(dir, "/")
    ensures Restricted(cwd, dir, filename, source) == Restricted(other, dir, filename, source)
  {
    assert dir[0] == '/';
    AbsoluteFile(cwd, other, dir, filename, source);
  }
}
