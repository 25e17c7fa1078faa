/**
 Go's `path.Join` for two elements, which the sidecar uses to key its health
 map, together with the lexical `path.Clean` it applies to its result.
 */
module Paths {

  import opened Strings

  /** How `path.Clean` treats one name of a path, given the names kept so
      far: empty names and `.` vanish, `..` removes the name before it, and a
      `..` with nothing to remove is dropped in a rooted path and kept
      otherwise. */
  function CleanStep(kept: seq<string>, e: string, rooted: bool): (r: seq<string>)
  {
    if e == "" || e == "." then kept
    else if e == ".." then
      if |kept| > 0 && kept[|kept| - 1] != ".." then kept[..|kept| - 1]
      else if rooted then kept
      else kept + [".."]
    else kept + [e]
  }

  /** `path.Clean` over the names of a path, one name after the other. */
  function CleanNames(names: seq<string>, rooted: bool, kept: seq<string>): (r: seq<string>)
    decreases |names|
  {
    if |names| == 0 then kept
    else CleanNames(names[1..], rooted, CleanStep(kept, names[0], rooted))
  }

  /** `path.Clean`: the shortest lexically equivalent path; never empty. */
  function Clean(p: string): (r: string)
    ensures r != ""
    ensures |p| > 0 && p[0] == '/' ==> r[0] == '/'
  {
    if p == "" then "."
    else
      var rooted := p[0] == '/';
      var body := JoinWith(CleanNames(Split(p, '/'), rooted, []), '/');
      if rooted then "/" + body
      else if body == "" then "."
      else body
  }

  /** `path.Join(dir, name)`: the non-empty elements joined by `/` and
      cleaned; two empty elements give the empty string. */
  function Join(dir: string, name: string): (r: string)
    ensures r == "" <==> dir == "" && name == ""
  {
    if dir == "" && name == "" then ""
    else if dir == "" then Clean(name)
    else if name == "" then Clean(dir)
    else Clean(dir + "/" + name)
  }

  /** A single path name that cleaning leaves alone. */
  predicate PlainName(s: string)
  {
    s != "" && s != "." && s != ".." && '/' !in s
  }

  /** For plain names, such as a relative certificate directory and a file
      name, `Join` is concatenation with one `/` between them. */
  lemma JoinPlainNames(dir: string, name: string)
    requires PlainName(dir) && PlainName(name)
    ensures Join(dir, name) == dir + "/" + name
  {
    var p := dir + "/" + name;
    assert JoinWith([dir, name], '/') == p by {
      assert [dir, name][1..] == [name];
    }
    SplitJoin([dir, name], '/');
    assert p[0] == dir[0];
    assert CleanNames([dir, name], false, []) == [dir, name] by {
      assert [dir, name][1..] == [name];
      assert [] + [dir] == [dir];
      assert CleanNames([dir, name], false, []) == CleanNames([name], false, [dir]);
      assert CleanNames([name], false, [dir]) == CleanNames([], false, [dir, name]);
    }
  }

  /** A rooted directory keeps its root: a plain name joined under a rooted
      plain directory `/d` is `/d/name`. */
  lemma JoinUnderRoot(dir: string, name: string)
    requires PlainName(dir) && PlainName(name)
    ensures Join("/" + dir, name) == "/" + dir + "/" + name
  {
    var p := "/" + dir + "/" + name;
    assert p[0] == '/';
    RootedNames(dir, name);
    CleanByNames(p);
    JoinPair(dir, name, '/');
  }

  lemma JoinPair(a: string, b: string, sep: char)
    ensures JoinWith([a, b], sep) == a + [sep] + b
  {
  }

  lemma RootedNames(dir: string, name: string)
    requires PlainName(dir) && PlainName(name)
    ensures CleanNames(Split("/" + dir + "/" + name, '/'), true, []) == [dir, name]
  {
    var names := ["", dir, name];
    var p := "/" + dir + "/" + name;
    JoinPair(dir, name, '/');
    assert names[1..] == [dir, name];
    assert JoinWith(names, '/') == "" + "/" + (dir + "/" + name);
    assert JoinWith(names, '/') == p;
    SplitJoin(names, '/');
    assert [dir, name][1..] == [name];
    assert [] + [dir] == [dir];
    assert CleanNames(names, true, []) == CleanNames([dir, name], true, []);
    assert CleanNames([dir, name], true, []) == CleanNames([name], true, [dir]);
    assert CleanNames([name], true, [dir]) == CleanNames([], true, [dir, name]);
  }


  /** The names `path.Clean` keeps: none empty, `.` or holding `/`; any `..`
      names come first; and a rooted path keeps no `..` at all. */
  predicate Cleaned(names: seq<string>, rooted: bool)
  {
    && (forall i :: 0 <= i < |names| ==> names[i] != "" && names[i] != "." && '/' !in names[i])
    && (forall i, j :: 0 <= i < j < |names| && names[j] == ".." ==> names[i] == "..")
    && (rooted ==> forall i :: 0 <= i < |names| ==> names[i] != "..")
  }

  lemma CleanStepCleaned(kept: seq<string>, e: string, rooted: bool)
    requires Cleaned(kept, rooted) && '/' !in e
    ensures Cleaned(CleanStep(kept, e, rooted), rooted)
  {
    if e == ".." && !(|kept| > 0 && kept[|kept| - 1] != "..") && !rooted {
      assert forall i :: 0 <= i < |kept| ==> kept[i] == "..";
    }
  }

  /** Cleaning the pieces of a split path keeps only cleaned names. */
  lemma {:induction false} CleanNamesCleaned(names: seq<string>, rooted: bool, kept: seq<string>)
    requires forall i :: 0 <= i < |names| ==> '/' !in names[i]
    requires Cleaned(kept, rooted)
    ensures Cleaned(CleanNames(names, rooted, kept), rooted)
    decreases |names|
  {
    if |names| > 0 {
      CleanStepCleaned(kept, names[0], rooted);
      CleanNamesCleaned(names[1..], rooted, CleanStep(kept, names[0], rooted));
    }
  }

  /** Cleaned names pass through cleaning unchanged. */
  lemma {:induction false} CleanNamesFixed(names: seq<string>, rooted: bool, kept: seq<string>)
    requires Cleaned(kept + names, rooted)
    ensures CleanNames(names, rooted, kept) == kept + names
    decreases |names|
  {
    if |names| > 0 {
      var all := kept + names;
      assert all[|kept|] == names[0];
      if names[0] == ".." {
        assert forall i :: 0 <= i < |kept| ==> all[i] == kept[i];
      }
      assert CleanStep(kept, names[0], rooted) == kept + [names[0]];
      assert kept + [names[0]] + names[1..] == all;
      CleanNamesFixed(names[1..], rooted, kept + [names[0]]);
    }
  }

  /** A plain name at the end of a path is kept as it is. */
  lemma {:induction false} CleanNamesAppendPlain(names: seq<string>, rooted: bool, kept: seq<string>, x: string)
    requires PlainName(x)
    ensures CleanNames(names + [x], rooted, kept) == CleanNames(names, rooted, kept) + [x]
    decreases |names|
  {
    if |names| == 0 {
      assert [x][1..] == [];
    } else {
      assert (names + [x])[1..] == names[1..] + [x];
      CleanNamesAppendPlain(names[1..], rooted, CleanStep(kept, names[0], rooted), x);
    }
  }

  /** Joined cleaned names start with the first name and are neither empty
      nor `.`. */
  lemma JoinCleanedHead(names: seq<string>, rooted: bool)
    requires Cleaned(names, rooted) && |names| > 0
    ensures var s := JoinWith(names, '/'); s != "" && s != "." && s[0] == names[0][0]
  {
    if |names| > 1 {
      assert |JoinWith(names, '/')| >= |names[0]| + 1;
    }
  }

  /** The names `Clean` keeps for a path. */
  function CleanedNames(p: string): (names: seq<string>)
    requires p != ""
    ensures Cleaned(names, p[0] == '/')
  {
    CleanNamesCleaned(Split(p, '/'), p[0] == '/', []);
    CleanNames(Split(p, '/'), p[0] == '/', [])
  }

  /** `Clean` of a non-empty path spelled out through the names it keeps. */
  lemma CleanByNames(p: string)
    requires p != ""
    ensures p[0] == '/' ==> Clean(p) == "/" + JoinWith(CleanedNames(p), '/')
    ensures p[0] != '/' && CleanedNames(p) == [] ==> Clean(p) == "."
    ensures p[0] != '/' && CleanedNames(p) != [] ==> Clean(p) == JoinWith(CleanedNames(p), '/')
  {
    if p[0] != '/' && CleanedNames(p) != [] {
      JoinCleanedHead(CleanedNames(p), false);
    }
  }

  /** `path.Clean` is idempotent: a cleaned path is already clean. */
  lemma CleanIdempotent(p: string)
    ensures Clean(Clean(p)) == Clean(p)
  {
    if p == "" {
      DotIsClean();
    } else {
      var k := CleanedNames(p);
      CleanByNames(p);
      if p[0] == '/' {
        if k == [] {
          RootIsClean();
        } else {
          var q := Clean(p);
          assert q == "/" + JoinWith(k, '/');
          assert ([""] + k)[1..] == k;
          assert JoinWith([""] + k, '/') == q;
          SplitJoin([""] + k, '/');
          assert Split(q, '/') == [""] + k;
          assert q[0] == '/';
          assert CleanNames([""] + k, true, []) == CleanNames(k, true, []);
          CleanNamesFixed(k, true, []);
          assert [] + k == k;
        }
      } else if k == [] {
        DotIsClean();
      } else {
        var q := Clean(p);
        JoinCleanedHead(k, false);
        SplitJoin(k, '/');
        CleanNamesFixed(k, false, []);
        assert [] + k == k;
        assert q[0] != '/';
      }
    }
  }

  /** `Clean("/")` is `/`. */
  lemma RootIsClean()
    ensures Clean("/") == "/"
  {
    assert JoinWith(["", ""], '/') == "/" by {
      assert ["", ""][1..] == [""];
    }
    SplitJoin(["", ""], '/');
    assert ["", ""][1..] == [""];
  }

  /** `Clean(".")` is `.`. */
  lemma DotIsClean()
    ensures Clean(".") == "."
  {
    IndexOfAbsent(".", '/');
  }

  /** `path.Join` of a directory and a plain file name: the cleaned directory
      followed by the name, where a directory that cleans to `.` adds nothing
      and the root adds only its `/`. */
  lemma JoinName(dir: string, name: string)
    requires dir != "" && PlainName(name)
    ensures Join(dir, name) ==
              if Clean(dir) == "." then name
              else if Clean(dir) == "/" then "/" + name
              else Clean(dir) + "/" + name
  {
    var p := dir + "/" + name;
    var k := CleanedNames(dir);
    CleanedNamesAppend(dir, name);
    CleanByNames(dir);
    CleanByNames(p);
    if k == [] {
      assert k + [name] == [name];
    } else {
      JoinWithAppend(k, name, '/');
      JoinCleanedHead(k, dir[0] == '/');
    }
  }

  /** A plain name after a directory is the last name `Clean` keeps. */
  lemma CleanedNamesAppend(dir: string, name: string)
    requires dir != "" && PlainName(name)
    ensures (dir + "/" + name)[0] == dir[0]
    ensures CleanedNames(dir + "/" + name) == CleanedNames(dir) + [name]
  {
    var p := dir + "/" + name;
    assert p[0] == dir[0];
    SplitAppend(dir, '/', name);
    CleanNamesAppendPlain(Split(dir, '/'), dir[0] == '/', [], name);
  }

  /** A clean directory other than `.` and the root gains `/name`. */
  lemma JoinCleanDir(dir: string, name: string)
    requires Clean(dir) == dir && dir != "" && dir != "." && dir != "/"
    requires PlainName(name)
    ensures Join(dir, name) == dir + "/" + name
  {
    JoinName(dir, name);
  }

  /** Under the root directory a plain name becomes `/name`. */
  lemma JoinRootDir(name: string)
    requires PlainName(name)
    ensures Join("/", name) == "/" + name
  {
    RootIsClean();
    JoinName("/", name);
  }

}
