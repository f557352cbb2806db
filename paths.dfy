/**
 * The parts of Node's POSIX `path` module the core uses: `basename`,
 * `extname`, `basename(p, extname(p))` and `join` of a directory and a name.
 */
module Paths {
  import opened Wrappers

  /** The position of the last `c` in `s` before position `end`. */
  function LastIndexBefore(s: string, c: char, end: nat): (r: Option<nat>)
    requires end <= |s|
    ensures r.Some? ==> r.value < end && s[r.value] == c && forall j :: r.value < j < end ==> s[j] != c
    ensures r.None? ==> forall j :: 0 <= j < end ==> s[j] != c
    decreases end
  {
    if end == 0 then None
    else if s[end - 1] == c then Some(end - 1)
    else LastIndexBefore(s, c, end - 1)
  }

  /** The position of the last `c` in `s`. */
  function LastIndexOf(s: string, c: char): (r: Option<nat>)
    ensures r.Some? ==> r.value < |s| && s[r.value] == c && forall j :: r.value < j < |s| ==> s[j] != c
    ensures r.None? ==> forall j :: 0 <= j < |s| ==> s[j] != c
  {
    LastIndexBefore(s, c, |s|)
  }

  /** `s` holds no slash, so it is a single path component. */
  predicate IsPlainName(s: string) {
    forall j :: 0 <= j < |s| ==> s[j] != '/'
  }

  /** A concatenation is slash-free exactly when both parts are. */
  lemma PlainNameConcat(a: string, b: string)
    ensures IsPlainName(a + b) <==> IsPlainName(a) && IsPlainName(b)
  {
    if IsPlainName(a) && IsPlainName(b) {
      forall j | 0 <= j < |a + b|
        ensures (a + b)[j] != '/'
      {
        if j < |a| {
          assert (a + b)[j] == a[j];
        } else {
          assert (a + b)[j] == b[j - |a|];
        }
      }
    }
    if IsPlainName(a + b) {
      assert forall j :: 0 <= j < |a| ==> a[j] == (a + b)[j];
      assert forall j :: 0 <= j < |b| ==> b[j] == (a + b)[|a| + j];
    }
  }

  /** `path.basename(p)`: the longest suffix of `p` without a slash. */
  function Basename(p: string): (b: string)
    ensures |b| <= |p| && p[|p| - |b|..] == b
    ensures IsPlainName(b)
    ensures |b| < |p| ==> p[|p| - |b| - 1] == '/'
  {
    match LastIndexOf(p, '/')
    case None => p
    case Some(k) => p[k + 1..]
  }

  /**
   * The extension of a base name `b`: from its last dot to its end, but
   * empty when `b` has no dot, starts with its only dot (a hidden file such
   * as `.png`) or is `..`.
   */
  function ExtOfBase(b: string): (e: string)
    ensures |e| <= |b| && b[|b| - |e|..] == e
    ensures e != "" ==> e[0] == '.' && |e| < |b|
    ensures forall j :: 1 <= j < |e| ==> e[j] != '.'
    ensures e == "" <==> b == ".." || forall j :: 0 < j < |b| ==> b[j] != '.'
  {
    match LastIndexOf(b, '.')
    case None => ""
    case Some(d) => if d == 0 || b == ".." then "" else b[d..]
  }

  /** `path.extname(p)`: the extension of the base name of `p`. */
  function Extname(p: string): (e: string)
    ensures EndsWithName(p, e)
    ensures e != "" ==> e[0] == '.' && |e| < |Basename(p)|
    ensures forall j :: 1 <= j < |e| ==> e[j] != '.'
    ensures var b := Basename(p); e == "" <==> b == ".." || forall j :: 0 < j < |b| ==> b[j] != '.'
  {
    ExtOfBase(Basename(p))
  }

  /** The base name of `p` ends with `suffix`. */
  predicate EndsWithName(p: string, suffix: string) {
    var b := Basename(p);
    |suffix| <= |b| && b[|b| - |suffix|..] == suffix
  }

  /** `path.basename(p, path.extname(p))`: the base name without its extension. */
  function Stem(p: string): (stem: string)
    ensures stem + Extname(p) == Basename(p)
  {
    var b := Basename(p);
    var e := ExtOfBase(b);
    DropSuffix(b, e);
    b[..|b| - |e|]
  }

  /** A string is what remains before one of its suffixes, followed by that suffix. */
  lemma DropSuffix(b: string, e: string)
    requires |e| <= |b| && b[|b| - |e|..] == e
    ensures b[..|b| - |e|] + e == b
  {
    assert b[..|b| - |e|] + b[|b| - |e|..] == b;
  }

  /** `path.join(dir, name)` for a plain file name: exactly one slash between the two. */
  function Join(dir: string, name: string): string {
    if dir == "" then name
    else if dir[|dir| - 1] == '/' then dir + name
    else dir + "/" + name
  }

  /** A slash-free name right after a slash is the base name. */
  lemma BasenameAfterSlash(prefix: string, name: string)
    requires |prefix| > 0 && prefix[|prefix| - 1] == '/'
    requires name != "" && IsPlainName(name)
    ensures Basename(prefix + name) == name
  {
    var p := prefix + name;
    var k := |prefix|;
    assert p[k - 1] == '/';
    forall j | k <= j < |p|
      ensures p[j] != '/'
    {
      assert p[j] == name[j - k];
    }
    assert LastIndexOf(p, '/') == Some(k - 1);
    assert p[k..] == name;
  }

  /** Joining a slash-free name onto a directory gives back that name as the base name. */
  lemma BasenameOfJoin(dir: string, name: string)
    requires name != "" && IsPlainName(name)
    ensures Basename(Join(dir, name)) == name
  {
    if dir == "" {
      assert LastIndexOf(name, '/').None?;
    } else if dir[|dir| - 1] == '/' {
      BasenameAfterSlash(dir, name);
    } else {
      assert dir + "/" + name == (dir + "/") + name;
      BasenameAfterSlash(dir + "/", name);
    }
  }

  /** Two names joined onto the same directory give the same path only if the names are equal. */
  lemma JoinInjective(dir: string, x: string, y: string)
    requires Join(dir, x) == Join(dir, y)
    ensures x == y
  {
    var prefix := if dir == "" then "" else if dir[|dir| - 1] == '/' then dir else dir + "/";
    assert Join(dir, x) == prefix + x && Join(dir, y) == prefix + y;
    assert x == (prefix + x)[|prefix|..];
    assert y == (prefix + y)[|prefix|..];
  }

  /**
   * A slash-free name made of a non-empty stem and a dotted extension with no
   * further dot has exactly that extension.
   */
  lemma ExtnameOfName(stem: string, ext: string)
    requires stem != "" && IsPlainName(stem)
    requires |ext| > 1 && ext[0] == '.' && IsPlainName(ext)
    requires forall j :: 1 <= j < |ext| ==> ext[j] != '.'
    ensures Extname(stem + ext) == ext
  {
    var name := stem + ext;
    assert name[|stem|] == '.';
    PlainNameConcat(stem, ext);
    assert Basename(name) == name;
    forall j | |stem| < j < |name|
      ensures name[j] != '.'
    {
      assert name[j] == ext[j - |stem|];
    }
    assert LastIndexOf(name, '.') == Some(|stem|);
  }

  /**
   * A name that ends in a dot has the lone dot as its extension, so its
   * extension is not empty even though nothing follows the dot.
   */
  lemma ExtnameOfTrailingDot(stem: string)
    requires stem != "" && stem != "." && IsPlainName(stem)
    ensures Extname(stem + ".") == "."
    ensures Stem(stem + ".") == stem
  {
    var name := stem + ".";
    PlainNameConcat(stem, ".");
    assert Basename(name) == name;
    assert LastIndexOf(name, '.') == Some(|stem|);
    assert name != ".." by {
      if |stem| == 1 {
        assert stem == [stem[0]] && name[0] == stem[0];
      }
    }
    assert name[|stem|..] == ".";
  }

  /** The stem of a path is slash-free. */
  lemma StemIsPlain(p: string)
    ensures IsPlainName(Stem(p))
  {
    PlainNameConcat(Stem(p), Extname(p));
  }
}
