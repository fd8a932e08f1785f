/**
 * The string and path functions of Python (posixpath and str) that the
 * ingest pipeline builds its paths with: `split('/')`, `'/'.join`,
 * `rfind`, `replace(x, '')`, and `os.path.dirname`, `basename`,
 * `splitext` and `normpath`, each following the POSIX implementation
 * branch for branch.
 */
module PosixPath {

  /** A plain path component: what `normpath` keeps as it is. */
  predicate IsSegment(c: string) {
    c != "" && c != "." && c != ".." && '/' !in c
  }

  predicate StartsWith(s: string, prefix: string) {
    |prefix| <= |s| && s[..|prefix|] == prefix
  }

  predicate EndsWith(s: string, suffix: string) {
    |suffix| <= |s| && s[|s| - |suffix|..] == suffix
  }

  // ---------------------------------------------------------------------
  // str.split('/') and '/'.join(...)
  // ---------------------------------------------------------------------

  /** `s.split('/')`: the pieces between slashes, empty ones included. */
  function Split(s: string): (parts: seq<string>)
    ensures |parts| >= 1
    ensures forall i :: 0 <= i < |parts| ==> '/' !in parts[i]
    decreases |s|
  {
    if s == [] then [""]
    else if s[0] == '/' then [""] + Split(s[1..])
    else
      var rest := Split(s[1..]);
      [[s[0]] + rest[0]] + rest[1..]
  }

  /** `'/'.join(parts)`. */
  function Join(parts: seq<string>): string
    decreases |parts|
  {
    if parts == [] then ""
    else if |parts| == 1 then parts[0]
    else parts[0] + "/" + Join(parts[1..])
  }

  lemma {:induction false} SplitNoSlash(x: string)
    requires '/' !in x
    ensures Split(x) == [x]
    decreases |x|
  {
    if x != [] {
      assert '/' !in x[1..] by {
        forall i | 0 <= i < |x[1..]| ensures x[1..][i] != '/' {
          assert x[1..][i] == x[i + 1];
        }
      }
      SplitNoSlash(x[1..]);
      assert [x[0]] + x[1..] == x;
    }
  }

  /** Splitting at an explicit slash splits the two sides independently. */
  lemma {:induction false} SplitAppend(a: string, b: string)
    ensures Split(a + "/" + b) == Split(a) + Split(b)
    decreases |a|
  {
    var s := a + "/" + b;
    if a == [] {
      assert s == "/" + b;
      assert s[1..] == b;
    } else {
      assert s[0] == a[0];
      assert s[1..] == a[1..] + "/" + b;
      SplitAppend(a[1..], b);
    }
  }

  /** Joining and splitting again gives back the pieces. */
  lemma {:induction false} SplitJoin(parts: seq<string>)
    requires |parts| >= 1
    requires forall i :: 0 <= i < |parts| ==> '/' !in parts[i]
    ensures Split(Join(parts)) == parts
    decreases |parts|
  {
    if |parts| == 1 {
      SplitNoSlash(parts[0]);
    } else {
      SplitAppend(parts[0], Join(parts[1..]));
      SplitNoSlash(parts[0]);
      SplitJoin(parts[1..]);
      assert [parts[0]] + parts[1..] == parts;
    }
  }

  /** Joining the pieces of a split gives back the string. */
  lemma {:induction false} JoinSplit(s: string)
    ensures Join(Split(s)) == s
    decreases |s|
  {
    if s != [] {
      var rest := Split(s[1..]);
      JoinSplit(s[1..]);
      if s[0] == '/' {
        var parts := [""] + rest;
        assert parts[1..] == rest;
        assert Join(parts) == "" + "/" + Join(rest);
      } else if |rest| == 1 {
        assert Split(s) == [[s[0]] + rest[0]];
      } else {
        var parts := [[s[0]] + rest[0]] + rest[1..];
        assert parts[1..] == rest[1..];
        assert Join(rest) == rest[0] + "/" + Join(rest[1..]);
        assert Join(parts) == ([s[0]] + rest[0]) + "/" + Join(rest[1..]);
      }
    }
  }

  lemma {:induction false} JoinSnoc(parts: seq<string>, x: string)
    requires |parts| >= 1
    ensures Join(parts + [x]) == Join(parts) + "/" + x
    decreases |parts|
  {
    if |parts| == 1 {
      assert parts + [x] == [parts[0], x];
      assert [parts[0], x][1..] == [x];
    } else {
      assert (parts + [x])[1..] == parts[1..] + [x];
      JoinSnoc(parts[1..], x);
    }
  }

  lemma {:induction false} JoinAppend(a: seq<string>, b: seq<string>)
    requires |a| >= 1 && |b| >= 1
    ensures Join(a + b) == Join(a) + "/" + Join(b)
    decreases |a|
  {
    if |a| == 1 {
      assert (a + b)[1..] == b;
    } else {
      assert (a + b)[1..] == a[1..] + b;
      JoinAppend(a[1..], b);
    }
  }

  lemma EndsWithAppend(a: string, b: string)
    ensures EndsWith(a + b, b)
  {
    assert (a + b)[|a + b| - |b|..] == b;
  }

  lemma EndsWithTrans(a: string, b: string, c: string)
    requires EndsWith(a, b) && EndsWith(b, c)
    ensures EndsWith(a, c)
  {
    assert a[|a| - |c|..] == b[|b| - |c|..];
  }

  /** Of two suffixes of a string, the shorter is a suffix of the longer. */
  lemma EndsWithShorter(a: string, b: string, c: string)
    requires EndsWith(a, b) && EndsWith(a, c) && |c| <= |b|
    ensures EndsWith(b, c)
  {
    assert b[|b| - |c|..] == a[|a| - |c|..];
  }

  lemma StartsWithAppend(a: string, b: string, c: string)
    ensures StartsWith(a + b + c, a)
  {
    assert (a + b + c)[..|a|] == a;
  }

  /** A relative path that climbs out of its starting directory: `..` or `../…`. */
  predicate Climbs(s: string) {
    s == ".." || StartsWith(s, "../")
  }

  /** `os.path.join(a, b)`. */
  function PathJoin(a: string, b: string): (p: string)
    ensures EndsWith(p, b)
  {
    EndsWithAppend(a, b);
    EndsWithAppend(a + "/", b);
    assert b[|b| - |b|..] == b;
    if StartsWith(b, "/") then b
    else if a == "" || EndsWith(a, "/") then a + b
    else a + "/" + b
  }

  /** The first piece of a split tells an absolute path, `.`, and a path that climbs. */
  lemma SplitLeads(j: string)
    ensures j == "" ==> Split(j) == [""]
    ensures StartsWith(j, "/") ==> Split(j)[0] == ""
    ensures j == "." ==> Split(j) == ["."]
    ensures Climbs(j) ==> Split(j)[0] == ".."
  {
    if j == "." || j == ".." {
      SplitNoSlash(j);
    } else if StartsWith(j, "../") {
      assert j == ".." + "/" + j[3..];
      SplitAppend("..", j[3..]);
      SplitNoSlash("..");
    }
  }

  /** A join of plain components is a relative path that stays where it starts. */
  lemma JoinPlain(cs: seq<string>)
    requires |cs| >= 1 && forall i :: 0 <= i < |cs| ==> IsSegment(cs[i])
    ensures Join(cs) != "" && Join(cs) != "."
    ensures !StartsWith(Join(cs), "/") && !Climbs(Join(cs))
  {
    SplitJoin(cs);
    SplitLeads(Join(cs));
  }

  /** The first piece of a join is its first part. */
  lemma JoinStartsWith(parts: seq<string>)
    requires |parts| >= 1
    ensures StartsWith(Join(parts), parts[0])
  {
    if |parts| > 1 {
      StartsWithAppend(parts[0], "/", Join(parts[1..]));
    } else {
      assert parts[0][..|parts[0]|] == parts[0];
    }
  }

  // ---------------------------------------------------------------------
  // str.rfind, str.replace(x, '')
  // ---------------------------------------------------------------------

  /** `s.rfind(c)`: the last index holding c, or -1. */
  function Rfind(s: string, c: char): (i: int)
    ensures -1 <= i < |s|
    ensures 0 <= i ==> s[i] == c
    ensures forall j :: i < j < |s| ==> s[j] != c
    decreases |s|
  {
    if s == [] then -1
    else if s[|s| - 1] == c then |s| - 1
    else Rfind(s[..|s| - 1], c)
  }

  lemma {:induction false} RfindAfter(a: string, c: char, x: string)
    requires c !in x
    ensures Rfind(a + [c] + x, c) == |a|
    decreases |x|
  {
    var s := a + [c] + x;
    if x != [] {
      assert s[..|s| - 1] == a + [c] + x[..|x| - 1];
      assert s[|s| - 1] == x[|x| - 1];
      RfindAfter(a, c, x[..|x| - 1]);
    }
  }

  lemma RfindAbsent(s: string, c: char)
    requires c !in s
    ensures Rfind(s, c) == -1
  {
  }

  predicate OccursAt(t: string, pat: string, i: int) {
    0 <= i && i + |pat| <= |t| && t[i..i + |pat|] == pat
  }

  /** pat is a substring of t. */
  ghost predicate Occurs(t: string, pat: string) {
    exists i :: OccursAt(t, pat, i)
  }

  /** `s.replace(pat, '')`: every occurrence of pat, scanning left to right, removed. */
  function RemoveAll(s: string, pat: string): string
    decreases |s|
  {
    if pat == [] || |s| < |pat| then s
    else if s[..|pat|] == pat then RemoveAll(s[|pat|..], pat)
    else [s[0]] + RemoveAll(s[1..], pat)
  }

  lemma {:induction false} RemoveAllAbsent(t: string, pat: string)
    requires pat != [] && !Occurs(t, pat)
    ensures RemoveAll(t, pat) == t
    decreases |t|
  {
    if |t| >= |pat| {
      assert !OccursAt(t, pat, 0);
      assert t[0..0 + |pat|] == t[..|pat|];
      assert !Occurs(t[1..], pat) by {
        forall i ensures !OccursAt(t[1..], pat, i) {
          assert !OccursAt(t, pat, i + 1);
          if 0 <= i && i + |pat| <= |t[1..]| {
            assert t[1..][i..i + |pat|] == t[i + 1..i + 1 + |pat|];
          }
        }
      }
      RemoveAllAbsent(t[1..], pat);
      assert [t[0]] + t[1..] == t;
    }
  }

  /** When pat is a prefix of s and does not occur in the rest, replace strips that prefix. */
  lemma RemoveAllPrefix(pat: string, t: string)
    requires pat != [] && !Occurs(t, pat)
    ensures RemoveAll(pat + t, pat) == t
  {
    var s := pat + t;
    assert s[..|pat|] == pat;
    assert s[|pat|..] == t;
    RemoveAllAbsent(t, pat);
  }

  // ---------------------------------------------------------------------
  // os.path.basename, dirname, splitext
  // ---------------------------------------------------------------------

  /** `os.path.basename(p)`: the part after the last slash. */
  function Basename(p: string): (b: string)
    ensures '/' !in b
    ensures EndsWith(p, b)
    ensures |b| < |p| ==> p[|p| - |b| - 1] == '/'
  {
    var i := Rfind(p, '/');
    var b := p[i + 1..];
    assert p[|p| - |b|..] == b;
    assert '/' !in b by {
      forall j | 0 <= j < |b| ensures b[j] != '/' {
        assert b[j] == p[i + 1 + j];
      }
    }
    b
  }

  lemma BasenameAfterSlash(a: string, x: string)
    requires '/' !in x
    ensures Basename(a + "/" + x) == x
  {
    RfindAfter(a, '/', x);
    assert (a + "/" + x)[|a| + 1..] == x;
  }

  lemma BasenameNoSlash(x: string)
    requires '/' !in x
    ensures Basename(x) == x
  {
    RfindAbsent(x, '/');
  }

  predicate AllSlashes(s: string) {
    forall i :: 0 <= i < |s| ==> s[i] == '/'
  }

  /** `s.rstrip('/')`. */
  function RStripSlashes(s: string): (r: string)
    ensures StartsWith(s, r)
    ensures r == [] || r[|r| - 1] != '/'
    ensures AllSlashes(s[|r|..])
    decreases |s|
  {
    if s != [] && s[|s| - 1] == '/' then RStripSlashes(s[..|s| - 1]) else s
  }

  /** Stripping trailing slashes from s + tail gives back s when s does not end in a slash. */
  lemma {:induction false} RStripSlashesOf(s: string, tail: string)
    requires (s == [] || s[|s| - 1] != '/') && AllSlashes(tail)
    ensures RStripSlashes(s + tail) == s
    decreases |tail|
  {
    if tail == [] {
      assert s + tail == s;
    } else {
      var init := tail[..|tail| - 1];
      assert (s + tail)[..|s + tail| - 1] == s + init;
      RStripSlashesOf(s, init);
    }
  }

  /** `os.path.dirname(p)`: everything up to the last slash, trailing slashes removed unless it is only slashes. */
  function Dirname(p: string): string
  {
    var head := p[..Rfind(p, '/') + 1];
    if head != [] && !AllSlashes(head) then RStripSlashes(head) else head
  }

  /** `os.path.splitext(p)[0]`: p without its extension; a leading run of dots does not start an extension. */
  function SplitExtRoot(p: string): string
  {
    var sep := Rfind(p, '/');
    var dot := Rfind(p, '.');
    if sep < dot && exists k :: sep < k < dot && p[k] != '.' then p[..dot] else p
  }

  // ---------------------------------------------------------------------
  // os.path.normpath
  // ---------------------------------------------------------------------

  /** How many leading slashes normpath keeps: one, or exactly two, or none. */
  function InitialSlashes(p: string): (k: nat)
    ensures k <= 2
  {
    if |p| >= 1 && p[0] == '/' then
      if |p| >= 2 && p[1] == '/' && !(|p| >= 3 && p[2] == '/') then 2 else 1
    else 0
  }

  function Slashes(k: nat): string
    requires k <= 2
  {
    if k == 0 then "" else if k == 1 then "/" else "//"
  }

  /** One turn of normpath's loop over the components. */
  function NormStep(acc: seq<string>, comp: string, rooted: bool): seq<string>
  {
    if comp == "" || comp == "." then acc
    else if comp != ".." || (!rooted && acc == []) || (acc != [] && acc[|acc| - 1] == "..") then acc + [comp]
    else if acc != [] then acc[..|acc| - 1]
    else acc
  }

  /** normpath's loop, from an accumulated prefix over the remaining components. */
  function NormComps(acc: seq<string>, comps: seq<string>, rooted: bool): seq<string>
    decreases |comps|
  {
    if comps == [] then acc else NormComps(NormStep(acc, comps[0], rooted), comps[1..], rooted)
  }

  /** `os.path.normpath(p)`: collapses empty and `.` components and `x/..` pairs, lexically. */
  function NormPath(p: string): string
  {
    if p == "" then "."
    else
      var k := InitialSlashes(p);
      var r := Slashes(k) + Join(NormComps([], Split(p), k > 0));
      if r == "" then "." else r
  }

  /** The shape normpath's component list always has. */
  predicate Normal(cs: seq<string>, rooted: bool) {
    && (forall i :: 0 <= i < |cs| ==> cs[i] != "" && cs[i] != "." && '/' !in cs[i])
    && (forall i :: 0 <= i < |cs| ==> rooted ==> cs[i] != "..")
    && (forall i, j :: 0 <= i < j < |cs| && cs[j] == ".." ==> cs[i] == "..")
  }

  lemma {:induction false} NormCompsAppend(acc: seq<string>, a: seq<string>, b: seq<string>, rooted: bool)
    ensures NormComps(acc, a + b, rooted) == NormComps(NormComps(acc, a, rooted), b, rooted)
    decreases |a|
  {
    if a == [] {
      assert a + b == b;
    } else {
      var ab := a + b;
      assert ab[0] == a[0];
      assert ab[1..] == a[1..] + b;
      assert NormComps(acc, ab, rooted) == NormComps(NormStep(acc, a[0], rooted), ab[1..], rooted);
      NormCompsAppend(NormStep(acc, a[0], rooted), a[1..], b, rooted);
    }
  }

  lemma {:induction false} NormCompsNormal(acc: seq<string>, comps: seq<string>, rooted: bool)
    requires Normal(acc, rooted)
    requires forall i :: 0 <= i < |comps| ==> '/' !in comps[i]
    ensures Normal(NormComps(acc, comps, rooted), rooted)
    decreases |comps|
  {
    if comps != [] {
      var next := NormStep(acc, comps[0], rooted);
      assert Normal(next, rooted) by {
        var c := comps[0];
        if c == "" || c == "." {
        } else if c != ".." || (!rooted && acc == []) || (acc != [] && acc[|acc| - 1] == "..") {
          assert next == acc + [c];
        } else if acc != [] {
          assert next == acc[..|acc| - 1];
        }
      }
      NormCompsNormal(next, comps[1..], rooted);
    }
  }

  /** normpath's loop leaves an already normal list as it is. */
  lemma {:induction false} NormCompsIdentity(acc: seq<string>, cs: seq<string>, rooted: bool)
    requires Normal(acc + cs, rooted)
    ensures NormComps(acc, cs, rooted) == acc + cs
    decreases |cs|
  {
    if cs != [] {
      var all := acc + cs;
      var c := cs[0];
      assert c == all[|acc|];
      if c == ".." && acc != [] {
        assert acc[|acc| - 1] == all[|acc| - 1];
      }
      assert NormStep(acc, c, rooted) == acc + [c];
      assert (acc + [c]) + cs[1..] == all;
      NormCompsIdentity(acc + [c], cs[1..], rooted);
    }
  }

  /** normpath's loop appends plain components as they are. */
  lemma {:induction false} NormCompsPlain(acc: seq<string>, cs: seq<string>, rooted: bool)
    requires forall i :: 0 <= i < |cs| ==> IsSegment(cs[i])
    ensures NormComps(acc, cs, rooted) == acc + cs
    decreases |cs|
  {
    if cs != [] {
      assert (acc + [cs[0]]) + cs[1..] == acc + cs;
      NormCompsPlain(acc + [cs[0]], cs[1..], rooted);
    }
  }

  function EmptyComps(k: nat): (e: seq<string>)
    ensures |e| == k && forall i :: 0 <= i < k ==> e[i] == ""
  {
    if k == 0 then [] else [""] + EmptyComps(k - 1)
  }

  lemma {:induction false} NormCompsEmpty(acc: seq<string>, k: nat, rooted: bool)
    ensures NormComps(acc, EmptyComps(k), rooted) == acc
  {
    if k > 0 {
      NormCompsEmpty(acc, k - 1, rooted);
    }
  }

  lemma SplitSlashes(k: nat, s: string)
    requires k <= 2
    ensures Split(Slashes(k) + s) == EmptyComps(k) + Split(s)
  {
    if k >= 1 {
      var t := Slashes(k) + s;
      assert t[0] == '/';
      if k == 1 {
        assert t[1..] == s;
        assert EmptyComps(1) == [""];
      } else {
        var u := "/" + s;
        assert t[1..] == u;
        assert u[0] == '/';
        assert u[1..] == s;
        assert Split(u) == [""] + Split(s);
        assert EmptyComps(2) == ["", ""];
      }
    } else {
      assert Slashes(k) + s == s;
    }
  }

  lemma NormPathDot()
    ensures NormPath(".") == "."
  {
    assert Split(".") == ["."] by { SplitNoSlash("."); }
  }

  lemma InitialSlashesOfJoin(k: nat, cs: seq<string>)
    requires k <= 2 && cs != [] && cs[0] != "" && '/' !in cs[0]
    ensures InitialSlashes(Slashes(k) + Join(cs)) == k
  {
    JoinStartsWith(cs);
    assert Join(cs)[0] == cs[0][0];
    assert (Slashes(k) + Join(cs))[k] == cs[0][0];
  }

  lemma InitialSlashesOfSlashes(k: nat)
    requires k <= 2
    ensures InitialSlashes(Slashes(k)) == k
  {
  }

  /** The components normpath finds in its own output form are the ones it was built from. */
  lemma NormCompsOfNormal(k: nat, cs: seq<string>)
    requires k <= 2 && Normal(cs, k > 0)
    ensures NormComps([], Split(Slashes(k) + Join(cs)), k > 0) == cs
  {
    if cs != [] {
      SplitJoin(cs);
      SplitSlashes(k, Join(cs));
      NormCompsAppend([], EmptyComps(k), cs, k > 0);
      NormCompsEmpty([], k, k > 0);
      NormCompsIdentity([], cs, k > 0);
      assert [] + cs == cs;
    } else {
      SplitSlashes(k, "");
      NormCompsAppend([], EmptyComps(k), [""], k > 0);
      NormCompsEmpty([], k, k > 0);
    }
  }

  /** normpath of something that is already in normpath's output form is the identity. */
  lemma NormPathOfNormal(k: nat, cs: seq<string>)
    requires k <= 2 && Normal(cs, k > 0)
    requires Slashes(k) + Join(cs) != ""
    ensures NormPath(Slashes(k) + Join(cs)) == Slashes(k) + Join(cs)
  {
    NormCompsOfNormal(k, cs);
    if cs != [] {
      InitialSlashesOfJoin(k, cs);
    } else {
      assert Slashes(k) + Join(cs) == Slashes(k);
      InitialSlashesOfSlashes(k);
    }
  }

  /** normpath is idempotent. */
  lemma NormPathIdempotent(p: string)
    ensures NormPath(NormPath(p)) == NormPath(p)
  {
    if p == "" {
      NormPathDot();
    } else {
      var k := InitialSlashes(p);
      var cs := NormComps([], Split(p), k > 0);
      NormCompsNormal([], Split(p), k > 0);
      if Slashes(k) + Join(cs) == "" {
        NormPathDot();
      } else {
        NormPathOfNormal(k, cs);
      }
    }
  }

  lemma NormCompsChild(p: string, x: string, rooted: bool)
    requires IsSegment(x)
    ensures NormComps([], Split(p + "/" + x), rooted) == NormComps([], Split(p), rooted) + [x]
  {
    SplitAppend(p, x);
    SplitNoSlash(x);
    NormCompsAppend([], Split(p), [x], rooted);
  }

  lemma BasenameSlashesJoin(k: nat, cs: seq<string>, x: string)
    requires k <= 2 && '/' !in x
    ensures Basename(Slashes(k) + Join(cs + [x])) == x
  {
    if cs == [] {
      assert cs + [x] == [x];
      if k == 0 {
        assert Slashes(k) + Join(cs + [x]) == x;
        BasenameNoSlash(x);
      } else {
        assert Slashes(k) + Join(cs + [x]) == Slashes(k - 1) + "/" + x;
        BasenameAfterSlash(Slashes(k - 1), x);
      }
    } else {
      JoinSnoc(cs, x);
      assert Slashes(k) + Join(cs + [x]) == (Slashes(k) + Join(cs)) + "/" + x;
      BasenameAfterSlash(Slashes(k) + Join(cs), x);
    }
  }

  /** normpath of `p + '/' + x` for a plain name x keeps x as the last component. */
  lemma NormPathChild(p: string, x: string)
    requires IsSegment(x)
    ensures Basename(NormPath(p + "/" + x)) == x
  {
    var q := p + "/" + x;
    var k := InitialSlashes(q);
    NormCompsChild(p, x, k > 0);
    var c0 := NormComps([], Split(p), k > 0);
    BasenameSlashesJoin(k, c0, x);
    assert Slashes(k) + Join(c0 + [x]) != "" by {
      assert Basename(Slashes(k) + Join(c0 + [x])) == x;
    }
  }

  /** A single name normalizes to itself. */
  lemma NormPathOfSegment(x: string)
    requires IsSegment(x)
    ensures NormPath(x) == x
  {
    assert x == Slashes(0) + Join([x]);
    NormPathOfNormal(0, [x]);
  }

  /** normpath keeps a plain file name at the end of the path. */
  lemma NormPathKeepsBasename(p: string)
    requires IsSegment(Basename(p))
    ensures Basename(NormPath(p)) == Basename(p)
  {
    var b := Basename(p);
    if |b| == |p| {
      assert p == b;
      NormPathOfSegment(b);
      BasenameNoSlash(b);
    } else {
      var pre := p[..|p| - |b| - 1];
      assert p == pre + "/" + b;
      NormPathChild(pre, b);
    }
  }

  lemma {:induction false} JoinEndsWith(parts: seq<string>)
    requires |parts| >= 1
    ensures EndsWith(Join(parts), parts[|parts| - 1])
    decreases |parts|
  {
    if |parts| > 1 {
      JoinEndsWith(parts[1..]);
      var tail := Join(parts[1..]);
      assert Join(parts) == (parts[0] + "/") + tail;
      var last := parts[|parts| - 1];
      assert last == parts[1..][|parts[1..]| - 1];
      assert Join(parts)[|Join(parts)| - |last|..] == tail[|tail| - |last|..];
    }
  }

  lemma {:induction false} RfindBefore(pre: string, c: char, x: string)
    requires c !in x
    ensures Rfind(pre + x, c) == Rfind(pre, c)
    decreases |x|
  {
    if x != [] {
      var s := pre + x;
      assert s[..|s| - 1] == pre + x[..|x| - 1];
      assert s[|s| - 1] == x[|x| - 1];
      RfindBefore(pre, c, x[..|x| - 1]);
    } else {
      assert pre + x == pre;
    }
  }

  /** A slash-free suffix passes through basename unchanged. */
  lemma BasenameAppend(pre: string, x: string)
    requires '/' !in x
    ensures Basename(pre + x) == Basename(pre) + x
  {
    RfindBefore(pre, '/', x);
    var i := Rfind(pre, '/');
    assert (pre + x)[i + 1..] == pre[i + 1..] + x;
  }

  /** The directory part of `a + '/' + x` is a, when a does not end in a slash. */
  lemma DirnameChild(a: string, x: string)
    requires '/' !in x && a != "" && a[|a| - 1] != '/'
    ensures Dirname(a + "/" + x) == a
  {
    var p := a + "/" + x;
    RfindAfter(a, '/', x);
    var head := p[..|a| + 1];
    assert head == a + "/";
    assert head[|a| - 1] != '/';
    assert !AllSlashes(head);
    assert head[..|head| - 1] == a;
  }

  lemma ParentComps(dirs: seq<string>)
    requires |dirs| >= 1
    requires forall i :: 0 <= i < |dirs| ==> IsSegment(dirs[i])
    ensures NormComps([], [""] + (dirs + ["..", ""]), true) == dirs[..|dirs| - 1]
  {
    var n := |dirs|;
    var l := dirs + ["..", ""];
    assert ([""] + l)[0] == "";
    assert ([""] + l)[1..] == l;
    assert NormComps([], [""] + l, true) == NormComps([], l, true);
    NormCompsAppend([], dirs, ["..", ""], true);
    NormCompsPlain([], dirs, true);
    assert [] + dirs == dirs;
    assert NormStep(dirs, "..", true) == dirs[..n - 1];
    assert ["..", ""][1..] == [""];
    assert NormComps(dirs[..n - 1], [""], true) == dirs[..n - 1];
  }

  lemma ParentJoin(dirs: seq<string>)
    requires |dirs| >= 1
    ensures Join(dirs) + "/../" == Join(dirs + ["..", ""])
  {
    JoinSnoc(dirs, "..");
    JoinSnoc(dirs + [".."], "");
    assert dirs + [".."] + [""] == dirs + ["..", ""];
    ParentSuffix(Join(dirs));
  }

  lemma ParentSuffix(j: string)
    ensures j + "/" + ".." + "/" + "" == j + "/../"
  {
  }

  lemma ParentString(dirs: seq<string>, p: string)
    requires |dirs| >= 1
    requires forall i :: 0 <= i < |dirs| ==> IsSegment(dirs[i])
    requires p == "/" + Join(dirs) + "/../"
    ensures InitialSlashes(p) == 1
    ensures Split(p) == [""] + (dirs + ["..", ""])
  {
    var l := dirs + ["..", ""];
    ParentJoin(dirs);
    var q := "/" + Join(l);
    assert q == "/" + Join(dirs) + "/../";
    JoinStartsWith(l);
    assert l[0] == dirs[0];
    assert IsSegment(dirs[0]);
    assert q[1] == dirs[0][0];
    assert q[1] != '/';
    assert InitialSlashes(q) == 1;
    forall i | 0 <= i < |l| ensures '/' !in l[i] {
      if i < |dirs| {
        assert l[i] == dirs[i];
        assert IsSegment(dirs[i]);
      }
    }
    SplitJoin(l);
    assert q[0] == '/';
    assert q[1..] == Join(l);
    assert Split(q) == [""] + Split(q[1..]);
  }

  /** normpath of `/d1/.../dn/../` is `/d1/.../d(n-1)`: the last directory is dropped. */
  lemma NormPathParent(dirs: seq<string>, p: string)
    requires |dirs| >= 1
    requires forall i :: 0 <= i < |dirs| ==> IsSegment(dirs[i])
    requires p == "/" + Join(dirs) + "/../"
    ensures NormPath(p) == "/" + Join(dirs[..|dirs| - 1])
  {
    ParentString(dirs, p);
    ParentComps(dirs);
  }
  /** Text after a path that is not all slashes does not change its leading slashes. */
  lemma InitialSlashesPrefix(d: string, x: string)
    requires !AllSlashes(d)
    ensures InitialSlashes(d + x) == InitialSlashes(d)
  {
    var p := d + x;
    if d[0] == '/' && |d| >= 2 && d[1] == '/' {
      assert |d| >= 3;
      assert p[2] == d[2];
    } else if d[0] == '/' && |d| >= 2 {
      assert p[1] == d[1];
    }
    assert p[0] == d[0];
  }

  /** normpath's loop over `d + '/' + t`, for t some slashes and then plain components. */
  lemma NormCompsBelow(d: string, t: string, e: nat, cs: seq<string>, rooted: bool)
    requires forall i :: 0 <= i < |cs| ==> IsSegment(cs[i])
    requires Split(t) == EmptyComps(e) + cs
    ensures NormComps([], Split(d + "/" + t), rooted) == NormComps([], Split(d), rooted) + cs
  {
    SplitAppend(d, t);
    var a := NormComps([], Split(d), rooted);
    NormCompsAppend([], Split(d), EmptyComps(e) + cs, rooted);
    NormCompsAppend(a, EmptyComps(e), cs, rooted);
    NormCompsEmpty(a, e, rooted);
    NormCompsPlain(a, cs, rooted);
  }

  /** A normal, non-empty component list does not join into something ending in a slash. */
  lemma NormalJoinLast(k: nat, a: seq<string>)
    requires k <= 2 && Normal(a, k > 0) && a != []
    ensures !EndsWith(Slashes(k) + Join(a), "/")
  {
    var last := a[|a| - 1];
    JoinEndsWith(a);
    var j := Join(a);
    assert j[|j| - |last|..] == last;
    assert j[|j| - 1] == last[|last| - 1];
    assert (Slashes(k) + j)[|Slashes(k) + j| - 1] == j[|j| - 1];
  }

  /** Joining plain components onto normpath's output form, as `os.path.join` does. */
  lemma JoinOntoNormal(k: nat, a: seq<string>, cs: seq<string>)
    requires k <= 2 && Normal(a, k > 0)
    requires |cs| >= 1 && forall i :: 0 <= i < |cs| ==> IsSegment(cs[i])
    ensures var r := Slashes(k) + Join(a);
      Slashes(k) + Join(a + cs) == if r == "" then Join(cs) else PathJoin(r, Join(cs))
  {
    JoinPlain(cs);
    if a == [] {
      assert a + cs == cs;
    } else {
      JoinAppend(a, cs);
      NormalJoinLast(k, a);
      var r := Slashes(k) + Join(a);
      assert Slashes(k) + (Join(a) + "/" + Join(cs)) == r + "/" + Join(cs);
      assert PathJoin(r, Join(cs)) == r + "/" + Join(cs);
    }
  }

  /**
   * normpath of `d + '/' + t`, when t is some slashes and then plain
   * components: those components joined onto normpath of d.
   */
  lemma NormPathBelow(d: string, t: string, e: nat, cs: seq<string>)
    requires !AllSlashes(d)
    requires |cs| >= 1 && forall i :: 0 <= i < |cs| ==> IsSegment(cs[i])
    requires Split(t) == EmptyComps(e) + cs
    ensures NormPath(d + "/" + t) == if NormPath(d) == "." then Join(cs) else PathJoin(NormPath(d), Join(cs))
  {
    var k := InitialSlashes(d);
    InitialSlashesPrefix(d, "/" + t);
    assert d + "/" + t == d + ("/" + t);
    NormCompsBelow(d, t, e, cs, k > 0);
    var a := NormComps([], Split(d), k > 0);
    NormCompsNormal([], Split(d), k > 0);
    JoinOntoNormal(k, a, cs);
    JoinPlain(cs);
    assert Slashes(k) + Join(a + cs) != "" by {
      if a == [] { assert a + cs == cs; } else { JoinAppend(a, cs); }
    }
  }
}
