/** The Python string and POSIX path primitives the dashboard relies on: str.split with an
    explicit one-character separator, str.join, and posixpath.join, basename and dirname. */
module PyStr {

  /** s.split(sep): the pieces between occurrences of sep; always at least one piece. */
  function Split(s: string, sep: char): (parts: seq<string>)
    ensures |parts| >= 1
    decreases |s|
  {
    if |s| == 0 then [""]
    else
      var rest := Split(s[1..], sep);
      if s[0] == sep then [""] + rest
      else [[s[0]] + rest[0]] + rest[1..]
  }

  /** The combined length of the pieces. */
  function TotalLength(parts: seq<string>): nat
    decreases |parts|
  {
    if |parts| == 0 then 0 else |parts[0]| + TotalLength(parts[1..])
  }

  /** sep.join(parts): the pieces in order, with one separator between neighbours. */
  function Join(sep: string, parts: seq<string>): (r: string)
    ensures |parts| == 0 ==> r == ""
    ensures |parts| > 0 && |sep| == 1 ==> |r| == TotalLength(parts) + |parts| - 1
    ensures |parts| > 0 ==> parts[0] <= r
    decreases |parts|
  {
    if |parts| == 0 then ""
    else if |parts| == 1 then parts[0]
    else parts[0] + sep + Join(sep, parts[1..])
  }

  function Last(parts: seq<string>): string
    requires |parts| >= 1
  {
    parts[|parts| - 1]
  }

  /** A string splits into a single piece exactly when it holds no separator. */
  lemma {:induction false} SplitSingle(s: string, sep: char)
    ensures |Split(s, sep)| == 1 <==> sep !in s
    decreases |s|
  {
    if |s| > 0 {
      SplitSingle(s[1..], sep);
      assert s == [s[0]] + s[1..];
    }
  }

  /** No piece of a split contains the separator. */
  lemma {:induction false} SplitPiecesFree(s: string, sep: char)
    ensures forall k :: 0 <= k < |Split(s, sep)| ==> sep !in Split(s, sep)[k]
    decreases |s|
  {
    if |s| > 0 {
      SplitPiecesFree(s[1..], sep);
    }
  }

  /** Joining the pieces with the separator gives the string back. */
  lemma {:induction false} JoinSplit(s: string, sep: char)
    ensures Join([sep], Split(s, sep)) == s
    decreases |s|
  {
    if |s| > 0 {
      var rest := Split(s[1..], sep);
      JoinSplit(s[1..], sep);
      if s[0] == sep {
        assert Split(s, sep) == [""] + rest;
        assert (([""] + rest)[1..]) == rest;
      } else {
        var parts := [[s[0]] + rest[0]] + rest[1..];
        if |rest| > 1 {
          assert parts[1..] == rest[1..];
          assert Join([sep], rest) == rest[0] + [sep] + Join([sep], rest[1..]);
        }
      }
    }
  }

  /** Splitting at a separator character splits the two sides independently. */
  lemma {:induction false} SplitAt(a: string, b: string, sep: char)
    ensures Split(a + [sep] + b, sep) == Split(a, sep) + Split(b, sep)
    decreases |a|
  {
    if |a| == 0 {
      assert a + [sep] + b == [sep] + b;
      assert ([sep] + b)[1..] == b;
    } else {
      var c, t := a[0], a[1..];
      assert a == [c] + t;
      assert a + [sep] + b == [c] + (t + [sep] + b);
      SplitAt(t, b, sep);
      SplitCons(c, t + [sep] + b, sep);
      SplitCons(c, t, sep);
      ConsPieces(c == sep, c, Split(t, sep), Split(b, sep));
    }
  }

  /** Putting a character in front of the first piece (or a new empty piece, at a
      separator) commutes with appending further pieces. */
  lemma ConsPieces(isSep: bool, c: char, left: seq<string>, right: seq<string>)
    requires |left| >= 1
    ensures var whole := left + right;
            (if isSep then [""] + whole else [[c] + whole[0]] + whole[1..])
            == (if isSep then [""] + left else [[c] + left[0]] + left[1..]) + right
  {
    if !isSep {
      assert (left + right)[1..] == left[1..] + right;
    }
  }

  lemma SplitCons(c: char, t: string, sep: char)
    ensures Split([c] + t, sep) == if c == sep then [""] + Split(t, sep)
                                   else [[c] + Split(t, sep)[0]] + Split(t, sep)[1..]
  {
    assert ([c] + t)[1..] == t;
  }

  /** The last piece is the text after the last separator: a suffix of s without the
      separator, which is either all of s or preceded by the separator. */
  lemma {:induction false} SplitLast(s: string, sep: char)
    ensures var l := Last(Split(s, sep));
            && |l| <= |s| && s[|s| - |l|..] == l && sep !in l
            && (|l| == |s| || s[|s| - |l| - 1] == sep)
    decreases |s|
  {
    if |s| > 0 {
      var t := s[1..];
      assert s == [s[0]] + t;
      SplitCons(s[0], t, sep);
      SplitLast(t, sep);
      SplitSingle(t, sep);
      var rest := Split(t, sep);
      var lr := Last(rest);
      assert s[|s| - |lr|..] == t[|t| - |lr|..];
      if s[0] == sep {
        assert Last(Split(s, sep)) == lr;
      } else if |rest| > 1 {
        assert Split(s, sep)[1..] == rest[1..];
        assert Last(Split(s, sep)) == lr;
        assert sep in t;
        assert |lr| < |t|;
      } else {
        var l := [s[0]] + rest[0];
        assert Last(Split(s, sep)) == l;
        assert lr == rest[0] == t;
        assert l == s;
      }
    }
  }

  /** The first piece is the text before the first separator: a prefix of s without the
      separator, which is either all of s or followed by the separator. */
  lemma {:induction false} SplitFirst(s: string, sep: char)
    ensures var f := Split(s, sep)[0];
            && |f| <= |s| && s[..|f|] == f && sep !in f
            && (|f| == |s| || s[|f|] == sep)
    decreases |s|
  {
    SplitPiecesFree(s, sep);
    if |s| > 0 && s[0] != sep {
      SplitFirst(s[1..], sep);
    }
  }

  /** What posixpath.join puts before a relative b: a itself when it is empty or already ends
      with '/', otherwise a followed by '/'. */
  function JoinPrefix(a: string): string
  {
    if |a| == 0 || a[|a| - 1] == '/' then a else a + "/"
  }

  /** posixpath.join(a, b): an absolute b replaces a; otherwise a '/' is inserted unless a is
      empty or already ends with one. */
  function PathJoin(a: string, b: string): (r: string)
    ensures |b| <= |r| && r[|r| - |b|..] == b
    ensures |r| == |b| || r[|r| - |b| - 1] == '/'
  {
    if |b| > 0 && b[0] == '/' then b else JoinPrefix(a) + b
  }

  /** p.rfind('/') + 1: the index just after the last '/', 0 when there is none. */
  function AfterLastSlash(p: string): (i: nat)
    ensures i <= |p|
    ensures i > 0 ==> p[i - 1] == '/'
    ensures forall k :: i <= k < |p| ==> p[k] != '/'
    decreases |p|
  {
    if |p| == 0 then 0
    else if p[|p| - 1] == '/' then |p|
    else AfterLastSlash(p[..|p| - 1])
  }

  /** s.rstrip('/'). */
  function RStripSlashes(s: string): (r: string)
    ensures |r| <= |s| && r == s[..|r|]
    ensures |r| > 0 ==> r[|r| - 1] != '/'
    ensures forall k :: |r| <= k < |s| ==> s[k] == '/'
    decreases |s|
  {
    if |s| > 0 && s[|s| - 1] == '/' then RStripSlashes(s[..|s| - 1]) else s
  }

  predicate AllSlashes(s: string)
  {
    forall k :: 0 <= k < |s| ==> s[k] == '/'
  }

  /** posixpath.basename(p): the '/'-free tail after the last '/'. */
  function Basename(p: string): (r: string)
    ensures '/' !in r
    ensures |r| <= |p| && p[|p| - |r|..] == r
    ensures |r| == |p| || p[|p| - |r| - 1] == '/'
  {
    p[AfterLastSlash(p)..]
  }

  /** posixpath.dirname(p): the head up to the last '/', with trailing slashes removed
      unless the head consists of slashes only. */
  function Dirname(p: string): (r: string)
    ensures r <= p
    ensures '/' !in p ==> r == ""
  {
    var head := p[..AfterLastSlash(p)];
    if |head| > 0 && !AllSlashes(head) then RStripSlashes(head) else head
  }

  /** The path components a join produces are recovered by dirname and basename: joining a
      name without '/' onto a prefix, and then a second name without '/', gives a path whose
      dirname ends in the first name and whose basename is the second. */
  lemma DirnameBasenameOfJoin(prefix: string, name: string, child: string)
    requires |name| > 0 && '/' !in name
    requires |child| > 0 && '/' !in child
    ensures Dirname(PathJoin(PathJoin(prefix, name), child)) == PathJoin(prefix, name)
    ensures Basename(PathJoin(prefix, name)) == name
    ensures Basename(PathJoin(PathJoin(prefix, name), child)) == child
  {
    var x := PathJoin(prefix, name);
    assert |x| >= |name| && x[|x| - |name|..] == name;
    assert x[|x| - 1] != '/';
    var p := PathJoin(x, child);
    assert p == x + "/" + child;
    NoSlashSuffix(p, child);
    assert AfterLastSlash(p) == |x| + 1;
    var head := p[..|x| + 1];
    assert head == x + "/";
    assert !AllSlashes(head) by { assert head[|x| - 1] != '/'; }
    RStripOne(x);
    NoSlashSuffix(x, name);
  }

  /** The basename of a join is the '/'-free name joined on. */
  lemma BasenameOfJoin(a: string, b: string)
    requires '/' !in b
    ensures Basename(PathJoin(a, b)) == b
  {
    var p := PathJoin(a, b);
    NoSlashSuffix(p, b);
    assert Basename(p) == p[|p| - |b|..];
  }

  /** When a string ends in '/' + t and t has no '/', the last '/' is the one before t. */
  lemma NoSlashSuffix(p: string, t: string)
    requires '/' !in t && |t| <= |p| && p[|p| - |t|..] == t
    requires |t| == |p| || p[|p| - |t| - 1] == '/'
    ensures AfterLastSlash(p) == |p| - |t|
  {
  }

  lemma RStripOne(x: string)
    requires |x| > 0 && x[|x| - 1] != '/'
    ensures RStripSlashes(x + "/") == x
  {
    assert (x + "/")[..|x|] == x;
  }

  /** Joining a name and then a child equals joining "name/child" at once. */
  lemma JoinNested(prefix: string, name: string, child: string)
    requires |name| > 0 && '/' !in name
    requires |child| > 0 && '/' !in child
    ensures PathJoin(PathJoin(prefix, name), child) == PathJoin(prefix, name + "/" + child)
    ensures PathJoin(name, child) == name + "/" + child
  {
    assert name[0] != '/' && child[0] != '/';
    var nested := name + "/" + child;
    assert nested[0] == name[0];
    var x := JoinPrefix(prefix) + name;
    assert x[|x| - 1] == name[|name| - 1] != '/';
    assert JoinPrefix(x) == x + "/";
    assert x + "/" + child == JoinPrefix(prefix) + nested;
  }
}
