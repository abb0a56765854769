/**
 The components of an absolute path.

 A path is taken apart from its end, directory by directory, and the components found are then
 reversed in place.  Paths are absolute, clean and separated by slashes.
 */
module PathComponents {

  predicate IsComponent(c: string) {
    c != "" && '/' !in c
  }

  ghost predicate AllComponents(cs: seq<string>) {
    forall i :: 0 <= i < |cs| ==> IsComponent(cs[i])
  }

  /** Every component with a slash before it. */
  function Joined(cs: seq<string>): string {
    if cs == [] then "" else Joined(cs[..|cs| - 1]) + "/" + cs[|cs| - 1]
  }

  /** The path with these components; the root has none. */
  function PathOf(cs: seq<string>): string {
    if cs == [] then "/" else Joined(cs)
  }

  /** The position after the last slash. */
  function BaseStart(p: string): (i: nat)
    ensures i <= |p|
  {
    if p == "" || p[|p| - 1] == '/' then |p| else BaseStart(p[..|p| - 1])
  }

  function Base(p: string): string {
    if p == "/" then "/" else p[BaseStart(p)..]
  }

  function Dir(p: string): string {
    if BaseStart(p) <= 1 then "/" else p[..BaseStart(p) - 1]
  }

  /** The last slash of a joined path is the one before its last component. */
  lemma {:induction false} BaseStartUnique(front: string, c: string)
    requires '/' !in c
    ensures BaseStart(front + "/" + c) == |front| + 1
    decreases |c|
  {
    var p := front + "/" + c;
    if c == "" {
      assert p[|p| - 1] == '/';
    } else {
      assert p[|p| - 1] == c[|c| - 1] && p[..|p| - 1] == front + "/" + c[..|c| - 1];
      BaseStartUnique(front, c[..|c| - 1]);
    }
  }

  lemma {:induction false} JoinedStarts(cs: seq<string>)
    requires AllComponents(cs) && cs != []
    ensures |Joined(cs)| >= 2
  {
    if |cs| > 1 {
      JoinedStarts(cs[..|cs| - 1]);
    }
  }

  /** Taking the last component off. */
  lemma LastComponent(cs: seq<string>)
    requires AllComponents(cs) && cs != []
    ensures Base(PathOf(cs)) == cs[|cs| - 1] && Dir(PathOf(cs)) == PathOf(cs[..|cs| - 1]) && PathOf(cs) != Dir(PathOf(cs))
  {
    var front, c := cs[..|cs| - 1], cs[|cs| - 1];
    var p := PathOf(cs);
    JoinedStarts(cs);
    BaseStartUnique(Joined(front), c);
    assert p == Joined(front) + "/" + c;
    assert p[|Joined(front)| + 1..] == c && p[..|Joined(front)|] == Joined(front);
    if front != [] {
      JoinedStarts(front);
    }
  }

  /** Different components make different paths. */
  lemma {:induction false} PathOfInjective(a: seq<string>, b: seq<string>)
    requires AllComponents(a) && AllComponents(b) && PathOf(a) == PathOf(b)
    ensures a == b
    decreases |a| + |b|
  {
    if a != [] && b != [] {
      LastComponent(a);
      LastComponent(b);
      PathOfInjective(a[..|a| - 1], b[..|b| - 1]);
      assert a == a[..|a| - 1] + [a[|a| - 1]] && b == b[..|b| - 1] + [b[|b| - 1]];
    } else if a != [] {
      JoinedStarts(a);
    } else if b != [] {
      JoinedStarts(b);
    }
  }

  function Reversed(s: seq<string>): (r: seq<string>)
    ensures |r| == |s| && forall i :: 0 <= i < |s| ==> r[i] == s[|s| - 1 - i]
  {
    seq(|s|, i requires 0 <= i < |s| => s[|s| - 1 - i])
  }

  /** Reverses in place, from the middle outwards. */
  method Reverse(a: array<string>)
    modifies a
    ensures a[..] == Reversed(old(a[..]))
  {
    var i, n := a.Length / 2 - 1, a.Length;
    while i >= 0
      invariant -1 <= i < n / 2 || n < 2
      invariant forall k :: 0 <= k < n && (k <= i || n - 1 - i <= k) ==> a[k] == old(a[k])
      invariant forall k :: 0 <= k < n && i < k < n - 1 - i ==> a[k] == old(a[n - 1 - k])
    {
      var opp := n - 1 - i;
      a[i], a[opp] := a[opp], a[i];
      i := i - 1;
    }
  }

  /** The components of a path, whichever way the path was made of components. */
  method Components(path: string, ghost cs: seq<string>) returns (components: seq<string>)
    requires AllComponents(cs) && path == PathOf(cs)
    ensures components == cs
  {
    var p, found: seq<string> := path, [];
    ghost var left := cs;
    while true
      invariant AllComponents(left) && p == PathOf(left)
      invariant |left| + |found| == |cs| && left == cs[..|left|]
      invariant forall k :: 0 <= k < |found| ==> found[k] == cs[|cs| - 1 - k]
      decreases |left|
    {
      var dir, file := Dir(p), Base(p);
      if left != [] {
        LastComponent(left);
      }
      if p == dir {
        break;
      }
      RootIsItsOwnDir();
      found := found + [file];
      p := dir;
      left := left[..|left| - 1];
    }
    var a := new string[|found|](k requires 0 <= k < |found| => found[k]);
    assert a[..] == found;
    Reverse(a);
    components := a[..];
  }

  lemma RootIsItsOwnDir()
    ensures Dir("/") == "/"
  {
    assert BaseStart("/") == 1;
  }
}
