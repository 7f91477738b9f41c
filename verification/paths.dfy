/**
  The POSIX flavour of `os.path.basename`: the part of a path after its last
  "/" separator (the whole path when it has none, and the empty string when
  it ends in "/").
*/
module Paths {

  const Separator: char := '/'

  /**
    The last component of `p`, which IsLastComponent characterises
    completely (BasenameUnique).
  */
  function Basename(p: string): (b: string)
    ensures IsLastComponent(p, b)
  {
    if |p| == 0 || p[|p| - 1] == Separator then ""
    else Basename(p[..|p| - 1]) + [p[|p| - 1]]
  }

  /** No position of `p` that falls inside its suffix `t` holds a separator, when `t` holds none. */
  lemma SeparatorFreeTail(p: string, t: string)
    requires |t| <= |p| && t == p[|p| - |t|..]
    requires forall i :: 0 <= i < |t| ==> t[i] != Separator
    ensures forall i :: |p| - |t| <= i < |p| ==> p[i] != Separator
  {
    forall i | |p| - |t| <= i < |p|
      ensures p[i] != Separator
    {
      assert p[i] == t[i - (|p| - |t|)];
    }
  }

  /**
    `b` is the last component of `p`: a suffix of `p` that holds no separator
    and is the longest such suffix (it is either all of `p` or preceded by a
    separator).
  */
  predicate IsLastComponent(p: string, b: string)
  {
    && |b| <= |p| && b == p[|p| - |b|..]
    && (forall i :: 0 <= i < |b| ==> b[i] != Separator)
    && (|b| < |p| ==> p[|p| - |b| - 1] == Separator)
  }

  /** Two suffixes with the shape of a last component are the same suffix. */
  lemma LastComponentUnique(p: string, b: string, c: string)
    requires IsLastComponent(p, b) && IsLastComponent(p, c)
    ensures b == c
  {
    SeparatorFreeTail(p, b);
    // Neither can be the shorter one: the position just before it falls inside the other.
    SeparatorFreeTail(p, c);
  }

  /** The basename is the only last component of a path. */
  lemma BasenameUnique(p: string, b: string)
    requires IsLastComponent(p, b)
    ensures b == Basename(p)
  {
    LastComponentUnique(p, b, Basename(p));
  }

  /** A path without a directory part is its own basename. */
  lemma BasenameOfName(name: string)
    requires Separator !in name
    ensures Basename(name) == name
  {
    BasenameUnique(name, name);
  }

  /** Directory components are dropped: the basename of "dir/" + rest is that of rest. */
  lemma BasenameDropsDirectory(dir: string, rest: string)
    ensures Basename(dir + [Separator] + rest) == Basename(rest)
  {
    var p := dir + [Separator] + rest;
    var b := Basename(rest);
    assert p[|p| - |b|..] == b;
    if |b| == |rest| {
      assert p[|p| - |b| - 1] == Separator;
    } else {
      assert p[|p| - |b| - 1] == rest[|rest| - |b| - 1];
    }
    BasenameUnique(p, b);
  }

  /** Example: "a/b/c.png" names the file "c.png". */
  lemma BasenameExample()
    ensures Basename("a/b/c.png") == "c.png"
  {
    var dir, name := "a/b", "c.png";
    assert Separator !in name;
    BasenameOfName(name);
    BasenameDropsDirectory(dir, name);
    assert "a/b/c.png" == dir + [Separator] + name;
  }
}
