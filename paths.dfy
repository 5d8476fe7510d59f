/**
 * The two `path/filepath` operations the pipeline uses, for slash-separated
 * paths.  `Base` is written out; `Clean` (lexical normalisation of `.`, `..`
 * and repeated slashes) is left to the caller as an oracle, and `Join` is
 * expressed through it.
 */
module Paths {

  const Separator: char := '/'

  /** `p` with its trailing separators removed. */
  function StripTrailing(p: string): string {
    if p != [] && p[|p| - 1] == Separator then StripTrailing(p[..|p| - 1]) else p
  }

  /** The part of `p` after its last separator. */
  function LastElement(p: string): string {
    if p == [] || p[|p| - 1] == Separator then []
    else LastElement(p[..|p| - 1]) + [p[|p| - 1]]
  }

  /** filepath.Base: the last element of `p`, trailing separators ignored;
      "." for the empty path and "/" for a path of separators only. */
  function Base(p: string): string {
    if p == [] then "."
    else
      var q := StripTrailing(p);
      if q == [] then [Separator] else LastElement(q)
  }

  /** Stripping leaves a prefix that does not end in a separator. */
  lemma {:induction false} StripTrailingShape(p: string)
    ensures |StripTrailing(p)| <= |p| && StripTrailing(p) == p[..|StripTrailing(p)|]
    ensures StripTrailing(p) == [] || StripTrailing(p)[|StripTrailing(p)| - 1] != Separator
  {
    if p != [] && p[|p| - 1] == Separator {
      var q := p[..|p| - 1];
      StripTrailingShape(q);
      var r := StripTrailing(q);
      assert StripTrailing(p) == r;
      assert q[..|r|] == p[..|r|];
    }
  }

  /** The last element is a suffix, empty only when the path is empty or
      ends in a separator. */
  lemma {:induction false} LastElementSuffix(p: string)
    ensures |LastElement(p)| <= |p| && LastElement(p) == p[|p| - |LastElement(p)|..]
    ensures LastElement(p) == [] ==> p == [] || p[|p| - 1] == Separator
  {
    if p != [] && p[|p| - 1] != Separator {
      var n := |p| - 1;
      LastElementSuffix(p[..n]);
      var r := LastElement(p[..n]);
      assert r == p[n - |r|..n];
      assert p[n - |r|..] == p[n - |r|..n] + [p[n]];
    }
  }

  /** The last element contains no separator. */
  lemma {:induction false} LastElementFree(p: string)
    ensures Separator !in LastElement(p)
  {
    if p != [] && p[|p| - 1] != Separator {
      LastElementFree(p[..|p| - 1]);
    }
  }

  /** A base name is never empty and is a single element, or the root. */
  lemma BaseIsOneElement(p: string)
    ensures Base(p) != []
    ensures Base(p) == [Separator] || Separator !in Base(p)
  {
    if p != [] {
      StripTrailingShape(p);
      LastElementSuffix(StripTrailing(p));
      LastElementFree(StripTrailing(p));
    }
  }

  /** filepath.Join(dir, elem) for a non-empty `dir`: the two joined by a
      separator, then cleaned. */
  function Join(clean: string -> string, dir: string, elem: string): string
    requires dir != []
  {
    clean(dir + [Separator] + elem)
  }

  /** The last element of `dir/name` is `name` when `name` is a single element. */
  lemma {:induction false} LastElementOfChild(dir: string, name: string)
    requires Separator !in name
    ensures LastElement(dir + [Separator] + name) == name
    decreases |name|
  {
    var p := dir + [Separator] + name;
    if name == [] {
      assert p[|p| - 1] == Separator;
    } else {
      var init := name[..|name| - 1];
      assert p[..|p| - 1] == dir + [Separator] + init;
      assert p[|p| - 1] == name[|name| - 1];
      LastElementOfChild(dir, init);
      assert name == init + [name[|name| - 1]];
    }
  }

  /** Base of a file directly inside a directory is the file's own name,
      extension included. */
  lemma BaseOfChild(dir: string, name: string)
    requires name != [] && Separator !in name
    ensures Base(dir + [Separator] + name) == name
  {
    var p := dir + [Separator] + name;
    assert p[|p| - 1] == name[|name| - 1] != Separator;
    assert StripTrailing(p) == p;
    LastElementOfChild(dir, name);
  }
}
