/** Resolution of symbolic links along a path whose end may not exist yet. Absolute paths
    are their components; a link's target is its text cut at the slashes. */
module Resolve {

  const MAX_SYMLINKS := 255

  type Path = seq<string>

  datatype Entry = Missing | Directory | Other | Link(target: seq<string>) | Unreadable

  /** What `Lstat` and `Readlink` answer. */
  type Disk = Path -> Entry

  datatype Walked = Walked(dest: Path, links: nat) | Failed

  predicate Absolute(target: seq<string>) {
    |target| > 1 && target[0] == ""
  }

  /** A ".." drops the last component, but stays where dropping it would reach the root or
      where it follows another that stayed. */
  function Up(dest: Path): Path {
    if |dest| > 1 && dest[|dest| - 1] != ".." then dest[..|dest| - 1] else dest + [".."]
  }

  /** One walk along `elems` from `dest`, as `filepath.EvalSymlinks` makes it; `more` says
      that further components follow, so that the last one here must be a directory. */
  function Walk(disk: Disk, dest: Path, elems: seq<string>, links: nat, more: bool): (w: Walked)
    requires links <= MAX_SYMLINKS
    ensures w.Walked? ==> w.links <= MAX_SYMLINKS
    decreases MAX_SYMLINKS - links, |elems|
  {
    if elems == [] then Walked(dest, links)
    else
      var elem, rest := elems[0], elems[1..];
      if elem == "" || elem == "." then Walk(disk, dest, rest, links, more)
      else if elem == ".." then Walk(disk, Up(dest), rest, links, more)
      else match disk(dest + [elem])
        case Missing => Failed
        case Unreadable => Failed
        case Directory => Walk(disk, dest + [elem], rest, links, more)
        case Other => if rest != [] || more then Failed else Walked(dest + [elem], links)
        case Link(target) =>
          if links == MAX_SYMLINKS then Failed
          else Walk(disk, if Absolute(target) then [] else dest, target + rest, links + 1, more)
  }

  /** Resolves one entry of a directory resolved so far, following links within the limit. */
  method EvalEntry(disk: Disk, dir: Path, name: string, links: nat) returns (ok: bool, dest: Path, links': nat)
    requires links <= MAX_SYMLINKS
    ensures links' <= MAX_SYMLINKS
    ensures ok ==> Walk(disk, dir, [name], links, false) == Walked(dest, links')
    ensures !ok ==> Walk(disk, dir, [name], links, false) == Failed
  {
    dest, links' := dir, links;
    var path := [name];
    while path != []
      invariant links' <= MAX_SYMLINKS
      invariant Walk(disk, dest, path, links', false) == Walk(disk, dir, [name], links, false)
      decreases MAX_SYMLINKS - links', |path|
    {
      var elem, rest, more := path[0], path[1..], |path| > 1;
      path := rest;
      if elem == "" || elem == "." {
        continue;
      }
      if elem == ".." {
        dest := Up(dest);
        continue;
      }
      dest := dest + [elem];
      var entry := disk(dest);
      if entry.Missing? || entry.Unreadable? {
        return false, [], links';
      }
      if !entry.Link? {
        if entry.Other? && more {
          return false, [], links';
        }
        continue;
      }
      if links' == MAX_SYMLINKS {
        return false, [], links';
      }
      links' := links' + 1;
      assert dest[..|dest| - 1] + [elem] == dest;
      dest := if Absolute(entry.target) then [] else dest[..|dest| - 1];
      path := entry.target + rest;
    }
    return true, dest, links';
  }

  // ----- lexical cleaning -----

  predicate Ordinary(p: Path) {
    forall i :: 0 <= i < |p| ==> p[i] != "" && p[i] != "." && p[i] != ".."
  }

  function Push(clean: Path, elem: string): Path {
    if elem == "" || elem == "." then clean
    else if elem == ".." then (if clean == [] then [] else clean[..|clean| - 1])
    else clean + [elem]
  }

  /** `filepath.Clean` of a rooted path. */
  function Clean(p: Path): (c: Path)
    ensures Ordinary(c)
  {
    if p == [] then [] else Push(Clean(p[..|p| - 1]), p[|p| - 1])
  }

  lemma {:induction false} CleanOrdinary(p: Path)
    requires Ordinary(p)
    ensures Clean(p) == p
    decreases |p|
  {
    if p != [] {
      CleanOrdinary(p[..|p| - 1]);
    }
  }

  /** Cleaning the front of a path first changes nothing. */
  lemma {:induction false} CleanInParts(a: Path, b: Path)
    ensures Clean(Clean(a) + b) == Clean(a + b)
    decreases |b|
  {
    if b == [] {
      assert a + b == a && Clean(a) + b == Clean(a);
      CleanOrdinary(Clean(a));
    } else {
      var n := |b| - 1;
      CleanInParts(a, b[..n]);
      assert (a + b)[..|a + b| - 1] == a + b[..n];
      assert (Clean(a) + b)[..|Clean(a) + b| - 1] == Clean(a) + b[..n];
    }
  }

  // ----- the deepest ancestor that resolves -----

  datatype Resolved = Resolved(path: Path) | Unresolved

  /** `filepath.EvalSymlinks` of an absolute path. */
  function EvalSymlinks(disk: Disk, p: Path): Resolved {
    match Walk(disk, [], p, 0, false)
    case Walked(dest, _) => Resolved(Clean(dest))
    case Failed => Unresolved
  }

  /** The deepest of the first `k` components of `p` that resolves, joined with what lies below it. */
  function DeepestFrom(disk: Disk, p: Path, k: nat): Path
    requires k <= |p|
  {
    match EvalSymlinks(disk, p[..k])
    case Resolved(dest) => Clean(dest + p[k..])
    case Unresolved => if k == 0 then p else DeepestFrom(disk, p, k - 1)
  }

  /** Asks about one ancestor after another, from the path itself up. */
  method EvalAncestorByAncestor(disk: Disk, p: Path) returns (r: Path)
    ensures r == DeepestFrom(disk, p, |p|)
  {
    var k := |p|;
    while true
      invariant 0 <= k <= |p|
      invariant DeepestFrom(disk, p, k) == DeepestFrom(disk, p, |p|)
      decreases k
    {
      var resolved := EvalSymlinks(disk, p[..k]);
      if resolved.Resolved? {
        return Clean(resolved.path + p[k..]);
      }
      if k == 0 {
        return p;
      }
      k := k - 1;
    }
  }

  ghost predicate NothingBelowFiles(disk: Disk) {
    forall d: Path, name: string :: disk(d) == Other && Ordinary([name]) ==> disk(d + [name]) == Missing
  }

  lemma {:induction false} WalkInParts(disk: Disk, dest: Path, a: seq<string>, b: seq<string>, links: nat, more: bool)
    requires links <= MAX_SYMLINKS && b != []
    ensures var first := Walk(disk, dest, a, links, true);
      Walk(disk, dest, a + b, links, more) == if first.Failed? then Failed else Walk(disk, first.dest, b, first.links, more)
    decreases MAX_SYMLINKS - links, |a|
  {
    if a == [] {
      assert a + b == b;
    } else {
      var elem, rest := a[0], a[1..];
      assert (a + b)[0] == elem && (a + b)[1..] == rest + b;
      if elem == "" || elem == "." {
        WalkInParts(disk, dest, rest, b, links, more);
      } else if elem == ".." {
        WalkInParts(disk, Up(dest), rest, b, links, more);
      } else {
        var entry := disk(dest + [elem]);
        if entry.Directory? {
          WalkInParts(disk, dest + [elem], rest, b, links, more);
        } else if entry.Link? && links < MAX_SYMLINKS {
          assert entry.target + (rest + b) == (entry.target + rest) + b;
          WalkInParts(disk, if Absolute(entry.target) then [] else dest, entry.target + rest, b, links + 1, more);
        }
      }
    }
  }

  /** A walk that is fine unless more follows has ended at something that is not a directory. */
  lemma {:induction false} EndsAtFile(disk: Disk, dest: Path, elems: seq<string>, links: nat)
    requires links <= MAX_SYMLINKS && Walk(disk, dest, elems, links, false).Walked?
    ensures var w := Walk(disk, dest, elems, links, false);
      Walk(disk, dest, elems, links, true) == w || (Walk(disk, dest, elems, links, true) == Failed && disk(w.dest) == Other)
    decreases MAX_SYMLINKS - links, |elems|
  {
    if elems != [] {
      var elem, rest := elems[0], elems[1..];
      if elem == "" || elem == "." {
        EndsAtFile(disk, dest, rest, links);
      } else if elem == ".." {
        EndsAtFile(disk, Up(dest), rest, links);
      } else {
        var entry := disk(dest + [elem]);
        if entry.Directory? {
          EndsAtFile(disk, dest + [elem], rest, links);
        } else if entry.Link? {
          EndsAtFile(disk, if Absolute(entry.target) then [] else dest, entry.target + rest, links + 1);
        }
      }
    }
  }

  /** Resolving one more component of a path goes on where the walk along the others stopped. */
  lemma WalkOneMore(disk: Disk, p: Path, k: nat)
    requires NothingBelowFiles(disk) && Ordinary(p) && k < |p|
    ensures var w := Walk(disk, [], p[..k], 0, false);
      w.Walked? ==> Walk(disk, [], p[..k + 1], 0, false) == Walk(disk, w.dest, [p[k]], w.links, false)
    ensures Walk(disk, [], p[..k], 0, false).Failed? ==> Walk(disk, [], p[..k + 1], 0, false).Failed?
  {
    var w := Walk(disk, [], p[..k], 0, false);
    assert p[..k + 1] == p[..k] + [p[k]];
    WalkInParts(disk, [], p[..k], [p[k]], 0, false);
    assert Ordinary([p[k]]);
    if w.Walked? {
      EndsAtFile(disk, [], p[..k], 0);
    } else {
      StillFails(disk, [], p[..k], 0);
    }
  }

  lemma {:induction false} StillFails(disk: Disk, dest: Path, elems: seq<string>, links: nat)
    requires links <= MAX_SYMLINKS && Walk(disk, dest, elems, links, false).Failed?
    ensures Walk(disk, dest, elems, links, true).Failed?
    decreases MAX_SYMLINKS - links, |elems|
  {
    var elem, rest := elems[0], elems[1..];
    if elem == "" || elem == "." {
      StillFails(disk, dest, rest, links);
    } else if elem == ".." {
      StillFails(disk, Up(dest), rest, links);
    } else {
      var entry := disk(dest + [elem]);
      if entry.Directory? {
        StillFails(disk, dest + [elem], rest, links);
      } else if entry.Link? && links < MAX_SYMLINKS {
        StillFails(disk, if Absolute(entry.target) then [] else dest, entry.target + rest, links + 1);
      }
    }
  }

  /** Below an ancestor that does not resolve nothing does. */
  lemma {:induction false} DeepestIs(disk: Disk, p: Path, k: nat, j: nat)
    requires NothingBelowFiles(disk) && Ordinary(p) && k <= j <= |p|
    requires Walk(disk, [], p[..k], 0, false).Walked? && (k < |p| ==> Walk(disk, [], p[..k + 1], 0, false).Failed?)
    ensures DeepestFrom(disk, p, j) == DeepestFrom(disk, p, k)
    ensures j > k ==> Walk(disk, [], p[..j], 0, false).Failed?
    decreases j
  {
    if j > k {
      DeepestIs(disk, p, k, j - 1);
      if j - 1 > k {
        FailsDeeper(disk, p, j - 1);
      }
    }
  }

  lemma FailsDeeper(disk: Disk, p: Path, j: nat)
    requires NothingBelowFiles(disk) && Ordinary(p) && j < |p| && Walk(disk, [], p[..j], 0, false).Failed?
    ensures Walk(disk, [], p[..j + 1], 0, false).Failed?
  {
    WalkOneMore(disk, p, j);
  }

  /** One walk down the path, to the first component that does not resolve, finds the same
      as asking about every ancestor from the deepest up. */
  method EvalDeepestAncestor(disk: Disk, p: Path) returns (r: Path)
    requires Ordinary(p) && NothingBelowFiles(disk)
    ensures r == DeepestFrom(disk, p, |p|)
  {
    var dest, k, links: nat := [], 0, 0;
    while k < |p|
      invariant 0 <= k <= |p| && links <= MAX_SYMLINKS
      invariant Walk(disk, [], p[..k], 0, false) == Walked(dest, links)
      decreases |p| - k
    {
      WalkOneMore(disk, p, k);
      var ok, resolved, links' := EvalEntry(disk, dest, p[k], links);
      if !ok {
        break;
      }
      dest, k, links := resolved, k + 1, links';
    }
    DeepestIs(disk, p, k, |p|);
    CleanInParts(dest, p[k..]);
    r := Clean(dest + p[k..]);
  }
}
