/** A volume as a map from paths to objects, and manifests of the trees in it. */
module Trees {

  /** Components below the volume's root; the root itself is not an entry. */
  type Path = seq<string>

  datatype Kind = Directory | Regular(size: int, hash: string) | Link

  /** What a manifest records about one object: its kind, with the size and checksum of a
      file, its device and inode, and the rest (mode bits; a file's mtime; a link's target). */
  datatype Entry = Entry(kind: Kind, identity: nat, detail: string)

  type Disk = map<Path, Entry>

  predicate Disjoint(a: Path, b: Path) {
    !(a <= b) && !(b <= a)
  }

  function Parent(p: Path): Path
    requires p != []
  {
    p[..|p| - 1]
  }

  predicate IsDirectory(disk: Disk, p: Path) {
    p in disk && disk[p].kind.Directory?
  }

  /** Every object hangs below a chain of directories. */
  ghost predicate TreeShaped(disk: Disk) {
    && [] !in disk
    && (forall q :: q in disk ==> disk[q].identity != 0)
    && (forall q {:trigger Parent(q)} :: q in disk && |q| > 1 ==> IsDirectory(disk, Parent(q)))
  }

  /** An object may be put at `p`. */
  predicate Creatable(disk: Disk, p: Path) {
    p != [] && (|p| == 1 || IsDirectory(disk, Parent(p)))
  }

  ghost predicate Absent(disk: Disk, p: Path) {
    forall q :: q in disk ==> !(p <= q)
  }

  /** Whatever lies above an object is a directory. */
  lemma {:induction false} AncestorsAreDirectories(disk: Disk, q: Path, p: Path)
    requires TreeShaped(disk) && q in disk && p < q && p != []
    ensures IsDirectory(disk, p)
    decreases |q|
  {
    var up := Parent(q);
    if p != up {
      assert p < up;
      AncestorsAreDirectories(disk, up, p);
    }
  }

  lemma AbsentIfMissing(disk: Disk, p: Path)
    requires TreeShaped(disk) && p != []
    ensures p !in disk <==> Absent(disk, p)
  {
    forall q | p !in disk && q in disk ensures !(p <= q) {
      if p <= q {
        assert |p| == |q| ==> p == q;
        AncestorsAreDirectories(disk, q, p);
      }
    }
  }

  function RelKeys(disk: Disk, p: Path): set<Path> {
    set q | q in disk && p <= q :: q[|p|..]
  }

  lemma RelKeysMember(disk: Disk, p: Path, r: Path)
    ensures r in RelKeys(disk, p) <==> p + r in disk
  {
    if p + r in disk {
      assert (p + r)[|p|..] == r;
    }
    if r in RelKeys(disk, p) {
      var q :| q in disk && p <= q && r == q[|p|..];
      assert q == p + r;
    }
  }

  ghost function Collected(disk: Disk, p: Path, keys: set<Path>): map<Path, Entry>
    decreases keys
  {
    if keys == {} then map[]
    else
      var r :| r in keys;
      var rest := Collected(disk, p, keys - {r});
      if p + r in disk then rest[r := disk[p + r]] else rest
  }

  lemma {:induction false} CollectedMember(disk: Disk, p: Path, keys: set<Path>, r: Path)
    ensures r in Collected(disk, p, keys) <==> r in keys && p + r in disk
    ensures r in Collected(disk, p, keys) ==> Collected(disk, p, keys)[r] == disk[p + r]
    decreases keys
  {
    if keys != {} {
      var k :| k in keys && Collected(disk, p, keys) ==
        var rest := Collected(disk, p, keys - {k});
        if p + k in disk then rest[k := disk[p + k]] else rest;
      CollectedMember(disk, p, keys - {k}, r);
    }
  }

  /** The tree at `p`, by paths relative to it; the root of the tree is []. */
  ghost function Rel(disk: Disk, p: Path): map<Path, Entry> {
    Collected(disk, p, RelKeys(disk, p))
  }

  lemma RelMember(disk: Disk, p: Path, r: Path)
    ensures r in Rel(disk, p) <==> p + r in disk
    ensures r in Rel(disk, p) ==> Rel(disk, p)[r] == disk[p + r]
  {
    RelKeysMember(disk, p, r);
    CollectedMember(disk, p, RelKeys(disk, p), r);
  }

  lemma RelEmpty(disk: Disk, p: Path)
    requires TreeShaped(disk) && p != []
    ensures Rel(disk, p) == map[] <==> p !in disk
  {
    AbsentIfMissing(disk, p);
    RelMember(disk, p, []);
    assert p + [] == p;
    if p !in disk {
      forall r ensures r !in Rel(disk, p) {
        RelMember(disk, p, r);
      }
    }
  }

  predicate SameAt(disk: Disk, disk': Disk, q: Path) {
    (q in disk' <==> q in disk) && (q in disk ==> disk'[q] == disk[q])
  }

  /** Trees agree when their objects do. */
  lemma RelSame(disk: Disk, disk': Disk, p: Path)
    requires forall q :: p <= q ==> SameAt(disk, disk', q)
    ensures Rel(disk', p) == Rel(disk, p)
  {
    forall r ensures (r in Rel(disk', p) <==> r in Rel(disk, p)) && (r in Rel(disk, p) ==> Rel(disk', p)[r] == Rel(disk, p)[r]) {
      assert SameAt(disk, disk', p + r);
      RelMember(disk, p, r);
      RelMember(disk', p, r);
    }
  }

  // ----- renaming a tree -----

  function StayingKeys(disk: Disk, a: Path): set<Path> {
    set q | q in disk && !(a <= q)
  }

  function MovingKeys(disk: Disk, a: Path, b: Path): set<Path> {
    set q | q in disk && a <= q :: b + q[|a|..]
  }

  /** `rename(a, b)` onto a free name. */
  function Moved(disk: Disk, a: Path, b: Path): Disk {
    map q | q in StayingKeys(disk, a) + MovingKeys(disk, a, b) && (if b <= q then a + q[|b|..] in disk else q in disk) ::
      if b <= q then disk[a + q[|b|..]] else disk[q]
  }

  lemma MovedAt(disk: Disk, a: Path, b: Path, q: Path)
    requires Disjoint(a, b) && Absent(disk, b)
    ensures b <= q ==> (q in Moved(disk, a, b) <==> a + q[|b|..] in disk) && (q in Moved(disk, a, b) ==> Moved(disk, a, b)[q] == disk[a + q[|b|..]])
    ensures a <= q ==> q !in Moved(disk, a, b)
    ensures !(b <= q) && !(a <= q) ==> (q in Moved(disk, a, b) <==> q in disk) && (q in disk ==> Moved(disk, a, b)[q] == disk[q])
  {
    if b <= q {
      var r := a + q[|b|..];
      assert b + r[|a|..] == q;
      if r in disk {
        assert q in MovingKeys(disk, a, b);
      }
    }
    if a <= q {
      if b <= q {
        PrefixesNest(a, b, q);
      } else if q in MovingKeys(disk, a, b) {
        MovingUnder(disk, a, b, q);
      }
    }
  }

  lemma MovingUnder(disk: Disk, a: Path, b: Path, q: Path)
    requires q in MovingKeys(disk, a, b)
    ensures b <= q
  {
    var p :| p in disk && a <= p && q == b + p[|a|..];
  }

  lemma PrefixesNest(a: Path, b: Path, q: Path)
    requires a <= q && b <= q
    ensures a <= b || b <= a
  {
    assert a == q[..|a|] && b == q[..|b|];
    if |a| <= |b| {
      assert a == b[..|a|];
    } else {
      assert b == a[..|b|];
    }
  }

  lemma MovedTrees(disk: Disk, a: Path, b: Path)
    requires Disjoint(a, b) && Absent(disk, b)
    ensures Rel(Moved(disk, a, b), b) == Rel(disk, a) && Absent(Moved(disk, a, b), a)
    ensures forall c :: Disjoint(c, a) && Disjoint(c, b) ==> Rel(Moved(disk, a, b), c) == Rel(disk, c)
  {
    var disk' := Moved(disk, a, b);
    forall r ensures (r in Rel(disk', b) <==> r in Rel(disk, a)) && (r in Rel(disk, a) ==> Rel(disk', b)[r] == Rel(disk, a)[r]) {
      MovedAt(disk, a, b, b + r);
      assert (b + r)[|b|..] == r;
      RelMember(disk', b, r);
      RelMember(disk, a, r);
    }
    forall q | q in disk' ensures !(a <= q) { MovedAt(disk, a, b, q); }
    forall c | Disjoint(c, a) && Disjoint(c, b) ensures Rel(disk', c) == Rel(disk, c) {
      forall q | c <= q ensures SameAt(disk, disk', q) {
        if a <= q { PrefixesNest(a, c, q); }
        if b <= q { PrefixesNest(b, c, q); }
        MovedAt(disk, a, b, q);
      }
      RelSame(disk, disk', c);
    }
  }

  lemma MovedParent(disk: Disk, a: Path, b: Path, q: Path)
    requires Disjoint(a, b) && Absent(disk, b) && Creatable(disk, b)
    requires q in Moved(disk, a, b) && |q| > 1
    requires !(b <= q) ==> IsDirectory(disk, Parent(q))
    requires b < q ==> IsDirectory(disk, Parent(a + q[|b|..]))
    ensures IsDirectory(Moved(disk, a, b), Parent(q))
  {
    var up := Parent(q);
    MovedAt(disk, a, b, up);
    if b < q {
      assert b <= up;
      assert Parent(a + q[|b|..]) == a + up[|b|..];
    } else {
      MovedAt(disk, a, b, q);
      assert !(b <= up);
      assert b <= q ==> b == q;
      assert !(a <= q);
      assert a <= up ==> a <= q;
      assert IsDirectory(disk, up);
    }
  }

  lemma MovedTreeShaped(disk: Disk, a: Path, b: Path)
    requires TreeShaped(disk) && Disjoint(a, b) && Absent(disk, b) && Creatable(disk, b)
    ensures TreeShaped(Moved(disk, a, b))
  {
    MovedAt(disk, a, b, []);
    forall q | q in Moved(disk, a, b) ensures Moved(disk, a, b)[q].identity != 0 {
      MovedAt(disk, a, b, q);
    }
    forall q | q in Moved(disk, a, b) && |q| > 1 ensures IsDirectory(Moved(disk, a, b), Parent(q)) {
      MovedAt(disk, a, b, q);
      MovedParent(disk, a, b, q);
    }
  }

  // ----- manifests -----

  /** One line of a manifest, with its path relative to the tree's root. */
  datatype Item = Item(name: Path, entry: Entry)

  ghost predicate DistinctNames(items: seq<Item>) {
    forall i, j :: 0 <= i < j < |items| ==> items[i].name != items[j].name
  }

  /** The lookup table a manifest is compared through. */
  ghost function ByName(items: seq<Item>): map<Path, Entry> {
    if items == [] then map[]
    else ByName(items[..|items| - 1])[items[|items| - 1].name := items[|items| - 1].entry]
  }

  ghost predicate Within(a: map<Path, Entry>, b: map<Path, Entry>) {
    forall r :: r in a ==> r in b && a[r] == b[r]
  }

  lemma {:induction false} ByNameOnly(items: seq<Item>, r: Path)
    requires r in ByName(items)
    ensures exists i :: 0 <= i < |items| && items[i].name == r && items[i].entry == ByName(items)[r]
    decreases |items|
  {
    var n := |items| - 1;
    if r != items[n].name {
      ByNameOnly(items[..n], r);
    }
  }

  lemma {:induction false} ByNameAt(items: seq<Item>, i: nat)
    requires DistinctNames(items) && i < |items|
    ensures items[i].name in ByName(items) && ByName(items)[items[i].name] == items[i].entry
    decreases |items|
  {
    var n := |items| - 1;
    if i < n {
      ByNameAt(items[..n], i);
    }
  }

  lemma {:induction false} ByNameSize(items: seq<Item>)
    requires DistinctNames(items)
    ensures |ByName(items)| == |items|
    decreases |items|
  {
    if items != [] {
      var n := |items| - 1;
      ByNameSize(items[..n]);
      if items[n].name in ByName(items[..n]) {
        ByNameOnly(items[..n], items[n].name);
      }
    }
  }

  lemma {:induction false} WithinSameSize(a: map<Path, Entry>, b: map<Path, Entry>)
    requires Within(a, b) && |a| == |b|
    ensures a == b
  {
    assert a.Keys <= b.Keys;
    assert |b.Keys - a.Keys| == |b.Keys| - |a.Keys|;
    assert b.Keys - a.Keys == {};
  }

  predicate Listed(item: Item, byName: map<Path, Entry>) {
    item.name in byName && byName[item.name] == item.entry
  }

  lemma ListedWithin(got: seq<Item>, byName: map<Path, Entry>)
    requires DistinctNames(got)
    ensures (forall i :: 0 <= i < |got| ==> Listed(got[i], byName)) <==> Within(ByName(got), byName)
  {
    if Within(ByName(got), byName) {
      forall i | 0 <= i < |got| ensures Listed(got[i], byName) {
        ByNameAt(got, i);
      }
    }
    if forall i :: 0 <= i < |got| ==> Listed(got[i], byName) {
      forall r | r in ByName(got) ensures r in byName && ByName(got)[r] == byName[r] {
        ByNameOnly(got, r);
      }
    }
  }

  /** The decision of the comparison, on whole trees: with `allowMissing` a part of the
      recorded tree passes, without it only the recorded tree itself. */
  ghost predicate Matches(got: map<Path, Entry>, want: map<Path, Entry>, allowMissing: bool) {
    if allowMissing then Within(got, want) else got == want
  }

  method MatchesReplacement(got: seq<Item>, want: seq<Item>, allowMissing: bool) returns (ok: bool)
    requires DistinctNames(got) && DistinctNames(want)
    ensures ok <==> Matches(ByName(got), ByName(want), allowMissing)
  {
    ByNameSize(got);
    ByNameSize(want);
    if !allowMissing && |got| != |want| {
      return false;
    }
    var byName: map<Path, Entry> := map[];
    var i := 0;
    while i < |want|
      invariant 0 <= i <= |want|
      invariant byName == ByName(want[..i])
    {
      byName := byName[want[i].name := want[i].entry];
      assert want[..i + 1][..i] == want[..i];
      i := i + 1;
    }
    assert want[..i] == want;
    ListedWithin(got, byName);
    i := 0;
    while i < |got|
      invariant 0 <= i <= |got|
      invariant forall j :: 0 <= j < i ==> Listed(got[j], byName)
    {
      if !Listed(got[i], byName) {
        return false;
      }
      i := i + 1;
    }
    if !allowMissing {
      WithinSameSize(ByName(got), ByName(want));
    }
    return true;
  }

  /** A manifest lists its root first and every object after its directory. */
  ghost predicate Shaped(items: seq<Item>) {
    items != [] ==>
      && items[0].name == [] && items[0].entry.identity != 0
      && DistinctNames(items)
      && forall i :: 0 < i < |items| ==> HasParentBefore(items, i)
  }

  predicate CleanPart(c: string) {
    c != "" && c != "." && c != ".." && '/' !in c
  }

  /** A local path in its shortest form. */
  predicate LocalName(p: Path) {
    p != [] && forall i :: 0 <= i < |p| ==> CleanPart(p[i])
  }

  predicate IsDigest(s: string) {
    |s| == 64 && forall i :: 0 <= i < |s| ==> '0' <= s[i] <= '9' || 'a' <= s[i] <= 'f' || 'A' <= s[i] <= 'F'
  }

  /** A file comes with a size and a SHA-256 checksum. */
  predicate FactsFit(e: Entry) {
    e.kind.Regular? ==> IsDigest(e.kind.hash) && e.kind.size >= 0
  }

  predicate ItemFits(item: Item) {
    (item.name == [] || LocalName(item.name)) && FactsFit(item.entry)
  }

  /** A manifest that is acted on: besides its shape, every name and every file's facts are in order. */
  ghost predicate WellFormed(items: seq<Item>) {
    Shaped(items) && forall i :: 0 <= i < |items| ==> ItemFits(items[i])
  }

  /** What a volume holds: names without separators, files with a size and a checksum. */
  ghost predicate Sane(disk: Disk) {
    forall q :: q in disk ==> LocalName(q) && FactsFit(disk[q])
  }

  ghost predicate HasParentBefore(items: seq<Item>, i: nat)
    requires i < |items|
  {
    items[i].name != [] && exists j :: 0 <= j < i && IsParent(items[j], items[i].name)
  }

  predicate IsParent(item: Item, name: Path)
    requires name != []
  {
    item.name == Parent(name) && item.entry.kind.Directory?
  }

  /** `seen` is the kinds of the items before `i`, by name. */
  ghost predicate SeenUpTo(items: seq<Item>, i: nat, seen: map<Path, Kind>)
    requires i <= |items|
  {
    && (forall j :: 0 <= j < i ==> items[j].name in seen && seen[items[j].name] == items[j].entry.kind)
    && (forall r :: r in seen ==> exists j :: 0 <= j < i && items[j].name == r)
  }

  lemma SeenOneMore(items: seq<Item>, i: nat, seen: map<Path, Kind>)
    requires i < |items| && SeenUpTo(items, i, seen) && items[i].name !in seen
    ensures SeenUpTo(items, i + 1, seen[items[i].name := items[i].entry.kind])
  {
    var seen' := seen[items[i].name := items[i].entry.kind];
    forall r | r in seen' ensures exists j :: 0 <= j < i + 1 && items[j].name == r {
      if r in seen {
        var j :| 0 <= j < i && items[j].name == r;
      } else {
        assert items[i].name == r;
      }
    }
  }

  lemma SeenParent(items: seq<Item>, i: nat, seen: map<Path, Kind>)
    requires i < |items| && SeenUpTo(items, i, seen) && items[i].name != []
    ensures HasParentBefore(items, i) <==> Parent(items[i].name) in seen && seen[Parent(items[i].name)] == Directory
  {
  }

  /** The first `n` items are in order. */
  ghost predicate InOrder(items: seq<Item>, n: nat)
    requires n <= |items|
  {
    && (n > 0 ==> items[0].name == []) && (forall j :: 0 < j < n ==> HasParentBefore(items, j))
    && (forall j :: 0 <= j < n ==> ItemFits(items[j]))
    && (forall j, k :: 0 <= j < k < n ==> items[j].name != items[k].name)
  }

  /** The next item of a manifest: the root first, then new local names in known directories. */
  predicate Admits(seen: map<Path, Kind>, first: bool, e: Item) {
    && (if first then e.name == [] else LocalName(e.name)) && e.name !in seen
    && (!first ==> e.name != [] && Parent(e.name) in seen && seen[Parent(e.name)] == Directory)
    && FactsFit(e.entry)
  }

  lemma AdmitsNext(items: seq<Item>, i: nat, seen: map<Path, Kind>)
    requires i < |items| && InOrder(items, i) && SeenUpTo(items, i, seen)
    ensures Admits(seen, i == 0, items[i]) <==> InOrder(items, i + 1) == true
  {
    if items[i].name != [] {
      SeenParent(items, i, seen);
    }
    if items[i].name in seen {
      var j :| 0 <= j < i && items[j].name == items[i].name;
    }
  }

  lemma WellFormedInOrder(items: seq<Item>, n: nat)
    requires items != [] && n <= |items|
    ensures WellFormed(items) ==> InOrder(items, n) == true
    ensures InOrder(items, |items|) ==> (WellFormed(items) <==> items[0].entry.identity != 0)
  {
  }

  method ValidateReplacementTree(tree: seq<Item>) returns (ok: bool)
    ensures ok <==> WellFormed(tree)
  {
    if tree == [] {
      return true;
    }
    var seen: map<Path, Kind> := map[];
    var i := 0;
    while i < |tree|
      invariant 0 <= i <= |tree| && InOrder(tree, i) == true && SeenUpTo(tree, i, seen) == true
    {
      AdmitsNext(tree, i, seen);
      if !Admits(seen, i == 0, tree[i]) {
        WellFormedInOrder(tree, i + 1);
        return false;
      }
      SeenOneMore(tree, i, seen);
      seen := seen[tree[i].name := tree[i].entry.kind];
      i := i + 1;
    }
    WellFormedInOrder(tree, |tree|);
    return tree[0].entry.identity != 0;
  }

  // ----- walking a tree -----

  function Subtree(disk: Disk, p: Path): set<Path> {
    set q | q in disk && p <= q
  }

  function Children(disk: Disk, p: Path): set<string> {
    set q | q in disk && |q| == |p| + 1 && p <= q :: q[|p|]
  }

  lemma ChildrenMember(disk: Disk, p: Path, c: string)
    ensures c in Children(disk, p) <==> p + [c] in disk
  {
    if p + [c] in disk {
      assert (p + [c])[|p|] == c;
    }
    if c in Children(disk, p) {
      var q :| q in disk && |q| == |p| + 1 && p <= q && q[|p|] == c;
      assert q == p + [c];
    }
  }

  /** Anything strictly below `p` is at or below one of its children. */
  lemma BelowAChild(disk: Disk, p: Path, q: Path)
    requires TreeShaped(disk) && q in disk && p < q
    ensures q[|p|] in Children(disk, p) && p + [q[|p|]] <= q
  {
    var child := p + [q[|p|]];
    assert child == q[..|p| + 1];
    if child != q {
      AncestorsAreDirectories(disk, q, child);
    }
    ChildrenMember(disk, p, q[|p|]);
  }

  ghost predicate Has(items: seq<Item>, r: Path) {
    exists i :: 0 <= i < |items| && items[i].name == r
  }

  /** Every item is the object the disk holds there. */
  ghost predicate Truthful(items: seq<Item>, disk: Disk, p: Path) {
    forall i :: 0 <= i < |items| ==> p + items[i].name in disk && disk[p + items[i].name] == items[i].entry
  }

  ghost predicate Sound(items: seq<Item>, disk: Disk, p: Path) {
    DistinctNames(items) && Shaped(items) && Truthful(items, disk, p)
  }

  /** A manifest under construction, about to take in the object at `rel`. */
  ghost predicate ReadyFor(items: seq<Item>, disk: Disk, p: Path, rel: Path) {
    && (forall r :: Has(items, r) ==> !(rel <= r))
    && (if rel == [] then items == [] else Has(items, Parent(rel)) && IsDirectory(disk, p + Parent(rel)))
  }

  lemma HasOneMore(items: seq<Item>, item: Item, r: Path)
    ensures Has(items + [item], r) <==> Has(items, r) || r == item.name
  {
    if Has(items, r) {
      var i :| 0 <= i < |items| && items[i].name == r;
      assert (items + [item])[i].name == r;
    }
    if r == item.name {
      assert (items + [item])[|items|].name == r;
    }
  }

  lemma TakesIn(items: seq<Item>, disk: Disk, p: Path, rel: Path)
    requires p + rel in disk && disk[p + rel].identity != 0
    requires Sound(items, disk, p) && ReadyFor(items, disk, p, rel)
    ensures Sound(items + [Item(rel, disk[p + rel])], disk, p)
  {
    var out := items + [Item(rel, disk[p + rel])];
    forall i | 0 <= i < |items| ensures items[i].name != rel {
      assert Has(items, items[i].name);
    }
    forall i | 0 < i < |out| ensures HasParentBefore(out, i) {
      if i < |items| {
        assert HasParentBefore(items, i);
        var j :| 0 <= j < i && IsParent(items[j], items[i].name);
        assert IsParent(out[j], out[i].name);
      } else {
        var j :| 0 <= j < |items| && items[j].name == Parent(rel);
        assert IsParent(out[j], out[i].name);
      }
    }
  }

  /** `out` is `entries`, the object at `rel`, and its children outside `todo` with all below them. */
  ghost predicate Took(out: seq<Item>, entries: seq<Item>, disk: Disk, p: Path, rel: Path, todo: set<string>) {
    forall r :: Has(out, r) <==> Has(entries, r) || r == rel || (Below(r, rel, todo) && p + r in disk)
  }

  /** `r` is strictly below `rel`, by a child outside `todo`. */
  ghost predicate Below(r: Path, rel: Path, todo: set<string>) {
    rel < r && r[|rel|] !in todo
  }

  /** `out` is `entries` and the whole tree at `rel`. */
  ghost predicate TookAll(out: seq<Item>, entries: seq<Item>, disk: Disk, p: Path, rel: Path) {
    forall r :: Has(out, r) <==> Has(entries, r) || (rel <= r && p + r in disk)
  }

  lemma TookRoot(entries: seq<Item>, disk: Disk, p: Path, rel: Path)
    requires TreeShaped(disk) && p + rel in disk
    ensures Took(entries + [Item(rel, disk[p + rel])], entries, disk, p, rel, Children(disk, p + rel))
  {
    var item := Item(rel, disk[p + rel]);
    forall r ensures Has(entries + [item], r) <==>
      Has(entries, r) || r == rel || (Below(r, rel, Children(disk, p + rel)) && p + r in disk)
    {
      HasOneMore(entries, item, r);
      if rel < r && p + r in disk {
        assert (p + r)[|p + rel|] == r[|rel|];
        BelowAChild(disk, p + rel, p + r);
      }
    }
  }

  lemma AtOrUnderChild(rel: Path, c: string, r: Path)
    ensures rel + [c] <= r <==> rel < r && r[|rel|] == c
  {
    if rel < r && r[|rel|] == c {
      assert r[..|rel| + 1] == rel + [c];
    }
  }

  lemma ReadyForChild(out: seq<Item>, entries: seq<Item>, disk: Disk, p: Path, rel: Path, todo: set<string>, c: string)
    requires Took(out, entries, disk, p, rel, todo) && c in todo
    requires forall r :: Has(entries, r) ==> !(rel <= r)
    requires IsDirectory(disk, p + rel)
    ensures ReadyFor(out, disk, p, rel + [c])
  {
    var child := rel + [c];
    assert Parent(child) == rel;
    assert Has(out, rel);
    forall r | Has(out, r) ensures !(child <= r) {
      AtOrUnderChild(rel, c, r);
    }
  }

  lemma TookChild(out': seq<Item>, out: seq<Item>, entries: seq<Item>, disk: Disk, p: Path, rel: Path, todo: set<string>, c: string)
    requires Took(out, entries, disk, p, rel, todo) && c in todo
    requires TookAll(out', out, disk, p, rel + [c])
    ensures Took(out', entries, disk, p, rel, todo - {c})
  {
    forall r ensures Has(out', r) <==> Has(entries, r) || r == rel || (Below(r, rel, todo - {c}) && p + r in disk) {
      AtOrUnderChild(rel, c, r);
    }
  }

  lemma TookEvery(out: seq<Item>, entries: seq<Item>, disk: Disk, p: Path, rel: Path)
    requires Took(out, entries, disk, p, rel, {}) && p + rel in disk
    ensures TookAll(out, entries, disk, p, rel)
  {
    forall r ensures Has(out, r) <==> Has(entries, r) || (rel <= r && p + r in disk) {
      assert rel <= r <==> r == rel || Below(r, rel, {});
    }
  }

  /** Appends the tree at `p + rel` to `entries`, each directory before what it holds. */
  method Walk(disk: Disk, p: Path, rel: Path, entries: seq<Item>) returns (out: seq<Item>)
    requires TreeShaped(disk) && p + rel in disk
    requires Sound(entries, disk, p) && ReadyFor(entries, disk, p, rel)
    ensures Sound(out, disk, p)
    ensures TookAll(out, entries, disk, p, rel)
    decreases Subtree(disk, p + rel)
  {
    var path := p + rel;
    out := entries + [Item(rel, disk[path])];
    TakesIn(entries, disk, p, rel);
    TookRoot(entries, disk, p, rel);
    var todo := Children(disk, path);
    while todo != {}
      invariant todo <= Children(disk, path)
      invariant Sound(out, disk, p) == true
      invariant Took(out, entries, disk, p, rel, todo) == true
    {
      var c :| c in todo;
      ChildrenMember(disk, path, c);
      assert p + (rel + [c]) == path + [c];
      assert Parent(path + [c]) == path;
      ReadyForChild(out, entries, disk, p, rel, todo, c);
      assert path in Subtree(disk, path) && path !in Subtree(disk, path + [c]);
      ghost var before := out;
      out := Walk(disk, p, rel + [c], out);
      TookChild(out, before, entries, disk, p, rel, todo, c);
      todo := todo - {c};
    }
    TookEvery(out, entries, disk, p, rel);
  }

  lemma ListsTree(items: seq<Item>, disk: Disk, p: Path)
    requires DistinctNames(items) && Truthful(items, disk, p)
    requires forall r :: Has(items, r) <==> p + r in disk
    ensures ByName(items) == Rel(disk, p)
  {
    forall r ensures r in ByName(items) <==> r in Rel(disk, p)
             ensures r in ByName(items) ==> ByName(items)[r] == Rel(disk, p)[r]
    {
      RelMember(disk, p, r);
      if p + r in disk {
        var i :| 0 <= i < |items| && items[i].name == r;
        ByNameAt(items, i);
      }
      if r in ByName(items) {
        ByNameOnly(items, r);
      }
    }
  }

  lemma SaneManifest(items: seq<Item>, disk: Disk, p: Path)
    requires Shaped(items) && Truthful(items, disk, p) && Sane(disk)
    ensures WellFormed(items)
  {
    forall i | 0 <= i < |items| ensures ItemFits(items[i]) {
      var name := items[i].name;
      assert LocalName(p + name);
      forall k | 0 <= k < |name| ensures CleanPart(name[k]) {
        assert (p + name)[|p| + k] == name[k];
      }
    }
  }

  /** The manifest of the tree at `p`; empty when nothing is there. */
  method ReplacementTree(disk: Disk, p: Path) returns (items: seq<Item>)
    requires TreeShaped(disk) && p != []
    ensures DistinctNames(items) && Shaped(items) && ByName(items) == Rel(disk, p)
    ensures items == [] <==> p !in disk
    ensures Sane(disk) ==> WellFormed(items)
  {
    if p !in disk {
      RelEmpty(disk, p);
      return [];
    }
    assert p + [] == p;
    items := Walk(disk, p, [], []);
    assert Has(items, []);
    ListsTree(items, disk, p);
    if Sane(disk) {
      SaneManifest(items, disk, p);
    }
  }
}
