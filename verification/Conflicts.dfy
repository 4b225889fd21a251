/** Names as paths: the ancestor relation, the clock of a whole namespace, and the
    metadata that file-versus-directory conflicts produce. */
module Conflicts {
  import opened Meta
  import opened Clock
  import Text

  /** `name` lies in the tree below `dir`. */
  predicate Under(name: string, dir: string) {
    dir + "/" <= name
  }

  /** A strict ancestor or descendant relation, never a same-name overwrite. */
  predicate NamespaceConflict(a: string, b: string) {
    Under(a, b) || Under(b, a)
  }

  predicate InNamespace(name: string, k: string) {
    k == name || NamespaceConflict(k, name)
  }

  /** '/' comes immediately before '0', so one index range holds exactly the descendants. */
  lemma DescendantRange(name: string, s: string)
    ensures Text.Compare(name + "/", s) <= 0 && Text.Before(s, name + "0") <==> Under(s, name)
  {
    Text.ExtensionRange(name, '/', '0', s);
  }

  /** s[i..j] is a maximal stretch without a separator. */
  ghost predicate IsComponent(s: string, i: int, j: int) {
    && 0 <= i <= j <= |s|
    && (i == 0 || s[i - 1] == '/')
    && (j == |s| || s[j] == '/')
    && '/' !in s[i..j]
  }

  /** A clean relative slash-separated name. */
  ghost predicate CanonicalName(s: string) {
    forall i, j :: IsComponent(s, i, j) ==> s[i..j] != "" && s[i..j] != "." && s[i..j] != ".."
  }

  function LastSlash(s: string): (i: int)
    ensures -1 <= i < |s|
    ensures i >= 0 ==> s[i] == '/'
    ensures forall j :: i < j < |s| ==> s[j] != '/'
  {
    if s == [] then -1
    else if s[|s| - 1] == '/' then |s| - 1
    else LastSlash(s[..|s| - 1])
  }

  /** `path.Dir` of a canonical name. */
  function Dir(p: string): string {
    if LastSlash(p) < 0 then "." else p[..LastSlash(p)]
  }

  lemma FirstComponent(name: string, i: nat)
    requires CanonicalName(name)
    requires i < |name| && name[i] == '/'
    ensures name[..i] != "" && name[..i] != "."
  {
    if name[..i] == "" || name[..i] == "." {
      assert name[0..i] == name[..i];
      assert IsComponent(name, 0, i);
    }
  }

  /** The names the ancestor loop puts into the query: `name` and every proper
      prefix of it that ends before a separator. */
  ghost function AncestorsDownTo(name: string, from: nat): set<string> {
    {name} + set i | from <= i < |name| && name[i] == '/' :: name[..i]
  }

  method NamespaceNames(name: string) returns (args: set<string>)
    requires CanonicalName(name)
    ensures forall k :: k in args <==> k == name || Under(name, k)
  {
    args := {name};
    var p := name;
    var parent := Dir(p);
    while !(parent == "." || parent == p)
      invariant p <= name && parent == Dir(p)
      invariant p == name || name[|p|] == '/'
      invariant args == AncestorsDownTo(name, |p|)
      decreases |p|
    {
      ghost var q := p;
      p := parent;
      assert p == q[..LastSlash(q)] == name[..LastSlash(q)];
      args := args + {p};
      assert args == AncestorsDownTo(name, |p|) by {
        assert forall i :: |p| < i < |q| ==> name[i] == q[i] != '/';
      }
      parent := Dir(p);
    }
    assert LastSlash(p) < 0 by {
      if LastSlash(p) >= 0 {
        assert name[..LastSlash(p)] == p[..LastSlash(p)];
        FirstComponent(name, LastSlash(p));
      }
    }
    assert forall i :: 0 <= i < |p| ==> name[i] == p[i] != '/';
    forall k ensures k in args <==> k == name || Under(name, k) {
      if Under(name, k) {
        assert name[..|k|] == k && name[|k|] == '/';
      }
      if k in args && k != name {
        var i :| |p| <= i < |name| && name[i] == '/' && k == name[..i];
        assert k + "/" == name[..i + 1];
      }
    }
  }

  ghost predicate ValidClocks(files: map<string, FileMeta>) {
    forall k :: k in files ==> ValidClock(files[k])
  }

  /** `v` is the greatest clock recorded at `name`, above it or below it. */
  ghost predicate IsNamespaceClock(files: map<string, FileMeta>, name: string, v: int)
    requires ValidClocks(files)
  {
    && (exists k :: k in files && InNamespace(name, k) && ClockValue(files[k]) == v)
    && (forall k :: k in files && InNamespace(name, k) ==> ClockValue(files[k]) <= v)
  }

  /** What the two queries have found among the rows in `done`. */
  ghost predicate Found(files: map<string, FileMeta>, name: string, done: set<string>, found: bool, clock: int64, big: string)
    requires ValidClocks(files) && done <= files.Keys
  {
    && (found <==> exists k :: k in done && InNamespace(name, k))
    && (found ==> exists k :: k in done && InNamespace(name, k) && files[k].StateClock() == clock)
    && (forall k :: k in done && InNamespace(name, k) ==> files[k].StateClock() <= clock)
    && (big != "" ==> found && exists k :: k in done && InNamespace(name, k) && files[k].bigClock == big)
    && (forall k :: k in done && InNamespace(name, k) && files[k].bigClock != "" ==>
          big != "" && CompareDecimal(files[k].bigClock, big) <= 0)
  }

  /** A local write observes the old file and the old tree: the greatest clock at
      the name, its ancestors and its descendants. */
  method NamespaceClock(files: map<string, FileMeta>, name: string) returns (out: Option<FileMeta>)
    requires CanonicalName(name)
    requires ValidClocks(files)
    ensures out.None? <==> forall k :: k in files ==> !InNamespace(name, k)
    ensures out.Some? ==> ValidClock(out.value) && IsNamespaceClock(files, name, ClockValue(out.value))
  {
    var args := NamespaceNames(name);
    var found, clock, big := false, 0, "";
    var keys := files.Keys;
    while keys != {}
      invariant keys <= files.Keys
      invariant Found(files, name, files.Keys - keys, found, clock, big)
      decreases keys
    {
      var k :| k in keys;
      DescendantRange(name, k);
      ghost var done := files.Keys - keys;
      keys := keys - {k};
      assert files.Keys - keys == done + {k};
      if k in args || (Text.Compare(name + "/", k) <= 0 && Text.Before(k, name + "0")) {
        FoundRow(files, name, done, k, found, clock, big);
        clock := if !found || clock < files[k].StateClock() then files[k].StateClock() else clock;
        big := GreaterDecimal(big, files[k].bigClock);
        found := true;
      }
    }
    assert files.Keys - keys == files.Keys;
    if !found {
      return None;
    }
    out := Some(FileMeta("", 0, 0, "", false, 0, clock, big, "", ""));
    FoundIsGreatest(files, name, clock, big);
  }

  /** The decimal string a descending sort puts first; "" stands for none. */
  function GreaterDecimal(a: string, b: string): string {
    if b != "" && (a == "" || CompareDecimal(a, b) < 0) then b else a
  }

  lemma FoundRow(files: map<string, FileMeta>, name: string, done: set<string>, k: string, found: bool, clock: int64, big: string)
    requires ValidClocks(files) && done <= files.Keys && k in files && InNamespace(name, k)
    requires Found(files, name, done, found, clock, big)
    ensures var clock' := if !found || clock < files[k].StateClock() then files[k].StateClock() else clock;
            Found(files, name, done + {k}, true, clock', GreaterDecimal(big, files[k].bigClock))
  {
    var big' := GreaterDecimal(big, files[k].bigClock);
    assert k in done + {k};
    forall j | j in done + {k} && InNamespace(name, j) && files[j].bigClock != ""
      ensures big' != "" && CompareDecimal(files[j].bigClock, big') <= 0
    {
      Text.CompareZero(big', big');
      CompareDecimalFlip(files[k].bigClock, big);
      if j in done {
        if |files[j].bigClock| == |big| == |big'| {
          Text.CompareTransitive(files[j].bigClock, big, big');
        }
      }
    }
  }

  lemma CompareDecimalFlip(a: string, b: string)
    ensures CompareDecimal(a, b) == -CompareDecimal(b, a)
  {
    Text.CompareFlip(a, b);
  }

  lemma FoundIsGreatest(files: map<string, FileMeta>, name: string, clock: int64, big: string)
    requires ValidClocks(files) && Found(files, name, files.Keys, true, clock, big)
    ensures var m := FileMeta("", 0, 0, "", false, 0, clock, big, "", "");
            ValidClock(m) && IsNamespaceClock(files, name, ClockValue(m))
  {
    var m := FileMeta("", 0, 0, "", false, 0, clock, big, "", "");
    forall k | k in files && InNamespace(name, k) && files[k].bigClock != "" && big != ""
      ensures Canonical(big) ==> ClockValue(files[k]) <= DecimalValue(big)
    {
      if Canonical(big) {
        CompareDecimalNumeric(files[k].bigClock, big);
      }
    }
  }

  /** The winner's existing rank, recorded at the losing name. */
  function Superseded(name: string, winner: FileMeta): FileMeta {
    FileMeta(name, winner.modTime, 0, winner.hash, true, 0,
             winner.StateClock(), winner.bigClock, winner.name, "")
  }

  function HexDigit(n: nat): char
    requires n < 16
  {
    if n < 10 then (n + '0' as int) as char else (n - 10 + 'a' as int) as char
  }

  /** The last `k` hexadecimal digits. */
  function Digits(n: nat, k: nat): (r: string)
    ensures |r| == k && forall i :: 0 <= i < |r| ==> r[i] != '/' && r[i] != '-'
  {
    if k == 0 then [] else Digits(n / 16, k - 1) + [HexDigit(n % 16)]
  }

  function Power(k: nat): nat {
    if k == 0 then 1 else 16 * Power(k - 1)
  }

  lemma {:induction false} DigitsDiffer(n: nat, m: nat, k: nat)
    requires n < Power(k) && m < Power(k) && Digits(n, k) == Digits(m, k)
    ensures n == m
    decreases k
  {
    if k > 0 {
      assert Digits(n, k)[..k - 1] == Digits(n / 16, k - 1) && Digits(m, k)[..k - 1] == Digits(m / 16, k - 1);
      assert Digits(n, k)[k - 1] == HexDigit(n % 16) && Digits(m, k)[k - 1] == HexDigit(m % 16);
      DigitsDiffer(n / 16, m / 16, k - 1);
    }
  }

  /** Six hexadecimal digits for every character. */
  function HexOf(s: string): (r: string)
    ensures |r| == 6 * |s|
    ensures forall i :: 0 <= i < |r| ==> r[i] != '/' && r[i] != '-'
  {
    if s == [] then [] else Digits(s[0] as int, 6) + HexOf(s[1..])
  }

  /** The name under which a displaced file is kept. The digest of the original name
      and content hash is taken to be the data itself, in hexadecimal: a digest
      without collisions and without fixed points. */
  function ConflictCopyName(name: string, hash: string): string {
    "birak-conflict-" + HexOf(name) + "-" + HexOf(hash)
  }

  function ConflictCopy(m: FileMeta): FileMeta {
    FileMeta(ConflictCopyName(m.name, m.hash), m.modTime, m.size, m.hash, false, 0,
             m.StateClock(), m.bigClock, "", m.name)
  }

  /** A copy's name has no separator, so it is outside every tree; and it is longer
      than the original, so it is neither the original nor an ancestor of it. */
  lemma CopyNameOutsideTree(name: string, hash: string)
    ensures '/' !in ConflictCopyName(name, hash)
    ensures ConflictCopyName(name, hash) != name
    ensures !NamespaceConflict(ConflictCopyName(name, hash), name)
  {
    var copy := ConflictCopyName(name, hash);
    assert (name + "/")[|name|] == '/';
  }

  lemma {:induction false} HexDiffers(a: string, b: string)
    requires HexOf(a) == HexOf(b)
    ensures a == b
    decreases |a|
  {
    if a != [] && b != [] {
      assert HexOf(a)[..6] == Digits(a[0] as int, 6) && HexOf(b)[..6] == Digits(b[0] as int, 6);
      assert HexOf(a)[6..] == HexOf(a[1..]) && HexOf(b)[6..] == HexOf(b[1..]);
      assert Power(3) == 0x1000 && Power(6) == 0x1000000;
      DigitsDiffer(a[0] as int, b[0] as int, 6);
      HexDiffers(a[1..], b[1..]);
      assert a == [a[0]] + a[1..] && b == [b[0]] + b[1..];
    }
  }

  /** What stands between a prefix and the first dash after it. */
  lemma BetweenDashes(p: string, x: string, y: string, x': string, y': string)
    requires p + x + "-" + y == p + x' + "-" + y' && '-' !in x && '-' !in x'
    ensures x == x'
  {
    var s := p + x + "-" + y;
    assert s[|p|..|p| + |x|] == x && s[|p| + |x|] == '-';
    assert s[|p|..|p| + |x'|] == x' && s[|p| + |x'|] == '-';
  }

  /** Copies of different names have different names. */
  lemma CopyNamesDiffer(a: string, g: string, b: string, h: string)
    requires ConflictCopyName(a, g) == ConflictCopyName(b, h)
    ensures a == b
  {
    BetweenDashes("birak-conflict-", HexOf(a), HexOf(g), HexOf(b), HexOf(h));
    HexDiffers(a, b);
  }
}
