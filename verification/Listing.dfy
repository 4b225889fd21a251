/** Object listings: one page of the keys below a prefix, grouped by a delimiter, from
    the index or from the directory tree, and the walk along continuation tokens. */
module Listing {

  import opened Text

  // ----- the upper bound of a prefix -----

  const MAX_RUNE: char := '\U{10FFFF}'

  /** `end` closes the range of exactly the strings that start with `p`. */
  ghost predicate ClosesPrefix(p: string, end: string) {
    forall s :: InPrefixRange(p, end, s) <==> p <= s
  }

  predicate InPrefixRange(p: string, end: string, s: string) {
    Compare(p, s) <= 0 && Before(s, end)
  }

  ghost predicate AllMax(s: string) {
    forall i :: 0 <= i < |s| ==> s[i] == MAX_RUNE
  }

  /** Nothing but an extension orders after a run of greatest characters. */
  lemma {:induction false} AboveAllMax(t: string, s: string)
    requires AllMax(t)
    ensures Compare(t, s) <= 0 <==> t <= s
    decreases |t|
  {
    if t != [] && s != [] {
      AboveAllMax(t[1..], s[1..]);
      if s[0] == t[0] {
        assert t == [t[0]] + t[1..] && s == [s[0]] + s[1..];
        assert t[1..] <= s[1..] <==> t <= s;
      }
    }
  }

  lemma MaxTailRange(q: string, c: char, d: char, tail: string, s: string)
    requires Adjacent(c, d) && AllMax(tail)
    ensures InPrefixRange(q + [c] + tail, q + [d], s) <==> q + [c] + tail <= s
  {
    var head := q + [c];
    ExtensionRange(q, c, d, s);
    PrefixNotAfter(head, head + tail);
    if Compare(head + tail, s) <= 0 {
      CompareTransitive(head, head + tail, s);
    }
    if head + tail <= s {
      PrefixNotAfter(head + tail, s);
      assert head <= s;
    }
    if head <= s {
      var rest := s[|head|..];
      assert s == head + rest;
      CompareCommonPrefix(head, tail, rest);
      AboveAllMax(tail, rest);
      assert tail <= rest <==> head + tail <= s;
    }
  }

  method PrefixEnd(prefix: string) returns (end: string)
    ensures end == "" <==> AllMax(prefix)
    ensures end != "" ==> ClosesPrefix(prefix, end)
  {
    var i := |prefix|;
    while i > 0
      invariant 0 <= i <= |prefix|
      invariant AllMax(prefix[i..])
    {
      i := i - 1;
      if prefix[i] != MAX_RUNE {
        var next := prefix[i] as int + 1;
        if next == 0xD800 {
          next := 0xE000;
        }
        end := prefix[..i] + [next as char];
        forall s ensures InPrefixRange(prefix, end, s) <==> prefix <= s {
          assert prefix == prefix[..i] + [prefix[i]] + prefix[i + 1..];
          MaxTailRange(prefix[..i], prefix[i], next as char, prefix[i + 1..], s);
        }
        return;
      }
    }
    return "";
  }

  // ----- sorted sets of keys -----

  ghost predicate Ascending(s: seq<string>) {
    forall i, j :: 0 <= i < j < |s| ==> Before(s[i], s[j])
  }

  ghost function Elements(s: seq<string>): set<string> {
    set x | x in s
  }

  ghost predicate IsLeast(m: string, s: set<string>) {
    m in s && forall x :: x in s ==> Compare(m, x) <= 0
  }

  lemma {:induction false} HasLeast(s: set<string>)
    requires s != {}
    ensures exists m :: IsLeast(m, s)
  {
    var x :| x in s;
    if s == {x} {
      CompareZero(x, x);
      assert IsLeast(x, s);
    } else {
      var rest := s - {x};
      assert rest != {};
      HasLeast(rest);
      var m :| IsLeast(m, rest);
      CompareZero(x, x);
      CompareFlip(x, m);
      if Compare(m, x) <= 0 {
        assert IsLeast(m, s);
      } else {
        forall y | y in s ensures Compare(x, y) <= 0 {
          if y != x {
            CompareTransitive(x, m, y);
          }
        }
        assert IsLeast(x, s);
      }
    }
  }

  ghost function Least(s: set<string>): (m: string)
    requires s != {}
    ensures IsLeast(m, s)
  {
    HasLeast(s);
    var m :| IsLeast(m, s);
    m
  }

  ghost function Sorted(s: set<string>): seq<string>
    decreases s
  {
    if s == {} then [] else [Least(s)] + Sorted(s - {Least(s)})
  }

  lemma AscendingHead(t: seq<string>)
    requires Ascending(t) && t != []
    ensures Elements(t) != {} && Least(Elements(t)) == t[0]
    ensures Ascending(t[1..]) && Elements(t[1..]) == Elements(t) - {t[0]}
  {
    var s := Elements(t);
    assert t[0] in s;
    var m := Least(s);
    var i :| 0 <= i < |t| && t[i] == m;
    CompareFlip(t[0], m);
    forall x | x in s - {t[0]} ensures x in t[1..] {
      var k :| 0 <= k < |t| && t[k] == x;
      assert t[1..][k - 1] == x;
    }
    forall x | x in t[1..] ensures x != t[0] && x in s {
      var k :| 0 <= k < |t[1..]| && t[1..][k] == x;
      assert t[k + 1] == x;
      CompareZero(t[0], x);
    }
  }

  /** An ascending sequence is the sorted form of its elements. */
  lemma {:induction false} SortedUnique(t: seq<string>)
    requires Ascending(t)
    ensures Sorted(Elements(t)) == t
    decreases |t|
  {
    if t == [] {
      assert Elements(t) == {};
    } else {
      AscendingHead(t);
      SortedUnique(t[1..]);
      assert t == [t[0]] + t[1..];
    }
  }

  lemma {:induction false} SortedElements(s: set<string>)
    ensures |Sorted(s)| == |s|
    ensures forall x :: x in Sorted(s) <==> x in s
    decreases s
  {
    if s != {} {
      SortedElements(s - {Least(s)});
    }
  }

  lemma {:induction false} SortedIsAscending(s: set<string>)
    ensures Ascending(Sorted(s))
    decreases s
  {
    if s != {} {
      var m := Least(s);
      var rest := Sorted(s - {m});
      SortedIsAscending(s - {m});
      SortedElements(s - {m});
      forall j | 0 <= j < |rest| ensures Before(m, rest[j]) {
        assert rest[j] in rest;
        CompareZero(m, rest[j]);
      }
    }
  }

  ghost predicate AllBefore(a: set<string>, b: set<string>) {
    forall x, y :: x in a && y in b ==> Before(x, y)
  }

  lemma SortedSplits(a: set<string>, b: set<string>)
    requires AllBefore(a, b)
    ensures Sorted(a + b) == Sorted(a) + Sorted(b)
  {
    SortedIsAscending(a);
    SortedIsAscending(b);
    SortedElements(a);
    SortedElements(b);
    var t := Sorted(a) + Sorted(b);
    forall i, j | 0 <= i < j < |t| ensures Before(t[i], t[j]) {
      if i < |Sorted(a)| <= j {
        assert t[i] in Sorted(a) && t[j] in Sorted(b);
      }
    }
    assert Elements(t) == a + b;
    SortedUnique(t);
  }

  // ----- what a listing is -----

  predicate OccursAt(s: string, d: string, i: int) {
    0 <= i && i + |d| <= |s| && s[i..i + |d|] == d
  }

  /** The first occurrence of `d`, or -1. */
  function Index(s: string, d: string): (i: int)
    ensures i >= -1
    ensures i >= 0 ==> OccursAt(s, d, i)
    ensures forall j :: OccursAt(s, d, j) ==> 0 <= i <= j
    decreases |s|
  {
    if d <= s then 0
    else if s == [] then -1
    else
      var i := Index(s[1..], d);
      assert forall j :: OccursAt(s, d, j) ==> j > 0 && OccursAt(s[1..], d, j - 1);
      if i < 0 then -1 else i + 1
  }

  predicate IsGroup(prefix: string, d: string, key: string) {
    prefix <= key && d != "" && Index(key[|prefix|..], d) >= 0
  }

  /** The entry a key is listed under: itself, or everything up to the first delimiter after the prefix. */
  function Roll(prefix: string, d: string, key: string): (e: string)
    requires prefix <= key
    ensures prefix <= e <= key
  {
    if IsGroup(prefix, d, key) then key[..|prefix| + Index(key[|prefix|..], d) + |d|] else key
  }

  lemma SameFirstOccurrence(a: string, b: string, d: string, pos: nat)
    requires Index(a, d) == pos && a[..pos + |d|] <= b
    ensures Index(b, d) == pos
  {
    assert b[pos..pos + |d|] == a[..pos + |d|][pos..pos + |d|] == a[pos..pos + |d|];
    assert OccursAt(b, d, pos);
    var i := Index(b, d);
    assert b[i..i + |d|] == a[..pos + |d|][i..i + |d|] == a[i..i + |d|];
    assert OccursAt(a, d, i);
  }

  /** Every key that starts with a group belongs to it, and no other key does. */
  lemma GroupIsPrefix(prefix: string, d: string, key: string, other: string)
    requires IsGroup(prefix, d, key) && prefix <= other
    ensures Roll(prefix, d, other) == Roll(prefix, d, key) <==> Roll(prefix, d, key) <= other
    ensures Roll(prefix, d, key) <= other ==> IsGroup(prefix, d, other)
  {
    var pos := Index(key[|prefix|..], d);
    var e := Roll(prefix, d, key);
    if e <= other {
      var t := other[|prefix|..];
      assert e == other[..|e|];
      assert e[|prefix|..] == key[|prefix|..][..pos + |d|];
      assert e[|prefix|..] == t[..pos + |d|];
      SameFirstOccurrence(key[|prefix|..], t, d, pos);
    }
  }

  ghost function Entries(keys: set<string>, prefix: string, d: string): set<string> {
    set k | k in keys && prefix <= k :: Roll(prefix, d, k)
  }

  ghost function After(s: set<string>, marker: string): set<string> {
    set x | x in s && Before(marker, x)
  }

  function Take(s: seq<string>, n: nat): seq<string> {
    if |s| <= n then s else s[..n]
  }

  /** Filter by prefix, roll up by the first delimiter, sort, drop up to the marker, cut. */
  ghost function Page(keys: set<string>, prefix: string, d: string, marker: string, maxKeys: nat): seq<string> {
    Take(Sorted(After(Entries(keys, prefix, d), marker)), maxKeys)
  }

  ghost predicate Truncated(keys: set<string>, prefix: string, d: string, marker: string, maxKeys: nat) {
    |After(Entries(keys, prefix, d), marker)| > maxKeys
  }

  ghost function Only(s: seq<string>, keep: set<string>): seq<string> {
    if s == [] then []
    else Only(s[..|s| - 1], keep) + if s[|s| - 1] in keep then [s[|s| - 1]] else []
  }

  /** The token a truncated page hands out. */
  function Token(page: seq<string>, truncated: bool): string {
    if truncated && page != [] then page[|page| - 1] else ""
  }

  // ----- pagination -----

  datatype Item = Item(key: string, isPrefix: bool)

  function Keys(items: seq<Item>): (keys: seq<string>)
    ensures |keys| == |items| && forall i :: 0 <= i < |items| ==> keys[i] == items[i].key
  {
    seq(|items|, i requires 0 <= i < |items| => items[i].key)
  }

  ghost predicate Distinct(s: seq<string>) {
    forall i, j :: 0 <= i < j < |s| ==> s[i] != s[j]
  }

  /** Puts an item into its place. */
  method Insert(items: seq<Item>, item: Item) returns (r: seq<Item>)
    requires Ascending(Keys(items)) && item.key !in Keys(items)
    ensures Ascending(Keys(r)) && |r| == |items| + 1
    ensures forall x :: x in r <==> x in items || x == item
  {
    var i := |items|;
    while i > 0 && Before(item.key, items[i - 1].key)
      invariant 0 <= i <= |items|
      invariant i < |items| ==> Before(item.key, items[i].key)
    {
      i := i - 1;
    }
    r := items[..i] + [item] + items[i..];
    forall j | 0 <= j < i ensures Before(items[j].key, item.key) {
      assert Keys(items)[j] != item.key;
      CompareFlip(items[i - 1].key, item.key);
      CompareZero(items[i - 1].key, item.key);
      assert Keys(items)[i - 1] != item.key;
      if j < i - 1 {
        assert Before(Keys(items)[j], Keys(items)[i - 1]);
        BeforeTransitive(items[j].key, items[i - 1].key, item.key);
      }
    }
    forall j | i < j < |items| ensures Before(item.key, items[j].key) {
      assert Before(Keys(items)[i], Keys(items)[j]);
      BeforeTransitive(item.key, items[i].key, items[j].key);
    }
    forall a, b | 0 <= a < b < |r| ensures Before(Keys(r)[a], Keys(r)[b]) {
      assert a < b < i ==> Before(Keys(items)[a], Keys(items)[b]);
      assert i < a ==> Before(Keys(items)[a - 1], Keys(items)[b - 1]);
      assert a < i < b ==> Before(Keys(items)[a], Keys(items)[b - 1]);
    }
  }

  method SortByKey(all: seq<Item>) returns (items: seq<Item>)
    requires Distinct(Keys(all))
    ensures Ascending(Keys(items))
    ensures forall x :: x in items <==> x in all
  {
    items := [];
    var i := 0;
    while i < |all|
      invariant 0 <= i <= |all|
      invariant Ascending(Keys(items))
      invariant forall x :: x in items <==> x in all[..i]
    {
      forall k | 0 <= k < |items| ensures Keys(items)[k] != all[i].key {
        assert items[k] in all[..i];
        var m :| 0 <= m < i && all[..i][m] == items[k];
        assert Keys(all)[m] != Keys(all)[i];
      }
      items := Insert(items, all[i]);
      assert all[..i + 1] == all[..i] + [all[i]];
      i := i + 1;
    }
    assert all[..i] == all;
  }

  /** The first position whose key orders after `marker`, by binary search. */
  method SearchAfter(items: seq<Item>, marker: string) returns (idx: nat)
    requires Ascending(Keys(items))
    ensures idx <= |items|
    ensures forall i :: 0 <= i < |items| ==> (Before(marker, items[i].key) <==> idx <= i)
  {
    var lo, hi := 0, |items|;
    while lo < hi
      invariant 0 <= lo <= hi <= |items|
      invariant forall i :: 0 <= i < lo ==> !Before(marker, items[i].key)
      invariant forall i :: hi <= i < |items| ==> Before(marker, items[i].key)
    {
      var mid := (lo + hi) / 2;
      if Before(marker, items[mid].key) {
        forall i | mid < i < |items| ensures Before(marker, items[i].key) {
          assert Before(Keys(items)[mid], Keys(items)[i]);
          BeforeTransitive(marker, items[mid].key, items[i].key);
        }
        hi := mid;
      } else {
        forall i | 0 <= i < mid ensures !Before(marker, items[i].key) {
          assert Before(Keys(items)[i], Keys(items)[mid]);
          if Before(marker, items[i].key) {
            BeforeTransitive(marker, items[i].key, items[mid].key);
          }
        }
        lo := mid + 1;
      }
    }
    idx := lo;
  }

  /** What `paginate` keeps past its marker; the empty marker keeps everything. */
  ghost function Remaining(s: set<string>, marker: string): set<string> {
    if marker == "" then s else After(s, marker)
  }

  lemma AscendingTail(s: seq<string>, marker: string, idx: nat)
    requires Ascending(s) && idx <= |s|
    requires forall i :: 0 <= i < |s| ==> (Before(marker, s[i]) <==> idx <= i)
    ensures Ascending(s[idx..]) && s[idx..] == Sorted(After(Elements(s), marker))
  {
    assert Elements(s[idx..]) == After(Elements(s), marker) by {
      forall x | x in After(Elements(s), marker) ensures x in s[idx..] {
        var i :| 0 <= i < |s| && s[i] == x;
        assert s[idx..][i - idx] == x;
      }
    }
    SortedUnique(s[idx..]);
  }

  method Gather(objects: seq<string>, prefixes: seq<string>) returns (items: seq<Item>)
    requires Distinct(objects + prefixes)
    ensures Ascending(Keys(items))
    ensures Elements(Keys(items)) == Elements(objects) + Elements(prefixes)
    ensures forall x :: x in items ==> (x.isPrefix <==> x.key in prefixes) && (x.isPrefix <==> x.key !in objects)
  {
    var all := seq(|objects| + |prefixes|, i requires 0 <= i < |objects| + |prefixes| =>
      if i < |objects| then Item(objects[i], false) else Item(prefixes[i - |objects|], true));
    assert Keys(all) == objects + prefixes;
    items := SortByKey(all);
    forall x | x in items
      ensures (x.isPrefix <==> x.key in prefixes) && (x.isPrefix <==> x.key !in objects)
    {
      var i :| 0 <= i < |all| && all[i] == x;
      assert forall j :: 0 <= j < |objects| ==> objects[j] == (objects + prefixes)[j];
      assert forall j :: 0 <= j < |prefixes| ==> prefixes[j] == (objects + prefixes)[|objects| + j];
    }
    forall k ensures k in Elements(Keys(items)) <==> k in objects || k in prefixes {
      if k in Elements(Keys(items)) {
        var i :| 0 <= i < |items| && Keys(items)[i] == k;
        assert items[i] in items;
      }
      if k in objects || k in prefixes {
        assert k in objects + prefixes;
        var i :| 0 <= i < |all| && Keys(all)[i] == k;
        assert all[i] in all;
        assert all[i] in items;
        var m :| 0 <= m < |items| && items[m] == all[i];
        assert Keys(items)[m] == k;
      }
    }
  }

  /** Separates the objects of a page from its common prefixes. */
  method Separate(items: seq<Item>, ghost objects: set<string>, ghost prefixes: set<string>)
    returns (pageObjects: seq<string>, pagePrefixes: seq<string>)
    requires forall x :: x in items ==> (x.isPrefix <==> x.key in prefixes) && (x.isPrefix <==> x.key !in objects)
    ensures pageObjects == Only(Keys(items), objects) && pagePrefixes == Only(Keys(items), prefixes)
  {
    pageObjects, pagePrefixes := [], [];
    var i := 0;
    while i < |items|
      invariant 0 <= i <= |items|
      invariant pageObjects == Only(Keys(items)[..i], objects)
      invariant pagePrefixes == Only(Keys(items)[..i], prefixes)
    {
      assert items[i] in items;
      if items[i].isPrefix {
        pagePrefixes := pagePrefixes + [items[i].key];
      } else {
        pageObjects := pageObjects + [items[i].key];
      }
      assert Keys(items)[..i + 1][..i] == Keys(items)[..i];
      i := i + 1;
    }
    assert Keys(items)[..i] == Keys(items);
  }

  /** Drops what the marker covers. */
  method Skip(all: seq<Item>, startAfter: string) returns (items: seq<Item>)
    requires Ascending(Keys(all))
    ensures Keys(items) == Sorted(Remaining(Elements(Keys(all)), startAfter))
    ensures forall x :: x in items ==> x in all
  {
    if startAfter == "" {
      SortedUnique(Keys(all));
      return all;
    }
    var idx := SearchAfter(all, startAfter);
    AscendingTail(Keys(all), startAfter, idx);
    items := all[idx..];
    assert Keys(items) == Keys(all)[idx..];
  }

  method Paginate(objects: seq<string>, prefixes: seq<string>, startAfter: string, maxKeys: nat)
    returns (pageObjects: seq<string>, pagePrefixes: seq<string>, truncated: bool, next: string)
    requires Distinct(objects + prefixes)
    ensures ghost var left := Remaining(Elements(objects) + Elements(prefixes), startAfter);
      ghost var page := Take(Sorted(left), maxKeys);
      && pageObjects == Only(page, Elements(objects)) && pagePrefixes == Only(page, Elements(prefixes))
      && (truncated <==> |left| > maxKeys) && next == Token(page, truncated)
  {
    var all := Gather(objects, prefixes);
    var items := Skip(all, startAfter);
    SortedElements(Remaining(Elements(objects) + Elements(prefixes), startAfter));
    truncated := |items| > maxKeys;
    if truncated {
      assert Keys(items[..maxKeys]) == Keys(items)[..maxKeys];
      items := items[..maxKeys];
    }
    pageObjects, pagePrefixes := Separate(items, Elements(objects), Elements(prefixes));
    next := if truncated && |items| > 0 then items[|items| - 1].key else "";
  }

  // ----- the page read from the index -----

  /** Within [from, until) and past the exclusive cursor, as one lower bound. */
  predicate InWindow(from: string, until: string, after: string, name: string) {
    && (if Compare(after, from) >= 0 then Before(after, name) else Compare(from, name) <= 0)
    && Before(name, until)
  }

  /** The index's answer: the window's first `limit` live names in order. */
  ghost predicate IsRange(live: set<string>, from: string, until: string, after: string, limit: nat, page: seq<string>) {
    && Ascending(page) && |page| <= limit
    && (forall i :: 0 <= i < |page| ==> page[i] in live && InWindow(from, until, after, page[i]))
    && (forall n :: n in live && InWindow(from, until, after, n) ==>
          n in page || (|page| == limit && forall i :: 0 <= i < |page| ==> Before(page[i], n)))
  }

  method LeastOf(names: set<string>) returns (m: string)
    requires names != {}
    ensures IsLeast(m, names)
  {
    m :| m in names;
    var todo := names - {m};
    CompareZero(m, m);
    while todo != {}
      invariant m in names && todo <= names
      invariant forall x :: x in names && x !in todo ==> Compare(m, x) <= 0
      decreases todo
    {
      var x :| x in todo;
      CompareFlip(m, x);
      CompareZero(x, x);
      if Before(x, m) {
        forall y | y in names && y !in todo ensures Compare(x, y) <= 0 {
          CompareTransitive(x, m, y);
        }
        m := x;
      }
      todo := todo - {x};
    }
  }

  method ListLiveRange(live: set<string>, from: string, until: string, after: string, limit: int)
    returns (ok: bool, page: seq<string>)
    ensures ok <==> 0 < limit <= 10000
    ensures ok ==> IsRange(live, from, until, after, limit, page)
  {
    page := [];
    if limit <= 0 || limit > 10000 {
      return false, page;
    }
    ok := true;
    var todo := set n | n in live && InWindow(from, until, after, n);
    while todo != {} && |page| < limit
      invariant |page| <= limit && Ascending(page)
      invariant forall n :: n in todo ==> n in live && InWindow(from, until, after, n)
      invariant forall i :: 0 <= i < |page| ==> page[i] in live && InWindow(from, until, after, page[i])
      invariant forall n :: n in live && InWindow(from, until, after, n) ==> n in page || n in todo
      invariant forall i, n :: 0 <= i < |page| && n in todo ==> Before(page[i], n)
      decreases todo
    {
      var m := LeastOf(todo);
      forall n | n in todo && n != m ensures Before(m, n) {
        CompareZero(m, n);
      }
      page := page + [m];
      todo := todo - {m};
    }
  }

  datatype Query = Query(base: string, prefix: string, d: string, after: string)

  /** What a page has gathered, and how far it has read. */
  datatype Scan = Scan(objects: seq<string>, prefixes: seq<string>, from: string, cursor: string)

  ghost predicate Passed(q: Query, sc: Scan, key: string) {
    Compare(q.base + key, sc.cursor) <= 0 || Before(q.base + key, sc.from)
  }

  /** The entries of the keys passed so far. */
  ghost function Found(q: Query, keys: set<string>, sc: Scan): set<string> {
    set k | k in keys && q.prefix <= k && Passed(q, sc, k) && Before(q.after, Roll(q.prefix, q.d, k)) :: Roll(q.prefix, q.d, k)
  }

  ghost predicate GroupPassed(q: Query, sc: Scan, group: string) {
    forall s :: q.base + group <= s ==> Before(s, sc.from)
  }

  ghost predicate Kinds(q: Query, sc: Scan) {
    && (forall e :: e in sc.objects ==> q.prefix <= e && !IsGroup(q.prefix, q.d, e) && Compare(q.base + e, sc.cursor) <= 0)
    && (forall e :: e in sc.prefixes ==> IsGroup(q.prefix, q.d, e) && Compare(q.base + e, sc.cursor) <= 0 && GroupPassed(q, sc, e))
  }

  ghost predicate Gathered(q: Query, keys: set<string>, sc: Scan) {
    && Distinct(sc.objects + sc.prefixes) && Kinds(q, sc)
    && Elements(sc.objects) + Elements(sc.prefixes) == Found(q, keys, sc)
    && Compare(q.base + q.after, sc.cursor) <= 0
  }

  /** `n` is the next row to look at: every earlier live name has been passed. */
  ghost predicate NextRow(q: Query, keys: set<string>, sc: Scan, n: string) {
    && q.base + q.prefix <= n && Before(sc.cursor, n) && Compare(sc.from, n) <= 0
    && (forall k :: k in keys && q.prefix <= k && Before(q.base + k, n) ==> Passed(q, sc, k))
  }

  lemma PassedNext(q: Query, keys: set<string>, sc: Scan, n: string, k: string)
    requires NextRow(q, keys, sc, n) && k in keys && q.prefix <= k
    ensures Passed(q, sc.(cursor := n), k) <==> Passed(q, sc, k) || q.base + k == n
  {
    CompareZero(q.base + k, n);
    if Compare(q.base + k, sc.cursor) <= 0 {
      CompareTransitive(q.base + k, sc.cursor, n);
    }
  }

  lemma KindsNext(q: Query, sc: Scan, n: string)
    requires Kinds(q, sc) && Before(sc.cursor, n)
    ensures Kinds(q, sc.(cursor := n))
  {
    forall e | e in sc.objects || e in sc.prefixes ensures Compare(q.base + e, n) <= 0 {
      CompareTransitive(q.base + e, sc.cursor, n);
    }
    forall e | e in sc.prefixes ensures GroupPassed(q, sc.(cursor := n), e) {
      assert GroupPassed(q, sc, e);
    }
  }

  /** A row that is not shown is passed over. */
  lemma SkipsRow(q: Query, keys: set<string>, sc: Scan, n: string)
    requires Gathered(q, keys, sc) == true && NextRow(q, keys, sc, n) == true
    requires n[|q.base|..] !in keys
    ensures Gathered(q, keys, sc.(cursor := n))
  {
    var sc' := sc.(cursor := n);
    KindsNext(q, sc, n);
    CompareTransitive(q.base + q.after, sc.cursor, n);
    forall k | k in keys && q.prefix <= k ensures Passed(q, sc', k) <==> Passed(q, sc, k) {
      PassedNext(q, keys, sc, n, k);
      assert (q.base + k)[|q.base|..] == k;
    }
    assert Found(q, keys, sc') == Found(q, keys, sc);
  }

  lemma DistinctOneMore(a: seq<string>, b: seq<string>, x: string)
    requires Distinct(a + b) && x !in a && x !in b
    ensures Distinct(a + [x] + b) && Distinct(a + (b + [x]))
  {
    assert a + (b + [x]) == (a + b) + [x];
    var t := a + [x] + b;
    forall i, j | 0 <= i < j < |t| ensures t[i] != t[j] {
      assert i < |a| ==> t[i] == (a + b)[i] == a[i];
      assert j < |a| ==> t[j] == (a + b)[j];
      assert i > |a| ==> t[i] == (a + b)[i - 1];
      assert j > |a| ==> t[j] == (a + b)[j - 1] == b[j - 1 - |a|];
    }
  }

  /** A key without the delimiter past the prefix is an entry of its own. */
  lemma TakesObject(q: Query, keys: set<string>, sc: Scan, n: string, key: string)
    requires Gathered(q, keys, sc) == true && NextRow(q, keys, sc, n) == true
    requires n == q.base + key && key in keys && q.prefix <= key && !IsGroup(q.prefix, q.d, key)
    ensures Gathered(q, keys, sc.(cursor := n, objects := sc.objects + [key]))
  {
    var sc' := sc.(cursor := n);
    var sc'' := sc'.(objects := sc.objects + [key]);
    KindsNext(q, sc, n);
    CompareZero(n, n);
    BeforeTransitive(q.base + q.after, sc.cursor, n);
    CompareCommonPrefix(q.base, q.after, key);
    forall e | e in sc.objects || e in sc.prefixes ensures e != key {
      CompareFlip(n, sc.cursor);
    }
    DistinctOneMore(sc.objects, sc.prefixes, key);
    forall e | e in sc''.prefixes ensures GroupPassed(q, sc'', e) {
      assert GroupPassed(q, sc', e);
    }
    forall k | k in keys && q.prefix <= k ensures Passed(q, sc'', k) <==> Passed(q, sc, k) || k == key {
      PassedNext(q, keys, sc, n, k);
      assert (q.base + k)[|q.base|..] == k && n[|q.base|..] == key;
      assert Passed(q, sc'', k) <==> Passed(q, sc', k);
    }
    assert Found(q, keys, sc'') == Found(q, keys, sc) + {key};
    assert Elements(sc''.objects) == Elements(sc.objects) + {key};
  }

  lemma PrefixUnderBase(base: string, a: string, b: string)
    ensures base + a <= base + b <==> a <= b
  {
    if base + a <= base + b {
      assert (base + b)[..|base| + |a|] == base + b[..|a|];
      assert (base + a)[|base|..] == (base + b[..|a|])[|base|..];
      assert a == b[..|a|];
    }
    if a <= b {
      assert base + b == (base + a) + b[|a|..];
    }
  }

  /** After a group's first row the scan seeks past the group. */
  function PastGroup(q: Query, sc: Scan, n: string, group: string, end: string): Scan {
    Scan(sc.objects, if Before(q.after, group) then sc.prefixes + [group] else sc.prefixes, end, n)
  }

  lemma GroupPassesKeys(q: Query, keys: set<string>, sc: Scan, n: string, key: string, group: string, end: string, k: string)
    requires NextRow(q, keys, sc, n) && n == q.base + key && key in keys && q.prefix <= key
    requires IsGroup(q.prefix, q.d, key) && group == Roll(q.prefix, q.d, key) && ClosesPrefix(q.base + group, end)
    requires k in keys && q.prefix <= k
    ensures Passed(q, PastGroup(q, sc, n, group, end), k) <==> Passed(q, sc, k) || Roll(q.prefix, q.d, k) == group
  {
    var name := q.base + k;
    GroupIsPrefix(q.prefix, q.d, key, k);
    PrefixUnderBase(q.base, group, k);
    PrefixUnderBase(q.base, group, key);
    assert InPrefixRange(q.base + group, end, name) <==> q.base + group <= name;
    assert q.base + group <= n;
    assert InPrefixRange(q.base + group, end, n);
    CompareFlip(q.base + group, name);
    CompareFlip(name, n);
    if Before(name, q.base + group) {
      BeforeTransitive(name, q.base + group, n);
    }
    if Passed(q, sc, k) {
      if Before(name, sc.from) {
        BeforeTransitive(name, sc.from, n);
        BeforeTransitive(name, n, end);
      } else {
        CompareTransitive(name, sc.cursor, n);
      }
    }
    if Compare(name, n) <= 0 {
      PassedNext(q, keys, sc, n, k);
    }
  }

  lemma GroupKinds(q: Query, sc: Scan, n: string, group: string, end: string)
    requires Kinds(q, sc) && Before(sc.cursor, n) && Compare(sc.from, n) <= 0
    requires q.base + group <= n && IsGroup(q.prefix, q.d, group) && ClosesPrefix(q.base + group, end)
    ensures Kinds(q, PastGroup(q, sc, n, group, end)) && group !in sc.objects && group !in sc.prefixes
  {
    var sc' := PastGroup(q, sc, n, group, end);
    KindsNext(q, sc, n);
    PrefixNotAfter(q.base + group, n);
    assert InPrefixRange(q.base + group, end, n);
    assert group in sc.prefixes ==> Before(n, sc.from);
    CompareFlip(n, sc.from);
    forall e | e in sc.prefixes ensures GroupPassed(q, sc', e) {
      forall s | q.base + e <= s ensures Before(s, end) {
        assert GroupPassed(q, sc, e);
        assert Before(s, sc.from);
        BeforeTransitive(s, sc.from, n);
        BeforeTransitive(s, n, end);
      }
    }
    forall s | q.base + group <= s ensures Before(s, end) {
      assert InPrefixRange(q.base + group, end, s);
    }
  }

  /** A key with the delimiter past the prefix stands for its group, counted once. */
  lemma TakesGroup(q: Query, keys: set<string>, sc: Scan, n: string, key: string, group: string, end: string)
    requires Gathered(q, keys, sc) == true && NextRow(q, keys, sc, n) == true && n == q.base + key && key in keys && q.prefix <= key
    requires IsGroup(q.prefix, q.d, key) && group == Roll(q.prefix, q.d, key) && ClosesPrefix(q.base + group, end)
    ensures Gathered(q, keys, PastGroup(q, sc, n, group, end))
  {
    var sc' := PastGroup(q, sc, n, group, end);
    GroupIsPrefix(q.prefix, q.d, key, group);
    GroupKinds(q, sc, n, group, end);
    DistinctOneMore(sc.objects, sc.prefixes, group);
    CompareTransitive(q.base + q.after, sc.cursor, n);
    forall k | k in keys && q.prefix <= k
      ensures Passed(q, sc', k) <==> Passed(q, sc, k) || Roll(q.prefix, q.d, k) == group
    {
      GroupPassesKeys(q, keys, sc, n, key, group, end, k);
    }
    assert Found(q, keys, sc') == Found(q, keys, sc) + (if Before(q.after, group) then {group} else {});
    assert Elements(sc'.prefixes) == Elements(sc.prefixes) + (if Before(q.after, group) then {group} else {});
  }

  /** Entries not yet found order after all that were. */
  lemma FoundComesFirst(q: Query, keys: set<string>, sc: Scan)
    requires Gathered(q, keys, sc)
    ensures AllBefore(Found(q, keys, sc), After(Entries(keys, q.prefix, q.d), q.after) - Found(q, keys, sc))
    ensures Found(q, keys, sc) <= After(Entries(keys, q.prefix, q.d), q.after)
  {
    var rest := After(Entries(keys, q.prefix, q.d), q.after);
    forall e, e' | e in Found(q, keys, sc) && e' in rest - Found(q, keys, sc) ensures Before(e, e') {
      var k :| k in keys && q.prefix <= k && e == Roll(q.prefix, q.d, k);
      var k' :| k' in keys && q.prefix <= k' && e' == Roll(q.prefix, q.d, k');
      assert e in Elements(sc.objects) + Elements(sc.prefixes);
      UnpassedComesAfter(q, keys, sc, e, k, e', k');
    }
  }

  lemma UnpassedComesAfter(q: Query, keys: set<string>, sc: Scan, e: string, k: string, e': string, k': string)
    requires q.prefix <= k && e == Roll(q.prefix, q.d, k) && Compare(q.base + e, sc.cursor) <= 0
    requires q.prefix <= k' && e' == Roll(q.prefix, q.d, k') && !Passed(q, sc, k') && e != e'
    ensures Before(e, e')
  {
    CompareFlip(e, e');
    CompareZero(e, e');
    if Before(e', e) {
      CompareCommonPrefix(q.base, e', e);
      CompareFlip(q.base + k', sc.cursor);
      CompareTransitive(q.base + e, sc.cursor, q.base + k');
      BetweenSharesPrefix(q.base + e', q.base + e', q.base + e, q.base + k');
      PrefixUnderBase(q.base, e', e);
      if IsGroup(q.prefix, q.d, k') {
        GroupIsPrefix(q.prefix, q.d, k', k);
      } else {
        CompareTransitive(q.base + e', q.base + e, sc.cursor);
      }
    }
  }

  lemma WindowMeans(from: string, until: string, after: string, n: string)
    ensures InWindow(from, until, after, n) <==> Compare(from, n) <= 0 && Before(after, n) && Before(n, until)
  {
    CompareFlip(after, from);
    if Compare(after, from) >= 0 {
      if Before(after, n) {
        CompareTransitive(from, after, n);
      }
    } else if Compare(from, n) <= 0 {
      BeforeTransitive(after, from, n);
    }
  }

  /** The keys a bucket shows: its live names that the gateway serves. */
  ghost function ShownKeys(live: set<string>, shown: string -> bool, base: string): set<string> {
    set n | n in live && base <= n && shown(n) :: n[|base|..]
  }

  lemma ShownKeysMember(live: set<string>, shown: string -> bool, base: string, k: string)
    ensures k in ShownKeys(live, shown, base) <==> base + k in live && shown(base + k)
  {
    if k in ShownKeys(live, shown, base) {
      var n :| n in live && base <= n && shown(n) && n[|base|..] == k;
      assert n == base + k;
    }
    if base + k in live && shown(base + k) {
      assert (base + k)[|base|..] == k;
    }
  }

  /** What a page of rows was asked for. */
  ghost predicate Asked(q: Query, live: set<string>, shown: string -> bool, sc: Scan, until: string, page: seq<string>) {
    && ClosesPrefix(q.base + q.prefix, until) && Compare(q.base + q.prefix, sc.from) <= 0
    && IsRange(live, sc.from, until, sc.cursor, 128, page)
  }

  lemma RowIsNext(q: Query, live: set<string>, shown: string -> bool, sc0: Scan, until: string, page: seq<string>, i: nat, sc: Scan)
    requires Asked(q, live, shown, sc0, until, page) == true && i < |page|
    requires sc.from == sc0.from && sc.cursor == if i == 0 then sc0.cursor else page[i - 1]
    ensures NextRow(q, ShownKeys(live, shown, q.base), sc, page[i]) == true
  {
    var n := page[i];
    WindowMeans(sc0.from, until, sc0.cursor, n);
    CompareTransitive(q.base + q.prefix, sc0.from, n);
    assert InPrefixRange(q.base + q.prefix, until, n);
    if i > 0 {
      WindowMeans(sc0.from, until, sc0.cursor, page[i - 1]);
    }
    forall k | k in ShownKeys(live, shown, q.base) && q.prefix <= k && Before(q.base + k, n) ensures Passed(q, sc, k) {
      ShownKeysMember(live, shown, q.base, k);
      var m := q.base + k;
      if !Passed(q, sc, k) {
        CompareFlip(m, sc.cursor);
        CompareFlip(m, sc.from);
        if i > 0 {
          BeforeTransitive(sc0.cursor, page[i - 1], m);
        }
        BeforeTransitive(m, n, until);
        WindowMeans(sc0.from, until, sc0.cursor, m);
        CompareFlip(m, n);
        NothingBetween(page, i, m);
      }
    }
  }

  /** A name between two neighbours of an ascending page is not on it. */
  lemma NothingBetween(page: seq<string>, i: nat, m: string)
    requires Ascending(page) && i < |page| && Before(m, page[i]) && (i > 0 ==> Before(page[i - 1], m))
    ensures m !in page
  {
    CompareZero(m, m);
    if m in page {
      var j :| 0 <= j < |page| && page[j] == m;
      CompareFlip(m, page[i]);
      if j < i {
        CompareFlip(page[i - 1], m);
      }
    }
  }

  /** The slash after a bucket's name gives every prefix in it an upper bound. */
  lemma HasBound(base: string, s: string)
    requires '/' in base
    ensures !AllMax(base + s)
  {
    var i :| 0 <= i < |base| && base[i] == '/';
    assert (base + s)[i] == '/';
  }

  /** Looks at one row; on a group it seeks past all of it. */
  method TakeRow(q: Query, ghost live: set<string>, shown: string -> bool, before: Scan, n: string)
    returns (sc: Scan, grouped: bool)
    requires Gathered(q, ShownKeys(live, shown, q.base), before) == true
    requires NextRow(q, ShownKeys(live, shown, q.base), before, n) == true
    requires n in live && '/' in q.base
    ensures Gathered(q, ShownKeys(live, shown, q.base), sc) == true
    ensures sc.cursor == n && Compare(before.from, sc.from) <= 0 && (!grouped ==> sc.from == before.from)
  {
    ghost var keys := ShownKeys(live, shown, q.base);
    CompareZero(before.from, before.from);
    assert q.base <= n;
    var key := n[|q.base|..];
    assert n == q.base + key;
    PrefixUnderBase(q.base, q.prefix, key);
    ShownKeysMember(live, shown, q.base, key);
    if !shown(n) {
      SkipsRow(q, keys, before, n);
      return before.(cursor := n), false;
    }
    if !IsGroup(q.prefix, q.d, key) {
      TakesObject(q, keys, before, n, key);
      return before.(cursor := n, objects := before.objects + [key]), false;
    }
    var group := Roll(q.prefix, q.d, key);
    var end := PrefixEnd(q.base + group);
    HasBound(q.base, group);
    TakesGroup(q, keys, before, n, key, group, end);
    PrefixUnderBase(q.base, group, key);
    assert InPrefixRange(q.base + group, end, n);
    CompareTransitive(before.from, n, end);
    return PastGroup(q, before, n, group, end), true;
  }

  /** Looks at one page of rows; a group, or enough entries, ends it. */
  method ScanRows(q: Query, ghost live: set<string>, shown: string -> bool, start: Scan, ghost until: string, page: seq<string>, maxKeys: nat)
    returns (sc: Scan)
    requires Gathered(q, ShownKeys(live, shown, q.base), start) == true
    requires Asked(q, live, shown, start, until, page) == true
    requires page != [] && '/' in q.base
    ensures Gathered(q, ShownKeys(live, shown, q.base), sc) == true
    ensures Compare(start.from, sc.from) <= 0 && Compare(page[0], sc.cursor) <= 0
  {
    sc := start;
    CompareZero(sc.from, sc.from);
    CompareZero(page[0], page[0]);
    var i, grouped := 0, false;
    while i < |page|
      invariant 0 <= i <= |page|
      invariant Gathered(q, ShownKeys(live, shown, q.base), sc) == true
      invariant sc.from == start.from && sc.cursor == if i == 0 then start.cursor else page[i - 1]
    {
      RowIsNext(q, live, shown, start, until, page, i, sc);
      assert i > 0 ==> Before(page[0], page[i]);
      sc, grouped := TakeRow(q, live, shown, sc, page[i]);
      if grouped || |sc.objects| + |sc.prefixes| > maxKeys {
        return;
      }
      i := i + 1;
    }
    assert i > 1 ==> Before(page[0], page[i - 1]);
  }

  lemma {:induction false} DistinctSize(s: seq<string>)
    requires Distinct(s)
    ensures |Elements(s)| == |s|
    decreases |s|
  {
    if s != [] {
      var n := |s| - 1;
      DistinctSize(s[..n]);
      assert Elements(s) == Elements(s[..n]) + {s[n]};
      assert s[n] !in s[..n];
    }
  }

  lemma {:induction false} OnlySame(s: seq<string>, a: set<string>, b: set<string>)
    requires forall x :: x in s ==> (x in a <==> x in b)
    ensures Only(s, a) == Only(s, b)
    decreases |s|
  {
    if s != [] {
      OnlySame(s[..|s| - 1], a, b);
    }
  }

  ghost function Groups(prefix: string, d: string, entries: set<string>): set<string> {
    set e | e in entries && IsGroup(prefix, d, e)
  }

  /** The answer a listing must give: the page, objects and groups apart, whether more
      follows, and the last entry as the token to go on from. */
  ghost predicate Answers(keys: set<string>, prefix: string, d: string, marker: string, maxKeys: nat,
    objects: seq<string>, prefixes: seq<string>, truncated: bool, next: string)
  {
    var page := Page(keys, prefix, d, marker, maxKeys);
    var entries := Entries(keys, prefix, d);
    && objects == Only(page, entries - Groups(prefix, d, entries))
    && prefixes == Only(page, Groups(prefix, d, entries))
    && (truncated <==> Truncated(keys, prefix, d, marker, maxKeys))
    && next == Token(page, truncated)
  }

  lemma TakePrefix(a: seq<string>, b: seq<string>, n: nat)
    requires |a| > n
    ensures Take(a + b, n) == Take(a, n)
  {
  }

  /** Enough of the first entries, or all of them, make the page. */
  lemma EnoughFound(found: set<string>, rest: set<string>, maxKeys: nat)
    requires found <= rest && AllBefore(found, rest - found) && (|found| > maxKeys || found == rest)
    ensures Take(Sorted(found), maxKeys) == Take(Sorted(rest), maxKeys)
    ensures |found| > maxKeys <==> |rest| > maxKeys
  {
    if found != rest {
      var more := rest - found;
      assert found + more == rest;
      SortedSplits(found, more);
      SortedElements(found);
      SortedElements(rest);
      TakePrefix(Sorted(found), Sorted(more), maxKeys);
    }
  }

  lemma TakeMember(s: set<string>, n: nat, x: string)
    requires x in Take(Sorted(s), n)
    ensures x in s
  {
    SortedElements(s);
  }

  lemma GatheredSize(q: Query, keys: set<string>, sc: Scan)
    requires Gathered(q, keys, sc) == true
    ensures |Found(q, keys, sc)| == |sc.objects| + |sc.prefixes|
  {
    DistinctSize(sc.objects + sc.prefixes);
    assert Elements(sc.objects + sc.prefixes) == Elements(sc.objects) + Elements(sc.prefixes);
  }

  /** Paginating enough of the first entries answers the listing. */
  lemma EnoughAnswers(keys: set<string>, prefix: string, d: string, after: string, maxKeys: nat, gotObjects: seq<string>, gotPrefixes: seq<string>,
    objects: seq<string>, prefixes: seq<string>, truncated: bool, next: string)
    requires var found := Elements(gotObjects) + Elements(gotPrefixes);
      var rest := After(Entries(keys, prefix, d), after);
      found <= rest && AllBefore(found, rest - found) && (|found| > maxKeys || found == rest)
    requires forall e :: e in gotObjects ==> !IsGroup(prefix, d, e)
    requires forall e :: e in gotPrefixes ==> IsGroup(prefix, d, e)
    requires var left := Remaining(Elements(gotObjects) + Elements(gotPrefixes), after);
      var page := Take(Sorted(left), maxKeys);
      && objects == Only(page, Elements(gotObjects)) && prefixes == Only(page, Elements(gotPrefixes))
      && (truncated <==> |left| > maxKeys) && next == Token(page, truncated)
    ensures Answers(keys, prefix, d, after, maxKeys, objects, prefixes, truncated, next) == true
  {
    var found := Elements(gotObjects) + Elements(gotPrefixes);
    var entries := Entries(keys, prefix, d);
    var page := Page(keys, prefix, d, after, maxKeys);
    assert Remaining(found, after) == found;
    EnoughFound(found, After(entries, after), maxKeys);
    forall x | x in page
      ensures x in Elements(gotObjects) <==> x in entries - Groups(prefix, d, entries)
      ensures x in Elements(gotPrefixes) <==> x in Groups(prefix, d, entries)
    {
      TakeMember(found, maxKeys, x);
    }
    OnlySame(page, Elements(gotObjects), entries - Groups(prefix, d, entries));
    OnlySame(page, Elements(gotPrefixes), Groups(prefix, d, entries));
  }

  /** Nothing is left when no live name remains between the scan and the prefix's end. */
  lemma AllPassed(q: Query, live: set<string>, shown: string -> bool, sc: Scan, until: string, page: seq<string>)
    requires ClosesPrefix(q.base + q.prefix, until)
    requires !Before(sc.from, until) || (IsRange(live, sc.from, until, sc.cursor, 128, page) && page == [])
    ensures var keys := ShownKeys(live, shown, q.base);
      Found(q, keys, sc) == After(Entries(keys, q.prefix, q.d), q.after)
  {
    var keys := ShownKeys(live, shown, q.base);
    forall k | k in keys && q.prefix <= k ensures Passed(q, sc, k) {
      var name := q.base + k;
      ShownKeysMember(live, shown, q.base, k);
      PrefixUnderBase(q.base, q.prefix, k);
      assert InPrefixRange(q.base + q.prefix, until, name);
      if Before(sc.from, until) {
        WindowMeans(sc.from, until, sc.cursor, name);
        CompareFlip(name, sc.cursor);
        CompareFlip(name, sc.from);
      } else {
        CompareFlip(sc.from, until);
        BeforeTransitive(name, until, sc.from);
      }
    }
  }

  lemma StartGathered(q: Query, keys: set<string>)
    ensures Gathered(q, keys, Scan([], [], q.base + q.prefix, q.base + q.after)) == true
  {
    var sc := Scan([], [], q.base + q.prefix, q.base + q.after);
    CompareZero(q.base + q.after, q.base + q.after);
    forall k | k in keys && q.prefix <= k && Passed(q, sc, k) ensures !Before(q.after, Roll(q.prefix, q.d, k)) {
      var e := Roll(q.prefix, q.d, k);
      CompareCommonPrefix(q.base, k, q.after);
      CompareCommonPrefix(q.base, k, q.prefix);
      PrefixNotAfter(q.prefix, k);
      CompareFlip(q.prefix, k);
      PrefixNotAfter(e, k);
      CompareTransitive(e, k, q.after);
      CompareFlip(e, q.after);
    }
    assert Found(q, keys, sc) == {};
  }

  /** Live names the scan has yet to reach. */
  ghost function Ahead(live: set<string>, from: string, until: string, cursor: string): set<string> {
    set n | n in live && InWindow(from, until, cursor, n)
  }

  lemma ScanAdvances(live: set<string>, until: string, from: string, cursor: string, from': string, cursor': string, page: seq<string>)
    requires IsRange(live, from, until, cursor, 128, page) && page != []
    requires Compare(from, from') <= 0 && Compare(page[0], cursor') <= 0
    ensures Ahead(live, from', until, cursor') < Ahead(live, from, until, cursor)
  {
    WindowMeans(from, until, cursor, page[0]);
    BeforeTransitive(cursor, page[0], cursor');
    forall n | n in Ahead(live, from', until, cursor') ensures n in Ahead(live, from, until, cursor) {
      WindowMeans(from', until, cursor', n);
      CompareTransitive(from, from', n);
      BeforeTransitive(cursor, cursor', n);
      WindowMeans(from, until, cursor, n);
    }
    WindowMeans(from', until, cursor', page[0]);
    CompareFlip(page[0], cursor');
    assert page[0] in Ahead(live, from, until, cursor) && page[0] !in Ahead(live, from', until, cursor');
  }

  /** One page, by seeking in the index. */
  method ListPage(live: set<string>, shown: string -> bool, bucket: string, prefix: string, d: string, after: string, maxKeys: nat)
    returns (objects: seq<string>, prefixes: seq<string>, truncated: bool, next: string)
    ensures Answers(ShownKeys(live, shown, bucket + "/"), prefix, d, after, maxKeys, objects, prefixes, truncated, next) == true
  {
    var q := Query(bucket + "/", prefix, d, after);
    ghost var keys := ShownKeys(live, shown, q.base);
    assert q.base[|bucket|] == '/';
    HasBound(q.base, prefix);
    var until := PrefixEnd(q.base + prefix);
    var sc := Scan([], [], q.base + prefix, q.base + after);
    StartGathered(q, keys);
    CompareZero(sc.from, sc.from);
    while |sc.objects| + |sc.prefixes| <= maxKeys && Before(sc.from, until)
      invariant Gathered(q, keys, sc) == true && Compare(q.base + prefix, sc.from) <= 0
      decreases Ahead(live, sc.from, until, sc.cursor)
    {
      var _, page := ListLiveRange(live, sc.from, until, sc.cursor, 128);
      if page == [] {
        AllPassed(q, live, shown, sc, until, page);
        break;
      }
      ghost var before := sc;
      sc := ScanRows(q, live, shown, sc, until, page, maxKeys);
      CompareTransitive(q.base + prefix, before.from, sc.from);
      ScanAdvances(live, until, before.from, before.cursor, sc.from, sc.cursor, page);
    }
    if !Before(sc.from, until) {
      AllPassed(q, live, shown, sc, until, []);
    }
    objects, prefixes, truncated, next := Paginate(sc.objects, sc.prefixes, after, maxKeys);
    GatheredSize(q, keys, sc);
    FoundComesFirst(q, keys, sc);
    EnoughAnswers(keys, prefix, d, after, maxKeys, sc.objects, sc.prefixes, objects, prefixes, truncated, next);
  }

  // ----- the page read from the directory tree -----

  /** One directory entry; `shown` is false for scratch files, hidden paths and whatever is not a served file. */
  datatype Node = File(name: string, shown: bool) | Folder(name: string, shown: bool, nodes: seq<Node>)

  /** The served files below a directory, by key; `at` is the directory's key with its slash. */
  ghost function TreeKeys(nodes: seq<Node>, at: string): set<string> {
    if nodes == [] then {} else TreeKeys(nodes[..|nodes| - 1], at) + NodeKeys(nodes[|nodes| - 1], at)
  }

  ghost function NodeKeys(node: Node, at: string): set<string> {
    if !node.shown then {}
    else match node
      case File(name, _) => {at + name}
      case Folder(name, _, nodes) => TreeKeys(nodes, at + name + "/")
  }

  lemma {:induction false} TreeKeysUnder(nodes: seq<Node>, at: string, k: string)
    requires k in TreeKeys(nodes, at)
    ensures at <= k
  {
    if k in TreeKeys(nodes[..|nodes| - 1], at) {
      TreeKeysUnder(nodes[..|nodes| - 1], at, k);
    } else {
      NodeKeysUnder(nodes[|nodes| - 1], at, k);
    }
  }

  lemma {:induction false} NodeKeysUnder(node: Node, at: string, k: string)
    requires k in NodeKeys(node, at)
    ensures at <= k
  {
    if node.Folder? {
      TreeKeysUnder(node.nodes, at + node.name + "/", k);
      assert at <= at + node.name + "/";
    }
  }

  ghost predicate Flagged(prefix: string, d: string, visits: seq<Item>) {
    forall x :: x in visits ==> (x.isPrefix <==> IsGroup(prefix, d, x.key))
  }

  lemma EntriesUnion(a: set<string>, b: set<string>, prefix: string, d: string)
    ensures Entries(a + b, prefix, d) == Entries(a, prefix, d) + Entries(b, prefix, d)
  {
  }

  /** A subtree that neither extends nor is extended by the prefix holds no key with it. */
  lemma PrunedHasNoEntry(nodes: seq<Node>, subtree: string, prefix: string, d: string)
    requires !(prefix <= subtree) && !(subtree <= prefix)
    ensures Entries(TreeKeys(nodes, subtree), prefix, d) == {}
  {
    forall k | k in TreeKeys(nodes, subtree) ensures !(prefix <= k) {
      TreeKeysUnder(nodes, subtree, k);
    }
  }

  method VisitFile(key: string, prefix: string, d: string) returns (visits: seq<Item>)
    ensures Elements(Keys(visits)) == Entries({key}, prefix, d) && Flagged(prefix, d, visits)
  {
    if !(prefix <= key) {
      return [];
    }
    visits := [Item(Roll(prefix, d, key), IsGroup(prefix, d, key))];
    if IsGroup(prefix, d, key) {
      GroupIsPrefix(prefix, d, key, Roll(prefix, d, key));
    }
    assert Keys(visits)[0] == Roll(prefix, d, key);
  }

  /** Walks a directory, passing over subtrees that cannot hold the prefix. */
  method WalkListing(nodes: seq<Node>, at: string, prefix: string, d: string) returns (visits: seq<Item>)
    ensures Elements(Keys(visits)) == Entries(TreeKeys(nodes, at), prefix, d) && Flagged(prefix, d, visits)
    decreases nodes
  {
    visits := [];
    var i := 0;
    while i < |nodes|
      invariant 0 <= i <= |nodes|
      invariant Elements(Keys(visits)) == Entries(TreeKeys(nodes[..i], at), prefix, d)
      invariant Flagged(prefix, d, visits)
    {
      var node := nodes[i];
      assert nodes[..i + 1][..i] == nodes[..i];
      EntriesUnion(TreeKeys(nodes[..i], at), NodeKeys(node, at), prefix, d);
      var more: seq<Item> := [];
      if node.shown {
        match node
        case File(name, _) =>
          more := VisitFile(at + name, prefix, d);
        case Folder(name, _, below) =>
          var subtree := at + name + "/";
          if prefix != "" && !(prefix <= subtree) && !(subtree <= prefix) {
            PrunedHasNoEntry(below, subtree, prefix, d);
          } else {
            more := WalkListing(below, subtree, prefix, d);
          }
      }
      assert Keys(visits + more) == Keys(visits) + Keys(more);
      assert Elements(Keys(visits + more)) == Elements(Keys(visits)) + Elements(Keys(more));
      visits := visits + more;
      i := i + 1;
    }
    assert nodes[..i] == nodes;
  }

  method GreatestOf(names: set<string>) returns (m: string)
    requires names != {}
    ensures m in names && forall x :: x in names && x != m ==> Before(x, m)
  {
    m :| m in names;
    var todo := names - {m};
    while todo != {}
      invariant m in names && todo <= names
      invariant forall x :: x in names && x !in todo && x != m ==> Before(x, m)
      decreases todo
    {
      var x :| x in todo;
      CompareFlip(m, x);
      CompareZero(m, x);
      if Before(m, x) {
        forall y | y in names && y !in todo && y != m ensures Before(y, x) {
          BeforeTransitive(y, m, x);
        }
        m := x;
      }
      todo := todo - {x};
    }
  }

  /** The candidates are the first `cap` of what was seen, or all of it. */
  ghost predicate FirstOf(candidates: set<string>, seen: set<string>, cap: nat) {
    && candidates <= seen && |candidates| <= cap
    && AllBefore(candidates, seen - candidates) && (candidates == seen || |candidates| == cap)
  }

  lemma TooLate(c: set<string>, seen: set<string>, cap: nat, top: string, x: string)
    requires FirstOf(c, seen, cap) == true && |c| == cap && x !in c
    requires top in c && (forall y :: y in c && y != top ==> Before(y, top)) && !Before(x, top)
    ensures FirstOf(c, seen + {x}, cap) == true
  {
    CompareFlip(x, top);
    CompareZero(x, top);
    forall y | y in c ensures Before(y, x) {
      if y != top { BeforeTransitive(y, top, x); }
    }
  }

  lemma Displaces(c: set<string>, seen: set<string>, cap: nat, top: string, x: string)
    requires FirstOf(c, seen, cap) == true && |c| == cap && x !in c
    requires top in c && (forall y :: y in c && y != top ==> Before(y, top)) && Before(x, top)
    ensures FirstOf(c - {top} + {x}, seen + {x}, cap) == true
  {
    var c' := c - {top} + {x};
    forall a, b | a in c' && b in (seen + {x}) - c' ensures Before(a, b) {
      if b != top {
        assert b in seen - c;
        if a == x { BeforeTransitive(x, top, b); }
      }
    }
  }

  lemma Joins(c: set<string>, seen: set<string>, cap: nat, x: string)
    requires FirstOf(c, seen, cap) == true && |c| != cap && x !in c
    ensures FirstOf(c + {x}, seen + {x}, cap) == true
  {
  }

  /** `candidates` comes from `held` by dropping keys and perhaps taking in `item`. */
  ghost predicate Took(held: map<string, bool>, item: Item, candidates: map<string, bool>) {
    forall k :: k in candidates ==> (k in held && candidates[k] == held[k]) || (k == item.key && candidates[k] == item.isPrefix)
  }

  /** Makes room for an entry by giving up the greatest, if that orders after it. */
  method Displace(held: map<string, bool>, item: Item, cap: nat, ghost seen: set<string>) returns (candidates: map<string, bool>)
    requires FirstOf(held.Keys, seen, cap) == true && |held.Keys| == cap > 0 && item.key !in held
    ensures FirstOf(candidates.Keys, seen + {item.key}, cap) == true && Took(held, item, candidates)
  {
    assert held.Keys != {};
    var top := GreatestOf(held.Keys);
    if !Before(item.key, top) {
      TooLate(held.Keys, seen, cap, top, item.key);
      return held;
    }
    Displaces(held.Keys, seen, cap, top, item.key);
    candidates := (held - {top})[item.key := item.isPrefix];
    assert candidates.Keys == held.Keys - {top} + {item.key};
  }

  /** Considers one visited entry past the marker. */
  method Offer(held: map<string, bool>, item: Item, maxKeys: nat, ghost seen: set<string>) returns (candidates: map<string, bool>)
    requires FirstOf(held.Keys, seen, maxKeys + 1) == true
    ensures FirstOf(candidates.Keys, seen + {item.key}, maxKeys + 1) == true && Took(held, item, candidates)
  {
    if item.key in held {
      assert seen + {item.key} == seen;
      return held;
    }
    if |held.Keys| == maxKeys + 1 {
      candidates := Displace(held, item, maxKeys + 1, seen);
      return;
    }
    Joins(held.Keys, seen, maxKeys + 1, item.key);
    candidates := held[item.key := item.isPrefix];
    assert candidates.Keys == held.Keys + {item.key};
  }

  lemma SeenOneMore(visits: seq<Item>, i: nat, after: string)
    requires i < |visits|
    ensures After(Elements(Keys(visits[..i + 1])), after)
      == After(Elements(Keys(visits[..i])), after) + (if Before(after, visits[i].key) then {visits[i].key} else {})
  {
    assert Keys(visits[..i + 1]) == Keys(visits[..i]) + [visits[i].key];
  }

  /** Keeps the first `maxKeys + 1` distinct entries past the marker, in whatever order they are visited. */
  method Select(visits: seq<Item>, after: string, maxKeys: nat) returns (candidates: map<string, bool>)
    ensures FirstOf(candidates.Keys, After(Elements(Keys(visits)), after), maxKeys + 1) == true
    ensures forall k :: k in candidates ==> Item(k, candidates[k]) in visits
  {
    candidates := map[];
    var i := 0;
    assert FirstOf(candidates.Keys, After(Elements(Keys(visits[..0])), after), maxKeys + 1);
    while i < |visits|
      invariant 0 <= i <= |visits|
      invariant FirstOf(candidates.Keys, After(Elements(Keys(visits[..i])), after), maxKeys + 1) == true
      invariant forall k :: k in candidates ==> Item(k, candidates[k]) in visits
    {
      SeenOneMore(visits, i, after);
      if Before(after, visits[i].key) {
        candidates := Offer(candidates, visits[i], maxKeys, After(Elements(Keys(visits[..i])), after));
      }
      i := i + 1;
    }
    assert visits[..i] == visits;
  }

  /** Lists the candidates, objects and groups apart. */
  method Spread(candidates: map<string, bool>) returns (objects: seq<string>, prefixes: seq<string>)
    ensures Distinct(objects + prefixes) && Elements(objects) + Elements(prefixes) == candidates.Keys
    ensures forall e :: e in objects ==> e in candidates && !candidates[e]
    ensures forall e :: e in prefixes ==> e in candidates && candidates[e]
  {
    objects, prefixes := [], [];
    var todo := candidates.Keys;
    while todo != {}
      invariant todo <= candidates.Keys
      invariant Distinct(objects + prefixes) && Elements(objects) + Elements(prefixes) == candidates.Keys - todo
      invariant forall e :: e in objects ==> e in candidates && !candidates[e]
      invariant forall e :: e in prefixes ==> e in candidates && candidates[e]
      decreases todo
    {
      var k :| k in todo;
      assert k !in Elements(objects) && k !in Elements(prefixes);
      DistinctOneMore(objects, prefixes, k);
      if candidates[k] {
        assert Elements(prefixes + [k]) == Elements(prefixes) + {k};
        prefixes := prefixes + [k];
      } else {
        assert Elements(objects + [k]) == Elements(objects) + {k};
        objects := objects + [k];
      }
      todo := todo - {k};
    }
  }

  /** One page, by walking the bucket's directory. */
  method FilesystemPage(nodes: seq<Node>, prefix: string, d: string, after: string, maxKeys: nat)
    returns (objects: seq<string>, prefixes: seq<string>, truncated: bool, next: string)
    ensures Answers(TreeKeys(nodes, ""), prefix, d, after, maxKeys, objects, prefixes, truncated, next) == true
  {
    var visits := WalkListing(nodes, "", prefix, d);
    var candidates := Select(visits, after, maxKeys);
    var gotObjects, gotPrefixes := Spread(candidates);
    objects, prefixes, truncated, next := Paginate(gotObjects, gotPrefixes, after, maxKeys);
    EnoughAnswers(TreeKeys(nodes, ""), prefix, d, after, maxKeys, gotObjects, gotPrefixes, objects, prefixes, truncated, next);
  }

  /** Read from the index or from disk, a listing of the same keys is the same. */
  lemma AnswersAgree(keys: set<string>, prefix: string, d: string, marker: string, maxKeys: nat,
    objects: seq<string>, prefixes: seq<string>, truncated: bool, next: string,
    objects': seq<string>, prefixes': seq<string>, truncated': bool, next': string)
    requires Answers(keys, prefix, d, marker, maxKeys, objects, prefixes, truncated, next)
    requires Answers(keys, prefix, d, marker, maxKeys, objects', prefixes', truncated', next')
    ensures objects == objects' && prefixes == prefixes' && truncated == truncated' && next == next'
  {
  }

  // ----- following tokens -----

  /** The page size a request gets. */
  function ClampMaxKeys(n: int): (maxKeys: nat)
    ensures 1 <= maxKeys <= 10000
  {
    if n <= 0 then 1000 else if n > 10000 then 10000 else n
  }

  lemma PastToken(all: seq<string>, n: nat, i: nat)
    requires Ascending(all) && 0 < n < |all| && i < |all|
    ensures Before(all[n - 1], all[i]) <==> n <= i
  {
    CompareZero(all[n - 1], all[n - 1]);
    CompareFlip(all[n - 1], all[i]);
  }

  lemma AfterTwice(entries: set<string>, marker: string, token: string)
    requires Before(marker, token)
    ensures After(After(entries, marker), token) == After(entries, token)
  {
    forall x | x in After(entries, token) ensures Before(marker, x) {
      BeforeTransitive(marker, token, x);
    }
  }

  lemma SplitsAtToken(all: seq<string>, n: nat)
    requires Ascending(all) && 0 < n < |all|
    ensures all == all[..n] + Sorted(After(Elements(all), all[n - 1]))
  {
    forall i | 0 <= i < |all| ensures Before(all[n - 1], all[i]) <==> n <= i {
      PastToken(all, n, i);
    }
    AscendingTail(all, all[n - 1], n);
    assert all == all[..n] + all[n..];
  }

  /** A truncated page and what lies past its token make up what lay past its marker. */
  lemma TokenSplits(entries: set<string>, marker: string, maxKeys: nat)
    requires maxKeys > 0 && |After(entries, marker)| > maxKeys
    ensures var all := Sorted(After(entries, marker));
      && |all| > maxKeys && Before(marker, all[maxKeys - 1])
      && all == all[..maxKeys] + Sorted(After(entries, all[maxKeys - 1]))
      && |After(entries, all[maxKeys - 1])| < |After(entries, marker)|
  {
    var rest := After(entries, marker);
    var all := Sorted(rest);
    SortedElements(rest);
    SortedIsAscending(rest);
    assert Elements(all) == rest;
    var token := all[maxKeys - 1];
    assert token in all;
    SplitsAtToken(all, maxKeys);
    AfterTwice(entries, marker, token);
    SortedElements(After(entries, token));
  }

  /** A page size of nothing never gets anywhere: it reports more but hands out no token. */
  lemma EmptyPageIsStuck(keys: set<string>, prefix: string, d: string, marker: string)
    ensures Page(keys, prefix, d, marker, 0) == []
    ensures Truncated(keys, prefix, d, marker, 0) <==> After(Entries(keys, prefix, d), marker) != {}
    ensures Token([], true) == ""
  {
    SortedElements(After(Entries(keys, prefix, d), marker));
  }

  lemma {:induction false} OnlyConcat(a: seq<string>, b: seq<string>, keep: set<string>)
    ensures Only(a + b, keep) == Only(a, keep) + Only(b, keep)
    decreases |b|
  {
    if b == [] {
      assert a + b == a;
    } else {
      var n := |b| - 1;
      assert (a + b)[..|a + b| - 1] == a + b[..n];
      OnlyConcat(a, b[..n], keep);
    }
  }

  /** `objects` and `prefixes` are the two parts of `listed`. */
  ghost predicate Parts(prefix: string, d: string, entries: set<string>, listed: seq<string>, objects: seq<string>, prefixes: seq<string>) {
    objects == Only(listed, entries - Groups(prefix, d, entries)) && prefixes == Only(listed, Groups(prefix, d, entries))
  }

  lemma PartsConcat(prefix: string, d: string, entries: set<string>, a: seq<string>, b: seq<string>,
    objects: seq<string>, prefixes: seq<string>, objects': seq<string>, prefixes': seq<string>)
    requires Parts(prefix, d, entries, a, objects, prefixes) == true && Parts(prefix, d, entries, b, objects', prefixes') == true
    ensures Parts(prefix, d, entries, a + b, objects + objects', prefixes + prefixes') == true
  {
    OnlyConcat(a, b, entries - Groups(prefix, d, entries));
    OnlyConcat(a, b, Groups(prefix, d, entries));
  }

  lemma LastPage(entries: set<string>, after: string, maxKeys: nat)
    requires |After(entries, after)| <= maxKeys
    ensures Take(Sorted(After(entries, after)), maxKeys) == Sorted(After(entries, after))
  {
    SortedElements(After(entries, after));
  }

  /** What lies past a page's marker is the page and, if it was cut, what lies past its token. */
  lemma PageStep(keys: set<string>, prefix: string, d: string, after: string, maxKeys: nat,
    objects: seq<string>, prefixes: seq<string>, truncated: bool, next: string)
    requires maxKeys > 0 && Answers(keys, prefix, d, after, maxKeys, objects, prefixes, truncated, next) == true
    ensures Parts(prefix, d, Entries(keys, prefix, d), Page(keys, prefix, d, after, maxKeys), objects, prefixes) == true
    ensures truncated ==>
      && Sorted(After(Entries(keys, prefix, d), after)) == Page(keys, prefix, d, after, maxKeys) + Sorted(After(Entries(keys, prefix, d), next))
      && |After(Entries(keys, prefix, d), next)| < |After(Entries(keys, prefix, d), after)|
    ensures !truncated ==> Sorted(After(Entries(keys, prefix, d), after)) == Page(keys, prefix, d, after, maxKeys)
  {
    if truncated {
      TokenSplits(Entries(keys, prefix, d), after, maxKeys);
    } else {
      LastPage(Entries(keys, prefix, d), after, maxKeys);
    }
  }

  /** `done` has been listed of what lies past `marker`; past `after` the rest remains, unless that was all. */
  ghost predicate Walked(entries: set<string>, marker: string, done: seq<string>, more: bool, after: string) {
    Sorted(After(entries, marker)) == done + if more then Sorted(After(entries, after)) else []
  }

  lemma WalksOn(entries: set<string>, marker: string, done: seq<string>, after: string, page: seq<string>, more: bool, next: string)
    requires Walked(entries, marker, done, true, after) == true
    requires Sorted(After(entries, after)) == if more then page + Sorted(After(entries, next)) else page
    ensures Walked(entries, marker, done + page, more, next) == true
  {
    assert more ==> done + (page + Sorted(After(entries, next))) == (done + page) + Sorted(After(entries, next));
  }

  /** Asks for page after page from the token of the last; over a fixed bucket this ends,
      having listed every key and group once, in order. */
  method FollowTokens(live: set<string>, shown: string -> bool, bucket: string, prefix: string, d: string, marker: string, maxKeys: nat)
    returns (objects: seq<string>, prefixes: seq<string>)
    requires maxKeys > 0
    ensures var entries := Entries(ShownKeys(live, shown, bucket + "/"), prefix, d);
      Parts(prefix, d, entries, Sorted(After(entries, marker)), objects, prefixes) == true
  {
    ghost var keys := ShownKeys(live, shown, bucket + "/");
    ghost var entries := Entries(keys, prefix, d);
    ghost var done: seq<string> := [];
    objects, prefixes := [], [];
    var after, truncated := marker, true;
    assert [] + Sorted(After(entries, marker)) == Sorted(After(entries, marker));
    while truncated
      invariant Walked(entries, marker, done, truncated, after) == true
      invariant Parts(prefix, d, entries, done, objects, prefixes) == true
      decreases truncated, |After(entries, after)|
    {
      var pageObjects, pagePrefixes, more, next := ListPage(live, shown, bucket, prefix, d, after, maxKeys);
      ghost var page := Page(keys, prefix, d, after, maxKeys);
      PageStep(keys, prefix, d, after, maxKeys, pageObjects, pagePrefixes, more, next);
      WalksOn(entries, marker, done, after, page, more, next);
      PartsConcat(prefix, d, entries, done, page, objects, prefixes, pageObjects, pagePrefixes);
      objects, prefixes, truncated, after := objects + pageObjects, prefixes + pagePrefixes, more, next;
      done := done + page;
    }
    assert done + [] == done;
  }
}
