/** The two orders the store uses: the byte order in which the key-value engine
    walks its keys, and the newest-first order `get_all_items` sorts into. */
module Ordering {
  import opened Text
  import opened Uuids
  import opened Clipboard

  // Lexicographic byte order on keys

  function LexLess(a: seq<byte>, b: seq<byte>): bool
    requires |a| == |b|
  {
    |a| > 0 && (a[0] < b[0] || (a[0] == b[0] && LexLess(a[1..], b[1..])))
  }

  lemma {:induction false} LexLessAsymmetric(a: seq<byte>, b: seq<byte>)
    requires |a| == |b|
    ensures !(LexLess(a, b) && LexLess(b, a))
  {
    if |a| > 0 && a[0] == b[0] {
      LexLessAsymmetric(a[1..], b[1..]);
    }
  }

  lemma {:induction false} LexLessTransitive(a: seq<byte>, b: seq<byte>, c: seq<byte>)
    requires |a| == |b| == |c|
    requires LexLess(a, b) && LexLess(b, c)
    ensures LexLess(a, c)
  {
    if a[0] == b[0] && b[0] == c[0] {
      LexLessTransitive(a[1..], b[1..], c[1..]);
    }
  }

  lemma {:induction false} LexLessTotal(a: seq<byte>, b: seq<byte>)
    requires |a| == |b|
    ensures a == b || LexLess(a, b) || LexLess(b, a)
  {
    if |a| > 0 && a[0] == b[0] {
      LexLessTotal(a[1..], b[1..]);
      if a[1..] == b[1..] {
        assert a == [a[0]] + a[1..] && b == [b[0]] + b[1..];
      }
    }
  }

  predicate IsLeast(k: Bytes16, ks: set<Bytes16>) {
    k in ks && forall k' :: k' in ks && k' != k ==> LexLess(k, k')
  }

  lemma {:induction false} LeastExists(ks: set<Bytes16>)
    requires ks != {}
    ensures exists k :: IsLeast(k, ks)
    decreases |ks|
  {
    var x :| x in ks;
    if ks != {x} {
      LeastExists(ks - {x});
      var m: Bytes16 :| IsLeast(m, ks - {x});
      LexLessTotal(x, m);
      if LexLess(x, m) {
        forall k' | k' in ks && k' != x
          ensures LexLess(x, k')
        {
          if k' != m { LexLessTransitive(x, m, k'); }
        }
        assert IsLeast(x, ks);
      } else {
        assert IsLeast(m, ks);
      }
    } else {
      assert IsLeast(x, ks);
    }
  }

  lemma LeastUnique(ks: set<Bytes16>)
    ensures forall a: Bytes16, b: Bytes16 :: IsLeast(a, ks) && IsLeast(b, ks) ==> a == b
  {
    forall a: Bytes16, b: Bytes16 | IsLeast(a, ks) && IsLeast(b, ks)
      ensures a == b
    {
      LexLessAsymmetric(a, b);
    }
  }

  predicate Ascending(r: seq<Bytes16>) {
    forall i, j :: 0 <= i < j < |r| ==> LexLess(r[i], r[j])
  }

  /** The keys of `ks` in ascending byte order, each once: the order in which
      the engine iterates them. */
  function KeysAscending(ks: set<Bytes16>): (r: seq<Bytes16>)
    ensures |r| == |ks|
    ensures forall k :: k in r <==> k in ks
    ensures Ascending(r)
    decreases |ks|
  {
    if ks == {} then []
    else
      LeastExists(ks);
      LeastUnique(ks);
      var k :| k in ks && IsLeast(k, ks);
      var rest := KeysAscending(ks - {k});
      assert forall j :: 0 <= j < |rest| ==> rest[j] in ks - {k};
      ConsAscending(k, rest);
      [k] + rest
  }

  lemma ConsAscending(k: Bytes16, rest: seq<Bytes16>)
    requires Ascending(rest)
    requires forall j :: 0 <= j < |rest| ==> LexLess(k, rest[j])
    ensures Ascending([k] + rest)
  {
    var r := [k] + rest;
    forall i, j | 0 <= i < j < |r| ensures LexLess(r[i], r[j]) {
      assert r[j] == rest[j - 1];
      if i > 0 { assert r[i] == rest[i - 1]; }
    }
  }

  // Newest first, stably

  predicate NewestFirst(xs: seq<ClipboardItem>) {
    forall i, j :: 0 <= i < j < |xs| ==> xs[i].timestamp >= xs[j].timestamp
  }

  /** The items of `xs` stamped `t`, in their order in `xs`. */
  function StampedAt(xs: seq<ClipboardItem>, t: Timestamp): seq<ClipboardItem> {
    if |xs| == 0 then []
    else (if xs[0].timestamp == t then [xs[0]] else []) + StampedAt(xs[1..], t)
  }

  /** `StampedAt` keeps exactly the items of `xs` stamped `t`. */
  lemma {:induction false} StampedAtMembers(xs: seq<ClipboardItem>, t: Timestamp)
    ensures forall x :: x in StampedAt(xs, t) <==> x in xs && x.timestamp == t
  {
    if |xs| > 0 {
      StampedAtMembers(xs[1..], t);
      assert forall x :: x in xs <==> x == xs[0] || x in xs[1..];
    }
  }

  /** Places `x` in front of the first item not newer than it. */
  function Insert(x: ClipboardItem, ys: seq<ClipboardItem>): (r: seq<ClipboardItem>)
    ensures multiset(r) == multiset(ys) + multiset{x}
  {
    if |ys| == 0 || ys[0].timestamp <= x.timestamp then [x] + ys
    else
      assert ys == [ys[0]] + ys[1..];
      [ys[0]] + Insert(x, ys[1..])
  }

  lemma {:induction false} InsertNewestFirst(x: ClipboardItem, ys: seq<ClipboardItem>)
    requires NewestFirst(ys)
    ensures NewestFirst(Insert(x, ys))
  {
    var r := Insert(x, ys);
    if |ys| == 0 || ys[0].timestamp <= x.timestamp {
      assert forall i :: 0 < i < |r| ==> r[i] == ys[i - 1];
    } else {
      var tail := Insert(x, ys[1..]);
      InsertNewestFirst(x, ys[1..]);
      InsertBounded(x, ys[1..], ys[0].timestamp);
      assert r == [ys[0]] + tail;
      forall i, j | 0 <= i < j < |r| ensures r[i].timestamp >= r[j].timestamp {
        assert r[j] == tail[j - 1];
        if i > 0 { assert r[i] == tail[i - 1]; }
      }
    }
  }

  /** Inserting an item no newer than a bound into items no newer than it
      keeps every item within the bound. */
  lemma {:induction false} InsertBounded(x: ClipboardItem, ys: seq<ClipboardItem>, b: Timestamp)
    requires x.timestamp <= b
    requires forall j :: 0 <= j < |ys| ==> ys[j].timestamp <= b
    ensures forall j :: 0 <= j < |Insert(x, ys)| ==> Insert(x, ys)[j].timestamp <= b
  {
    var r := Insert(x, ys);
    if |ys| == 0 || ys[0].timestamp <= x.timestamp {
      assert forall j :: 0 < j < |r| ==> r[j] == ys[j - 1];
    } else {
      InsertBounded(x, ys[1..], b);
      assert forall j :: 0 < j < |r| ==> r[j] == Insert(x, ys[1..])[j - 1];
    }
  }

  /** Among items with one timestamp, the inserted item comes first: it passes
      over only strictly newer items. */
  lemma {:induction false} InsertStampedAt(x: ClipboardItem, ys: seq<ClipboardItem>, t: Timestamp)
    ensures StampedAt(Insert(x, ys), t) ==
              if x.timestamp == t then [x] + StampedAt(ys, t) else StampedAt(ys, t)
  {
    var r := Insert(x, ys);
    if |ys| == 0 || ys[0].timestamp <= x.timestamp {
      assert r[0] == x && r[1..] == ys;
    } else {
      InsertStampedAt(x, ys[1..], t);
      assert r[0] == ys[0] && r[1..] == Insert(x, ys[1..]);
      assert StampedAt(ys, t) == (if ys[0].timestamp == t then [ys[0]] else []) + StampedAt(ys[1..], t);
    }
  }

  /** `items.sort_by(|a, b| b.timestamp.cmp(&a.timestamp))`: a stable sort,
      newest first. */
  function SortNewestFirst(xs: seq<ClipboardItem>): (r: seq<ClipboardItem>)
    ensures NewestFirst(r)
    ensures multiset(r) == multiset(xs)
    ensures forall t :: StampedAt(r, t) == StampedAt(xs, t)
  {
    if |xs| == 0 then []
    else
      var sorted := SortNewestFirst(xs[1..]);
      InsertNewestFirst(xs[0], sorted);
      assert xs == [xs[0]] + xs[1..];
      assert forall t :: StampedAt(Insert(xs[0], sorted), t) == StampedAt(xs, t) by {
        forall t ensures StampedAt(Insert(xs[0], sorted), t) == StampedAt(xs, t) {
          InsertStampedAt(xs[0], sorted, t);
        }
      }
      Insert(xs[0], sorted)
  }
}
