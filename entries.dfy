/**
 The `Display` impls of the three counter stores walk a hash map in its own
 iteration order and write one `key: value` fragment per entry. The order is
 not specified, so the model picks each next key nondeterministically and
 reports the order it took as a listing of the key set.
 */
module Entries {
  import opened Text

  /** One fragment: the key, `": "`, the value in decimal, then the terminator. */
  function Entry(key: string, value: int, terminator: string): string {
    key + ": " + IntToString(value) + terminator
  }

  /** `order` names every key of `keys` exactly once. */
  ghost predicate IsListing(order: seq<string>, keys: set<string>) {
    (forall i, j :: 0 <= i < j < |order| ==> order[i] != order[j]) &&
    (forall k :: k in order <==> k in keys)
  }

  /** The pieces of text `parts`, concatenated in order. */
  function Concat(parts: seq<string>): (s: string)
    ensures parts == [] ==> s == ""
  {
    if parts == [] then "" else Concat(parts[..|parts| - 1]) + parts[|parts| - 1]
  }

  /** The fragment of each key of `order`, in that order. */
  function Fragments(order: seq<string>, m: map<string, int>, terminator: string): (parts: seq<string>)
    requires forall k :: k in order ==> k in m
    ensures |parts| == |order|
  {
    seq(|order|, i requires 0 <= i < |order| => Entry(order[i], m[order[i]], terminator))
  }

  /** The fragments of the keys in `order`, concatenated in that order. */
  function Listed(order: seq<string>, m: map<string, int>, terminator: string): string
    requires forall k :: k in order ==> k in m
  {
    Concat(Fragments(order, m, terminator))
  }

  /** Where piece `i` starts in the concatenation. */
  function Offset(parts: seq<string>, i: nat): nat
    requires i <= |parts|
  {
    |Concat(parts[..i])|
  }

  /** Each piece sits, unchanged, at its offset in the concatenation. */
  lemma {:induction false} PieceAt(parts: seq<string>, i: nat)
    requires i < |parts|
    ensures Offset(parts, i) + |parts[i]| <= |Concat(parts)|
    ensures Concat(parts)[Offset(parts, i)..Offset(parts, i) + |parts[i]|] == parts[i]
    decreases |parts|
  {
    var n := |parts|;
    var front := parts[..n - 1];
    if i == n - 1 {
      assert parts[..i] == front;
      SliceRight(Concat(front), parts[i]);
    } else {
      assert parts[..i] == front[..i];
      PieceAt(front, i);
      SliceLeft(Concat(front), parts[n - 1], Offset(front, i), |parts[i]|);
    }
  }

  lemma SliceLeft(a: string, b: string, o: nat, len: nat)
    requires o + len <= |a|
    ensures (a + b)[o..o + len] == a[o..o + len]
  {
  }

  lemma SliceRight(a: string, b: string)
    ensures (a + b)[|a|..|a| + |b|] == b
  {
  }

  /** Every key of a listing has its fragment, with its current value, in the rendering. */
  lemma FragmentAt(order: seq<string>, m: map<string, int>, terminator: string, i: nat)
    requires i < |order|
    requires forall k :: k in order ==> k in m
    ensures var parts := Fragments(order, m, terminator);
      var o := Offset(parts, i);
      var e := Entry(order[i], m[order[i]], terminator);
      o + |e| <= |Listed(order, m, terminator)| && Listed(order, m, terminator)[o..o + |e|] == e
  {
    PieceAt(Fragments(order, m, terminator), i);
  }

  /** A listing has exactly as many entries as the key set has keys. */
  lemma {:induction false} ListingSize(order: seq<string>, keys: set<string>)
    requires IsListing(order, keys)
    ensures |order| == |keys|
    decreases |order|
  {
    if order != [] {
      var n := |order|;
      var last := order[n - 1];
      var front := order[..n - 1];
      assert last !in front by {
        forall i | 0 <= i < n - 1 ensures front[i] != last {
          assert front[i] == order[i];
        }
      }
      assert forall k :: k in front ==> k in order;
      assert forall k :: k in order && k != last ==> k in front by {
        forall k | k in order && k != last ensures k in front {
          var i :| 0 <= i < n && order[i] == k;
          assert i < n - 1 && front[i] == k;
        }
      }
      ListingSize(front, keys - {last});
    }
  }

  /** The loop of `Display::fmt`: append one fragment per entry, in some order of the keys. */
  method RenderEntries(m: map<string, int>, terminator: string) returns (s: string, ghost order: seq<string>)
    ensures IsListing(order, m.Keys)
    ensures s == Listed(order, m, terminator)
  {
    s, order := "", [];
    var rest := m.Keys;
    while rest != {}
      invariant rest <= m.Keys
      invariant forall i, j :: 0 <= i < j < |order| ==> order[i] != order[j]
      invariant forall k :: k in order <==> k in m.Keys && k !in rest
      invariant s == Listed(order, m, terminator)
      decreases |rest|
    {
      var k :| k in rest;
      ghost var parts := Fragments(order, m, terminator);
      s := s + Entry(k, m[k], terminator);
      order := order + [k];
      assert Fragments(order, m, terminator) == parts + [Entry(k, m[k], terminator)];
      rest := rest - {k};
    }
  }

}
