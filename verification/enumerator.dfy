/**
 * The directory enumerators `storeImages` and `storeDescFeat`: every entry the
 * directory yields is kept when its lower-cased extension equals one of the
 * accepted extensions. The directory listing itself is an input: `None` when
 * the directory cannot be opened, otherwise the entries in `readdir` order.
 *
 * The selection below is stated for any per-entry `key`; both enumerators
 * use `LowerExtension` as the key.
 */
module Enumerator {
  import opened Outcomes
  import opened FileNames

  const DescExtensions: seq<string> := ["desc"]
  const FeatExtensions: seq<string> := ["feat"]
  const ImageExtensions: seq<string> := ["png", "jpg"]

  /** Number of positions of `xs` holding `x`. */
  function Occurrences(xs: seq<string>, x: string): nat
  {
    if |xs| == 0 then 0
    else Occurrences(xs[..|xs| - 1], x) + (if xs[|xs| - 1] == x then 1 else 0)
  }

  function Repeat(x: string, n: nat): (r: seq<string>)
    ensures |r| == n && forall k :: 0 <= k < n ==> r[k] == x
  {
    if n == 0 then [] else Repeat(x, n - 1) + [x]
  }

  ghost predicate Distinct(xs: seq<string>)
  {
    forall i, j :: 0 <= i < j < |xs| ==> xs[i] != xs[j]
  }

  /**
   * What the two nested loops push for `entries`: each entry, prefixed, once
   * per accepted extension equal to its key.
   */
  function Pushed(prefix: string, entries: seq<string>, accepted: seq<string>, key: string -> string): seq<string>
  {
    if |entries| == 0 then []
    else
      var e := entries[|entries| - 1];
      Pushed(prefix, entries[..|entries| - 1], accepted, key) + Repeat(prefix + e, Occurrences(accepted, key(e)))
  }

  /** The entries whose key is accepted, prefixed, in enumeration order. */
  function Selected(prefix: string, entries: seq<string>, accepted: seq<string>, key: string -> string): seq<string>
  {
    if |entries| == 0 then []
    else
      var e := entries[|entries| - 1];
      Selected(prefix, entries[..|entries| - 1], accepted, key)
        + (if key(e) in accepted then [prefix + e] else [])
  }

  /**
   * The names an enumerator keeps from a listing that may be missing (an
   * unreadable directory yields nothing).
   */
  function Listed(prefix: string, listing: Option<seq<string>>, accepted: seq<string>): seq<string>
  {
    match listing
    case None => []
    case Some(entries) => Selected(prefix, entries, accepted, LowerExtension)
  }

  lemma {:induction false} OccurrencesOfDistinct(xs: seq<string>, x: string)
    requires Distinct(xs)
    ensures Occurrences(xs, x) == if x in xs then 1 else 0
  {
    if |xs| > 0 {
      var init := xs[..|xs| - 1];
      OccurrencesOfDistinct(init, x);
      assert xs == init + [xs[|xs| - 1]];
      assert x in xs <==> x in init || x == xs[|xs| - 1];
    }
  }

  /** With no accepted extension listed twice, the loops push exactly the selection. */
  lemma {:induction false} PushedIsSelected(prefix: string, entries: seq<string>, accepted: seq<string>,
                                            key: string -> string)
    requires Distinct(accepted)
    ensures Pushed(prefix, entries, accepted, key) == Selected(prefix, entries, accepted, key)
  {
    if |entries| > 0 {
      var e := entries[|entries| - 1];
      PushedIsSelected(prefix, entries[..|entries| - 1], accepted, key);
      OccurrencesOfDistinct(accepted, key(e));
    }
  }

  /** Entry `k` is accepted and `x` is what is kept for it. */
  ghost predicate KeptAt(prefix: string, entries: seq<string>, accepted: seq<string>, key: string -> string,
                         x: string, k: int)
  {
    0 <= k < |entries| && key(entries[k]) in accepted && x == prefix + entries[k]
  }

  /** A name is kept iff it is the prefixed name of an entry whose key is accepted. */
  lemma {:induction false} SelectedMembership(prefix: string, entries: seq<string>, accepted: seq<string>,
                                              key: string -> string, x: string)
    ensures x in Selected(prefix, entries, accepted, key) <==> exists k :: KeptAt(prefix, entries, accepted, key, x, k)
  {
    if |entries| > 0 {
      var n := |entries|;
      var init, e := entries[..n - 1], entries[n - 1];
      var tail := if key(e) in accepted then [prefix + e] else [];
      assert Selected(prefix, entries, accepted, key) == Selected(prefix, init, accepted, key) + tail;
      SelectedMembership(prefix, init, accepted, key, x);
      if x in Selected(prefix, entries, accepted, key) {
        if x in tail {
          assert KeptAt(prefix, entries, accepted, key, x, n - 1);
        } else {
          var k :| KeptAt(prefix, init, accepted, key, x, k);
          assert entries[k] == init[k];
          assert KeptAt(prefix, entries, accepted, key, x, k);
        }
      }
      if exists k :: KeptAt(prefix, entries, accepted, key, x, k) {
        var k :| KeptAt(prefix, entries, accepted, key, x, k);
        if k < n - 1 {
          assert entries[k] == init[k];
          assert KeptAt(prefix, init, accepted, key, x, k);
        }
      }
    }
  }

  /** Selection distributes over concatenation, so kept names keep their enumeration order. */
  lemma {:induction false} SelectedAppend(prefix: string, a: seq<string>, b: seq<string>, accepted: seq<string>,
                                          key: string -> string)
    ensures Selected(prefix, a + b, accepted, key)
         == Selected(prefix, a, accepted, key) + Selected(prefix, b, accepted, key)
  {
    if |b| == 0 {
      assert a + b == a;
    } else {
      var n := |b|;
      var b', e := b[..n - 1], b[n - 1];
      var tail := if key(e) in accepted then [prefix + e] else [];
      assert (a + b)[..|a + b| - 1] == a + b';
      assert (a + b)[|a + b| - 1] == e;
      assert Selected(prefix, a + b, accepted, key) == Selected(prefix, a + b', accepted, key) + tail;
      assert Selected(prefix, b, accepted, key) == Selected(prefix, b', accepted, key) + tail;
      SelectedAppend(prefix, a, b', accepted, key);
    }
  }

  /**
   * The `readdir` loop shared by both enumerators: each entry's key is
   * compared with every accepted extension and the prefixed entry pushed on
   * each equality; `names` keeps what it held before.
   */
  method StoreNames(prefix: string, listing: Option<seq<string>>, accepted: seq<string>, key: string -> string,
                    names: seq<string>)
    returns (out: seq<string>)
    ensures listing.None? ==> out == names
    ensures listing.Some? ==> out == names + Pushed(prefix, listing.value, accepted, key)
  {
    out := names;
    if listing.None? {
      return;
    }
    var entries := listing.value;
    var n := 0;
    while n < |entries|
      invariant n <= |entries|
      invariant out == names + Pushed(prefix, entries[..n], accepted, key)
    {
      var fileName := entries[n];
      var extension := key(fileName);
      var i := 0;
      ghost var before := out;
      while i < |accepted|
        invariant i <= |accepted|
        invariant out == before + Repeat(prefix + fileName, Occurrences(accepted[..i], extension))
      {
        assert accepted[..i + 1][..i] == accepted[..i];
        if extension == accepted[i] {
          out := out + [prefix + fileName];
        }
        i := i + 1;
      }
      assert accepted[..i] == accepted;
      assert entries[..n + 1][..n] == entries[..n];
      n := n + 1;
    }
    assert entries[..n] == entries;
  }

  /**
   * `storeDescFeat`: bare names of the `.desc` (or `.feat`) entries, in
   * enumeration order, appended to `names`.
   */
  method StoreDescFeat(listing: Option<seq<string>>, desc: bool, names: seq<string>) returns (out: seq<string>)
    ensures out == names + Listed("", listing, if desc then DescExtensions else FeatExtensions)
  {
    var accepted := if desc then DescExtensions else FeatExtensions;
    out := StoreNames("", listing, accepted, LowerExtension, names);
    if listing.Some? {
      PushedIsSelected("", listing.value, accepted, LowerExtension);
    }
  }

  /**
   * `storeImages`: `directory` + name of each `.desc` entry (when `desc`) or
   * each `.png`/`.jpg` entry, in enumeration order, appended to `names`.
   */
  method StoreImages(directory: string, listing: Option<seq<string>>, desc: bool, names: seq<string>)
    returns (out: seq<string>)
    ensures out == names + Listed(directory, listing, if desc then DescExtensions else ImageExtensions)
  {
    var accepted := if desc then DescExtensions else ImageExtensions;
    out := StoreNames(directory, listing, accepted, LowerExtension, names);
    if listing.Some? {
      PushedIsSelected(directory, listing.value, accepted, LowerExtension);
    }
  }
}
