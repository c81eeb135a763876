/** Grouping the beers by style. The scraper keeps a dictionary from style
    key to group (`beersByType`) and a list of `(key, style)` pairs
    (`typeKeys`), updates both in place for every beer it reads, and sorts
    the list by key at the end.

    `GroupBeers` and `FirstSeenKeys` say what the two hold after a given
    sequence of beers; the lemmas below them state what that grouping
    promises; `StyleIndex` is the object the scraper updates, proved to keep
    to those two functions. */
module Grouping {
  import opened Text
  import opened Entries
  import opened Ordering

  /** One value of `beersByType`: the style name shown for the group and its
      beers in the order they were read. */
  datatype Group = Group(displayType: string, beers: seq<Beer>)

  /** The key a beer is grouped under: its style with the non-word
      characters removed. */
  function KeyOf(b: Beer): (k: string)
    ensures forall i :: 0 <= i < |k| ==> IsWordChar(k[i])
  {
    WordCharsOnly(b.style)
  }

  /** The groups once `b` has been added: a new group named after `b`'s
      style when its key is new, otherwise `b` appended to the existing
      group; no other group changes. */
  function AddToGroups(groups: map<string, Group>, b: Beer): (r: map<string, Group>)
    ensures r.Keys == groups.Keys + {KeyOf(b)}
    ensures forall k :: k in groups && k != KeyOf(b) ==> r[k] == groups[k]
    ensures r[KeyOf(b)].displayType == if KeyOf(b) in groups then groups[KeyOf(b)].displayType else b.style
    ensures r[KeyOf(b)].beers == (if KeyOf(b) in groups then groups[KeyOf(b)].beers else []) + [b]
  {
    var k := KeyOf(b);
    if k !in groups then
      groups[k := Group(b.style, [b])]
    else
      groups[k := groups[k].(beers := groups[k].beers + [b])]
  }

  /** The key list once `b` has been added: the pair of `b`'s key and style
      is appended when the key is new, and the list is left alone otherwise. */
  function AddToKeys(keys: seq<(string, string)>, groups: map<string, Group>, b: Beer): (r: seq<(string, string)>)
    ensures KeyOf(b) in groups ==> r == keys
    ensures KeyOf(b) !in groups ==> r == keys + [(KeyOf(b), b.style)]
  {
    if KeyOf(b) in groups then keys else keys + [(KeyOf(b), b.style)]
  }

  /** `beersByType` after the beers `bs` have been read, one at a time. */
  function GroupBeers(bs: seq<Beer>): map<string, Group>
  {
    if bs == [] then map[] else AddToGroups(GroupBeers(bs[..|bs| - 1]), bs[|bs| - 1])
  }

  /** `typeKeys`, before sorting, after the beers `bs` have been read. */
  function FirstSeenKeys(bs: seq<Beer>): seq<(string, string)>
  {
    if bs == [] then []
    else AddToKeys(FirstSeenKeys(bs[..|bs| - 1]), GroupBeers(bs[..|bs| - 1]), bs[|bs| - 1])
  }

  /** One more beer read: one more step of each fold. */
  lemma ReadOneMore(bs: seq<Beer>, b: Beer)
    ensures GroupBeers(bs + [b]) == AddToGroups(GroupBeers(bs), b)
    ensures FirstSeenKeys(bs + [b]) == AddToKeys(FirstSeenKeys(bs), GroupBeers(bs), b)
  {
    assert (bs + [b])[..|bs|] == bs;
  }

  /** The beers of `bs` whose key is `k`, in the order of `bs`. */
  function WithKey(bs: seq<Beer>, k: string): (r: seq<Beer>)
    ensures |r| <= |bs|
    ensures forall i :: 0 <= i < |r| ==> KeyOf(r[i]) == k
  {
    if bs == [] then []
    else
      var init := bs[..|bs| - 1];
      var r := WithKey(init, k);
      r + (if KeyOf(bs[|bs| - 1]) == k then [bs[|bs| - 1]] else [])
  }

  /** The set of keys in a key list. */
  function KeySet(keys: seq<(string, string)>): set<string>
  {
    set p | p in keys :: p.0
  }

  /** The number of beers in the groups that `keys` lists. */
  function TotalBeers(groups: map<string, Group>, keys: seq<(string, string)>): nat
  {
    if keys == [] then 0
    else
      var p := keys[|keys| - 1];
      TotalBeers(groups, keys[..|keys| - 1]) + (if p.0 in groups then |groups[p.0].beers| else 0)
  }

  // ---------------------------------------------------------------------------
  // What the grouping promises

  /** The grouping is a partition by key that keeps the reading order: there
      is a group for `k` exactly when some beer has key `k`, that group holds
      exactly the beers with key `k` in the order they were read, and it is
      named after the style of the first of them. */
  lemma {:induction false} GroupIsBeersWithKey(bs: seq<Beer>, k: string)
    ensures k in GroupBeers(bs) <==> WithKey(bs, k) != []
    ensures k in GroupBeers(bs) ==> GroupBeers(bs)[k].beers == WithKey(bs, k)
    ensures k in GroupBeers(bs) ==> GroupBeers(bs)[k].displayType == WithKey(bs, k)[0].style
  {
    if bs != [] {
      var init, b := bs[..|bs| - 1], bs[|bs| - 1];
      GroupIsBeersWithKey(init, k);
      var w0 := WithKey(init, k);
      if KeyOf(b) == k && k in GroupBeers(init) {
        assert (w0 + [b])[0] == w0[0];
      }
    }
  }

  /** Every beer read is in the group of its own key. */
  lemma BeerIsInItsGroup(bs: seq<Beer>, i: nat)
    requires i < |bs|
    ensures KeyOf(bs[i]) in GroupBeers(bs) && bs[i] in GroupBeers(bs)[KeyOf(bs[i])].beers
  {
    BeerInWithKey(bs, i);
    GroupIsBeersWithKey(bs, KeyOf(bs[i]));
  }

  lemma {:induction false} BeerInWithKey(bs: seq<Beer>, i: nat)
    requires i < |bs|
    ensures bs[i] in WithKey(bs, KeyOf(bs[i]))
  {
    var init := bs[..|bs| - 1];
    if i < |bs| - 1 {
      BeerInWithKey(init, i);
      assert init[i] == bs[i];
    }
  }

  lemma WithKeySnoc(bs: seq<Beer>, b: Beer, k: string)
    ensures WithKey(bs + [b], k) == WithKey(bs, k) + (if KeyOf(b) == k then [b] else [])
  {
    assert (bs + [b])[..|bs|] == bs;
  }

  lemma WithKeyAppendStep(bs: seq<Beer>, init: seq<Beer>, last: Beer, k: string)
    requires WithKey(bs + init, k) == WithKey(bs, k) + WithKey(init, k)
    ensures WithKey(bs + (init + [last]), k) == WithKey(bs, k) + WithKey(init + [last], k)
  {
    ConcatAssoc(bs, init, [last]);
    WithKeySnoc(bs + init, last, k);
    WithKeySnoc(init, last, k);
    ConcatAssoc(WithKey(bs, k), WithKey(init, k), if KeyOf(last) == k then [last] else []);
  }

  /** Reading more beers only appends to the beers with a given key. */
  lemma {:induction false} WithKeyAppend(bs: seq<Beer>, more: seq<Beer>, k: string)
    ensures WithKey(bs + more, k) == WithKey(bs, k) + WithKey(more, k)
  {
    if more == [] {
      assert bs + more == bs;
    } else {
      var init, last := more[..|more| - 1], more[|more| - 1];
      WithKeyAppend(bs, init, k);
      WithKeyAppendStep(bs, init, last, k);
      assert more == init + [last];
    }
  }

  /** Later beers never change a group's name and never reorder or remove
      its beers: they only add at the end. */
  lemma GroupOnlyGrows(bs: seq<Beer>, more: seq<Beer>, k: string)
    requires k in GroupBeers(bs)
    ensures k in GroupBeers(bs + more)
    ensures GroupBeers(bs + more)[k].displayType == GroupBeers(bs)[k].displayType
    ensures GroupBeers(bs + more)[k].beers == GroupBeers(bs)[k].beers + WithKey(more, k)
  {
    GroupIsBeersWithKey(bs, k);
    GroupIsBeersWithKey(bs + more, k);
    WithKeyAppend(bs, more, k);
    assert (WithKey(bs, k) + WithKey(more, k))[0] == WithKey(bs, k)[0];
  }

  /** `keys` names each group of `groups` once, with its display name. */
  ghost predicate KeysDescribe(keys: seq<(string, string)>, groups: map<string, Group>) {
    && DistinctKeys(keys)
    && KeySet(keys) == groups.Keys
    && forall p :: p in keys ==> p.0 in groups && p.1 == groups[p.0].displayType
  }

  /** Appending a pair whose key is not yet listed keeps the keys distinct. */
  lemma AppendNewKey(keys: seq<(string, string)>, p: (string, string))
    requires DistinctKeys(keys) && p.0 !in KeySet(keys)
    ensures DistinctKeys(keys + [p]) && KeySet(keys + [p]) == KeySet(keys) + {p.0}
  {
    var keys' := keys + [p];
    assert forall q :: q in keys' <==> q in keys || q == p;
    forall i, j | 0 <= i < j < |keys'| ensures keys'[i].0 != keys'[j].0 {
      assert keys'[i] == keys[i] && keys[i] in keys;
      if j < |keys| {
        assert keys'[j] == keys[j];
      }
    }
  }

  /** Adding a beer to both keeps the key list describing the groups. */
  lemma AddKeepsKeysDescribe(keys: seq<(string, string)>, groups: map<string, Group>, b: Beer)
    requires KeysDescribe(keys, groups)
    ensures KeysDescribe(AddToKeys(keys, groups, b), AddToGroups(groups, b))
  {
    var k := KeyOf(b);
    if k !in groups {
      AppendNewKey(keys, (k, b.style));
      assert forall p :: p in keys + [(k, b.style)] <==> p in keys || p == (k, b.style);
    }
  }

  /** The key list names each group once: its keys are distinct, they are
      exactly the keys of the groups, and each pair carries its group's
      display name. */
  lemma {:induction false} KeysMatchGroups(bs: seq<Beer>)
    ensures DistinctKeys(FirstSeenKeys(bs))
    ensures KeySet(FirstSeenKeys(bs)) == GroupBeers(bs).Keys
    ensures forall p :: p in FirstSeenKeys(bs) ==> p.0 in GroupBeers(bs) && p.1 == GroupBeers(bs)[p.0].displayType
  {
    if bs != [] {
      var init := bs[..|bs| - 1];
      KeysMatchGroups(init);
      AddKeepsKeysDescribe(FirstSeenKeys(init), GroupBeers(init), bs[|bs| - 1]);
    }
  }

  /** The total number of beers over the groups the key list names, taken
      once each, is the number of beers read. */
  lemma {:induction false} TotalIsBeersRead(bs: seq<Beer>)
    ensures TotalBeers(GroupBeers(bs), FirstSeenKeys(bs)) == |bs|
  {
    if bs != [] {
      var init, b := bs[..|bs| - 1], bs[|bs| - 1];
      TotalIsBeersRead(init);
      KeysMatchGroups(init);
      var keys0, groups0 := FirstSeenKeys(init), GroupBeers(init);
      var k := KeyOf(b);
      var groups := GroupBeers(bs);
      if k in groups0 {
        assert k in KeySet(keys0);
        TotalBeersGrowOne(groups0, keys0, k, groups[k]);
        assert groups == groups0[k := groups[k]];
      } else {
        assert k !in KeySet(keys0);
        TotalBeersOtherKey(groups0, keys0, k, groups[k]);
        assert groups == groups0[k := groups[k]];
        var keys := keys0 + [(k, b.style)];
        assert keys[..|keys| - 1] == keys0;
      }
    }
  }

  /** Changing the group of a key that `keys` does not list leaves the total
      alone. */
  lemma {:induction false} TotalBeersOtherKey(groups: map<string, Group>, keys: seq<(string, string)>, k: string, g: Group)
    requires k !in KeySet(keys)
    ensures TotalBeers(groups[k := g], keys) == TotalBeers(groups, keys)
  {
    if keys != [] {
      var init := keys[..|keys| - 1];
      assert KeySet(init) <= KeySet(keys) by {
        assert forall p :: p in init ==> p in keys;
      }
      assert keys[|keys| - 1] in keys;
      TotalBeersOtherKey(groups, init, k, g);
    }
  }

  /** Adding one beer to the group of a key that `keys` lists once adds one
      to the total. */
  lemma {:induction false} TotalBeersGrowOne(groups: map<string, Group>, keys: seq<(string, string)>, k: string, g: Group)
    requires DistinctKeys(keys) && k in KeySet(keys) && k in groups
    requires |g.beers| == |groups[k].beers| + 1
    ensures TotalBeers(groups[k := g], keys) == TotalBeers(groups, keys) + 1
  {
    var init, p := keys[..|keys| - 1], keys[|keys| - 1];
    assert forall q :: q in keys <==> q in init || q == p;
    if p.0 == k {
      assert k !in KeySet(init) by {
        forall q | q in init ensures q.0 != k {
          var i :| 0 <= i < |init| && init[i] == q;
          assert keys[i] == q;
        }
      }
      TotalBeersOtherKey(groups, init, k, g);
    } else {
      assert k in KeySet(init);
      TotalBeersGrowOne(groups, init, k, g);
    }
  }

  /** A permutation of a key list with distinct keys has distinct keys and
      the same key set. */
  lemma PermutedKeys(a: seq<(string, string)>, b: seq<(string, string)>)
    requires DistinctKeys(a) && multiset(a) == multiset(b)
    ensures DistinctKeys(b) && KeySet(b) == KeySet(a)
  {
    assert forall p :: p in a <==> p in b by {
      assert forall p :: p in a <==> p in multiset(a);
      assert forall p :: p in b <==> p in multiset(b);
    }
    forall i, j | 0 <= i < j < |b| ensures b[i].0 != b[j].0 {
      if b[i].0 == b[j].0 {
        assert b[i] in a && b[j] in a;
        var p :| 0 <= p < |a| && a[p] == b[i];
        var q :| 0 <= q < |a| && a[q] == b[j];
        if p == q {
          TwiceInSeq(b, i, j);
          OnceInDistinct(a, p);
          assert false;
        }
      }
    }
  }

  lemma TwiceInSeq(s: seq<(string, string)>, i: nat, j: nat)
    requires i < j < |s| && s[i] == s[j]
    ensures multiset(s)[s[i]] >= 2
  {
    assert s == s[..j] + s[j..];
    assert s[i] in multiset(s[..j]) && s[j] in multiset(s[j..]);
    assert multiset(s) == multiset(s[..j]) + multiset(s[j..]);
  }

  lemma {:induction false} OnceInDistinct(s: seq<(string, string)>, p: nat)
    requires DistinctKeys(s) && p < |s|
    ensures multiset(s)[s[p]] == 1
  {
    var init, last := s[..|s| - 1], s[|s| - 1];
    assert s == init + [last];
    assert DistinctKeys(init);
    if p == |s| - 1 {
      assert last !in init by {
        forall i | 0 <= i < |init| ensures init[i] != last { assert init[i] == s[i]; }
      }
    } else {
      OnceInDistinct(init, p);
      assert init[p] == s[p] != last;
    }
  }

  // ---------------------------------------------------------------------------
  // The accumulator the scraper updates

  /** `beersByType` and `typeKeys`, updated in place one beer at a time.
      `seen` is the sequence of beers added so far. */
  class StyleIndex {
    var beersByType: map<string, Group>
    var typeKeys: seq<(string, string)>
    ghost var seen: seq<Beer>

    /** Until the final sort, the two fields are what the beers seen so far
        give. */
    ghost predicate Valid()
      reads this
    {
      beersByType == GroupBeers(seen) && typeKeys == FirstSeenKeys(seen)
    }

    constructor ()
      ensures Valid() && seen == []
      ensures beersByType == map[] && typeKeys == []
    {
      beersByType := map[];
      typeKeys := [];
      seen := [];
    }

    /** Adds one beer: a new group and a new key pair when its key is new,
        otherwise the beer is appended to the group of its key. */
    method AddBeer(b: Beer)
      requires Valid()
      modifies this
      ensures Valid() && seen == old(seen) + [b]
      ensures var k := KeyOf(b);
        if k in old(beersByType) then
          && typeKeys == old(typeKeys)
          && beersByType == old(beersByType)[k := Group(old(beersByType)[k].displayType, old(beersByType)[k].beers + [b])]
        else
          && typeKeys == old(typeKeys) + [(k, b.style)]
          && beersByType == old(beersByType)[k := Group(b.style, [b])]
    {
      var k := KeyOf(b);
      if k !in beersByType {
        typeKeys := typeKeys + [(k, b.style)];
        beersByType := beersByType[k := Group(b.style, [b])];
      } else {
        var g := beersByType[k];
        beersByType := beersByType[k := g.(beers := g.beers + [b])];
      }
      ReadOneMore(seen, b);
      seen := seen + [b];
    }

    /** The final sort of `typeKeys` by key; the groups are not touched. */
    method Finish()
      requires Valid()
      modifies this
      ensures beersByType == old(beersByType) && seen == old(seen)
      ensures SortedByKey(typeKeys) && multiset(typeKeys) == multiset(old(typeKeys))
      ensures DistinctKeys(typeKeys) && KeySet(typeKeys) == beersByType.Keys
    {
      KeysMatchGroups(seen);
      var sorted := SortByKey(typeKeys);
      PermutedKeys(typeKeys, sorted);
      typeKeys := sorted;
    }
  }
}
