/**
 * The simple suffix-structure builder: every suffix of the word, terminated
 * by '$', is merged into a flat dictionary whose keys are shared prefixes.
 * The dictionary is Python's, so it remembers insertion order, and
 * `insert_suffix` walks a snapshot of its keys in that order; `Table` keeps
 * that order beside the key-value map.
 */
module NaiveSuffixTree {

  /** `p` is a prefix of `s`. */
  predicate IsPrefix(p: string, s: string)
  {
    |p| <= |s| && s[..|p|] == p
  }

  // ------------------------------------------------------------------
  // get_suffixes and shared_prefix

  /** `get_suffixes(x)`: `x[i:] + "$"` for every `i` from 0 to `|x|`. */
  function GetSuffixes(x: string): seq<string>
  {
    seq(|x| + 1, i requires 0 <= i <= |x| => x[i..] + "$")
  }

  /** There are `|x| + 1` suffixes, the i-th of length `|x| - i + 1`, all
      ending in '$', so no two are equal and the last is "$" alone. */
  lemma SuffixesShape(x: string)
    ensures |GetSuffixes(x)| == |x| + 1 && GetSuffixes(x)[|x|] == "$"
    ensures forall i | 0 <= i <= |x| ::
      && |GetSuffixes(x)[i]| == |x| - i + 1
      && GetSuffixes(x)[i][|x| - i] == '$'
      && GetSuffixes(x)[i][..|x| - i] == x[i..]
    ensures forall i, j | 0 <= i < j <= |x| :: GetSuffixes(x)[i] != GetSuffixes(x)[j]
  {
    forall i, j | 0 <= i < j <= |x|
      ensures GetSuffixes(x)[i] != GetSuffixes(x)[j]
    {
      assert |GetSuffixes(x)[i]| != |GetSuffixes(x)[j]|;
    }
  }

  /** `shared_prefix(a, b)`: the longest common prefix of the two strings. */
  function SharedPrefix(a: string, b: string): (p: string)
    ensures IsPrefix(p, a) && IsPrefix(p, b)
    ensures |p| < |a| && |p| < |b| ==> a[|p|] != b[|p|]
  {
    if |a| > 0 && |b| > 0 && a[0] == b[0] then [a[0]] + SharedPrefix(a[1..], b[1..]) else []
  }

  /** No common prefix is longer: every common prefix is a prefix of the
      shared one. */
  lemma SharedPrefixLongest(a: string, b: string, q: string)
    requires IsPrefix(q, a) && IsPrefix(q, b)
    ensures IsPrefix(q, SharedPrefix(a, b))
  {
    var p := SharedPrefix(a, b);
    assert p[..|q|] == a[..|q|];
  }

  /** A prefix of `s` shares all of itself with `s`. */
  lemma SharedPrefixOfPrefix(s: string, x: string)
    requires IsPrefix(x, s)
    ensures SharedPrefix(s, x) == x
  {
    assert IsPrefix(x, x);
    SharedPrefixLongest(s, x, x);
  }

  // ------------------------------------------------------------------
  // The dictionary

  /** A Python dictionary from keys to lists of strings: its keys in
      insertion order, and the key-value map. */
  datatype Table = Table(order: seq<string>, items: map<string, seq<string>>)

  predicate Distinct(s: seq<string>)
  {
    forall i, j | 0 <= i < j < |s| :: s[i] != s[j]
  }

  /** The order lists each key of the map exactly once. */
  ghost predicate Consistent(t: Table)
  {
    Distinct(t.order) && forall k :: k in t.items <==> k in t.order
  }

  /** `order` without `k`. */
  function Erase(order: seq<string>, k: string): (r: seq<string>)
    ensures forall x :: x in r <==> x in order && x != k
    ensures Distinct(order) ==> Distinct(r)
  {
    if order == [] then []
    else if order[0] == k then Erase(order[1..], k)
    else
      var rest := Erase(order[1..], k);
      assert Distinct(order) ==> order[0] !in order[1..];
      [order[0]] + rest
  }

  /** `d[k] = v`: a new key goes to the end of the order, an existing one
      keeps its place. */
  function Put(t: Table, k: string, v: seq<string>): (r: Table)
    requires Consistent(t)
    ensures Consistent(r) && r.items == t.items[k := v]
  {
    if k in t.items then Table(t.order, t.items[k := v])
    else Table(t.order + [k], t.items[k := v])
  }

  /** `del d[k]`, which needs `k` present. */
  function Remove(t: Table, k: string): (r: Table)
    requires Consistent(t) && k in t.items
    ensures Consistent(r) && r.items == t.items - {k}
  {
    Table(Erase(t.order, k), t.items - {k})
  }

  // ------------------------------------------------------------------
  // insert_suffix

  /** One step of the loop for a key sharing the non-empty prefix `p` with
      `s`: `del d[key]`, then `d[p] = [key[n:], s[n:]]`. */
  function Absorb(s: string, key: string, t: Table): (r: Table)
    requires Consistent(t) && key in t.items && |SharedPrefix(s, key)| > 0
    ensures Consistent(r)
    ensures var p := SharedPrefix(s, key);
      r.items == (t.items - {key})[p := [key[|p|..], s[|p|..]]]
  {
    var p := SharedPrefix(s, key);
    Put(Remove(t, key), p, [key[|p|..], s[|p|..]])
  }

  /** The keys still to visit are distinct and present. */
  ghost predicate Pending(keys: seq<string>, t: Table)
  {
    Consistent(t) && Distinct(keys) && forall k | k in keys :: k in t.items
  }

  /** Visiting the head of a pending snapshot leaves the rest pending. */
  lemma PendingTail(s: string, keys: seq<string>, t: Table)
    requires Pending(keys, t) && keys != []
    ensures keys[0] !in keys[1..]
    ensures Pending(keys[1..], t)
    ensures |SharedPrefix(s, keys[0])| > 0 ==> Pending(keys[1..], Absorb(s, keys[0], t))
  {
    assert forall k | k in keys[1..] :: k != keys[0];
  }

  /** The loop of `insert_suffix` over the snapshot `keys`: every key that
      shares a non-empty prefix with `s` is absorbed; `found` records
      whether any key did. */
  function Merge(s: string, keys: seq<string>, t: Table, found: bool): (r: (Table, bool))
    requires Pending(keys, t)
    ensures Consistent(r.0)
    decreases |keys|
  {
    if keys == [] then (t, found)
    else
      PendingTail(s, keys, t);
      if |SharedPrefix(s, keys[0])| > 0 then Merge(s, keys[1..], Absorb(s, keys[0], t), true)
      else Merge(s, keys[1..], t, found)
  }

  /** `insert_suffix(s, d)`: an empty dictionary just gets `s ↦ []`;
      otherwise the keys are merged with `s`, and `s ↦ []` is added only
      when no key shared a non-empty prefix with it. */
  function Insert(s: string, t: Table): (r: Table)
    requires Consistent(t)
    ensures Consistent(r)
  {
    if |t.items| == 0 then Put(t, s, [])
    else
      var m := Merge(s, t.order, t, false);
      if m.1 then m.0 else Put(m.0, s, [])
  }

  /** `x` was written by the merge loop: it is a non-empty prefix of `s`
      shared with a key `k` of the snapshot, and holds `k`'s remainder and
      `s`'s remainder after it. */
  ghost predicate MergedFrom(s: string, keys: seq<string>, x: string, v: seq<string>)
  {
    && |x| > 0 && IsPrefix(x, s)
    && exists k | k in keys :: SharedPrefix(s, k) == x && v == [k[|x|..], s[|x|..]]
  }

  /** No key shares a non-empty prefix with `s`. */
  ghost predicate NoMatch(s: string, t: Table)
  {
    forall k | k in t.items :: |SharedPrefix(s, k)| == 0
  }

  /** `found` turns on exactly when some key of the snapshot matches. */
  lemma {:induction false} MergeFound(s: string, keys: seq<string>, t: Table, found: bool)
    requires Pending(keys, t)
    ensures Merge(s, keys, t, found).1 <==> found || exists k | k in keys :: |SharedPrefix(s, k)| > 0
    decreases |keys|
  {
    if keys != [] {
      PendingTail(s, keys, t);
      assert forall k | k in keys :: k == keys[0] || k in keys[1..];
      if |SharedPrefix(s, keys[0])| > 0 {
        MergeFound(s, keys[1..], Absorb(s, keys[0], t), true);
      } else {
        MergeFound(s, keys[1..], t, found);
      }
    }
  }

  /** Every entry after the loop is an old entry that was not deleted, with
      its old value, or was written by the loop. */
  lemma {:induction false} MergeSound(s: string, keys: seq<string>, t: Table, found: bool)
    requires Pending(keys, t)
    ensures var r := Merge(s, keys, t, found).0;
      forall x | x in r.items ::
        || (x in t.items && (x !in keys || |SharedPrefix(s, x)| == 0) && r.items[x] == t.items[x])
        || MergedFrom(s, keys, x, r.items[x])
    decreases |keys|
  {
    if keys != [] {
      PendingTail(s, keys, t);
      var key, rest := keys[0], keys[1..];
      var r := Merge(s, keys, t, found).0;
      var t1 := if |SharedPrefix(s, key)| > 0 then Absorb(s, key, t) else t;
      MergeSound(s, rest, t1, found || |SharedPrefix(s, key)| > 0);
      forall x | x in r.items
        ensures || (x in t.items && (x !in keys || |SharedPrefix(s, x)| == 0) && r.items[x] == t.items[x])
                || MergedFrom(s, keys, x, r.items[x])
      {
        if MergedFrom(s, rest, x, r.items[x]) {
          var k :| k in rest && SharedPrefix(s, k) == x && r.items[x] == [k[|x|..], s[|x|..]];
          assert k in keys;
        } else if |SharedPrefix(s, key)| > 0 && x == SharedPrefix(s, key) {
          assert key in keys;
        }
      }
    }
  }

  /** Non-empty prefixes of `s` already present are never lost, and every
      matching key's shared prefix ends up present. */
  lemma {:induction false} MergeComplete(s: string, keys: seq<string>, t: Table, found: bool)
    requires Pending(keys, t)
    ensures var r := Merge(s, keys, t, found).0;
      && (forall x | x in t.items && |x| > 0 && IsPrefix(x, s) :: x in r.items)
      && (forall k | k in keys && |SharedPrefix(s, k)| > 0 :: SharedPrefix(s, k) in r.items)
    decreases |keys|
  {
    if keys != [] {
      PendingTail(s, keys, t);
      var key, rest := keys[0], keys[1..];
      assert forall k | k in keys :: k == key || k in rest;
      var p := SharedPrefix(s, key);
      if |p| > 0 {
        MergeComplete(s, rest, Absorb(s, key, t), true);
        SharedPrefixOfPrefix(s, p);
        forall x | x in t.items && |x| > 0 && IsPrefix(x, s) && x == key
          ensures x == p
        {
          SharedPrefixOfPrefix(s, x);
        }
      } else {
        MergeComplete(s, rest, t, found);
      }
    }
  }

  /** An entry that is neither deleted nor a prefix of `s` keeps its value. */
  lemma {:induction false} MergeKeeps(s: string, keys: seq<string>, t: Table, found: bool)
    requires Pending(keys, t)
    ensures var r := Merge(s, keys, t, found).0;
      forall x | x in t.items && (x !in keys || |SharedPrefix(s, x)| == 0) && !(|x| > 0 && IsPrefix(x, s)) ::
        x in r.items && r.items[x] == t.items[x]
    decreases |keys|
  {
    if keys != [] {
      PendingTail(s, keys, t);
      var key, rest := keys[0], keys[1..];
      if |SharedPrefix(s, key)| > 0 {
        MergeKeeps(s, rest, Absorb(s, key, t), true);
      } else {
        MergeKeeps(s, rest, t, found);
      }
    }
  }

  /** With no matching key the loop leaves the dictionary as it was. */
  lemma MergeNoMatch(s: string, t: Table)
    requires Consistent(t) && NoMatch(s, t)
    ensures Merge(s, t.order, t, false) == (t, false)
  {
    MergeFound(s, t.order, t, false);
    MergeSound(s, t.order, t, false);
    MergeKeeps(s, t.order, t, false);
    var m := Merge(s, t.order, t, false).0;
    forall x | x in m.items
      ensures x in t.items && m.items[x] == t.items[x]
    {
      assert !MergedFrom(s, t.order, x, m.items[x]);
    }
    forall x | x in t.items
      ensures x in m.items
    {
      if |x| > 0 && IsPrefix(x, s) {
        SharedPrefixOfPrefix(s, x);
      }
    }
    assert m.items == t.items;
    NoMatchKeepsOrder(s, t.order, t, false);
  }

  /** With no matching key in the snapshot the loop changes nothing. */
  lemma {:induction false} NoMatchKeepsOrder(s: string, keys: seq<string>, t: Table, found: bool)
    requires Pending(keys, t) && forall k | k in keys :: |SharedPrefix(s, k)| == 0
    ensures Merge(s, keys, t, found) == (t, found)
    decreases |keys|
  {
    if keys != [] {
      PendingTail(s, keys, t);
      NoMatchKeepsOrder(s, keys[1..], t, found);
    }
  }

  /** Every entry after `insert_suffix(s, d)` is an untouched old entry
      whose key shares nothing with `s`, or a shared prefix written by the
      loop, or `s ↦ []` when no key matched. */
  lemma InsertSources(s: string, t: Table)
    requires Consistent(t)
    ensures var r := Insert(s, t);
      forall x | x in r.items ::
        || (x in t.items && |SharedPrefix(s, x)| == 0 && r.items[x] == t.items[x])
        || MergedFrom(s, t.order, x, r.items[x])
        || (x == s && r.items[x] == [] && NoMatch(s, t))
  {
    if |t.items| != 0 {
      MergeFound(s, t.order, t, false);
      MergeSound(s, t.order, t, false);
    }
  }

  /** After `insert_suffix(s, d)` every matching key's shared prefix is
      present, and the matching key itself is gone unless it is a prefix of
      `s`. */
  lemma InsertMatches(s: string, t: Table)
    requires Consistent(t)
    ensures var r := Insert(s, t);
      forall k | k in t.items && |SharedPrefix(s, k)| > 0 ::
        SharedPrefix(s, k) in r.items && (k in r.items ==> IsPrefix(k, s))
  {
    if |t.items| != 0 {
      MergeFound(s, t.order, t, false);
      MergeSound(s, t.order, t, false);
      MergeComplete(s, t.order, t, false);
    }
  }

  /** Keys sharing nothing with `s` keep their values through
      `insert_suffix(s, d)`. */
  lemma InsertUntouched(s: string, t: Table)
    requires Consistent(t)
    ensures var r := Insert(s, t);
      forall k | k in t.items && |SharedPrefix(s, k)| == 0 && k != s ::
        k in r.items && r.items[k] == t.items[k]
  {
    var r := Insert(s, t);
    if |t.items| != 0 {
      MergeKeeps(s, t.order, t, false);
      forall k | k in t.items && |SharedPrefix(s, k)| == 0 && k != s
        ensures k in r.items && r.items[k] == t.items[k]
      {
        if |k| > 0 && IsPrefix(k, s) {
          SharedPrefixOfPrefix(s, k);
        }
      }
    }
  }

  /** What `insert_suffix(s, d)` promises about the dictionary it returns:
      `InsertSources`, `InsertMatches` and `InsertUntouched` together. */
  lemma InsertFacts(s: string, t: Table)
    requires Consistent(t)
    ensures var r := Insert(s, t);
      && (forall x | x in r.items ::
            || (x in t.items && |SharedPrefix(s, x)| == 0 && r.items[x] == t.items[x])
            || MergedFrom(s, t.order, x, r.items[x])
            || (x == s && r.items[x] == [] && NoMatch(s, t)))
      && (forall k | k in t.items && |SharedPrefix(s, k)| > 0 ::
            SharedPrefix(s, k) in r.items && (k in r.items ==> IsPrefix(k, s)))
      && (forall k | k in t.items && |SharedPrefix(s, k)| == 0 && k != s ::
            k in r.items && r.items[k] == t.items[k])
  {
    InsertSources(s, t);
    InsertMatches(s, t);
    InsertUntouched(s, t);
  }

  /** Into an empty dictionary, `insert_suffix` puts exactly `s ↦ []`;
      when no key matches, it adds `s ↦ []` and changes nothing else. */
  lemma InsertNoMatch(s: string, t: Table)
    requires Consistent(t) && NoMatch(s, t)
    ensures Insert(s, t).items == t.items[s := []]
    ensures |t.items| == 0 ==> Insert(s, t).items == map[s := []]
  {
    if |t.items| != 0 {
      MergeNoMatch(s, t);
    } else {
      assert t.items == map[];
    }
  }

  // ------------------------------------------------------------------
  // construct_suffix_tree

  /** The dictionary after the first `n` suffixes of `x` have been inserted,
      in order, into an empty one. */
  function Constructed(x: string, n: nat): (t: Table)
    requires n <= |x| + 1
    ensures Consistent(t)
  {
    if n == 0 then Table([], map[]) else Insert(GetSuffixes(x)[n - 1], Constructed(x, n - 1))
  }

  /** The shape `construct_suffix_tree` keeps: keys are non-empty prefixes
      of suffixes inserted so far, and no two keys begin with the same
      symbol. */
  ghost predicate Shaped(x: string, n: nat, t: Table)
    requires n <= |x| + 1
  {
    && (forall k | k in t.items :: |k| > 0 && exists j | 0 <= j < n :: IsPrefix(k, GetSuffixes(x)[j]))
    && (forall k1, k2 | k1 in t.items && k2 in t.items && k1 != k2 :: k1[0] != k2[0])
  }

  /** A key sharing a non-empty prefix with `s` begins with `s`'s first
      symbol. */
  lemma MatchedHead(s: string, k: string)
    requires |SharedPrefix(s, k)| > 0
    ensures |s| > 0 && |k| > 0 && k[0] == s[0]
  {
    var p := SharedPrefix(s, k);
    assert p[0] == s[0] && p[0] == k[0];
  }

  /** In a dictionary whose keys begin with different symbols, at most one
      key shares a non-empty prefix with `s`. */
  lemma InsertMatchesOne(s: string, t: Table)
    requires forall k | k in t.items :: |k| > 0
    requires forall k1, k2 | k1 in t.items && k2 in t.items && k1 != k2 :: k1[0] != k2[0]
    ensures forall k1, k2 | k1 in t.items && k2 in t.items && |SharedPrefix(s, k1)| > 0 && |SharedPrefix(s, k2)| > 0 :: k1 == k2
  {
    forall k | k in t.items && |SharedPrefix(s, k)| > 0
      ensures k[0] == s[0]
    {
      MatchedHead(s, k);
    }
  }

  /** Inserting a non-empty string into a dictionary whose keys are
      non-empty and begin with different symbols keeps the keys non-empty
      with different first symbols; every new key is a prefix of `s`. */
  lemma InsertHeadsDiffer(s: string, t: Table)
    requires Consistent(t) && |s| > 0
    requires forall k | k in t.items :: |k| > 0
    requires forall k1, k2 | k1 in t.items && k2 in t.items && k1 != k2 :: k1[0] != k2[0]
    ensures var r := Insert(s, t);
      && (forall k | k in r.items :: |k| > 0 && (k in t.items || IsPrefix(k, s)))
      && (forall k1, k2 | k1 in r.items && k2 in r.items && k1 != k2 :: k1[0] != k2[0])
  {
    var r := Insert(s, t);
    InsertFacts(s, t);
    forall k | k in t.items && |SharedPrefix(s, k)| > 0
      ensures k[0] == s[0]
    {
      MatchedHead(s, k);
    }
    forall k | k in r.items
      ensures |k| > 0 && (k in t.items || IsPrefix(k, s))
    {
    }
    forall k1, k2 | k1 in r.items && k2 in r.items && k1 != k2
      ensures k1[0] != k2[0]
    {
      if k1 !in t.items || |SharedPrefix(s, k1)| > 0 {
        assert IsPrefix(k1, s) && k1[0] == s[0];
      }
      if k2 !in t.items || |SharedPrefix(s, k2)| > 0 {
        assert IsPrefix(k2, s) && k2[0] == s[0];
      }
    }
  }

  /** Inserting a non-empty string into a dictionary whose keys are
      non-empty and begin with different symbols matches at most one key,
      and keeps the keys non-empty with different first symbols. */
  lemma InsertKeepsHeads(s: string, t: Table)
    requires Consistent(t) && |s| > 0
    requires forall k | k in t.items :: |k| > 0
    requires forall k1, k2 | k1 in t.items && k2 in t.items && k1 != k2 :: k1[0] != k2[0]
    ensures forall k1, k2 | k1 in t.items && k2 in t.items && |SharedPrefix(s, k1)| > 0 && |SharedPrefix(s, k2)| > 0 :: k1 == k2
    ensures var r := Insert(s, t);
      && (forall k | k in r.items :: |k| > 0 && (k in t.items || IsPrefix(k, s)))
      && (forall k1, k2 | k1 in r.items && k2 in r.items && k1 != k2 :: k1[0] != k2[0])
  {
    InsertMatchesOne(s, t);
    InsertHeadsDiffer(s, t);
  }

  /** Every dictionary `construct_suffix_tree` passes through is shaped, so
      each insertion matches at most one key (`InsertKeepsHeads`). */
  lemma {:induction false} ConstructedShaped(x: string, n: nat)
    requires n <= |x| + 1
    ensures Shaped(x, n, Constructed(x, n))
  {
    if n > 0 {
      ConstructedShaped(x, n - 1);
      var t := Constructed(x, n - 1);
      var s := GetSuffixes(x)[n - 1];
      InsertKeepsHeads(s, t);
      var r := Constructed(x, n);
      forall k | k in r.items
        ensures |k| > 0 && exists j | 0 <= j < n :: IsPrefix(k, GetSuffixes(x)[j])
      {
        if k in t.items {
          var j :| 0 <= j < n - 1 && IsPrefix(k, GetSuffixes(x)[j]);
        } else {
          assert IsPrefix(k, GetSuffixes(x)[n - 1]);
        }
      }
    }
  }

  // ------------------------------------------------------------------
  // The mutable dictionary and the two procedures

  /** The dictionary object that `insert_suffix` mutates in place. */
  class Dict {
    var order: seq<string>
    var items: map<string, seq<string>>

    function Value(): Table
      reads this
    {
      Table(order, items)
    }

    ghost predicate Valid()
      reads this
    {
      Consistent(Value())
    }

    /** `{}`. */
    constructor ()
      ensures Valid() && Value() == Table([], map[])
    {
      order, items := [], map[];
    }

    /** `d[k] = v`. */
    method SetItem(k: string, v: seq<string>)
      requires Valid()
      modifies this
      ensures Valid() && Value() == Put(old(Value()), k, v)
    {
      if k !in items {
        order := order + [k];
      }
      items := items[k := v];
    }

    /** `del d[k]`. */
    method DelItem(k: string)
      requires Valid() && k in items
      modifies this
      ensures Valid() && Value() == Remove(old(Value()), k)
    {
      order := Erase(order, k);
      items := items - {k};
    }
  }

  /** `insert_suffix(string, suffix_tree)`: mutates the dictionary as
      `Insert` says and returns that same dictionary. */
  method InsertSuffix(s: string, tree: Dict) returns (r: Dict)
    requires tree.Valid()
    modifies tree
    ensures r == tree && tree.Valid() && tree.Value() == Insert(s, old(tree.Value()))
  {
    if |tree.items| == 0 {
      tree.SetItem(s, []);
      return tree;
    }
    var found := false;
    var keys := tree.order;
    ghost var goal := Merge(s, keys, tree.Value(), false);
    for j := 0 to |keys|
      invariant tree.Valid() && Pending(keys[j..], tree.Value())
      invariant Merge(s, keys[j..], tree.Value(), found) == goal
    {
      var key := keys[j];
      ghost var before := tree.Value();
      PendingTail(s, keys[j..], before);
      assert keys[j..][0] == key && keys[j..][1..] == keys[j + 1..];
      var prefix := SharedPrefix(s, key);
      var n := |prefix|;
      if n > 0 {
        found := true;
        var keySuffix := key[n..];
        var stringSuffix := s[n..];
        tree.DelItem(key);
        tree.SetItem(prefix, [keySuffix, stringSuffix]);
        assert tree.Value() == Absorb(s, key, before);
      }
    }
    if !found {
      tree.SetItem(s, []);
    }
    return tree;
  }

  /** `construct_suffix_tree(x)`: a fresh dictionary into which every suffix
      `x[i:] + "$"` is inserted, for `i` from 0 up to `|x|`. */
  method ConstructSuffixTree(x: string) returns (tree: Dict)
    ensures tree.Valid() && tree.Value() == Constructed(x, |x| + 1)
  {
    tree := new Dict();
    for i := 0 to |x| + 1
      invariant tree.Valid() && tree.Value() == Constructed(x, i)
    {
      var suffix := x[i..] + "$";
      assert suffix == GetSuffixes(x)[i];
      var same := InsertSuffix(suffix, tree);
    }
  }
}
