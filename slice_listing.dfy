/**
 * Grouping the entries of the slices directory by lesion, as both viewers
 * do: each entry has a key or is skipped, the keys are kept in order of
 * first appearance (a Python dict's order), and each key collects its
 * entries in listing order.
 */
module SliceListing {
  import opened Wrappers
  import opened Collections

  /** A dict from key to a list of file names, with its keys in insertion order. */
  datatype Groups = Groups(ids: seq<string>, files: map<string, seq<string>>)

  /** `lesions.setdefault(key, []).append(name)`: a new key goes last. */
  function AddFile(g: Groups, key: string, name: string): Groups {
    if key in g.files then Groups(g.ids, g.files[key := g.files[key] + [name]])
    else Groups(g.ids + [key], g.files[key := [name]])
  }

  /** The groups after the first `n` entries; `keys[t]` is the key of `names[t]`, or `None` for an entry that is skipped. */
  function Grouped(names: seq<string>, keys: seq<Option<string>>, n: nat): Groups
    requires |keys| == |names| && n <= |names|
  {
    if n == 0 then Groups([], map[])
    else if keys[n - 1].None? then Grouped(names, keys, n - 1)
    else AddFile(Grouped(names, keys, n - 1), keys[n - 1].value, names[n - 1])
  }

  /** The entries among the first `n` whose key is `k`, in listing order. */
  function Selected(names: seq<string>, keys: seq<Option<string>>, k: string, n: nat): (sel: seq<string>)
    requires |keys| == |names| && n <= |names|
    ensures |sel| <= n
  {
    if n == 0 then []
    else Selected(names, keys, k, n - 1) + if keys[n - 1] == Some(k) then [names[n - 1]] else []
  }

  /** The keys that are present, in order. */
  function PresentKeys(keys: seq<Option<string>>): seq<string> {
    if keys == [] then []
    else PresentKeys(keys[..|keys| - 1]) + if keys[|keys| - 1].Some? then [keys[|keys| - 1].value] else []
  }

  /** After `n` entries the keys listed are exactly the keys of the dict. */
  lemma {:induction false} GroupedKeys(names: seq<string>, keys: seq<Option<string>>, n: nat, k: string)
    requires |keys| == |names| && n <= |names|
    ensures k in Grouped(names, keys, n).ids <==> k in Grouped(names, keys, n).files
  {
    if n > 0 {
      GroupedKeys(names, keys, n - 1, k);
    }
  }

  /** After `n` entries the keys listed are the distinct present keys, in order of first appearance. */
  lemma {:induction false} GroupedIds(names: seq<string>, keys: seq<Option<string>>, n: nat)
    requires |keys| == |names| && n <= |names|
    ensures Grouped(names, keys, n).ids == Distinct(PresentKeys(keys[..n]))
  {
    if n > 0 {
      GroupedIds(names, keys, n - 1);
      assert keys[..n][..n - 1] == keys[..n - 1];
      var prev := PresentKeys(keys[..n - 1]);
      var g := Grouped(names, keys, n - 1);
      if keys[n - 1].Some? {
        var k := keys[n - 1].value;
        assert PresentKeys(keys[..n]) == prev + [k];
        DistinctSnoc(prev, k);
        GroupedKeys(names, keys, n - 1, k);
        assert k in g.ids <==> k in Distinct(prev);
      } else {
        assert PresentKeys(keys[..n]) == prev;
      }
    }
  }

  /** After `n` entries key `k` has a list exactly when some entry has key `k`, and the list is those entries in order. */
  lemma {:induction false} GroupedFiles(names: seq<string>, keys: seq<Option<string>>, n: nat, k: string)
    requires |keys| == |names| && n <= |names|
    ensures k in Grouped(names, keys, n).files <==> Selected(names, keys, k, n) != []
    ensures k in Grouped(names, keys, n).files ==> Grouped(names, keys, n).files[k] == Selected(names, keys, k, n)
  {
    if n > 0 {
      GroupedFiles(names, keys, n - 1, k);
      var g := Grouped(names, keys, n - 1);
      var sel := Selected(names, keys, k, n - 1);
      if keys[n - 1] == Some(k) {
        assert Grouped(names, keys, n) == AddFile(g, k, names[n - 1]);
        assert Selected(names, keys, k, n) == sel + [names[n - 1]];
      } else {
        assert Selected(names, keys, k, n) == sel;
        assert k in Grouped(names, keys, n).files <==> k in g.files;
        assert k in g.files ==> Grouped(names, keys, n).files[k] == g.files[k];
      }
    }
  }

  /** An entry is selected for `k` exactly when some entry with that name has key `k`. */
  lemma {:induction false} SelectedMembers(names: seq<string>, keys: seq<Option<string>>, k: string, n: nat, name: string)
    requires |keys| == |names| && n <= |names|
    ensures name in Selected(names, keys, k, n) <==> exists t :: 0 <= t < n && names[t] == name && keys[t] == Some(k)
  {
    if n > 0 {
      SelectedMembers(names, keys, k, n - 1, name);
    }
  }

  /** Some entry is selected for `k` exactly when some entry has key `k`. */
  lemma SelectedNonEmpty(names: seq<string>, keys: seq<Option<string>>, k: string, n: nat)
    requires |keys| == |names| && n <= |names|
    ensures Selected(names, keys, k, n) != [] <==> exists t :: 0 <= t < n && keys[t] == Some(k)
  {
    if exists t :: 0 <= t < n && keys[t] == Some(k) {
      var t :| 0 <= t < n && keys[t] == Some(k);
      SelectedMembers(names, keys, k, n, names[t]);
    }
    if Selected(names, keys, k, n) != [] {
      SelectedMembers(names, keys, k, n, Selected(names, keys, k, n)[0]);
    }
  }
}
