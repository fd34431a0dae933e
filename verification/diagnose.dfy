/**
 * The helpers of the component diagnostic tool: `_pick` copies a chosen set
 * of fields out of a GLPI item, and `_candidate_keys` lists, sorted, the
 * fields of an item that look like they name or identify the hardware.
 */
module Diagnose {
  import opened Json
  import opened Text
  import opened Collections

  // ---------------------------------------------------------------------------
  // `_pick`

  /** The keys `_pick` copies: those of `keys` that `d` has, each once, in the order they first appear in `keys`. */
  function PickedKeys(d: Fields, keys: seq<string>): seq<string> {
    if keys == [] then []
    else
      var init := keys[..|keys| - 1];
      var k := keys[|keys| - 1];
      PickedKeys(d, init) + (if HasKey(d, k) && k !in init then [k] else [])
  }

  /** The picked keys are exactly the requested keys that `d` has, and none of them is repeated. */
  lemma {:induction false} PickedKeysSpec(d: Fields, keys: seq<string>)
    ensures forall k :: k in PickedKeys(d, keys) <==> k in keys && HasKey(d, k)
    ensures NoDuplicates(PickedKeys(d, keys))
  {
    if keys != [] {
      var init := keys[..|keys| - 1];
      PickedKeysSpec(d, init);
      assert keys == init + [keys[|keys| - 1]];
    }
  }

  /**
   * `_pick(d, keys)`: a dict with the requested keys that `d` has, in request
   * order, each mapped to its value in `d`.
   */
  method Pick(d: Fields, keys: seq<string>) returns (out: Fields)
    ensures Keys(out) == PickedKeys(d, keys)
    ensures WellFormed(out)
    ensures forall k :: HasKey(out, k) <==> k in keys && HasKey(d, k)
    ensures forall k :: HasKey(out, k) ==> Get(out, k) == Get(d, k)
  {
    out := [];
    for i := 0 to |keys|
      invariant Keys(out) == PickedKeys(d, keys[..i])
      invariant WellFormed(out)
      invariant forall k :: HasKey(out, k) <==> k in keys[..i] && HasKey(d, k)
      invariant forall k :: HasKey(out, k) ==> Get(out, k) == Get(d, k)
    {
      var k := keys[i];
      assert keys[..i + 1][..i] == keys[..i] && keys[..i + 1] == keys[..i] + [k];
      PickedKeysSpec(d, keys[..i]);
      if HasKey(d, k) {
        out := Put(out, k, Get(d, k));
      }
    }
    assert keys[..|keys|] == keys;
    PickedKeysSpec(d, keys);
  }

  // ---------------------------------------------------------------------------
  // `_candidate_keys`

  /** The fragments that mark a field as naming the hardware. */
  const Needles: seq<string> := ["name", "designation", "model", "manufacturer", "serial", "size"]

  /** A key is a candidate when, lower-cased, it contains a needle or ends in `_id` or `_ids`. */
  predicate IsCandidate(k: string) {
    var lk := Lower(k);
    (exists n | n in Needles :: Contains(lk, n)) || EndsWith(lk, "_id") || EndsWith(lk, "_ids")
  }

  lemma LowerIdempotent(s: string)
    ensures Lower(Lower(s)) == Lower(s)
  {
  }

  /** Whether a key is a candidate does not depend on its case. */
  lemma CandidateIgnoresCase(k: string)
    ensures IsCandidate(Lower(k)) == IsCandidate(k)
  {
    LowerIdempotent(k);
  }

  /** The candidate keys among `ks`, in their order. */
  function Candidates(ks: seq<string>): seq<string> {
    if ks == [] then []
    else Candidates(ks[..|ks| - 1]) + (if IsCandidate(ks[|ks| - 1]) then [ks[|ks| - 1]] else [])
  }

  /** The candidates are the keys that are candidates, and a list without repeats gives candidates without repeats. */
  lemma {:induction false} CandidatesSpec(ks: seq<string>)
    ensures forall k :: k in Candidates(ks) <==> k in ks && IsCandidate(k)
    ensures NoDuplicates(ks) ==> NoDuplicates(Candidates(ks))
  {
    if ks != [] {
      var init := ks[..|ks| - 1];
      CandidatesSpec(init);
      assert ks == init + [ks[|ks| - 1]];
      if NoDuplicates(ks) {
        assert NoDuplicates(init);
        assert ks[|ks| - 1] !in init;
      }
    }
  }

  /**
   * `_candidate_keys(item)`: the candidate keys of the item, each as often as
   * the item has it, sorted.
   */
  method CandidateKeys(item: Fields) returns (keys: seq<string>)
    ensures Sorted(keys)
    ensures multiset(keys) == multiset(Candidates(Keys(item)))
    ensures forall k :: k in keys <==> HasKey(item, k) && IsCandidate(k)
  {
    var ks := Keys(item);
    var found := [];
    for i := 0 to |ks|
      invariant found == Candidates(ks[..i])
    {
      assert ks[..i + 1][..i] == ks[..i];
      if IsCandidate(ks[i]) {
        found := found + [ks[i]];
      }
    }
    assert ks[..|ks|] == ks;
    CandidatesSpec(ks);
    keys := SortStrings(found);
    forall k ensures k in keys <==> k in found {
      assert k in keys <==> k in multiset(keys);
      assert k in found <==> k in multiset(found);
    }
  }

  /** An item with unique keys, as every dict has, gives a list without repeats. */
  lemma CandidateKeysUnique(item: Fields, keys: seq<string>)
    requires WellFormed(item)
    requires multiset(keys) == multiset(Candidates(Keys(item)))
    ensures NoDuplicates(keys)
  {
    assert NoDuplicates(Keys(item));
    CandidatesSpec(Keys(item));
    MultisetNoDuplicates(Candidates(Keys(item)), keys);
  }
}
