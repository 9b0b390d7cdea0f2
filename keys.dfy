/** How the converter splits the keys of a state dict: keys ending in
    `.weight_scale` or `.input_scale` are the scale keys, which are dropped;
    every other key, in its original order, is a weight key to convert. */
module Keys {
  import opened Text
  import opened Seqs

  const WeightScaleSuffix := ".weight_scale"
  const InputScaleSuffix := ".input_scale"

  /** The suffix appended to a tensor's key to find its scale. */
  const ScaleLookupSuffix := "_scale"

  /** Both dropped suffixes end in the lookup suffix `_scale`. */
  lemma DroppedSuffixesEndInLookup()
    ensures EndsWith(WeightScaleSuffix, ScaleLookupSuffix)
    ensures EndsWith(InputScaleSuffix, ScaleLookupSuffix)
  {
    assert WeightScaleSuffix[7..] == ScaleLookupSuffix;
    assert InputScaleSuffix[6..] == ScaleLookupSuffix;
  }

  /** The test of the `scale_keys` comprehension: suffix tests only. */
  predicate IsScaleKey(k: string)
    ensures IsScaleKey(k) ==> |k| >= |InputScaleSuffix| && EndsWith(k, ScaleLookupSuffix)
  {
    assert EndsWith(k, WeightScaleSuffix) || EndsWith(k, InputScaleSuffix) ==>
             EndsWith(k, ScaleLookupSuffix) by {
      DroppedSuffixesEndInLookup();
      if EndsWith(k, WeightScaleSuffix) {
        SuffixTransitive(k, ScaleLookupSuffix, WeightScaleSuffix);
      } else if EndsWith(k, InputScaleSuffix) {
        SuffixTransitive(k, ScaleLookupSuffix, InputScaleSuffix);
      }
    }
    EndsWith(k, WeightScaleSuffix) || EndsWith(k, InputScaleSuffix)
  }

  /** `scale_keys`, a set built from the keys of the state dict. */
  function ScaleKeys(keys: seq<string>): (s: set<string>)
    ensures s <= Elems(keys)
  {
    set k | k in keys && IsScaleKey(k)
  }

  /** `weight_keys`: the keys not in `scaleKeys`, in the order of `keys`. */
  function WeightKeys(keys: seq<string>, scaleKeys: set<string>): (w: seq<string>)
    ensures forall k :: k in w <==> k in keys && k !in scaleKeys
    ensures IsSubsequence(w, keys)
  {
    FilterIsSubsequence(keys, k => k !in scaleKeys);
    Filter(keys, k => k !in scaleKeys)
  }

  /** The scale-key test, stated by how such a key is spelled: some stem
      followed by one of the two suffixes. */
  lemma ScaleKeyIffSpelledWithSuffix(keys: seq<string>, k: string)
    ensures k in ScaleKeys(keys) <==>
              k in keys && exists stem: string ::
                stem + WeightScaleSuffix == k || stem + InputScaleSuffix == k
  {
    if k in ScaleKeys(keys) {
      var suffix := if EndsWith(k, WeightScaleSuffix) then WeightScaleSuffix else InputScaleSuffix;
      var stem := k[..|k| - |suffix|];
      assert stem + suffix == k;
    }
    if k in keys && exists stem: string :: stem + WeightScaleSuffix == k || stem + InputScaleSuffix == k {
      var stem: string :| stem + WeightScaleSuffix == k || stem + InputScaleSuffix == k;
      if stem + WeightScaleSuffix == k {
        assert k[|stem|..] == WeightScaleSuffix;
      } else {
        assert k[|stem|..] == InputScaleSuffix;
      }
    }
  }

  /** The two key lists partition the keys: disjoint, covering every key,
      and with as many entries in all as there are keys. */
  lemma {:induction false} KeyPartition(keys: seq<string>)
    requires Distinct(keys)
    ensures Elems(WeightKeys(keys, ScaleKeys(keys))) !! ScaleKeys(keys)
    ensures Elems(WeightKeys(keys, ScaleKeys(keys))) + ScaleKeys(keys) == Elems(keys)
    ensures Distinct(WeightKeys(keys, ScaleKeys(keys)))
    ensures |WeightKeys(keys, ScaleKeys(keys))| + |ScaleKeys(keys)| == |keys|
  {
    var scales := ScaleKeys(keys);
    var weights := WeightKeys(keys, scales);
    FilterDistinct(keys, k => k !in scales);
    DistinctCardinality(weights);
    DistinctCardinality(keys);
    assert Elems(weights) + scales == Elems(keys);
    assert |Elems(weights) + scales| == |Elems(weights)| + |scales|;
  }

  /** No key ends with both `.weight_scale` and `.input_scale`. */
  lemma SuffixesExclusive(k: string)
    ensures !(EndsWith(k, WeightScaleSuffix) && EndsWith(k, InputScaleSuffix))
  {
    assert !EndsWith(WeightScaleSuffix, InputScaleSuffix) by {
      assert WeightScaleSuffix[1] != InputScaleSuffix[0];
    }
    if EndsWith(k, WeightScaleSuffix) && EndsWith(k, InputScaleSuffix) {
      SuffixOfSuffix(k, InputScaleSuffix, WeightScaleSuffix);
    }
  }

  /** The scale keys ending in `suffix`, counted. */
  lemma SuffixCount(scaleKeys: set<string>, suffix: string)
    ensures |set k | k in scaleKeys && EndsWith(k, suffix)| <= |scaleKeys|
    ensures |set k | k in scaleKeys && EndsWith(k, suffix)| == 0 <==>
              forall k :: k in scaleKeys ==> !EndsWith(k, suffix)
  {
    var hits := set k | k in scaleKeys && EndsWith(k, suffix);
    assert scaleKeys == hits + (scaleKeys - hits);
    assert |scaleKeys| == |hits| + |scaleKeys - hits|;
    if forall k :: k in scaleKeys ==> !EndsWith(k, suffix) {
      assert hits == {};
    } else {
      var k :| k in scaleKeys && EndsWith(k, suffix);
      assert k in hits;
    }
  }

  /** `dropped_input`: the scale keys ending in `.input_scale`. */
  function DroppedInput(scaleKeys: set<string>): (n: nat)
    ensures n <= |scaleKeys|
    ensures n == 0 <==> forall k :: k in scaleKeys ==> !EndsWith(k, InputScaleSuffix)
  {
    SuffixCount(scaleKeys, InputScaleSuffix);
    |set k | k in scaleKeys && EndsWith(k, InputScaleSuffix)|
  }

  /** `dropped_weight`: the scale keys ending in `.weight_scale`. */
  function DroppedWeight(scaleKeys: set<string>): (n: nat)
    ensures n <= |scaleKeys|
    ensures n == 0 <==> forall k :: k in scaleKeys ==> !EndsWith(k, WeightScaleSuffix)
  {
    SuffixCount(scaleKeys, WeightScaleSuffix);
    |set k | k in scaleKeys && EndsWith(k, WeightScaleSuffix)|
  }

  /** The two dropped counts add up to the number of scale keys. */
  lemma DroppedCountsCoverScaleKeys(keys: seq<string>)
    ensures DroppedInput(ScaleKeys(keys)) + DroppedWeight(ScaleKeys(keys)) == |ScaleKeys(keys)|
  {
    var scales := ScaleKeys(keys);
    var inputs := set k | k in scales && EndsWith(k, InputScaleSuffix);
    var weights := set k | k in scales && EndsWith(k, WeightScaleSuffix);
    forall k | k in inputs ensures k !in weights {
      SuffixesExclusive(k);
    }
    assert inputs + weights == scales;
    assert |inputs + weights| == |inputs| + |weights|;
  }
}
