/** The inspection script: it lists every key whose lower-cased spelling
    contains `scale`, and shows the first twenty of them. */
module CheckScales {
  import opened Text
  import opened Seqs
  import Keys

  const ScaleWord := "scale"

  /** How many selected keys are shown. */
  const DisplayLimit: nat := 20

  /** The test of the comprehension: `'scale' in k.lower()`. A key that
      contains `scale` as written passes it, and a key without capitals
      passes it only then. */
  predicate MentionsScale(k: string)
    ensures MentionsScale(k) ==> |k| >= |ScaleWord|
    ensures Contains(k, ScaleWord) ==> MentionsScale(k)
    ensures NoCapitals(k) ==> (MentionsScale(k) <==> Contains(k, ScaleWord))
  {
    LowerKeepsContainment(k);
    Contains(Lower(k), ScaleWord)
  }

  predicate NoCapitals(s: string)
  {
    forall i :: 0 <= i < |s| ==> !IsUpper(s[i])
  }

  lemma LowerKeepsContainment(k: string)
    ensures Contains(k, ScaleWord) ==> Contains(Lower(k), ScaleWord)
    ensures NoCapitals(k) ==> Lower(k) == k
  {
    if i :| 0 <= i <= |k| && OccursAt(k, ScaleWord, i) {
      LowerKeepsOccurrence(k, ScaleWord, i);
      assert 0 <= i <= |Lower(k)| && OccursAt(Lower(k), ScaleWord, i);
    }
  }

  /** `scale_keys` of the inspection script, in the order of `keys`. */
  function SelectScaleKeys(keys: seq<string>): (r: seq<string>)
    ensures forall k :: k in r <==> k in keys && MentionsScale(k)
    ensures IsSubsequence(r, keys)
    ensures Distinct(keys) ==> Distinct(r)
  {
    FilterIsSubsequence(keys, MentionsScale);
    assert Distinct(keys) ==> Distinct(Filter(keys, MentionsScale)) by {
      if Distinct(keys) { FilterDistinct(keys, MentionsScale); }
    }
    Filter(keys, MentionsScale)
  }

  /** `selected[:20]`: the slice is clamped to the length of the list. */
  function Shown(selected: seq<string>): (r: seq<string>)
    ensures |r| <= DisplayLimit
    ensures |r| == if |selected| < DisplayLimit then |selected| else DisplayLimit
    ensures forall i :: 0 <= i < |r| ==> r[i] == selected[i]
  {
    if |selected| <= DisplayLimit then selected else selected[..DisplayLimit]
  }

  /** An occurrence of a word without capitals survives lower-casing. */
  lemma LowerKeepsOccurrence(s: string, t: string, i: int)
    requires OccursAt(s, t, i)
    requires forall j :: 0 <= j < |t| ==> !IsUpper(t[j])
    ensures OccursAt(Lower(s), t, i)
  {
    var low := Lower(s);
    forall j | 0 <= j < |t| ensures low[i + j] == t[j] {
      assert s[i..i + |t|][j] == t[j];
    }
    assert low[i..i + |t|] == t;
  }

  /** A converter scale key has `scale` as its last five characters. */
  lemma ScaleKeyEndsWithScale(k: string)
    requires Keys.IsScaleKey(k)
    ensures OccursAt(k, ScaleWord, |k| - |ScaleWord|)
  {
    assert Keys.ScaleLookupSuffix[1..] == ScaleWord;
    SuffixOfSuffix(k, ScaleWord, Keys.ScaleLookupSuffix);
    assert k[|k| - |ScaleWord|..] == ScaleWord;
  }

  /** A key ending in `.weight_scale` or `.input_scale` contains `scale` in
      lower case at its end, so the inspection finds it. */
  lemma ConverterScaleKeyIsSelected(k: string)
    requires Keys.IsScaleKey(k)
    ensures MentionsScale(k)
  {
    var i := |k| - |ScaleWord|;
    ScaleKeyEndsWithScale(k);
    assert 0 <= i <= |k| && OccursAt(k, ScaleWord, i);
    assert Contains(k, ScaleWord);
  }

  /** Every scale key of the converter is among the selected keys. */
  lemma ConverterScaleKeysAreSelected(keys: seq<string>)
    ensures Keys.ScaleKeys(keys) <= Elems(SelectScaleKeys(keys))
  {
    forall k | k in Keys.ScaleKeys(keys) ensures k in SelectScaleKeys(keys) {
      ConverterScaleKeyIsSelected(k);
    }
  }

  /** The converse fails: `x.bias_scale` is selected here but is neither a
      scale key of the converter nor dropped by it. */
  lemma SelectionIsWiderThanConverter()
    ensures MentionsScale("x.bias_scale") && !Keys.IsScaleKey("x.bias_scale")
  {
    var k := "x.bias_scale";
    assert Lower(k)[7..12] == ScaleWord;
    assert OccursAt(Lower(k), ScaleWord, 7);
    assert |k| < |Keys.WeightScaleSuffix|;
    assert k[0] != Keys.InputScaleSuffix[0];
  }

  /** Case is ignored: an upper-case `SCALE` is selected too. */
  lemma UpperCaseIsSelected()
    ensures MentionsScale("LOGIT_SCALE")
  {
    var low := Lower("LOGIT_SCALE");
    assert low[6..11] == ScaleWord;
    assert OccursAt(low, ScaleWord, 6);
  }
}
