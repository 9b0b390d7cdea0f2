/** The conversion plan of the fp8-to-bf16 converter: for every weight key a
    dtype dispatch chooses how the tensor is cast, whether it is first
    reinterpreted and whether it is multiplied by the tensor stored under
    `key + "_scale"`. Tensor values are symbolic: a conversion builds a
    term over the loaded tensors instead of computing floating-point data. */
module Convert {
  import opened Text
  import opened Seqs
  import opened Keys
  import Header

  /** Element types; `F8E5M2` and `Other` fall through to the direct cast. */
  datatype DType = F8E4M3 | F8E5M2 | U8 | BF16 | F32 | Other(name: string)

  /** A tensor as `load_file` returns it: dtype, shape and its raw bytes. */
  datatype Stored = Stored(dtype: DType, shape: seq<nat>, data: seq<Header.byte>)

  /** The value of the variable `tensor` as the loop body reassigns it. */
  datatype Tensor =
    | Source(stored: Stored)                 // state_dict[key]
    | View(target: DType, of: Tensor)        // tensor.view(dtype): same bytes, new dtype
    | Cast(target: DType, of: Tensor)        // tensor.to(dtype)
    | Mul(lhs: Tensor, scale: Stored)        // tensor * state_dict[scale key]

  /** The dtype of a tensor term (a product keeps the dtype of its left factor). */
  function DTypeOf(t: Tensor): DType
  {
    match t
    case Source(s) => s.dtype
    case View(d, _) => d
    case Cast(d, _) => d
    case Mul(l, _) => DTypeOf(l)
  }

  /** The loaded tensor a term was computed from. */
  function Origin(t: Tensor): Stored
  {
    match t
    case Source(s) => s
    case View(_, x) => Origin(x)
    case Cast(_, x) => Origin(x)
    case Mul(l, _) => Origin(l)
  }

  /** The scale tensors multiplied in, innermost first. */
  function ScalesOf(t: Tensor): seq<Stored>
  {
    match t
    case Source(_) => []
    case View(_, x) => ScalesOf(x)
    case Cast(_, x) => ScalesOf(x)
    case Mul(l, s) => ScalesOf(l) + [s]
  }

  /** The dtypes the tensor was cast to, innermost first. */
  function CastsOf(t: Tensor): seq<DType>
  {
    match t
    case Source(_) => []
    case View(_, x) => CastsOf(x)
    case Cast(d, x) => CastsOf(x) + [d]
    case Mul(l, _) => CastsOf(l)
  }

  /** The dtypes the bytes were reinterpreted as, innermost first. */
  function ViewsOf(t: Tensor): seq<DType>
  {
    match t
    case Source(_) => []
    case View(d, x) => ViewsOf(x) + [d]
    case Cast(_, x) => ViewsOf(x)
    case Mul(l, _) => ViewsOf(l)
  }

  /** Whether the bytes were reinterpreted under another dtype on the way. */
  predicate Reinterpreted(t: Tensor)
  {
    match t
    case Source(_) => false
    case View(_, _) => true
    case Cast(_, x) => Reinterpreted(x)
    case Mul(l, _) => Reinterpreted(l)
  }

  /** The two WARNING lines of the loop. */
  datatype Warning =
    | MissingScale(key: string, scaleKey: string)   // fp8 tensor without a scale
    | ReinterpretedBytes(key: string)               // uint8 tensor read as fp8

  /** The state dict: keys in their order, and the tensor under each key. */
  datatype StateDict = StateDict(keys: seq<string>, entries: map<string, Stored>)

  /** A Python dict: every key once, and the key list is the key set. */
  predicate WellFormed(sd: StateDict)
  {
    Distinct(sd.keys) && Elems(sd.keys) == sd.entries.Keys
  }

  /** The key under which the scale of `key` is looked up. */
  function ScaleKeyFor(key: string): (sk: string)
    ensures |sk| == |key| + |ScaleLookupSuffix|
    ensures sk[..|key|] == key && EndsWith(sk, ScaleLookupSuffix)
  {
    key + ScaleLookupSuffix
  }

  predicate IsQuantized(d: DType)
  {
    d == F8E4M3 || d == U8
  }

  /** What the loop body leaves in `tensor` for `key`: the specification of
      ConvertKey. */
  function Dispatch(entries: map<string, Stored>, key: string): (r: Tensor)
    requires key in entries
    ensures DTypeOf(r) == BF16
    ensures Origin(r) == entries[key]
    ensures Reinterpreted(r) <==> entries[key].dtype == U8
    ensures ScalesOf(r) ==
              if IsQuantized(entries[key].dtype) && key + "_scale" in entries
              then [entries[key + "_scale"]] else []
    ensures ViewsOf(r) == if entries[key].dtype == U8 then [F8E4M3] else []
    ensures IsQuantized(entries[key].dtype) ==> r.Cast? && DTypeOf(r.of) == F32
    ensures CastsOf(r) == if IsQuantized(entries[key].dtype) then [F32, BF16] else [BF16]
    ensures IsQuantized(entries[key].dtype) && key + "_scale" in entries ==>
              r.of.Mul? && DTypeOf(r.of.lhs) == F32
    ensures !IsQuantized(entries[key].dtype) ==> r == Cast(BF16, Source(entries[key]))
  {
    var t := Source(entries[key]);
    assert Origin(t) == entries[key] && !Reinterpreted(t) && ScalesOf(t) == [] && ViewsOf(t) == [] && CastsOf(t) == [];
    var sk := ScaleKeyFor(key);
    match entries[key].dtype
    case F8E4M3 =>
      var f := Cast(F32, t);
      assert Origin(f) == Origin(t) && Reinterpreted(f) == Reinterpreted(t) && ScalesOf(f) == ScalesOf(t);
      assert ViewsOf(f) == [] && CastsOf(f) == [F32];
      Cast(BF16, if sk in entries then Mul(f, entries[sk]) else f)
    case U8 =>
      var v := View(F8E4M3, t);
      assert Origin(v) == Origin(t) && Reinterpreted(v) && ScalesOf(v) == ScalesOf(t);
      assert ViewsOf(v) == [F8E4M3] && CastsOf(v) == [];
      var f := Cast(F32, v);
      assert Origin(f) == Origin(v) && Reinterpreted(f) && ScalesOf(f) == ScalesOf(v);
      assert ViewsOf(f) == [F8E4M3] && CastsOf(f) == [F32];
      Cast(BF16, if sk in entries then Mul(f, entries[sk]) else f)
    case _ =>
      Cast(BF16, t)
  }

  /** The warnings the loop body prints for `key`. */
  function WarningsFor(entries: map<string, Stored>, key: string): (w: seq<Warning>)
    requires key in entries
    ensures |w| <= 1
    ensures w == [MissingScale(key, key + "_scale")] <==>
              entries[key].dtype == F8E4M3 && key + "_scale" !in entries
    ensures w == [ReinterpretedBytes(key)] <==> entries[key].dtype == U8
    ensures w == [] <==> !MissesScale(entries, key) && entries[key].dtype != U8
  {
    var sk := ScaleKeyFor(key);
    match entries[key].dtype
    case F8E4M3 => if sk in entries then [] else [MissingScale(key, sk)]
    case U8 => [ReinterpretedBytes(key)]
    case _ => []
  }

  /** A key whose dtype is not quantized is converted from its own tensor
      alone: no other entry, and in particular no scale, is consulted. */
  lemma UnquantizedIgnoresOtherEntries(e1: map<string, Stored>, e2: map<string, Stored>, key: string)
    requires key in e1 && key in e2 && e1[key] == e2[key]
    requires !IsQuantized(e1[key].dtype)
    ensures Dispatch(e1, key) == Dispatch(e2, key) == Cast(BF16, Source(e1[key]))
    ensures WarningsFor(e1, key) == WarningsFor(e2, key) == []
  {
  }

  /** A quantized key is converted from its own tensor and the entry under
      `key + "_scale"`, and from nothing else. */
  lemma QuantizedReadsOnlyScaleEntry(e1: map<string, Stored>, e2: map<string, Stored>, key: string)
    requires key in e1 && key in e2 && e1[key] == e2[key]
    requires (key + "_scale" in e1) == (key + "_scale" in e2)
    requires key + "_scale" in e1 ==> e1[key + "_scale"] == e2[key + "_scale"]
    ensures Dispatch(e1, key) == Dispatch(e2, key)
    ensures WarningsFor(e1, key) == WarningsFor(e2, key)
  {
  }

  /** One pass of the loop body (lines 34-63), reassigning `tensor`. */
  method ConvertKey(entries: map<string, Stored>, key: string) returns (tensor: Tensor, warnings: seq<Warning>)
    requires key in entries
    ensures tensor == Dispatch(entries, key)
    ensures warnings == WarningsFor(entries, key)
  {
    tensor := Source(entries[key]);
    warnings := [];
    if DTypeOf(tensor) == F8E4M3 {
      var weightScaleKey := key + ScaleLookupSuffix;
      if weightScaleKey in entries {
        tensor := Mul(Cast(F32, tensor), entries[weightScaleKey]);
      } else {
        warnings := warnings + [MissingScale(key, weightScaleKey)];
        tensor := Cast(F32, tensor);
      }
      tensor := Cast(BF16, tensor);
    } else if DTypeOf(tensor) == U8 {
      var weightScaleKey := key + ScaleLookupSuffix;
      tensor := Cast(F32, View(F8E4M3, tensor));
      if weightScaleKey in entries {
        tensor := Mul(tensor, entries[weightScaleKey]);
      }
      tensor := Cast(BF16, tensor);
      warnings := warnings + [ReinterpretedBytes(key)];
    } else {
      tensor := Cast(BF16, tensor);
    }
  }

  predicate MissesScale(entries: map<string, Stored>, k: string)
  {
    k in entries && entries[k].dtype == F8E4M3 && k + "_scale" !in entries
  }

  /** A warning the loop over `ks` may print: it is about a key of `ks`,
      names that key's own lookup key, and reports a condition that holds. */
  predicate Genuine(entries: map<string, Stored>, ks: seq<string>, w: Warning)
  {
    match w
    case MissingScale(k, sk) => k in ks && sk == k + "_scale" && MissesScale(entries, k)
    case ReinterpretedBytes(k) => k in ks && k in entries && entries[k].dtype == U8
  }

  /** The warnings of the whole loop over `ks`, in loop order. */
  function WarningLog(entries: map<string, Stored>, ks: seq<string>): (log: seq<Warning>)
    requires forall k :: k in ks ==> k in entries
    ensures |log| <= |ks|
    ensures forall w :: w in log ==> Genuine(entries, ks, w)
  {
    if ks == [] then []
    else
      var init, last := ks[..|ks| - 1], ks[|ks| - 1];
      assert forall k :: k in init ==> k in ks;
      assert forall w :: w in WarningLog(entries, init) ==> Genuine(entries, ks, w);
      WarningLog(entries, init) + WarningsFor(entries, last)
  }

  /** Over a duplicate-free key list no two logged warnings are about the
      same key: the loop prints at most one warning per key. */
  lemma {:induction false} WarningLogOnePerKey(entries: map<string, Stored>, ks: seq<string>)
    requires forall k :: k in ks ==> k in entries
    requires Distinct(ks)
    ensures forall i, j :: 0 <= i < j < |WarningLog(entries, ks)| ==>
              WarningLog(entries, ks)[i].key != WarningLog(entries, ks)[j].key
  {
    if ks != [] {
      var init, last := ks[..|ks| - 1], ks[|ks| - 1];
      DistinctInit(ks);
      assert forall k :: k in init ==> k in ks;
      WarningLogOnePerKey(entries, init);
      var a, b := WarningLog(entries, init), WarningsFor(entries, last);
      assert WarningLog(entries, ks) == a + b;
      assert forall w :: w in a ==> Genuine(entries, init, w);
      assert forall w :: w in b ==> w.key == last;
      forall i, j | 0 <= i < j < |a + b| ensures (a + b)[i].key != (a + b)[j].key {
        if |a| <= j {
          assert (a + b)[j] == b[j - |a|] && b[j - |a|] in b;
          if |a| <= i {
            assert false;
          }
          assert (a + b)[i] == a[i] && a[i] in a;
        }
      }
    }
  }

  /** One more iteration appends that key's warnings to the log. */
  lemma WarningLogSnoc(entries: map<string, Stored>, ks: seq<string>, key: string)
    requires forall k :: k in ks ==> k in entries
    requires key in entries
    ensures WarningLog(entries, ks + [key]) == WarningLog(entries, ks) + WarningsFor(entries, key)
  {
    assert (ks + [key])[..|ks|] == ks;
  }

  /** The warnings for one key, counted per warning. */
  lemma WarningsForCounts(entries: map<string, Stored>, key: string, k: string)
    requires key in entries
    ensures multiset(WarningsFor(entries, key))[MissingScale(k, k + "_scale")] ==
              if k == key && MissesScale(entries, k) then 1 else 0
    ensures multiset(WarningsFor(entries, key))[ReinterpretedBytes(k)] ==
              if k == key && entries[k].dtype == U8 then 1 else 0
  {
    var w := WarningsFor(entries, key);
    if w == [MissingScale(key, key + "_scale")] && k != key {
      assert MissingScale(key, key + "_scale") != MissingScale(k, k + "_scale");
    }
  }

  /** Over a duplicate-free key list, the missing-scale warning for `k` is
      logged exactly once if `k` is an fp8 key without scale, and never
      otherwise; the reinterpretation warning exactly once per uint8 key. */
  lemma {:induction false} WarningLogCounts(entries: map<string, Stored>, ks: seq<string>, k: string)
    requires forall x :: x in ks ==> x in entries
    requires Distinct(ks)
    ensures multiset(WarningLog(entries, ks))[MissingScale(k, k + "_scale")] ==
              if k in ks && MissesScale(entries, k) then 1 else 0
    ensures multiset(WarningLog(entries, ks))[ReinterpretedBytes(k)] ==
              if k in ks && entries[k].dtype == U8 then 1 else 0
  {
    if ks != [] {
      var init, last := ks[..|ks| - 1], ks[|ks| - 1];
      DistinctInit(ks);
      assert ks == init + [last];
      assert forall x :: x in init ==> x in ks;
      WarningLogCounts(entries, init, k);
      WarningLogSnoc(entries, init, last);
      WarningsForCounts(entries, last, k);
    }
  }

  /** One iteration keeps the loop invariant of ConvertWeights: storing the
      next key's dispatch result and appending its warnings extends the
      processed prefix by that key. */
  lemma ConvertStep(entries: map<string, Stored>, ks: seq<string>, i: nat,
                    converted: map<string, Tensor>, log: seq<Warning>)
    requires forall k :: k in ks ==> k in entries
    requires i < |ks|
    requires converted.Keys == Elems(ks[..i])
    requires forall k :: k in converted ==> k in entries && converted[k] == Dispatch(entries, k)
    requires log == WarningLog(entries, ks[..i])
    ensures converted[ks[i] := Dispatch(entries, ks[i])].Keys == Elems(ks[..i + 1])
    ensures forall k :: k in converted[ks[i] := Dispatch(entries, ks[i])] ==>
              k in entries && converted[ks[i] := Dispatch(entries, ks[i])][k] == Dispatch(entries, k)
    ensures log + WarningsFor(entries, ks[i]) == WarningLog(entries, ks[..i + 1])
  {
    PrefixStep(ks, i);
    assert forall k :: k in ks[..i] ==> k in ks;
    WarningLogSnoc(entries, ks[..i], ks[i]);
    StoreKeepsDispatch(entries, converted, ks[i]);
  }

  /** Storing a key's dispatch result keeps every entry a dispatch result. */
  lemma StoreKeepsDispatch(entries: map<string, Stored>, converted: map<string, Tensor>, key: string)
    requires key in entries
    requires forall k :: k in converted ==> k in entries && converted[k] == Dispatch(entries, k)
    ensures forall k :: k in converted[key := Dispatch(entries, key)] ==>
              k in entries && converted[key := Dispatch(entries, key)][k] == Dispatch(entries, k)
  {
  }

  /** The loop of lines 33-64: every weight key is converted and stored in
      `sd_converted`, and the warnings are logged in order. */
  method ConvertWeights(entries: map<string, Stored>, weightKeys: seq<string>)
    returns (converted: map<string, Tensor>, log: seq<Warning>)
    requires forall k :: k in weightKeys ==> k in entries
    ensures converted.Keys == Elems(weightKeys)
    ensures Distinct(weightKeys) ==> |converted| == |weightKeys|
    ensures forall k :: k in converted ==> converted[k] == Dispatch(entries, k)
    ensures log == WarningLog(entries, weightKeys)
  {
    converted := map[];
    log := [];
    for i := 0 to |weightKeys|
      invariant converted.Keys == Elems(weightKeys[..i])
      invariant forall k :: k in converted ==> k in entries && converted[k] == Dispatch(entries, k)
      invariant log == WarningLog(entries, weightKeys[..i])
    {
      var key := weightKeys[i];
      var tensor, warnings := ConvertKey(entries, key);
      ConvertStep(entries, weightKeys, i, converted, log);
      converted := converted[key := tensor];
      log := log + warnings;
    }
    assert weightKeys[..|weightKeys|] == weightKeys;
    if Distinct(weightKeys) {
      DistinctCardinality(weightKeys);
    }
  }

  /** A present `x.bias_scale` is read by the lookup for an fp8 or uint8
      `x.bias`, yet it is no scale key: it is kept and converted as a weight
      too. */
  lemma BiasScaleIsUsedAndKept(bias: Stored, scale: Stored)
    requires IsQuantized(bias.dtype)
    ensures var keys := ["x.bias", "x.bias_scale"];
            var entries := map["x.bias" := bias, "x.bias_scale" := scale];
            ScaleKeys(keys) == {} &&
            WeightKeys(keys, ScaleKeys(keys)) == keys &&
            ScalesOf(Dispatch(entries, "x.bias")) == [scale] &&
            WarningsFor(entries, "x.bias") ==
              if bias.dtype == U8 then [ReinterpretedBytes("x.bias")] else []
  {
    var keys := ["x.bias", "x.bias_scale"];
    assert !IsScaleKey("x.bias") && !IsScaleKey("x.bias_scale") by {
      assert "x.bias_scale"[0] != InputScaleSuffix[0];
    }
    assert ScaleKeys(keys) == {};
    assert "x.bias" + "_scale" == "x.bias_scale";
  }

  const Extension := ".safetensors"
  const OutputSuffix := "-fp16.safetensors"

  /** `path.replace(".safetensors", "") + "-fp16.safetensors"`. */
  function OutputFilename(path: string): (name: string)
    ensures EndsWith(name, OutputSuffix)
    ensures |name| <= |path| + |OutputSuffix|
  {
    var stem := RemoveAll(path, Extension);
    assert (stem + OutputSuffix)[|stem|..] == OutputSuffix;
    stem + OutputSuffix
  }

  lemma ExtensionHeadIsUnique()
    ensures HeadIsUnique(Extension)
  {
  }

  lemma RemoveTrailingExtension(stem: string)
    requires !Contains(stem, Extension)
    ensures RemoveAll(stem + Extension, Extension) == stem
  {
    ExtensionHeadIsUnique();
    RemoveAllSplit(stem, Extension, []);
    assert stem + Extension + [] == stem + Extension;
  }

  /** A path that is some stem plus the extension, the stem not containing
      the extension, gets `-fp16` before the extension. */
  lemma OutputFilenameOfStem(stem: string)
    requires !Contains(stem, Extension)
    ensures OutputFilename(stem + Extension) == stem + OutputSuffix
  {
    RemoveTrailingExtension(stem);
  }

  /** A path without the extension only gets the suffix appended. */
  lemma OutputFilenameWithoutExtension(path: string)
    requires !Contains(path, Extension)
    ensures OutputFilename(path) == path + OutputSuffix
  {
    RemoveAllAbsent(path, Extension);
  }

  /** Every occurrence is removed, not only the extension at the end: a
      directory whose name contains the extension is renamed in the output
      path (`a.safetensors/m.safetensors` becomes `a/m-fp16.safetensors`). */
  lemma OutputFilenameRewritesDirectory(dir: string, file: string)
    requires !Contains(dir, Extension) && !Contains(file, Extension)
    ensures OutputFilename(dir + Extension + file + Extension) == dir + file + OutputSuffix
  {
    var path := dir + Extension + file + Extension;
    assert path == dir + Extension + (file + Extension);
    ExtensionHeadIsUnique();
    RemoveAllSplit(dir, Extension, file + Extension);
    RemoveTrailingExtension(file);
    assert RemoveAll(path, Extension) == dir + file;
  }

  /** The metadata passed to `save_file`. */
  const OutputMetadata: map<string, string> := map["format" := "pt"]

  /** The arguments of the final `save_file` call. */
  datatype Saved = Saved(tensors: map<string, Tensor>, filename: string, metadata: map<string, string>)

  /** The counts the script prints, and its warnings. */
  datatype Report = Report(
    total: nat, scaleCount: nat, weightCount: nat,
    droppedInput: nat, droppedWeight: nat, warnings: seq<Warning>)

  /** The script from line 19 on, for the file at `path` whose header
      metadata is `inputMetadata` and whose tensors are `sd`. */
  method Run(path: string, inputMetadata: map<string, string>, sd: StateDict)
    returns (saved: Saved, report: Report)
    requires WellFormed(sd)
    ensures saved.tensors.Keys == sd.entries.Keys - ScaleKeys(sd.keys)
    ensures forall k :: k in saved.tensors ==> !IsScaleKey(k)
    ensures forall k :: k in saved.tensors ==> saved.tensors[k] == Dispatch(sd.entries, k)
    ensures saved.filename == OutputFilename(path)
    ensures saved.metadata == OutputMetadata
    ensures report.total == |sd.keys| == report.scaleCount + report.weightCount
    ensures report.weightCount == |saved.tensors|
    ensures report.scaleCount == |ScaleKeys(sd.keys)|
    ensures report.droppedInput == DroppedInput(ScaleKeys(sd.keys))
    ensures report.droppedWeight == DroppedWeight(ScaleKeys(sd.keys))
    ensures report.droppedInput + report.droppedWeight == report.scaleCount
    ensures report.warnings == WarningLog(sd.entries, WeightKeys(sd.keys, ScaleKeys(sd.keys)))
  {
    var scaleKeys := ScaleKeys(sd.keys);
    var weightKeys := WeightKeys(sd.keys, scaleKeys);
    KeyPartition(sd.keys);
    var converted, log := ConvertWeights(sd.entries, weightKeys);
    var droppedInput := DroppedInput(scaleKeys);
    var droppedWeight := DroppedWeight(scaleKeys);
    DroppedCountsCoverScaleKeys(sd.keys);
    saved := Saved(converted, OutputFilename(path), OutputMetadata);
    report := Report(|sd.keys|, |scaleKeys|, |weightKeys|, droppedInput, droppedWeight, log);
  }
}
