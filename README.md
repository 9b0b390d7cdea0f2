# fp8 → bf16 safetensors converter, modelled in Dafny

The repository has two scripts. `convert_fp8_to_bf16.py` loads a
safetensors file and splits its keys. Keys ending in `.weight_scale` or
`.input_scale` are scale keys and are dropped. Every other key is a weight
key. Each weight tensor is converted to bfloat16 by a dtype dispatch:

- A `float8_e4m3fn` tensor is multiplied by the tensor stored under
  `key + "_scale"` when that key exists. Otherwise it is cast plainly and a
  warning is printed.
- A `uint8` tensor is reinterpreted as fp8 and multiplied by its scale when
  the scale exists. A warning is always printed.
- Any other dtype is cast directly.

The script then counts the dropped keys and builds the output file name. It
saves the result with the metadata `{"format": "pt"}`. `check_scales.py`
lists the keys whose lower-cased name contains `scale` and shows the first
twenty.

The model has six modules, one file each:

- `Header` (`header.dfy`): the 8-byte little-endian header-length prefix,
  its encoder, and both round trips.
- `Keys` (`keys.dfy`): the scale/weight key partition and the dropped-key
  counts.
- `Convert` (`convert.dfy`): tensors as symbolic terms, the per-key
  dispatch, the loop that fills `sd_converted`, the output name and
  metadata, and the whole script as the method `Run`.
- `CheckScales` (`check_scales.dfy`): the case-insensitive filter and the
  display window.
- `Text` and `Seqs` (`text.dfy`, `seqs.dfy`): the Python string and list
  operations the scripts use (`endswith`, `in`, ASCII `lower`,
  `replace(pat, "")`, and list comprehensions with an `if`).

Tensor data is not computed. A tensor as loaded is `Stored(dtype, shape,
bytes)`. The value of the loop variable `tensor` is a term built from
`Source`, `View` (reinterpret), `Cast` (`.to(dtype)`) and `Mul` (times a
scale). Six observers read the term back: `DTypeOf`, `Origin`, `ScalesOf`,
`ViewsOf`, `CastsOf` and `Reinterpreted`.

Four behaviours of the code are easy to misread, and the model states them
as the code has them:

- The script writes `{"format": "pt"}` and never the metadata it reads.
  It only prints the input metadata. `Run` proves the output metadata is
  that constant whatever the input metadata is.
- Every occurrence of `.safetensors` in the path is deleted, not only the
  extension, and `-fp16.safetensors` is then appended.
  `Convert.OutputFilenameRewritesDirectory` proves that
  `a.safetensors/m.safetensors` becomes `a/m-fp16.safetensors`.
- Only `.weight_scale` and `.input_scale` keys are dropped. So
  `x.bias_scale` is used as the scale of `x.bias` and is also kept and
  converted (`Convert.BiasScaleIsUsedAndKept`).
- No header-size or reinterpretation check exists. The code reads the
  8-byte length and never compares it with the file size. A `uint8` → fp8
  view has the same element width, so it cannot fail.

## Model

| member | source | states |
|---|---|---|
| `Header.FromLittleEndian` | convert_fp8_to_bf16.py:14 | `int.from_bytes(b, 'little')` is below 256^len(b) |
| `Header.FromLittleEndianIsWeightedSum` | convert_fp8_to_bf16.py:14 | the decoded value equals the positional sum Σ b[i]·256^i |
| `Header.DecodeEncode` | convert_fp8_to_bf16.py:14 | decoding the little-endian encoding of n gives n |
| `Header.EncodeDecode` | convert_fp8_to_bf16.py:14 | encoding a decoded byte string gives the same bytes |
| `Header.HeaderSize` | convert_fp8_to_bf16.py:13-14 | the header size is below 2^64 and is the positional sum of the first 8 bytes, or of all bytes when the file is shorter |
| `Header.HeaderSizeOfPrefix` | convert_fp8_to_bf16.py:14 | a file starting with the 8-byte encoding of n declares header size n whatever follows |
| `Keys.IsScaleKey` | convert_fp8_to_bf16.py:24 | a key passing the scale-key test is at least as long as `.input_scale` and ends in the lookup suffix `_scale` |
| `Keys.ScaleKeys` | convert_fp8_to_bf16.py:24 | every scale key is a key of the state dict |
| `Keys.ScaleKeyIffSpelledWithSuffix` | convert_fp8_to_bf16.py:24 | a key is a scale key iff it is a key spelled as some stem followed by `.weight_scale` or `.input_scale` |
| `Keys.WeightKeys` | convert_fp8_to_bf16.py:25 | the weight keys are exactly the keys not in the scale set, and keep the input order |
| `Keys.KeyPartition` | convert_fp8_to_bf16.py:24-25 | weight keys and scale keys are disjoint, together give every key, weight keys are duplicate-free, and the two counts add up to the key count |
| `Keys.SuffixesExclusive` | convert_fp8_to_bf16.py:66-67 | no key ends with both `.weight_scale` and `.input_scale` |
| `Keys.DroppedInput` | convert_fp8_to_bf16.py:66 | `dropped_input` is at most the number of scale keys, and is zero iff no scale key ends in `.input_scale` |
| `Keys.DroppedWeight` | convert_fp8_to_bf16.py:67 | `dropped_weight` is at most the number of scale keys, and is zero iff no scale key ends in `.weight_scale` |
| `Keys.DroppedCountsCoverScaleKeys` | convert_fp8_to_bf16.py:66-67 | `dropped_input + dropped_weight` equals the number of scale keys |
| `Convert.ScaleKeyFor` | convert_fp8_to_bf16.py:40 | the lookup key starts with the whole tensor key (nothing stripped) and ends with `_scale` |
| `Convert.Dispatch` | convert_fp8_to_bf16.py:36-61 | the result is bf16 and comes from the key's own tensor; it was reinterpreted iff the dtype is uint8, and then exactly once, as fp8 e4m3; it applies exactly the tensor under `key + "_scale"` iff the dtype is fp8 e4m3 or uint8 and that key is present, and no scale otherwise; a quantized tensor is cast exactly twice, first to float32 and then to bf16, and when its scale is present the operand of the final cast is that scale times a float32 tensor, so widening comes before the multiply; any other dtype is cast once, directly, to bf16 |
| `Convert.WarningsFor` | convert_fp8_to_bf16.py:42-58 | at most one warning; the missing-scale warning iff fp8 without `key + "_scale"`; the reinterpretation warning iff uint8; no warning iff neither holds, so an fp8 key with its scale present prints none |
| `Convert.UnquantizedIgnoresOtherEntries` | convert_fp8_to_bf16.py:60-61 | a non-fp8, non-uint8 tensor is cast directly to bf16 with no lookup and no warning, whatever the other entries are |
| `Convert.QuantizedReadsOnlyScaleEntry` | convert_fp8_to_bf16.py:40-56 | the conversion of a key depends only on its own tensor and the entry under `key + "_scale"` |
| `Convert.ConvertKey` | convert_fp8_to_bf16.py:34-63 | the loop body's reassignments of `tensor` give the dispatch result and its warnings |
| `Convert.WarningLog` | convert_fp8_to_bf16.py:33-64 | the loop prints no more warnings than there are keys, and every printed warning is genuine: a missing-scale warning names a key of the loop that is fp8 without `key + "_scale"` and names that lookup key; a reinterpretation warning names a key of the loop whose dtype is uint8 |
| `Convert.WarningLogOnePerKey` | convert_fp8_to_bf16.py:33-64 | over duplicate-free keys, no two printed warnings are about the same key: at most one warning per key |
| `Convert.WarningsForCounts` | convert_fp8_to_bf16.py:42-58 | the warnings for one key hold the missing-scale warning for k once iff k is that key and fp8 without scale, and the reinterpretation warning once iff k is that key and uint8 |
| `Convert.WarningLogCounts` | convert_fp8_to_bf16.py:33-64 | over distinct keys, each fp8 key without scale is warned about exactly once, each uint8 key exactly once, other keys never |
| `Convert.ConvertStep` | convert_fp8_to_bf16.py:33-64 | one iteration extends `sd_converted` by the next key with its dispatch result and the log by that key's warnings |
| `Convert.ConvertWeights` | convert_fp8_to_bf16.py:31-64 | `sd_converted` has exactly the weight keys, one entry per distinct key, each holding its dispatch result; the log is the warnings in loop order |
| `Convert.BiasScaleIsUsedAndKept` | convert_fp8_to_bf16.py:24-56 | `x.bias_scale` is not a scale key, stays a weight key, and is the scale applied to an fp8 or uint8 `x.bias`; fp8 prints no warning, uint8 only the reinterpretation warning |
| `Convert.OutputFilename` | convert_fp8_to_bf16.py:71 | the output name always ends in `-fp16.safetensors` |
| `Convert.OutputFilenameOfStem` | convert_fp8_to_bf16.py:71 | `stem.safetensors` becomes `stem-fp16.safetensors` when the stem has no `.safetensors` |
| `Convert.OutputFilenameWithoutExtension` | convert_fp8_to_bf16.py:71 | a path without `.safetensors` only gets `-fp16.safetensors` appended |
| `Convert.OutputFilenameRewritesDirectory` | convert_fp8_to_bf16.py:71 | an occurrence inside a directory name is deleted too: `d.safetensors/f.safetensors` becomes `d/f-fp16.safetensors` |
| `Convert.Run` | convert_fp8_to_bf16.py:19-72 | the saved tensors are the keys minus the scale keys, none of them a scale key, each its dispatch result; the name is the output name; the metadata is `{"format": "pt"}` whatever the input metadata; the printed counts are the key count, the scale-key count and the weight-key count and add up; the dropped counts are the `.input_scale` and `.weight_scale` counts over the scale keys and cover them; the warnings are the loop's log |
| `Text.EndsWithIffStem` | convert_fp8_to_bf16.py:24 | `s.endswith(suffix)` holds iff s is spelled as some stem followed by suffix |
| `Text.ContainsIffSplit` | check_scales.py:6 | `t in s` holds iff s is t with some text before and some text after it |
| `Text.RemoveAll` | convert_fp8_to_bf16.py:71 | `str.replace(pat, "")` never makes the string longer |
| `Text.RemoveAllIsSubsequence` | convert_fp8_to_bf16.py:71 | what `str.replace(pat, "")` leaves is a subsequence of the input: characters are only deleted, never added or reordered |
| `Text.RemoveAllAbsent` | convert_fp8_to_bf16.py:71 | `str.replace` leaves a string without the pattern unchanged |
| `Text.RemoveAllSplit` | convert_fp8_to_bf16.py:71 | for a pattern that cannot overlap itself, `(x + pat + y).replace(pat, "")` is `x + y.replace(pat, "")` when x has no occurrence |
| `Text.Lower` | check_scales.py:6 | lower-casing keeps the length, leaves no ASCII capital, keeps every other character and moves capitals by 32 code points |
| `Seqs.Filter` | convert_fp8_to_bf16.py:25 | the comprehension's result has exactly the elements satisfying the test and is no longer than its input |
| `Seqs.FilterIsSubsequence` | check_scales.py:6 | a comprehension's result keeps the input order |
| `CheckScales.MentionsScale` | check_scales.py:6 | a key passing the test has at least five characters; a key containing `scale` as written passes; a key without capitals passes iff it contains `scale` |
| `CheckScales.SelectScaleKeys` | check_scales.py:6 | a key is selected iff it is a key whose lower-cased form contains `scale`; the selection keeps the input order and has no duplicates when the keys have none |
| `CheckScales.Shown` | check_scales.py:9 | at most 20 keys are shown, exactly min(20, n) of them, and they are the first ones in order |
| `CheckScales.ConverterScaleKeyIsSelected` | check_scales.py:6 | a key ending in `.weight_scale` or `.input_scale` is selected |
| `CheckScales.ConverterScaleKeysAreSelected` | check_scales.py:6 | every scale key of the converter is among the selected keys |
| `CheckScales.SelectionIsWiderThanConverter` | check_scales.py:6 | `x.bias_scale` is selected but is not a scale key of the converter |
| `CheckScales.UpperCaseIsSelected` | check_scales.py:6 | `LOGIT_SCALE` is selected: case is ignored |

## Left out

- Floating-point arithmetic: fp8 e4m3 decoding, the multiplication by a
  float32 scale and bf16 rounding (lines 44, 48, 50, 54, 56, 57, 61) are
  torch operations. They are terms (`Cast`, `View`, `Mul`), not numbers.
- Torch type promotion: `Convert.DTypeOf` gives a product the dtype of its
  left factor. The last step casts every result to bf16, so the result
  dtype does not depend on this.
- `load_file` and `save_file` are foreign calls with file I/O. The model
  takes the loaded state dict as input and returns the arguments of
  `save_file` (`Convert.Saved`). The on-disk layout `save_file` chooses is
  not modelled.
- `f.read(header_size)`, UTF-8 decoding and `json.loads` (lines 15-17) are
  library calls. The input metadata is a parameter of `Run`.
- `sys.argv` handling and the usage exit (lines 6-10) are left out.
- All `print` output is left out except the two WARNING lines, which are
  kept as an event log. This covers the metadata dump, the counts (returned
  as `Convert.Report` instead), the per-key progress lines and
  `scale.item()` formatting.
- `Text.Lower`: lowercases ASCII letters only. Python's `str.lower` also
  lowercases non-ASCII letters.
- `Text.RemoveAll`: requires a non-empty pattern. Python's `replace` with
  an empty pattern inserts the replacement between characters. The only
  call uses the constant `.safetensors`.
- The count prints of `check_scales.py` (lines 7-8) are left out. Its
  display loop (lines 9-10) only prints; the model keeps the list it prints
  (`CheckScales.Shown`), not the dtype and shape it shows for each key.
- `Convert.Run`: always returns `Saved`. The script stops with an error
  before `save_file` whenever a torch operation at lines 44-57 fails. This
  covers `scale.item()` on a scale with not exactly one element (line 45),
  a scale that does not broadcast against its tensor (lines 44, 56), and a
  scale whose dtype torch will not combine with float32. Shapes are kept in
  `Stored`, but no broadcasting or type-promotion rule is modelled, so the
  model does not capture this stop.
