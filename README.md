# Line grouping, brace balancing and platform dispatch of ee_extra, in Dafny

This project models two parts of the `ee_extra` package:

- **The line-grouping helpers of the JavaScript-to-Python translator** (`JavaScript/translate_general.py`).
  - `yield_subgroups` cuts a `'0'`/`'1'` marker string into maximal runs. The seed group `[0]` comes first.
  - `from_bin_to_list` turns those runs into line indices. A `'0'` line becomes a bare index; a run of `'1'` lines becomes one list of its indices.
  - `delete_brackets` drops every `}` that would close a brace that was never opened.
  - `subgroups_creator_bef` / `subgroups_creator_aft` report each maximal block of non-`'0'` lines as a list of indices. The list is extended by one line before the block (`bef`) or one line after it (`aft`).
- **The platform dispatch of the spectral helpers** (`Spectral/utils.py`).
  - The band table of each platform (`_get_expression_map`).
  - The `None` guard and kernel table of `_get_kernel_image`, and the fourteen kernel parameters built on it.
  - The `None` filter `_remove_none_dict`.
  - The tasseled-cap coefficient tables (`_get_tc_coefficients`).

Each looping function of the source is a Dafny `method` with the same loop and variables. Its `ensures` ties the result to a specification function, and lemmas prove what the source promises about that function.

Modules:

- `Wrappers`: `Option` and `Result`.
- `GroupItems`: grouping results are `seq<Item>`, with `Single(i)` for a bare int and `Run(ps)` for a list; also `Range` and `Flatten`.
- `RunGrouping`: `yield_subgroups` and `from_bin_to_list`.
- `Braces`: `delete_brackets`.
- `BoundaryGroups`: the two subgroup creators.
- `SpectralUtils`: the `utils.py` dispatch.

Earth Engine images are a type parameter `I`:

- `img.select(b)` is recorded as the value `Select(img, b)`;
- `img.expression(f, m)` is recorded as `Expression(img, f, m)`;
- the only exceptions modelled are `KeyError` and the "platform not supported" exception, as `Result.Failure`.

Python dictionaries written as literals (`lookupPlatform`, `platformCoeffs`) are sequences of entries in the literal's order. Lookup takes the first entry with the key, and membership means some entry has it. The keys of both literals are proved distinct (`DistinctPlatforms`, `DistinctCoeffPlatforms`), so the first entry with a key is the only one, and that is the value the Python dictionary holds. The small band tables and the dictionaries the functions build are Dafny `map`s. Tasseled-cap coefficients are integers in ten-thousandths; every coefficient in the source has four decimals.

Two facts about the grouper's code:

- For a `'0'`/`'1'` string, `yield_subgroups` compares each character's class with the last buffered element (`subgroup[-1]`). Every buffered run is constant, so it cuts the string into its maximal runs.
- The one-line string `"1"` gives `[[0]]` (`BinToListOneLine`). The seed `[0]` holds the int `0`, which never equals the string `"0"` or `"1"`, so the first character always starts a new group.

## Model

| member | source | states |
|---|---|---|
| RunGrouping.YieldSubgroups | inst/ee_extra/ee_extra/JavaScript/translate_general.py:39-55 | The first yielded group is the seed `[0]`, and it is the only one exactly for the empty string. Every later group is non-empty, and their concatenation is the input. For a binary input they form a run partition: each group is constant and neighbouring groups differ. |
| RunGrouping.RunPartitionUnique | inst/ee_extra/ee_extra/JavaScript/translate_general.py:41-55 | Two run partitions of the same string are equal, so the groups yielded for a binary string are its maximal runs. |
| RunGrouping.DigitSumConstant | inst/ee_extra/ee_extra/JavaScript/translate_general.py:27-28 | A run of `'0'` elements sums to 0 and a run of `'1'` elements to its length, so the `sum(value2) == 0` test tells the two kinds of run apart. |
| RunGrouping.Grouped | inst/ee_extra/ee_extra/JavaScript/translate_general.py:25-35 | The grouping of the first `n` lines is empty only for `n = 0`, and its last item is a list exactly when line `n - 1` is a `'1'`. |
| RunGrouping.GroupStep | inst/ee_extra/ee_extra/JavaScript/translate_general.py:25-28 | Group `k` is non-empty and lies inside the input, right after groups `0..k-1`. If its digit sum is 0 every line it covers is a `'0'`. Otherwise every line it covers is a `'1'`, and the line before it is a `'0'` or it starts at line 0. |
| RunGrouping.NumberGroup | inst/ee_extra/ee_extra/JavaScript/translate_general.py:27-35 | One pass of the loop over such a group moves `counter` past the group and leaves `list_01` equal to the grouping of every line before the new `counter`. |
| RunGrouping.OnesAppend | inst/ee_extra/ee_extra/JavaScript/translate_general.py:33-35 | A run of `m` `'1'` lines starting at `counter` after a `'0'` line adds exactly the list `counter .. counter+m-1`. Its last element plus one is `counter + m`, which is what `counter = value2[-1] + 1` steps to. |
| RunGrouping.FromBinToList | inst/ee_extra/ee_extra/JavaScript/translate_general.py:8-36 | For a binary string the loop's result is `BinToList(x)`, and flattening it gives `0, 1, ..., n-1`. |
| RunGrouping.GroupedFlattens | inst/ee_extra/ee_extra/JavaScript/translate_general.py:22-36 | Flattening the grouping of the first `n` lines gives every index `0..n-1` exactly once, in increasing order. |
| RunGrouping.BinToListShape | inst/ee_extra/ee_extra/JavaScript/translate_general.py:25-35 | Every bare index is a `'0'` line, and every list holds the consecutive positions of one maximal run of `'1'` lines. No two lists are adjacent, and the items end in increasing order with the last at line `n - 1`. |
| RunGrouping.GroupedAllZeros | inst/ee_extra/ee_extra/JavaScript/translate_general.py:28-31 | A string of zeros gives one bare index per line, `[0, 1, ..., n-1]`. |
| RunGrouping.BinToListAllOnes | inst/ee_extra/ee_extra/JavaScript/translate_general.py:32-35 | A non-empty string of ones gives the single list `[[0, ..., n-1]]`. |
| RunGrouping.BinToListDocExample | inst/ee_extra/ee_extra/JavaScript/translate_general.py:18-20 | `"001110101"` gives `[0, 1, [2, 3, 4], 5, [6], 7, [8]]`. It is proved for any string whose lines read `0 0 1 1 1 0 1 0 1`, then applied to the literal. |
| RunGrouping.BinToListOneLine | inst/ee_extra/ee_extra/JavaScript/translate_general.py:25-35 | `"0"` gives `[0]` and `"1"` gives `[[0]]`. |
| Braces.DeleteBrackets | inst/ee_extra/ee_extra/JavaScript/translate_general.py:106-133 | The loop over the characters returns `Balance(x)`, the text kept by the brace-counting scan. |
| Braces.ScanDepth | inst/ee_extra/ee_extra/JavaScript/translate_general.py:122-132 | After `n` characters, the counter is the number of `{` minus the number of `}` in the kept text. |
| Braces.ScanNeverNegative | inst/ee_extra/ee_extra/JavaScript/translate_general.py:122-132 | After `n` characters, no prefix of the kept text closes more braces than it opens. |
| Braces.ScanDeletesCloses | inst/ee_extra/ee_extra/JavaScript/translate_general.py:122-132 | After `n` characters, the kept text is the first `n` characters with some `}` characters deleted. |
| Braces.BalanceNeverNegative | inst/ee_extra/ee_extra/JavaScript/translate_general.py:122-133 | No prefix of the output has more `}` than `{`, and the output's depth is at least 0. |
| Braces.BalanceDeletesCloses | inst/ee_extra/ee_extra/JavaScript/translate_general.py:122-133 | The output is the input with some `}` characters deleted; every other character is kept, in order. |
| Braces.DeletesClosesCounts | inst/ee_extra/ee_extra/JavaScript/translate_general.py:122-133 | Deleting closing braces never lengthens the string. The number of characters removed equals the increase in depth, so only `}` characters go. |
| Braces.BalanceFixedPoints | inst/ee_extra/ee_extra/JavaScript/translate_general.py:118-133 | The input is returned unchanged if and only if none of its prefixes has more `}` than `{`. |
| Braces.BalanceIdempotent | inst/ee_extra/ee_extra/JavaScript/translate_general.py:106-133 | Applying `delete_brackets` twice gives the same result as applying it once. |
| Braces.ScanMinimalDepth | inst/ee_extra/ee_extra/JavaScript/translate_general.py:122-132 | Among all ways of deleting `}` from the text read so far that keep every prefix at depth 0 or more, none ends shallower than the scan. |
| Braces.BalanceLongest | inst/ee_extra/ee_extra/JavaScript/translate_general.py:106-133 | Only excess braces are removed: no other deletion of `}` characters that leaves every prefix balanced keeps a longer string. |
| Braces.BalanceDocExample | inst/ee_extra/ee_extra/JavaScript/translate_general.py:109-120 | `"obj={'b':'a'}}"` becomes `"obj={'b':'a'}"`. |
| Braces.BalanceSmallExamples | inst/ee_extra/ee_extra/JavaScript/translate_general.py:122-132 | `"}"` becomes `""`, `"a}}b"` becomes `"ab"` and `"}{}"` becomes `"{}"`. |
| Braces.BalanceNestedExample | inst/ee_extra/ee_extra/JavaScript/translate_general.py:122-132 | The nested, balanced `"{a{b}c}"` is unchanged. |
| BoundaryGroups.RunStart | inst/ee_extra/ee_extra/JavaScript/translate_general.py:155-160 | The start of the block containing line `k`: every line from it to `k` is non-`'0'`, and it is line 0 or follows a `'0'`. `subgroups_creator_bef` sets `start` to one less than this (:157) and `subgroups_creator_aft` sets it to this (:190). |
| BoundaryGroups.SubgroupsCreatorBef | inst/ee_extra/ee_extra/JavaScript/translate_general.py:136-168 | The loop over `onecounter`/`start`/`end` returns `Bef(groups)`, the emissions of all lines in order. |
| BoundaryGroups.SubgroupsCreatorAft | inst/ee_extra/ee_extra/JavaScript/translate_general.py:171-201 | The loop returns `Aft(groups)`, which is `0` followed by the emissions of all lines in order. |
| BoundaryGroups.BefFlatten | inst/ee_extra/ee_extra/JavaScript/translate_general.py:145-168 | Flattening the `bef` result gives each index from -1 (for a leading block) or 0 up to `n - 1` exactly once, in increasing order. For the empty string, or one starting with `'0'`, that is `0..n-1`. |
| BoundaryGroups.AftFlatten | inst/ee_extra/ee_extra/JavaScript/translate_general.py:180-201 | Flattening the `aft` result gives its leading 0, then each index from `AftLow` up to but excluding `AftEnd` exactly once, in increasing order. A trailing block makes `AftEnd` equal to `n + 1`, so its list ends with the index `n`, one past the last line, as the source's `range(start, end + 1)` with `end = index + 1` gives (:191, :193, :200). For a string that starts and ends with `'0'` that is exactly `0..n-1`, and the empty string gives `[0]`. |
| BoundaryGroups.BefMembers | inst/ee_extra/ee_extra/JavaScript/translate_general.py:145-167 | `k` is a bare index of the `bef` result if and only if line `k` is a `'0'` that is last or followed by `'0'`. Each maximal block `s..e` appears as the list `s-1..e`, and every list is such a block. |
| BoundaryGroups.AftMembers | inst/ee_extra/ee_extra/JavaScript/translate_general.py:180-201 | The `aft` result starts with 0. `j` is a bare index if and only if `j = 0` or lines `j-1` and `j` are both `'0'`. Each maximal block `s..e` appears as the list `s..e+1`, and every list is such a block. |
| BoundaryGroups.MaximalRunAt | inst/ee_extra/ee_extra/JavaScript/translate_general.py:145-167 | Lines `s..e` are a maximal block if and only if line `e` is non-`'0'`, is last or followed by `'0'`, and its block starts at `s`. |
| BoundaryGroups.BoundaryExamples | inst/ee_extra/ee_extra/JavaScript/translate_general.py:136-201 | `bef("0110") = [[0,1,2], 3]`, `aft("0110") = [0, [1,2,3]]`, `bef("1") = [[-1,0]]`, `aft("00") = [0, 1]`, `aft("") = [0]`. |
| SpectralUtils.FindFrom | inst/ee_extra/ee_extra/Spectral/utils.py:138-143 | Looking a key up in a dictionary literal: `None` exactly when no entry has the key, otherwise the value of an entry with that key. |
| SpectralUtils.ExpressionMapSpec | inst/ee_extra/ee_extra/Spectral/utils.py:112-143 | The function raises exactly when the dictionary has no `"platform"` (a `KeyError`) or the platform is not in `lookupPlatform`. Otherwise it returns the selections of the band table of the platform's entry. |
| SpectralUtils.DistinctPlatforms | inst/ee_extra/ee_extra/Spectral/utils.py:112-136 | No platform appears twice among the keys of `lookupPlatform`. |
| SpectralUtils.ExpressionMapAt | inst/ee_extra/ee_extra/Spectral/utils.py:112-143 | A platform whose first entry in `lookupPlatform` is entry `i` gets the selections of that entry's band table. |
| SpectralUtils.ExpressionMapSentinel2 | inst/ee_extra/ee_extra/Spectral/utils.py:27-40 | Both `COPERNICUS/S2` and `COPERNICUS/S2_SR` use the Sentinel-2 table, which maps `N` to band `B8`. |
| SpectralUtils.ExpressionMapModis | inst/ee_extra/ee_extra/Spectral/utils.py:112-143 | `MODIS/006/MOD09GQ` gets the selections of the `lookupMOD09GQ` table. |
| SpectralUtils.ModisBandsRedNir | inst/ee_extra/ee_extra/Spectral/utils.py:89-90 | The `lookupMOD09GQ` table has exactly the keys `R` and `N`. |
| SpectralUtils.ExpressionMapUnsupported | inst/ee_extra/ee_extra/Spectral/utils.py:138-141 | A platform without a band table, such as `LANDSAT/LC08/C01/T1_TOA`, raises. |
| SpectralUtils.EachBandTableHasRedNir | inst/ee_extra/ee_extra/Spectral/utils.py:26-110 | Each of the eight band tables has `R` and `N` and none has `L`. |
| SpectralUtils.BandTablesCoverRedAndNir | inst/ee_extra/ee_extra/Spectral/utils.py:112-143 | Every platform's table, and so every expression map, has red and near infrared and no `L`. |
| SpectralUtils.KernelImageSpec | inst/ee_extra/ee_extra/Spectral/utils.py:182-195 | The kernel image is `None` exactly when `a` or `b` is not a key of `lookup`. With both present it raises `KeyError(kernel)` exactly for a kernel outside `linear`/`RBF`/`poly`. |
| SpectralUtils.KernelDictSpec | inst/ee_extra/ee_extra/Spectral/utils.py:228-245 | Building the kernel dictionary raises `KeyError(kernel)` exactly when the kernel is unknown and some entry has both of its bands. Otherwise it is built. |
| SpectralUtils.KernelDictKeys | inst/ee_extra/ee_extra/Spectral/utils.py:228-245 | A built kernel dictionary has exactly the entries' keys. |
| SpectralUtils.KernelDictEntry | inst/ee_extra/ee_extra/Spectral/utils.py:228-243 | Each key of the built dictionary holds the kernel image of its entry's two bands. |
| SpectralUtils.KernelParametersWithoutL | inst/ee_extra/ee_extra/Spectral/utils.py:228-243 | Without an `L` band, `kNL`, `kBL`, `kRL` and `kLL` are `None`. This is the case for every expression map. |
| SpectralUtils.WithoutNone | inst/ee_extra/ee_extra/Spectral/utils.py:207-211 | The filtered dictionary holds no `None` value. |
| SpectralUtils.RemoveNoneDict | inst/ee_extra/ee_extra/Spectral/utils.py:198-211 | The loop that copies the dictionary and deletes each key with a `None` value, in any key order, returns `WithoutNone(dictionary)`. |
| SpectralUtils.WithoutNoneSpec | inst/ee_extra/ee_extra/Spectral/utils.py:207-211 | A key is kept if and only if its value is not `None`, with its original value. No new key appears and no `None` remains. |
| SpectralUtils.WithoutNoneIdempotent | inst/ee_extra/ee_extra/Spectral/utils.py:207-211 | Filtering twice gives the same result as filtering once. |
| SpectralUtils.WithoutNoneLargest | inst/ee_extra/ee_extra/Spectral/utils.py:207-211 | Every part of the argument that has no `None` value is contained in the result. |
| SpectralUtils.EachTcTableAligned | inst/ee_extra/ee_extra/Spectral/utils.py:301-412 | In each of the seven tables, `bands`, `TCB`, `TCG` and `TCW` have the same length. The Sentinel-2 table has 13 bands. |
| SpectralUtils.TcCoefficientsSpec | inst/ee_extra/ee_extra/Spectral/utils.py:414-439 | The function raises exactly when the dictionary has no `"platform"` or the platform is not in `platformCoeffs`. Otherwise it returns the table of the platform's entry, whose bands and coefficients line up. |
| SpectralUtils.DistinctCoeffPlatforms | inst/ee_extra/ee_extra/Spectral/utils.py:414-429 | No platform appears twice among the keys of `platformCoeffs`. |
| SpectralUtils.TcCoefficientsExamples | inst/ee_extra/ee_extra/Spectral/utils.py:252-255 | Matching is strict. `COPERNICUS/S2` gets the level-1C table, while `COPERNICUS/S2_SR` and the surface-reflectance `LANDSAT/LC08/C01/T1_SR` get none. |

## Left out

- `var_remove` (translate_general.py:58-103): it depends on a regular-expression helper from another file and on Python's keyword list. That file is not part of this model.
- `_get_indices` (utils.py:146-163): it fetches JSON over the network or from a file.
- `_match_histogram` (utils.py:442-559): it consists of Earth Engine server-side array and histogram calls in floating point.
- `__init__.py`: it holds only a version string and re-exports.
- What `img.select` and `img.expression` compute. Images are opaque and these calls are recorded, not evaluated.
- The exception texts. "Platform not supported" is `UnsupportedPlatform(platform)`. The tasseled-cap message's list of supported platforms is not modelled.
- RunGrouping.FromBinToList: it requires a `'0'`/`'1'` string. `int()` raises on non-digits, and digits 2-9 are not modelled.
- RunGrouping.YieldSubgroups: `subgroup_test` is fixed to string concatenation, the only test its caller passes. The fill value `0` of `zip_longest` appears as its `str`, `'0'`. The result is collected into a list instead of being yielded lazily.
- SpectralUtils.TcCoefficients: the coefficients are exact integers in ten-thousandths rather than Python floats.
- SpectralUtils.KernelImage: `sigma` as a number is carried as a `real`. `img.expression(sigma, lookupab)` is recorded rather than evaluated.
- SpectralUtils.ExpressionMap: the platform dictionary is a `map<string, string>`; only its `"platform"` entry is read.
