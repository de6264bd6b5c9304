# caer utility helpers: the decision logic, verified

This project models the decision logic in `caer/utils.py` from the caer image-classification
toolkit. Underneath the OpenCV, NumPy and matplotlib calls, five helpers make decisions
that can be stated exactly, and the model covers each of them:

- `_check_size` decides whether a target-size value is acceptable. If it is not, it names
  the first check that failed.
- `load_img` runs four argument checks in a fixed order, then picks the image steps:
  grayscale, resize, RGB swap.
- `get_classes_from_dir` rejects an empty directory listing. Otherwise it returns the
  listing unchanged.
- `saveNumpy` picks `.npy`, `.npz` or nothing, based on substrings of the file name.
- `sort_dict` checks its flag, then stable-sorts a dict's items by value.

Python's dynamic typing is represented by a small tagged value type, `PyValue.PyValue`
(None, bool, int, tuple, list, other). This is enough to state the `type(...) is`,
`isinstance`, `len` and `< 0` tests the helpers make. Image decoding and the OpenCV
conversions are opaque: `load_img` returns the list of steps it would apply to the
decoded image. The file's existence and the directory listing are inputs. `saveNumpy`
returns the format it would write.

Files:
- `results.dfy` holds the `Option`, `Outcome` and `Result` types. A call that raises is
  modelled as an error value.
- `pyvalue.dfy` holds the Python value model and Python's `v < 0`.
- `pystr.dfy` holds Python's `needle in haystack` on strings, proved against a
  declarative definition of "occurs".
- `pysorted.dfy` models Python's `sorted(items, key=lambda x: x[1], reverse=...)` as an
  insertion sort. It is proved to return a permutation that is ordered and stable, and
  to be the only arrangement with all three properties. It also agrees with CPython's
  way of implementing `reverse=True`.
- `utils.dfy` holds the five helpers.

Where the code and its description differ, the model follows the code:
- `load_img` accepts `channels` only when it is the int 0 or 1. The docstring and the
  error message say 1 or 3.
- The default `target_size=None` always fails `load_img`'s tuple check.
- A target size that `_check_size` rejects makes `load_img` raise. No `try`/`except`
  catches that exception, so the resize is never silently skipped.
- With `descending=True`, `sort_dict` does not return the ascending result reversed
  when there are ties. Equal values keep their insertion order in both directions
  (`Utils.SortDictTiesAndErrors`).

## Model

| member | source | states |
|---|---|---|
| `Utils.Message` | caer/utils.py:25-103 | each exception's text names the argument or condition at fault: the file path, `target_size`, `channels`, `swapRB`, `Size`, `>= 0`, `'<'`, the directory, `descending` |
| `Utils.MessageIdentifiesError` | caer/utils.py:25-103 | no two exceptions carry the same text, so the text tells which check failed |
| `PyValue.LessThanZero` | caer/utils.py:62 | Python's `d < 0` gives an answer exactly for ints and bools, is True exactly for a negative int, and raises TypeError for every other value |
| `Utils.CheckSize` | caer/utils.py:51-65 | passes iff the value is a list or tuple of two non-negative numbers; otherwise the reason follows the check order: not a sequence, then wrong length, then the first bad dimension decides between negative and not comparable |
| `Utils.Pipeline` | caer/utils.py:41-46 | the steps come in the order grayscale, resize, RGB swap, each at most once; grayscale is present iff requested, and so is the swap; a resize is present iff one is requested, and it carries the requested size |
| `Utils.LoadImg` | caer/utils.py:15-48 | the checks run in the order path exists, 2-tuple, channels int in {0,1}, swapRB bool, and the first one violated decides the error; if `_check_size` then raises, that error propagates; on success the steps are strictly in pipeline order, grayscale iff `channels == 1`, the resize to `target_size` always, the RGB swap iff `swapRB` |
| `Utils.LoadImgDefaultsAlwaysFail` | caer/utils.py:27-28 | with the default arguments `load_img` always raises, and `TargetSizeNotPair` is the error whenever the path exists |
| `Utils.LoadImgRejectsThreeChannels` | caer/utils.py:30-31 | `channels=3` is rejected for every 2-tuple target size |
| `Utils.LoadImgAcceptsZeroChannels` | caer/utils.py:30-46 | `channels=0` is accepted and yields resize then RGB swap, with no grayscale step |
| `Utils.LoadImgNegativeSizeRaises` | caer/utils.py:43-44 | a negative width raises through `_check_size` rather than skipping the resize |
| `Utils.LoadImgUsesExactTypes` | caer/utils.py:27-31 | a list that `_check_size` accepts is still refused as `target_size`, and `True` is refused as `channels` |
| `Utils.LoadImgIntended` | caer/utils.py:15-48 | corrected `load_img`: the same checks in the same order, except that `None` or a 2-tuple target size and channels 1 or 3 are accepted; each error arises exactly when the checks before it pass and its own fails; a `_check_size` error carries `_check_size`'s reason; on success the steps are in pipeline order, grayscale iff `channels == 1`, the RGB swap iff `swapRB`, and a resize to `target_size` present iff `target_size` is not None |
| `Utils.LoadImgIntendedAcceptsDocumentedArguments` | caer/utils.py:15-22 | under the corrected checks, the defaults give grayscale then RGB swap, `channels=3` is accepted and `channels=0` is rejected |
| `PyStr.Contains` | caer/utils.py:83-85 | Python's `needle in haystack` is True iff the needle occurs at some position of the haystack |
| `Utils.SaveNumpy` | caer/utils.py:76-86 | `Npy` iff the name contains `.npy`; `Npz` iff it contains `.npz` but not `.npy`; `Nothing` iff it contains neither |
| `Utils.SaveNumpyPrefersNpy` | caer/utils.py:83-84 | `out.npy` gives `Npy`, and so does a name containing both markers in either order |
| `Utils.SaveNumpyNpz` | caer/utils.py:85-86 | `out.npz` gives `Npz` |
| `Utils.SaveNumpyNothing` | caer/utils.py:83-86 | `out.txt` gives `Nothing`: no file is written and no error is raised |
| `Utils.GetClassesFromDir` | caer/utils.py:68-73 | fails, with the empty-directory error, iff the listing is empty; otherwise it returns the listing unchanged, in order |
| `Utils.SortDict` | caer/utils.py:98-104 | a non-bool `descending` is rejected before sorting; otherwise the result is a permutation of the items with distinct keys, ordered by value in the requested direction, with equal values kept in insertion order |
| `Utils.SortDictExample` | caer/utils.py:104 | `{"a":3,"b":1,"c":2}` sorts to `[("b",1),("c",2),("a",3)]` ascending and to `[("a",3),("c",2),("b",1)]` descending |
| `Utils.SortDictTiesAndErrors` | caer/utils.py:102-104 | a tie keeps insertion order in both directions, and a non-bool flag raises |
| `PySorted.SortByValue` | caer/utils.py:104 | `sorted(items, key=lambda x: x[1], reverse=...)` returns a permutation (same multiset) of the items, non-decreasing by value, or non-increasing when `reverse` |
| `PySorted.SortIsStable` | caer/utils.py:104 | for every value, the items carrying it appear in the result in their original order |
| `PySorted.SortKeepsKeysDistinct` | caer/utils.py:104 | sorting a dict's items never repeats a key |
| `PySorted.SortCorrect` | caer/utils.py:104 | the facts above together: permutation, ordered, stable, and distinct keys kept distinct |
| `PySorted.OrderedStablePermutationIsUnique` | caer/utils.py:104 | two arrangements that are both ordered in one direction, stable with respect to each other and permutations of each other are equal, so the three properties determine `sorted`'s result |
| `PySorted.DescendingIsReversedAscendingOfReversed` | caer/utils.py:104 | the descending stable sort equals reversing the input, sorting it ascending and reversing the result, which is how CPython implements `reverse=True` |

## Findings

| source | as written | input that shows it | evidently intended | confidence | as-written member | corrected member |
|---|---|---|---|---|---|---|
| caer/utils.py:30 | `channels not in [0,1]` accepts 0 and 1 only | `load_img(p, (224, 224), channels=3)` with an existing path raises "channels must be an integer - 1 (Grayscale) or 3 (RGB)" | accept 1 or 3, as the docstring (line 21) and the message say | high; not executed | `Utils.LoadImgRejectsThreeChannels` | `Utils.LoadImgIntended` |
| caer/utils.py:27 | `type(target_size) is not tuple` rejects the default `None` | `load_img(p)` with an existing path and all defaults raises "target_size must be a tuple of size 2" | `None` means no resize, as the guard `target_size is not None` on line 43 expects | high; not executed | `Utils.LoadImgDefaultsAlwaysFail` | `Utils.LoadImgIntended` |

`Utils.LoadImg` stays the model of the code as written. `Utils.LoadImgIntended` states the
corrected behaviour, and `Utils.LoadImgIntendedAcceptsDocumentedArguments` proves the
documented calls succeed under it.

## Left out

- Image work: `_read_image`, `cv.cvtColor`, `cv.resize` and `to_rgb` come from modules that
  are not part of this model. They appear only as the named steps `Grayscale`, `Resize`
  and `SwapToRgb`, and none of them can fail in the model. In the program they can:
  `_read_image` may fail to decode the file or return None, `cv.cvtColor` and `to_rgb`
  raise on None or on an image that is not BGR, and `cv.resize` (caer/utils.py:44)
  rejects an empty size.
- `Utils.LoadImg`: an `Ok` result means the argument checks passed and names the steps
  that would run. It does not mean `load_img` returns. For example, `_check_size` accepts
  `(0, 224)`, so `LoadImg(true, PyTuple([PyInt(0), PyInt(224)]), PyInt(1), PyBool(true))`
  is `Ok`, but `load_img(p, (0, 224))` raises inside `cv.resize`. The same holds for
  `Utils.LoadImgIntended`.
- Filesystem access: `os.path.exists`, `os.listdir`, `np.save` and `np.savez_compressed` are
  I/O. The existence flag and the listing are inputs, and the save format is returned
  instead of written.
- `np.array(data)` in `saveNumpy` is not modelled. It runs before the dispatch and can
  raise for data NumPy cannot convert. NumPy's habit of appending `.npy` or `.npz` to
  a name that does not end with it is also not modelled.
- `Utils.GetClassesFromDir`: the source calls `os.listdir` twice, once for the emptiness
  test and once for the result. The model takes a single listing, so a directory that
  changes between the two calls is not covered.
- `train_val_split` only passes its arguments to `train_test_split` in `caer/_split.py`,
  which is not part of this model.
- `plotAcc` only draws matplotlib charts of floating-point histories. It is a pure side
  effect.
- Python values beyond the six tags are not modelled: floats, subclasses of `tuple` or
  `int`, and objects with their own comparison operators. `PyOther` stands for any value
  that `<` cannot order against an int. `saveNumpy`'s name is always a `str`.
- `Utils.SortDict`: dict values are integers. Python would compare values of other types
  with their own `<`, or raise TypeError for values that cannot be ordered.
- The text of the TypeError raised by `<` is abbreviated in `Utils.Message`. The exact
  wording depends on the operand types.
