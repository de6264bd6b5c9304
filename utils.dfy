/** The decision logic of caer's utility helpers: argument validation for image loading,
    the order of the image steps, size checking, class listing, the save-format choice
    and sorting a dict by value. Image decoding, the OpenCV conversions and file I/O are
    not modelled: a file's existence and a directory's listing are inputs, and the image
    steps are named, not performed. */
module Utils {
  import opened Results
  import opened PyValue
  import PyStr
  import PySorted

  /** The exceptions the helpers raise. All are ValueError except `BadSize(Incomparable)`,
      the TypeError Python's `<` raises when a dimension is not a number. */
  datatype Error =
    | PathMissing
    | TargetSizeNotPair
    | ChannelsInvalid
    | SwapRBNotBool
    | BadSize(reason: SizeError)
    | DirectoryEmpty
    | DescendingNotBool

  /** Why `_check_size` rejected a value. */
  datatype SizeError = NotSequence | WrongLength | NegativeDimension | Incomparable

  /** The text each exception carries, written as the word it names and the text around it.
      Each names the argument or the condition at fault, and no two errors share a text, so
      the message alone tells the caller which check failed (`MessageIdentifiesError`). */
  function Message(e: Error): (r: string)
    ensures e == PathMissing ==> PyStr.Occurs("filepath", r)
    ensures e == TargetSizeNotPair ==> PyStr.Occurs("target_size", r)
    ensures e == ChannelsInvalid ==> PyStr.Occurs("channels", r)
    ensures e == SwapRBNotBool ==> PyStr.Occurs("swapRB", r)
    ensures e == BadSize(NotSequence) || e == BadSize(WrongLength) ==> PyStr.Occurs("Size", r)
    ensures e == BadSize(NegativeDimension) ==> PyStr.Occurs(">= 0", r)
    ensures e == BadSize(Incomparable) ==> PyStr.Occurs("'<'", r)
    ensures e == DirectoryEmpty ==> PyStr.Occurs("directory", r)
    ensures e == DescendingNotBool ==> PyStr.Occurs("descending", r)
  {
    match e
    case PathMissing =>
      PyStr.OccursBetween("Specified ", "filepath", " does not exist");
      "Specified " + "filepath" + " does not exist"
    case TargetSizeNotPair =>
      PyStr.OccursAtFront("target_size", " must be a tuple of size 2 (width,height");
      "target_size" + " must be a tuple of size 2 (width,height"
    case ChannelsInvalid =>
      PyStr.OccursAtFront("channels", " must be an integer - 1 (Grayscale) or 3 (RGB)");
      "channels" + " must be an integer - 1 (Grayscale) or 3 (RGB)"
    case SwapRBNotBool =>
      PyStr.OccursAtFront("swapRB", " must be a boolean");
      "swapRB" + " must be a boolean"
    case BadSize(NotSequence) =>
      PyStr.OccursAtFront("Size", " must be a tuple");
      "Size" + " must be a tuple"
    case BadSize(WrongLength) =>
      PyStr.OccursAtFront("Size", " must be a tuple of length 2");
      "Size" + " must be a tuple of length 2"
    case BadSize(NegativeDimension) =>
      PyStr.OccursAtEnd("Width and height must be ", ">= 0");
      "Width and height must be " + ">= 0"
    case BadSize(Incomparable) =>
      PyStr.OccursAtFront("'<'", " not supported between instances");
      "'<'" + " not supported between instances"
    case DirectoryEmpty =>
      PyStr.OccursBetween("The specified ", "directory", " does not seem to have any folders in it");
      "The specified " + "directory" + " does not seem to have any folders in it"
    case DescendingNotBool =>
      PyStr.OccursBetween("`", "descending", "` must be a boolean");
      "`" + "descending" + "` must be a boolean"
  }

  /** The length of each text; no two are equal. */
  ghost function MessageLength(e: Error): nat {
    match e
    case PathMissing => 33
    case TargetSizeNotPair => 51
    case ChannelsInvalid => 54
    case SwapRBNotBool => 24
    case BadSize(NotSequence) => 20
    case BadSize(WrongLength) => 32
    case BadSize(NegativeDimension) => 29
    case BadSize(Incomparable) => 35
    case DirectoryEmpty => 63
    case DescendingNotBool => 30
  }

  /** The length table agrees with the texts. */
  lemma LengthOfMessage(e: Error)
    ensures |Message(e)| == MessageLength(e)
  {
  }

  /** Distinct errors carry distinct texts, so the text alone tells which check failed. */
  lemma MessageIdentifiesError(e1: Error, e2: Error)
    ensures Message(e1) == Message(e2) ==> e1 == e2
  {
    LengthOfMessage(e1);
    LengthOfMessage(e2);
  }

  // ---------------------------------------------------------------------------
  // _check_size

  /** A dimension Python can order against 0: an int, or a bool (which counts as 0 or 1). */
  predicate IsNumber(v: PyValue) {
    v.PyInt? || v.PyBool?
  }

  predicate IsNonNegativeNumber(v: PyValue) {
    IsNumber(v) && !(v.PyInt? && v.i < 0)
  }

  /** What `_check_size` accepts: a list or tuple of two non-negative numbers. */
  ghost predicate ValidSize(size: PyValue) {
    && IsListOrTuple(size)
    && |size.items| == 2
    && forall k :: 0 <= k < 2 ==> IsNonNegativeNumber(size.items[k])
  }

  /** `_check_size(size)`: passes on a list or tuple of two non-negative numbers. Otherwise
      the reason follows the order of the checks: not a sequence, then wrong length, then
      the first dimension that is not a non-negative number decides between a negative
      int and a value `<` cannot compare. */
  function CheckSize(size: PyValue): (r: Outcome<SizeError>)
    ensures r.Pass? <==> ValidSize(size)
    ensures r == Fail(NotSequence) <==> !IsListOrTuple(size)
    ensures r == Fail(WrongLength) <==> IsListOrTuple(size) && |size.items| != 2
    ensures r == Fail(NegativeDimension) <==>
      && IsListOrTuple(size) && |size.items| == 2
      && exists k :: 0 <= k < 2 && size.items[k].PyInt? && size.items[k].i < 0
                     && forall j :: 0 <= j < k ==> IsNonNegativeNumber(size.items[j])
    ensures r == Fail(Incomparable) <==>
      && IsListOrTuple(size) && |size.items| == 2
      && exists k :: 0 <= k < 2 && !IsNumber(size.items[k])
                     && forall j :: 0 <= j < k ==> IsNonNegativeNumber(size.items[j])
  {
    if !IsListOrTuple(size) then
      Fail(NotSequence)
    else if |size.items| != 2 then
      Fail(WrongLength)
    else
      // `size[0] < 0 or size[1] < 0` evaluates left to right and stops at the first True
      var first := LessThanZero(size.items[0]);
      if first.None? then Fail(Incomparable)
      else if first.value then Fail(NegativeDimension)
      else
        var second := LessThanZero(size.items[1]);
        if second.None? then Fail(Incomparable)
        else if second.value then Fail(NegativeDimension)
        else Pass
  }

  // ---------------------------------------------------------------------------
  // load_img

  /** An image operation `load_img` applies after decoding the file. */
  datatype Step =
    | Grayscale                               // cv.cvtColor(..., COLOR_BGR2GRAY)
    | Resize(width: PyValue, height: PyValue) // cv.resize(..., target_size)
    | SwapToRgb                               // to_rgb(...)

  /** Position of each step in the fixed pipeline. */
  function Rank(s: Step): nat {
    match s
    case Grayscale => 0
    case Resize(_, _) => 1
    case SwapToRgb => 2
  }

  /** `type(v) is tuple and len(v) == 2` */
  predicate IsPair(v: PyValue) {
    v.PyTuple? && |v.items| == 2
  }

  /** `type(c) is int and c in [0, 1]`: a bool is not accepted, and neither is 3. */
  predicate ChannelsAccepted(c: PyValue) {
    c == PyInt(0) || c == PyInt(1)
  }

  /** The steps applied to the decoded image, given which of them are switched on. Each
      appears at most once, in the fixed order grayscale, resize, RGB swap. */
  function Pipeline(gray: bool, resize: Option<(PyValue, PyValue)>, swap: bool): (steps: seq<Step>)
    ensures forall i, j :: 0 <= i < j < |steps| ==> Rank(steps[i]) < Rank(steps[j])
    ensures Grayscale in steps <==> gray
    ensures SwapToRgb in steps <==> swap
    ensures resize.Some? ==> Resize(resize.value.0, resize.value.1) in steps
    ensures forall i :: 0 <= i < |steps| && steps[i].Resize? ==>
              resize == Some((steps[i].width, steps[i].height))
  {
    match resize
    case None =>
      if gray && swap then [Grayscale, SwapToRgb]
      else if gray then [Grayscale]
      else if swap then [SwapToRgb]
      else []
    case Some((w, h)) =>
      if gray && swap then [Grayscale, Resize(w, h), SwapToRgb]
      else if gray then [Grayscale, Resize(w, h)]
      else if swap then [Resize(w, h), SwapToRgb]
      else [Resize(w, h)]
  }

  /** `load_img(image_path, target_size, channels, swapRB)`, with `pathExists` standing for
      `os.path.exists(image_path)`. The four argument checks run in order and the first
      that fails decides the error; after them `_check_size` may still raise. On success
      the result lists the steps applied to the decoded image, in pipeline order:
      grayscale iff `channels == 1`, always the resize to `target_size`, and the RGB swap
      iff `swapRB`. */
  function LoadImg(pathExists: bool, targetSize: PyValue, channels: PyValue, swapRB: PyValue)
    : (r: Result<seq<Step>, Error>)
    ensures r == Err(PathMissing) <==> !pathExists
    ensures r == Err(TargetSizeNotPair) <==> pathExists && !IsPair(targetSize)
    ensures r == Err(ChannelsInvalid) <==>
      pathExists && IsPair(targetSize) && !ChannelsAccepted(channels)
    ensures r == Err(SwapRBNotBool) <==>
      pathExists && IsPair(targetSize) && ChannelsAccepted(channels) && !swapRB.PyBool?
    ensures r.Err? && r.error.BadSize? <==>
      pathExists && IsPair(targetSize) && ChannelsAccepted(channels) && swapRB.PyBool?
      && !ValidSize(targetSize)
    ensures r.Err? && r.error.BadSize? ==>
      CheckSize(targetSize) == Fail(r.error.reason)
      && (r.error.reason == NegativeDimension || r.error.reason == Incomparable)
    ensures r.Ok? <==>
      pathExists && IsPair(targetSize) && ChannelsAccepted(channels) && swapRB.PyBool?
      && ValidSize(targetSize)
    ensures r.Ok? ==> forall i, j :: 0 <= i < j < |r.value| ==> Rank(r.value[i]) < Rank(r.value[j])
    ensures r.Ok? ==> (Grayscale in r.value <==> channels == PyInt(1))
    ensures r.Ok? ==> IsPair(targetSize) && Resize(targetSize.items[0], targetSize.items[1]) in r.value
    ensures r.Ok? ==> (SwapToRgb in r.value <==> swapRB == PyBool(true))
  {
    if !pathExists then
      Err(PathMissing)
    else if !IsPair(targetSize) then
      Err(TargetSizeNotPair)
    else if !ChannelsAccepted(channels) then
      Err(ChannelsInvalid)
    else if !swapRB.PyBool? then
      Err(SwapRBNotBool)
    else
      // `target_size is not None` always holds here, since the tuple check passed;
      // `_check_size` either returns True or raises, and nothing catches the exception
      match CheckSize(targetSize)
      case Fail(reason) => Err(BadSize(reason))
      case Pass =>
        Ok(Pipeline(channels == PyInt(1), Some((targetSize.items[0], targetSize.items[1])), swapRB.b))
  }

  /** The default arguments (`target_size=None, channels=1, swapRB=True`) can never succeed:
      None fails the tuple check. */
  lemma LoadImgDefaultsAlwaysFail(pathExists: bool)
    ensures LoadImg(pathExists, PyNone, PyInt(1), PyBool(true)).Err?
    ensures pathExists ==> LoadImg(pathExists, PyNone, PyInt(1), PyBool(true)) == Err(TargetSizeNotPair)
  {
  }

  /** `channels=3`, which the docstring and the message offer, is rejected whenever the
      earlier checks pass. */
  lemma LoadImgRejectsThreeChannels(targetSize: PyValue, swapRB: PyValue)
    requires IsPair(targetSize)
    ensures LoadImg(true, targetSize, PyInt(3), swapRB) == Err(ChannelsInvalid)
  {
  }

  /** `channels=0` passes the check and leaves the image in colour. */
  lemma LoadImgAcceptsZeroChannels()
    ensures LoadImg(true, PyTuple([PyInt(224), PyInt(224)]), PyInt(0), PyBool(true))
            == Ok([Resize(PyInt(224), PyInt(224)), SwapToRgb])
  {
    assert CheckSize(PyTuple([PyInt(224), PyInt(224)])) == Pass;
  }

  /** A negative dimension raises through `_check_size`; it does not skip the resize. */
  lemma LoadImgNegativeSizeRaises(channels: PyValue, swapRB: bool)
    requires ChannelsAccepted(channels)
    ensures LoadImg(true, PyTuple([PyInt(-1), PyInt(5)]), channels, PyBool(swapRB))
            == Err(BadSize(NegativeDimension))
  {
  }

  /** A list or a bool channel count is refused even though `_check_size` would accept the
      list and `True == 1` in Python. */
  lemma LoadImgUsesExactTypes(swapRB: bool)
    ensures CheckSize(PyList([PyInt(3), PyInt(4)])) == Pass
    ensures LoadImg(true, PyList([PyInt(3), PyInt(4)]), PyInt(1), PyBool(swapRB)) == Err(TargetSizeNotPair)
    ensures LoadImg(true, PyTuple([PyInt(3), PyInt(4)]), PyBool(true), PyBool(swapRB)) == Err(ChannelsInvalid)
  {
  }

  /** `type(c) is int and c in [1, 3]`, the channel counts the docstring and the message name. */
  predicate ChannelsIntended(c: PyValue) {
    c == PyInt(1) || c == PyInt(3)
  }

  /** `load_img` as its docstring and its `target_size is not None` guard describe it:
      `target_size` may be None (no resize) or a 2-tuple, and `channels` is 1 or 3. The
      order of the checks, the steps and their order are those of `LoadImg`. */
  function LoadImgIntended(pathExists: bool, targetSize: PyValue, channels: PyValue, swapRB: PyValue)
    : (r: Result<seq<Step>, Error>)
    ensures r == Err(PathMissing) <==> !pathExists
    ensures r == Err(TargetSizeNotPair) <==> pathExists && !(targetSize == PyNone || IsPair(targetSize))
    ensures r == Err(ChannelsInvalid) <==>
      pathExists && (targetSize == PyNone || IsPair(targetSize)) && !ChannelsIntended(channels)
    ensures r.Ok? <==>
      pathExists && (targetSize == PyNone || (IsPair(targetSize) && ValidSize(targetSize)))
      && ChannelsIntended(channels) && swapRB.PyBool?
    ensures r == Err(SwapRBNotBool) <==>
      pathExists && (targetSize == PyNone || IsPair(targetSize)) && ChannelsIntended(channels)
      && !swapRB.PyBool?
    ensures r.Err? && r.error.BadSize? <==>
      pathExists && IsPair(targetSize) && ChannelsIntended(channels) && swapRB.PyBool?
      && !ValidSize(targetSize)
    ensures r.Err? && r.error.BadSize? ==> CheckSize(targetSize) == Fail(r.error.reason)
    ensures r.Ok? ==> forall i, j :: 0 <= i < j < |r.value| ==> Rank(r.value[i]) < Rank(r.value[j])
    ensures r.Ok? ==> (Grayscale in r.value <==> channels == PyInt(1))
    ensures r.Ok? && targetSize != PyNone ==> Resize(targetSize.items[0], targetSize.items[1]) in r.value
    ensures r.Ok? ==> (targetSize == PyNone <==> forall i :: 0 <= i < |r.value| ==> !r.value[i].Resize?)
    ensures r.Ok? ==> (SwapToRgb in r.value <==> swapRB == PyBool(true))
  {
    if !pathExists then
      Err(PathMissing)
    else if !(targetSize == PyNone || IsPair(targetSize)) then
      Err(TargetSizeNotPair)
    else if !ChannelsIntended(channels) then
      Err(ChannelsInvalid)
    else if !swapRB.PyBool? then
      Err(SwapRBNotBool)
    else
      if targetSize == PyNone then
        Ok(Pipeline(channels == PyInt(1), None, swapRB.b))
      else
        match CheckSize(targetSize)
        case Fail(reason) => Err(BadSize(reason))
        case Pass =>
          Ok(Pipeline(channels == PyInt(1), Some((targetSize.items[0], targetSize.items[1])), swapRB.b))
  }

  /** With the intended checks the defaults load a grayscale, RGB-ordered image, and
      `channels=3` is accepted while `channels=0` is not. */
  lemma LoadImgIntendedAcceptsDocumentedArguments(targetSize: PyValue)
    requires IsPair(targetSize)
    ensures LoadImgIntended(true, PyNone, PyInt(1), PyBool(true)) == Ok([Grayscale, SwapToRgb])
    ensures LoadImgIntended(true, PyNone, PyInt(3), PyBool(false)) == Ok([])
    ensures LoadImgIntended(true, targetSize, PyInt(0), PyBool(true)) == Err(ChannelsInvalid)
  {
    assert [Grayscale] + [SwapToRgb] == [Grayscale, SwapToRgb];
  }

  // ---------------------------------------------------------------------------
  // get_classes_from_dir

  /** `get_classes_from_dir(DIR)`, with `listing` standing for `os.listdir(DIR)`: raises on an
      empty directory and otherwise returns every entry, in listing order. */
  function GetClassesFromDir(listing: seq<string>): (r: Result<seq<string>, Error>)
    ensures r.Err? <==> |listing| == 0
    ensures r.Err? ==> r.error == DirectoryEmpty
    ensures r.Ok? ==> r.value == listing
  {
    if |listing| == 0 then Err(DirectoryEmpty) else Ok(listing)
  }

  // ---------------------------------------------------------------------------
  // saveNumpy

  /** What `saveNumpy` writes. */
  datatype SaveFormat =
    | Npy      // np.save: one uncompressed array
    | Npz      // np.savez_compressed: a compressed archive
    | Nothing  // neither marker in the name: no file, no error

  /** The format `saveNumpy(base_name, data)` chooses from the name alone. */
  function SaveNumpy(baseName: string): (f: SaveFormat)
    ensures f == Npy <==> PyStr.Occurs(".npy", baseName)
    ensures f == Npz <==> !PyStr.Occurs(".npy", baseName) && PyStr.Occurs(".npz", baseName)
    ensures f == Nothing <==> !PyStr.Occurs(".npy", baseName) && !PyStr.Occurs(".npz", baseName)
  {
    if PyStr.Contains(baseName, ".npy") then Npy
    else if PyStr.Contains(baseName, ".npz") then Npz
    else Nothing
  }

  /** `.npy` wins over `.npz` wherever each stands in the name. */
  lemma SaveNumpyPrefersNpy()
    ensures SaveNumpy("out.npy") == Npy
    ensures SaveNumpy("out.npz.npy") == Npy && SaveNumpy("out.npy.npz") == Npy
  {
    assert PyStr.OccursAt(".npy", "out.npy", 3);
    assert PyStr.OccursAt(".npy", "out.npz.npy", 7);
    assert PyStr.OccursAt(".npy", "out.npy.npz", 3);
  }

  /** A `.npz` name without `.npy` is saved compressed. */
  lemma SaveNumpyNpz()
    ensures SaveNumpy("out.npz") == Npz
  {
    assert PyStr.OccursAt(".npz", "out.npz", 3);
    assert ".npz"[..4] != ".npy" by { assert ".npz"[..4][3] == 'z'; }
    assert !PyStr.Contains(".npz", ".npy") by { assert ".npz"[1..] == "npz"; }
    assert PyStr.Contains("out.npz", ".npy") == PyStr.Contains("ut.npz", ".npy")
      == PyStr.Contains("t.npz", ".npy") == PyStr.Contains(".npz", ".npy");
  }

  /** A name with neither marker is silently skipped. */
  lemma SaveNumpyNothing()
    ensures SaveNumpy("out.txt") == Nothing
  {
    assert PyStr.Contains("out.txt", ".npy") == PyStr.Contains("ut.txt", ".npy")
      == PyStr.Contains("t.txt", ".npy") == PyStr.Contains(".txt", ".npy");
    assert ".txt"[..4] != ".npy" by { assert ".txt"[..4][1] == 't'; }
    assert !PyStr.Contains(".txt", ".npy") by { assert ".txt"[1..] == "txt"; }
    assert PyStr.Contains("out.txt", ".npz") == PyStr.Contains("ut.txt", ".npz")
      == PyStr.Contains("t.txt", ".npz") == PyStr.Contains(".txt", ".npz")
      == PyStr.Contains("txt", ".npz");
  }

  // ---------------------------------------------------------------------------
  // sort_dict

  /** `sort_dict(unsorted_dict, descending)`, with the dict given as its items in insertion
      order. A non-bool `descending` raises before anything is sorted. Otherwise the result
      is a permutation of the items, ordered by value (ascending, or descending when asked),
      with items of equal value in their insertion order in either direction. */
  function SortDict(items: seq<PySorted.Item>, descending: PyValue): (r: Result<seq<PySorted.Item>, Error>)
    requires PySorted.DistinctKeys(items)
    ensures r.Err? <==> !descending.PyBool?
    ensures r.Err? ==> r.error == DescendingNotBool
    ensures r.Ok? ==> multiset(r.value) == multiset(items) && PySorted.DistinctKeys(r.value)
    ensures r.Ok? ==> PySorted.Ordered(r.value, descending.b)
    ensures r.Ok? ==> PySorted.Stable(r.value, items)
  {
    if !descending.PyBool? then
      Err(DescendingNotBool)
    else
      PySorted.SortCorrect(items, descending.b);
      Ok(PySorted.SortByValue(items, descending.b))
  }

  /** The ascending sort of `{"a": 3, "b": 1, "c": 2}`, one insertion at a time. */
  lemma SortAscendingExample()
    ensures PySorted.SortByValue([("a", 3), ("b", 1), ("c", 2)], false) == [("b", 1), ("c", 2), ("a", 3)]
  {
    var s := [("a", 3), ("b", 1), ("c", 2)];
    var t := PySorted.SortByValue(s[1..], false);
    assert t == [("b", 1), ("c", 2)] by {
      assert s[1..] == [("b", 1), ("c", 2)] && s[1..][1..] == [("c", 2)];
      assert PySorted.SortByValue([("c", 2)], false) == [("c", 2)];
    }
    assert PySorted.Insert(("a", 3), t, false) == [("b", 1), ("c", 2), ("a", 3)] by {
      assert PySorted.Insert(("a", 3), [("c", 2)], false) == [("c", 2), ("a", 3)];
    }
  }

  /** The descending sort of the same items. */
  lemma SortDescendingExample()
    ensures PySorted.SortByValue([("a", 3), ("b", 1), ("c", 2)], true) == [("a", 3), ("c", 2), ("b", 1)]
  {
    var s := [("a", 3), ("b", 1), ("c", 2)];
    var t := PySorted.SortByValue(s[1..], true);
    assert t == [("c", 2), ("b", 1)] by {
      assert s[1..] == [("b", 1), ("c", 2)] && s[1..][1..] == [("c", 2)];
      assert PySorted.SortByValue([("c", 2)], true) == [("c", 2)];
    }
    assert PySorted.Insert(("a", 3), t, true) == [("a", 3), ("c", 2), ("b", 1)];
  }

  /** `{"a": 3, "b": 1, "c": 2}` has no key twice. */
  lemma SortExampleKeysDistinct()
    ensures PySorted.DistinctKeys([("a", 3), ("b", 1), ("c", 2)])
  {
    var s := [("a", 3), ("b", 1), ("c", 2)];
    assert s[0].0 == "a" && s[1].0 == "b" && s[2].0 == "c";
  }

  /** `{"a": 3, "b": 1, "c": 2}` sorted ascending and descending. */
  lemma SortDictExample()
    ensures PySorted.DistinctKeys([("a", 3), ("b", 1), ("c", 2)])
    ensures SortDict([("a", 3), ("b", 1), ("c", 2)], PyBool(false)) == Ok([("b", 1), ("c", 2), ("a", 3)])
    ensures SortDict([("a", 3), ("b", 1), ("c", 2)], PyBool(true)) == Ok([("a", 3), ("c", 2), ("b", 1)])
  {
    SortExampleKeysDistinct();
    SortAscendingExample();
    SortDescendingExample();
  }

  /** A tie keeps its insertion order in both directions, so the descending result is not
      the ascending one reversed; a non-bool `descending` raises even on a one-item dict. */
  lemma SortDictTiesAndErrors()
    ensures SortDict([("a", 1), ("b", 1)], PyBool(false)) == Ok([("a", 1), ("b", 1)])
    ensures SortDict([("a", 1), ("b", 1)], PyBool(true)) == Ok([("a", 1), ("b", 1)])
    ensures SortDict([("a", 1)], PyInt(1)) == Err(DescendingNotBool)
  {
    var s := [("a", 1), ("b", 1)];
    assert s[1..] == [("b", 1)];
    assert PySorted.SortByValue([("b", 1)], false) == [("b", 1)];
    assert PySorted.SortByValue([("b", 1)], true) == [("b", 1)];
    assert PySorted.Insert(("a", 1), [("b", 1)], false) == [("a", 1)] + [("b", 1)] == s;
    assert PySorted.Insert(("a", 1), [("b", 1)], true) == [("a", 1)] + [("b", 1)] == s;
  }
}
