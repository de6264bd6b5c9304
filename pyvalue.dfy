/** The small part of Python's dynamic typing that the helpers inspect with
    `type(...) is`, `isinstance`, `len` and `< 0`. */
module PyValue {
  import opened Results

  /** A Python value, tagged by its exact type. `PyOther` stands for any value that is
      neither None, a bool, an int, a tuple nor a list (a string, a dict, an object) and
      that cannot be ordered against an int. */
  datatype PyValue =
    | PyNone
    | PyBool(b: bool)
    | PyInt(i: int)
    | PyTuple(items: seq<PyValue>)
    | PyList(items: seq<PyValue>)
    | PyOther

  /** `isinstance(v, (list, tuple))` */
  predicate IsListOrTuple(v: PyValue) {
    v.PyTuple? || v.PyList?
  }

  /** Python's `v < 0`. Ints compare by value; a bool compares as 0 or 1, so it is never
      negative; comparing any other value with an int raises TypeError (None here). */
  function LessThanZero(v: PyValue): (r: Option<bool>)
    ensures r.Some? <==> v.PyInt? || v.PyBool?
    ensures r == Some(true) <==> v.PyInt? && v.i < 0
  {
    match v
    case PyInt(i) => Some(i < 0)
    case PyBool(_) => Some(false)
    case _ => None
  }
}
