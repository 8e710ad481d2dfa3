/**
 * The Python values that reach the text-normalising helpers (`safe_unicode`
 * in the runner, `safe_text` in the report), with their truth value and what
 * `str()` makes of them under Python 3.
 */
module PyValues {
  import Strings

  /** What calling `str()` on an object does: return text or raise. */
  datatype StrOutcome = Converted(text: string) | Raised(message: string)

  /** A value handed to the helpers. `PyObject` stands for any other object,
      described by its truth value and by the outcome of its `__str__`. */
  datatype PyValue =
    | PyNone
    | PyBool(b: bool)
    | PyInt(i: int)
    | PyStr(s: string)
    | PyObject(truthy: bool, str: StrOutcome)

  /** Python truth testing (`if not s:`). */
  predicate Truthy(v: PyValue) {
    match v
    case PyNone => false
    case PyBool(b) => b
    case PyInt(i) => i != 0
    case PyStr(s) => s != ""
    case PyObject(t, _) => t
  }

  /** `str(v)` under Python 3. */
  function Str(v: PyValue): StrOutcome {
    match v
    case PyNone => Converted("None")
    case PyBool(b) => Converted(if b then "True" else "False")
    case PyInt(i) => Converted(Strings.IntToString(i))
    case PyStr(s) => Converted(s)
    case PyObject(_, o) => o
  }

  /** What the helpers hand back as written: text, or (when `str()` raised)
      the exception object itself, because `six.u` is the identity on
      Python 3. */
  datatype SafeOut = TextOut(text: string) | ExceptionOut(message: string)

  /** `safe_unicode` (runner) and `safe_text` (report) under Python 3, as
      written: "" for a falsy value, else `str(s)`; when `str` raises, the
      `except` branch returns `six.u(e)`, which is `e` itself. */
  function SafeTextAsWritten(v: PyValue): (r: SafeOut)
    ensures !Truthy(v) ==> r == TextOut("")
    ensures v.PyStr? ==> r == TextOut(v.s)
  {
    if !Truthy(v) then TextOut("")
    else match Str(v)
      case Converted(t) => TextOut(t)
      case Raised(m) => ExceptionOut(m)
  }

  /** A value whose `__str__` raises makes the helpers return a non-text
      value (the exception), which the callers then encode or serialise as
      if it were text. */
  lemma SafeTextReturnsException()
    ensures SafeTextAsWritten(PyObject(true, Raised("boom"))) == ExceptionOut("boom")
    ensures !SafeTextAsWritten(PyObject(true, Raised("boom"))).TextOut?
  {
  }

  /** The helpers as evidently intended: always text, the message of the
      exception standing in for a value that cannot be converted. */
  function SafeText(v: PyValue): (r: string)
    ensures !Truthy(v) ==> r == ""
    ensures v.PyStr? ==> r == v.s
    ensures Truthy(v) && Str(v).Converted? ==> r == Str(v).text
  {
    match SafeTextAsWritten(v)
    case TextOut(t) => t
    case ExceptionOut(m) => m
  }

  /** The corrected helper agrees with the code as written wherever the
      latter returns text. */
  lemma SafeTextAgrees(v: PyValue)
    ensures SafeTextAsWritten(v).TextOut? ==> SafeText(v) == SafeTextAsWritten(v).text
    ensures SafeTextAsWritten(v).TextOut? <==> !Truthy(v) || Str(v).Converted?
  {
  }

  /** Normalising twice is normalising once. */
  lemma SafeTextIdempotent(v: PyValue)
    ensures SafeText(PyStr(SafeText(v))) == SafeText(v)
  {
  }

  /** `str()` of a bool, an int or `None` is modelled as always succeeding
      (`Str`), and its text is never empty, so such a value normalises to ""
      exactly when it is falsy. */
  lemma SafeTextOfScalars(v: PyValue)
    requires v.PyNone? || v.PyBool? || v.PyInt?
    ensures SafeText(v) == "" <==> !Truthy(v)
    ensures v.PyInt? && v.i != 0 ==> SafeText(v) == Strings.IntToString(v.i)
  {
  }
}
