# html-test-report: the report bookkeeping, in Dafny

html-test-report turns the outcomes of a unittest run into an HTML report:
one page per test, plus an index of all tests grouped by module and class.
This project models the bookkeeping behind that report. Template rendering,
syntax highlighting and file writing are outside it. The bookkeeping exists
twice in the code base: in the older `html_test_report/runner.py`, driven by
a singleton `Config`, and in the newer `html_test_report/report.py`, driven
by an explicit `TestIndexRoot`. Both are modelled, with their differences
kept.

Modules, one per file:

- `IndexTree` (index_tree.dfy) is the hierarchical test index (`TestIndex`,
  `TestIndexNode`). The tree of nested dicts is one map from a node's path
  (the segments of its dotted name) to its `_name`, `_status` and `_url`.
  No node is ever shared, so nothing is lost by this. It covers insertion
  ("last write wins"), the memoised status aggregation
  (error > fail > skip > success), and the JSON projection with its sorted
  children. `get_status` and `as_json` are recursive methods that return the
  tree with the memos they wrote. They are proved against the ghost
  specifications `Eval` and `JsonOf`.
- `Runner` (runner.dfy) covers the older runner. It has the `TestIndex` class,
  the `ResultMixIn` state (the results list, `get_index`, and the swap of
  streams and logging handlers in `startTest`/`stopTest`), `Config` and the
  `Singleton` metaclass.
- `Report` (report.py's bookkeeping, in report.dfy) has `get_img_ext`, the
  `FileResult` title, the context and file name of a `TestCaseReport`, and
  `TestIndexRoot`.
- `Tracebacks` (tracebacks.dfy) has the `__context__` walk of
  `TracebackHandler`, the title/description split of `Traceback`, and the
  source window of `TbFrame.code_fragment`. It also has `TbFrame.get_charset`,
  the coding declaration of section "Defining the Encoding" of PEP 263. The
  code is the same in both files. The only difference is the title of an
  empty message, which is a parameter.
- `PyValues` (pyvalues.dfy) has `safe_unicode` / `safe_text` under Python 3,
  over a small universe of Python values.
- `ColorText` (color_text.dfy) has the ANSI colour functions. Each one is an
  SGR sequence (section 8.3.117 of ECMA-48) plus a reset, applied on a
  terminal only.
- `OptParse` (optparse_callback.dfy) has `vararg_callback` of the two Django
  wrappers. It is the same code in both.
- `Strings` and `Wrappers` are helpers: `str.split`, `str.join`,
  `str.splitlines`, `rstrip`, string ordering, and Option/Result.

Only the Python 3 branches are modelled.

`get_status` caches a node's status in `_status`, and nothing ever resets
it, so a memo survives later appends below the node
(`IndexTree.MemoSurvivesAppend`). Around the read of a source file,
`code_fragment` catches only `IOError`. A `UnicodeDecodeError` from the
file's bytes, or a `LookupError` for a declared coding Python does not know,
therefore escapes it (`Tracebacks.Source.ReadRaises`).

The report's pages store what `safe_text` returns as written, which is the
exception object when `str()` raises (see "## Findings"). `PyValues.SafeText`
is the corrected helper, and `Report.FileTitleText` and
`PyValues.SafeTextAgrees` relate the two wherever `str()` succeeds.

## Model

| member | source | states |
|---|---|---|
| IndexTree.EmptyIndexValid | html_test_report/runner.py:390-393 | a fresh index is a lone nameless root with no status or url, and it is well formed |
| IndexTree.InsertEffect | html_test_report/runner.py:395-403 | appending at `a.b.c` puts a leaf with the given status and url at the path. Missing parents are created without status or url; existing ones are reused unchanged. The old subtree below the path is dropped, and every other node is unchanged |
| IndexTree.InsertSetsLeaf | html_test_report/runner.py:402-403 | after an append, the appended path holds a fresh leaf named by its last segment, with the given status and url |
| IndexTree.InsertKeeps | html_test_report/runner.py:395-403 | a node that is neither the appended path nor below it keeps its value through the append |
| IndexTree.InsertValid | html_test_report/runner.py:395-403 | appending keeps the index well formed: a nameless root, and every node under its parent and named after its last segment |
| IndexTree.AppendAllLastWriteWins | html_test_report/runner.py:498-502 | after a sequence of appends, an append's leaf survives with its own status and url unless a later append is at the same path or above it. So a later result with the same dotted name replaces the earlier one |
| IndexTree.AppendAllValid | html_test_report/runner.py:498-502 | any sequence of appends keeps the index well formed |
| IndexTree.EvalPriority | html_test_report/runner.py:405-419 | a node without a status of its own raises `KeyError` exactly when some child's status is not one of the four. Otherwise its status is the first of error, fail, skip, success present among its children. It is `None` exactly when it has no children |
| IndexTree.FirstPresentRank | html_test_report/runner.py:416-419 | the `for name in (...)` scan yields a status exactly when it is present and no more severe status is |
| IndexTree.FirstPresentNone | html_test_report/runner.py:416-419 | the scan yields nothing exactly when none of the four statuses is present |
| IndexTree.ComputeStatus | html_test_report/runner.py:405-419 | `get_status` returns the specified status `Eval`. It writes only memos equal to what `Eval` gives there, and it writes the memo of the node when the result is a status |
| IndexTree.CountChildren | html_test_report/runner.py:407-415 | the counting loop succeeds exactly when every child's status is one of the four. Afterwards a status's count is positive exactly when some child has that status |
| IndexTree.CoherentEval | html_test_report/runner.py:405-419 | writing memos as `get_status` does never changes what `get_status` returns anywhere |
| IndexTree.CoherentShape | html_test_report/runner.py:405-419 | writing memos never changes the shape of the index |
| IndexTree.MemoSurvivesAppend | html_test_report/report.py:388-402 | the memo is never invalidated: a status already set on a node is returned unchanged after any append below it |
| IndexTree.UrlField | html_test_report/report.py:404-410 | the report's `str(_url)` turns a missing url into "None" and keeps a present one; the runner passes `_url` through |
| IndexTree.JsonUrl | html_test_report/report.py:404-410 | in the report's `as_json`, the root and the nodes created on the way down, which have no url, show "None", and a leaf shows its page; the runner's `as_json` shows `_url` as it is. The title is the node's `_name` |
| IndexTree.BuildJson | html_test_report/runner.py:421-427 | `as_json` returns the specified projection `JsonOf`: title, url, status, and children taken in ascending key order. It writes only coherent memos |
| IndexTree.JsonSorted | html_test_report/runner.py:421-427 | `childs` has one entry per child, each titled by its key, in strictly ascending key order, whatever the insertion order |
| IndexTree.JsonTitle | html_test_report/runner.py:421-427 | a node's JSON is titled by its own key |
| Runner.TestIndex.constructor | html_test_report/runner.py:390-393 | `TestIndex()` is the empty index |
| Runner.TestIndex.Append | html_test_report/runner.py:395-403 | `append(name, status, url)` on the root is the insertion of `name.split('.')` with that status and url, and it keeps the index well formed |
| Runner.AppendBelow | html_test_report/runner.py:395-403 | the recursive `split('.', 1)` descent from a node inserts the remaining segments below that node |
| Runner.TestIndex.GetStatus | html_test_report/runner.py:405-419 | `get_status()` on a node returns `Eval` of the index before the call, and leaves only coherent memos |
| Runner.TestIndex.AsJson | html_test_report/runner.py:421-427 | `as_json()` returns `JsonOf` of the index before the call, with the url passed through |
| Runner.RecordedPath | html_test_report/runner.py:205-238 | a recorded result is named `module.Class.method`: its index path is the segments of the module, then of the class, then of the method, and its url is the name plus ".html" |
| Runner.Appendings | html_test_report/runner.py:498-502 | `get_index` makes one append per recorded result, in recorded order, at the split name, with the result's status and url |
| Runner.ResultIndexStep | html_test_report/runner.py:500-501 | each loop step of `get_index` appends one more result to the index of the earlier ones |
| Runner.ResultMixIn.constructor | html_test_report/runner.py:435-437 | a fresh mix-in has no results and nothing saved |
| Runner.ResultMixIn.AddResultMethod | html_test_report/runner.py:458-461 | `add_result_method` appends exactly one result at the end of `_results`, and leaves the saved streams and handlers alone |
| Runner.ResultMixIn.GetIndex | html_test_report/runner.py:498-502 | `get_index` returns a fresh, well-formed index that is the fold of all recorded results, in order |
| Runner.ResultMixIn.StartTest | html_test_report/runner.py:463-482 | `startTest` saves stdout and stderr and points both at the console buffer. It moves every root handler, in order, into `_old_handlers`, and leaves the capture handler as the only root handler |
| Runner.ResultMixIn.StopTest | html_test_report/runner.py:484-496 | `stopTest` restores the streams, removes every root handler and re-adds the saved ones in their order. It raises `AttributeError` exactly when something `startTest` saves is missing, with the earlier steps already done |
| Runner.StopUndoesStart | html_test_report/runner.py:463-496 | `startTest` then `stopTest` gives back the original stdout, stderr and root handlers in their original order, whatever the test did to them in between |
| Runner.Config.DestPath | html_test_report/runner.py:74-78 | `dest_path` is "html" unless it was set, and reading it sets it |
| Runner.Config.SetDestPath | html_test_report/runner.py:80-84 | the setter records the path |
| Runner.Config.ContextLinks | html_test_report/runner.py:86-91 | `links` in `get_context()` is the attribute when set, and an empty list otherwise |
| Runner.Singleton.Call | html_test_report/runner.py:60-68 | the first `Config()` creates a fresh instance and registers it; every later call returns the registered one |
| Runner.DefaultLinks | html_test_report/runner.py:60-91 | on the `Config` created by the first `Config()` call, `get_context()` reports `links` as an empty list, even after `dest_path` was set and read |
| Runner.SameConfig | html_test_report/runner.py:60-68 | two `Config()` calls give the same object, so a `dest_path` set through one is read through the other |
| Tracebacks.GetMsg | html_test_report/runner.py:358-372 | the message is `str(ev)`, or the fixed placeholder when `str` raises |
| Tracebacks.EntryMessage | html_test_report/runner.py:368-383 | an exception whose `str()` raises gets an entry titled with the placeholder and without description, since the placeholder is one line; otherwise the entry is titled with the message's first line. The entry carries the exception's class name and traceback |
| Tracebacks.ChainLinks | html_test_report/runner.py:380-384 | the walked chain starts at the raised exception; each element's `__context__` is the next element, and the last one has none |
| Tracebacks.SplitMessage | html_test_report/runner.py:338-343 | the title is the first line (absent when there are no lines); the description is present exactly when there are at least two lines |
| Tracebacks.MessageRoundTrip | html_test_report/runner.py:338-343 | for a message with plain "\n" line breaks, title + "\n" + description gives the message back, and the title holds no line break |
| Tracebacks.MakeTraceback | html_test_report/runner.py:336-344 | the title is the first line, or the fallback for an empty message; the description is present exactly when there are two or more lines |
| Tracebacks.TracebackRebuildsMessage | html_test_report/report.py:329-337 | the report's `Traceback` uses "Unknow" for an empty message, and its title and description put back together give the message |
| Tracebacks.TracebacksOf | html_test_report/runner.py:380-384 | one entry per walked exception, in walking order |
| Tracebacks.Reversed | html_test_report/runner.py:385 | `reverse()` keeps the length and mirrors the positions |
| Tracebacks.TracebackHandler | html_test_report/report.py:367-378 | the `while evalue` loop followed by `reverse()` yields the reversed list of the chain's entries |
| Tracebacks.HandlerOrder | html_test_report/runner.py:374-385 | the list holds the entries of the chain's exceptions taken in reverse order: the first is the earliest context, the last is the raised exception, and each entry's exception is the `__context__` of the next one's |
| Tracebacks.CodeFragment | html_test_report/report.py:269-309 | the enumeration loop of `code_fragment` yields exactly the specified window `Fragment`. An `IOError` while reading yields nothing. A `UnicodeDecodeError` while tokenising yields one highlighted message line. Any other error from the read escapes, such as a `UnicodeDecodeError` from the file's bytes or a `LookupError` for an unknown coding |
| Tracebacks.FragmentWindow | html_test_report/runner.py:276-316 | the listed numbers are consecutive from max(1, lineno-50), within the file and within lineno±50. `highlight` holds exactly on `lineno` and `extended` exactly at distance two or more |
| Tracebacks.FragmentShowsFailingLine | html_test_report/report.py:269-309 | the failing line, when it exists in the file, is listed and highlighted |
| Tracebacks.SkipWhile | html_test_report/report.py:245-246 | the regex scan stops at the first character outside the class |
| Tracebacks.CodingAt | html_test_report/report.py:245-246 | a matched coding name is non-empty and made of `[-_.a-zA-Z0-9]` only |
| Tracebacks.FindCodingSound | html_test_report/report.py:245-246 | the lazy `.*?coding[:=]` search returns the name matched at the first position, reachable without crossing a line end, where the pattern matches |
| Tracebacks.FindCodingComplete | html_test_report/report.py:245-246 | the first reachable matching position is the one the search reports |
| Tracebacks.GetCharset | html_test_report/runner.py:263-275 | `get_charset` reads at most two lines and returns the first declared coding, else "utf-8" |
| Tracebacks.CharsetFirstTwoLines | html_test_report/report.py:256-268 | only the first two lines decide the charset, and anything other than "utf-8" comes from one of them |
| PyValues.SafeTextAsWritten | html_test_report/runner.py:44-57 | as written: a falsy value gives "" and a string is returned unchanged, but a value whose `str` raises gives back the exception object |
| PyValues.SafeTextReturnsException | html_test_report/runner.py:56-57 | a truthy object whose `__str__` raises makes the helper return a non-text value |
| PyValues.SafeText | html_test_report/report.py:46-65 | `safe_text` (corrected) always gives text: "" for a falsy value, a string unchanged, `str(v)` when that succeeds |
| PyValues.SafeTextAgrees | html_test_report/report.py:46-65 | the corrected helper agrees with the code wherever the latter returns text, which is exactly when the value is falsy or `str` succeeds |
| PyValues.SafeTextIdempotent | html_test_report/runner.py:44-57 | normalising twice is normalising once |
| PyValues.SafeTextOfScalars | html_test_report/runner.py:44-57 | `None`, a bool or an int normalises to "" exactly when falsy |
| ColorText.ColorIndex | html_test_report/color_text.py:20-27 | each named colour uses the SGR parameter 3N with N in 0..7 |
| ColorText.Prefix | html_test_report/color_text.py:20-27 | each colour's prefix is the seven characters `ESC [ 0 ; 3 N m` |
| ColorText.PrefixInjective | html_test_report/color_text.py:20-27 | distinct colours have distinct prefixes |
| ColorText.Colorize | html_test_report/color_text.py:14-17 | on a terminal the text is wrapped in the prefix and `ESC [0m`; otherwise it is unchanged |
| ColorText.ColorOnTerminal | html_test_report/color_text.py:14-17 | on a terminal the coloured text starts with the colour's prefix, is 11 characters longer than the text, and stripping prefix and reset gives the text back |
| ColorText.ColorOffTerminal | html_test_report/color_text.py:9-17 | without `isatty`, with `isatty()` false, or on Windows, every colour function is the identity |
| Report.GetImgExt | html_test_report/report.py:68-80 | any sniffer failure gives `None` |
| Report.GetImgExtExact | html_test_report/report.py:68-80 | an extension is returned exactly when the MIME string is `image/<ext>` with a single slash, and it is `<ext>` |
| Report.ImageMimeShape | html_test_report/report.py:74-80 | a returned extension comes from a MIME string `image/<ext>` whose extension has no slash |
| Report.ImageMimeSplit | html_test_report/report.py:74-80 | every `image/<ext>` with a slash-free extension yields that extension |
| Report.FileTitle | html_test_report/report.py:173-176 | the title is never the empty text. It is what `safe_text` returned when that is not "", which includes the exception object when `str()` raises, and `file-<uuid>` otherwise |
| Report.FileTitleText | html_test_report/report.py:173-176 | the title is text exactly when the title is falsy or its `str()` succeeds. It is then the normalised title, or `file-<uuid>` when that is empty |
| Report.StatusTitle | html_test_report/report.py:202-205 | a known status gets its capitalised name as title, any other "unknow" |
| Report.NormaliseLogs | html_test_report/report.py:213-215 | the logs keep their length and order. Names and levels are unchanged, and each message is what `safe_text` returns for it (the exception object when its `str()` raises) |
| Report.NormaliseLogsAppend | html_test_report/report.py:213-215 | normalising a concatenation is concatenating the normalised parts, so later records stay later |
| Report.TestCaseReport.constructor | html_test_report/report.py:187-221 | the context holds the twelve keys, with the status title and the normalised logs. `doc_class`, `doc_test`, `console` and `reason` hold what `safe_text` returns, which is the exception object when `str()` raises |
| Report.TestCaseReport.Render | html_test_report/report.py:223-234 | `render` merges the global context into the page context with its entries winning, leaves the rest alone, and returns `name + ".html"` |
| Report.Descend | html_test_report/report.py:429-436 | the `for tok in toks[:-1]` walk with the final leaf assignment is the insertion of `toks` |
| Report.TestIndexRoot.constructor | html_test_report/report.py:415-425 | a fresh root is the empty index, and its global context gains the host name and date |
| Report.TestIndexRoot.Append | html_test_report/report.py:427-436 | `append(report)` renders the page with the global context, then inserts `name.split(".")` with the report's status and the page name as url |
| Report.TestIndexRoot.GetStatus | html_test_report/report.py:388-402 | `get_status()` returns `Eval` of the index before the call and writes only coherent memos |
| Report.TestIndexRoot.AsJson | html_test_report/report.py:404-410 | `as_json()` returns `JsonOf` of the index before the call with the url stringified |
| OptParse.Vararg | html_test_report/django.py:21-28 | `AssertionError` when a value is passed, `AttributeError` for a missing destination, `IndexError` for empty `rargs` or an empty first argument, each before any change. An argument starting with `-` changes nothing. Anything else is moved from `rargs` to the end of the destination list. At most one argument is consumed and only the destination changes. The copy at html_test/django.py:16-23 is the same code |
| OptParse.VarargKeepsPrior | html_test_report/django.py:22-27 | the values already collected stay, in their order, at the front of the destination list |
| OptParse.VarargMovesArgument | html_test/django.py:17-22 | a successful call moves at most one argument and loses none: remaining plus collected counts are unchanged |
| OptParse.OptionParser.VarargCallback | html_test_report/django.py:21-28 | the callback changes `rargs` and the destination attribute as `Vararg` specifies |

## Left out

- Rendering, highlighting and `pprint` are foreign libraries and are not modelled. This covers Jinja2 templates, pygments (`_highlight_lines`, `highlight`) and `loc_vars`. The highlighted lines are an abstract `seq<string>` and the style sheet is a parameter.
- File system, processes and sniffing are not modelled. This covers file writes and reads, directory creation (`os.makedirs`, `mkdir`), the `compare` subprocess, `ImageResult`, and `magic`/`imghdr`. The sniffer's answer is a parameter of `GetImgExt`, and a file is a sequence of lines.
- Environment values are parameters: `uuid4`, `socket.gethostname` and `datetime.now`.
- `TestFormatter`, `json.loads` of captured log lines, the report pages of `MethodResult` and `make_report` are not modelled. The status colour written to `stdout` is not modelled either.
- Runner.ResultMixIn.AddResultMethod: records only the result that goes into `_results`. The logs dict, the tracebacks, the console buffer and the `stdout.write` are left out. `Runner.Recorded` uses the `_testMethodName` of the test and does not model nose's wrapper.
- Runner.ResultMixIn.StartTest: the actual `sys.stdout`/`sys.stderr` objects and the `StreamHandler` are opaque identifiers. The handler's formatter and level are not modelled.
- Runner.ResultMixIn.StartTest: the root handlers are taken to be distinct, as `addHandler` keeps them. If they started out with a handler listed twice, `stopTest` would restore it only once, so `Runner.StopUndoesStart` requires distinct handlers before `startTest`.
- Runner.ResultMixIn.StartTest: the opening `stdout.write("Run test: ...")` is not modelled. It writes to the module-level `stdout` bound at import, and it raises `AttributeError` before anything is saved when the test has no `_testMethodName`.
- IndexTree.ComputeStatus: does not state that the memos it writes are all at or below the node asked about. It states only that every written memo is the value `get_status` gives there.
- Report.TestIndexRoot.constructor: in the source the caller's `global_context` dict is updated in place; the model copies it.
- OptParse.OptionParser.VarargCallback: in the source, a non-empty existing destination list is appended in place, so other references to it see the change. The model stores a new list value.
- Tracebacks.TracebackHandler: an exception is taken to be truthy (`while evalue`). A user-defined `__bool__` or `__len__` on an exception class is not modelled.
- Tracebacks.TracebackHandler: `Exc` is an inductive datatype, so a `__context__` chain always ends. User code can make a cycle by assigning `__context__` directly; the source's `while evalue` loop then never ends, and the model does not cover it.
- PyValues.SafeTextOfScalars: `str()` of an int is modelled as always succeeding. From CPython 3.11, `str()` of an int with more than 4300 digits raises `ValueError`, and that limit is not modelled.
- The Python 2 branches of `safe_text`, `safe_unicode`, `get_msg`, `TracebackHandler` and `get_charset` are not modelled.
- The Django `DiscoverRunner` option registration, `HtmlTestResult`, `HtmlTestRunner`, and the pytest and nose plugins are not modelled.

## Findings

| source | as written | input that shows it | evidently intended | confidence | as-written member | corrected member |
|---|---|---|---|---|---|---|
| html_test_report/runner.py:56-57 | when `str(s)` raises, `except Exception as e: return six.u(e)` returns the exception object, because `six.u` is the identity on Python 3 | a truthy object whose `__str__` raises `ValueError("boom")` | the helper always returns text, here the exception's message | not executed | PyValues.SafeTextAsWritten | PyValues.SafeText |
| html_test_report/report.py:64-65 | `safe_text` has the same `return six.u(e)`, so the context and `FileResult` get a non-text value | a truthy object whose `__str__` raises `ValueError("boom")` | text, the exception's message | not executed | PyValues.SafeTextAsWritten | PyValues.SafeText |
