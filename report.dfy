/**
 * The bookkeeping of html_test_report/report.py (the newer report): image
 * extensions, the title of an attached file, the context and file name of
 * one test's page (`TestCaseReport`), and the index root that records each
 * page (`TestIndexRoot`).
 */
module Report {
  import opened Wrappers
  import opened Strings
  import opened PyValues
  import opened IndexTree
  import Tracebacks

  // ---- get_img_ext ----

  /** `get_img_ext`, given what the MIME sniffer made of the data: a MIME
      string, or the exception it raised. Unpacking `mime.split("/")` into
      two names raises too unless there are exactly two fields; every
      failure is caught and gives `None`. */
  function GetImgExt(sniffed: Result<string>): (r: Option<string>)
    ensures sniffed.Err? ==> r == None
  {
    match sniffed
    case Err(_) => None
    case Ok(mime) =>
      var parts := Split(mime, '/');
      if |parts| != 2 then None
      else if parts[0] == "image" then Some(parts[1])
      else None
  }

  /** An extension is found exactly when the MIME string is `image/<ext>`
      with a single slash, and it is then `<ext>`. */
  lemma GetImgExtExact(mime: string, ext: string)
    ensures GetImgExt(Ok(mime)) == Some(ext) <==> mime == "image/" + ext && '/' !in ext
  {
    if GetImgExt(Ok(mime)) == Some(ext) {
      ImageMimeShape(mime, ext);
    }
    if mime == "image/" + ext && '/' !in ext {
      ImageMimeSplit(mime, ext);
    }
  }

  lemma ImageMimeShape(mime: string, ext: string)
    requires GetImgExt(Ok(mime)) == Some(ext)
    ensures mime == "image/" + ext && '/' !in ext
  {
    var parts := Split(mime, '/');
    SplitJoin(mime, '/');
    assert parts == ["image", ext];
    assert '/' !in parts[1];
    assert Join(parts[1..], "/") == ext;
  }

  lemma ImageMimeSplit(mime: string, ext: string)
    requires mime == "image/" + ext && '/' !in ext
    ensures GetImgExt(Ok(mime)) == Some(ext)
  {
    var parts := ["image", ext];
    assert Join(parts[1..], "/") == ext;
    assert Join(parts, "/") == mime;
    JoinSplit(parts, '/');
  }

  // ---- FileResult ----

  /** `FileResult.title`: `safe_text(title) or self.filename.name`. Only the
      empty text is falsy there; the exception object `safe_text` hands back
      when `str()` raises is truthy, so it becomes the title. */
  function FileTitle(title: PyValue, uuid: string): (r: SafeOut)
    ensures r != TextOut("")
    ensures SafeTextAsWritten(title) != TextOut("") ==> r == SafeTextAsWritten(title)
    ensures !Truthy(title) ==> r == TextOut("file-" + uuid)
  {
    var t := SafeTextAsWritten(title);
    if t == TextOut("") then TextOut("file-" + uuid) else t
  }

  /** The title is text exactly when `str()` of a truthy title does not
      raise, and it is then the normalised title, or `file-<uuid>` when that
      is empty. */
  lemma FileTitleText(title: PyValue, uuid: string)
    ensures FileTitle(title, uuid).TextOut? <==> !Truthy(title) || Str(title).Converted?
    ensures FileTitle(title, uuid).TextOut? ==>
      FileTitle(title, uuid).text == (if SafeText(title) != "" then SafeText(title) else "file-" + uuid)
  {
    SafeTextAgrees(title);
  }

  // ---- TestCaseReport ----

  /** The titles of the known statuses (`status_dict`). */
  const StatusTitles: map<string, string> :=
    map["success" := "Success", "fail" := "Fail", "error" := "Error", "skip" := "Skip"]

  /** The upper-case form of a lower-case ASCII letter. */
  function Capital(ch: char): (r: char)
    ensures 'a' <= ch <= 'z' ==> 'A' <= r <= 'Z'
  {
    if 'a' <= ch <= 'z' then (ch as int - 32) as char else ch
  }

  /** `status_title`: a known status, capitalised; "unknow" otherwise. */
  function StatusTitle(status: string): (r: string)
    ensures status in Priority ==> |r| == |status| && r[0] == Capital(status[0]) && r[1..] == status[1..]
    ensures status !in Priority ==> r == "unknow"
  {
    if status in StatusTitles then StatusTitles[status] else "unknow"
  }

  /** One entry of `logs` as handed in: logger name, level and message. */
  datatype LogRecord = LogRecord(name: string, level: string, msg: PyValue)

  /** One entry of `logs` in the context; the message is what `safe_text`
      returned. */
  datatype LogLine = LogLine(name: string, level: string, msg: SafeOut)

  /** The `logs` comprehension: one line per record, in order, the name and
      level unchanged and the message normalised. */
  function NormaliseLogs(logs: seq<LogRecord>): (r: seq<LogLine>)
    ensures |r| == |logs|
    ensures forall i :: 0 <= i < |logs| ==>
              r[i] == LogLine(logs[i].name, logs[i].level, SafeTextAsWritten(logs[i].msg))
  {
    if |logs| == 0 then []
    else [LogLine(logs[0].name, logs[0].level, SafeTextAsWritten(logs[0].msg))] + NormaliseLogs(logs[1..])
  }

  /** Normalising keeps the order of the records: records logged later
      come later. */
  lemma {:induction false} NormaliseLogsAppend(a: seq<LogRecord>, b: seq<LogRecord>)
    ensures NormaliseLogs(a + b) == NormaliseLogs(a) + NormaliseLogs(b)
    decreases |a|
  {
    if |a| > 0 {
      assert (a + b)[1..] == a[1..] + b;
      NormaliseLogsAppend(a[1..], b);
    }
  }

  /** A value in the page context: text, what `safe_text` returned, the
      logs, the tracebacks, or (for images, attached files and whatever the
      caller put in the global context) a value kept as it was given. */
  datatype CtxValue =
    | Text(text: string)
    | Safe(out: SafeOut)
    | Logs(lines: seq<LogLine>)
    | Tracebacks(tbs: Option<seq<Tracebacks.Traceback>>)
    | Value(v: PyValue)

  /** One test's page: its dotted name, its status and the template context. */
  class TestCaseReport {
    var name: string
    var status: string
    var context: map<string, CtxValue>

    /** `TestCaseReport(...)`; `css` is the highlighter's style sheet. A
        missing `logs` is read as no logs. */
    constructor (name: string, status: string, docClass: PyValue, docTest: PyValue, console: PyValue,
                 logs: Option<seq<LogRecord>>, tracebacks: Option<seq<Tracebacks.Traceback>>,
                 reason: PyValue, images: PyValue, files: PyValue, css: string)
      ensures this.name == name && this.status == status
      ensures context == map[
        "name" := Text(name),
        "status" := Text(status),
        "status_title" := Text(StatusTitle(status)),
        "doc_class" := Safe(SafeTextAsWritten(docClass)),
        "doc_test" := Safe(SafeTextAsWritten(docTest)),
        "console" := Safe(SafeTextAsWritten(console)),
        "logs" := Logs(NormaliseLogs(logs.GetOr([]))),
        "tracebacks" := Tracebacks(tracebacks),
        "reason" := Safe(SafeTextAsWritten(reason)),
        "images" := Value(images),
        "files" := Value(files),
        "pygments_css" := Text(css)]
    {
      this.name := name;
      this.status := status;
      context := map[
        "name" := Text(name),
        "status" := Text(status),
        "status_title" := Text(StatusTitle(status)),
        "doc_class" := Safe(SafeTextAsWritten(docClass)),
        "doc_test" := Safe(SafeTextAsWritten(docTest)),
        "console" := Safe(SafeTextAsWritten(console)),
        "logs" := Logs(NormaliseLogs(logs.GetOr([]))),
        "tracebacks" := Tracebacks(tracebacks),
        "reason" := Safe(SafeTextAsWritten(reason)),
        "images" := Value(images),
        "files" := Value(files),
        "pygments_css" := Text(css)];
    }

    /** `render`: the global context is merged into the page context, its
        entries taking precedence, and the page is named `<name>.html`
        (the page itself is not modelled). */
    method Render(global: map<string, CtxValue>) returns (filename: string)
      modifies this
      ensures name == old(name) && status == old(status)
      ensures context == old(context) + global
      ensures context.Keys == old(context).Keys + global.Keys
      ensures forall k :: k in global ==> context[k] == global[k]
      ensures forall k :: k in old(context) && k !in global ==> context[k] == old(context)[k]
      ensures filename == name + ".html"
    {
      context := context + global;
      filename := name + ".html";
    }
  }

  // ---- TestIndexRoot ----

  /** The tree walk of `TestIndexRoot.append`: down the nodes for all but
      the last segment of `toks`, reusing or creating each, then a fresh
      leaf for the last one. */
  method Descend(tree: Tree, toks: Path, status: string, url: string) returns (t: Tree)
    requires |toks| >= 1
    ensures t == Insert(tree, toks, status, url)
  {
    var name := toks[|toks| - 1];
    t := tree;
    var node: Path := [];
    for k := 0 to |toks| - 1
      invariant node == toks[..k]
      invariant InsertFrom(t, toks, k, status, url) == Insert(tree, toks, status, url)
    {
      InsertFromStep(t, toks, k, status, url);
      if node + [toks[k]] !in t {
        t := t[node + [toks[k]] := Intermediate(toks[k])];
      }
      node := node + [toks[k]];
    }
    InsertFromLeaf(t, toks, |toks| - 1, status, url);
    assert node + [name] == toks;
    t := DropSubtree(t, toks)[toks := Leaf(name, status, url)];
  }

  /** The root of the report's index, with the context shared by every
      page. */
  class TestIndexRoot {
    var tree: Tree
    /** A bound on the depth of the tree, for the recursions over it. */
    ghost var height: nat
    var globalContext: map<string, CtxValue>

    ghost predicate Valid()
      reads this
    {
      WellFormed(tree) && Bounded(tree, height)
    }

    /** `TestIndexRoot(html_path, global_context)`: an empty index; the
        given context (none is an empty one) gains the host name and the
        date of the run. */
    constructor (globalContext: map<string, CtxValue>, hostname: string, date: string)
      ensures Valid() && tree == EmptyIndex
      ensures this.globalContext == globalContext + map["hostname" := Text(hostname), "date" := Text(date)]
    {
      tree := EmptyIndex;
      height := 0;
      this.globalContext := globalContext + map["hostname" := Text(hostname), "date" := Text(date)];
    }

    /** `append(test_report)`: the page is rendered with the global context,
        then the name is split on every dot, the nodes for all but the last
        segment are reused or created on the way down, and a fresh leaf with
        the report's status and the page name replaces the last one. */
    method Append(report: TestCaseReport)
      requires Valid()
      modifies this, report
      ensures Valid() && globalContext == old(globalContext)
      ensures report.name == old(report.name) && report.status == old(report.status)
      ensures report.context == old(report.context) + globalContext
      ensures tree == Insert(old(tree), Split(report.name, '.'), report.status, report.name + ".html")
    {
      var filename := report.Render(globalContext);
      var toks := Split(report.name, '.');
      height := if height >= |toks| then height else |toks|;
      BoundedMono(tree, old(height), height);
      InsertValid(tree, height, toks, report.status, filename);
      tree := Descend(tree, toks, report.status, filename);
    }

    /** `get_status()` of the node at `p`; the memos it writes are kept. */
    method GetStatus(p: Path) returns (r: StatusResult)
      requires Valid() && p in tree
      modifies this`tree
      ensures Valid() && height == old(height) && globalContext == old(globalContext)
      ensures r == Eval(old(tree), height, p)
      ensures Coherent(old(tree), tree, height)
    {
      var t;
      r, t := ComputeStatus(tree, height, p);
      CoherentShape(tree, t, height);
      tree := t;
    }

    /** `as_json()` of the node at `p`; `url` is passed through `str`. */
    method AsJson(p: Path) returns (r: Result<Json>)
      requires Valid() && p in tree
      modifies this`tree
      ensures Valid() && height == old(height) && globalContext == old(globalContext)
      ensures r == JsonOf(old(tree), height, p, true)
      ensures Coherent(old(tree), tree, height)
    {
      var t;
      r, t := BuildJson(tree, height, p, true);
      CoherentShape(tree, t, height);
      tree := t;
    }
  }
}
