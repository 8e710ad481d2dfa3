/**
 * The bookkeeping of html_test_report/runner.py (the older runner): the
 * `TestIndex` tree, the results list of `ResultMixIn` and the index it
 * builds, the capture of output streams and logging handlers around each
 * test, and the singleton `Config`.
 */
module Runner {
  import opened Wrappers
  import opened Strings
  import opened IndexTree

  // ---- TestIndex ----

  /** `append(name, status, url)` on the node at `prefix`: one segment is
      split off per call (`name.split('.', 1)`), the node for it created if
      missing, and the rest appended to that node. */
  method AppendBelow(tree: Tree, prefix: Path, name: string, status: string, url: string) returns (t: Tree)
    ensures t == InsertFrom(tree, prefix + Split(name, '.'), |prefix|, status, url)
    decreases |name|
  {
    var toks := SplitOnce(name, '.');
    if |toks| == 1 {
      InsertFromLeaf(tree, prefix + [name], |prefix|, status, url);
      t := DropSubtree(tree, prefix + [name])[prefix + [name] := Leaf(name, status, url)];
    } else {
      var root, rest := toks[0], toks[1];
      ghost var path := prefix + Split(name, '.');
      assert Split(name, '.') == [root] + Split(rest, '.');
      assert path == (prefix + [root]) + Split(rest, '.');
      assert path[..|prefix| + 1] == prefix + [root];
      InsertFromStep(tree, path, |prefix|, status, url);
      t := tree;
      if prefix + [root] !in t {
        t := t[prefix + [root] := Intermediate(root)];
      }
      t := AppendBelow(t, prefix + [root], rest, status, url);
    }
  }

  /** The `TestIndex` tree, kept as one map from node paths to nodes. */
  class TestIndex {
    var tree: Tree
    /** A bound on the depth of the tree, for the recursions over it. */
    ghost var height: nat

    ghost predicate Valid()
      reads this
    {
      WellFormed(tree) && Bounded(tree, height)
    }

    constructor ()
      ensures Valid() && tree == EmptyIndex
    {
      tree := EmptyIndex;
      height := 0;
    }

    /** `append(name, status, url)` on the root. */
    method Append(name: string, status: string, url: string)
      requires Valid()
      modifies this
      ensures Valid()
      ensures tree == Insert(old(tree), Split(name, '.'), status, url)
    {
      var path := Split(name, '.');
      height := if height >= |path| then height else |path|;
      BoundedMono(tree, old(height), height);
      tree := AppendBelow(tree, [], name, status, url);
      assert [] + path == path;
      InsertValid(old(tree), height, path, status, url);
    }

    /** `get_status()` of the node at `p`; the memos it writes are kept. */
    method GetStatus(p: Path) returns (r: StatusResult)
      requires Valid() && p in tree
      modifies this
      ensures Valid() && height == old(height)
      ensures r == Eval(old(tree), height, p)
      ensures Coherent(old(tree), tree, height)
    {
      var t;
      r, t := ComputeStatus(tree, height, p);
      CoherentShape(tree, t, height);
      tree := t;
    }

    /** `as_json()` of the node at `p`; `url` is left as it is. */
    method AsJson(p: Path) returns (r: Result<Json>)
      requires Valid() && p in tree
      modifies this
      ensures Valid() && height == old(height)
      ensures r == JsonOf(old(tree), height, p, false)
      ensures Coherent(old(tree), tree, height)
    {
      var t;
      r, t := BuildJson(tree, height, p, false);
      CoherentShape(tree, t, height);
      tree := t;
    }
  }

  // ---- ResultMixIn ----

  /** What the index needs of a `MethodResult`. */
  datatype MethodResult = MethodResult(name: string, status: string, url: string)

  /** The result `add_result_method` records for test method `testName` of
      class `clsName` in module `modName` (`MethodResult.__init__`). */
  function Recorded(status: string, modName: string, clsName: string, testName: string): MethodResult {
    var name := modName + "." + clsName + "." + testName;
    MethodResult(name, status, name + ".html")
  }

  /** A recorded result is named `module.Class.method`, so its index path is
      the segments of the module, then of the class, then of the method;
      its page is `<name>.html`. */
  lemma RecordedPath(status: string, modName: string, clsName: string, testName: string)
    ensures var r := Recorded(status, modName, clsName, testName);
      && r.status == status
      && Split(r.name, '.') == Split(modName, '.') + Split(clsName, '.') + Split(testName, '.')
      && r.url == r.name + ".html"
  {
    SplitThree(modName, clsName, testName, modName + "." + clsName + "." + testName, clsName + "." + testName);
  }

  lemma SplitThree(m: string, k: string, t: string, name: string, rest: string)
    requires rest == k + ['.'] + t && name == m + ['.'] + rest
    ensures Split(name, '.') == Split(m, '.') + Split(k, '.') + Split(t, '.')
  {
    SplitAppend(k, t, '.');
    SplitAppend(m, rest, '.');
  }

  /** The appends `get_index` makes, one per recorded result, in order. */
  function Appendings(results: seq<MethodResult>): (es: seq<Appending>)
    ensures |es| == |results| && Appendable(es)
    ensures forall i :: 0 <= i < |results| ==>
              es[i] == Appending(Split(results[i].name, '.'), results[i].status, results[i].url)
  {
    if |results| == 0 then []
    else
      var n := |results| - 1;
      Appendings(results[..n]) + [Appending(Split(results[n].name, '.'), results[n].status, results[n].url)]
  }

  /** The index `get_index` builds: every recorded result appended in turn. */
  function ResultIndex(results: seq<MethodResult>): Tree {
    AppendAll(EmptyIndex, Appendings(results))
  }

  /** One loop step of `get_index`: the next result appended to the index of
      the ones before it. */
  lemma ResultIndexStep(results: seq<MethodResult>, i: nat)
    requires i < |results|
    ensures ResultIndex(results[..i + 1])
         == Insert(ResultIndex(results[..i]), Split(results[i].name, '.'), results[i].status, results[i].url)
  {
    var es := Appendings(results[..i]);
    var es' := Appendings(results[..i + 1]);
    assert results[..i + 1][..i] == results[..i];
    assert es'[..i] == es;
  }

  /** A logging handler, compared by identity. */
  type Handler = nat

  /** A text stream (`sys.stdout`, `sys.stderr` or a `StringIO` buffer). */
  type StreamId = nat

  predicate Distinct(s: seq<Handler>) {
    forall i, j :: 0 <= i < j < |s| ==> s[i] != s[j]
  }

  /** `list.remove(h)`: drop the first occurrence of `h`, if any. */
  function RemoveFirst(s: seq<Handler>, h: Handler): (r: seq<Handler>)
    ensures h !in s ==> r == s
    ensures |s| > 0 && s[0] == h ==> r == s[1..]
    ensures forall x :: x in r ==> x in s
  {
    if |s| == 0 then []
    else if s[0] == h then s[1..]
    else [s[0]] + RemoveFirst(s[1..], h)
  }

  /** The root logger, as far as its handler list goes. */
  class Logger {
    var handlers: seq<Handler>

    /** `addHandler` never adds a handler twice. */
    ghost predicate Valid()
      reads this
    {
      Distinct(handlers)
    }

    /** `Logger.removeHandler`. */
    method RemoveHandler(h: Handler)
      modifies this
      ensures handlers == RemoveFirst(old(handlers), h)
    {
      handlers := RemoveFirst(handlers, h);
    }

    /** `Logger.addHandler`: appended unless already present. */
    method AddHandler(h: Handler)
      modifies this
      ensures handlers == if h in old(handlers) then old(handlers) else old(handlers) + [h]
    {
      if h !in handlers {
        handlers := handlers + [h];
      }
    }
  }

  /** The `sys.stdout` and `sys.stderr` bindings. */
  class Sys {
    var stdout: StreamId
    var stderr: StreamId
  }

  /** The state `ResultMixIn` keeps: the recorded results and what
      `startTest` saved (an absent attribute, or one reset to `None`, is
      `None` here: both make `stopTest` raise `AttributeError`). */
  class ResultMixIn {
    var results: seq<MethodResult>
    var oldStdout: Option<StreamId>
    var oldStderr: Option<StreamId>
    var bufferConsole: Option<StreamId>
    var oldHandlers: Option<seq<Handler>>
    var bufferLog: Option<StreamId>

    ghost predicate Valid()
      reads this
    {
      oldHandlers.Some? ==> Distinct(oldHandlers.value)
    }

    /** Everything `stopTest` needs was saved by `startTest`. */
    predicate Started()
      reads this
    {
      oldStdout.Some? && oldStderr.Some? && bufferConsole.Some? && oldHandlers.Some? && bufferLog.Some?
    }

    constructor ()
      ensures Valid() && results == []
      ensures oldStdout == None && oldStderr == None && bufferConsole == None
      ensures oldHandlers == None && bufferLog == None
    {
      results := [];
      oldStdout, oldStderr, bufferConsole := None, None, None;
      oldHandlers, bufferLog := None, None;
    }

    /** The bookkeeping of `add_result_method`: the result is appended to
        `_results` (its page and the logs it carries are not modelled). */
    method AddResultMethod(status: string, modName: string, clsName: string, testName: string)
      modifies this
      ensures results == old(results) + [Recorded(status, modName, clsName, testName)]
      ensures oldStdout == old(oldStdout) && oldStderr == old(oldStderr) && bufferConsole == old(bufferConsole)
      ensures oldHandlers == old(oldHandlers) && bufferLog == old(bufferLog)
    {
      results := results + [Recorded(status, modName, clsName, testName)];
    }

    /** `get_index`: a fresh index with every recorded result appended, in
        the order they were recorded. */
    method GetIndex() returns (index: TestIndex)
      ensures fresh(index) && index.Valid()
      ensures index.tree == ResultIndex(results)
    {
      index := new TestIndex();
      var rs := results;
      for i := 0 to |rs|
        invariant index.Valid()
        invariant index.tree == ResultIndex(rs[..i])
      {
        var r := rs[i];
        ResultIndexStep(rs, i);
        index.Append(r.name, r.status, r.url);
      }
      assert rs[..|rs|] == rs;
    }

    /** `startTest`: point `sys.stdout` and `sys.stderr` at the fresh buffer
        `console`, move every root handler into `_old_handlers`, and install
        the fresh handler `capture` writing to the fresh buffer `log`. */
    method StartTest(sys: Sys, logger: Logger, console: StreamId, log: StreamId, capture: Handler)
      requires logger.Valid()
      modifies this, sys, logger
      ensures Valid() && Started() && logger.Valid()
      ensures oldStdout == Some(old(sys.stdout)) && oldStderr == Some(old(sys.stderr))
      ensures sys.stdout == console && sys.stderr == console && bufferConsole == Some(console)
      ensures oldHandlers == Some(old(logger.handlers)) && logger.handlers == [capture]
      ensures bufferLog == Some(log) && results == old(results)
    {
      oldStderr := Some(sys.stderr);
      oldStdout := Some(sys.stdout);
      bufferConsole := Some(console);
      sys.stdout, sys.stderr := console, console;
      var snapshot := logger.handlers;
      var moved := [];
      for i := 0 to |snapshot|
        invariant logger.handlers == snapshot[i..]
        invariant moved == snapshot[..i]
        modifies logger
      {
        logger.RemoveHandler(snapshot[i]);
        moved := moved + [snapshot[i]];
      }
      assert snapshot[..|snapshot|] == snapshot;
      oldHandlers := Some(moved);
      bufferLog := Some(log);
      logger.AddHandler(capture);
    }

    /** `stopTest`: restore the streams, drop the buffer, remove every root
        handler (even one the test added twice) and put back the saved ones
        in their order. Each missing
        saved attribute raises `AttributeError` at the point where the
        source reads it, after the earlier steps took effect. */
    method StopTest(sys: Sys, logger: Logger) returns (o: Outcome)
      requires Valid()
      modifies this, sys, logger
      ensures o == Pass <==> old(Started())
      ensures o.Fail? ==> o.error == AttributeError
      ensures Valid()
      ensures o.Pass? ==> logger.Valid()
      ensures sys.stdout == (if old(oldStdout).Some? then old(oldStdout).value else old(sys.stdout))
      ensures sys.stderr == (if old(oldStdout).Some? && old(oldStderr).Some? then old(oldStderr).value else old(sys.stderr))
      ensures bufferConsole == (if old(oldStdout).Some? && old(oldStderr).Some? then None else old(bufferConsole))
      ensures logger.handlers ==
        if !(old(oldStdout).Some? && old(oldStderr).Some? && old(bufferConsole).Some?) then old(logger.handlers)
        else if old(oldHandlers).Some? then old(oldHandlers).value
        else []
      ensures bufferLog == (if old(Started()) then None else old(bufferLog))
      ensures results == old(results) && oldStdout == old(oldStdout) && oldStderr == old(oldStderr)
      ensures oldHandlers == old(oldHandlers)
    {
      if oldStdout.None? {
        return Fail(AttributeError);
      }
      sys.stdout := oldStdout.value;
      if oldStderr.None? {
        return Fail(AttributeError);
      }
      sys.stderr := oldStderr.value;
      if bufferConsole.None? {
        return Fail(AttributeError);
      }
      bufferConsole := None;
      var snapshot := logger.handlers;
      for i := 0 to |snapshot|
        invariant logger.handlers == snapshot[i..]
        modifies logger
      {
        logger.RemoveHandler(snapshot[i]);
      }
      if oldHandlers.None? {
        return Fail(AttributeError);
      }
      var saved := oldHandlers.value;
      for i := 0 to |saved|
        invariant logger.handlers == saved[..i]
        modifies logger
      {
        logger.AddHandler(saved[i]);
      }
      assert saved[..|saved|] == saved;
      if bufferLog.None? {
        return Fail(AttributeError);
      }
      bufferLog := None;
      return Pass;
    }
  }

  /** `startTest` then `stopTest`, whatever the test did in between to the
      streams and to the root handlers (a handler left there twice
      included): the streams and the original handlers, in their original
      order, are back. */
  method StopUndoesStart(r: ResultMixIn, sys: Sys, logger: Logger, console: StreamId, log: StreamId,
                         capture: Handler, duringStdout: StreamId, duringHandlers: seq<Handler>)
      returns (o: Outcome)
    requires logger.Valid()
    modifies r, sys, logger
    ensures o == Pass
    ensures sys.stdout == old(sys.stdout) && sys.stderr == old(sys.stderr)
    ensures logger.handlers == old(logger.handlers)
    ensures r.results == old(r.results)
  {
    r.StartTest(sys, logger, console, log, capture);
    sys.stdout := duringStdout;
    logger.handlers := duringHandlers;
    o := r.StopTest(sys, logger);
  }

  // ---- Config ----

  /** An instance attribute that may be missing. */
  datatype Attr<T> = Missing | Present(value: T)

  /** The runner's settings object. `links` may also be set to `None`. */
  class Config {
    var destPath: Attr<string>
    var links: Attr<Option<seq<string>>>

    constructor ()
      ensures destPath == Missing && links == Missing
    {
      destPath, links := Missing, Missing;
    }

    /** The `dest_path` property: "html" unless set (the directory creation
        of the setter is not modelled). */
    method DestPath() returns (p: string)
      modifies this
      ensures p == (if old(destPath).Present? then old(destPath).value else "html")
      ensures destPath == Present(p) && links == old(links)
    {
      if destPath.Missing? {
        destPath := Present("html");
      }
      p := destPath.value;
    }

    method SetDestPath(x: string)
      modifies this
      ensures destPath == Present(x) && links == old(links)
    {
      destPath := Present(x);
    }

    /** The `links` entry of `get_context()`: `getattr(self, 'links', [])`. */
    function ContextLinks(): (r: Option<seq<string>>)
      reads this
      ensures links.Missing? ==> r == Some([])
      ensures links.Present? ==> r == links.value
    {
      if links.Missing? then Some([]) else links.value
    }
  }

  /** The `Singleton` metaclass: one instance per class, created on first call. */
  class Singleton {
    var instances: map<string, Config>

    constructor ()
      ensures instances == map[]
    {
      instances := map[];
    }

    /** `Config()`: the instance created by the first call, every time. */
    method Call(cls: string) returns (c: Config)
      modifies this
      ensures cls in old(instances) ==> c == old(instances)[cls] && instances == old(instances)
      ensures cls !in old(instances) ==>
        fresh(c) && c.destPath == Missing && c.links == Missing && instances == old(instances)[cls := c]
    {
      if cls !in instances {
        c := new Config();
        instances := instances[cls := c];
      }
      c := instances[cls];
    }
  }

  /** `get_context()` on the `Config` created by the first call reports an
      empty `links` list, whatever is done to `dest_path` in between. */
  method DefaultLinks(s: Singleton, path: string) returns (links: Option<seq<string>>)
    requires "Config" !in s.instances
    modifies s
    ensures links == Some([])
  {
    var c := s.Call("Config");
    c.SetDestPath(path);
    var p := c.DestPath();
    links := c.ContextLinks();
  }

  /** Two calls of `Config()` give the same object, and what was set through
      the first is seen through the second. */
  method SameConfig(s: Singleton, path: string) returns (first: Config, second: Config)
    modifies s, s.instances.Values
    ensures first == second
    ensures second.destPath == Present(path)
  {
    first := s.Call("Config");
    first.SetDestPath(path);
    second := s.Call("Config");
  }
}
