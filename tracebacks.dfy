/**
 * Traceback shaping shared by html_test_report/runner.py and
 * html_test_report/report.py: the exceptions and their `__context__` chain,
 * the title/description split of a message, and the two `TbFrame` helpers
 * (`get_charset` and the source window of `code_fragment`), whose code is the
 * same in both files.
 */
module Tracebacks {
  import opened Wrappers
  import opened Strings
  import PyValues

  /** One entry of a Python traceback: file, failing line and function name. */
  datatype TbEntry = TbEntry(filename: string, lineno: int, funcName: string)

  /** A raised exception: class name, what `str()` does on it, its own
      traceback, and the exception that was being handled when it was raised
      (`__context__`). */
  datatype Exc = Exc(kind: string, str: PyValues.StrOutcome, traceback: seq<TbEntry>, context: Option<Exc>)

  /** One displayed exception (the `Traceback` class of both files). */
  datatype Traceback = Traceback(name: string, title: string, description: Option<string>, tb: seq<TbEntry>)

  /** `TracebackHandler.get_msg`: the message text, or a fixed placeholder
      when `str()` itself raises. */
  function GetMsg(e: Exc): (m: string)
    ensures e.str.Converted? ==> m == e.str.text
    ensures e.str.Raised? ==> m == "encoding error while retreiving message"
  {
    match e.str
    case Converted(t) => t
    case Raised(_) => "encoding error while retreiving message"
  }

  /** The exceptions visited by `while evalue: ...; evalue = evalue.__context__`,
      in visiting order: the raised one first. */
  function Chain(e: Option<Exc>): seq<Exc>
    decreases e
  {
    match e
    case None => []
    case Some(x) => [x] + Chain(x.context)
  }

  /** The chain starts at the raised exception, each element's context is
      the next element, and the last one has no context. */
  lemma {:induction false} ChainLinks(e: Exc)
    ensures |Chain(Some(e))| >= 1 && Chain(Some(e))[0] == e
    ensures Chain(Some(e))[|Chain(Some(e))| - 1].context == None
    ensures forall i :: 0 <= i < |Chain(Some(e))| - 1 ==>
              Chain(Some(e))[i].context == Some(Chain(Some(e))[i + 1])
    decreases e
  {
    match e.context
    case None =>
    case Some(c) =>
      ChainLinks(c);
      assert Chain(Some(e)) == [e] + Chain(Some(c));
  }

  function Reversed<T>(s: seq<T>): (r: seq<T>)
    ensures |r| == |s|
    ensures forall i :: 0 <= i < |s| ==> r[i] == s[|s| - 1 - i]
  {
    if |s| == 0 then [] else Reversed(s[1..]) + [s[0]]
  }

  /** The lines of a message as `Traceback.__init__` splits it: the first
      line (absent for a message without lines) and the remaining lines
      joined with "\n" (absent when there are fewer than two lines). */
  function SplitMessage(msg: string): (r: (Option<string>, Option<string>))
    ensures r.0.None? <==> SplitLines(msg) == []
    ensures r.0.Some? ==> r.0.value == SplitLines(msg)[0]
    ensures r.1.Some? <==> |SplitLines(msg)| >= 2
  {
    var lines := SplitLines(msg);
    (if |lines| > 0 then Some(lines[0]) else None,
     if |lines| > 1 then Some(Join(lines[1..], "\n")) else None)
  }

  /** For a message whose only line breaks are single "\n" and that does not
      end with one, title and description put back together give the message;
      neither part contains a line break except the "\n"s of the description. */
  lemma MessageRoundTrip(msg: string)
    requires forall i :: 0 <= i < |msg| && IsLineBreak(msg[i]) ==> msg[i] == '\n'
    requires |msg| > 0 ==> msg[|msg| - 1] != '\n'
    ensures SplitMessage(msg).0.None? <==> msg == ""
    ensures SplitMessage(msg).0.Some? ==> NoLineBreak(SplitMessage(msg).0.value)
    ensures SplitMessage(msg).0.Some? && SplitMessage(msg).1.None? ==>
              SplitMessage(msg).0.value == msg
    ensures SplitMessage(msg).1.Some? ==>
              SplitMessage(msg).0.value + "\n" + SplitMessage(msg).1.value == msg
  {
    var lines := SplitLines(msg);
    SplitLinesJoin(msg);
    SplitLinesNoBreak(msg);
  }

  /** The title `Traceback` gives a message without lines: "" in the runner,
      "Unknow" in the report. */
  const RunnerEmptyTitle: string := ""
  const ReportEmptyTitle: string := "Unknow"

  /** `Traceback(name, msg, tb)`. */
  function MakeTraceback(name: string, msg: string, tb: seq<TbEntry>, emptyTitle: string): (r: Traceback)
    ensures r.name == name && r.tb == tb
    ensures SplitLines(msg) == [] ==> r.title == emptyTitle
    ensures SplitLines(msg) != [] ==> r.title == SplitLines(msg)[0]
    ensures r.description.Some? <==> |SplitLines(msg)| >= 2
  {
    var (title, description) := SplitMessage(msg);
    Traceback(name, title.GetOr(emptyTitle), description, tb)
  }

  /** The title and description put back together give the message, and an
      empty message gets the fallback title. */
  lemma TracebackRebuildsMessage(name: string, msg: string, tb: seq<TbEntry>, emptyTitle: string)
    requires forall i :: 0 <= i < |msg| && IsLineBreak(msg[i]) ==> msg[i] == '\n'
    requires |msg| > 0 ==> msg[|msg| - 1] != '\n'
    ensures var r := MakeTraceback(name, msg, tb, emptyTitle);
      && (msg == "" ==> r.title == emptyTitle && r.description == None)
      && (msg != "" && r.description.None? ==> r.title == msg)
      && (r.description.Some? ==> r.title + "\n" + r.description.value == msg)
      && (msg != "" ==> NoLineBreak(r.title))
  {
    MessageRoundTrip(msg);
  }

  /** The entry `TracebackHandler` makes for one exception of the chain. */
  function TracebackOf(e: Exc, emptyTitle: string): Traceback {
    MakeTraceback(e.kind, GetMsg(e), e.traceback, emptyTitle)
  }

  /** An exception whose `str()` raises is listed under the placeholder,
      which is a single line, so its entry has no description; otherwise the
      entry is titled with the first line of the message. */
  lemma EntryMessage(e: Exc, emptyTitle: string)
    ensures e.str.Raised? ==>
      TracebackOf(e, emptyTitle).title == "encoding error while retreiving message"
      && TracebackOf(e, emptyTitle).description == None
    ensures e.str.Converted? && SplitLines(e.str.text) != [] ==>
      TracebackOf(e, emptyTitle).title == SplitLines(e.str.text)[0]
    ensures TracebackOf(e, emptyTitle).name == e.kind && TracebackOf(e, emptyTitle).tb == e.traceback
  {
    if e.str.Raised? {
      SplitLinesSingle(GetMsg(e));
    }
  }

  /** `f` applied to each element, in order. */
  function MapSeq<A, B>(f: A -> B, s: seq<A>): (r: seq<B>)
    ensures |r| == |s|
    ensures forall i :: 0 <= i < |s| ==> r[i] == f(s[i])
  {
    if |s| == 0 then [] else [f(s[0])] + MapSeq(f, s[1..])
  }

  lemma MapSnoc<A, B>(f: A -> B, s: seq<A>, x: A)
    ensures MapSeq(f, s + [x]) == MapSeq(f, s) + [f(x)]
  {
    var a := MapSeq(f, s + [x]);
    var b := MapSeq(f, s) + [f(x)];
    forall i | 0 <= i < |a| ensures a[i] == b[i] {
      if i < |s| { assert (s + [x])[i] == s[i]; }
    }
  }

  lemma MapReversed<A, B>(f: A -> B, s: seq<A>)
    ensures Reversed(MapSeq(f, s)) == MapSeq(f, Reversed(s))
  {
    var ms := MapSeq(f, s);
    var rs := Reversed(s);
    var a := Reversed(ms);
    var b := MapSeq(f, rs);
    forall i | 0 <= i < |a| ensures a[i] == b[i] {
      var k := |s| - 1 - i;
      assert a[i] == ms[k];
      assert rs[i] == s[k];
    }
  }

  /** The entry maker of a handler whose empty messages get `emptyTitle`. */
  function Shaper(emptyTitle: string): Exc -> Traceback {
    x => TracebackOf(x, emptyTitle)
  }

  /** The entries for the given exceptions, in their order. */
  function TracebacksOf(es: seq<Exc>, emptyTitle: string): (r: seq<Traceback>)
    ensures |r| == |es|
    ensures forall i :: 0 <= i < |es| ==> r[i] == TracebackOf(es[i], emptyTitle)
  {
    MapSeq(Shaper(emptyTitle), es)
  }

  lemma ChainSnoc(visited: seq<Exc>, x: Exc)
    ensures visited + Chain(Some(x)) == (visited + [x]) + Chain(x.context)
  {
    assert Chain(Some(x)) == [x] + Chain(x.context);
  }

  /** The list `TracebackHandler(exc_info)` ends up as. */
  function HandlerList(e: Exc, emptyTitle: string): seq<Traceback> {
    Reversed(TracebacksOf(Chain(Some(e)), emptyTitle))
  }

  /** `TracebackHandler.__init__` under Python 3: one entry per exception of
      the `__context__` chain, appended while walking it, then reversed. */
  method TracebackHandler(e: Exc, emptyTitle: string) returns (r: seq<Traceback>)
    ensures r == HandlerList(e, emptyTitle)
  {
    var list: seq<Traceback> := [];
    ghost var visited: seq<Exc> := [];
    var evalue := Some(e);
    while evalue.Some?
      invariant visited + Chain(evalue) == Chain(Some(e))
      invariant list == TracebacksOf(visited, emptyTitle)
      decreases evalue
    {
      var x := evalue.value;
      MapSnoc(Shaper(emptyTitle), visited, x);
      ChainSnoc(visited, x);
      list := list + [TracebackOf(x, emptyTitle)];
      visited := visited + [x];
      evalue := x.context;
    }
    assert visited == Chain(Some(e));
    r := Reversed(list);
  }

  /** Reversing a sequence of exceptions in which each one's context is the
      next turns it into one in which each one's context is the previous. */
  lemma ReversedLinks(c: seq<Exc>)
    requires forall i :: 0 <= i < |c| - 1 ==> c[i].context == Some(c[i + 1])
    ensures forall i :: 0 <= i < |c| - 1 ==> Reversed(c)[i + 1].context == Some(Reversed(c)[i])
  {
    var rc := Reversed(c);
    forall i | 0 <= i < |c| - 1 ensures rc[i + 1].context == Some(rc[i]) {
      var k := |c| - 2 - i;
      assert rc[i + 1] == c[k];
      assert rc[i] == c[k + 1];
    }
  }

  /** The handler holds one entry per exception of the chain, taken in
      reverse: the first is the earliest context (an exception raised while
      handling nothing), the last is the exception that was raised, and each
      entry's exception is the `__context__` of the next one's. */
  lemma HandlerOrder(e: Exc, emptyTitle: string)
    ensures var rc := Reversed(Chain(Some(e)));
      && HandlerList(e, emptyTitle) == TracebacksOf(rc, emptyTitle)
      && |rc| >= 1 && rc[|rc| - 1] == e && rc[0].context == None
      && (forall i :: 0 <= i < |rc| - 1 ==> rc[i + 1].context == Some(rc[i]))
  {
    ReversedChain(e);
    HandlerListReversed(e, emptyTitle);
  }

  /** The chain read backwards ends at the raised exception, starts at one
      raised while handling nothing, and each element is the context of the
      next. */
  lemma ReversedChain(e: Exc)
    ensures var rc := Reversed(Chain(Some(e)));
      && |rc| >= 1 && rc[|rc| - 1] == e && rc[0].context == None
      && (forall i :: 0 <= i < |rc| - 1 ==> rc[i + 1].context == Some(rc[i]))
  {
    ChainLinks(e);
    ReversedLinks(Chain(Some(e)));
  }

  /** Reversing the entries is taking the exceptions of the chain in
      reverse order. */
  lemma HandlerListReversed(e: Exc, emptyTitle: string)
    ensures HandlerList(e, emptyTitle) == TracebacksOf(Reversed(Chain(Some(e))), emptyTitle)
  {
    MapReversed(Shaper(emptyTitle), Chain(Some(e)));
  }

  // ---- TbFrame.code_fragment ----

  /** One listed source line: its number (absent for the decoding-error
      line), its text, whether it is the failing line (`highlight`) and
      whether it is at least two lines away from it (`extended`). */
  datatype CodeLine = CodeLine(lineno: Option<int>, code: string, highlight: bool, extended: bool)

  /** What `code_fragment` obtains as source: nothing (an `IOError` while
      reading the file, which ends the generator quietly), the highlighted
      lines, a `UnicodeDecodeError` raised while tokenising them, or another
      error raised while reading the file, which nothing catches: a
      `UnicodeDecodeError` for bytes invalid in the declared coding, or a
      `LookupError` for a declared coding Python does not know. */
  datatype Source =
    | Unavailable
    | Lines(lines: seq<string>)
    | DecodeError(message: string)
    | ReadRaises(error: PyError)

  /** Number of lines shown on each side of the failing line. */
  const FragmentLength: int := 50

  function Max(a: int, b: int): int { if a >= b then a else b }
  function Min(a: int, b: int): int { if a <= b then a else b }

  /** The listed form of line `k` (1-based) of `lines` when `lineno` failed. */
  function LineAt(lines: seq<string>, k: int, lineno: int): CodeLine
    requires 1 <= k <= |lines|
  {
    CodeLine(Some(k), RStrip(lines[k - 1]), k == lineno, k <= lineno - 2 || k >= lineno + 2)
  }

  /** Number of the first listed line. */
  function WindowStart(lineno: int): int { Max(1, lineno - FragmentLength) }

  /** Number of the last listed line: the enumeration stops at the end of the
      file or right after yielding a line at or beyond `lineno + 50`. */
  function WindowLast(n: nat, lineno: int): int { Min(n, Max(lineno + FragmentLength, 1)) }

  /** The lines `code_fragment` yields for the given source. */
  function Fragment(src: Source, lineno: int): (r: Result<seq<CodeLine>>)
    ensures r.Err? <==> src.ReadRaises?
    ensures src.ReadRaises? ==> r == Err(src.error)
  {
    match src
    case Unavailable => Ok([])
    case DecodeError(m) => Ok([CodeLine(None, m, true, false)])
    case ReadRaises(e) => Err(e)
    case Lines(lines) =>
      var first := WindowStart(lineno);
      var last := WindowLast(|lines|, lineno);
      if first > last then Ok([])
      else Ok(seq(last - first + 1, i requires 0 <= i < last - first + 1 => LineAt(lines, first + i, lineno)))
  }

  /** `TbFrame.code_fragment`, enumerating the highlighted lines from 1. */
  method CodeFragment(src: Source, lineno: int) returns (r: Result<seq<CodeLine>>)
    ensures r == Fragment(src, lineno)
  {
    var start := Max(1, lineno - FragmentLength);
    var stop := lineno + FragmentLength;
    match src {
      case Unavailable =>
        return Ok([]);
      case ReadRaises(e) =>
        return Err(e);
      case DecodeError(m) =>
        return Ok([CodeLine(None, m, true, false)]);
      case Lines(lines) =>
        var out := [];
        var n := 1;
        while n <= |lines|
          invariant 1 <= n <= |lines| + 1
          invariant n - 1 < stop || n == 1
          invariant |out| == Max(0, n - start)
          invariant forall i :: 0 <= i < |out| ==> out[i] == LineAt(lines, start + i, lineno)
        {
          if n >= start {
            out := out + [LineAt(lines, n, lineno)];
          }
          if n >= stop {
            break;
          }
          n := n + 1;
        }
        assert |out| == Max(0, WindowLast(|lines|, lineno) - start + 1);
        assert out == Fragment(src, lineno).value;
        r := Ok(out);
    }
  }

  /** The window property: the listed numbers are consecutive, start at
      max(1, lineno - 50), never pass the end of the file nor (for a positive
      line number) lineno + 50; exactly the failing line is highlighted and
      `extended` marks the lines at distance two or more. */
  lemma FragmentWindow(lines: seq<string>, lineno: int)
    requires lineno >= 1
    ensures var f := Fragment(Lines(lines), lineno).value;
      && (forall i :: 0 <= i < |f| ==>
            && f[i].lineno == Some(WindowStart(lineno) + i)
            && 1 <= f[i].lineno.value <= |lines|
            && lineno - FragmentLength <= f[i].lineno.value <= lineno + FragmentLength
            && f[i].code == RStrip(lines[f[i].lineno.value - 1])
            && (f[i].highlight <==> f[i].lineno.value == lineno)
            && (f[i].extended <==> (f[i].lineno.value - lineno >= 2 || lineno - f[i].lineno.value >= 2)))
      && |f| == Max(0, Min(|lines|, lineno + FragmentLength) - WindowStart(lineno) + 1)
  {
    var f := Fragment(Lines(lines), lineno).value;
    var first := WindowStart(lineno);
    var last := WindowLast(|lines|, lineno);
    if first <= last {
      forall i | 0 <= i < |f|
        ensures f[i] == LineAt(lines, first + i, lineno)
      {
      }
    }
  }

  /** The failing line is listed, highlighted, whenever it exists in the file. */
  lemma FragmentShowsFailingLine(lines: seq<string>, lineno: int)
    requires 1 <= lineno <= |lines|
    ensures var f := Fragment(Lines(lines), lineno).value;
      exists i :: 0 <= i < |f| && f[i].lineno == Some(lineno) && f[i].highlight
  {
    var f := Fragment(Lines(lines), lineno).value;
    var first := WindowStart(lineno);
    var last := WindowLast(|lines|, lineno);
    assert first <= lineno <= last;
    var i := lineno - first;
    assert f[i] == LineAt(lines, lineno, lineno);
  }

  // ---- TbFrame.get_charset ----

  /** Characters of the `(?P<coding>[-_.a-zA-Z0-9]+)` group. */
  predicate IsCodingChar(ch: char) {
    ch == '-' || ch == '_' || ch == '.' || ('a' <= ch <= 'z') || ('A' <= ch <= 'Z') || ('0' <= ch <= '9')
  }

  /** First index at or after `k` whose character is not accepted by `p`. */
  function SkipWhile(s: string, k: nat, p: char -> bool): (j: nat)
    requires k <= |s|
    ensures k <= j <= |s|
    ensures forall i :: k <= i < j ==> p(s[i])
    ensures j < |s| ==> !p(s[j])
    decreases |s| - k
  {
    if k == |s| || !p(s[k]) then k else SkipWhile(s, k + 1, p)
  }

  predicate IsBlank(ch: char) { ch == ' ' || ch == '\t' || ch == 12 as char }
  predicate IsSpaceOrTab(ch: char) { ch == ' ' || ch == '\t' }

  /** The coding name if `coding[:=][ \t]*<name>` matches at index `k`. */
  function CodingAt(l: string, k: nat): (r: Option<string>)
    ensures r.Some? ==> |r.value| > 0 && forall i :: 0 <= i < |r.value| ==> IsCodingChar(r.value[i])
  {
    if k + 7 <= |l| && l[k..k + 6] == "coding" && (l[k + 6] == ':' || l[k + 6] == '=') then
      var j := SkipWhile(l, k + 7, IsSpaceOrTab);
      var e := SkipWhile(l, j, IsCodingChar);
      if e > j then Some(l[j..e]) else None
    else None
  }

  /** The lazy `.*?coding...` search from index `k`: the first position,
      reached without crossing a "\n", where the rest of the pattern matches. */
  function FindCoding(l: string, k: nat): Option<string>
    requires k <= |l|
    decreases |l| - k
  {
    if k == |l| then None
    else if CodingAt(l, k).Some? then CodingAt(l, k)
    else if l[k] == '\n' then None
    else FindCoding(l, k + 1)
  }

  /** `coding_regex.match(line)`: optional blanks, `#`, then the search. */
  function MatchCoding(l: string): Option<string> {
    var i := SkipWhile(l, 0, IsBlank);
    if i < |l| && l[i] == '#' then FindCoding(l, i + 1) else None
  }

  /** Position `j` is the first one, among those reachable from `k` without
      crossing a "\n", where `coding[:=][ \t]*<name>` matches, with `name`. */
  ghost predicate FirstCodingAt(l: string, k: nat, j: nat, name: string) {
    && k <= j < |l|
    && (forall i :: k <= i < j ==> l[i] != '\n')
    && CodingAt(l, j) == Some(name)
    && (forall i :: k <= i < j ==> CodingAt(l, i).None?)
  }

  /** Whatever the lazy search returns is matched at the first reachable
      matching position. */
  lemma {:induction false} FindCodingSound(l: string, k: nat, name: string) returns (j: nat)
    requires k <= |l| && FindCoding(l, k) == Some(name)
    ensures FirstCodingAt(l, k, j, name)
    decreases |l| - k
  {
    if CodingAt(l, k).Some? {
      j := k;
    } else {
      j := FindCodingSound(l, k + 1, name);
    }
  }

  /** The first reachable matching position is the one the search finds. */
  lemma {:induction false} FindCodingComplete(l: string, k: nat, j: nat, name: string)
    requires k <= |l| && FirstCodingAt(l, k, j, name)
    ensures FindCoding(l, k) == Some(name)
    decreases |l| - k
  {
    if j > k {
      FindCodingComplete(l, k + 1, j, name);
    }
  }

  /** What the i-th `readline()` of the file returns (empty past the end). */
  function ReadLine(file: seq<string>, i: nat): string {
    if i < |file| then file[i] else ""
  }

  /** `get_charset`: the coding declared on the first or second line, else
      "utf-8" (the Python 3 default). */
  function Charset(file: seq<string>): string {
    if MatchCoding(ReadLine(file, 0)).Some? then MatchCoding(ReadLine(file, 0)).value
    else if MatchCoding(ReadLine(file, 1)).Some? then MatchCoding(ReadLine(file, 1)).value
    else "utf-8"
  }

  /** `TbFrame.get_charset`, reading two lines at most. */
  method GetCharset(file: seq<string>) returns (charset: string)
    ensures charset == Charset(file)
  {
    for i := 0 to 2
      invariant i >= 1 ==> MatchCoding(ReadLine(file, 0)).None?
      invariant i >= 2 ==> MatchCoding(ReadLine(file, 1)).None?
    {
      var m := MatchCoding(ReadLine(file, i));
      if m.Some? {
        return m.value;
      }
    }
    return "utf-8";
  }

  /** Only the first two lines matter, and the default is "utf-8". */
  lemma CharsetFirstTwoLines(file: seq<string>, other: seq<string>)
    requires ReadLine(file, 0) == ReadLine(other, 0) && ReadLine(file, 1) == ReadLine(other, 1)
    ensures Charset(file) == Charset(other)
    ensures Charset(file) != "utf-8" ==>
      Charset(file) in {MatchCoding(ReadLine(file, 0)).GetOr(""), MatchCoding(ReadLine(file, 1)).GetOr("")}
  {
  }
}
