/**
 * The `vararg_callback` optparse callback of the two Django wrappers
 * (html_test_report/django.py and html_test/django.py, identical): it takes
 * the next remaining argument, unless it is an option, and appends it to
 * the option's destination list.
 */
module OptParse {
  import opened Wrappers

  /** The destination list as the callback starts from it: `None` and the
      empty list are falsy, and `or []` turns both into an empty list. */
  function Current(values: map<string, Option<seq<string>>>, dest: string): seq<string>
    requires dest in values
  {
    values[dest].GetOr([])
  }

  /** The parser state the callback sees: the remaining arguments and the
      destination attributes (a missing key is a missing attribute). */
  datatype ParseState = ParseState(rargs: seq<string>, values: map<string, Option<seq<string>>>)

  /** One call of `vararg_callback` for the option with destination `dest`,
      `value` being what optparse passes in. Each failure is raised before
      anything is changed: the assertion on `value`, the missing attribute,
      an empty `rargs` and an empty first argument, in that order. */
  function Vararg(s: ParseState, dest: string, value: Option<string>): (r: (Outcome, ParseState))
    ensures r.0.Fail? ==> r.1 == s
    ensures r.0 == Fail(AssertionError) <==> value.Some?
    ensures r.0 == Fail(AttributeError) <==> value.None? && dest !in s.values
    ensures r.0 == Fail(IndexError) <==>
              value.None? && dest in s.values && (|s.rargs| == 0 || |s.rargs[0]| == 0)
    ensures r.0 == Pass <==> value.None? && dest in s.values && |s.rargs| > 0 && |s.rargs[0]| > 0
    // at most one argument is consumed, and only the destination changes
    ensures r.1.rargs == s.rargs || (|s.rargs| > 0 && r.1.rargs == s.rargs[1..])
    ensures r.1.values.Keys == s.values.Keys
    ensures forall k :: k in s.values && k != dest ==> r.1.values[k] == s.values[k]
    // an option is left where it is
    ensures r.0 == Pass && s.rargs[0][0] == '-' ==> r.1 == s
    // anything else is moved to the end of the destination list
    ensures r.0 == Pass && s.rargs[0][0] != '-' ==>
              r.1.rargs == s.rargs[1..] && r.1.values[dest] == Some(Current(s.values, dest) + [s.rargs[0]])
  {
    if value.Some? then (Fail(AssertionError), s)
    else if dest !in s.values then (Fail(AttributeError), s)
    else if |s.rargs| == 0 || |s.rargs[0]| == 0 then (Fail(IndexError), s)
    else if s.rargs[0][0] != '-' then
      (Pass, ParseState(s.rargs[1..], s.values[dest := Some(Current(s.values, dest) + [s.rargs[0]])]))
    else (Pass, s)
  }

  /** The values already collected for `dest` stay, in their order, at the
      front of its list, whatever the call does. */
  lemma VarargKeepsPrior(s: ParseState, dest: string, value: Option<string>)
    requires dest in s.values
    ensures var r := Vararg(s, dest, value);
      && dest in r.1.values
      && (r.1.values[dest] == s.values[dest]
          || (|Current(r.1.values, dest)| == |Current(s.values, dest)| + 1
              && Current(r.1.values, dest)[..|Current(s.values, dest)|] == Current(s.values, dest)))
  {
    var r := Vararg(s, dest, value);
    if r.1.values[dest] != s.values[dest] {
      var before := Current(s.values, dest);
      assert (before + [s.rargs[0]])[..|before|] == before;
    }
  }

  /** Every argument ends up in exactly one place: still among the remaining
      arguments, or at the end of the destination list. */
  lemma VarargMovesArgument(s: ParseState, dest: string, value: Option<string>)
    requires Vararg(s, dest, value).0 == Pass
    ensures var r := Vararg(s, dest, value);
      |r.1.rargs| + |Current(r.1.values, dest)| == |s.rargs| + |Current(s.values, dest)|
  {
  }

  /** The optparse parser, as far as the callback uses it. */
  class OptionParser {
    var rargs: seq<string>
    var values: map<string, Option<seq<string>>>

    /** `vararg_callback(option, opt_str, value, parser)`. */
    method VarargCallback(dest: string, value: Option<string>) returns (o: Outcome)
      modifies this
      ensures (o, ParseState(rargs, values)) == Vararg(ParseState(old(rargs), old(values)), dest, value)
    {
      if value.Some? {
        return Fail(AssertionError);
      }
      if dest !in values {
        return Fail(AttributeError);
      }
      var v := values[dest].GetOr([]);
      if |rargs| == 0 {
        return Fail(IndexError);
      }
      var arg := rargs[0];
      if |arg| == 0 {
        return Fail(IndexError);
      }
      if arg[0] != '-' {
        v := v + [arg];
        rargs := rargs[1..];
        values := values[dest := Some(v)];
      }
      return Pass;
    }
  }
}
