/**
 * The test judge of scripts/python/judge.py: composable line matchers built from
 * the resolved test configuration, and the per-line decision loop of one test run.
 *
 * A matcher node is exclusively owned by its parent, so the Python objects that
 * mutate their own fields are modelled as values: `Apply` returns the updated node.
 * The regex engine is the parameter `search`: `search(regex, line)` is the text of
 * the first match of `regex` in `line`, or None when the regex is not found.
 */
module Judge {
  import opened Wrappers

  /** A value of the resolved test configuration (a YAML document). */
  datatype Config =
    | CNone
    | CStr(s: string)
    | CInt(n: int)
    | CList(items: seq<Config>)
    | CDict(entries: map<string, Config>)

  type Search = (string, string) -> Option<string>

  /** The live state of one pattern object. */
  datatype Matcher =
    | Leaf(regex: string)                                  // StringPattern
    | Absent                                               // a child built from `None`
    | Ordered(pats: seq<Matcher>, next: nat)               // OrderedPattern.__pats, __next
    | Repeat(origin: Matcher, pat: Matcher, count: int, rem: int)  // RepeatPattern
    | Unordered(waiting: seq<Matcher>)                     // UnorderedPattern.__waiting_pats

  /** What `apply` returns: (retire, picked_strs). */
  datatype Outcome = Outcome(retire: bool, picked: seq<string>)

  /** The Python exceptions the engine can raise (none of them is a RuntimeError). */
  datatype PatternError =
    | InvalidPattern   // ValueError, or the NameError/KeyError/TypeError of a malformed dict
    | IndexError       // an OrderedPattern applied after its last child retired
    | AttributeError   // a child built from `None` being applied

  // ---------------------------------------------------------------------------
  // Pattern.of

  predicate IsAsciiLetter(c: char) { 'a' <= c <= 'z' || 'A' <= c <= 'Z' }

  function Upper(c: char): char { if 'a' <= c <= 'z' then (c as int - 32) as char else c }

  function Lower(c: char): char { if 'A' <= c <= 'Z' then (c as int + 32) as char else c }

  /** `str.title()` on ASCII text: a letter is upper-cased when it starts a word, lower-cased otherwise. */
  function Title(s: string): (r: string)
    ensures |r| == |s|
  {
    seq(|s|, i requires 0 <= i < |s| =>
      if !IsAsciiLetter(s[i]) then s[i]
      else if i > 0 && IsAsciiLetter(s[i - 1]) then Lower(s[i])
      else Upper(s[i]))
  }

  /**
   * `eval(name)` gives the class `cls`: `name` is `cls` after leading spaces and tabs, which
   * `eval` skips.
   */
  predicate Names(name: string, cls: string) {
    && |cls| <= |name|
    && name[|name| - |cls|..] == cls
    && forall i | 0 <= i < |name| - |cls| :: name[i] == ' ' || name[i] == '\t'
  }

  /** `Pattern.of`: None for None, a leaf for a string, the variant named by `type` for a dict. */
  function Of(c: Config): (r: Result<Option<Matcher>, PatternError>)
    decreases c, 0
  {
    match c
    case CNone => Ok(None)
    case CStr(s) => Ok(Some(Leaf(s)))
    case CDict(d) =>
      if "type" !in d || !d["type"].CStr? then Err(InvalidPattern)
      else
        var name := Title(d["type"].s) + "Pattern";
        if Names(name, "OrderedPattern") then
          if "vals" !in d || !d["vals"].CList? then Err(InvalidPattern)
          else
            var pats :- Children(d["vals"].items);
            Ok(Some(Ordered(pats, 0)))
        else if Names(name, "RepeatPattern") then
          if "pat" !in d || "count" !in d || !d["count"].CInt? then Err(InvalidPattern)
          else
            var pat :- Child(d["pat"]);
            Ok(Some(Repeat(pat, pat, d["count"].n, d["count"].n)))
        else if Names(name, "UnorderedPattern") then
          if "vals" !in d || !d["vals"].CList? then Err(InvalidPattern)
          else
            var pats :- Children(d["vals"].items);
            Ok(Some(Unordered(pats)))
        else Err(InvalidPattern)
    case _ => Err(InvalidPattern)
  }

  /** A child pattern: `None` children are kept and fail only when applied. */
  function Child(c: Config): Result<Matcher, PatternError>
    decreases c, 1
  {
    var m :- Of(c);
    Ok(if m.None? then Absent else m.value)
  }

  function Children(cs: seq<Config>): Result<seq<Matcher>, PatternError>
    decreases cs
  {
    if cs == [] then Ok([])
    else
      var head :- Child(cs[0]);
      var tail :- Children(cs[1..]);
      Ok([head] + tail)
  }

  // ---------------------------------------------------------------------------
  // apply

  /** `apply(s)` on a matcher in state `m`: the new state and the outcome. */
  function Apply(m: Matcher, line: string, search: Search): Result<(Matcher, Outcome), PatternError>
    decreases m
  {
    match m
    case Leaf(regex) =>
      if search(regex, line).Some? then Ok((m, Outcome(true, [search(regex, line).value])))
      else Ok((m, Outcome(false, [])))
    case Absent => Err(AttributeError)
    case Ordered(pats, next) =>
      if next >= |pats| then Err(IndexError)
      else
        var step :- Apply(pats[next], line, search);
        var (child, o) := step;
        var pats' := pats[next := child];
        if o.picked != [] then
          var next' := if o.retire then next + 1 else next;
          Ok((Ordered(pats', next'), Outcome(next' >= |pats|, o.picked)))
        else Ok((Ordered(pats', next), Outcome(false, [])))
    case Repeat(origin, pat, count, rem) =>
      var step :- Apply(pat, line, search);
      var (child, o) := step;
      var m' := if o.picked != [] && o.retire then Repeat(origin, origin, count, rem - 1)
                else Repeat(origin, child, count, rem);
      Ok((m', Outcome(m'.rem == 0, o.picked)))
    case Unordered(waiting) =>
      var step :- ApplyAll(waiting, line, search);
      var (kept, picked) := step;
      Ok((Unordered(kept), Outcome(kept == [], picked)))
  }

  /** The loop of `UnorderedPattern.apply`: every waiting child sees the line; those that retire leave. */
  function ApplyAll(ws: seq<Matcher>, line: string, search: Search): Result<(seq<Matcher>, seq<string>), PatternError>
    decreases ws
  {
    if ws == [] then Ok(([], []))
    else
      var step :- Apply(ws[0], line, search);
      var (child, o) := step;
      var step2 :- ApplyAll(ws[1..], line, search);
      var (kept, picked) := step2;
      var leaves := o.picked != [] && o.retire;
      Ok(((if leaves then [] else [child]) + kept, o.picked + picked))
  }

  /** Whether a node has completed: its "fully matched" condition. */
  predicate Full(m: Matcher) {
    match m
    case Ordered(pats, next) => next >= |pats|
    case Repeat(_, _, _, rem) => rem == 0
    case Unordered(waiting) => waiting == []
    case _ => false
  }

  /** The shape every node keeps while it is applied: an Ordered index never passes its end. */
  predicate Inv(m: Matcher) {
    match m
    case Ordered(pats, next) => next <= |pats| && forall i | 0 <= i < |pats| :: Inv(pats[i])
    case Repeat(origin, pat, _, _) => Inv(origin) && Inv(pat)
    case Unordered(waiting) => forall i | 0 <= i < |waiting| :: Inv(waiting[i])
    case _ => true
  }

  lemma {:induction false} OfSatisfiesInv(c: Config)
    ensures Of(c).Ok? && Of(c).value.Some? ==> Inv(Of(c).value.value)
    decreases c, 0
  {
    match c
    case CDict(d) =>
      if "type" in d && d["type"].CStr? {
        var name := Title(d["type"].s) + "Pattern";
        if Names(name, "OrderedPattern") {
          if "vals" in d && d["vals"].CList? {
            ChildrenSatisfyInv(d["vals"].items);
          }
        } else if Names(name, "RepeatPattern") {
          if "pat" in d {
            ChildSatisfiesInv(d["pat"]);
          }
        } else if Names(name, "UnorderedPattern") {
          if "vals" in d && d["vals"].CList? {
            ChildrenSatisfyInv(d["vals"].items);
          }
        }
      }
    case _ =>
  }

  lemma {:induction false} ChildSatisfiesInv(c: Config)
    ensures Child(c).Ok? ==> Inv(Child(c).value)
    decreases c, 1
  {
    OfSatisfiesInv(c);
  }

  lemma {:induction false} ChildrenSatisfyInv(cs: seq<Config>)
    ensures Children(cs).Ok? ==> |Children(cs).value| == |cs|
    ensures Children(cs).Ok? ==> forall i | 0 <= i < |cs| :: Inv(Children(cs).value[i])
    decreases cs
  {
    if cs != [] {
      ChildSatisfiesInv(cs[0]);
      ChildrenSatisfyInv(cs[1..]);
      if Children(cs).Ok? {
        var r := Children(cs).value;
        assert r == [Child(cs[0]).value] + Children(cs[1..]).value;
        forall i | 0 <= i < |cs| ensures Inv(r[i]) {
          if i > 0 { assert r[i] == Children(cs[1..]).value[i - 1]; }
        }
      }
    }
  }

  /** Applying a line keeps the shape invariant, and a node never reports retirement without being Full. */
  lemma {:induction false} ApplyPreservesInv(m: Matcher, line: string, search: Search)
    requires Inv(m)
    ensures Apply(m, line, search).Ok? ==> Inv(Apply(m, line, search).value.0)
    ensures Apply(m, line, search).Ok? && !m.Leaf? ==>
              Apply(m, line, search).value.1.retire == Full(Apply(m, line, search).value.0)
              || Apply(m, line, search).value.1.picked == []
    decreases m
  {
    match m
    case Ordered(pats, next) =>
      if next < |pats| {
        ApplyPreservesInv(pats[next], line, search);
        var r := Apply(pats[next], line, search);
        if r.Ok? {
          var pats' := pats[next := r.value.0];
          assert forall i | 0 <= i < |pats'| :: Inv(pats'[i]) by {
            forall i | 0 <= i < |pats'| ensures Inv(pats'[i]) {
              if i != next { assert pats'[i] == pats[i]; }
            }
          }
        }
      }
    case Repeat(origin, pat, _, _) =>
      ApplyPreservesInv(pat, line, search);
    case Unordered(waiting) =>
      ApplyAllPreservesInv(waiting, line, search);
    case _ =>
  }

  lemma {:induction false} ApplyAllPreservesInv(ws: seq<Matcher>, line: string, search: Search)
    requires forall i | 0 <= i < |ws| :: Inv(ws[i])
    ensures ApplyAll(ws, line, search).Ok? ==>
              var kept := ApplyAll(ws, line, search).value.0;
              |kept| <= |ws| && forall i | 0 <= i < |kept| :: Inv(kept[i])
    decreases ws
  {
    if ws != [] {
      ApplyPreservesInv(ws[0], line, search);
      ApplyAllPreservesInv(ws[1..], line, search);
      var r := Apply(ws[0], line, search);
      var rest := ApplyAll(ws[1..], line, search);
      if r.Ok? && rest.Ok? {
        var o := r.value.1;
        var head := if o.picked != [] && o.retire then [] else [r.value.0];
        var kept := head + rest.value.0;
        forall i | 0 <= i < |kept| ensures Inv(kept[i]) {
          if i >= |head| { assert kept[i] == rest.value.0[i - |head|]; }
        }
      }
    }
  }

  // ---------------------------------------------------------------------------
  // Per-variant behaviour of apply

  /** A leaf retires exactly when its regex is found, capturing the matched text; it has no state. */
  lemma LeafStep(regex: string, line: string, search: Search)
    ensures Apply(Leaf(regex), line, search).Ok?
    ensures var (m', o) := Apply(Leaf(regex), line, search).value;
            && m' == Leaf(regex)
            && (o.retire <==> search(regex, line).Some?)
            && (o.picked != [] <==> search(regex, line).Some?)
            && (search(regex, line).Some? ==> o.picked == [search(regex, line).value])
  {
  }

  /**
   * Ordered consults only the child at its index; the index moves on exactly when that
   * child both captured and retired, and the node is full exactly when the index reaches the end.
   * Applied once it is complete, it raises IndexError.
   */
  lemma OrderedStep(pats: seq<Matcher>, next: nat, line: string, search: Search)
    ensures next >= |pats| ==> Apply(Ordered(pats, next), line, search) == Err(IndexError)
    ensures next < |pats| ==>
      var r := Apply(Ordered(pats, next), line, search);
      var c := Apply(pats[next], line, search);
      && (r.Ok? <==> c.Ok?)
      && (c.Ok? ==>
            var (child, co) := c.value;
            var (m', o) := r.value;
            && m'.Ordered? && |m'.pats| == |pats|
            && m'.pats[next] == child
            && (forall i | 0 <= i < |pats| && i != next :: m'.pats[i] == pats[i])
            && (m'.next == if co.picked != [] && co.retire then next + 1 else next)
            && o.picked == co.picked
            && (o.retire <==> co.picked != [] && m'.next == |pats|))
  {
  }

  /**
   * Repeat decrements its remaining count and rebuilds its child exactly when the child
   * captured and retired; it forwards the child's captures and is full exactly at zero.
   */
  lemma RepeatStep(origin: Matcher, pat: Matcher, count: int, rem: int, line: string, search: Search)
    ensures var r := Apply(Repeat(origin, pat, count, rem), line, search);
            var c := Apply(pat, line, search);
            && (r.Ok? <==> c.Ok?)
            && (c.Ok? ==>
                  var (child, co) := c.value;
                  var (m', o) := r.value;
                  var closes := co.picked != [] && co.retire;
                  && m' == (if closes then Repeat(origin, origin, count, rem - 1) else Repeat(origin, child, count, rem))
                  && o.picked == co.picked
                  && (o.retire <==> m'.rem == 0))
  {
  }

  /**
   * Unordered applies every waiting child to the same line, drops exactly those that
   * captured and retired, concatenates their captures, and is full when none is waiting.
   */
  lemma {:induction false} UnorderedStep(ws: seq<Matcher>, line: string, search: Search)
    requires forall i | 0 <= i < |ws| :: Apply(ws[i], line, search).Ok?
    ensures ApplyAll(ws, line, search).Ok?
    ensures var (kept, picked) := ApplyAll(ws, line, search).value;
            && kept == Survivors(ws, line, search)
            && picked == AllPicked(ws, line, search)
            && Apply(Unordered(ws), line, search) == Ok((Unordered(kept), Outcome(kept == [], picked)))
  {
    if ws != [] {
      UnorderedStep(ws[1..], line, search);
    }
  }

  /** The children's new states, in order, leaving out those that captured and retired. */
  function Survivors(ws: seq<Matcher>, line: string, search: Search): seq<Matcher>
    requires forall i | 0 <= i < |ws| :: Apply(ws[i], line, search).Ok?
  {
    if ws == [] then []
    else
      var (child, o) := Apply(ws[0], line, search).value;
      (if o.picked != [] && o.retire then [] else [child]) + Survivors(ws[1..], line, search)
  }

  /** The children's captures, concatenated in order. */
  function AllPicked(ws: seq<Matcher>, line: string, search: Search): seq<string>
    requires forall i | 0 <= i < |ws| :: Apply(ws[i], line, search).Ok?
  {
    if ws == [] then [] else Apply(ws[0], line, search).value.1.picked + AllPicked(ws[1..], line, search)
  }

  /** Two leaves found on the same line both retire on it, completing the Unordered node at once. */
  lemma UnorderedBothOnOneLine(a: string, b: string, line: string, search: Search)
    requires search(a, line).Some? && search(b, line).Some?
    ensures Apply(Unordered([Leaf(a), Leaf(b)]), line, search)
            == Ok((Unordered([]), Outcome(true, [search(a, line).value, search(b, line).value])))
  {
    assert [Leaf(a), Leaf(b)][1..] == [Leaf(b)];
    assert [Leaf(b)][1..] == [];
    assert ApplyAll([], line, search) == Ok(([], []));
    assert Apply(Leaf(b), line, search) == Ok((Leaf(b), Outcome(true, [search(b, line).value])));
    assert Apply(Leaf(a), line, search) == Ok((Leaf(a), Outcome(true, [search(a, line).value])));
    assert ApplyAll([Leaf(b)], line, search).value == ([] + [], [search(b, line).value] + []);
    assert ApplyAll([Leaf(b)], line, search).value.1 == [search(b, line).value];
    assert ApplyAll([Leaf(b)], line, search).value.0 == [];
    assert ApplyAll([Leaf(b)], line, search) == Ok(([], [search(b, line).value]));
    var r := ApplyAll([Leaf(a), Leaf(b)], line, search);
    assert r.Ok? && r.value.0 == [] + [];
    assert r.value.1 == [search(a, line).value] + [search(b, line).value];
    assert r.value.0 == [];
    assert r.value.1 == [search(a, line).value, search(b, line).value];
  }

  // ---------------------------------------------------------------------------
  // Repeated application

  /** Apply a matcher to a stream of lines, in order. */
  function ApplyLines(m: Matcher, lines: seq<string>, search: Search): Result<Matcher, PatternError>
    decreases |lines|
  {
    if lines == [] then Ok(m)
    else
      var step :- Apply(m, lines[0], search);
      var (m', _) := step;
      ApplyLines(m', lines[1..], search)
  }

  /** The number of lines in which `regex` is found. */
  function CountFound(regex: string, lines: seq<string>, search: Search): nat
  {
    if lines == [] then 0
    else (if search(regex, lines[0]).Some? then 1 else 0) + CountFound(regex, lines[1..], search)
  }

  /**
   * Repeat over a leaf counts down once per line that contains the regex: after the lines
   * its remaining count is `count` minus the number of such lines.
   */
  lemma {:induction false} RepeatLeafCounts(regex: string, count: int, rem: int, lines: seq<string>, search: Search)
    ensures ApplyLines(Repeat(Leaf(regex), Leaf(regex), count, rem), lines, search)
            == Ok(Repeat(Leaf(regex), Leaf(regex), count, rem - CountFound(regex, lines, search)))
    decreases |lines|
  {
    if lines != [] {
      var m := Repeat(Leaf(regex), Leaf(regex), count, rem);
      var rem' := if search(regex, lines[0]).Some? then rem - 1 else rem;
      assert Apply(m, lines[0], search).Ok?;
      assert Apply(m, lines[0], search).value.0 == Repeat(Leaf(regex), Leaf(regex), count, rem');
      RepeatLeafCounts(regex, count, rem', lines[1..], search);
    }
  }

  // ---------------------------------------------------------------------------
  // Test.__call__ and judge

  datatype Verdict =
    | Passed                        // the expected pattern retired: __call__ returns
    | UnexpectedFound(line: string) // RuntimeError: the unexpected pattern retired on `line`
    | ExpectedNotFound              // RuntimeError: the output ended first
    | TimedOut                      // RuntimeError raised by the alarm handler
    | Raised(err: PatternError)     // an exception that is not a RuntimeError

  /** The guard on the unexpected pattern for one line: its new state, or the line that trips it. */
  function CheckUnexpected(unexpected: Option<Matcher>, line: string, search: Search)
    : Result<Option<Matcher>, Verdict>
  {
    if unexpected.None? then Ok(None)
    else
      match Apply(unexpected.value, line, search)
      case Err(e) => Err(Raised(e))
      case Ok((m', o)) => if o.picked != [] && o.retire then Err(UnexpectedFound(line)) else Ok(Some(m'))
  }

  /**
   * The verdict of the line loop over the lines read before the stream ended.
   * `timedOut` says why it ended: the alarm fired (true) or the child closed its output (false).
   */
  function Decide(unexpected: Option<Matcher>, expected: Matcher, lines: seq<string>, timedOut: bool,
                  search: Search): Verdict
    decreases |lines|
  {
    if lines == [] then (if timedOut then TimedOut else ExpectedNotFound)
    else
      match CheckUnexpected(unexpected, lines[0], search)
      case Err(v) => v
      case Ok(unexpected') =>
        match Apply(expected, lines[0], search)
        case Err(e) => Raised(e)
        case Ok((expected', o)) =>
          if o.picked != [] && o.retire then Passed
          else Decide(unexpected', expected', lines[1..], timedOut, search)
  }

  /** The `for out in proc.stdout` loop of `Test.__call__`, run over the lines actually read. */
  method RunLines(unexpected: Option<Matcher>, expected: Matcher, lines: seq<string>, timedOut: bool,
                  search: Search) returns (v: Verdict)
    ensures v == Decide(unexpected, expected, lines, timedOut, search)
  {
    var u, e := unexpected, expected;
    var i := 0;
    while i < |lines|
      invariant 0 <= i <= |lines|
      invariant Decide(unexpected, expected, lines, timedOut, search) == Decide(u, e, lines[i..], timedOut, search)
    {
      var line := lines[i];
      assert lines[i..][0] == line && lines[i..][1..] == lines[i + 1..];
      var guard := CheckUnexpected(u, line, search);
      if guard.Err? {
        return guard.error;
      }
      u := guard.value;
      var r := Apply(e, line, search);
      if r.Err? {
        return Raised(r.error);
      }
      var o := r.value.1;
      if o.picked != [] && o.retire {
        return Passed;
      }
      e := r.value.0;
      i := i + 1;
    }
    v := if timedOut then TimedOut else ExpectedNotFound;
  }

  /** The configuration value at `key`, as `dict.get` gives it. */
  function Get(conf: map<string, Config>, key: string): Config {
    if key in conf then conf[key] else CNone
  }

  /**
   * `Test.__call__`: build both patterns (a malformed one raises before anything runs),
   * insist on an expected pattern, then judge the output lines.
   */
  function TestCall(conf: map<string, Config>, lines: seq<string>, timedOut: bool, search: Search): Verdict
  {
    match (Of(Get(conf, "expected")), Of(Get(conf, "unexpected")))
    case (Err(e), _) => Raised(e)
    case (_, Err(e)) => Raised(e)
    case (Ok(None), _) => Raised(InvalidPattern)
    case (Ok(Some(expected)), Ok(unexpected)) => Decide(unexpected, expected, lines, timedOut, search)
  }

  /** `judge`: the exit status, 0 for a pass, 1 for a RuntimeError; None when another exception escapes. */
  function JudgeStatus(v: Verdict): (r: Option<int>)
    ensures r == Some(0) <==> v.Passed?
    ensures r == Some(1) <==> (v.UnexpectedFound? || v.ExpectedNotFound? || v.TimedOut?)
    ensures r.None? <==> v.Raised?
  {
    match v
    case Passed => Some(0)
    case Raised(_) => None
    case _ => Some(1)
  }

  /**
   * The BOOTARGS the emulator is started with: a non-empty test argument string is
   * appended, after one space, to an inherited value, or becomes the value.
   */
  function BootargsEnv(inherited: Option<string>, bootargs: string): (r: Option<string>)
    ensures bootargs == [] ==> r == inherited
    ensures bootargs != [] ==> r.Some? && |bootargs| <= |r.value| && r.value[|r.value| - |bootargs|..] == bootargs
    ensures bootargs != [] && inherited.Some? ==> r.value == inherited.value + " " + bootargs
    ensures bootargs != [] && inherited.None? ==> r.value == bootargs
  {
    if bootargs == [] then inherited
    else if inherited.Some? then Some(inherited.value + " " + bootargs)
    else Some(bootargs)
  }

  // ---------------------------------------------------------------------------
  // Properties of the decision

  /** The index of the first line in which `regex` is found, or the number of lines when there is none. */
  function FirstFound(regex: string, lines: seq<string>, search: Search): (r: nat)
    ensures r <= |lines|
    ensures r < |lines| ==> search(regex, lines[r]).Some?
    ensures forall j | 0 <= j < r :: search(regex, lines[j]).None?
  {
    if lines == [] then 0
    else if search(regex, lines[0]).Some? then 0
    else 1 + FirstFound(regex, lines[1..], search)
  }

  /**
   * With leaf patterns the verdict is decided by the first lines containing each regex:
   * the unexpected one wins when it appears no later than the expected one (it is checked
   * first on every line), the expected one passes otherwise, and the end of the stream
   * decides when neither appears.
   */
  lemma {:induction false} LeafDecision(u: string, x: string, lines: seq<string>, timedOut: bool, search: Search)
    ensures var k, i := FirstFound(u, lines, search), FirstFound(x, lines, search);
            Decide(Some(Leaf(u)), Leaf(x), lines, timedOut, search)
            == if k < |lines| && k <= i then UnexpectedFound(lines[k])
               else if i < |lines| then Passed
               else if timedOut then TimedOut
               else ExpectedNotFound
    decreases |lines|
  {
    if lines != [] && search(u, lines[0]).None? && search(x, lines[0]).None? {
      LeafDecision(u, x, lines[1..], timedOut, search);
    }
  }

  /** Without an unexpected pattern, a leaf test passes exactly when some line contains its regex. */
  lemma {:induction false} LeafPassesIffFound(x: string, lines: seq<string>, timedOut: bool, search: Search)
    ensures Decide(None, Leaf(x), lines, timedOut, search).Passed?
            <==> exists i | 0 <= i < |lines| :: search(x, lines[i]).Some?
    ensures !Decide(None, Leaf(x), lines, timedOut, search).Passed?
            ==> Decide(None, Leaf(x), lines, timedOut, search) == if timedOut then TimedOut else ExpectedNotFound
    decreases |lines|
  {
    if lines != [] && search(x, lines[0]).None? {
      LeafPassesIffFound(x, lines[1..], timedOut, search);
      if exists i | 0 <= i < |lines| :: search(x, lines[i]).Some? {
        var i :| 0 <= i < |lines| && search(x, lines[i]).Some?;
        assert lines[1..][i - 1] == lines[i];
      }
    }
  }

  /** A configuration without an expected pattern is rejected before any output is judged. */
  lemma NoExpectedRaises(conf: map<string, Config>, lines: seq<string>, timedOut: bool, search: Search)
    requires Get(conf, "expected") == CNone
    ensures TestCall(conf, lines, timedOut, search).Raised?
    ensures JudgeStatus(TestCall(conf, lines, timedOut, search)).None?
  {
  }

  /** A `type` written with leading blanks names the same pattern: `eval` skips them. */
  lemma BlankTypeNamesPattern()
    ensures Of(CDict(map["type" := CStr(" \tordered"), "vals" := CList([])])) == Ok(Some(Ordered([], 0)))
  {
    var n := Title(" \tordered") + "Pattern";
    assert Title(" \tordered") == " \tOrdered";
    assert n[2..] == "OrderedPattern";
    assert Names(n, "OrderedPattern");
    assert Children([]) == Ok([]);
  }

  /** `type: "ordered"` names the class `OrderedPattern`. */
  lemma OrderedName()
    ensures Names(Title("ordered") + "Pattern", "OrderedPattern")
  {
    assert Title("ordered") == "Ordered";
    assert Title("ordered") + "Pattern" == "OrderedPattern";
  }

  /** Two string children build two leaves, in order. */
  lemma TwoLeaves(a: string, b: string)
    ensures Children([CStr(a), CStr(b)]) == Ok([Leaf(a), Leaf(b)])
  {
    assert [CStr(a), CStr(b)][1..] == [CStr(b)];
    assert [CStr(b)][1..] == [];
    assert Children([]) == Ok([]);
    assert Child(CStr(a)) == Ok(Leaf(a));
    assert Child(CStr(b)) == Ok(Leaf(b));
    assert Children([CStr(b)]).value == [Leaf(b)] + [];
    assert Children([CStr(b)]).value == [Leaf(b)];
    assert Children([CStr(b)]) == Ok([Leaf(b)]);
    assert Children([CStr(a), CStr(b)]).value == [Leaf(a)] + [Leaf(b)];
    assert Children([CStr(a), CStr(b)]).value == [Leaf(a), Leaf(b)];
  }

  /** An `ordered` configuration of two strings builds the Ordered pattern of their two leaves. */
  lemma OrderedOfTwo(a: string, b: string)
    ensures Of(CDict(map["type" := CStr("ordered"), "vals" := CList([CStr(a), CStr(b)])])) == Ok(Some(Ordered([Leaf(a), Leaf(b)], 0)))
  {
    var d := map["type" := CStr("ordered"), "vals" := CList([CStr(a), CStr(b)])];
    assert d["type"].s == "ordered";
    OrderedName();
    assert d["vals"].items == [CStr(a), CStr(b)];
    TwoLeaves(a, b);
  }

  /** An `ordered` configuration of two strings passes once both are seen, in that order, on different lines. */
  lemma OrderedConfigNeedsOrder(a: string, b: string, l1: string, l2: string, search: Search)
    requires search(a, l1).Some? && search(b, l1).None? && search(b, l2).Some?
    ensures var conf := map["expected" := CDict(map["type" := CStr("ordered"), "vals" := CList([CStr(a), CStr(b)])])];
            && Decide(None, Ordered([Leaf(a), Leaf(b)], 0), [l1], false, search) == ExpectedNotFound
            && TestCall(conf, [l1, l2], false, search) == Passed
  {
    var conf := map["expected" := CDict(map["type" := CStr("ordered"), "vals" := CList([CStr(a), CStr(b)])])];
    OrderedOfTwo(a, b);
    assert Of(Get(conf, "expected")) == Ok(Some(Ordered([Leaf(a), Leaf(b)], 0)));
    assert Of(Get(conf, "unexpected")) == Ok(None);
    var m0 := Ordered([Leaf(a), Leaf(b)], 0);
    var m1 := Ordered([Leaf(a), Leaf(b)], 1);
    assert [Leaf(a), Leaf(b)][0 := Leaf(a)] == [Leaf(a), Leaf(b)];
    assert [Leaf(a), Leaf(b)][1 := Leaf(b)] == [Leaf(a), Leaf(b)];
    assert Apply(m0, l1, search) == Ok((m1, Outcome(false, [search(a, l1).value])));
    assert Apply(m1, l2, search) == Ok((Ordered([Leaf(a), Leaf(b)], 2), Outcome(true, [search(b, l2).value])));
    assert [l1][1..] == [];
    assert Decide(None, m1, [], false, search) == ExpectedNotFound;
    assert [l1, l2][1..] == [l2];
    assert Decide(None, m1, [l2], false, search) == Passed;
    assert Decide(None, m0, [l1, l2], false, search) == Decide(None, m1, [l2], false, search);
  }

  /** `judge` returns 0 only for a passing run, and 1 exactly when the run raised a RuntimeError. */
  lemma JudgeExitCodes(conf: map<string, Config>, lines: seq<string>, timedOut: bool, search: Search)
    ensures var v := TestCall(conf, lines, timedOut, search);
            && (JudgeStatus(v) == Some(0) <==> v.Passed?)
            && (JudgeStatus(v) == Some(1) <==> !v.Passed? && !v.Raised?)
  {
  }
}
