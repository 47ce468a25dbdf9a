/**
 * The dependency tracer of the instantiation service: each trace records the
 * dependencies resolved under it as `(id, first, child)` entries, and
 * `stop` prints the tree of those entries as tab-indented `CREATES` and
 * `uses` lines.
 *
 * Trace objects are kept in one table, `TraceStore.nodes`, and referred to by
 * their position in it. A child is always created after its parent, so its
 * position is larger, which is what makes the printer terminate.
 */
module Tracing {
  import opened Wrappers
  import Decimal

  datatype TraceType = Creation | Invocation | Branch

  /** One `_deps` entry: the dependency's id, whether it was created for the first time, and its trace. */
  datatype Dep = Dep(id: string, first: bool, child: nat)

  /** One trace object: its type, its name and its `_deps`. */
  datatype TraceNode = TraceNode(kind: TraceType, name: string, deps: seq<Dep>)

  /** Every entry points at a trace created after its owner. */
  predicate WellFormed(nodes: seq<TraceNode>)
  {
    forall i, j :: 0 <= i < |nodes| && 0 <= j < |nodes[i].deps| ==>
      i < nodes[i].deps[j].child < |nodes|
  }

  /** One printed line: its nesting depth, its verb, and the dependency id. */
  datatype Line = Line(depth: nat, creates: bool, id: string)

  /** `new Array(k)`: `k` holes, each of which `join` renders as the empty string. */
  function EmptyArray(k: nat): (a: seq<string>)
    ensures |a| == k
  {
    seq(k, _ => "")
  }

  /** `new Array(n + 1).join('\t')` */
  function Tabs(n: nat): (s: string)
    ensures |s| == n && forall i :: 0 <= i < n ==> s[i] == '\t'
  {
    JoinEmpty(n);
    Join("\t", EmptyArray(n + 1))
  }

  /** Joining `n + 1` empty strings with a tab leaves only the `n` separators. */
  lemma {:induction false} JoinEmpty(n: nat)
    ensures var s := Join("\t", EmptyArray(n + 1));
      |s| == n && forall i :: 0 <= i < n ==> s[i] == '\t'
  {
    if n > 0 {
      JoinEmpty(n - 1);
      assert EmptyArray(n + 1)[..n] == EmptyArray(n);
      assert Join("\t", EmptyArray(n + 1)) == Join("\t", EmptyArray(n)) + "\t" + "";
    }
  }

  function Render(l: Line): string
  {
    Tabs(l.depth) + (if l.creates then "CREATES -> " else "uses -> ") + l.id
  }

  /** Every rendered line starts with exactly `depth` tab characters. */
  lemma RenderIndent(l: Line)
    ensures |Render(l)| > l.depth
    ensures forall i :: 0 <= i < l.depth ==> Render(l)[i] == '\t'
    ensures Render(l)[l.depth] == if l.creates then 'C' else 'u'
  {
  }

  /**
   * The lines `printChild(n, nodes[t])` produces for the first `k` entries of
   * the trace: one line per entry at depth `n`, a creation followed by the
   * lines of its own trace at depth `n + 1`.
   */
  function Lines(nodes: seq<TraceNode>, n: nat, t: nat, k: nat): seq<Line>
    requires WellFormed(nodes) && t < |nodes| && k <= |nodes[t].deps|
    decreases |nodes| - t, k
  {
    if k == 0 then []
    else
      var d := nodes[t].deps[k - 1];
      Lines(nodes, n, t, k - 1) + [Line(n, d.first, d.id)] +
        (if d.first then ChildLines(nodes, n + 1, d.child) else [])
  }

  /** All the lines `printChild(n, nodes[c])` produces. */
  function ChildLines(nodes: seq<TraceNode>, n: nat, c: nat): seq<Line>
    requires WellFormed(nodes) && c < |nodes|
    decreases |nodes| - c, |nodes[c].deps| + 1
  {
    Lines(nodes, n, c, |nodes[c].deps|)
  }

  /** `lines.join(sep)` */
  function Join(sep: string, lines: seq<string>): string
  {
    if |lines| == 0 then ""
    else if |lines| == 1 then lines[0]
    else Join(sep, lines[..|lines| - 1]) + sep + lines[|lines| - 1]
  }

  function RenderAll(lines: seq<Line>): (r: seq<string>)
    ensures |r| == |lines|
  {
    seq(|lines|, i requires 0 <= i < |lines| => Render(lines[i]))
  }

  /** The text of a sequence of lines. */
  function Text(lines: seq<Line>): string
  {
    Join("\n", RenderAll(lines))
  }

  /** The text of two non-empty line sequences is the two texts joined by a newline. */
  lemma {:induction false} JoinAppend(sep: string, a: seq<string>, b: seq<string>)
    requires |a| > 0 && |b| > 0
    ensures Join(sep, a + b) == Join(sep, a) + sep + Join(sep, b)
    decreases |b|
  {
    if |b| > 1 {
      var n := |b| - 1;
      JoinAppend(sep, a, b[..n]);
      assert (a + b)[..|a + b| - 1] == a + b[..n];
    } else {
      assert (a + b)[..|a + b| - 1] == a;
    }
  }

  /** A sequence of lines has empty text exactly when it is empty. */
  lemma TextEmpty(lines: seq<Line>)
    ensures Text(lines) == "" <==> lines == []
  {
    if |lines| > 0 {
      var r := RenderAll(lines);
      if |r| > 1 {
        assert |Join("\n", r)| >= |r[|r| - 1]| > 0;
      } else {
        assert Join("\n", r) == Render(lines[0]);
      }
    }
  }

  lemma TextAppend(a: seq<Line>, b: seq<Line>)
    requires a != [] && b != []
    ensures Text(a + b) == Text(a) + "\n" + Text(b)
  {
    assert RenderAll(a + b) == RenderAll(a) + RenderAll(b);
    JoinAppend("\n", RenderAll(a), RenderAll(b));
  }

  /** Every line of `printChild(n, …)` is nested at depth `n` or deeper. */
  lemma {:induction false} LinesDepth(nodes: seq<TraceNode>, n: nat, t: nat, k: nat)
    requires WellFormed(nodes) && t < |nodes| && k <= |nodes[t].deps|
    ensures forall l :: l in Lines(nodes, n, t, k) ==> l.depth >= n
    decreases |nodes| - t, k
  {
    if k > 0 {
      var d := nodes[t].deps[k - 1];
      LinesDepth(nodes, n, t, k - 1);
      if d.first {
        LinesDepth(nodes, n + 1, d.child, |nodes[d.child].deps|);
      }
    }
  }

  /** The lines at exactly depth `n`, in order. */
  function AtDepth(lines: seq<Line>, n: nat): seq<Line>
  {
    if |lines| == 0 then []
    else AtDepth(lines[..|lines| - 1], n) + (if lines[|lines| - 1].depth == n then [lines[|lines| - 1]] else [])
  }

  lemma {:induction false} AtDepthAppend(a: seq<Line>, b: seq<Line>, n: nat)
    ensures AtDepth(a + b, n) == AtDepth(a, n) + AtDepth(b, n)
    decreases |b|
  {
    if |b| > 0 {
      AtDepthAppend(a, b[..|b| - 1], n);
      assert (a + b)[..|a + b| - 1] == a + b[..|b| - 1];
    } else {
      assert a + b == a;
    }
  }

  lemma {:induction false} AtDepthDeeper(lines: seq<Line>, n: nat)
    requires forall l :: l in lines ==> l.depth > n
    ensures AtDepth(lines, n) == []
  {
    if |lines| > 0 {
      assert lines[|lines| - 1] in lines;
      AtDepthDeeper(lines[..|lines| - 1], n);
    }
  }

  /** The line `printChild` writes for each entry itself: `CREATES` for a first creation, `uses` otherwise. */
  function EntryLines(n: nat, deps: seq<Dep>): seq<Line>
  {
    if |deps| == 0 then []
    else EntryLines(n, deps[..|deps| - 1]) + [Line(n, deps[|deps| - 1].first, deps[|deps| - 1].id)]
  }

  /**
   * At depth `n`, `printChild` writes exactly one line per entry, in the
   * order the entries were added, and nothing else: nested lines are all
   * deeper.
   */
  lemma {:induction false} LinesAtDepth(nodes: seq<TraceNode>, n: nat, t: nat, k: nat)
    requires WellFormed(nodes) && t < |nodes| && k <= |nodes[t].deps|
    ensures AtDepth(Lines(nodes, n, t, k), n) == EntryLines(n, nodes[t].deps[..k])
    decreases k
  {
    if k > 0 {
      LinesAtDepth(nodes, n, t, k - 1);
      LinesAtDepthStep(nodes, n, t, k - 1);
    } else {
      assert nodes[t].deps[..k] == [];
    }
  }

  /** One more entry adds its own line at depth `n` and only deeper lines besides. */
  lemma LinesAtDepthStep(nodes: seq<TraceNode>, n: nat, t: nat, i: nat)
    requires WellFormed(nodes) && t < |nodes| && i < |nodes[t].deps|
    requires AtDepth(Lines(nodes, n, t, i), n) == EntryLines(n, nodes[t].deps[..i])
    ensures AtDepth(Lines(nodes, n, t, i + 1), n) == EntryLines(n, nodes[t].deps[..i + 1])
  {
    var d := nodes[t].deps[i];
    var nested := if d.first then ChildLines(nodes, n + 1, d.child) else [];
    LinesStep(nodes, n, t, i);
    if d.first {
      LinesDepth(nodes, n + 1, d.child, |nodes[d.child].deps|);
    }
    AtDepthStep(Lines(nodes, n, t, i), Line(n, d.first, d.id), nested);
    EntryLinesSnoc(n, nodes[t].deps, i + 1);
  }

  /** Lines at depth `n`, after one more line at depth `n` and some deeper ones. */
  lemma AtDepthStep(before: seq<Line>, line: Line, nested: seq<Line>)
    requires forall l :: l in nested ==> l.depth > line.depth
    ensures AtDepth(before + [line] + nested, line.depth) == AtDepth(before, line.depth) + [line]
  {
    var n := line.depth;
    AtDepthDeeper(nested, n);
    AtDepthAppend(before, [line], n);
    AtDepthAppend(before + [line], nested, n);
    assert AtDepth([line], n) == [line] by {
      assert [line][..0] == [];
    }
  }

  lemma EntryLinesSnoc(n: nat, deps: seq<Dep>, k: nat)
    requires 0 < k <= |deps|
    ensures EntryLines(n, deps[..k]) == EntryLines(n, deps[..k - 1]) + [Line(n, deps[k - 1].first, deps[k - 1].id)]
  {
    assert deps[..k][..k - 1] == deps[..k - 1];
  }

  /** Some of the first `k` entries is a first creation. */
  predicate CreatesAmong(deps: seq<Dep>, k: nat)
    requires k <= |deps|
  {
    exists j :: 0 <= j < k && deps[j].first
  }

  /**
   * `causedCreation` ends true exactly when a `CREATES` line was printed: a
   * `CREATES` line anywhere in the tree implies one among the trace's own
   * entries, since only creations are expanded.
   */
  lemma {:induction false} CreatesLineIff(nodes: seq<TraceNode>, n: nat, t: nat, k: nat)
    requires WellFormed(nodes) && t < |nodes| && k <= |nodes[t].deps|
    ensures (exists l :: l in Lines(nodes, n, t, k) && l.creates) <==> CreatesAmong(nodes[t].deps, k)
  {
    if k > 0 {
      var d := nodes[t].deps[k - 1];
      CreatesLineIff(nodes, n, t, k - 1);
      var ls := Lines(nodes, n, t, k);
      if CreatesAmong(nodes[t].deps, k) {
        var j :| 0 <= j < k && nodes[t].deps[j].first;
        if j == k - 1 {
          assert Line(n, d.first, d.id) in ls;
        } else {
          assert CreatesAmong(nodes[t].deps, k - 1);
          var l :| l in Lines(nodes, n, t, k - 1) && l.creates;
          assert l in ls;
        }
      } else {
        assert !d.first;
        assert ls == Lines(nodes, n, t, k - 1) + [Line(n, false, d.id)];
      }
    }
  }

  /** The text `printChild(n, nodes[t])` returns. */
  function PrintedText(nodes: seq<TraceNode>, n: nat, t: nat): string
    requires WellFormed(nodes) && t < |nodes|
  {
    Text(ChildLines(nodes, n, t))
  }

  /** `res.push(x)` seen through `res.join('\n')`. */
  lemma JoinSnoc(sep: string, res: seq<string>, x: string)
    ensures Join(sep, res + [x]) == if res == [] then x else Join(sep, res) + sep + x
  {
    assert (res + [x])[..|res|] == res;
  }

  /**
   * A `uses` entry in a loop step of `printChild`: pushing its line keeps
   * `res.join('\n')` equal to the text of the lines so far.
   */
  lemma UseStep(res: seq<string>, before: seq<Line>, n: nat, id: string)
    requires Join("\n", res) == Text(before) && (res == [] <==> before == [])
    ensures Join("\n", res + [Tabs(n) + "uses -> " + id]) == Text(before + [Line(n, false, id)])
  {
    var line := Line(n, false, id);
    JoinSnoc("\n", res, Render(line));
    assert Text([line]) == Render(line);
    if before != [] {
      TextAppend(before, [line]);
    } else {
      assert before + [line] == [line];
    }
  }

  /**
   * A `CREATES` entry in a loop step of `printChild`: pushing its line and,
   * when the nested text is not empty, that text keeps `res.join('\n')`
   * equal to the text of the lines so far.
   */
  lemma CreateStep(res: seq<string>, before: seq<Line>, n: nat, id: string, inner: seq<Line>)
    requires Join("\n", res) == Text(before) && (res == [] <==> before == [])
    ensures var res' := res + [Tabs(n) + "CREATES -> " + id];
      Join("\n", if Text(inner) == "" then res' else res' + [Text(inner)]) ==
        Text(before + [Line(n, true, id)] + inner)
  {
    var line := Line(n, true, id);
    var res' := res + [Render(line)];
    JoinSnoc("\n", res, Render(line));
    assert Text([line]) == Render(line);
    if before != [] {
      TextAppend(before, [line]);
    } else {
      assert before + [line] == [line];
    }
    TextEmpty(inner);
    if inner == [] {
      assert before + [line] + inner == before + [line];
    } else {
      JoinSnoc("\n", res', Text(inner));
      TextAppend(before + [line], inner);
    }
  }

  /** The lines after one more entry: its own line, then its trace's lines for a first creation. */
  lemma LinesStep(nodes: seq<TraceNode>, n: nat, t: nat, i: nat)
    requires WellFormed(nodes) && t < |nodes| && i < |nodes[t].deps|
    ensures var d := nodes[t].deps[i];
      Lines(nodes, n, t, i + 1) ==
        Lines(nodes, n, t, i) + [Line(n, d.first, d.id)] + (if d.first then ChildLines(nodes, n + 1, d.child) else [])
    ensures Lines(nodes, n, t, i) == [] <==> i == 0
  {
    if i > 0 {
      assert |Lines(nodes, n, t, i)| >= 1;
    }
  }

  lemma CreatesAmongStep(deps: seq<Dep>, i: nat)
    requires i < |deps|
    ensures CreatesAmong(deps, i + 1) <==> CreatesAmong(deps, i) || deps[i].first
  {
    if CreatesAmong(deps, i + 1) && !deps[i].first {
      var j :| 0 <= j < i + 1 && deps[j].first;
      assert j < i;
    }
  }

  /** A loop step of `printChild` over a `uses` entry. */
  lemma UseEntry(nodes: seq<TraceNode>, n: nat, t: nat, i: nat, res: seq<string>)
    requires WellFormed(nodes) && t < |nodes| && i < |nodes[t].deps| && !nodes[t].deps[i].first
    requires Join("\n", res) == Text(Lines(nodes, n, t, i)) && (res == [] <==> i == 0)
    ensures Join("\n", res + [Tabs(n) + "uses -> " + nodes[t].deps[i].id]) == Text(Lines(nodes, n, t, i + 1))
    ensures CreatesAmong(nodes[t].deps, i + 1) <==> CreatesAmong(nodes[t].deps, i)
  {
    var d := nodes[t].deps[i];
    LinesStep(nodes, n, t, i);
    CreatesAmongStep(nodes[t].deps, i);
    UseStep(res, Lines(nodes, n, t, i), n, d.id);
    assert Lines(nodes, n, t, i + 1) == Lines(nodes, n, t, i) + [Line(n, false, d.id)];
  }

  /** A loop step of `printChild` over a `CREATES` entry, whose trace printed `nested`. */
  lemma CreateEntry(nodes: seq<TraceNode>, n: nat, t: nat, i: nat, res: seq<string>, nested: string)
    requires WellFormed(nodes) && t < |nodes| && i < |nodes[t].deps| && nodes[t].deps[i].first
    requires Join("\n", res) == Text(Lines(nodes, n, t, i)) && (res == [] <==> i == 0)
    requires nested == PrintedText(nodes, n + 1, nodes[t].deps[i].child)
    ensures var res' := res + [Tabs(n) + "CREATES -> " + nodes[t].deps[i].id];
      Join("\n", if nested == "" then res' else res' + [nested]) == Text(Lines(nodes, n, t, i + 1))
    ensures CreatesAmong(nodes[t].deps, i + 1)
  {
    var d := nodes[t].deps[i];
    LinesStep(nodes, n, t, i);
    CreatesAmongStep(nodes[t].deps, i);
    CreateStep(res, Lines(nodes, n, t, i), n, d.id, ChildLines(nodes, n + 1, d.child));
  }

  /**
   * `printChild`: the text of the trace's lines at depth `n`, and whether one
   * of its entries was a first creation.
   */
  method PrintChild(nodes: seq<TraceNode>, n: nat, t: nat) returns (text: string, causedCreation: bool)
    requires WellFormed(nodes) && t < |nodes|
    ensures text == PrintedText(nodes, n, t)
    ensures causedCreation <==> CreatesAmong(nodes[t].deps, |nodes[t].deps|)
    decreases |nodes| - t
  {
    var deps := nodes[t].deps;
    var res: seq<string> := [];
    causedCreation := false;
    var prefix := Tabs(n);
    var i := 0;
    while i < |deps|
      invariant 0 <= i <= |deps|
      invariant Join("\n", res) == Text(Lines(nodes, n, t, i))
      invariant res == [] <==> i == 0
      invariant causedCreation <==> CreatesAmong(deps, i)
    {
      var d := deps[i];
      if d.first {
        ghost var before := res;
        causedCreation := true;
        res := res + [prefix + "CREATES -> " + d.id];
        var nested, nestedCreation := PrintChild(nodes, n + 1, d.child);
        causedCreation := causedCreation || nestedCreation;
        CreateEntry(nodes, n, t, i, before, nested);
        if nested != "" {
          res := res + [nested];
        }
      } else {
        UseEntry(nodes, n, t, i, res);
        res := res + [prefix + "uses -> " + d.id];
      }
      i := i + 1;
    }
    text := Join("\n", res);
  }

  /** `s.replace(/\n/g, '')` */
  function RemoveNewlines(s: string): (r: string)
    ensures |r| <= |s|
    ensures '\n' !in r
  {
    if |s| == 0 then ""
    else RemoveNewlines(s[..|s| - 1]) + (if s[|s| - 1] == '\n' then "" else [s[|s| - 1]])
  }

  /** Every character other than a newline is kept, as often as it occurs. */
  lemma {:induction false} RemoveNewlinesCounts(s: string)
    ensures multiset(RemoveNewlines(s)) == multiset(s)['\n' := 0]
  {
    if |s| > 0 {
      var n := |s| - 1;
      RemoveNewlinesCounts(s[..n]);
      assert s == s[..n] + [s[n]];
      assert multiset(s) == multiset(s[..n]) + multiset{s[n]};
    }
  }

  /**
   * Splitting off the last element of the right operand. Stated apart so
   * that `RemoveNewlinesAppend` uses it without the solver searching for it
   * among its own string terms.
   */
  lemma SplitLast<T>(a: seq<T>, b: seq<T>)
    requires |b| > 0
    ensures a + b == (a + b[..|b| - 1]) + [b[|b| - 1]]
  {
  }

  /** Concatenation regrouped; stated apart for the same reason as `SplitLast`. */
  lemma Associative<T>(x: seq<T>, y: seq<T>, z: seq<T>)
    ensures (x + y) + z == x + (y + z)
  {
  }

  /** One more character: a newline is dropped, anything else kept at the end. */
  lemma RemoveNewlinesSnoc(s: string, c: char)
    ensures RemoveNewlines(s + [c]) == RemoveNewlines(s) + (if c == '\n' then "" else [c])
  {
    assert (s + [c])[..|s|] == s;
  }

  /**
   * Newlines are removed piece by piece: the other characters keep their
   * order, and a lone newline disappears.
   */
  lemma {:induction false} RemoveNewlinesAppend(a: string, b: string)
    ensures RemoveNewlines(a + b) == RemoveNewlines(a) + RemoveNewlines(b)
    ensures RemoveNewlines("\n") == ""
    decreases |b|
  {
    RemoveNewlinesSnoc("", '\n');
    assert "" + ['\n'] == "\n";
    if |b| == 0 {
      assert a + b == a;
    } else {
      var n := |b| - 1;
      var x, y := RemoveNewlines(a), RemoveNewlines(b[..n]);
      var tail := if b[n] == '\n' then "" else [b[n]];
      RemoveNewlinesAppend(a, b[..n]);
      RemoveNewlinesSnoc(a + b[..n], b[n]);
      RemoveNewlinesSnoc(b[..n], b[n]);
      SplitLast(a, b);
      SplitLast([], b);
      Associative(x, y, tail);
    }
  }

  /** Text without newlines is left as it is. */
  lemma {:induction false} RemoveNewlinesKeeps(s: string)
    requires '\n' !in s
    ensures RemoveNewlines(s) == s
  {
    if |s| > 0 {
      assert '\n' !in s[..|s| - 1];
      RemoveNewlinesKeeps(s[..|s| - 1]);
      assert s == s[..|s| - 1] + [s[|s| - 1]];
    }
  }

  /** How many characters of the constructor's source text may name an invocation. */
  const SourceNameLength: nat := 42

  /**
   * The name `traceInvocation` gives: the constructor's name when it is not
   * empty, else the first 42 characters of its source text with the newlines
   * among them removed.
   */
  function InvocationName(ctorName: string, ctorSource: string): (r: string)
    ensures ctorName != "" ==> r == ctorName
    ensures ctorName == "" ==>
      r == RemoveNewlines(ctorSource[..if |ctorSource| < SourceNameLength then |ctorSource| else SourceNameLength])
    ensures ctorName == "" ==> |r| <= SourceNameLength && '\n' !in r
    ensures ctorName == "" && '\n' !in ctorSource ==>
      r == ctorSource[..if |ctorSource| < SourceNameLength then |ctorSource| else SourceNameLength]
  {
    if ctorName != "" then ctorName
    else
      var head := ctorSource[..if |ctorSource| < SourceNameLength then |ctorSource| else SourceNameLength];
      if '\n' !in ctorSource then RemoveNewlinesKeeps(head); RemoveNewlines(head)
      else RemoveNewlines(head)
  }

  /** The first line of `stop`'s output. */
  function Header(node: TraceNode): (r: string)
  {
    (if node.kind == Creation then "CREATE" else "CALL") + " " + node.name
  }

  /** The last line of `stop`'s output; durations are whole milliseconds. */
  function DoneLine(dur: int, total: int): string
  {
    "DONE, took " + Decimal.Fixed2(dur) + "ms (grand total " + Decimal.Fixed2(total) + "ms)"
  }

  /** What `stop` prints: the header, the entries' lines, and the timing line. */
  function Report(nodes: seq<TraceNode>, t: nat, dur: int, total: int): string
    requires WellFormed(nodes) && t < |nodes|
  {
    Header(nodes[t]) + "\n" + PrintedText(nodes, 1, t) + "\n" + DoneLine(dur, total)
  }

  /** Three lines joined by newlines begin with the first line and its newline. */
  lemma FirstLine(h: string, body: string, last: string)
    ensures |h + "\n" + body + "\n" + last| > |h|
    ensures (h + "\n" + body + "\n" + last)[..|h| + 1] == h + "\n"
  {
    var r := h + "\n" + body + "\n" + last;
    assert r == (h + "\n") + (body + "\n" + last);
  }

  /**
   * The report's first line names the trace, `CREATE name` for a creation
   * trace and `CALL name` otherwise; the entries follow on the next line.
   */
  lemma ReportFirstLine(nodes: seq<TraceNode>, t: nat, dur: int, total: int)
    requires WellFormed(nodes) && t < |nodes|
    ensures var r, name := Report(nodes, t, dur, total), nodes[t].name;
      if nodes[t].kind == Creation
      then |r| > 7 + |name| && r[..8 + |name|] == "CREATE " + name + "\n"
      else |r| > 5 + |name| && r[..6 + |name|] == "CALL " + name + "\n"
  {
    var h := Header(nodes[t]);
    FirstLine(h, PrintedText(nodes, 1, t), DoneLine(dur, total));
    assert Report(nodes, t, dur, total)[..|h| + 1] == h + "\n";
    if nodes[t].kind == Creation {
      assert h == "CREATE " + nodes[t].name;
    } else {
      assert h == "CALL " + nodes[t].name;
    }
  }

  /**
   * Every trace object of the program, by position, and the running total of
   * the durations `stop` measured (the class's static `_totals`).
   */
  class TraceStore {
    var nodes: seq<TraceNode>
    var totals: int

    ghost predicate Valid()
      reads this
    {
      WellFormed(nodes)
    }

    constructor ()
      ensures Valid() && nodes == [] && totals == 0
    {
      nodes := [];
      totals := 0;
    }

    /** `Trace.traceInvocation(ctor)`: a new invocation trace named by `InvocationName`. */
    method TraceInvocation(ctorName: string, ctorSource: string) returns (t: nat)
      requires Valid()
      modifies this`nodes
      ensures Valid()
      ensures t == |old(nodes)| && nodes == old(nodes) + [TraceNode(Invocation, InvocationName(ctorName, ctorSource), [])]
    {
      t := |nodes|;
      nodes := nodes + [TraceNode(Invocation, InvocationName(ctorName, ctorSource), [])];
    }

    /** `Trace.traceCreation(ctor)`: a new creation trace named after the constructor. */
    method TraceCreation(ctorName: string) returns (t: nat)
      requires Valid()
      modifies this`nodes
      ensures Valid()
      ensures t == |old(nodes)| && nodes == old(nodes) + [TraceNode(Creation, ctorName, [])]
    {
      t := |nodes|;
      nodes := nodes + [TraceNode(Creation, ctorName, [])];
    }

    /**
     * `trace.branch(id, first)`: a new branch trace named `id`, recorded as one
     * more entry of trace `t`, and returned.
     */
    method Branch(t: nat, id: string, first: bool) returns (child: nat)
      requires Valid() && t < |nodes|
      modifies this`nodes
      ensures Valid()
      ensures child == |old(nodes)| && |nodes| == child + 1
      ensures nodes[child] == TraceNode(TraceType.Branch, id, [])
      ensures nodes[t] == old(nodes[t]).(deps := old(nodes[t]).deps + [Dep(id, first, child)])
      ensures forall i :: 0 <= i < |old(nodes)| && i != t ==> nodes[i] == old(nodes[i])
    {
      child := |nodes|;
      var node := nodes[t];
      nodes := nodes[t := node.(deps := node.deps + [Dep(id, first, child)])] + [TraceNode(TraceType.Branch, id, [])];
    }

    /**
     * `trace.stop()`, the duration `dur` being given: adds it to the running
     * total and returns the report when it took more than 2 ms or caused a
     * creation, nothing otherwise.
     */
    method Stop(t: nat, dur: int) returns (output: Option<string>)
      requires Valid() && t < |nodes|
      modifies this`totals
      ensures totals == old(totals) + dur
      ensures dur >= 0 ==> totals >= old(totals)
      ensures output.Some? <==> dur > 2 || CreatesAmong(nodes[t].deps, |nodes[t].deps|)
      ensures output.Some? ==> output.value == Report(nodes, t, dur, totals)
    {
      totals := totals + dur;
      var text, causedCreation := PrintChild(nodes, 1, t);
      var lines := [Header(nodes[t]), text, DoneLine(dur, totals)];
      JoinSnoc("\n", [Header(nodes[t])], text);
      JoinSnoc("\n", [Header(nodes[t]), text], DoneLine(dur, totals));
      assert [Header(nodes[t]), text] == [Header(nodes[t])] + [text];
      assert lines == [Header(nodes[t]), text] + [DoneLine(dur, totals)];
      if dur > 2 || causedCreation {
        output := Some(Join("\n", lines));
      } else {
        output := None;
      }
    }
  }
}

