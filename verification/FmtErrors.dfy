/**
 * Printing JavaScript errors (runtime/fmt_errors.rs): finding a repeat in a chain of causes and
 * printing the chain with `<ref *i>` and `[Circular *i]` markers.
 *
 * `is_same_error` compares the same fields on both sides, so it is equality of a key. Output is a
 * list of tokens; the rendered errors of an aggregate are nested lists of their own. An error that
 * aggregates nothing has the empty list, which prints nothing either way.
 */
module FmtErrors {
  import opened Wrappers

  datatype JsError = JsError(
    key: nat,
    message: string,
    sourceLine: Option<string>,
    frames: seq<string>,
    cause: Option<JsError>,
    aggregated: seq<JsError>)

  predicate Same(a: JsError, b: JsError) {
    a.key == b.key
  }

  datatype Token =
    | Message(key: nat, text: string)
    | Ref(index: nat)
    | Aggregate(rendered: seq<seq<Token>>)
    | SourceLine(line: string)
    | At(frame: string)
    | CausedBy
    | Circular(index: nat)

  /** `from` is the error whose cause is `to` again. */
  datatype Reference = Reference(from: JsError, to: JsError)
  datatype IndexedReference = IndexedReference(reference: Reference, index: nat)

  // ---- Finding a repeat ----

  /** An error and its causes, outermost first. */
  function Chain(e: JsError): (c: seq<JsError>)
    ensures c != [] && c[0] == e
  {
    [e] + (if e.cause.Some? then Chain(e.cause.value) else [])
  }

  lemma {:induction false} ChainSteps(e: JsError, k: nat)
    requires k < |Chain(e)|
    ensures k + 1 < |Chain(e)| <==> Chain(e)[k].cause.Some?
    ensures k + 1 < |Chain(e)| ==> Chain(e)[k].cause == Some(Chain(e)[k + 1])
  {
    if k > 0 {
      ChainSteps(e.cause.value, k - 1);
    }
  }

  predicate Distinct(c: seq<JsError>) {
    forall i, j :: 0 <= i < j < |c| ==> !Same(c[i], c[j])
  }

  /** `c[n + 1]` is the first repeat of the chain, and it repeats `c[j]`. */
  predicate RepeatsAt(c: seq<JsError>, n: nat, j: nat) {
    n + 1 < |c| && j <= n && Distinct(c[..n + 1]) && Same(c[n + 1], c[j])
  }

  /** What `find_recursive_cause` should return. */
  ghost predicate IsRepeat(e: JsError, r: Option<Reference>) {
    var c := Chain(e);
    match r
    case None => Distinct(c)
    case Some(ref) => exists n: nat, j: nat :: RepeatsAt(c, n, j) && ref == Reference(c[n], c[j])
  }

  /** The first error of the history that `cause` repeats. */
  function FirstSame(history: seq<JsError>, cause: JsError): (k: nat)
    ensures k <= |history| && forall i :: 0 <= i < k ==> !Same(cause, history[i])
    ensures k < |history| ==> Same(cause, history[k])
  {
    if history == [] || Same(cause, history[0]) then 0 else 1 + FirstSame(history[1..], cause)
  }

  /** The search from the `k`-th error of the chain on. */
  function Search(c: seq<JsError>, k: nat): Option<Reference>
    requires k < |c|
    decreases |c| - k
  {
    if k + 1 == |c| then None
    else
      var j := FirstSame(c[..k + 1], c[k + 1]);
      if j <= k then Some(Reference(c[k], c[j])) else Search(c, k + 1)
  }

  function FindRecursiveCause(e: JsError): Option<Reference> {
    Search(Chain(e), 0)
  }

  /** `find_recursive_cause` as the source runs it. */
  method FindRecursiveCauseLoop(e: JsError) returns (r: Option<Reference>)
    ensures r == FindRecursiveCause(e)
  {
    var history: seq<JsError> := [];
    var current := e;
    ghost var c, k := Chain(e), 0;
    while current.cause.Some?
      invariant k < |c| && current == c[k] && history == c[..k]
      invariant Search(c, k) == FindRecursiveCause(e)
      decreases |c| - k
    {
      ChainSteps(e, k);
      var cause := current.cause.value;
      history := history + [current];
      assert history == c[..k + 1];
      var seen := FirstSame(history, cause);
      if seen < |history| {
        return Some(Reference(current, history[seen]));
      }
      current := cause;
      k := k + 1;
    }
    ChainSteps(e, k);
    r := None;
  }

  lemma {:induction false} SearchFindsFirstRepeat(c: seq<JsError>, k: nat)
    requires k < |c| && Distinct(c[..k + 1])
    ensures match Search(c, k)
            case None => Distinct(c)
            case Some(ref) => exists n: nat, j: nat :: RepeatsAt(c, n, j) && ref == Reference(c[n], c[j])
    decreases |c| - k
  {
    if k + 1 == |c| {
      assert c[..k + 1] == c;
    } else {
      var j := FirstSame(c[..k + 1], c[k + 1]);
      if j <= k {
        assert RepeatsAt(c, k, j);
      } else {
        assert Distinct(c[..k + 2]);
        SearchFindsFirstRepeat(c, k + 1);
      }
    }
  }

  /** The search returns the first repeat of the chain, and nothing only if there is none. */
  lemma FindsFirstRepeat(e: JsError)
    ensures IsRepeat(e, FindRecursiveCause(e))
  {
    assert Distinct(Chain(e)[..1]);
    SearchFindsFirstRepeat(Chain(e), 0);
  }

  // ---- Printing ----

  predicate IsTo(e: JsError, circular: Option<IndexedReference>) {
    circular.Some? && Same(e, circular.value.reference.to)
  }

  predicate IsFrom(e: JsError, circular: Option<IndexedReference>) {
    circular.Some? && Same(e, circular.value.reference.from)
  }

  function Indexed(r: Option<Reference>, index: nat): Option<IndexedReference> {
    if r.Some? then Some(IndexedReference(r.value, index)) else None
  }

  function Frames(frames: seq<string>): (tokens: seq<Token>)
    ensures |tokens| == |frames| && forall i :: 0 <= i < |frames| ==> tokens[i] == At(frames[i])
  {
    seq(|frames|, i requires 0 <= i < |frames| => At(frames[i]))
  }

  function CircularIndex(circular: Option<IndexedReference>): nat {
    if circular.Some? then circular.value.index else 0
  }

  function Headline(e: JsError): Token {
    Message(e.key, e.message)
  }

  /** The headline of an error, with the mark that it is referred to further down. */
  function Head(e: JsError, circular: Option<IndexedReference>): seq<Token> {
    if IsTo(e, circular) then [Headline(e), Ref(circular.value.index)] else [Headline(e)]
  }

  /** `format_aggregated_error`: every error with a repeat of its own takes the next index. */
  function FormatAll(errors: seq<JsError>, index: nat): (rendered: seq<seq<Token>>)
    ensures |rendered| == |errors|
    decreases errors, 3
  {
    if errors == [] then []
    else
      var repeat := FindRecursiveCause(errors[0]);
      var next := if repeat.Some? then index + 1 else index;
      [FormatInner(errors[0], Indexed(repeat, next), false)] + FormatAll(errors[1..], next)
  }

  /** Everything that is printed for one error of a chain, before its cause. */
  function Own(e: JsError, circular: Option<IndexedReference>, source: bool): seq<Token>
    decreases e, 1
  {
    var head := Head(e, circular);
    var nested :=
      if e.aggregated != [] then head + [Aggregate(FormatAll(e.aggregated, CircularIndex(circular)))] else head;
    var line := if source && e.sourceLine.Some? then nested + [SourceLine(e.sourceLine.value)] else nested;
    line + Frames(e.frames)
  }

  /** `format_js_error_inner`. */
  function FormatInner(e: JsError, circular: Option<IndexedReference>, source: bool): seq<Token>
    decreases e, 2
  {
    var own := Own(e, circular, source);
    if e.cause.None? then own
    else if IsFrom(e, circular) then own + [CausedBy] + [Circular(circular.value.index)]
    else own + [CausedBy] + FormatInner(e.cause.value, circular, false)
  }

  /** `format_js_error`. */
  function Format(e: JsError): seq<Token> {
    FormatInner(e, Indexed(FindRecursiveCause(e), 1), true)
  }

  // ---- The printer as the source runs it: appending to a buffer ----

  method PrintFrames(before: seq<Token>, frames: seq<string>) returns (s: seq<Token>)
    ensures s == before + Frames(frames)
  {
    s := before;
    for i := 0 to |frames|
      invariant s == before + Frames(frames)[..i]
    {
      s := s + [At(frames[i])];
    }
  }

  method PrintAll(errors: seq<JsError>, index: nat) returns (rendered: seq<seq<Token>>)
    ensures rendered == FormatAll(errors, index)
    decreases errors, 3
  {
    rendered := [];
    var nested := index;
    for i := 0 to |errors|
      invariant rendered + FormatAll(errors[i..], nested) == FormatAll(errors, index)
    {
      var repeat := FindRecursiveCauseLoop(errors[i]);
      if repeat.Some? {
        nested := nested + 1;
      }
      var one := Print(errors[i], Indexed(repeat, nested), false);
      rendered := rendered + [one];
      assert errors[i..][1..] == errors[i + 1..];
    }
  }

  method PrintOwn(e: JsError, circular: Option<IndexedReference>, source: bool) returns (s: seq<Token>)
    ensures s == Own(e, circular, source)
    decreases e, 1
  {
    s := [Headline(e)];
    if IsTo(e, circular) {
      s := s + [Ref(circular.value.index)];
    }
    if e.aggregated != [] {
      var rendered := PrintAll(e.aggregated, CircularIndex(circular));
      s := s + [Aggregate(rendered)];
    }
    if source && e.sourceLine.Some? {
      s := s + [SourceLine(e.sourceLine.value)];
    }
    s := PrintFrames(s, e.frames);
  }

  method Print(e: JsError, circular: Option<IndexedReference>, source: bool) returns (s: seq<Token>)
    ensures s == FormatInner(e, circular, source)
    decreases e, 2
  {
    s := PrintOwn(e, circular, source);
    if e.cause.Some? {
      s := s + [CausedBy];
      if IsFrom(e, circular) {
        s := s + [Circular(circular.value.index)];
      } else {
        var rest := Print(e.cause.value, circular, false);
        s := s + rest;
      }
    }
  }

  // ---- What a chain prints ----

  function Filter<T>(keep: T -> bool, s: seq<T>): seq<T> {
    if s == [] then []
    else if keep(s[0]) then [s[0]] + Filter(keep, s[1..])
    else Filter(keep, s[1..])
  }

  lemma {:induction false} FilterConcat<T>(keep: T -> bool, a: seq<T>, b: seq<T>)
    ensures Filter(keep, a + b) == Filter(keep, a) + Filter(keep, b)
  {
    if a == [] {
      assert a + b == b;
    } else {
      FilterConcat(keep, a[1..], b);
      assert (a + b)[1..] == a[1..] + b;
      if keep(a[0]) {
        assert Filter(keep, a + b) == [a[0]] + (Filter(keep, a[1..]) + Filter(keep, b));
      }
    }
  }

  lemma {:induction false} FilterNone<T>(keep: T -> bool, s: seq<T>)
    requires forall i :: 0 <= i < |s| ==> !keep(s[i])
    ensures Filter(keep, s) == []
  {
    if s != [] {
      FilterNone(keep, s[1..]);
    }
  }

  lemma {:induction false} FilterAll<T>(keep: T -> bool, s: seq<T>)
    requires forall i :: 0 <= i < |s| ==> keep(s[i])
    ensures Filter(keep, s) == s
  {
    if s != [] {
      FilterAll(keep, s[1..]);
    }
  }

  lemma FilterSkips<T>(keep: T -> bool, a: seq<T>, b: seq<T>)
    requires forall i :: 0 <= i < |b| ==> !keep(b[i])
    ensures Filter(keep, a + b) == Filter(keep, a)
  {
    FilterConcat(keep, a, b);
    FilterNone(keep, b);
  }

  /** `m[..n + 1]` with `at` put after position `j` (unless `j` is negative) and `end` at the end. */
  function Insert<T>(m: seq<T>, n: nat, j: int, at: T, end: T): seq<T>
    requires j <= n < |m|
  {
    (if j < 0 then m[..n + 1] else m[..j + 1] + [at] + m[j + 1..n + 1]) + [end]
  }

  lemma InsertStep<T>(m: seq<T>, n: nat, j: int, at: T, end: T)
    requires 0 < n < |m| && j <= n
    ensures Insert(m, n, j, at, end) ==
              (if j == 0 then [m[0], at] else [m[0]]) + Insert(m[1..], n - 1, j - 1, at, end)
  {
  }

  predicate IsMark(t: Token) {
    t.Message? || t.Ref? || t.Circular?
  }

  /** The errors and markers printed for a chain; other tokens and nested errors left out. */
  function Marks(s: seq<Token>): seq<Token> {
    Filter(IsMark, s)
  }

  lemma MarksOfOwn(e: JsError, circular: Option<IndexedReference>, source: bool)
    ensures Marks(Own(e, circular, source)) == Head(e, circular)
  {
    var head := Head(e, circular);
    FilterAll(IsMark, head);
    var nested :=
      if e.aggregated != [] then head + [Aggregate(FormatAll(e.aggregated, CircularIndex(circular)))] else head;
    if e.aggregated != [] {
      FilterSkips(IsMark, head, [Aggregate(FormatAll(e.aggregated, CircularIndex(circular)))]);
    }
    var line := if source && e.sourceLine.Some? then nested + [SourceLine(e.sourceLine.value)] else nested;
    if source && e.sourceLine.Some? {
      FilterSkips(IsMark, nested, [SourceLine(e.sourceLine.value)]);
    }
    FilterSkips(IsMark, line, Frames(e.frames));
  }

  lemma MarksOfCause(e: JsError, circular: Option<IndexedReference>, source: bool, rest: seq<Token>)
    requires FormatInner(e, circular, source) == Own(e, circular, source) + [CausedBy] + rest
    ensures Marks(FormatInner(e, circular, source)) == Head(e, circular) + Marks(rest)
  {
    MarksOfOwn(e, circular, source);
    FilterConcat(IsMark, Own(e, circular, source) + [CausedBy], rest);
    FilterConcat(IsMark, Own(e, circular, source), [CausedBy]);
    FilterNone(IsMark, [CausedBy]);
  }

  function Messages(c: seq<JsError>): (m: seq<Token>)
    ensures |m| == |c| && forall i :: 0 <= i < |c| ==> m[i] == Headline(c[i])
  {
    seq(|c|, i requires 0 <= i < |c| => Headline(c[i]))
  }

  /** Each error of `c[..n + 1]` once, a ref after error `j` (if that is still to come), a circular at the end. */
  function CircularMarks(c: seq<JsError>, n: nat, j: int, index: nat): seq<Token>
    requires j <= n < |c|
  {
    Insert(Messages(c), n, j, Ref(index), Circular(index))
  }

  lemma {:induction false} MessagesOfChain(e: JsError)
    ensures Messages(Chain(e)) ==
              [Headline(e)] + (if e.cause.Some? then Messages(Chain(e.cause.value)) else [])
  {
  }

  lemma {:induction false} PlainMarks(e: JsError, source: bool)
    ensures Marks(FormatInner(e, None, source)) == Messages(Chain(e))
  {
    MessagesOfChain(e);
    if e.cause.Some? {
      PlainMarks(e.cause.value, false);
      MarksOfCause(e, None, source, FormatInner(e.cause.value, None, false));
    } else {
      MarksOfOwn(e, None, source);
    }
  }

  lemma {:induction false} MarkedMarks(
    e: JsError, circular: Option<IndexedReference>, source: bool, n: nat, j: int)
    requires circular.Some? && n + 1 < |Chain(e)| && j <= n
    requires forall i :: 0 <= i <= n ==>
               (IsTo(Chain(e)[i], circular) <==> i == j) && (IsFrom(Chain(e)[i], circular) <==> i == n)
    ensures Marks(FormatInner(e, circular, source)) == CircularMarks(Chain(e), n, j, circular.value.index)
    decreases e
  {
    var c, index := Chain(e), circular.value.index;
    assert c[0] == e;
    if n == 0 {
      MarksOfCause(e, circular, source, [Circular(index)]);
      FilterAll(IsMark, [Circular(index)]);
    } else {
      var cause := e.cause.value;
      assert c[1..] == Chain(cause);
      MarkedMarks(cause, circular, false, n - 1, j - 1);
      MarksOfCause(e, circular, source, FormatInner(cause, circular, false));
      assert Messages(c)[1..] == Messages(c[1..]);
      InsertStep(Messages(c), n, j, Ref(index), Circular(index));
    }
  }

  lemma DistinctAt(c: seq<JsError>, i: nat, j: nat)
    requires Distinct(c) && i < |c| && j < |c|
    ensures Same(c[i], c[j]) <==> i == j
  {
  }

  /**
   * Any error, printed with its own repeat and any index. Without a repeat the whole chain is
   * printed and no marker. With one, exactly the distinct errors before the repeat are printed,
   * with one `<ref *i>` at the error that is repeated and one `[Circular *i]` after the last.
   */
  lemma MarkersPairUp(e: JsError, index: nat, source: bool)
    ensures var s := Marks(FormatInner(e, Indexed(FindRecursiveCause(e), index), source));
            var c := Chain(e);
            if FindRecursiveCause(e).None?
            then Distinct(c) && s == Messages(c)
            else exists n: nat, j: nat :: RepeatsAt(c, n, j) && s == CircularMarks(c, n, j, index)
  {
    FindsFirstRepeat(e);
    var c, r := Chain(e), FindRecursiveCause(e);
    if r.None? {
      PlainMarks(e, source);
    } else {
      var n: nat, j: nat :| RepeatsAt(c, n, j) && r.value == Reference(c[n], c[j]);
      var circular := Indexed(r, index);
      forall i | 0 <= i <= n
        ensures (IsTo(c[i], circular) <==> i == j) && (IsFrom(c[i], circular) <==> i == n)
      {
        DistinctAt(c[..n + 1], i, j);
        DistinctAt(c[..n + 1], i, n);
      }
      MarkedMarks(e, circular, source, n, j);
    }
  }

  /** `format_js_error`: without a repeat no marker, with one a pair of markers of index one. */
  method PrintError(e: JsError) returns (s: seq<Token>)
    ensures s == Format(e)
    ensures Distinct(Chain(e)) ==> Marks(s) == Messages(Chain(e))
    ensures !Distinct(Chain(e)) ==>
              exists n: nat, j: nat :: RepeatsAt(Chain(e), n, j) && Marks(s) == CircularMarks(Chain(e), n, j, 1)
  {
    var repeat := FindRecursiveCauseLoop(e);
    s := Print(e, Indexed(repeat, 1), true);
    FindsFirstRepeat(e);
    MarkersPairUp(e, 1, true);
  }

  /** The number of errors with a repeat in their chain of causes. */
  function Repeats(errors: seq<JsError>): nat {
    if errors == [] then 0
    else (if FindRecursiveCause(errors[0]).Some? then 1 else 0) + Repeats(errors[1..])
  }

  lemma {:induction false} RepeatsGrow(errors: seq<JsError>, j: nat, k: nat)
    requires j <= k <= |errors|
    ensures Repeats(errors[..j]) <= Repeats(errors[..k])
    ensures j < k && FindRecursiveCause(errors[k - 1]).Some? ==> Repeats(errors[..j]) < Repeats(errors[..k])
    decreases |errors|
  {
    if k > 0 {
      assert errors[..k][1..] == errors[1..][..k - 1];
      if j > 0 {
        assert errors[..j][1..] == errors[1..][..j - 1];
        RepeatsGrow(errors[1..], j - 1, k - 1);
      } else if k > 1 {
        RepeatsGrow(errors[1..], 0, k - 1);
      }
    }
  }

  /** The index that the `k`-th error of an aggregate is printed under. */
  function IndexOf(errors: seq<JsError>, index: nat, k: nat): nat
    requires k < |errors|
  {
    index + Repeats(errors[..k + 1])
  }

  lemma {:induction false} AggregatedErrorAt(errors: seq<JsError>, index: nat, k: nat)
    requires k < |errors|
    ensures FormatAll(errors, index)[k] ==
              FormatInner(errors[k], Indexed(FindRecursiveCause(errors[k]), IndexOf(errors, index, k)), false)
    decreases |errors|
  {
    var next := if FindRecursiveCause(errors[0]).Some? then index + 1 else index;
    assert errors[..k + 1][1..] == errors[1..][..k];
    if k > 0 {
      AggregatedErrorAt(errors[1..], next, k - 1);
      assert FormatAll(errors, index)[k] == FormatAll(errors[1..], next)[k - 1];
    } else {
      assert Repeats(errors[1..][..0]) == 0;
    }
  }

  lemma RepeatFoundExactly(e: JsError)
    ensures FindRecursiveCause(e).Some? <==> !Distinct(Chain(e))
  {
    FindsFirstRepeat(e);
  }

  /**
   * The `k`-th error of an aggregate is printed as its chain alone would be: all of it without a
   * repeat, else its distinct prefix with one pair of markers, under an index of its own.
   */
  lemma AggregatedErrorsPairUp(errors: seq<JsError>, index: nat, k: nat)
    requires k < |errors|
    ensures var s := Marks(FormatAll(errors, index)[k]);
            var c := Chain(errors[k]);
            if Distinct(c) then s == Messages(c)
            else exists n: nat, j: nat :: RepeatsAt(c, n, j) && s == CircularMarks(c, n, j, IndexOf(errors, index, k))
  {
    AggregatedErrorAt(errors, index, k);
    RepeatFoundExactly(errors[k]);
    MarkersPairUp(errors[k], IndexOf(errors, index, k), false);
  }

  /** An error with a repeat has an index above the enclosing one and above those of all before it. */
  lemma AggregatedIndicesRise(errors: seq<JsError>, index: nat, k: nat)
    requires k < |errors| && !Distinct(Chain(errors[k]))
    ensures index < IndexOf(errors, index, k)
    ensures forall j: nat :: j < k ==> IndexOf(errors, index, j) < IndexOf(errors, index, k)
  {
    RepeatFoundExactly(errors[k]);
    RepeatsGrow(errors, 0, k + 1);
    forall j: nat | j < k ensures IndexOf(errors, index, j) < IndexOf(errors, index, k) {
      RepeatsGrow(errors, j + 1, k + 1);
    }
  }
}
