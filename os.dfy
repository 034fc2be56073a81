// OS helpers without OS calls: wildcard detection, %NAME% environment
// expansion (the environment is passed in as a map) and FILETIME conversion.
module Os {
  import opened Common

  predicate IsWildcard(c: char) { c == '*' || c == '?' || c == '<' || c == '>' || c == '"' }

  /** has_wildcard: whether any character of the path is * ? < > or ". */
  method HasWildcard(path: Option<seq<char>>) returns (r: bool)
    ensures path.None? ==> !r
    ensures path.Some? ==> (r <==> exists i :: 0 <= i < |path.value| && IsWildcard(path.value[i]))
  {
    if path.None? {
      return false;
    }
    var s := path.value;
    var i := 0;
    while i < |s|
      invariant 0 <= i <= |s|
      invariant forall k :: 0 <= k < i ==> !IsWildcard(s[k])
    {
      if IsWildcard(s[i]) {
        return true;
      }
      i := i + 1;
    }
    return false;
  }

  /** The first index at or after `from` holding '%', or |s| if there is none. */
  function NextPercent(s: seq<char>, from: nat): (j: nat)
    requires from <= |s|
    ensures from <= j <= |s|
    decreases |s| - from
  {
    if from == |s| || s[from] == '%' then from else NextPercent(s, from + 1)
  }

  /** NextPercent finds a '%' and skips none. */
  lemma {:induction false} NextPercentFinds(s: seq<char>, from: nat)
    requires from <= |s|
    ensures var j := NextPercent(s, from);
            (j < |s| ==> s[j] == '%') && forall k :: from <= k < j ==> s[k] != '%'
    decreases |s| - from
  {
    if from < |s| && s[from] != '%' { NextPercentFinds(s, from + 1); }
  }

  /** Any index meeting NextPercent's description is NextPercent. */
  lemma {:induction false} NextPercentIs(s: seq<char>, from: nat, j: nat)
    requires from <= j <= |s|
    requires j < |s| ==> s[j] == '%'
    requires forall k :: from <= k < j ==> s[k] != '%'
    ensures NextPercent(s, from) == j
    decreases j - from
  {
    if from < j { NextPercentIs(s, from + 1, j); }
  }

  /**
   * How the cursor point moves when the span [anchor, anchor+span) is
   * replaced by vlen characters: a point inside the span (or at its end)
   * moves to just after the value; a point past it shifts by the change in
   * length; other points stay.
   */
  function AdjustPoint(p: int, anchor: int, span: nat, vlen: nat): int
  {
    if p > anchor then
      if p <= anchor + span then anchor + vlen else p + vlen - span
    else p
  }

  /**
   * One round of the expand_env loop at s[i..]: the text up to the next '%'
   * and then the %...% item that follows it, if any.  `emit` is what is
   * appended to the output and `next` where the scan resumes; a round that
   * substitutes replaced the input span [next-span, next) by a value of
   * vlen characters.
   */
  datatype Step = Step(emit: seq<char>, next: nat, substituted: bool, span: nat, vlen: nat)

  function StepAt(s: seq<char>, i: nat, env: map<seq<char>, seq<char>>): (st: Step)
    requires i < |s|
    ensures i < st.next <= |s|
    ensures env == map[] ==> !st.substituted
  {
    var j := NextPercent(s, i);
    if j == |s| then Step(s[i..j], j, false, 0, 0)
    else
      var k := NextPercent(s, j + 1);
      var name := s[j + 1..k];
      if k < |s| && name != [] && name in env then
        Step(s[i..j] + env[name], k + 1, true, k + 1 - j, |env[name]|)
      else
        var stop := if k < |s| && name != [] then k + 1 else k;
        Step(s[i..stop], stop, false, 0, 0)
  }

  /** The text expand_env produces from s[i..]. */
  function ExpandFrom(s: seq<char>, i: nat, env: map<seq<char>, seq<char>>): seq<char>
    requires i <= |s|
    decreases |s| - i
  {
    if i == |s| then []
    else
      var st := StepAt(s, i, env);
      st.emit + ExpandFrom(s, st.next, env)
  }

  /** Whether expand_env substitutes any name in s[i..]. */
  function ExpandsFrom(s: seq<char>, i: nat, env: map<seq<char>, seq<char>>): bool
    requires i <= |s|
    decreases |s| - i
  {
    if i == |s| then false
    else
      var st := StepAt(s, i, env);
      st.substituted || ExpandsFrom(s, st.next, env)
  }

  /**
   * The point after os.cpp's expand_env has processed s[i..], given the
   * point p so far.  Each replaced span is compared with the point at its
   * position in the input.
   */
  function PointFrom(s: seq<char>, i: nat, env: map<seq<char>, seq<char>>, p: int): int
    requires i <= |s|
    decreases |s| - i
  {
    if i == |s| then p
    else
      var st := StepAt(s, i, env);
      PointFrom(s, st.next, env, RoundPoint(st, p))
  }

  /** The point after one round: adjusted against the replaced span's input position. */
  function RoundPoint(st: Step, p: int): int
  {
    if !st.substituted then p else AdjustPoint(p, st.next - st.span, st.span, st.vlen)
  }

  /**
   * The point after processing s[i..] when each replaced span is compared
   * with the point at its position in the output, `done` being the output
   * length so far.
   */
  function CorrectedPointFrom(s: seq<char>, i: nat, env: map<seq<char>, seq<char>>, p: int, done: nat): int
    requires i <= |s|
    decreases |s| - i
  {
    if i == |s| then p
    else
      var st := StepAt(s, i, env);
      CorrectedPointFrom(s, st.next, env, CorrectedRoundPoint(st, p, done), done + |st.emit|)
  }

  /** The point after one round: adjusted against the value's position in the output. */
  function CorrectedRoundPoint(st: Step, p: int, done: nat): int
  {
    if !st.substituted then p else AdjustPoint(p, done + |st.emit| - st.vlen, st.span, st.vlen)
  }

  /** expand_env as os.cpp computes it: the output, whether it expanded, and the point. */
  function Expand(s: seq<char>, env: map<seq<char>, seq<char>>): seq<char>
  {
    ExpandFrom(s, 0, env)
  }

  /** ExpandFrom and ExpandsFrom take one round at a time. */
  lemma Unfold(s: seq<char>, i: nat, env: map<seq<char>, seq<char>>)
    requires i < |s|
    ensures var st := StepAt(s, i, env);
            && ExpandFrom(s, i, env) == st.emit + ExpandFrom(s, st.next, env)
            && ExpandsFrom(s, i, env) == (st.substituted || ExpandsFrom(s, st.next, env))
  {
  }

  /** CorrectedPointFrom takes one round at a time. */
  lemma CorrectedUnfold(s: seq<char>, i: nat, env: map<seq<char>, seq<char>>, p: int, done: nat)
    requires i < |s|
    ensures var st := StepAt(s, i, env);
            CorrectedPointFrom(s, i, env, p, done) ==
              CorrectedPointFrom(s, st.next, env, CorrectedRoundPoint(st, p, done), done + |st.emit|)
  {
  }

  /** A round that substitutes nothing copies its input. */
  lemma StepCopies(s: seq<char>, i: nat, env: map<seq<char>, seq<char>>)
    requires i < |s|
    ensures !StepAt(s, i, env).substituted ==> StepAt(s, i, env).emit == s[i..StepAt(s, i, env).next]
  {
  }

  /** When nothing is substituted, the output is exactly the input. */
  lemma {:induction false} NotExpandedCopies(s: seq<char>, i: nat, env: map<seq<char>, seq<char>>)
    requires i <= |s|
    ensures !ExpandsFrom(s, i, env) ==> ExpandFrom(s, i, env) == s[i..]
    decreases |s| - i
  {
    if i < |s| {
      var st := StepAt(s, i, env);
      StepCopies(s, i, env);
      NotExpandedCopies(s, st.next, env);
      assert s[i..] == s[i..st.next] + s[st.next..];
    }
  }

  /** When nothing is substituted, the point is left where it was. */
  lemma {:induction false} NotExpandedKeepsPoint(s: seq<char>, i: nat, env: map<seq<char>, seq<char>>, p: int)
    requires i <= |s|
    ensures !ExpandsFrom(s, i, env) ==> PointFrom(s, i, env, p) == p
    decreases |s| - i
  {
    if i < |s| {
      var st := StepAt(s, i, env);
      NotExpandedKeepsPoint(s, st.next, env, p);
    }
  }

  /** When nothing is substituted, the corrected point is left where it was. */
  lemma {:induction false} NotExpandedKeepsCorrectedPoint(s: seq<char>, i: nat, env: map<seq<char>, seq<char>>,
                                                          p: int, done: nat)
    requires i <= |s|
    ensures !ExpandsFrom(s, i, env) ==> CorrectedPointFrom(s, i, env, p, done) == p
    decreases |s| - i
  {
    if i < |s| {
      var st := StepAt(s, i, env);
      NotExpandedKeepsCorrectedPoint(s, st.next, env, p, done + |st.emit|);
    }
  }

  /** Text without '%' is copied unchanged and nothing is expanded. */
  lemma PlainTextCopied(s: seq<char>, env: map<seq<char>, seq<char>>)
    requires '%' !in s
    ensures Expand(s, env) == s && !ExpandsFrom(s, 0, env)
  {
    if s != [] {
      NextPercentIs(s, 0, |s|);
      assert s[0..|s|] == s;
      assert StepAt(s, 0, env) == Step(s, |s|, false, 0, 0);
      assert ExpandFrom(s, |s|, env) == [];
    }
  }

  /** With no variable defined, every %NAME% (and "%%") is copied literally. */
  lemma {:induction false} UndefinedCopied(s: seq<char>, i: nat)
    requires i <= |s|
    ensures ExpandFrom(s, i, map[]) == s[i..] && !ExpandsFrom(s, i, map[])
    decreases |s| - i
  {
    if i < |s| {
      var st := StepAt(s, i, map[]);
      StepCopies(s, i, map[]);
      UndefinedCopied(s, st.next);
      assert s[i..] == s[i..st.next] + s[st.next..];
    }
  }

  /** A single defined %NAME% is replaced by its value. */
  lemma SingleVariable(name: seq<char>, env: map<seq<char>, seq<char>>)
    requires name != [] && '%' !in name && name in env
    ensures Expand(['%'] + name + ['%'], env) == env[name]
    ensures ExpandsFrom(['%'] + name + ['%'], 0, env)
  {
    var s := ['%'] + name + ['%'];
    NextPercentIs(s, 0, 0);
    assert forall m :: 1 <= m <= |name| ==> s[m] == name[m - 1] && name[m - 1] in name;
    NextPercentIs(s, 1, |name| + 1);
    assert s[1..|name| + 1] == name;
    assert s[0..0] == [];
    assert StepAt(s, 0, env) == Step(env[name], |s|, true, |s|, |env[name]|);
    Unfold(s, 0, env);
    assert ExpandFrom(s, |s|, env) == [];
  }

  /** A point at or before the next '%' is left where it is. */
  lemma {:induction false} PointBeforeUnchanged(s: seq<char>, i: nat, env: map<seq<char>, seq<char>>,
                                                p: int)
    requires i <= |s| && p <= NextPercent(s, i)
    ensures PointFrom(s, i, env, p) == p
    decreases |s| - i
  {
    if i < |s| {
      var st := StepAt(s, i, env);
      assert st.substituted ==> st.next - st.span == NextPercent(s, i);
      assert st.next < |s| ==> NextPercent(s, st.next) >= st.next;
      PointBeforeUnchanged(s, st.next, env, p);
    }
  }

  /**
   * The point os.cpp computes can land past the end of the output: with
   * A = "xx" and B = "y", expanding "%A%%B%" with the point at the end (6)
   * gives "xxy" and a point of 4.
   */
  lemma PointEscapesOutput()
    ensures var env := map["A" := "xx", "B" := "y"];
            Expand("%A%%B%", env) == "xxy" && PointFrom("%A%%B%", 0, env, 6) == 4
  {
    var s := "%A%%B%";
    var env := map["A" := "xx", "B" := "y"];
    NextPercentIs(s, 0, 0);
    NextPercentIs(s, 1, 2);
    assert s[1..2] == "A";
    NextPercentIs(s, 3, 3);
    NextPercentIs(s, 4, 5);
    assert s[4..5] == "B";
    assert s[3..3] == [];
    assert s[0..0] == [];
    assert StepAt(s, 0, env) == Step("xx", 3, true, 3, 2);
    assert StepAt(s, 3, env) == Step("y", 6, true, 3, 1);
  }

  /**
   * With the point compared in output positions, a point no further past
   * the output than input remains ends within the output.
   */
  lemma {:induction false} CorrectedPointInOutput(s: seq<char>, i: nat, env: map<seq<char>, seq<char>>,
                                                  p: int, done: nat)
    requires i <= |s| && 0 <= p && p - done <= |s| - i
    ensures 0 <= CorrectedPointFrom(s, i, env, p, done) <= done + |ExpandFrom(s, i, env)|
    decreases |s| - i
  {
    if i < |s| {
      var st := StepAt(s, i, env);
      CorrectedStep(s, i, env, p, done);
      CorrectedPointInOutput(s, st.next, env, CorrectedRoundPoint(st, p, done), done + |st.emit|);
    }
  }

  /** One round keeps the corrected point no further past the output than input remains. */
  lemma CorrectedStep(s: seq<char>, i: nat, env: map<seq<char>, seq<char>>, p: int, done: nat)
    requires i < |s| && 0 <= p && p - done <= |s| - i
    ensures var st := StepAt(s, i, env);
            var p2 := CorrectedRoundPoint(st, p, done);
            0 <= p2 && p2 - (done + |st.emit|) <= |s| - st.next
  {
    var st := StepAt(s, i, env);
    StepCopies(s, i, env);
    if st.substituted {
      assert |st.emit| - st.vlen == st.next - st.span - i;
    }
  }

  /**
   * expand_env with the point compared in output positions keeps a point
   * inside the input inside the output.
   */
  lemma CorrectedPointWithinOutput(s: seq<char>, env: map<seq<char>, seq<char>>, p: int)
    requires 0 <= p <= |s|
    ensures 0 <= CorrectedPointFrom(s, 0, env, p, 0) <= |Expand(s, env)|
  {
    CorrectedPointInOutput(s, 0, env, p, 0);
  }

  /** Advances an iterator over s from `from` until it reaches a '%' or the end. */
  method SkipToPercent(s: seq<char>, from: nat) returns (j: nat)
    requires from <= |s|
    ensures j == NextPercent(s, from)
    ensures j < |s| ==> s[j] == '%'
    ensures forall k :: from <= k < j ==> s[k] != '%'
  {
    j := from;
    while j < |s| && s[j] != '%'
      invariant from <= j <= |s|
      invariant forall k :: from <= k < j ==> s[k] != '%'
    {
      j := j + 1;
    }
    NextPercentIs(s, from, j);
  }

  /** Moves the cursor for a span of `span` characters at `anchor` replaced by `vlen`. */
  method AdjustCursor(p: int, anchor: int, span: nat, vlen: nat) returns (q: int)
    ensures q == AdjustPoint(p, anchor, span, vlen)
    ensures p <= anchor ==> q == p
    ensures anchor < p <= anchor + span ==> q == anchor + vlen
  {
    q := p;
    if q > anchor {
      if q <= anchor + span {
        q := anchor + vlen;
      } else {
        q := q + vlen - span;
      }
    }
  }

  /**
   * The %...% item at s[j] (a '%'): a defined name and its value, or the
   * text copied literally, and where the scan resumes.
   */
  function ItemAt(s: seq<char>, j: nat, env: map<seq<char>, seq<char>>): (it: Step)
    requires j < |s|
    ensures j < it.next <= |s|
  {
    var k := NextPercent(s, j + 1);
    var name := s[j + 1..k];
    if k < |s| && name != [] && name in env then
      Step(env[name], k + 1, true, k + 1 - j, |env[name]|)
    else
      var stop := if k < |s| && name != [] then k + 1 else k;
      Step(s[j..stop], stop, false, 0, 0)
  }

  /** A round is the text up to the next '%' followed by the item there. */
  lemma StepIsItem(s: seq<char>, i: nat, env: map<seq<char>, seq<char>>)
    requires i < |s| && NextPercent(s, i) < |s|
    ensures var j := NextPercent(s, i);
            var it := ItemAt(s, j, env);
            StepAt(s, i, env) == it.(emit := s[i..j] + it.emit)
  {
    var j := NextPercent(s, i);
    var it := ItemAt(s, j, env);
    if !it.substituted {
      assert s[i..it.next] == s[i..j] + s[j..it.next];
    }
  }

  /**
   * The part of a pass that starts at the '%' at s[j]: reads the name and
   * either substitutes its value, moving the point against the output
   * position `anchor`, or copies the text literally.
   */
  method ExpandItem(s: seq<char>, j: nat, env: map<seq<char>, seq<char>>, point: int, anchor: nat)
    returns (emit: seq<char>, next: nat, substituted: bool, newPoint: int)
    requires j < |s|
    ensures var it := ItemAt(s, j, env);
            emit == it.emit && next == it.next && substituted == it.substituted
    ensures newPoint == if substituted then AdjustPoint(point, anchor, next - j, |emit|) else point
  {
    next := j + 1;
    var nameStart := next;
    next := SkipToPercent(s, next);
    var name := s[nameStart..next];
    var end := next;
    newPoint := point;
    if next < |s| && name != [] && name in env {
      next := next + 1;
      emit := env[name];
      substituted := true;
      newPoint := AdjustCursor(newPoint, anchor, next - j, |emit|);
    } else {
      if next < |s| && name != [] {
        next := next + 1;
        end := end + 1;
      }
      emit := s[j..end];
      substituted := false;
    }
  }

  /**
   * One pass of expand_env's outer loop from index i: copies the text up
   * to the next '%', then handles the %...% item there.  `emit` is what the
   * pass appends to the output.
   */
  method ExpandRound(s: seq<char>, i: nat, env: map<seq<char>, seq<char>>, point: int, done: nat)
    returns (emit: seq<char>, next: nat, substituted: bool, newPoint: int)
    requires i < |s|
    ensures var st := StepAt(s, i, env);
            emit == st.emit && next == st.next && substituted == st.substituted
    ensures newPoint == CorrectedRoundPoint(StepAt(s, i, env), point, done)
  {
    var start := i;
    next := SkipToPercent(s, i);
    emit := s[start..next];
    substituted := false;
    newPoint := point;
    if next < |s| {
      StepIsItem(s, i, env);
      var item;
      item, next, substituted, newPoint := ExpandItem(s, next, env, point, done + |emit|);
      emit := emit + item;
    }
  }

  /**
   * expand_env: copies `s` to the output, replacing each %NAME% whose name
   * is defined in env by its value and adjusting the cursor point.  An
   * undefined name and "%%" are copied literally.  Returns whether any
   * name was substituted.
   */
  method ExpandEnv(s: seq<char>, env: map<seq<char>, seq<char>>, point: Option<int>)
    returns (expanded: bool, out: seq<char>, newPoint: Option<int>)
    ensures out == Expand(s, env) && expanded == ExpandsFrom(s, 0, env)
    ensures newPoint == if point.Some? then Some(CorrectedPointFrom(s, 0, env, point.value, 0)) else None
    ensures !expanded ==> out == s && newPoint == point
  {
    NotExpandedCopies(s, 0, env);
    var p := if point.Some? then point.value else 0;
    NotExpandedKeepsCorrectedPoint(s, 0, env, p, 0);
    expanded, out, p := ExpandRounds(s, env, p);
    newPoint := if point.Some? then Some(p) else None;
  }

  /**
   * The loop state of expand_env after the rounds that consumed s[..i],
   * against the final output `total`, flag `any` and point `last`: `out`,
   * `expanded` and `p` are what the remaining rounds build on.
   */
  ghost predicate RoundsSoFar(s: seq<char>, env: map<seq<char>, seq<char>>, i: nat, out: seq<char>,
                              expanded: bool, p: int, total: seq<char>, any: bool, last: int)
  {
    && i <= |s|
    && total == out + ExpandFrom(s, i, env)
    && any == (expanded || ExpandsFrom(s, i, env))
    && last == CorrectedPointFrom(s, i, env, p, |out|)
  }

  /** One round keeps the loop state. */
  lemma RoundAdvances(s: seq<char>, env: map<seq<char>, seq<char>>, i: nat, out: seq<char>,
                      expanded: bool, p: int, total: seq<char>, any: bool, last: int,
                      emit: seq<char>, next: nat, substituted: bool, p2: int)
    requires i < |s| && RoundsSoFar(s, env, i, out, expanded, p, total, any, last)
    requires var st := StepAt(s, i, env);
             emit == st.emit && next == st.next && substituted == st.substituted
             && p2 == CorrectedRoundPoint(st, p, |out|)
    ensures i < next
    ensures RoundsSoFar(s, env, next, out + emit, expanded || substituted, p2, total, any, last)
  {
    Unfold(s, i, env);
    CorrectedUnfold(s, i, env, p, |out|);
    AppendAssoc(out, emit, ExpandFrom(s, next, env));
  }

  /** The loop of expand_env: one round at a time until the input is used up. */
  method ExpandRounds(s: seq<char>, env: map<seq<char>, seq<char>>, p0: int)
    returns (expanded: bool, out: seq<char>, p: int)
    ensures out == Expand(s, env) && expanded == ExpandsFrom(s, 0, env)
    ensures p == CorrectedPointFrom(s, 0, env, p0, 0)
  {
    ghost var total, any, last := Expand(s, env), ExpandsFrom(s, 0, env), CorrectedPointFrom(s, 0, env, p0, 0);
    p := p0;
    expanded := false;
    out := [];
    var i := 0;
    assert [] + ExpandFrom(s, 0, env) == ExpandFrom(s, 0, env);
    while i < |s|
      invariant RoundsSoFar(s, env, i, out, expanded, p, total, any, last)
      decreases |s| - i
    {
      var emit, next, substituted, p2;
      emit, next, substituted, p2 := ExpandRound(s, i, env, p, |out|);
      RoundAdvances(s, env, i, out, expanded, p, total, any, last, emit, next, substituted, p2);
      p := p2;
      out := out + emit;
      expanded := expanded || substituted;
      i := next;
    }
    assert out + [] == out;
  }

  /** Seconds between the FILETIME epoch (1601) and the Unix epoch, in 100ns units. */
  const EpochDelta: nat := 116444736000000000
  const IntMax: int := 0x7fff_ffff
  const TwoTo64: nat := 0x1_0000_0000_0000_0000

  /**
   * filetime_to_time_t: a 64-bit FILETIME (100ns ticks since 1601) to Unix
   * seconds with unsigned 64-bit wrap-around, or -1 when the result does not
   * fit in a non-negative 32-bit int.
   */
  function FiletimeToTimeT(ft: nat): (t: int)
    requires ft < TwoTo64
    ensures t == -1 || 0 <= t <= IntMax
  {
    var q := ((ft - EpochDelta) % TwoTo64) / 10000000;
    if q > IntMax then -1 else q
  }

  /** A FILETIME t seconds (plus a fraction) after the Unix epoch converts back to t. */
  lemma TimeRoundTrip(t: nat, ticks: nat)
    requires t <= IntMax && ticks < 10000000
    ensures EpochDelta + t * 10000000 + ticks < TwoTo64
    ensures FiletimeToTimeT(EpochDelta + t * 10000000 + ticks) == t
  {
    var d := t * 10000000 + ticks;
    assert (EpochDelta + d - EpochDelta) % TwoTo64 == d;
    assert d / 10000000 == t;
  }

  /** Times before the Unix epoch wrap to huge unsigned values and give -1. */
  lemma BeforeEpochIsInvalid(ft: nat)
    requires ft < EpochDelta
    ensures FiletimeToTimeT(ft) == -1
  {
    var w := (ft - EpochDelta) % TwoTo64;
    assert w == ft - EpochDelta + TwoTo64;
    assert w >= TwoTo64 - EpochDelta;
    assert w / 10000000 >= (TwoTo64 - EpochDelta) / 10000000;
  }
}
