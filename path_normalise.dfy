// path::normalise: rewrites a NUL-terminated path in place, dropping "."
// components, letting ".." remove the component before it, collapsing runs
// of separators and writing every separator as `sep`.
module PathNormalise {
  import opened Common
  import opened Path

  /** INT_MAX: a rooted path starts with this many removable components. */
  const IntMax: nat := 0x7fff_ffff

  /** next_element: separators from `read`, a component, and the one separator after it. */
  datatype Element = Element(nameStart: nat, nameEnd: nat, next: nat)

  function ElementAt(t: seq<char>, read: nat): (e: Element)
    requires read < |t|
    ensures read <= e.nameStart <= e.nameEnd <= e.next <= |t| && read < e.next
    ensures e.next == e.nameEnd || (e.next == e.nameEnd + 1 && IsSep(t[e.nameEnd]))
    ensures e.nameEnd == e.next ==> e.next == |t|
  {
    var j := SkipSeparators(t, read);
    var k := SkipName(t, j);
    Element(j, k, if k < |t| then k + 1 else k)
  }

  /** Every separator written as sep. */
  function Conv(s: seq<char>, sep: char): (r: seq<char>)
    ensures |r| == |s| && forall i :: 0 <= i < |s| ==> r[i] == (if IsSep(s[i]) then sep else s[i])
  {
    seq(|s|, i requires 0 <= i < |s| => if IsSep(s[i]) then sep else s[i])
  }

  /** The ".." rewind: back from w to just after a separator, never below start. */
  function BackTo(out: seq<char>, start: nat, w: nat): (r: nat)
    requires start <= w <= |out|
    ensures start <= r <= w && (r == start || IsSep(out[r - 1]))
    ensures forall k :: r <= k < w ==> !IsSep(out[k])
    decreases w
  {
    if w == start || IsSep(out[w - 1]) then w else BackTo(out, start, w - 1)
  }

  /** Where the write position goes for "..": one step back, then back to a separator. */
  function Backtrack(out: seq<char>, start: nat): (r: nat)
    requires start <= |out|
    ensures start <= r <= |out| && (|out| > start ==> r < |out|)
    ensures r == start || IsSep(out[r - 1])
  {
    if |out| == start then |out| else BackTo(out, start, |out| - 1)
  }

  /** One element's effect: the output so far, the removable-component count and where reading resumes. */
  datatype Round = Round(out: seq<char>, pieces: nat, next: nat)

  /**
   * One pass of normalise's loop.  `fix` selects the corrected component
   * count; without it only components not starting with '.' are counted,
   * as the source does.
   */
  function Step(t: seq<char>, sep: char, read: nat, out: seq<char>, start: nat, pieces: nat, fix: bool): (r: Round)
    requires start <= |out| && read < |t|
    ensures read < r.next <= |t| && start <= |r.out|
  {
    var e := ElementAt(t, read);
    var name := t[e.nameStart..e.nameEnd];
    if name == "." then Round(out, pieces, e.next)
    else if name == ".." && pieces > 0 then Round(out[..Backtrack(out, start)], pieces - 1, e.next)
    else
      var counted := if fix then name != ".." else (name == [] || name[0] != '.');
      Round(out + Conv(t[e.nameStart..e.next], sep), if counted then pieces + 1 else pieces, e.next)
  }

  function Run(t: seq<char>, sep: char, read: nat, out: seq<char>, start: nat, pieces: nat, fix: bool): seq<char>
    requires start <= |out| && read <= |t|
    decreases |t| - read
  {
    if read == |t| then out
    else
      var r := Step(t, sep, read, out, start, pieces, fix);
      Run(t, sep, r.next, r.out, start, r.pieces, fix)
  }

  /** The separator actually used: 0 selects PATH_SEP. */
  function SepOf(sep0: char): char { if sep0 == '\0' then PathSep else sep0 }

  /** The part normalise never rewrites: the drive, then one root separator, or two for UNC. */
  function Prefix(t: seq<char>, sep: char): (p: seq<char>)
    ensures |p| <= |t|
  {
    var base := if HasDrivePrefix(t) then 2 else 0;
    var rooted := base < |t| && IsSep(t[base]);
    var unc := rooted && base == 0 && 1 < |t| && IsSep(t[1]);
    t[..base] + (if rooted then [sep] else []) + (if unc then [sep] else [])
  }

  function InitialPieces(t: seq<char>): nat
  {
    var base := if HasDrivePrefix(t) then 2 else 0;
    if base < |t| && IsSep(t[base]) then IntMax else 0
  }

  /** The text normalise leaves in the buffer. */
  function Normalised(t: seq<char>, sep0: char, fix: bool): seq<char>
  {
    var p := Prefix(t, SepOf(sep0));
    Run(t, SepOf(sep0), |p|, p, |p|, InitialPieces(t), fix)
  }

  // ---- the in-place rewrite -----------------------------------------------

  /**
   * normalise(in_out, sep) on a NUL-terminated buffer, with the component
   * count corrected (see NormaliseKeepsDotDot for the count as written).
   */
  method Normalise(a: array<char>, sep0: char)
    requires '\0' in a[..]
    modifies a
    ensures '\0' in a[..] && CStr(a[..]) == Normalised(CStr(old(a[..])), sep0, true)
  {
    ghost var t := CStr(a[..]);
    ghost var n := |t|;
    var sep := SepOf(sep0);
    var write, pieces := WritePrefix(a, t, sep);
    var start := write;
    var read := write;
    while a[read] != '\0'
      invariant start <= write <= read <= n < a.Length && a[n] == '\0'
      invariant forall i :: read <= i < n ==> a[i] == t[i]
      invariant '\0' !in a[..write]
      invariant Run(t, sep, read, a[..write], start, pieces, true) == Normalised(t, sep0, true)
      decreases n - read
    {
      read, write, pieces := NormaliseRound(a, t, sep, read, write, start, pieces);
    }
    a[write] := '\0';
    CStrOfTerminated(a[..], write);
  }

  /** The drive is kept; a root separator, and a second one for UNC, is written as sep. */
  method WritePrefix(a: array<char>, ghost t: seq<char>, sep: char) returns (write: nat, pieces: nat)
    requires '\0' in a[..] && t == CStr(a[..]) && sep != '\0'
    modifies a
    ensures write == |Prefix(t, sep)| && a[..write] == Prefix(t, sep) && pieces == InitialPieces(t)
    ensures |t| < a.Length && a[|t|] == '\0' && forall i :: write <= i < |t| ==> a[i] == t[i]
    ensures '\0' !in a[..write]
  {
    var base := 0;
    var testUnc := true;
    if a[0] != '\0' && a[1] == ':' {
      base := 2;
      testUnc := false;
    }
    pieces := 0;
    write := base;
    if IsSep(a[write]) {
      a[write] := sep;
      write := write + 1;
      pieces := IntMax;
      if testUnc && IsSep(a[write]) {
        a[write] := sep;
        write := write + 1;
      }
    }
  }

  /** One element: skip it, drop it, rewind over the previous component, or copy it. */
  method NormaliseRound(a: array<char>, ghost t: seq<char>, sep: char, read: nat, write: nat, start: nat, pieces: nat)
    returns (read': nat, write': nat, pieces': nat)
    requires start <= write <= read < |t| < a.Length && a[|t|] == '\0' && IsCString(t)
    requires forall i :: read <= i < |t| ==> a[i] == t[i]
    requires '\0' !in a[..write] && sep != '\0'
    modifies a
    ensures start <= write' <= read' <= |t| && a[|t|] == '\0'
    ensures var r := Step(t, sep, read, old(a[..write]), start, pieces, true);
      read' == r.next && pieces' == r.pieces && a[..write'] == r.out
    ensures forall i :: read' <= i < |t| ==> a[i] == t[i]
    ensures '\0' !in a[..write']
  {
    ghost var e := ElementAt(t, read);
    ghost var out := a[..write];
    var next := NextElement(a, t, read);
    var r := read;
    while IsSep(a[r])
      invariant read <= r <= e.nameStart
      invariant forall i :: read <= i < r ==> IsSep(t[i])
      decreases |t| - r
    {
      r := r + 1;
    }
    assert r == e.nameStart;
    var counted := true;
    if a[r] == '.' {
      var twoDot := a[r + 1] == '.';
      var c := a[r + 1 + (if twoDot then 1 else 0)];
      if IsSep(c) || c == '\0' {
        if !twoDot {
          assert t[e.nameStart..e.nameEnd] == ".";
          return next, write, pieces;
        }
        assert t[e.nameStart..e.nameEnd] == "..";
        if pieces > 0 {
          var w := BackWrite(a, start, write);
          return next, w, pieces - 1;
        }
        counted := false;
      } else {
        assert t[e.nameStart..e.nameEnd] != "." && t[e.nameStart..e.nameEnd] != "..";
      }
    } else {
      assert t[e.nameStart..e.nameEnd] != "." && t[e.nameStart..e.nameEnd] != "..";
    }
    var w := CopyConverted(a, t, write, r, next, sep);
    write' := w;
    read' := next;
    pieces' := if counted then pieces + 1 else pieces;
  }

  /** next_element on the buffer. */
  method NextElement(a: array<char>, ghost t: seq<char>, read: nat) returns (next: nat)
    requires read < |t| < a.Length && a[|t|] == '\0' && IsCString(t)
    requires forall i :: read <= i < |t| ==> a[i] == t[i]
    ensures next == ElementAt(t, read).next
  {
    var i := read;
    while IsSep(a[i])
      invariant read <= i <= SkipSeparators(t, read)
      invariant SkipSeparators(t, i) == SkipSeparators(t, read)
      decreases |t| - i
    {
      i := i + 1;
    }
    while a[i] != '\0' && !IsSep(a[i])
      invariant SkipSeparators(t, read) <= i <= SkipName(t, SkipSeparators(t, read))
      invariant SkipName(t, i) == SkipName(t, SkipSeparators(t, read))
      decreases |t| - i
    {
      i := i + 1;
    }
    next := if a[i] != '\0' then i + 1 else i;
  }

  /** The ".." rewind on the buffer. */
  method BackWrite(a: array<char>, start: nat, write: nat) returns (w: nat)
    requires start <= write <= a.Length
    ensures w == Backtrack(a[..write], start)
  {
    w := write;
    if w == start {
      return;
    }
    w := w - 1;
    while w > start && !IsSep(a[w - 1])
      invariant start <= w < write
      invariant BackTo(a[..write], start, w) == Backtrack(a[..write], start)
      decreases w
    {
      w := w - 1;
    }
  }

  /** Copies a[from..to] to a[write..], writing separators as sep. */
  method CopyConverted(a: array<char>, ghost t: seq<char>, write: nat, from: nat, to: nat, sep: char) returns (w: nat)
    requires write <= from <= to <= |t| < a.Length && IsCString(t) && sep != '\0'
    requires forall i :: from <= i < |t| ==> a[i] == t[i]
    requires '\0' !in a[..write]
    modifies a
    ensures w == write + (to - from) && a[..w] == old(a[..write]) + Conv(t[from..to], sep)
    ensures forall i :: to <= i < |t| ==> a[i] == t[i]
    ensures a[|t|] == old(a[|t|]) && '\0' !in a[..w]
  {
    w := write;
    var r := from;
    while r < to
      invariant from <= r <= to && w == write + (r - from)
      invariant a[..w] == old(a[..write]) + Conv(t[from..r], sep)
      invariant forall i :: r <= i < |t| ==> a[i] == t[i]
      invariant a[|t|] == old(a[|t|]) && '\0' !in a[..w]
    {
      a[w] := if IsSep(a[r]) then sep else a[r];
      assert Conv(t[from..r + 1], sep) == Conv(t[from..r], sep) + [if IsSep(t[r]) then sep else t[r]];
      w := w + 1;
      r := r + 1;
    }
  }

  // ---- properties of the normalised text ----------------------------------

  lemma {:induction false} RunShorter(t: seq<char>, sep: char, read: nat, out: seq<char>, start: nat, pieces: nat, fix: bool)
    requires start <= |out| <= read <= |t|
    ensures |Run(t, sep, read, out, start, pieces, fix)| <= |t|
    decreases |t| - read
  {
    if read < |t| {
      var r := Step(t, sep, read, out, start, pieces, fix);
      RunShorter(t, sep, r.next, r.out, start, r.pieces, fix);
    }
  }

  /** The normalised text is never longer than the input. */
  lemma NormalisedShorter(t: seq<char>, sep0: char, fix: bool)
    ensures |Normalised(t, sep0, fix)| <= |t|
  {
    var p := Prefix(t, SepOf(sep0));
    RunShorter(t, SepOf(sep0), |p|, p, |p|, InitialPieces(t), fix);
  }

  lemma {:induction false} RunKeepsPrefix(t: seq<char>, sep: char, read: nat, out: seq<char>, start: nat, pieces: nat, fix: bool)
    requires start <= |out| && read <= |t|
    ensures var o := Run(t, sep, read, out, start, pieces, fix); start <= |o| && o[..start] == out[..start]
    decreases |t| - read
  {
    if read < |t| {
      var r := Step(t, sep, read, out, start, pieces, fix);
      RunKeepsPrefix(t, sep, r.next, r.out, start, r.pieces, fix);
      assert r.out[..start] == out[..start];
    }
  }

  /** ".." never rewinds into the drive or root: the prefix survives. */
  lemma NormalisedKeepsPrefix(t: seq<char>, sep0: char, fix: bool)
    ensures var p := Prefix(t, SepOf(sep0)); var o := Normalised(t, sep0, fix);
      |p| <= |o| && o[..|p|] == p
  {
    var p := Prefix(t, SepOf(sep0));
    RunKeepsPrefix(t, SepOf(sep0), |p|, p, |p|, InitialPieces(t), fix);
  }

  /** No component after the prefix is ".". */
  ghost predicate NoDotComponent(out: seq<char>, start: nat)
  {
    forall i :: DotStartsAt(out, start, i) ==> i + 1 < |out| && !IsSep(out[i + 1])
  }

  /** A component after the prefix starts at i with a '.'. */
  ghost predicate DotStartsAt(out: seq<char>, start: nat, i: int)
  {
    start <= i < |out| && out[i] == '.' && (i == start || IsSep(out[i - 1]))
  }

  /** The output ends at a component boundary. */
  predicate Segmented(out: seq<char>, start: nat) { |out| == start || (|out| > 0 && IsSep(out[|out| - 1])) }

  /** Rewinding to a component boundary keeps NoDotComponent. */
  lemma NoDotPrefix(out: seq<char>, start: nat, w: nat)
    requires start <= w <= |out| && (w == start || IsSep(out[w - 1]))
    requires NoDotComponent(out, start)
    ensures NoDotComponent(out[..w], start)
  {
    var o := out[..w];
    forall i | DotStartsAt(o, start, i)
      ensures i + 1 < |o| && !IsSep(o[i + 1])
    {
      assert out[i] == '.' && !IsSep(out[i]);
      assert i > start ==> o[i - 1] == out[i - 1];
      assert DotStartsAt(out, start, i);
    }
  }

  /** Appending a component that is not ".", and at most one separator, keeps NoDotComponent. */
  lemma NoDotAppend(out: seq<char>, start: nat, piece: seq<char>, nameLen: nat)
    requires start <= |out| && NoDotComponent(out, start) && Segmented(out, start)
    requires nameLen <= |piece| <= nameLen + 1
    requires forall i :: 0 <= i < nameLen ==> !IsSep(piece[i])
    requires |piece| == nameLen + 1 ==> IsSep(piece[nameLen])
    requires nameLen == 1 ==> piece[0] != '.'
    ensures NoDotComponent(out + piece, start)
    ensures |piece| == nameLen + 1 ==> Segmented(out + piece, start)
  {
    var o := out + piece;
    forall i | DotStartsAt(o, start, i)
      ensures i + 1 < |o| && !IsSep(o[i + 1])
    {
      if i < |out| {
        assert o[i] == out[i];
        assert i > start ==> o[i - 1] == out[i - 1];
        assert DotStartsAt(out, start, i);
        assert o[i + 1] == out[i + 1];
      } else {
        assert o[i] == piece[i - |out|];
        assert i + 1 < |o| ==> o[i + 1] == piece[i + 1 - |out|];
      }
    }
  }

  lemma StepKeepsNoDot(t: seq<char>, sep: char, read: nat, out: seq<char>, start: nat, pieces: nat, fix: bool)
    requires start <= |out| && read < |t| && IsSep(sep)
    requires NoDotComponent(out, start) && Segmented(out, start)
    ensures var r := Step(t, sep, read, out, start, pieces, fix);
      NoDotComponent(r.out, start) && (Segmented(r.out, start) || r.next == |t|)
  {
    var e := ElementAt(t, read);
    var name := t[e.nameStart..e.nameEnd];
    if name == "." {
    } else if name == ".." && pieces > 0 {
      NoDotPrefix(out, start, Backtrack(out, start));
    } else {
      var piece := Conv(t[e.nameStart..e.next], sep);
      if |name| == 1 {
        assert name == [piece[0]];
      }
      NoDotAppend(out, start, piece, |name|);
    }
  }

  lemma {:induction false} RunKeepsNoDot(t: seq<char>, sep: char, read: nat, out: seq<char>, start: nat, pieces: nat, fix: bool)
    requires start <= |out| && read <= |t| && IsSep(sep)
    requires NoDotComponent(out, start) && (Segmented(out, start) || read == |t|)
    ensures NoDotComponent(Run(t, sep, read, out, start, pieces, fix), start)
    decreases |t| - read
  {
    if read < |t| {
      var r := Step(t, sep, read, out, start, pieces, fix);
      StepKeepsNoDot(t, sep, read, out, start, pieces, fix);
      RunKeepsNoDot(t, sep, r.next, r.out, start, r.pieces, fix);
    }
  }

  /** With a real separator, no "." component is left after the prefix. */
  lemma NormalisedDropsDot(t: seq<char>, sep0: char, fix: bool)
    requires sep0 == '\0' || IsSep(sep0)
    ensures NoDotComponent(Normalised(t, sep0, fix), |Prefix(t, SepOf(sep0))|)
  {
    var p := Prefix(t, SepOf(sep0));
    RunKeepsNoDot(t, SepOf(sep0), |p|, p, |p|, InitialPieces(t), fix);
  }

  lemma BackToSkipsName(out: seq<char>, start: nat, w: nat, hi: nat)
    requires start <= w <= hi <= |out| && (w == start || IsSep(out[w - 1]))
    requires forall k :: w <= k < hi ==> !IsSep(out[k])
    ensures BackTo(out, start, hi) == w
    decreases hi - w
  {
    if hi > w {
      BackToSkipsName(out, start, w, hi - 1);
    }
  }

  /**
   * With the corrected count, a component followed by ".." cancels: the
   * output and the count are back to what they were before it.
   */
  lemma DotDotCancels(t: seq<char>, sep: char, read: nat, out: seq<char>, start: nat, pieces: nat, x: seq<char>)
    requires start <= |out| && Segmented(out, start) && IsSep(sep)
    requires |x| > 0 && x != "." && x != ".." && forall i :: 0 <= i < |x| ==> !IsSep(x[i])
    requires read + |x| + 3 <= |t| && t[read..read + |x|] == x && IsSep(t[read + |x|])
    requires t[read + |x| + 1] == '.' && t[read + |x| + 2] == '.'
    requires read + |x| + 3 == |t| || IsSep(t[read + |x| + 3])
    ensures var r1 := Step(t, sep, read, out, start, pieces, true);
      var r2 := Step(t, sep, r1.next, r1.out, start, r1.pieces, true);
      r2.out == out && r2.pieces == pieces && r2.next == Min(read + |x| + 4, |t|)
  {
    var m := read + |x|;
    StepCopiesName(t, sep, read, out, start, pieces, x);
    var o := out + x + [sep];
    StepRewinds(t, sep, m + 1, out, o, start, pieces + 1, x);
  }

  /** A plain component with a separator after it is copied and counted. */
  lemma StepCopiesName(t: seq<char>, sep: char, read: nat, out: seq<char>, start: nat, pieces: nat, x: seq<char>)
    requires start <= |out|
    requires |x| > 0 && x != "." && x != ".." && forall i :: 0 <= i < |x| ==> !IsSep(x[i])
    requires read + |x| < |t| && t[read..read + |x|] == x && IsSep(t[read + |x|])
    ensures Step(t, sep, read, out, start, pieces, true) == Round(out + x + [sep], pieces + 1, read + |x| + 1)
  {
    var m := read + |x|;
    assert forall i :: read <= i < m ==> t[i] == x[i - read];
    assert !IsSep(t[read]);
    assert SkipSeparators(t, read) == read;
    assert SkipName(t, read) == m;
    assert t[read..m + 1] == x + [t[m]];
    assert Conv(t[read..m + 1], sep) == x + [sep];
  }

  /** ".." right after out + x + sep, with a positive count, rewinds to out. */
  lemma StepRewinds(t: seq<char>, sep: char, read: nat, out: seq<char>, o: seq<char>, start: nat, pieces: nat, x: seq<char>)
    requires start <= |out| && Segmented(out, start) && IsSep(sep) && pieces > 0
    requires |x| > 0 && forall i :: 0 <= i < |x| ==> !IsSep(x[i])
    requires o == out + x + [sep]
    requires read + 2 <= |t| && t[read] == '.' && t[read + 1] == '.'
    requires read + 2 == |t| || IsSep(t[read + 2])
    ensures Step(t, sep, read, o, start, pieces, true) == Round(out, pieces - 1, Min(read + 3, |t|))
  {
    assert SkipSeparators(t, read) == read;
    assert SkipName(t, read) == read + 2;
    assert t[read..read + 2] == "..";
    assert forall k :: |out| <= k < |o| - 1 ==> o[k] == x[k - |out|];
    BackToSkipsName(o, start, |out|, |o| - 1);
    assert o[..|out|] == out;
  }

  /** How ".git/.." splits into components. */
  lemma DotGitElements()
    ensures Prefix(".git/..", '/') == [] && InitialPieces(".git/..") == 0
    ensures ElementAt(".git/..", 0) == Element(0, 4, 5)
    ensures ElementAt(".git/..", 5) == Element(5, 7, 7)
    ensures ".git/.."[0..4] == ".git" && ".git/.."[5..7] == ".."
    ensures Conv(".git/.."[0..5], '/') == ".git/" && Conv(".git/.."[5..7], '/') == ".."
  {
    var t := ".git/..";
    assert SkipSeparators(t, 0) == 0;
    assert SkipName(t, 0) == 4;
    assert SkipSeparators(t, 5) == 5;
    assert SkipName(t, 5) == 7;
    assert t[0..5] == ".git/";
  }

  /**
   * As written, a component that starts with '.' is not counted, so the
   * ".." after it cannot remove it: ".git/.." stays as it is.
   */
  lemma NormaliseKeepsDotDot()
    ensures Normalised(".git/..", '/', false) == ".git/.."
  {
    var t := ".git/..";
    DotGitElements();
    assert Step(t, '/', 0, [], 0, 0, false) == Round(".git/", 0, 5);
    assert Step(t, '/', 5, ".git/", 0, 0, false) == Round(".git/..", 0, 7);
  }

  /** With the corrected count the pair cancels and nothing is left. */
  lemma NormaliseCancelsDotDot()
    ensures Normalised(".git/..", '/', true) == ""
  {
    var t := ".git/..";
    DotGitElements();
    assert Step(t, '/', 0, [], 0, 0, true) == Round(".git/", 1, 5);
    BackToSkipsName(".git/", 0, 0, 4);
    assert Step(t, '/', 5, ".git/", 0, 1, true) == Round([], 0, 7);
  }
}
