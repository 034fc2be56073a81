// Bounded C-string copy and concatenation (dbgcchcopy, dbgcchcat).
module DebugHeap {
  import opened Common

  /**
   * Copies at most max-1 characters of `from` into `to` and always
   * NUL-terminates, unless max is 0 in which case nothing is written.
   * `from` is the text of a C string (the characters before its NUL).
   */
  method CchCopy(to: array<char>, max: nat, from: seq<char>) returns (copied: nat)
    requires max <= to.Length
    requires IsCString(from)
    modifies to
    ensures max == 0 ==> copied == 0 && to[..] == old(to[..])
    ensures max > 0 ==> copied == Min(max - 1, |from|)
    ensures max > 0 ==> to[..copied] == from[..copied] && to[copied] == '\0'
    ensures max > 0 ==> forall i :: copied < i < to.Length ==> to[i] == old(to[i])
  {
    if max == 0 {
      return 0;
    }
    copied := 0;
    var m := max - 1;
    while m > 0 && copied < |from|
      invariant m >= 0 && copied + m == max - 1
      invariant copied <= |from|
      invariant to[..copied] == from[..copied]
      invariant forall i :: copied <= i < to.Length ==> to[i] == old(to[i])
    {
      to[copied] := from[copied];
      copied := copied + 1;
      m := m - 1;
    }
    to[copied] := '\0';
  }

  /**
   * Appends `from` to the C string in `to` within a buffer of max
   * characters.  An existing length above max-1 is clamped to max-1 first;
   * the result is the new length, at most max-1, and the buffer is
   * NUL-terminated there.
   */
  method CchCat(to: array<char>, max: nat, from: seq<char>) returns (len: nat)
    requires max <= to.Length
    requires '\0' in to[..]
    requires IsCString(from)
    modifies to
    ensures max == 0 ==> len == 0 && to[..] == old(to[..])
    ensures max > 0 ==>
      var start := Min(StrLen(old(to[..])), max - 1);
      && len == Min(start + |from|, max - 1)
      && to[..start] == old(to[..start])
      && to[start..len] == from[..len - start]
      && to[len] == '\0'
      && (forall i :: len < i < to.Length ==> to[i] == old(to[i]))
  {
    if max == 0 {
      return 0;
    }
    var m := max - 1;
    len := StrLen(to[..]);
    if len > m {
      len := m;
    }
    ghost var start := len;
    var k := 0;
    while len < m && k < |from|
      invariant start <= len <= m
      invariant len == start + k && k <= |from|
      invariant to[..start] == old(to[..start])
      invariant to[start..len] == from[..k]
      invariant forall i :: len <= i < to.Length ==> to[i] == old(to[i])
    {
      to[len] := from[k];
      len := len + 1;
      k := k + 1;
    }
    to[len] := '\0';
  }
}
