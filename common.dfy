// Small shared vocabulary: optional values, C-string helpers and
// fixed-width integer arithmetic used by the modules of this model.
module Common {

  datatype Option<T> = None | Some(value: T)

  /** An unsigned 8-bit value. */
  type byte = b: int | 0 <= b < 256

  function Min(a: int, b: int): int { if a <= b then a else b }
  function Max(a: int, b: int): int { if a >= b then a else b }

  /** The characters of a C string: a sequence holding no NUL. */
  predicate IsCString(s: seq<char>) { '\0' !in s }

  /** strlen: the index of the first NUL of a buffer that holds one. */
  function StrLen(a: seq<char>): (n: nat)
    requires '\0' in a
    ensures n < |a| && a[n] == '\0' && '\0' !in a[..n]
  {
    if a[0] == '\0' then 0
    else
      assert '\0' in a[1..] by {
        var k :| 0 <= k < |a| && a[k] == '\0';
        assert a[1..][k - 1] == '\0';
      }
      var n := 1 + StrLen(a[1..]);
      assert a[..n] == [a[0]] + a[1..][..n - 1];
      n
  }

  /** The C string stored at the start of a NUL-terminated buffer. */
  function CStr(a: seq<char>): (s: seq<char>)
    requires '\0' in a
    ensures IsCString(s) && |s| < |a| && s == a[..|s|] && a[|s|] == '\0'
  {
    a[..StrLen(a)]
  }

  /** A buffer whose first NUL is at k holds the C string of length k. */
  lemma CStrOfTerminated(a: seq<char>, k: nat)
    requires k < |a| && a[k] == '\0' && '\0' !in a[..k]
    ensures '\0' in a && CStr(a) == a[..k]
  {
    assert a[k] in a;
  }

  /** The text `needle` appears in `hay` starting at position k. */
  predicate OccursAt(hay: seq<char>, needle: seq<char>, k: int)
  {
    0 <= k && k + |needle| <= |hay| && hay[k..k + |needle|] == needle
  }

  /** Reading a C string at i: at and beyond the terminator the value is NUL. */
  function Ch(s: seq<char>, i: nat): char { if i < |s| then s[i] else '\0' }

  /** isspace in the C locale. */
  predicate IsSpace(c: char) { c == ' ' || c == '\t' || c == '\n' || c == '\r' || c as int == 0x0b || c as int == 0x0c }

  /** ASCII letter test (isalpha in the C locale). */
  predicate IsAlpha(c: char) { ('a' <= c <= 'z') || ('A' <= c <= 'Z') }

  /** ASCII digit test. */
  predicate IsDigit(c: char) { '0' <= c <= '9' }

  /** ASCII tolower. */
  function ToLower(c: char): char
  {
    if 'A' <= c <= 'Z' then (c as int + 32) as char else c
  }

  // A string iterator over s at j (str_iter): more() holds before the end
  // and before a NUL, peek() reads NUL past them, next() steps once.

  predicate More(s: seq<char>, j: nat)
  {
    j < |s| && s[j] != '\0'
  }

  function Peek(s: seq<char>, j: nat): char
  {
    if More(s, j) then s[j] else '\0'
  }

  /** next() with its result discarded: one step unless at the end. */
  function Skip(s: seq<char>, j: nat): nat
  {
    if More(s, j) then j + 1 else j
  }

  /** Sequence concatenation is associative. */
  lemma AppendAssoc<T>(a: seq<T>, b: seq<T>, c: seq<T>)
    ensures (a + b) + c == a + (b + c)
  {
  }
}
