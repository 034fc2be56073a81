// Clink's prompt objects and prompt code expansion (clink/lua/src/prompt.cpp):
// a prompt string that Clink tags so it can recognise it when cmd.exe
// writes it, and the expansion of cmd.exe's PROMPT codes such as $P$G.
//
// Wide and UTF-8 strings are modelled as sequences of code points, the text
// of their C strings without the terminator. What the operating system
// supplies to the expansion (date, time, current directory, network name,
// version, pushd depth, whether command extensions are on) is a parameter.

module Prompts {
  import opened Common

  const Backspace: char := 8 as char

  /** The tag a prompt may carry visibly. */
  const VisibleTag: string := "@CLINK_PROMPT"

  /** The tag Clink adds: "CLINK " with each character followed by a
      backspace, so the console shows nothing. */
  const HiddenTag: string := ['C', Backspace, 'L', Backspace, 'I', Backspace, 'N', Backspace, 'K', Backspace, ' ', Backspace]

  /** The accepted tags, in the order is_tagged tries them. */
  const PromptTags: seq<string> := [HiddenTag, VisibleTag]

  /** How many characters a count designates: the whole string when the
      count is not positive. */
  function Avail(chars: string, count: int): int
  {
    if count <= 0 then |chars| else count
  }

  function TaggedFrom(chars: string, avail: int, i: nat): (n: nat)
    requires i <= |PromptTags|
    decreases |PromptTags| - i
  {
    if i == |PromptTags| then 0
    else if |PromptTags[i]| <= avail && PromptTags[i] <= chars then |PromptTags[i]|
    else TaggedFrom(chars, avail, i + 1)
  }

  /** is_tagged: the length of the tag the counted text starts with, the
      hidden tag tried first, or 0 when it carries none. */
  function IsTagged(chars: string, count: int): (n: nat)
    ensures n == 0 || n == |HiddenTag| || n == |VisibleTag|
    ensures n == |HiddenTag| <==> |HiddenTag| <= Avail(chars, count) && HiddenTag <= chars
    ensures n == |VisibleTag| <==>
              !(|HiddenTag| <= Avail(chars, count) && HiddenTag <= chars) &&
              |VisibleTag| <= Avail(chars, count) && VisibleTag <= chars
    ensures n <= |chars| && (n > 0 ==> n <= Avail(chars, count))
  {
    TaggedFrom(chars, Avail(chars, count), 0)
  }

  /** prompt::set: the first count characters, or the whole string when the
      count is not positive. */
  function PromptText(chars: string, count: int): (r: string)
  {
    chars[..if count <= 0 then |chars| else Min(count, |chars|)]
  }

  /** tagged_prompt::set as written: the text after the tag, with the count
      reduced by the tag's length, so that a count equal to the tag's
      length reads as "the whole string". */
  function TaggedTextAsWritten(chars: string, count: int): (r: Option<string>)
  {
    var t := IsTagged(chars, count);
    if t == 0 then None else Some(PromptText(chars[t..], count - t))
  }

  /** tagged_prompt::set: the counted text after its tag, or nothing. */
  function TaggedText(chars: string, count: int): (r: Option<string>)
  {
    var t := IsTagged(chars, count);
    if t == 0 then None else Some(chars[t..Min(Avail(chars, count), |chars|)])
  }

  /** A stored prompt is exactly the counted text that follows one of the
      accepted tags. */
  lemma TaggedTextSplitsTag(chars: string, count: int)
    ensures TaggedText(chars, count).Some? <==> IsTagged(chars, count) != 0
    ensures TaggedText(chars, count).Some? ==>
              var t := IsTagged(chars, count);
              chars[..t] in PromptTags &&
              chars[..t] + TaggedText(chars, count).value == chars[..Min(Avail(chars, count), |chars|)]
  {
    var t := IsTagged(chars, count);
    if t != 0 {
      assert chars[..t] == HiddenTag || chars[..t] == VisibleTag;
      assert chars[..t] + chars[t..Min(Avail(chars, count), |chars|)] == chars[..Min(Avail(chars, count), |chars|)];
    }
  }

  /** The source and the corrected reading agree except when the count is
      exactly the tag's length. */
  lemma TaggedTextAsWrittenAgrees(chars: string, count: int)
    requires count <= 0 || count != IsTagged(chars, count)
    ensures TaggedTextAsWritten(chars, count) == TaggedText(chars, count)
  {
    var t := IsTagged(chars, count);
    if t != 0 {
      var rest := chars[t..];
      if count <= 0 {
        assert PromptText(rest, count - t) == rest;
        assert chars[t..Min(Avail(chars, count), |chars|)] == rest;
      } else {
        assert PromptText(rest, count - t) == rest[..Min(count - t, |rest|)];
        assert rest[..Min(count - t, |rest|)] == chars[t..Min(count, |chars|)];
      }
    }
  }

  /** A console write of exactly "@CLINK_PROMPT" followed in memory by "xyz"
      is taken as the prompt "xyz": the count left after the tag is 0, which
      prompt::set reads as "up to the terminator". */
  lemma TaggedSetReadsPastCount()
    ensures TaggedTextAsWritten(VisibleTag + "xyz", 13) == Some("xyz")
    ensures TaggedText(VisibleTag + "xyz", 13) == Some([])
  {
    var chars := VisibleTag + "xyz";
    assert !(HiddenTag <= chars) by { assert chars[1] != HiddenTag[1]; }
    assert VisibleTag <= chars;
    assert IsTagged(chars, 13) == 13;
    assert chars[13..] == "xyz";
    assert PromptText("xyz", 0) == "xyz";
    assert chars[13..Min(13, |chars|)] == [];
  }

  /** tagged_prompt::tag: a tagged value unchanged, any other with the
      hidden tag in front. */
  function TagText(value: string): (r: string)
  {
    if IsTagged(value, 0) != 0 then value else HiddenTag + value
  }

  /** The result of tag is always tagged. */
  lemma TagTextIsTagged(value: string)
    ensures IsTagged(TagText(value), 0) != 0
  {
    if IsTagged(value, 0) == 0 {
      assert HiddenTag <= HiddenTag + value;
    }
  }

  /** tag is idempotent. */
  lemma TagIdempotent(value: string)
    ensures TagText(TagText(value)) == TagText(value)
  {
    TagTextIsTagged(value);
  }

  /** tag then tagged_prompt::set gives back the untagged text. */
  lemma TagThenSet(value: string)
    ensures IsTagged(value, 0) == 0 ==> TaggedText(TagText(value), 0) == Some(value)
    ensures IsTagged(value, 0) != 0 ==> TaggedText(TagText(value), 0) == Some(value[IsTagged(value, 0)..])
  {
    if IsTagged(value, 0) == 0 {
      var tagged := HiddenTag + value;
      assert HiddenTag <= tagged;
      assert tagged[|HiddenTag|..] == value;
      assert tagged[|HiddenTag|..Min(|tagged|, |tagged|)] == value;
    } else {
      var t := IsTagged(value, 0);
      assert value[t..Min(|value|, |value|)] == value[t..];
    }
  }

  /** A prompt (prompt, tagged_prompt): its text, or none when unset. */
  class Prompt {
    var data: Option<string>

    constructor()
      ensures data == None
    {
      data := None;
    }

    method Clear()
      modifies this
      ensures data == None
    {
      data := None;
    }

    method IsSet() returns (b: bool)
      ensures b <==> data.Some?
    {
      b := data.Some?;
    }

    /** prompt::set: a null source leaves the prompt unset. */
    method Set(chars: Option<string>, count: int)
      modifies this
      ensures data == if chars.None? then None else Some(PromptText(chars.value, count))
    {
      Clear();
      if chars.None? {
        return;
      }
      var n := if count <= 0 then |chars.value| else count;
      data := Some(chars.value[..Min(n, |chars.value|)]);
    }

    /** tagged_prompt::set: keeps the counted text after an accepted tag;
        an untagged text leaves the prompt unset. */
    method TaggedSet(chars: string, count: int)
      modifies this
      ensures data == TaggedText(chars, count)
    {
      Clear();
      var t := IsTagged(chars, count);
      if t != 0 {
        if count > 0 && count == t {
          assert chars[t..Min(Avail(chars, count), |chars|)] == [];
          data := Some([]);
        } else {
          TaggedTextAsWrittenAgrees(chars, count);
          Set(Some(chars[t..]), count - t);
        }
      }
    }

    /** tagged_prompt::tag. */
    method Tag(value: string)
      modifies this
      ensures data == Some(TagText(value))
    {
      Clear();
      if IsTagged(value, 0) != 0 {
        assert PromptText(value, 0) == value;
        Set(Some(value), 0);
        return;
      }
      data := Some(HiddenTag + value);
    }
  }

  // ---------------------------------------------------------------------
  // expand_prompt_codes.

  datatype PromptFlags = PromptFlags(singleLine: bool, omitPushd: bool)

  /** What the operating system supplies to the expansion; netName is None
      when the network connection lookup fails. */
  datatype Env = Env(date: string, time: string, cwd: string, netName: Option<string>,
                     version: string, pushdDepth: nat, extensions: bool)

  /** The codes that stand for fixed text. */
  function Literal(c: char): (r: Option<string>)
  {
    if c == 'A' || c == 'a' then Some("&")
    else if c == 'B' || c == 'b' then Some("|")
    else if c == 'C' || c == 'c' then Some("(")
    else if c == 'E' || c == 'e' then Some([27 as char])
    else if c == 'F' || c == 'f' then Some(")")
    else if c == 'G' || c == 'g' then Some(">")
    else if c == 'L' || c == 'l' then Some("<")
    else if c == 'Q' || c == 'q' then Some("=")
    else if c == 'S' || c == 's' then Some(" ")
    else if c == '_' then Some("\r\n")
    else if c == '$' then Some("$")
    else None
  }

  /** The text with its last character deleted. */
  function DropLast(s: string): (r: string)
    ensures |s| > 0 ==> r == s[..|s| - 1]
    ensures |s| == 0 ==> r == []
  {
    if |s| == 0 then [] else s[..|s| - 1]
  }

  /** n plus signs. */
  function Pluses(n: nat): (r: string)
    ensures |r| == n && forall k :: 0 <= k < n ==> r[k] == '+'
  {
    if n == 0 then [] else Pluses(n - 1) + "+"
  }

  /** The text $M adds: the network name of the current drive and a space,
      or "Unknown " when the lookup fails. */
  function NetPart(env: Env): (r: string)
  {
    if !env.extensions || env.cwd == [] then []
    else if env.netName.None? then "Unknown "
    else if env.netName.value != [] then env.netName.value + " "
    else []
  }

  /** The running state of the expansion. */
  datatype Expansion = Expansion(out: string, numPlus: nat, trimRight: bool)

  /** The effect of the code c after a `$`; None when the expansion fails. */
  function Code(c: char, st: Expansion, flags: PromptFlags, env: Env): (r: Option<Expansion>)
  {
    var base := st.(trimRight := false);
    if Literal(c).Some? then Some(base.(out := st.out + Literal(c).value))
    else if c == 'D' || c == 'd' then Some(base.(out := st.out + env.date))
    else if c == 'H' || c == 'h' then Some(base.(out := DropLast(st.out)))
    else if c == 'M' || c == 'm' then Some(Expansion(st.out + NetPart(env), st.numPlus, flags.singleLine))
    else if c == 'N' || c == 'n' then Some(base.(out := st.out + env.cwd[..Min(1, |env.cwd|)]))
    else if c == 'P' || c == 'p' then Some(base.(out := st.out + env.cwd))
    else if c == 'T' || c == 't' then Some(base.(out := st.out + env.time))
    else if c == 'V' || c == 'v' then Some(base.(out := st.out + env.version))
    else if c == '+' then
      (if !flags.omitPushd then Some(base.(out := st.out + Pluses(env.pushdDepth)))
       else if st.numPlus > 0 then None
       else Some(base.(numPlus := st.numPlus + 1)))
    else Some(base)
  }

  /** The text with its trailing spaces removed. */
  function TrimSpaces(s: string): (r: string)
    ensures r <= s
    ensures r == [] || r[|r| - 1] != ' '
    ensures forall k :: |r| <= k < |s| ==> s[k] == ' '
  {
    if |s| > 0 && s[|s| - 1] == ' ' then TrimSpaces(s[..|s| - 1]) else s
  }

  /** The end of the expansion: trailing spaces go when the last code was $M
      in single-line mode. */
  function Finish(st: Expansion): (r: (bool, string))
  {
    (true, if st.trimRight then TrimSpaces(st.out) else st.out)
  }

  /** The expansion from position i of the input. */
  function Run(input: string, i: nat, st: Expansion, flags: PromptFlags, env: Env): (r: (bool, string))
    requires i <= |input|
    decreases |input| - i
  {
    if !More(input, i) then Finish(st)
    else
      var c := input[i];
      if flags.singleLine && (c == '\r' || c == '\n') then Finish(st)
      else if c != '$' then Run(input, i + 1, Expansion(st.out + [c], st.numPlus, false), flags, env)
      else
        var d := Peek(input, i + 1);
        if flags.singleLine && d == '_' then Finish(st.(trimRight := false))
        else match Code(d, st, flags, env)
          case None => (false, st.out)
          case Some(next) => Run(input, Skip(input, i + 1), next, flags, env)
  }

  /** expand_prompt_codes: whether it succeeded, and out with the expansion
      of input appended. */
  function Expand(input: string, out: string, flags: PromptFlags, env: Env): (r: (bool, string))
  {
    if !More(input, 0) then (false, out) else Run(input, 0, Expansion(out, 0, false), flags, env)
  }

  method ExpandPromptCodes(input: string, out0: string, flags: PromptFlags, env: Env) returns (ok: bool, out: string)
    ensures (ok, out) == Expand(input, out0, flags, env)
  {
    out := out0;
    if !More(input, 0) {
      return false, out;
    }
    var numPlus: nat := 0;
    var trimRight := false;
    var i := 0;
    while More(input, i)
      invariant i <= |input|
      invariant Run(input, i, Expansion(out, numPlus, trimRight), flags, env) == Expand(input, out0, flags, env)
      decreases |input| - i
    {
      var c := input[i];
      i := i + 1;
      if flags.singleLine && (c == '\r' || c == '\n') {
        assert Finish(Expansion(out, numPlus, trimRight)) == Expand(input, out0, flags, env);
        break;
      }
      trimRight := false;
      if c != '$' {
        out := out + [c];
        continue;
      }
      c := Peek(input, i);
      ghost var at := i;
      i := Skip(input, i);
      if flags.singleLine && c == '_' {
        assert Finish(Expansion(out, numPlus, false)) == Expand(input, out0, flags, env);
        break;
      }
      var next := Code(c, Expansion(out, numPlus, false), flags, env);
      if next.None? {
        return false, out;
      }
      out, numPlus, trimRight := next.value.out, next.value.numPlus, next.value.trimRight;
    }
    if trimRight {
      ghost var full := out;
      while |out| > 0 && out[|out| - 1] == ' '
        invariant TrimSpaces(out) == TrimSpaces(full)
      {
        out := out[..|out| - 1];
      }
    }
    ok := true;
  }

  // ---------------------------------------------------------------------
  // What the expansion does.

  /** An empty input expands to nothing and reports failure. */
  lemma EmptyInputFails(out: string, flags: PromptFlags, env: Env)
    ensures Expand([], out, flags, env) == (false, out)
  {
  }

  /** A literal code appends its text. */
  lemma LiteralStep(input: string, i: nat, st: Expansion, flags: PromptFlags, env: Env)
    requires i + 1 < |input| && input[i] == '$' && input[i + 1] != '\0'
    requires Literal(input[i + 1]).Some? && !(flags.singleLine && input[i + 1] == '_')
    ensures Run(input, i, st, flags, env) ==
              Run(input, i + 2, Expansion(st.out + Literal(input[i + 1]).value, st.numPlus, false), flags, env)
  {
  }

  /** $H deletes the last character of the output so far. */
  lemma BackspaceStep(input: string, i: nat, st: Expansion, flags: PromptFlags, env: Env)
    requires i + 1 < |input| && input[i] == '$' && (input[i + 1] == 'H' || input[i + 1] == 'h')
    ensures Run(input, i, st, flags, env) == Run(input, i + 2, Expansion(DropLast(st.out), st.numPlus, false), flags, env)
  {
  }

  /** With omit_pushd, a $+ after the first fails the expansion. */
  lemma SecondPlusFails(input: string, i: nat, st: Expansion, flags: PromptFlags, env: Env)
    requires i + 1 < |input| && input[i] == '$' && input[i + 1] == '+'
    requires flags.omitPushd && st.numPlus > 0
    ensures Run(input, i, st, flags, env) == (false, st.out)
  {
  }

  /** With omit_pushd, the first $+ adds nothing and is counted. */
  lemma FirstPlusCounted(input: string, i: nat, st: Expansion, flags: PromptFlags, env: Env)
    requires i + 1 < |input| && input[i] == '$' && input[i + 1] == '+'
    requires flags.omitPushd && st.numPlus == 0
    ensures Run(input, i, st, flags, env) == Run(input, i + 2, Expansion(st.out, 1, false), flags, env)
  {
  }

  /** A character that is copied through. */
  predicate Plain(c: char, flags: PromptFlags)
  {
    c != '$' && c != '\0' && !(flags.singleLine && (c == '\r' || c == '\n'))
  }

  /** Text without codes is copied unchanged. */
  lemma {:induction false} PlainRunCopies(input: string, i: nat, n: nat, st: Expansion, flags: PromptFlags, env: Env)
    requires 0 < n && i + n <= |input|
    requires forall k :: i <= k < i + n ==> Plain(input[k], flags)
    ensures Run(input, i, st, flags, env) == Run(input, i + n, Expansion(st.out + input[i..i + n], st.numPlus, false), flags, env)
    decreases n
  {
    var next := Expansion(st.out + [input[i]], st.numPlus, false);
    assert Run(input, i, st, flags, env) == Run(input, i + 1, next, flags, env);
    if n > 1 {
      PlainRunCopies(input, i + 1, n - 1, next, flags, env);
      assert next.out + input[i + 1..i + n] == st.out + input[i..i + n];
    } else {
      assert input[i..i + 1] == [input[i]];
    }
  }

  /** In single-line mode the expansion stops at the first line break. */
  lemma SingleLineStopsAtNewline(a: string, b: string, out: string, flags: PromptFlags, env: Env)
    requires flags.singleLine
    requires forall k :: 0 <= k < |a| ==> Plain(a[k], flags)
    ensures Expand(a + "\n" + b, out, flags, env) == (true, out + a)
  {
    var input := a + "\n" + b;
    var st := Expansion(out, 0, false);
    assert input[|a|] == '\n';
    var atBreak := Expansion(out + a, 0, false);
    assert Run(input, |a|, atBreak, flags, env) == (true, out + a);
    if |a| > 0 {
      assert forall k :: 0 <= k < |a| ==> input[k] == a[k];
      PlainRunCopies(input, 0, |a|, st, flags, env);
      assert input[0..|a|] == a;
      assert Run(input, 0, st, flags, env) == Run(input, |a|, atBreak, flags, env);
    } else {
      assert out + a == out;
    }
    assert More(input, 0);
  }

  /** A single-line expansion also stops at $_. */
  lemma SingleLineStopsAtBreakCode(input: string, i: nat, st: Expansion, flags: PromptFlags, env: Env)
    requires flags.singleLine
    requires i + 1 < |input| && input[i] == '$' && input[i + 1] == '_'
    ensures Run(input, i, st, flags, env) == (true, st.out)
  {
  }
}
