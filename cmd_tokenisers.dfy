// The cmd.exe command and word tokenisers (cmd_tokenisers.cpp): a table-driven
// state machine that finds command breaks ('&', '|') and redirections.
//
// The text a tokeniser is started on is a `seq<char>` of code points, and all
// offsets count code points from the start of that text. The iterator stops at
// the end of the text or at a NUL.
module CmdTokenisers {
  import opened Common

  // ---------------------------------------------------------------------
  // The transition table

  /** The columns of the table. */
  datatype Input = ITxt | ISpc | IDig | IIn | IOut | IAmp | IPipe

  function InputType(c: char): Input
  {
    if c == ' ' || c == '\t' || c == '\0' then ISpc
    else if IsDigit(c) then IDig
    else if c == '<' then IIn
    else if c == '>' then IOut
    else if c == '&' then IAmp
    else if c == '|' then IPipe
    else ITxt
  }

  /** The states; the last four are outcomes and have no row in the table. */
  datatype State = STxt | SSpc | SDig | SIn | SOut | SIn2 | SOut2 | SDIn | SDOut | SDIn2 | SDOut2 | SReAm | SAmDi
                 | SBreak | SArg | SValid | SBad

  predicate HasRow(st: State)
  {
    !(st.SBreak? || st.SArg? || st.SValid? || st.SBad?)
  }

  /** A redirection token ended just before the current char; SArg means a file name follows. */
  predicate EndsRedir(st: State)
  {
    st.SArg? || st.SValid? || st.SBad?
  }

  /** One row of the table, its entries in column order. */
  function Row(i: Input, txt: State, spc: State, dig: State, inp: State, out: State, amp: State, pipe: State): State
  {
    match i
    case ITxt => txt
    case ISpc => spc
    case IDig => dig
    case IIn => inp
    case IOut => out
    case IAmp => amp
    case IPipe => pipe
  }

  function Transition(st: State, i: Input): State
    requires HasRow(st)
  {
    match st
    case STxt   => Row(i, STxt, SSpc, STxt, SIn,   SOut,   SBreak, SBreak)
    case SSpc   => Row(i, STxt, SSpc, SDig, SIn,   SOut,   SBreak, SBreak)
    case SDig   => Row(i, STxt, SSpc, STxt, SDIn,  SDOut,  SBreak, SBreak)
    case SIn    => Row(i, SArg, SArg, SArg, SIn2,  SBad,   SBad,   SBad)
    case SOut   => Row(i, SArg, SArg, SArg, SBad,  SOut2,  SBad,   SBad)
    case SIn2   => Row(i, SArg, SArg, SArg, SBad,  SBad,   SBad,   SBad)
    case SOut2  => Row(i, SArg, SArg, SArg, SBad,  SBad,   SBad,   SBad)
    case SDIn   => Row(i, SArg, SArg, SArg, SDIn2, SBad,   SReAm,  SBad)
    case SDOut  => Row(i, SArg, SArg, SArg, SBad,  SDOut2, SReAm,  SBad)
    case SDIn2  => Row(i, SArg, SArg, SArg, SBad,  SBad,   SReAm,  SBad)
    case SDOut2 => Row(i, SArg, SArg, SArg, SBad,  SBad,   SReAm,  SBad)
    case SReAm  => Row(i, SBad, SBad, SAmDi, SBad, SBad,   SBad,   SBad)
    case SAmDi  => SValid
  }

  /** Only '&' and '|' break a command, and only from text, space or digit. */
  lemma BreakOnlyOnSeparator(st: State, i: Input)
    requires HasRow(st)
    ensures Transition(st, i) == SBreak <==> (st.STxt? || st.SSpc? || st.SDig?) && (i.IAmp? || i.IPipe?)
  {
  }

  /** After the reset to SSpc the next state is never a redirection outcome. */
  lemma ResetNeverEndsRedir(i: Input)
    ensures !EndsRedir(Transition(SSpc, i))
    ensures Transition(SSpc, i) == SBreak || HasRow(Transition(SSpc, i))
  {
  }

  // ---------------------------------------------------------------------
  // The quote pair

  /** An empty quote pair stands for both a null and an empty one. */
  function OpeningQuote(qp: seq<char>): char
  {
    if |qp| == 0 || qp[0] == '\0' then '"' else qp[0]
  }

  /** As written, the closing quote is also the pair's first char. */
  function ClosingQuote(qp: seq<char>): char
  {
    if |qp| == 0 || qp[0] == '\0' then '"' else qp[0]
  }

  /** What next() returns: no more input, a word, or (word tokeniser only) the asserted-away break. */
  datatype Token = Invalid | Word(offset: nat, length: nat, delim: char, redirArg: bool) | BreakInWord

  // ---------------------------------------------------------------------
  // The command tokeniser

  /** A '&' or '|' at m. */
  predicate BreakAt(s: seq<char>, m: nat)
    requires m < |s|
  {
    s[m] == '&' || s[m] == '|'
  }

  /** The run of '&' and '|' skipped before a command. */
  function SkipBreaks(s: seq<char>, i: nat): (k: nat)
    requires i <= |s|
    ensures i <= k <= |s|
    ensures !(More(s, k) && BreakAt(s, k))
    ensures forall m :: i <= m < k ==> BreakAt(s, m)
    decreases |s| - i
  {
    if More(s, i) && BreakAt(s, i) then SkipBreaks(s, i + 1) else i
  }

  datatype CmdStep = Broke(c: char) | Moved(j: nat, st: State, inQuote: bool, c: char)

  /** One turn of the command loop, for the char at j. */
  function CommandStep(s: seq<char>, j: nat, st: State, inQuote: bool, oq: char, cq: char): (m: CmdStep)
    requires More(s, j) && HasRow(st)
    ensures m.Moved? ==> j < m.j <= |s| && HasRow(m.st)
    ensures m.Broke? ==> m.c == s[j] && (s[j] == '&' || s[j] == '|')
  {
    var c := s[j];
    if inQuote then
      if c == cq then Moved(j + 1, st, false, c)
      else if c == '^' then Moved(Skip(s, j + 1), st, true, c)
      else Moved(j + 1, st, true, c)
    else
      var n0 := Transition(st, InputType(c));
      var n := if EndsRedir(n0) then Transition(SSpc, InputType(c)) else n0;
      if n == SBreak then Broke(c)
      else Moved(if c == '^' then Skip(s, j + 1) else j + 1, n, c == oq, c)
  }

  /** Where the command loop stops, whether at a break, and the last char it read. */
  datatype ScanEnd = ScanEnd(end: nat, brk: bool, last: char)

  function ScanCommand(s: seq<char>, j: nat, st: State, inQuote: bool, c: char, oq: char, cq: char): (r: ScanEnd)
    requires j <= |s| && HasRow(st)
    ensures j <= r.end <= |s|
    ensures More(s, j) ==> j < r.end
    ensures r.brk ==> 0 < r.end && s[r.end - 1] == r.last && (r.last == '&' || r.last == '|')
    decreases |s| - j
  {
    if !More(s, j) then ScanEnd(j, false, c)
    else
      match CommandStep(s, j, st, inQuote, oq, cq)
      case Broke(b) => ScanEnd(j + 1, true, b)
      case Moved(j2, st2, q2, c2) => ScanCommand(s, j2, st2, q2, c2, oq, cq)
  }

  datatype Scanned = Scanned(token: Token, iter: nat)

  /** What next() returns once the loop from off has ended at e: the break char is not part of the command. */
  function CommandWord(s: seq<char>, off: nat, e: ScanEnd): Scanned
    requires off <= e.end && (e.brk ==> off < e.end)
  {
    Scanned(Word(off, e.end - (if e.brk then 1 else 0) - off, if More(s, e.end) then e.last else '\0', false), e.end)
  }

  /** cmd_command_tokeniser::next from position i of the text. */
  function CommandNext(s: seq<char>, i: nat, qp: seq<char>): (r: Scanned)
    requires i <= |s|
    ensures i <= r.iter <= |s|
    ensures More(s, i) <==> r.token.Word?
    ensures More(s, i) ==> i < r.iter
    ensures r.token.Word? ==> i <= r.token.offset && r.token.offset + r.token.length <= r.iter
    ensures !r.token.BreakInWord?
  {
    if !More(s, i) then Scanned(Invalid, i)
    else
      var k := SkipBreaks(s, i);
      var off := if k != 0 && More(s, k) && s[k] == ' ' then k + 1 else k;
      CommandWord(s, off, ScanCommand(s, off, SSpc, false, '\0', OpeningQuote(qp), ClosingQuote(qp)))
  }

  /** A command ends at the end of the text or just before the '&' or '|' that broke it. */
  lemma CommandBreakExcluded(s: seq<char>, i: nat, qp: seq<char>)
    requires i <= |s|
    ensures var r := CommandNext(s, i, qp);
            r.token.Word? ==>
              var e := r.token.offset + r.token.length;
              e == r.iter || (e + 1 == r.iter && (s[e] == '&' || s[e] == '|'))
  {
  }

  /** Text with no '&' or '|' never breaks: the command is all of the rest. */
  lemma {:induction false} ScanWithoutBreaks(s: seq<char>, j: nat, st: State, inQuote: bool, c: char, oq: char, cq: char)
    requires j <= |s| && HasRow(st) && IsCString(s)
    requires forall m :: j <= m < |s| ==> !BreakAt(s, m)
    ensures ScanCommand(s, j, st, inQuote, c, oq, cq).end == |s|
    ensures !ScanCommand(s, j, st, inQuote, c, oq, cq).brk
    decreases |s| - j
  {
    if More(s, j) {
      assert !BreakAt(s, j);
      var m := CommandStep(s, j, st, inQuote, oq, cq);
      ScanWithoutBreaks(s, m.j, m.st, m.inQuote, m.c, oq, cq);
    }
  }

  lemma OneCommand(s: seq<char>, i: nat, qp: seq<char>)
    requires i < |s| && IsCString(s)
    requires forall m :: i <= m < |s| ==> !BreakAt(s, m)
    ensures var off := if i != 0 && s[i] == ' ' then i + 1 else i;
            CommandNext(s, i, qp) == Scanned(Word(off, |s| - off, '\0', false), |s|)
  {
    assert SkipBreaks(s, i) == i;
    var off := if i != 0 && s[i] == ' ' then i + 1 else i;
    ScanWithoutBreaks(s, off, SSpc, false, '\0', OpeningQuote(qp), ClosingQuote(qp));
  }

  /** A char that is plain command text: no break, redirection, escape or quote. */
  predicate PlainText(c: char, oq: char)
  {
    (InputType(c).ITxt? || InputType(c).ISpc?) && c != '\0' && c != '^' && c != oq
  }

  /** One plain text char moves to the text or space state. */
  lemma PlainStep(s: seq<char>, j: nat, st: State, oq: char, cq: char)
    requires j < |s| && PlainTextAt(s, j, oq) && (st.STxt? || st.SSpc?)
    ensures CommandStep(s, j, st, false, oq, cq) == Moved(j + 1, if InputType(s[j]).ISpc? then SSpc else STxt, false, s[j])
  {
  }

  /** '&' or '|' after text or space breaks the command. */
  lemma BreakStep(s: seq<char>, k: nat, st: State, oq: char, cq: char)
    requires k < |s| && (s[k] == '&' || s[k] == '|') && (st.STxt? || st.SSpc?)
    ensures CommandStep(s, k, st, false, oq, cq) == Broke(s[k])
  {
  }

  predicate PlainTextAt(s: seq<char>, m: nat, oq: char)
    requires m < |s|
  {
    PlainText(s[m], oq)
  }

  /** Plain text up to a '&' or '|' at k: the loop breaks there. */
  lemma {:induction false} PlainThenBreak(s: seq<char>, j: nat, k: nat, st: State, c: char, oq: char, cq: char)
    requires j <= k < |s| && (s[k] == '&' || s[k] == '|')
    requires st.STxt? || st.SSpc?
    requires forall m :: j <= m < k ==> PlainTextAt(s, m, oq)
    ensures ScanCommand(s, j, st, false, c, oq, cq) == ScanEnd(k + 1, true, s[k])
    decreases k - j
  {
    if j < k {
      PlainStep(s, j, st, oq, cq);
      PlainThenBreak(s, j + 1, k, if InputType(s[j]).ISpc? then SSpc else STxt, s[j], oq, cq);
    } else {
      BreakStep(s, k, st, oq, cq);
    }
  }

  lemma {:induction false} SkipBreaksOver(s: seq<char>, i: nat, k: nat)
    requires i <= k < |s| && !(More(s, k) && BreakAt(s, k))
    requires forall m :: i <= m < k ==> BreakAt(s, m)
    ensures SkipBreaks(s, i) == k
    decreases k - i
  {
    if i < k {
      assert BreakAt(s, i);
      SkipBreaksOver(s, i + 1, k);
    }
  }

  /** A first command of plain text ends before the '&' or '|' at k, which the iterator passes. */
  lemma FirstCommandBreaks(s: seq<char>, k: nat, qp: seq<char>)
    requires 0 < k && k + 1 < |s| && (s[k] == '&' || s[k] == '|') && s[k + 1] != '\0'
    requires forall m :: 0 <= m < k ==> PlainTextAt(s, m, OpeningQuote(qp))
    ensures CommandNext(s, 0, qp) == Scanned(Word(0, k, s[k], false), k + 1)
  {
    assert PlainTextAt(s, 0, OpeningQuote(qp));
    assert SkipBreaks(s, 0) == 0;
    PlainThenBreak(s, 0, k, SSpc, '\0', OpeningQuote(qp), ClosingQuote(qp));
  }

  /** After a break, the rest of a run of '&' and '|' and then one space are skipped: with
      "nullcmd & argcmd " the second command is at 10, with "nullcmd |&|&| argcmd " at 14. */
  lemma NextCommandAfterRun(s: seq<char>, i: nat, k: nat, qp: seq<char>)
    requires 0 < i <= k < |s| && IsCString(s)
    requires forall m :: i <= m < k ==> BreakAt(s, m)
    requires forall m :: k <= m < |s| ==> !BreakAt(s, m)
    ensures var sp := if s[k] == ' ' then 1 else 0;
            CommandNext(s, i, qp) == Scanned(Word(k + sp, |s| - k - sp, '\0', false), |s|)
  {
    SkipBreaksOver(s, i, k);
    var sp := if s[k] == ' ' then 1 else 0;
    ScanWithoutBreaks(s, k + sp, SSpc, false, '\0', OpeningQuote(qp), ClosingQuote(qp));
  }

  /** A '^' outside quotes makes the next char text: the loop steps over both. */
  lemma EscapeSkipsNext(s: seq<char>, j: nat, st: State, oq: char, cq: char)
    requires More(s, j) && s[j] == '^' && HasRow(st)
    ensures CommandStep(s, j, st, false, oq, cq).Moved?
    ensures CommandStep(s, j, st, false, oq, cq).j == Skip(s, j + 1)
  {
  }

  /** Inside quotes a char other than the closing quote and '^' is text. */
  lemma QuotedStep(s: seq<char>, j: nat, st: State, oq: char, cq: char)
    requires j < |s| && QuotedTextAt(s, j, cq) && HasRow(st)
    ensures CommandStep(s, j, st, true, oq, cq) == Moved(j + 1, st, true, s[j])
  {
  }

  /** The closing quote ends the quoted part and leaves the state as it was. */
  lemma CloseQuoteStep(s: seq<char>, k: nat, st: State, oq: char, cq: char)
    requires More(s, k) && s[k] == cq && HasRow(st)
    ensures CommandStep(s, k, st, true, oq, cq) == Moved(k + 1, st, false, cq)
  {
  }

  /** A char that a quoted part passes over: not the closing quote, an escape or NUL. */
  predicate QuotedTextAt(s: seq<char>, m: nat, cq: char)
    requires m < |s|
  {
    s[m] != cq && s[m] != '^' && s[m] != '\0'
  }

  /** Inside quotes nothing breaks: the loop runs on to the closing quote. */
  lemma {:induction false} QuotedRun(s: seq<char>, j: nat, k: nat, st: State, c: char, oq: char, cq: char)
    requires j <= k < |s| && s[k] == cq && cq != '\0' && HasRow(st)
    requires forall m :: j <= m < k ==> QuotedTextAt(s, m, cq)
    ensures ScanCommand(s, j, st, true, c, oq, cq) == ScanCommand(s, k + 1, st, false, cq, oq, cq)
    decreases k - j
  {
    if j < k {
      QuotedStep(s, j, st, oq, cq);
      QuotedRun(s, j + 1, k, st, s[j], oq, cq);
    } else {
      CloseQuoteStep(s, k, st, oq, cq);
    }
  }

  // ---------------------------------------------------------------------
  // The word tokeniser

  /** The separators start_new_word skips; strchr would also accept NUL, which the iterator never yields. */
  predicate WordSeparator(c: char)
  {
    c == ' ' || c == '\t' || c == '=' || c == ';'
  }

  predicate SeparatorAt(s: seq<char>, m: nat)
    requires m < |s|
  {
    WordSeparator(s[m])
  }

  function SkipSeparators(s: seq<char>, j: nat): (k: nat)
    requires j <= |s|
    ensures j <= k <= |s| && !(More(s, k) && WordSeparator(s[k]))
    decreases |s| - j
  {
    if More(s, j) && WordSeparator(s[j]) then SkipSeparators(s, j + 1) else j
  }

  /** The word loop's variables: iterator, word start and end, the two redirection flags, last char, quote, state. */
  datatype WordState = WordState(j: nat, start: nat, end: nat, redir: bool, next: bool, c: char, inQuote: bool, st: State)

  predicate WordOk(s: seq<char>, w: WordState)
  {
    w.start <= w.end <= w.j <= |s| && HasRow(w.st)
  }

  datatype WordStep = WDone(w: WordState) | WNext(w: WordState) | WBreak

  /** One turn of the word loop. */
  function StepWord(s: seq<char>, w: WordState, oq: char, cq: char): (m: WordStep)
    requires WordOk(s, w)
    ensures m.WNext? ==> WordOk(s, m.w) && w.j < m.w.j && w.start <= m.w.start
    ensures m.WDone? ==> WordOk(s, m.w) && w.j <= m.w.j && w.start <= m.w.start
  {
    if w.inQuote then
      if !More(s, w.j) then WDone(w)
      else
        var c := s[w.j];
        var j := if c != cq && c == '^' then Skip(s, w.j + 1) else w.j + 1;
        WNext(w.(j := j, end := j, c := c, inQuote := c != cq))
    else
      var c := Peek(s, w.j);
      var n0 := Transition(w.st, InputType(c));
      if n0 == SBreak then WBreak
      else if EndsRedir(n0) then
        if w.end > w.start then WDone(w.(next := n0.SArg?, c := c))
        else
          var k := SkipSeparators(s, w.j);
          var c2 := Peek(s, k);
          var n := Transition(SSpc, InputType(c2));
          if n == SBreak then WBreak
          else WordTail(s, WordState(k, k, k, n0.SArg?, false, c2, false, SSpc), n, oq)
      else WordTail(s, w.(c := c), n0, oq)
  }

  /** The rest of a turn once the new state n is known and c holds the peeked char. */
  function WordTail(s: seq<char>, w: WordState, n: State, oq: char): (m: WordStep)
    requires WordOk(s, w) && HasRow(n) && !w.inQuote
    ensures m.WNext? ==> WordOk(s, m.w) && w.j < m.w.j && m.w.start == w.start
    ensures m.WDone? ==> WordOk(s, m.w) && w.j <= m.w.j && m.w.start == w.start
  {
    var end1 := if n == SSpc && (w.st.STxt? || w.st.SSpc? || w.st.SDig?) then w.j else w.end;
    if !More(s, w.j) then WDone(w.(end := end1))
    else
      var j1 := if w.c == '^' then Skip(s, w.j + 1) else w.j + 1;
      if n == SSpc || (n == STxt && (w.c == '=' || w.c == ';')) then WDone(w.(end := end1, j := j1))
      else WNext(w.(j := j1, end := if n == STxt then j1 else end1, inQuote := w.c == oq, st := n))
  }

  /** The word loop from w; None when it meets a separator the source asserts never comes. */
  function ScanWord(s: seq<char>, w: WordState, oq: char, cq: char): (r: Option<WordState>)
    requires WordOk(s, w)
    ensures r.Some? ==> WordOk(s, r.value) && w.j <= r.value.j && w.start <= r.value.start
    decreases |s| - w.j
  {
    match StepWord(s, w, oq, cq)
    case WBreak => None
    case WDone(w2) => Some(w2)
    case WNext(w2) => ScanWord(s, w2, oq, cq)
  }

  /** The loop state start_new_word leaves at k, with the carried flag. */
  function Fresh(k: nat, next: bool): WordState
  {
    WordState(k, k, k, next, false, '\0', false, SSpc)
  }

  datatype Tokenised = Tokenised(token: Token, iter: nat, nextRedir: bool)

  /** What next() returns once the loop from i has ended in m. */
  function Outcome(s: seq<char>, i: nat, next: bool, m: Option<WordState>): Tokenised
    requires m.Some? ==> m.value.start <= m.value.end
  {
    match m
    case None => Tokenised(BreakInWord, i, next)
    case Some(w) => Tokenised(Word(w.start, w.end - w.start, if More(s, w.j) then w.c else '\0', w.redir), w.j, w.next)
  }

  /** cmd_word_tokeniser::next from position i, with the carried redirection flag. */
  function WordNext(s: seq<char>, i: nat, next: bool, qp: seq<char>): (r: Tokenised)
    requires i <= |s|
    ensures i <= r.iter <= |s|
    ensures !More(s, i) <==> r.token.Invalid?
    ensures r.token.Word? ==> i <= r.token.offset && r.token.offset + r.token.length <= r.iter
  {
    if !More(s, i) then Tokenised(Invalid, i, next)
    else
      var k := SkipSeparators(s, i);
      Outcome(s, i, next, ScanWord(s, Fresh(k, next), OpeningQuote(qp), ClosingQuote(qp)))
  }

  /** A char that makes up a plain word: text that is no separator, escape or quote. */
  predicate WordChar(c: char, oq: char)
  {
    InputType(c).ITxt? && !WordSeparator(c) && c != '^' && c != oq
  }

  predicate WordCharAt(s: seq<char>, m: nat, oq: char)
    requires m < |s|
  {
    WordChar(s[m], oq)
  }

  /** The loop in the middle of a word of text that starts at i, at j, having just read s[j - 1]. */
  function InWord(s: seq<char>, i: nat, j: nat, redir: bool): WordState
    requires 0 < j <= |s|
  {
    WordState(j, i, j, redir, false, s[j - 1], false, STxt)
  }

  /** A word char inside a word extends it. */
  lemma WordCharStep(s: seq<char>, i: nat, j: nat, redir: bool, oq: char, cq: char)
    requires i < j < |s| && WordCharAt(s, j, oq)
    ensures StepWord(s, InWord(s, i, j, redir), oq, cq) == WNext(InWord(s, i, j + 1, redir))
  {
  }

  lemma WordCharScan(s: seq<char>, i: nat, j: nat, redir: bool, oq: char, cq: char)
    requires i < j < |s| && WordCharAt(s, j, oq)
    ensures ScanWord(s, InWord(s, i, j, redir), oq, cq) == ScanWord(s, InWord(s, i, j + 1, redir), oq, cq)
  {
    WordCharStep(s, i, j, redir, oq, cq);
  }

  /** A separator inside a word ends the word there, and the iterator passes the separator. */
  lemma SeparatorStep(s: seq<char>, i: nat, k: nat, redir: bool, oq: char, cq: char)
    requires i < k < |s| && SeparatorAt(s, k)
    ensures StepWord(s, InWord(s, i, k, redir), oq, cq) == WDone(WordState(k + 1, i, k, redir, false, s[k], false, STxt))
  {
  }

  /** A fresh word starting with a word char takes that char in. */
  lemma TextStep(s: seq<char>, i: nat, next: bool, oq: char, cq: char)
    requires i < |s| && WordCharAt(s, i, oq)
    ensures StepWord(s, Fresh(i, next), oq, cq) == WNext(InWord(s, i, i + 1, next))
  {
  }

  /** Word chars from j up to k, inside a word that starts at i. */
  predicate WordRun(s: seq<char>, i: nat, j: nat, k: nat, oq: char)
  {
    i < j <= k <= |s| && forall m :: j <= m < k ==> WordCharAt(s, m, oq)
  }

  /** One char of such a run, and the rest of the run after it. */
  lemma WordRunStep(s: seq<char>, i: nat, j: nat, k: nat, redir: bool, oq: char, cq: char)
    requires WordRun(s, i, j, k, oq) && j < k
    ensures ScanWord(s, InWord(s, i, j, redir), oq, cq) == ScanWord(s, InWord(s, i, j + 1, redir), oq, cq)
    ensures WordRun(s, i, j + 1, k, oq)
  {
    WordCharScan(s, i, j, redir, oq, cq);
  }

  lemma {:induction false} Telescope<T>(f: nat -> T, j: nat, k: nat)
    requires j <= k
    requires forall x :: j <= x < k ==> f(x) == f(x + 1)
    ensures f(j) == f(k)
    decreases k - j
  {
    if j < k {
      Telescope(f, j + 1, k);
    }
  }

  /** The rest of the scan in the middle of a word from i, at x; None where that is no loop state. */
  function ScanIn(s: seq<char>, i: nat, x: nat, redir: bool, oq: char, cq: char): Option<WordState>
  {
    if i < x <= |s| then ScanWord(s, InWord(s, i, x, redir), oq, cq) else None
  }

  lemma RunSteps(s: seq<char>, i: nat, j: nat, k: nat, redir: bool, oq: char, cq: char)
    requires WordRun(s, i, j, k, oq)
    ensures forall x :: j <= x < k ==> ScanIn(s, i, x, redir, oq, cq) == ScanIn(s, i, x + 1, redir, oq, cq)
  {
    forall x | j <= x < k
      ensures ScanIn(s, i, x, redir, oq, cq) == ScanIn(s, i, x + 1, redir, oq, cq)
    {
      WordCharScan(s, i, x, redir, oq, cq);
    }
  }

  lemma PlainWordRun(s: seq<char>, i: nat, j: nat, k: nat, redir: bool, oq: char, cq: char)
    requires WordRun(s, i, j, k, oq)
    ensures ScanWord(s, InWord(s, i, j, redir), oq, cq) == ScanWord(s, InWord(s, i, k, redir), oq, cq)
  {
    RunSteps(s, i, j, k, redir, oq, cq);
    Telescope((x: nat) => ScanIn(s, i, x, redir, oq, cq), j, k);
  }

  /** A run of plain word chars ending in a separator at k: the word ends at k and the iterator passes it. */
  lemma PlainWordScan(s: seq<char>, i: nat, j: nat, k: nat, redir: bool, oq: char, cq: char)
    requires i < j <= k < |s|
    requires forall m :: j <= m < k ==> WordCharAt(s, m, oq)
    requires SeparatorAt(s, k)
    ensures ScanWord(s, InWord(s, i, j, redir), oq, cq) == Some(WordState(k + 1, i, k, redir, false, s[k], false, STxt))
  {
    PlainWordRun(s, i, j, k, redir, oq, cq);
    SeparatorStep(s, i, k, redir, oq, cq);
  }

  /** Space, tab, '=' and ';' end a word, which keeps the carried flag. */
  lemma SeparatorEndsWord(s: seq<char>, i: nat, k: nat, next: bool, qp: seq<char>)
    requires i < k < |s| && SeparatorAt(s, k)
    requires forall m :: i <= m < k ==> WordCharAt(s, m, OpeningQuote(qp))
    ensures WordNext(s, i, next, qp) == Tokenised(Word(i, k - i, if More(s, k + 1) then s[k] else '\0', next), k + 1, false)
  {
    var oq, cq := OpeningQuote(qp), ClosingQuote(qp);
    assert WordCharAt(s, i, oq);
    assert SkipSeparators(s, i) == i;
    TextStep(s, i, next, oq, cq);
    PlainWordScan(s, i, i + 1, k, next, oq, cq);
  }

  /** With no '&' or '|' in the text the word tokeniser never meets its asserted-away break. */
  lemma {:induction false} ScanWordWithoutBreaks(s: seq<char>, w: WordState, oq: char, cq: char)
    requires WordOk(s, w) && IsCString(s)
    requires forall m :: 0 <= m < |s| ==> !BreakAt(s, m)
    ensures ScanWord(s, w, oq, cq).Some?
    decreases |s| - w.j
  {
    BreakOnlyOnSeparator(w.st, InputType(Peek(s, w.j)));
    var k := SkipSeparators(s, w.j);
    BreakOnlyOnSeparator(SSpc, InputType(Peek(s, k)));
    if w.j < |s| {
      assert !BreakAt(s, w.j);
    }
    if k < |s| {
      assert !BreakAt(s, k);
    }
    match StepWord(s, w, oq, cq)
    case WBreak =>
    case WDone(_) =>
    case WNext(w2) => ScanWordWithoutBreaks(s, w2, oq, cq);
  }

  lemma NoBreakInWord(s: seq<char>, i: nat, next: bool, qp: seq<char>)
    requires i <= |s| && IsCString(s)
    requires forall m :: 0 <= m < |s| ==> !BreakAt(s, m)
    ensures !WordNext(s, i, next, qp).token.BreakInWord?
  {
    if More(s, i) {
      var k := SkipSeparators(s, i);
      ScanWordWithoutBreaks(s, Fresh(k, next), OpeningQuote(qp), ClosingQuote(qp));
    }
  }

  lemma {:induction false} SkipSeparatorsOver(s: seq<char>, j: nat, k: nat)
    requires j <= k <= |s| && !(More(s, k) && WordSeparator(s[k]))
    requires forall m :: j <= m < k ==> SeparatorAt(s, m)
    ensures SkipSeparators(s, j) == k
    decreases k - j
  {
    if j < k {
      assert SeparatorAt(s, j);
      SkipSeparatorsOver(s, j + 1, k);
    }
  }

  // Single turns of the word loop, each stated on StepWord for the states the loop passes through.

  /** A fresh word starting with a digit moves to the digit state; the word is still empty. */
  lemma DigitStep(s: seq<char>, i: nat, next: bool)
    requires i < |s| && IsDigit(s[i])
    ensures StepWord(s, Fresh(i, next), '"', '"') == WNext(WordState(i + 1, i, i, next, false, s[i], false, SDig))
  {
  }

  /** A fresh word starting with '>' or '<' moves to the operator's state; the word is still empty. */
  lemma OperatorStep(s: seq<char>, i: nat, next: bool)
    requires i < |s| && (s[i] == '>' || s[i] == '<')
    ensures StepWord(s, Fresh(i, next), '"', '"') == WNext(WordState(i + 1, i, i, next, false, s[i], false, if s[i] == '>' then SOut else SIn))
  {
  }

  /** After an operator with nothing before it, the file name starts a new, flagged word at k. */
  lemma ArgAfterOperatorStep(s: seq<char>, i: nat, k: nat, next: bool)
    requires i < k < |s| && (s[i] == '>' || s[i] == '<')
    requires forall m :: i < m < k ==> SeparatorAt(s, m)
    requires WordCharAt(s, k, '"')
    ensures StepWord(s, WordState(i + 1, i, i, next, false, s[i], false, if s[i] == '>' then SOut else SIn), '"', '"') ==
            WNext(InWord(s, k, k + 1, true))
  {
    SkipSeparatorsOver(s, i + 1, k);
    assert InputType(Peek(s, i + 1)).ITxt? || InputType(Peek(s, i + 1)).ISpc?;
  }

  /** '>' or '<' right after word text moves to the operator's state and leaves the word's end where it was. */
  lemma OperatorAfterTextStep(s: seq<char>, i: nat, k: nat, next: bool)
    requires i < k < |s| && (s[k] == '>' || s[k] == '<')
    ensures StepWord(s, InWord(s, i, k, next), '"', '"') ==
            WNext(WordState(k + 1, i, k, next, false, s[k], false, if s[k] == '>' then SOut else SIn))
  {
  }

  /** The operator's file name follows a word: the word is returned and the flag carried to the next call. */
  lemma FlagDone(s: seq<char>, i: nat, k: nat, next: bool)
    requires i < k && k + 1 < |s| && (s[k] == '>' || s[k] == '<')
    requires WordCharAt(s, k + 1, '"') || SeparatorAt(s, k + 1)
    ensures StepWord(s, WordState(k + 1, i, k, next, false, s[k], false, if s[k] == '>' then SOut else SIn), '"', '"') ==
            WDone(WordState(k + 1, i, k, next, true, s[k + 1], false, if s[k] == '>' then SOut else SIn))
  {
  }

  /** '>' after a lone digit redirects that handle. */
  lemma HandleOutStep(s: seq<char>, i: nat, next: bool)
    requires i + 1 < |s| && s[i + 1] == '>'
    ensures StepWord(s, WordState(i + 1, i, i, next, false, s[i], false, SDig), '"', '"') ==
            WNext(WordState(i + 2, i, i, next, false, '>', false, SDOut))
  {
  }

  /** '&' after a handle redirection. */
  lemma HandleAmpStep(s: seq<char>, i: nat, next: bool)
    requires i + 2 < |s| && s[i + 2] == '&'
    ensures StepWord(s, WordState(i + 2, i, i, next, false, '>', false, SDOut), '"', '"') ==
            WNext(WordState(i + 3, i, i, next, false, '&', false, SReAm))
  {
  }

  /** A digit after "n>&" names the duplicated handle. */
  lemma HandleTargetStep(s: seq<char>, i: nat, next: bool)
    requires i + 3 < |s| && IsDigit(s[i + 3])
    ensures StepWord(s, WordState(i + 3, i, i, next, false, '&', false, SReAm), '"', '"') ==
            WNext(WordState(i + 4, i, i, next, false, s[i + 3], false, SAmDi))
  {
  }

  /** After "n>&m" and separators the next word starts at k, not flagged. */
  lemma RestartAfterHandleStep(s: seq<char>, i: nat, k: nat, next: bool)
    requires i + 4 <= k < |s| && WordCharAt(s, k, '"')
    requires forall m :: i + 4 <= m < k ==> SeparatorAt(s, m)
    ensures StepWord(s, WordState(i + 4, i, i, next, false, s[i + 3], false, SAmDi), '"', '"') ==
            WNext(InWord(s, k, k + 1, false))
  {
    SkipSeparatorsOver(s, i + 4, k);
  }

  /** A lone digit followed by a space or tab ends as a word. */
  lemma DigitSpaceDone(s: seq<char>, i: nat, next: bool)
    requires i + 1 < |s| && (s[i + 1] == ' ' || s[i + 1] == '\t')
    ensures StepWord(s, WordState(i + 1, i, i, next, false, s[i], false, SDig), '"', '"') ==
            WDone(WordState(i + 2, i, i + 1, next, false, s[i + 1], false, SDig))
  {
  }

  // The same runs lifted to the whole loop.

  /** next() when the word starts at i and the quote is '"': the outcome of the loop from there. */
  lemma WordNextFromScan(s: seq<char>, i: nat, next: bool, qp: seq<char>, w: WordState)
    requires OpeningQuote(qp) == '"' && More(s, i) && !WordSeparator(s[i])
    requires ScanWord(s, Fresh(i, next), '"', '"') == Some(w)
    ensures WordNext(s, i, next, qp) ==
            Tokenised(Word(w.start, w.end - w.start, if More(s, w.j) then w.c else '\0', w.redir), w.j, w.next)
  {
    assert ClosingQuote(qp) == '"';
    assert SkipSeparators(s, i) == i;
  }

  /** '>' or '<' at i, separators up to k, a file name of word chars from k to the separator at e. */
  predicate OperatorThenName(s: seq<char>, i: nat, k: nat, e: nat)
  {
    i < k < e < |s| && (s[i] == '>' || s[i] == '<') &&
    (forall m :: i < m < k ==> SeparatorAt(s, m)) &&
    (forall m :: k <= m < e ==> WordCharAt(s, m, '"')) &&
    WordSeparator(s[e])
  }

  /** Word chars from i to k, then '>' or '<', then a word char or separator. */
  predicate WordThenOperator(s: seq<char>, i: nat, k: nat)
  {
    i < k && k + 1 < |s| && (s[k] == '>' || s[k] == '<') &&
    (forall m :: i <= m < k ==> WordCharAt(s, m, '"')) &&
    (WordCharAt(s, k + 1, '"') || SeparatorAt(s, k + 1))
  }

  /** "n>&m" at i, separators up to k, then a word of word chars from k to the separator at e. */
  predicate DuplicateThenWord(s: seq<char>, i: nat, k: nat, e: nat)
  {
    i + 4 <= k < e < |s| &&
    IsDigit(s[i]) && s[i + 1] == '>' && s[i + 2] == '&' && IsDigit(s[i + 3]) &&
    (forall m :: i + 4 <= m < k ==> SeparatorAt(s, m)) &&
    (forall m :: k <= m < e ==> WordCharAt(s, m, '"')) &&
    WordSeparator(s[e])
  }

  /** A word of plain chars from k to a separator at e, the first char already taken in. */
  lemma PlainWordTo(s: seq<char>, k: nat, e: nat, flag: bool)
    requires k < e < |s|
    requires forall m :: k <= m < e ==> WordCharAt(s, m, '"')
    requires SeparatorAt(s, e)
    ensures ScanWord(s, InWord(s, k, k + 1, flag), '"', '"') ==
            Some(WordState(e + 1, k, e, flag, false, s[e], false, STxt))
  {
    PlainWordScan(s, k, k + 1, e, flag, '"', '"');
  }

  /** An operator, then separators, then a word char at k: the word restarts at k, flagged. */
  lemma OperatorThenArg(s: seq<char>, i: nat, k: nat, next: bool)
    requires i < k < |s| && (s[i] == '>' || s[i] == '<')
    requires forall m :: i < m < k ==> SeparatorAt(s, m)
    requires WordCharAt(s, k, '"')
    ensures ScanWord(s, Fresh(i, next), '"', '"') ==
            ScanWord(s, InWord(s, k, k + 1, true), '"', '"')
  {
    OperatorStep(s, i, next);
    ArgAfterOperatorStep(s, i, k, next);
  }

  lemma RedirArgScan(s: seq<char>, i: nat, k: nat, e: nat, next: bool)
    requires OperatorThenName(s, i, k, e)
    ensures ScanWord(s, Fresh(i, next), '"', '"') == Some(WordState(e + 1, k, e, true, false, s[e], false, STxt))
  {
    OperatorThenArg(s, i, k, next);
    PlainWordTo(s, k, e, true);
  }

  /** The word after a redirection operator and its separators is flagged redir_arg. */
  lemma RedirArgAfterOperator(s: seq<char>, i: nat, k: nat, e: nat, next: bool, qp: seq<char>)
    requires OpeningQuote(qp) == '"' && OperatorThenName(s, i, k, e)
    ensures WordNext(s, i, next, qp) == Tokenised(Word(k, e - k, if More(s, e + 1) then s[e] else '\0', true), e + 1, false)
  {
    RedirArgScan(s, i, k, e, next);
    WordNextFromScan(s, i, next, qp, WordState(e + 1, k, e, true, false, s[e], false, STxt));
  }

  /** A run of word chars from i to k extends the fresh word to k. */
  lemma WordRunTo(s: seq<char>, i: nat, k: nat, next: bool)
    requires i < k <= |s|
    requires forall m :: i <= m < k ==> WordCharAt(s, m, '"')
    ensures ScanWord(s, Fresh(i, next), '"', '"') ==
            ScanWord(s, InWord(s, i, k, next), '"', '"')
  {
    TextStep(s, i, next, '"', '"');
    PlainWordRun(s, i, i + 1, k, next, '"', '"');
  }

  /** An operator after a word ends the word before it and sets the flag for the next call. */
  lemma OperatorAfterWord(s: seq<char>, i: nat, k: nat, next: bool)
    requires i < k && k + 1 < |s| && (s[k] == '>' || s[k] == '<')
    requires WordCharAt(s, k + 1, '"') || SeparatorAt(s, k + 1)
    ensures ScanWord(s, InWord(s, i, k, next), '"', '"') ==
            Some(WordState(k + 1, i, k, next, true, s[k + 1], false, if s[k] == '>' then SOut else SIn))
  {
    OperatorAfterTextStep(s, i, k, next);
    FlagDone(s, i, k, next);
  }

  lemma RedirFlagScan(s: seq<char>, i: nat, k: nat, next: bool)
    requires WordThenOperator(s, i, k)
    ensures ScanWord(s, Fresh(i, next), '"', '"') ==
            Some(WordState(k + 1, i, k, next, true, s[k + 1], false, if s[k] == '>' then SOut else SIn))
  {
    WordRunTo(s, i, k, next);
    OperatorAfterWord(s, i, k, next);
  }

  /** A word running into '>' or '<' is returned at once, and the flag is carried to the next call. */
  lemma RedirFlagCarried(s: seq<char>, i: nat, k: nat, next: bool, qp: seq<char>)
    requires OpeningQuote(qp) == '"' && WordThenOperator(s, i, k)
    ensures WordNext(s, i, next, qp) == Tokenised(Word(i, k - i, s[k + 1], next), k + 1, true)
  {
    RedirFlagScan(s, i, k, next);
    WordNextFromScan(s, i, next, qp, WordState(k + 1, i, k, next, true, s[k + 1], false, if s[k] == '>' then SOut else SIn));
  }

  /** A digit and '>' from a fresh word. */
  lemma HandleRedirect(s: seq<char>, i: nat, next: bool)
    requires i + 1 < |s| && IsDigit(s[i]) && s[i + 1] == '>'
    ensures ScanWord(s, Fresh(i, next), '"', '"') ==
            ScanWord(s, WordState(i + 2, i, i, next, false, '>', false, SDOut), '"', '"')
  {
    DigitStep(s, i, next);
    HandleOutStep(s, i, next);
  }

  /** '&' and a digit after a handle redirection complete "2>&1". */
  lemma HandleDuplicate(s: seq<char>, i: nat, next: bool)
    requires i + 3 < |s| && s[i + 2] == '&' && IsDigit(s[i + 3])
    ensures ScanWord(s, WordState(i + 2, i, i, next, false, '>', false, SDOut), '"', '"') ==
            ScanWord(s, WordState(i + 4, i, i, next, false, s[i + 3], false, SAmDi), '"', '"')
  {
    HandleAmpStep(s, i, next);
    HandleTargetStep(s, i, next);
  }

  /** After "2>&1" and separators the next word starts at k, unflagged. */
  lemma AfterDuplicate(s: seq<char>, i: nat, k: nat, e: nat, next: bool)
    requires i + 4 <= k < e < |s|
    requires forall m :: i + 4 <= m < k ==> SeparatorAt(s, m)
    requires forall m :: k <= m < e ==> WordCharAt(s, m, '"')
    requires SeparatorAt(s, e)
    ensures ScanWord(s, WordState(i + 4, i, i, next, false, s[i + 3], false, SAmDi), '"', '"') ==
            Some(WordState(e + 1, k, e, false, false, s[e], false, STxt))
  {
    RestartAfterHandleStep(s, i, k, next);
    PlainWordTo(s, k, e, false);
  }

  lemma DuplicatedHandleScan(s: seq<char>, i: nat, k: nat, e: nat, next: bool)
    requires DuplicateThenWord(s, i, k, e)
    ensures ScanWord(s, Fresh(i, next), '"', '"') == Some(WordState(e + 1, k, e, false, false, s[e], false, STxt))
  {
    HandleRedirect(s, i, next);
    HandleDuplicate(s, i, next);
    AfterDuplicate(s, i, k, e, next);
  }

  /** "2>&1" yields no word: the word after it is returned, and it is not flagged. */
  lemma DuplicatedHandle(s: seq<char>, i: nat, k: nat, e: nat, next: bool, qp: seq<char>)
    requires OpeningQuote(qp) == '"' && DuplicateThenWord(s, i, k, e)
    ensures WordNext(s, i, next, qp) == Tokenised(Word(k, e - k, if More(s, e + 1) then s[e] else '\0', false), e + 1, false)
  {
    DuplicatedHandleScan(s, i, k, e, next);
    WordNextFromScan(s, i, next, qp, WordState(e + 1, k, e, false, false, s[e], false, STxt));
  }

  lemma DigitSpaceScan(s: seq<char>, i: nat, next: bool)
    requires i + 1 < |s| && IsDigit(s[i]) && (s[i + 1] == ' ' || s[i + 1] == '\t')
    ensures ScanWord(s, Fresh(i, next), '"', '"') == Some(WordState(i + 2, i, i + 1, next, false, s[i + 1], false, SDig))
  {
    DigitStep(s, i, next);
    DigitSpaceDone(s, i, next);
  }

  /** A digit followed by a space or tab stays a word of its own. */
  lemma DigitSpaceIsWord(s: seq<char>, i: nat, next: bool, qp: seq<char>)
    requires OpeningQuote(qp) == '"'
    requires i + 1 < |s| && IsDigit(s[i]) && (s[i + 1] == ' ' || s[i + 1] == '\t')
    ensures WordNext(s, i, next, qp) == Tokenised(Word(i, 1, if More(s, i + 2) then s[i + 1] else '\0', next), i + 2, false)
  {
    DigitSpaceScan(s, i, next);
    WordNextFromScan(s, i, next, qp, WordState(i + 2, i, i + 1, next, false, s[i + 1], false, SDig));
  }

  // ---------------------------------------------------------------------
  // The tokeniser objects

  /** Skips the run of '&' and '|' before a command. */
  method SkipBreakRun(s: seq<char>, i: nat) returns (k: nat)
    requires i <= |s|
    ensures k == SkipBreaks(s, i)
  {
    k := i;
    while More(s, k) && (s[k] == '&' || s[k] == '|')
      invariant i <= k <= |s| && SkipBreaks(s, k) == SkipBreaks(s, i)
      decreases |s| - k
    {
      k := k + 1;
    }
  }

  /** The body of the command loop. */
  method CommandStepAt(s: seq<char>, j: nat, st: State, inQuote: bool, oq: char, cq: char) returns (m: CmdStep)
    requires More(s, j) && HasRow(st)
    ensures m == CommandStep(s, j, st, inQuote, oq, cq)
  {
    var c := s[j];
    var k := j + 1;
    if inQuote {
      var q := true;
      if c == cq {
        q := false;
      } else if c == '^' && More(s, k) {
        k := k + 1;
      }
      return Moved(k, st, q, c);
    }
    if c == '^' && More(s, k) {
      k := k + 1;
    }
    var input := InputType(c);
    var next := Transition(st, input);
    if next == SArg || next == SValid || next == SBad {
      next := Transition(SSpc, input);
    }
    if next == SBreak {
      return Broke(c);
    }
    return Moved(k, next, c == oq, c);
  }

  /** The main loop of the command tokeniser, from the command's offset. */
  method ScanCommandLoop(s: seq<char>, offset: nat, oq: char, cq: char) returns (e: ScanEnd)
    requires offset <= |s|
    ensures e == ScanCommand(s, offset, SSpc, false, '\0', oq, cq)
  {
    var j := offset;
    var c, inQuote, state := '\0', false, SSpc;
    ghost var goal := ScanCommand(s, offset, SSpc, false, '\0', oq, cq);
    while More(s, j)
      invariant offset <= j <= |s| && HasRow(state)
      invariant ScanCommand(s, j, state, inQuote, c, oq, cq) == goal
      decreases |s| - j
    {
      var m := CommandStepAt(s, j, state, inQuote, oq, cq);
      match m {
        case Broke(b) =>
          return ScanEnd(j + 1, true, b);
        case Moved(j2, st2, q2, c2) =>
          j, state, inQuote, c := j2, st2, q2, c2;
      }
    }
    return ScanEnd(j, false, c);
  }

  /** The body of cmd_command_tokeniser::next on the text s from the iterator at i. */
  method CommandNextAt(s: seq<char>, i: nat, qp: seq<char>) returns (r: Scanned)
    requires i <= |s|
    ensures r == CommandNext(s, i, qp)
  {
    if !More(s, i) {
      return Scanned(Invalid, i);
    }
    var oq, cq := OpeningQuote(qp), ClosingQuote(qp);
    var j := SkipBreakRun(s, i);
    var first := j == 0;
    if !first && More(s, j) && s[j] == ' ' {
      j := j + 1;
    }
    var e := ScanCommandLoop(s, j, oq, cq);
    return CommandWord(s, j, e);
  }

  /** cmd_command_tokeniser: the text it was started on and its iterator. */
  class CommandTokeniser {
    var text: seq<char>
    var iter: nat
    var quotePair: seq<char>

    constructor ()
      ensures text == [] && iter == 0 && quotePair == []
    {
      text, iter, quotePair := [], 0, [];
    }

    method Start(s: seq<char>, qp: seq<char>)
      modifies this
      ensures text == s && iter == 0 && quotePair == qp
    {
      text, iter, quotePair := s, 0, qp;
    }

    method Next() returns (tok: Token)
      requires iter <= |text|
      modifies this
      ensures text == old(text) && quotePair == old(quotePair)
      ensures CommandNext(text, old(iter), quotePair) == Scanned(tok, iter)
    {
      var r := CommandNextAt(text, iter, quotePair);
      tok, iter := r.token, r.iter;
    }
  }

  /** start_new_word's loop over the separators " \t=;". */
  method SkipSeparatorRun(s: seq<char>, j: nat) returns (k: nat)
    requires j <= |s|
    ensures k == SkipSeparators(s, j)
  {
    k := j;
    while More(s, k) && WordSeparator(s[k])
      invariant j <= k <= |s| && SkipSeparators(s, k) == SkipSeparators(s, j)
      decreases |s| - k
    {
      k := k + 1;
    }
  }

  /** The body of the word loop. */
  method WordStepAt(s: seq<char>, w: WordState, oq: char, cq: char) returns (m: WordStep)
    requires WordOk(s, w)
    ensures m == StepWord(s, w, oq, cq)
  {
    if w.inQuote {
      if !More(s, w.j) {
        return WDone(w);
      }
      var c := s[w.j];
      var j := w.j + 1;
      if c != cq && c == '^' && More(s, j) {
        j := j + 1;
      }
      return WNext(w.(j := j, end := j, c := c, inQuote := c != cq));
    }
    var c := Peek(s, w.j);
    var n := Transition(w.st, InputType(c));
    if n == SBreak {
      return WBreak;
    }
    var v := w.(c := c);
    if EndsRedir(n) {
      if w.end > w.start {
        return WDone(v.(next := n.SArg?));
      }
      var k := SkipSeparatorRun(s, w.j);
      var c2 := Peek(s, k);
      v := WordState(k, k, k, n.SArg?, false, c2, false, SSpc);
      n := Transition(SSpc, InputType(c2));
      if n == SBreak {
        return WBreak;
      }
    }
    m := WordTailAt(s, v, n, oq);
  }

  method WordTailAt(s: seq<char>, w: WordState, n: State, oq: char) returns (m: WordStep)
    requires WordOk(s, w) && HasRow(n) && !w.inQuote
    ensures m == WordTail(s, w, n, oq)
  {
    var end := w.end;
    if n == SSpc && (w.st == STxt || w.st == SSpc || w.st == SDig) {
      end := w.j;
    }
    if !More(s, w.j) {
      return WDone(w.(end := end));
    }
    var j := w.j + 1;
    if w.c == '^' && More(s, j) {
      j := j + 1;
    }
    if n == SSpc || (n == STxt && (w.c == '=' || w.c == ';')) {
      return WDone(w.(end := end, j := j));
    }
    if n == STxt {
      end := j;
    }
    return WNext(w.(j := j, end := end, inQuote := w.c == oq, st := n));
  }

  /** The main loop of the word tokeniser. */
  method ScanWordLoop(s: seq<char>, w0: WordState, oq: char, cq: char) returns (r: Option<WordState>)
    requires WordOk(s, w0)
    ensures r == ScanWord(s, w0, oq, cq)
  {
    var w := w0;
    while true
      invariant WordOk(s, w) && ScanWord(s, w, oq, cq) == ScanWord(s, w0, oq, cq)
      decreases |s| - w.j
    {
      var m := WordStepAt(s, w, oq, cq);
      match m {
        case WBreak =>
          return None;
        case WDone(w2) =>
          return Some(w2);
        case WNext(w2) =>
          w := w2;
      }
    }
  }

  /** The body of cmd_word_tokeniser::next on the text s from the iterator at i. */
  method WordNextAt(s: seq<char>, i: nat, next: bool, qp: seq<char>) returns (r: Tokenised)
    requires i <= |s|
    ensures r == WordNext(s, i, next, qp)
  {
    if !More(s, i) {
      return Tokenised(Invalid, i, next);
    }
    var oq, cq := OpeningQuote(qp), ClosingQuote(qp);
    var k := SkipSeparatorRun(s, i);
    var m := ScanWordLoop(s, Fresh(k, next), oq, cq);
    return Outcome(s, i, next, m);
  }

  /** cmd_word_tokeniser: the text, its iterator and the redirection flag carried between calls. */
  class WordTokeniser {
    var text: seq<char>
    var iter: nat
    var quotePair: seq<char>
    var nextRedirArg: bool

    constructor ()
      ensures text == [] && iter == 0 && quotePair == [] && !nextRedirArg
    {
      text, iter, quotePair, nextRedirArg := [], 0, [], false;
    }

    method Start(s: seq<char>, qp: seq<char>)
      modifies this
      ensures text == s && iter == 0 && quotePair == qp && !nextRedirArg
    {
      text, iter, quotePair, nextRedirArg := s, 0, qp, false;
    }

    method Next() returns (tok: Token)
      requires iter <= |text|
      modifies this
      ensures text == old(text) && quotePair == old(quotePair)
      ensures WordNext(text, old(iter), old(nextRedirArg), quotePair) == Tokenised(tok, iter, nextRedirArg)
    {
      var r := WordNextAt(text, iter, nextRedirArg, quotePair);
      tok, iter, nextRedirArg := r.token, r.iter, r.nextRedir;
    }
  }
}
