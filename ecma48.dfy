// The ECMA-48 terminal's SGR (select graphic rendition) handling, which
// folds a CSI ... m parameter list into a Windows console character
// attribute, and the input queue of its xterm input reader.
module Ecma48 {
  import opened Common
  import opened TerminalIn

  /** A console character attribute (a WORD): bits 0-2 the foreground
    * blue, green and red, bit 3 foreground intensity, bits 4-6 the
    * background colour and bit 7 background intensity. */
  type Attr = bv16

  /** sgr_to_attr: ANSI colour numbers (red = 1, green = 2, blue = 4) to
    * console colour bits (blue = 1, green = 2, red = 4). */
  const SgrToAttr: seq<Attr> := [0, 4, 2, 6, 1, 5, 3, 7]

  /** The table swaps the red and blue bits and keeps green. */
  lemma SgrToAttrSwapsRedBlue(c: bv16)
    requires c < 8
    ensures SgrToAttr[c as int] == ((c & 1) << 2) | (c & 2) | ((c & 4) >> 2)
  {
    if c == 0 {} else if c == 1 {} else if c == 2 {} else if c == 3 {}
    else if c == 4 {} else if c == 5 {} else if c == 6 {} else {}
  }

  /** The attribute after one SGR parameter other than 38 and 48. */
  function SgrCode(attr: Attr, def: Attr, p: nat): (r: Attr)
  {
    if p == 0 then def
    else if p == 1 then attr | 0x08
    else if p == 2 || p == 22 then attr & !0x08
    else if p == 4 then attr | 0x80
    else if p == 24 then attr & !0x80
    else if 30 <= p < 38 then (attr & 0xf8) | SgrToAttr[p - 30]
    else if 90 <= p < 98 then ((attr | 0x08) & 0xf8) | SgrToAttr[p - 90]
    else if p == 39 then (attr & 0xf8) | (def & 0x07)
    else if 40 <= p < 48 then (attr & 0x8f) | (SgrToAttr[p - 40] << 4)
    else if 100 <= p < 108 then ((attr | 0x80) & 0x8f) | (SgrToAttr[p - 100] << 4)
    else if p == 49 then (attr & 0x8f) | (def & 0x70)
    else attr
  }

  /** 0 restores the default attribute. */
  lemma SgrReset(attr: Attr, def: Attr)
    ensures SgrCode(attr, def, 0) == def
  {
  }

  /** 1 sets foreground intensity; no other bit changes. */
  lemma SgrBold(attr: Attr, def: Attr)
    ensures var r := SgrCode(attr, def, 1);
            r & 0x08 == 0x08 && r & !0x08 == attr & !0x08
  {
    assert SgrCode(attr, def, 1) == attr | 0x08;
  }

  /** 2 and 22 clear foreground intensity; no other bit changes. */
  lemma SgrNormalIntensity(attr: Attr, def: Attr, p: nat)
    requires p == 2 || p == 22
    ensures var r := SgrCode(attr, def, p);
            r & 0x08 == 0 && r & !0x08 == attr & !0x08
  {
    assert SgrCode(attr, def, p) == attr & !0x08;
  }

  /** 4 sets and 24 clears background intensity; no other bit changes. */
  lemma SgrBackgroundIntensity(attr: Attr, def: Attr, p: nat)
    requires p == 4 || p == 24
    ensures var r := SgrCode(attr, def, p);
            r & !0x80 == attr & !0x80 && (r & 0x80 == 0x80 <==> p == 4)
  {
    if p == 4 {
      assert SgrCode(attr, def, p) == attr | 0x80;
    } else {
      assert SgrCode(attr, def, p) == attr & !0x80;
    }
  }

  /** 30-37 replace the three foreground colour bits by the table entry;
    * the other low bits stay and the high byte is cleared. */
  lemma SgrForeground(attr: Attr, def: Attr, p: nat)
    requires 30 <= p < 38
    ensures var r := SgrCode(attr, def, p);
            r & 0x07 == SgrToAttr[p - 30] && r & 0xf8 == attr & 0xf8 && r & 0xff00 == 0
  {
  }

  /** 90-97 do the same and also set foreground intensity. */
  lemma SgrBrightForeground(attr: Attr, def: Attr, p: nat)
    requires 90 <= p < 98
    ensures var r := SgrCode(attr, def, p);
            r & 0x07 == SgrToAttr[p - 90] && r & 0x08 == 0x08 && r & 0xf0 == attr & 0xf0 && r & 0xff00 == 0
  {
  }

  /** 40-47 replace the three background colour bits by the table entry. */
  lemma SgrBackground(attr: Attr, def: Attr, p: nat)
    requires 40 <= p < 48
    ensures var r := SgrCode(attr, def, p);
            r & 0x70 == SgrToAttr[p - 40] << 4 && r & 0x8f == attr & 0x8f && r & 0xff00 == 0
  {
  }

  /** 100-107 do the same and also set background intensity. */
  lemma SgrBrightBackground(attr: Attr, def: Attr, p: nat)
    requires 100 <= p < 108
    ensures var r := SgrCode(attr, def, p);
            r & 0x70 == SgrToAttr[p - 100] << 4 && r & 0x80 == 0x80 && r & 0x0f == attr & 0x0f && r & 0xff00 == 0
  {
  }

  /** 39 restores the default foreground colour bits. */
  lemma SgrDefaultForeground(attr: Attr, def: Attr)
    ensures var r := SgrCode(attr, def, 39);
            r & 0x07 == def & 0x07 && r & 0xf8 == attr & 0xf8 && r & 0xff00 == 0
  {
    assert SgrCode(attr, def, 39) == (attr & 0xf8) | (def & 0x07);
  }

  /** 49 restores the default background colour bits. */
  lemma SgrDefaultBackground(attr: Attr, def: Attr)
    ensures var r := SgrCode(attr, def, 49);
            r & 0x70 == def & 0x70 && r & 0x8f == attr & 0x8f && r & 0xff00 == 0
  {
    assert SgrCode(attr, def, 49) == (attr & 0x8f) | (def & 0x70);
  }

  /** Every other parameter is ignored. */
  lemma SgrUnsupported(attr: Attr, def: Attr, p: nat)
    requires !(p in {0, 1, 2, 22, 4, 24, 39, 49} || 30 <= p < 38 || 90 <= p < 98 || 40 <= p < 48 || 100 <= p < 108)
    ensures SgrCode(attr, def, p) == attr
  {
  }

  /** How many parameters follow the colour-space selector of a 38 or 48:
    * three after 2 (r;g;b), one after 5 (a palette index), else none. */
  function ExtendedSkip(selector: nat): (n: nat)
  {
    if selector == 2 then 3 else if selector == 5 then 1 else 0
  }

  /** The attribute after a whole parameter list: each code in turn, a 38
    * or 48 swallowing its selector and the selector's arguments, a 38 or
    * 48 at the very end ending the list. */
  function SgrApply(attr: Attr, def: Attr, ps: seq<nat>): (r: Attr)
    decreases |ps|
  {
    if |ps| == 0 then attr
    else if ps[0] == 38 || ps[0] == 48 then
      if |ps| == 1 then attr
      else SgrApply(attr, def, ps[Min(|ps|, 2 + ExtendedSkip(ps[1]))..])
    else SgrApply(SgrCode(attr, def, ps[0]), def, ps[1..])
  }

  /** Unfolding SgrApply at position i for an ordinary code. */
  lemma SgrApplyCode(attr: Attr, def: Attr, ps: seq<nat>, i: nat)
    requires i < |ps| && ps[i] != 38 && ps[i] != 48
    ensures SgrApply(attr, def, ps[i..]) == SgrApply(SgrCode(attr, def, ps[i]), def, ps[i + 1..])
  {
    assert ps[i..][1..] == ps[i + 1..];
  }

  /** Unfolding SgrApply at position i for a 38 or 48 followed by its
    * selector at i + 1. */
  lemma SgrApplyExtended(attr: Attr, def: Attr, ps: seq<nat>, i: nat)
    requires i + 1 < |ps| && (ps[i] == 38 || ps[i] == 48)
    ensures SgrApply(attr, def, ps[i..]) == SgrApply(attr, def, ps[Min(|ps|, i + 2 + ExtendedSkip(ps[i + 1]))..])
  {
    assert ps[i..][Min(|ps| - i, 2 + ExtendedSkip(ps[i + 1]))..] == ps[Min(|ps|, i + 2 + ExtendedSkip(ps[i + 1]))..];
  }

  /** After a 0 the attribute held before no longer matters. */
  lemma ResetForgetsAttr(a: Attr, b: Attr, def: Attr, rest: seq<nat>)
    ensures SgrApply(a, def, [0] + rest) == SgrApply(b, def, [0] + rest) == SgrApply(def, def, rest)
  {
    assert ([0] + rest)[1..] == rest;
  }

  /** 38;5;n and 48;5;n leave the attribute alone and are consumed whole. */
  lemma PaletteColourSkipped(attr: Attr, def: Attr, p: nat, n: nat, rest: seq<nat>)
    requires p == 38 || p == 48
    ensures SgrApply(attr, def, [p, 5, n] + rest) == SgrApply(attr, def, rest)
  {
    assert ([p, 5, n] + rest)[3..] == rest;
  }

  /** 38;2;r;g;b and 48;2;r;g;b leave the attribute alone and are consumed
    * whole. */
  lemma RgbColourSkipped(attr: Attr, def: Attr, p: nat, red: nat, green: nat, blue: nat, rest: seq<nat>)
    requires p == 38 || p == 48
    ensures SgrApply(attr, def, [p, 2, red, green, blue] + rest) == SgrApply(attr, def, rest)
  {
    assert ([p, 2, red, green, blue] + rest)[5..] == rest;
  }

  /** A foreground colour leaves the background bits, and a background
    * colour the foreground bits, as they were. */
  lemma ColoursIndependent(attr: Attr, def: Attr, fg: nat, bg: nat)
    requires 30 <= fg < 38 && 40 <= bg < 48
    ensures SgrCode(SgrCode(attr, def, fg), def, bg) & 0x07 == SgrToAttr[fg - 30]
    ensures SgrCode(SgrCode(attr, def, bg), def, fg) & 0x70 == SgrToAttr[bg - 40] << 4
  {
  }

  /** ecma48_terminal's rendition state. */
  class Terminal {
    var defaultAttr: Attr
    var attr: Attr
    var enableSgr: bool

    constructor()
      ensures defaultAttr == 0 && attr == 0 && enableSgr
    {
      defaultAttr := 0;
      attr := 0;
      enableSgr := true;
    }

    /** begin(): the console's current attributes become the default and
      * the current attribute. */
    method Begin(consoleAttr: Attr)
      modifies this
      ensures defaultAttr == consoleAttr && attr == consoleAttr && enableSgr == old(enableSgr)
    {
      defaultAttr := consoleAttr;
      attr := consoleAttr;
    }

    /** write_sgr: applies the parameters in order. */
    method WriteSgr(params: seq<nat>)
      modifies this
      ensures attr == SgrApply(old(attr), defaultAttr, params)
      ensures defaultAttr == old(defaultAttr) && enableSgr == old(enableSgr)
    {
      var i := 0;
      while i < |params|
        invariant defaultAttr == old(defaultAttr) && enableSgr == old(enableSgr)
        invariant SgrApply(attr, defaultAttr, params[Min(i, |params|)..]) == SgrApply(old(attr), defaultAttr, params)
        decreases |params| - i
      {
        i := SgrTurn(params, i);
      }
    }

    /** One turn of write_sgr's loop: the parameter at i, and the
      * sub-parameters a 38 or 48 consumes; returns the next index. */
    method SgrTurn(params: seq<nat>, i: nat) returns (next: nat)
      requires i < |params|
      modifies this
      ensures next > i && defaultAttr == old(defaultAttr) && enableSgr == old(enableSgr)
      ensures SgrApply(attr, defaultAttr, params[Min(next, |params|)..]) == SgrApply(old(attr), defaultAttr, params[i..])
    {
      var param := params[i];
      if param == 38 || param == 48 {
        if i + 1 >= |params| {
          return i + 1;
        }
        SgrApplyExtended(attr, defaultAttr, params, i);
        next := i + 2 + ExtendedSkip(params[i + 1]);
      } else {
        SgrApplyCode(attr, defaultAttr, params, i);
        attr := SgrCode(attr, defaultAttr, param);
        next := i + 1;
      }
    }

    /** write_csi: a CSI whose final byte is 'm' changes the attribute while
      * SGR support is enabled; every other sequence is written out. */
    method WriteCsi(func: char, params: seq<nat>)
      modifies this
      ensures attr == (if func == 'm' && old(enableSgr) then SgrApply(old(attr), defaultAttr, params) else old(attr))
      ensures defaultAttr == old(defaultAttr) && enableSgr == old(enableSgr)
    {
      if func == 'm' && enableSgr {
        WriteSgr(params);
      }
    }
  }

  /** xterm_input's queue: the same push and pop as the console input
    * buffer's. */
  class XtermInput {
    const queue: InputBuffer

    ghost predicate Valid()
      reads this, queue
    {
      queue.Valid()
    }

    constructor(size: nat)
      requires IsPow2(size)
      ensures Valid() && fresh(queue) && fresh(queue.buffer) && queue.Contents() == []
    {
      queue := new InputBuffer(size);
    }

    /** push(unsigned), with the count kept to the bytes stored. */
    method Push(value: nat, encoded: seq<byte>)
      requires Valid()
      modifies queue, queue.buffer
      ensures Valid()
      ensures queue.Contents() == ValueQueued(old(queue.Contents()), queue.size, value, encoded)
    {
      queue.PushValue(value, encoded);
    }

    /** pop(): 0xff when empty, else the oldest byte. */
    method Pop() returns (value: byte)
      requires Valid()
      modifies queue
      ensures Valid()
      ensures old(queue.count) == 0 ==> value == 0xff && queue.Contents() == old(queue.Contents())
      ensures old(queue.count) > 0 ==> value == old(queue.Contents())[0] && queue.Contents() == old(queue.Contents())[1..]
    {
      value := queue.Pop();
    }
  }
}
